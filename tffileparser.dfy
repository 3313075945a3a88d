/**
 * The reader of the TF species table (src/utils/TFfileParser.java). The
 * CSV file arrives already split (`CSVparser` is not part of this
 * model): whether it loaded, whether its rows differ in size, the column
 * of each header name and the data rows. The 31 header names
 * (`Constants.PARSER_TF_CSV_FILE_HEADER`) are a parameter, and so is the
 * reading of a double. Every row starts from the defaults, a present
 * column overrides its field, and each row with a positive copy number
 * becomes the next species.
 */
module TfFileParser {
  import opened Wrappers
  import opened JUtils

  /** How a column is read: kept as text, as the initial-drop text, or parsed with a fallback. */
  datatype Kind = TextKind | DropKind | DoubleKind | IntKind | BoolKind

  /** A field of a species row. `DropValue(None)` is the whole DNA, the default drop. */
  datatype Value = TextValue(s: string) | DropValue(text: Option<string>) | DoubleValue(r: real)
                 | IntValue(i: int) | BoolValue(b: bool)

  const FIELD_COUNT: nat := 31
  const NAME: nat := 0
  const DBD: nat := 1
  const COPY_NUMBER: nat := 3
  const INITIAL_DROP: nat := 7

  /**
   * The kind of each column, in header order: name, DBD, es, copy number,
   * size left and right, association rate, initial drop, the four move
   * probabilities, hop displacement, waiting time, the two step sizes,
   * the uncorrelated displacement, stalls-if-blocked, collision
   * unbinding, roughness, prebound proportion, prebound-to-highest,
   * immobile, biased and two-state walks, repression rate, derepression
   * attenuation, the two repression lengths, the energy threshold, tau.
   */
  const KINDS: seq<Kind> := [
    TextKind, TextKind, DoubleKind, IntKind, IntKind, IntKind, DoubleKind, DropKind,
    DoubleKind, DoubleKind, DoubleKind, DoubleKind, DoubleKind, DoubleKind,
    IntKind, IntKind, IntKind, BoolKind, DoubleKind, DoubleKind, DoubleKind,
    BoolKind, BoolKind, BoolKind, BoolKind, DoubleKind, DoubleKind, IntKind, IntKind,
    DoubleKind, DoubleKind]

  predicate HasKind(v: Value, k: Kind) {
    match k
    case TextKind => v.TextValue?
    case DropKind => v.DropValue?
    case DoubleKind => v.DoubleValue?
    case IntKind => v.IntValue?
    case BoolKind => v.BoolValue?
  }

  /** The values each row starts from: the caller's defaults, an empty name and DBD, the whole DNA as drop. */
  predicate IsDefaults(d: seq<Value>) {
    |KINDS| == FIELD_COUNT && |d| == FIELD_COUNT &&
    (forall k :: 0 <= k < FIELD_COUNT ==> HasKind(d[k], KINDS[k])) &&
    d[NAME] == TextValue("") && d[DBD] == TextValue("") && d[INITIAL_DROP] == DropValue(None)
  }

  /** A cell read as its column's kind; a parse failure keeps the default. */
  function Convert(k: Kind, default: Value, cell: string, parseReal: string -> Option<real>): (v: Value)
    requires HasKind(default, k)
  {
    match k
    case TextKind => TextValue(cell)
    case DropKind => DropValue(Some(cell))
    case DoubleKind => DoubleValue(ParseDouble(parseReal(cell), default.r))
    case IntKind => IntValue(ParseInteger(cell, default.i))
    case BoolKind => BoolValue(ParseBoolean(cell, default.b))
  }

  /** The table as `CSVparser` leaves it. */
  datatype Csv = Csv(loaded: bool, hasVariousRowSizes: bool, header: map<string, nat>, data: seq<seq<string>>)

  /** Every named column exists in every row. */
  predicate Indexable(csv: Csv) {
    forall r, key :: r in csv.data && key in csv.header ==> csv.header[key] < |r|
  }

  /** One row's fields: each column present overrides its default. */
  function RowValues(header: map<string, nat>, headers: seq<string>, row: seq<string>, defaults: seq<Value>,
                     parseReal: string -> Option<real>): (v: seq<Value>)
    requires |headers| == FIELD_COUNT && IsDefaults(defaults)
    requires forall key :: key in header ==> header[key] < |row|
    ensures |v| == FIELD_COUNT
  {
    seq(FIELD_COUNT, k requires 0 <= k < FIELD_COUNT =>
      if headers[k] in header then Convert(KINDS[k], defaults[k], row[header[headers[k]]], parseReal) else defaults[k])
  }

  /** A row kept as a species: its id, its fields, and whether it is cognate. */
  datatype SpeciesRow = SpeciesRow(id: int, values: seq<Value>, isCognate: bool)

  function CopyNumber(values: seq<Value>): int
  {
    if |values| > COPY_NUMBER && values[COPY_NUMBER].IntValue? then values[COPY_NUMBER].i else 0
  }

  /**
   * The species the rows give, in order. `isCognate` is computed from a
   * DBD byte array that is still empty at that point.
   */
  function Species(csv: Csv, headers: seq<string>, defaults: seq<Value>, parseReal: string -> Option<real>, n: nat): seq<SpeciesRow>
    requires |headers| == FIELD_COUNT && IsDefaults(defaults) && Indexable(csv) && n <= |csv.data|
  {
    if n == 0 then []
    else
      var before := Species(csv, headers, defaults, parseReal, n - 1);
      var values := RowValues(csv.header, headers, csv.data[n - 1], defaults, parseReal);
      var noBytes: seq<int> := [];
      before + if CopyNumber(values) > 0 then [SpeciesRow(|before|, values, |noBytes| > 0)] else []
  }

  /** The number of rows, among the first n, whose copy number is positive. */
  function Kept(csv: Csv, headers: seq<string>, defaults: seq<Value>, parseReal: string -> Option<real>, n: nat): nat
    requires |headers| == FIELD_COUNT && IsDefaults(defaults) && Indexable(csv) && n <= |csv.data|
  {
    if n == 0 then 0
    else
      var values := RowValues(csv.header, headers, csv.data[n - 1], defaults, parseReal);
      Kept(csv, headers, defaults, parseReal, n - 1) + (if CopyNumber(values) > 0 then 1 else 0)
  }

  /**
   * The species are numbered 0, 1, 2, … in row order, each has a
   * positive copy number, none is cognate, and there is one per row with
   * a positive copy number.
   */
  lemma {:induction false} SpeciesNumbered(csv: Csv, headers: seq<string>, defaults: seq<Value>,
                                           parseReal: string -> Option<real>, n: nat)
    requires |headers| == FIELD_COUNT && IsDefaults(defaults) && Indexable(csv) && n <= |csv.data|
    ensures var s := Species(csv, headers, defaults, parseReal, n);
      |s| == Kept(csv, headers, defaults, parseReal, n) &&
      forall i :: 0 <= i < |s| ==> s[i].id == i && CopyNumber(s[i].values) > 0 && !s[i].isCognate
  {
    if n > 0 {
      SpeciesNumbered(csv, headers, defaults, parseReal, n - 1);
    }
  }

  /** Every kept species comes from a data row: its fields are that row's fields. */
  lemma {:induction false} SpeciesFromRows(csv: Csv, headers: seq<string>, defaults: seq<Value>,
                                           parseReal: string -> Option<real>, n: nat)
    requires |headers| == FIELD_COUNT && IsDefaults(defaults) && Indexable(csv) && n <= |csv.data|
    ensures forall sp :: sp in Species(csv, headers, defaults, parseReal, n) ==>
      exists r :: 0 <= r < n && sp.values == RowValues(csv.header, headers, csv.data[r], defaults, parseReal)
  {
    if n > 0 {
      SpeciesFromRows(csv, headers, defaults, parseReal, n - 1);
      var values := RowValues(csv.header, headers, csv.data[n - 1], defaults, parseReal);
      forall sp | sp in Species(csv, headers, defaults, parseReal, n)
        ensures exists r :: 0 <= r < n && sp.values == RowValues(csv.header, headers, csv.data[r], defaults, parseReal)
      {
        if sp !in Species(csv, headers, defaults, parseReal, n - 1) {
          assert sp.values == values;
        }
      }
    }
  }

  /** A column that is missing leaves its default; a present one is read from the row's cell. */
  lemma RowValueSource(header: map<string, nat>, headers: seq<string>, row: seq<string>, defaults: seq<Value>,
                       parseReal: string -> Option<real>, k: nat)
    requires |headers| == FIELD_COUNT && IsDefaults(defaults) && k < FIELD_COUNT
    requires forall key :: key in header ==> header[key] < |row|
    ensures var v := RowValues(header, headers, row, defaults, parseReal)[k];
      HasKind(v, KINDS[k]) &&
      (headers[k] !in header ==> v == defaults[k]) &&
      (headers[k] in header && KINDS[k] == IntKind ==>
         v.i == defaults[k].i || IsInt(v.i)) &&
      (headers[k] in header && KINDS[k] == DoubleKind && parseReal(row[header[headers[k]]]).None? ==>
         v == defaults[k]) &&
      (headers[k] in header && KINDS[k] == TextKind ==> v == TextValue(row[header[headers[k]]]))
  {
  }

  /** `hasAllHeaders`' loop: false as soon as a header name is not a column. */
  method CheckHeaders(headers: seq<string>, header: map<string, nat>) returns (all: bool)
    ensures all <==> forall k :: 0 <= k < |headers| ==> headers[k] in header
  {
    all := true;
    var k := 0;
    while k < |headers|
      invariant 0 <= k <= |headers|
      invariant all <==> forall j :: 0 <= j < k ==> headers[j] in header
    {
      if headers[k] !in header {
        all := false;
      }
      k := k + 1;
    }
  }

  /** The row loop: the species of the first n rows, ids counted as they are appended. */
  method ReadRows(csv: Csv, headers: seq<string>, defaults: seq<Value>, parseReal: string -> Option<real>)
    returns (data: seq<SpeciesRow>)
    requires |headers| == FIELD_COUNT && IsDefaults(defaults) && Indexable(csv)
    ensures data == Species(csv, headers, defaults, parseReal, |csv.data|)
  {
    data := [];
    var id := 0;
    var i := 0;
    while i < |csv.data|
      invariant 0 <= i <= |csv.data|
      invariant data == Species(csv, headers, defaults, parseReal, i) && id == |data|
    {
      var values := RowValues(csv.header, headers, csv.data[i], defaults, parseReal);
      var dbd: seq<int> := [];
      var isCognate := |dbd| > 0;
      if CopyNumber(values) > 0 {
        data := data + [SpeciesRow(id, values, isCognate)];
        id := id + 1;
      }
      i := i + 1;
    }
  }

  class TFfileParser {
    var data: seq<SpeciesRow>
    var loaded: bool
    var hasVariousRowSizes: bool
    var hasAllHeaders: bool
    var parsed: bool

    /**
     * The constructor: a table that loaded with uniform rows has every
     * row read; `hasAllHeaders` says whether every header name is a
     * column and `parsed` whether there was a data row.
     */
    constructor (csv: Csv, headers: seq<string>, defaults: seq<Value>, parseReal: string -> Option<real>)
      requires |headers| == FIELD_COUNT && IsDefaults(defaults) && Indexable(csv)
      ensures loaded == csv.loaded && hasVariousRowSizes == csv.hasVariousRowSizes
      ensures var ok := csv.loaded && !csv.hasVariousRowSizes;
        (hasAllHeaders <==> ok && forall k :: 0 <= k < |headers| ==> headers[k] in csv.header) &&
        (parsed <==> ok && |csv.data| > 0) &&
        data == (if ok then Species(csv, headers, defaults, parseReal, |csv.data|) else [])
    {
      parsed := false;
      data := [];
      hasAllHeaders := false;
      loaded := csv.loaded;
      hasVariousRowSizes := csv.hasVariousRowSizes;
      if csv.loaded && !csv.hasVariousRowSizes {
        var all := CheckHeaders(headers, csv.header);
        hasAllHeaders := all;
        if |csv.data| > 0 {
          parsed := true;
        }
        var rows := ReadRows(csv, headers, defaults, parseReal);
        data := rows;
      }
    }
  }
}
