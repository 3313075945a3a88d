/**
 * The position frequency (weight) matrix of a TF's DNA-binding domain
 * (src/objects/PFM.java), and the PWM affinity that is computed from it
 * (src/utils/CellUtils.java). A matrix is given as text such as
 * `A=[3, 1, 5]; C=[1, 1, 2]; G=[4, 1, 1]; T=[1, 6, 1]` after a type marker.
 *
 * The alphabet (`CellUtils.bps`) and the marker and separator constants are
 * parameters: a base's id is its index in the letter table. Reading one
 * number (`Utils.parseDouble(text, 0)`) is a function parameter, since it
 * parses a Java double.
 */
module Pfm {
  import opened Wrappers
  import opened Text
  import opened PfmScores
  import CellUtils

  /** The base-pair letters, one per id, and the id of the ANY wildcard. */
  datatype Alphabet = Alphabet(letters: seq<char>, any: nat)
  {
    predicate Valid() {
      any < |letters| && forall i, j :: 0 <= i < j < |letters| ==> letters[i] != letters[j]
    }
  }

  /** The type marker and the three separators of the matrix text. */
  datatype PfmSyntax = PfmSyntax(marker: string, sep: char, assign: char, comma: char)

  /**
   * Why loading stops: the marker or the base separator is missing (the
   * simulation is stopped), or a row's bracket text is shorter than two
   * characters (the substring calls throw).
   */
  datatype PfmError = NoMarker | NoSeparator | RowTooShort

  /** What one `X = [...]` segment contributes. */
  datatype Segment = Skipped | Row(id: nat, values: seq<real>) | TooShort

  /** The contents of a PFM object: the rows in storage order, the row index of each base, the motif size and the flag. */
  datatype PfmState = PfmState(rows: seq<seq<real>>, positions: seq<int>, motifSize: int, isCorrect: bool)

  /**
   * One segment: it needs the assignment character, exactly two pieces
   * around it and a single known letter as key; the value loses its first
   * and last characters (the brackets) and becomes a row only if it still
   * contains a comma.
   */
  function ParseSegment(alpha: Alphabet, syn: PfmSyntax, num: string -> real, buffer: string): (r: Segment)
    ensures r.Row? ==> r.id < |alpha.letters|
  {
    if syn.assign !in buffer then Skipped
    else
      var parts := JavaSplit(buffer, syn.assign);
      if |parts| != 2 then Skipped
      else
        var key := Trim(parts[0]);
        if |key| != 1 || key[0] !in alpha.letters then Skipped
        else
          var body := Trim(parts[1]);
          if |body| < 2 then TooShort
          else
            var inner := body[1..|body| - 1];
            if syn.comma !in inner then Skipped
            else
              var cells := JavaSplit(inner, syn.comma);
              Row(IndexOf(alpha.letters, key[0]), seq(|cells|, k requires 0 <= k < |cells| => num(Trim(cells[k]))))
  }

  /** Before any segment: no rows, every base at NONE, motif size NONE. */
  function Initial(n: nat): PfmState {
    PfmState([], seq(n, _ => NONE), NONE, true)
  }

  /** Appending a parsed row: the first row fixes the motif size, a row of another size clears the flag. */
  function AddRow(st: PfmState, id: nat, values: seq<real>): PfmState
    requires id < |st.positions|
  {
    var m := if st.motifSize == NONE then |values| else st.motifSize;
    PfmState(st.rows + [values], st.positions[id := |st.rows|], m, st.isCorrect && |values| == m)
  }

  /** The constructor's segment loop over the first |segs| segments. */
  function ParseSegments(alpha: Alphabet, syn: PfmSyntax, num: string -> real, segs: seq<string>): (r: Result<PfmState, PfmError>)
    ensures r.Ok? ==> |r.value.positions| == |alpha.letters|
    ensures r.Err? ==> r.error == RowTooShort
  {
    if segs == [] then Ok(Initial(|alpha.letters|))
    else
      match ParseSegments(alpha, syn, num, segs[..|segs| - 1])
      case Err(e) => Err(e)
      case Ok(st) => Apply(st, ParseSegment(alpha, syn, num, segs[|segs| - 1]))
  }

  /** One segment's effect on the state: a row is added, a short row stops loading. */
  function Apply(st: PfmState, seg: Segment): Result<PfmState, PfmError>
    requires seg.Row? ==> seg.id < |st.positions|
  {
    match seg
    case Skipped => Ok(st)
    case TooShort => Err(RowTooShort)
    case Row(id, values) => Ok(AddRow(st, id, values))
  }

  /** The fold over a prefix one segment longer applies that segment to the prefix's state. */
  lemma ParseSegmentsStep(alpha: Alphabet, syn: PfmSyntax, num: string -> real, segs: seq<string>, i: nat, st: PfmState)
    requires i < |segs| && ParseSegments(alpha, syn, num, segs[..i]) == Ok(st)
    ensures |st.positions| == |alpha.letters|
    ensures ParseSegments(alpha, syn, num, segs[..i + 1]) == Apply(st, ParseSegment(alpha, syn, num, segs[i]))
  {
    assert segs[..i + 1][..i] == segs[..i];
  }

  /** The zero row of the fill step; a motif size of NONE gives an empty row. */
  function ZeroRow(motifSize: int): seq<real> {
    seq(if motifSize > 0 then motifSize else 0, _ => 0.0)
  }

  /** The fill loop over the bases with ids below n: each non-ANY base without a row gets a zero row. */
  function FillUpTo(alpha: Alphabet, st: PfmState, n: nat): (r: PfmState)
    requires n <= |st.positions|
    ensures |r.positions| == |st.positions| && r.motifSize == st.motifSize && r.isCorrect == st.isCorrect
  {
    if n == 0 then st
    else
      var s := FillUpTo(alpha, st, n - 1);
      if n - 1 != alpha.any && s.positions[n - 1] == NONE
      then PfmState(s.rows + [ZeroRow(s.motifSize)], s.positions[n - 1 := |s.rows|], s.motifSize, s.isCorrect)
      else s
  }

  /** The fill step runs only for a consistent matrix with fewer or more rows than bases. */
  function Fill(alpha: Alphabet, st: PfmState): PfmState
    requires |st.positions| == |alpha.letters|
  {
    if st.isCorrect && |st.rows| != |alpha.letters| then FillUpTo(alpha, st, |alpha.letters|) else st
  }

  /** The text after the marker is removed (every occurrence) and the rest trimmed. */
  function Body(syn: PfmSyntax, str: string): string
    requires |syn.marker| > 0
  {
    Trim(ReplaceAll(str, syn.marker, ""))
  }

  /** The whole constructor: the loaded matrix, or the reason loading stops. */
  function PfmOf(alpha: Alphabet, syn: PfmSyntax, num: string -> real, str: string): (r: Result<PfmState, PfmError>)
    requires |syn.marker| > 0
    ensures r == Err(NoMarker) <==> !StartsWith(str, syn.marker)
    ensures r == Err(NoSeparator) <==> StartsWith(str, syn.marker) && syn.sep !in Body(syn, str)
    ensures r.Ok? ==> |r.value.positions| == |alpha.letters|
  {
    if !StartsWith(str, syn.marker) then Err(NoMarker)
    else
      var body := Body(syn, str);
      if syn.sep !in body then Err(NoSeparator)
      else
        match ParseSegments(alpha, syn, num, JavaSplit(body, syn.sep))
        case Err(_) => Err(RowTooShort)
        case Ok(st) => Ok(Fill(alpha, st))
  }

  // ---------------------------------------------------------------------------
  // What loading guarantees

  /** Every base either has no row (NONE) or the index of an existing row. */
  predicate WellIndexed(st: PfmState) {
    forall b :: 0 <= b < |st.positions| ==> st.positions[b] == NONE || 0 <= st.positions[b] < |st.rows|
  }

  /**
   * The motif size is the first row's length (NONE before any row), and the
   * flag holds iff every row has that length.
   */
  predicate SizesRecorded(st: PfmState) {
    (st.motifSize == if st.rows == [] then NONE else |st.rows[0]|) &&
    (st.isCorrect <==> forall i :: 0 <= i < |st.rows| ==> |st.rows[i]| == st.motifSize)
  }

  /** The segment loop keeps both invariants. */
  lemma {:induction false} ParseSegmentsInvariant(alpha: Alphabet, syn: PfmSyntax, num: string -> real, segs: seq<string>)
    requires ParseSegments(alpha, syn, num, segs).Ok?
    ensures WellIndexed(ParseSegments(alpha, syn, num, segs).value)
    ensures SizesRecorded(ParseSegments(alpha, syn, num, segs).value)
  {
    if segs != [] {
      ParseSegmentsInvariant(alpha, syn, num, segs[..|segs| - 1]);
      var seg := ParseSegment(alpha, syn, num, segs[|segs| - 1]);
      if seg.Row? {
        AddRowKeeps(ParseSegments(alpha, syn, num, segs[..|segs| - 1]).value, seg.id, seg.values);
      }
    }
  }

  /** Appending a row keeps both invariants. */
  lemma AddRowKeeps(st: PfmState, id: nat, values: seq<real>)
    requires id < |st.positions| && WellIndexed(st) && SizesRecorded(st)
    ensures WellIndexed(AddRow(st, id, values)) && SizesRecorded(AddRow(st, id, values))
  {
    var r := AddRow(st, id, values);
    assert forall i :: 0 <= i < |st.rows| ==> r.rows[i] == st.rows[i];
    assert r.rows[|st.rows|] == values;
    if st.rows == [] {
      assert r.rows == [values];
    } else {
      assert r.rows[0] == st.rows[0];
    }
  }

  /** A failing segment ends the loop: the error of a prefix is the error of the whole list. */
  lemma {:induction false} ParseSegmentsErrPersists(alpha: Alphabet, syn: PfmSyntax, num: string -> real, segs: seq<string>, i: nat)
    requires i <= |segs| && ParseSegments(alpha, syn, num, segs[..i]).Err?
    ensures ParseSegments(alpha, syn, num, segs) == ParseSegments(alpha, syn, num, segs[..i])
    decreases |segs| - i
  {
    if i < |segs| {
      assert segs[..i + 1][..i] == segs[..i];
      ParseSegmentsErrPersists(alpha, syn, num, segs, i + 1);
    } else {
      assert segs[..i] == segs;
    }
  }

  /**
   * The fill loop keeps the rows and the bases that already had one, never
   * touches ANY, and gives every other base ≤ n a row of size
   * max(motifSize, 0).
   */
  lemma {:induction false} FillUpToProperties(alpha: Alphabet, st: PfmState, n: nat)
    requires n <= |st.positions| && WellIndexed(st)
    ensures var r := FillUpTo(alpha, st, n);
      WellIndexed(r) && |st.rows| <= |r.rows| && r.rows[..|st.rows|] == st.rows
    ensures var r := FillUpTo(alpha, st, n);
      forall b :: 0 <= b < |st.positions| && st.positions[b] != NONE ==> r.positions[b] == st.positions[b]
    ensures var r := FillUpTo(alpha, st, n);
      forall b :: 0 <= b < n && b != alpha.any ==> 0 <= r.positions[b] < |r.rows|
    ensures var r := FillUpTo(alpha, st, n);
      forall i :: |st.rows| <= i < |r.rows| ==> r.rows[i] == ZeroRow(st.motifSize)
    ensures alpha.any < |st.positions| ==> FillUpTo(alpha, st, n).positions[alpha.any] == st.positions[alpha.any]
  {
    if n > 0 {
      FillUpToProperties(alpha, st, n - 1);
    }
  }

  /**
   * The fill step of a consistent matrix with a row count other than the
   * number of bases gives every base other than ANY a row, and every row
   * then has the motif size (0 when no row was read).
   */
  lemma FillCompletes(alpha: Alphabet, st: PfmState)
    requires |st.positions| == |alpha.letters| && WellIndexed(st) && SizesRecorded(st)
    requires st.isCorrect && |st.rows| != |alpha.letters|
    ensures var r := Fill(alpha, st);
      WellIndexed(r) && forall b :: 0 <= b < |alpha.letters| && b != alpha.any ==> 0 <= r.positions[b] < |r.rows|
    ensures var r := Fill(alpha, st);
      forall i :: 0 <= i < |r.rows| ==> |r.rows[i]| == if st.motifSize > 0 then st.motifSize else 0
  {
    FillUpToProperties(alpha, st, |alpha.letters|);
    var r := Fill(alpha, st);
    forall i | 0 <= i < |r.rows|
      ensures |r.rows[i]| == if st.motifSize > 0 then st.motifSize else 0
    {
      if i < |st.rows| {
        assert r.rows[i] == r.rows[..|st.rows|][i];
        assert |st.rows[0]| >= 0;
      }
    }
  }

  /** Every loaded matrix is well indexed: a base has no row or the index of one. */
  lemma LoadedWellIndexed(alpha: Alphabet, syn: PfmSyntax, num: string -> real, str: string)
    requires |syn.marker| > 0 && PfmOf(alpha, syn, num, str).Ok?
    ensures WellIndexed(PfmOf(alpha, syn, num, str).value)
  {
    var segs := JavaSplit(Body(syn, str), syn.sep);
    var st := ParseSegments(alpha, syn, num, segs).value;
    ParseSegmentsInvariant(alpha, syn, num, segs);
    if st.isCorrect && |st.rows| != |alpha.letters| {
      FillUpToProperties(alpha, st, |alpha.letters|);
    }
  }

  /** ANY only gets a row when some segment was a row for the ANY letter. */
  lemma {:induction false} AnyRowOnlyIfGiven(alpha: Alphabet, syn: PfmSyntax, num: string -> real, segs: seq<string>)
    requires alpha.Valid() && ParseSegments(alpha, syn, num, segs).Ok?
    requires forall k :: 0 <= k < |segs| ==> !(ParseSegment(alpha, syn, num, segs[k]).Row? && ParseSegment(alpha, syn, num, segs[k]).id == alpha.any)
    ensures ParseSegments(alpha, syn, num, segs).value.positions[alpha.any] == NONE
  {
    if segs != [] {
      var pre := segs[..|segs| - 1];
      assert forall k :: 0 <= k < |pre| ==> pre[k] == segs[k];
      AnyRowOnlyIfGiven(alpha, syn, num, pre);
    }
  }

  /** A matrix with only the four DNA letters leaves ANY without a row. */
  lemma FillKeepsAnyNone(alpha: Alphabet, st: PfmState)
    requires alpha.Valid() && |st.positions| == |alpha.letters| && WellIndexed(st) && st.positions[alpha.any] == NONE
    ensures Fill(alpha, st).positions[alpha.any] == NONE
  {
    FillUpToProperties(alpha, st, |alpha.letters|);
  }

  /** A one-column row has no comma between its brackets and is silently skipped. */
  lemma OneColumnSkipped(num: string -> real)
    ensures ParseSegment(Alphabet("ACGTN", 4), PfmSyntax("PWM", ';', '=', ','), num, "A=[5]") == Skipped
  {
    SplitOneColumn();
    TrimPlain("A");
    assert 'A' in "ACGTN" by {
      assert "ACGTN"[0] == 'A';
    }
    TrimPlain("[5]");
    OneColumnInner();
  }

  /** Between the brackets of `[5]` there is no comma. */
  lemma OneColumnInner()
    ensures "[5]"[1..2] == "5" && ',' !in "5"
  {
  }

  /** The segment `A=[5]` splits at its `=` into the key and the bracket text. */
  lemma SplitOneColumn()
    ensures '=' in "A=[5]" && JavaSplit("A=[5]", '=') == ["A", "[5]"]
  {
    SplitNoSep("[5]", '=');
    SplitPrefix("A", "[5]", '=');
    assert "A" + ['='] + "[5]" == "A=[5]";
    assert "A=[5]"[1] == '=';
  }

  /** A text without leading or trailing blanks is its own trim. */
  lemma TrimPlain(s: string)
    requires |s| > 0 && !IsJavaTrimmable(s[0]) && !IsJavaTrimmable(s[|s| - 1])
    ensures Trim(s) == s
  {
  }

  // ---------------------------------------------------------------------------
  // Text

  /** `parts` joined with `sep`. */
  function Joined(parts: seq<string>, sep: string): string {
    if |parts| == 0 then "" else if |parts| == 1 then parts[0] else parts[0] + sep + Joined(parts[1..], sep)
  }

  /** One row of `toString`: its label, `=[`, the first motifSize values and `]`. */
  function RowText(letter: char, row: seq<real>, motifSize: int, fmt: real -> string): (r: string)
    requires motifSize <= |row|
    ensures |r| > 0 && r[0] == letter
  {
    [letter] + "=[" + Joined(seq(if motifSize > 0 then motifSize else 0, j requires 0 <= j < motifSize => fmt(row[j])), ", ") + "]"
  }

  /** The rows of `toString`, each labelled by the letter of its storage index. */
  function RowTexts(alpha: Alphabet, st: PfmState, fmt: real -> string): (r: seq<string>)
    requires |st.rows| <= |alpha.letters| && forall i :: 0 <= i < |st.rows| ==> st.motifSize <= |st.rows[i]|
    ensures |r| == |st.rows|
  {
    seq(|st.rows|, i requires 0 <= i < |st.rows| => RowText(alpha.letters[i], st.rows[i], st.motifSize, fmt))
  }

  /** `toString`: the marker, then the rows separated by `; `. */
  function PfmText(alpha: Alphabet, syn: PfmSyntax, st: PfmState, fmt: real -> string): string
    requires |st.rows| <= |alpha.letters| && forall i :: 0 <= i < |st.rows| ==> st.motifSize <= |st.rows[i]|
  {
    syn.marker + Joined(RowTexts(alpha, st, fmt), "; ")
  }

  /**
   * `toString` labels a row by its storage index, not by the base it was
   * read for: the row of base b is written under b's own letter iff it was
   * stored at index b, that is iff the rows were given in base-id order.
   */
  lemma ToStringLabelsByIndex(alpha: Alphabet, st: PfmState, fmt: real -> string, b: nat)
    requires alpha.Valid() && |st.rows| <= |alpha.letters| && forall i :: 0 <= i < |st.rows| ==> st.motifSize <= |st.rows[i]|
    requires b < |st.positions| && b < |alpha.letters| && 0 <= st.positions[b] < |st.rows|
    ensures RowTexts(alpha, st, fmt)[st.positions[b]][0] == alpha.letters[b] <==> st.positions[b] == b
  {
  }

  // ---------------------------------------------------------------------------
  // The object

  class PFM {
    /** `pfm`; `normPFM` is the same list. */
    var rows: seq<seq<real>>
    var nucleotidePosition: array<int>
    var motifSize: int
    var isCorrect: bool

    function State(): PfmState
      reads this, nucleotidePosition
    {
      PfmState(rows, nucleotidePosition[..], motifSize, isCorrect)
    }

    constructor Create(rows: seq<seq<real>>, positions: array<int>, motifSize: int, isCorrect: bool)
      ensures this.rows == rows && nucleotidePosition == positions && this.motifSize == motifSize && this.isCorrect == isCorrect
    {
      this.rows := rows;
      nucleotidePosition := positions;
      this.motifSize := motifSize;
      this.isCorrect := isCorrect;
    }

    /**
     * `getScorePFM`: the weight of a base in a motif column, never above the
     * column's intended maximum, so a site scores at most 0 once normalised.
     */
    function GetScorePFM(nucleotide: int, position: int): (r: real)
      reads this, nucleotidePosition
      requires HasEntry(rows, nucleotidePosition[..], position, nucleotide)
      ensures r <= MaxScore(rows, nucleotidePosition[..], position, nucleotidePosition.Length)
    {
      MaxScoreBounds(rows, nucleotidePosition[..], position, nucleotidePosition.Length);
      rows[nucleotidePosition[nucleotide]][position]
    }

    /** `getMaxScorePFM` as written: the running maximum over every base, ANY included. */
    method GetMaxScorePFMAsWritten(position: int) returns (r: Option<real>)
      ensures r == MaxScoreAsWritten(rows, nucleotidePosition[..], position, nucleotidePosition.Length)
    {
      var max := 0.0;
      var b := 0;
      while b < nucleotidePosition.Length
        invariant 0 <= b <= nucleotidePosition.Length
        invariant MaxScoreAsWritten(rows, nucleotidePosition[..], position, b) == Some(max)
      {
        var value := nucleotidePosition[b];
        if !(0 <= value < |rows| && 0 <= position < |rows[value]|) {
          MaxScoreAsWrittenStops(rows, nucleotidePosition[..], position, b + 1, nucleotidePosition.Length);
          return None;
        }
        if rows[value][position] > max {
          max := rows[value][position];
        }
        b := b + 1;
      }
      r := Some(max);
    }

    /** `getMaxScorePFM` as intended: bases without a row are skipped. */
    method GetMaxScorePFM(position: int) returns (max: real)
      ensures max == MaxScore(rows, nucleotidePosition[..], position, nucleotidePosition.Length)
    {
      max := 0.0;
      var b := 0;
      while b < nucleotidePosition.Length
        invariant 0 <= b <= nucleotidePosition.Length
        invariant max == MaxScore(rows, nucleotidePosition[..], position, b)
      {
        var value := nucleotidePosition[b];
        if 0 <= value < |rows| && 0 <= position < |rows[value]| && rows[value][position] > max {
          max := rows[value][position];
        }
        b := b + 1;
      }
    }
  }

  /** Once the written maximum has thrown, more bases do not bring it back. */
  lemma {:induction false} MaxScoreAsWrittenStops(rows: seq<seq<real>>, positions: seq<int>, col: int, i: nat, n: nat)
    requires i <= n <= |positions| && MaxScoreAsWritten(rows, positions, col, i) == None
    ensures MaxScoreAsWritten(rows, positions, col, n) == None
    decreases n - i
  {
    if i < n {
      MaxScoreAsWrittenStops(rows, positions, col, i + 1, n);
    }
  }

  /** The constructor's segment loop, writing the row index of each base into `positions`. */
  method ParseLoop(alpha: Alphabet, syn: PfmSyntax, num: string -> real, segs: seq<string>, positions: array<int>)
    returns (r: Result<PfmState, PfmError>)
    requires positions[..] == Initial(|alpha.letters|).positions
    modifies positions
    ensures r == ParseSegments(alpha, syn, num, segs)
    ensures r.Ok? ==> positions[..] == r.value.positions
  {
    var rows: seq<seq<real>> := [];
    var motifSize := NONE;
    var isCorrect := true;
    var i := 0;
    assert segs[..0] == [];
    while i < |segs|
      invariant 0 <= i <= |segs| && positions.Length == |alpha.letters|
      invariant ParseSegments(alpha, syn, num, segs[..i]) == Ok(PfmState(rows, positions[..], motifSize, isCorrect))
    {
      ghost var before := PfmState(rows, positions[..], motifSize, isCorrect);
      var seg := ParseSegment(alpha, syn, num, segs[i]);
      ParseSegmentsStep(alpha, syn, num, segs, i, before);
      if seg.TooShort? {
        ParseSegmentsErrPersists(alpha, syn, num, segs, i + 1);
        return Err(RowTooShort);
      } else if seg.Row? {
        if motifSize == NONE {
          motifSize := |seg.values|;
        }
        if |seg.values| != motifSize {
          isCorrect := false;
        }
        positions[seg.id] := |rows|;
        rows := rows + [seg.values];
        assert PfmState(rows, positions[..], motifSize, isCorrect) == AddRow(before, seg.id, seg.values);
      }
      i := i + 1;
    }
    assert segs[..i] == segs;
    r := Ok(PfmState(rows, positions[..], motifSize, isCorrect));
  }

  /** The constructor's fill loop over the bases in id order. */
  method FillLoop(alpha: Alphabet, st: PfmState, positions: array<int>) returns (rows: seq<seq<real>>)
    requires positions[..] == st.positions && |st.positions| == |alpha.letters|
    modifies positions
    ensures Fill(alpha, st) == PfmState(rows, positions[..], st.motifSize, st.isCorrect)
  {
    rows := st.rows;
    if st.isCorrect && |rows| != |alpha.letters| {
      var b := 0;
      while b < |alpha.letters|
        invariant 0 <= b <= |alpha.letters| && positions.Length == |alpha.letters|
        invariant FillUpTo(alpha, st, b) == PfmState(rows, positions[..], st.motifSize, st.isCorrect)
      {
        if b != alpha.any && positions[b] == NONE {
          positions[b] := |rows|;
          rows := rows + [ZeroRow(st.motifSize)];
        }
        b := b + 1;
      }
    }
  }

  /** The position table before any row is read: every base at NONE. */
  method NoRows(n: nat) returns (positions: array<int>)
    ensures fresh(positions) && positions[..] == Initial(n).positions
  {
    positions := new int[n](_ => NONE);
    assert forall k :: 0 <= k < n ==> positions[..][k] == Initial(n).positions[k];
  }

  /**
   * Loading as the constructor does it: the segment loop, then the fill
   * loop. The result is the matrix `PfmOf` describes, or its error.
   */
  method Load(alpha: Alphabet, syn: PfmSyntax, num: string -> real, str: string) returns (r: Result<PFM, PfmError>)
    requires |syn.marker| > 0
    ensures r.Err? <==> PfmOf(alpha, syn, num, str).Err?
    ensures r.Err? ==> r.error == PfmOf(alpha, syn, num, str).error
    ensures r.Ok? ==> fresh(r.value) && fresh(r.value.nucleotidePosition) && r.value.State() == PfmOf(alpha, syn, num, str).value
  {
    if !StartsWith(str, syn.marker) {
      return Err(NoMarker);
    }
    var body := Body(syn, str);
    if syn.sep !in body {
      return Err(NoSeparator);
    }
    var positions := NoRows(|alpha.letters|);
    var parsed := ParseLoop(alpha, syn, num, JavaSplit(body, syn.sep), positions);
    if parsed.Err? {
      return Err(parsed.error);
    }
    var rows := FillLoop(alpha, parsed.value, positions);
    var p := new PFM.Create(rows, positions, parsed.value.motifSize, parsed.value.isCorrect);
    r := Ok(p);
  }

  /**
   * `computeTFAffinityLR` (matrix): the summed scores of the bases at the
   * site minus the summed column maxima, each weighted by es; with the
   * intended maximum.
   */
  method ComputeTFAffinityLR(pfm: PFM, dna: seq<int>, dnaPos: int, sizeLeft: int, es: real, isPWMscore: bool) returns (r: real)
    requires SiteReadable(pfm.rows, pfm.nucleotidePosition[..], dna, dnaPos + sizeLeft, if pfm.motifSize > 0 then pfm.motifSize else 0)
    ensures var n := if pfm.motifSize > 0 then pfm.motifSize else 0;
      var sum := ScoreSum(pfm.rows, pfm.nucleotidePosition[..], dna, dnaPos + sizeLeft, n, es);
      r == if isPWMscore then sum else sum - MaxSum(pfm.rows, pfm.nucleotidePosition[..], n, es)
  {
    ghost var rows := pfm.rows;
    ghost var pos := pfm.nucleotidePosition[..];
    ghost var n := if pfm.motifSize > 0 then pfm.motifSize else 0;
    var sumLR := 0.0;
    var sumMax := 0.0;
    var i := 0;
    while i < pfm.motifSize
      invariant 0 <= i <= n && SiteReadable(rows, pos, dna, dnaPos + sizeLeft, i)
      invariant rows == pfm.rows && pos == pfm.nucleotidePosition[..]
      invariant sumLR == ScoreSum(rows, pos, dna, dnaPos + sizeLeft, i, es)
      invariant sumMax == MaxSum(rows, pos, i, es)
    {
      var k := dnaPos + sizeLeft + i;
      assert HasEntry(rows, pos, k - (dnaPos + sizeLeft), dna[k]);
      var score := pfm.GetScorePFM(dna[k], i);
      var max := pfm.GetMaxScorePFM(i);
      ScoreSumStep(rows, pos, dna, dnaPos + sizeLeft, i, es, n, sumLR, score);
      MaxSumStep(rows, pos, i, es, sumMax, max);
      sumLR := sumLR + es * score;
      sumMax := sumMax + es * max;
      i := i + 1;
    }
    r := if isPWMscore then sumLR else sumLR - sumMax;
  }

  /**
   * `computeTFAffinityRL` (matrix): the same sums over the reverse complement
   * of the motif-long window at the site, read from its first value.
   */
  method ComputeTFAffinityRL(pfm: PFM, comp: int -> int, dna: seq<int>, dnaPos: int, sizeLeft: int, es: real, isPWMscore: bool)
    returns (r: real)
    requires CellUtils.WindowFallsBack(dna, dnaPos + sizeLeft, pfm.motifSize) || 0 <= dnaPos + sizeLeft
    requires SiteReadable(pfm.rows, pfm.nucleotidePosition[..], CellUtils.RevCompWindow(comp, dna, dnaPos + sizeLeft, pfm.motifSize),
                          0, if pfm.motifSize > 0 then pfm.motifSize else 0)
    ensures var n := if pfm.motifSize > 0 then pfm.motifSize else 0;
      var rc := CellUtils.RevCompWindow(comp, dna, dnaPos + sizeLeft, pfm.motifSize);
      var sum := ScoreSum(pfm.rows, pfm.nucleotidePosition[..], rc, 0, n, es);
      r == if isPWMscore then sum else sum - MaxSum(pfm.rows, pfm.nucleotidePosition[..], n, es)
  {
    var rc := CellUtils.GetReversedComplementWindow(comp, dna, dnaPos + sizeLeft, pfm.motifSize);
    r := ComputeTFAffinityLR(pfm, rc, 0, 0, es, isPWMscore);
  }
}
