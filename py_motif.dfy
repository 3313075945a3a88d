/**
 * Motif handling of the post-processing scripts: footprint sizes derived
 * from `PWM:` strings, nucleotide indices and complements, PWM parsing and
 * PWM scoring (utils.py and dataproc/utils.py).
 */
module PyMotif {
  import opened Wrappers
  import opened Text

  const PWM_MARKER: string := "PWM:"

  // ---------------------------------------------------------------------------
  // Motif sizes

  /**
   * utils.py `get_motif_size`: 0 for the empty string, a ValueError for a
   * string without the `PWM:` marker, otherwise the number of comma-separated
   * values before the first ';'.
   */
  function MotifSize(s: string): (r: Result<nat, PyError>)
    ensures s == "" ==> r == Ok(0)
    ensures s != "" && !StartsWith(s, PWM_MARKER) ==> r == Err(ValueError)
    ensures StartsWith(s, PWM_MARKER) ==> r.Ok? && r.value >= 1
  {
    if s == "" then Ok(0)
    else if !StartsWith(s, PWM_MARKER) then Err(ValueError)
    else Ok(|PySplit(PySplit(s, ';')[0], ',')|)
  }

  /** The size of a PWM string is one more than the commas of its first segment. */
  lemma MotifSizeCountsFirstSegment(s: string)
    requires StartsWith(s, PWM_MARKER)
    ensures MotifSize(s) == Ok(CountChar(s[..IndexOf(s, ';')], ',') + 1)
  {
    SplitFirst(s, ';');
    SplitCount(PySplit(s, ';')[0], ',');
  }

  /**
   * dataproc/utils.py `get_motif_size`: None stands for the script printing a
   * message and exiting for a string without the marker (the empty string
   * included); otherwise the same count.
   */
  function MotifSizeDataproc(s: string): (r: Option<nat>)
    ensures r.Some? <==> StartsWith(s, PWM_MARKER)
  {
    if !StartsWith(s, PWM_MARKER) then None
    else Some(|PySplit(PySplit(s, ';')[0], ',')|)
  }

  /** The two versions agree on PWM strings; only utils.py accepts the empty string. */
  lemma MotifSizeVersionsAgree(s: string)
    ensures StartsWith(s, PWM_MARKER) ==> MotifSize(s) == Ok(MotifSizeDataproc(s).value)
    ensures s == "" ==> MotifSize(s) == Ok(0) && MotifSizeDataproc(s) == None
  {
  }

  /** One row of the TF table as far as footprint sizes are concerned. */
  datatype TfRow = TfRow(name: string, dbd: string, sizeLeft: int, sizeRight: int)

  /**
   * utils.py `get_tf_size`: motif size plus SIZELEFT plus SIZERIGHT, per row
   * in index order; the first row whose DBD is not a PWM raises.
   */
  function TfSizes(rows: seq<TfRow>): (r: Result<seq<int>, PyError>)
    ensures r.Ok? <==> forall i :: 0 <= i < |rows| ==> MotifSize(rows[i].dbd).Ok?
    ensures r.Ok? ==> |r.value| == |rows| && forall i :: 0 <= i < |rows| ==>
      r.value[i] == MotifSize(rows[i].dbd).value + rows[i].sizeLeft + rows[i].sizeRight
    ensures r.Err? ==> r.error == ValueError
  {
    if |rows| == 0 then Ok([])
    else
      match MotifSize(rows[0].dbd)
      case Err(e) => Err(e)
      case Ok(m) =>
        match TfSizes(rows[1..])
        case Err(e) => Err(e)
        case Ok(rest) => Ok([m + rows[0].sizeLeft + rows[0].sizeRight] + rest)
  }

  /** A TF whose DBD is a PWM has a footprint larger than its flanks. */
  lemma PwmFootprintExceedsFlanks(rows: seq<TfRow>, i: nat)
    requires i < |rows| && TfSizes(rows).Ok?
    requires StartsWith(rows[i].dbd, PWM_MARKER)
    ensures TfSizes(rows).value[i] >= rows[i].sizeLeft + rows[i].sizeRight + 1
  {
  }

  // ---------------------------------------------------------------------------
  // Nucleotide indices and complements

  const BASES: string := "acgtn"
  const COMPLEMENTS: string := "tgcan"
  const BASES_DATAPROC: string := "acgt"
  const COMPLEMENTS_DATAPROC: string := "tgca"

  /** utils.py `bp_to_idx`: the position of bp in "acgtn", a ValueError for any other character. */
  function BpToIdx(bp: char): (r: Result<nat, PyError>)
    ensures r.Ok? <==> bp in BASES
    ensures r.Ok? ==> r.value < 5 && BASES[r.value] == bp
    ensures r.Err? ==> r.error == ValueError
  {
    var k := IndexOf(BASES, bp);
    if k < |BASES| then Ok(k) else Err(ValueError)
  }

  /** utils.py `complementary`: the base at the same index of "tgcan". */
  function Complementary(bp: char): (r: Result<char, PyError>)
    ensures r.Ok? <==> bp in BASES
  {
    match BpToIdx(bp)
    case Err(e) => Err(e)
    case Ok(k) => Ok(COMPLEMENTS[k])
  }

  /** `complementary` swaps a with t and c with g, fixes n, and is an involution. */
  lemma ComplementaryInvolution(bp: char)
    requires bp in BASES
    ensures Complementary(bp).value in BASES
    ensures Complementary(Complementary(bp).value) == Ok(bp)
    ensures bp == 'n' <==> Complementary(bp) == Ok('n')
  {
  }

  /** dataproc/utils.py `bp_to_idx`: only a, c, g and t are accepted. */
  function BpToIdxDataproc(bp: char): (r: Result<nat, PyError>)
    ensures r.Ok? <==> bp in BASES_DATAPROC
    ensures r.Ok? ==> r.value < 4 && BASES_DATAPROC[r.value] == bp
  {
    var k := IndexOf(BASES_DATAPROC, bp);
    if k < |BASES_DATAPROC| then Ok(k) else Err(ValueError)
  }

  /** dataproc/utils.py `complementary`. */
  function ComplementaryDataproc(bp: char): (r: Result<char, PyError>)
    ensures r.Ok? <==> bp in BASES_DATAPROC
  {
    match BpToIdxDataproc(bp)
    case Err(e) => Err(e)
    case Ok(k) => Ok(COMPLEMENTS_DATAPROC[k])
  }

  /** The dataproc complement is an involution on a, c, g, t and rejects 'n'. */
  lemma ComplementaryDataprocInvolution(bp: char)
    ensures bp in BASES_DATAPROC ==>
      (ComplementaryDataproc(bp).Ok? && ComplementaryDataproc(ComplementaryDataproc(bp).value) == Ok(bp))
    ensures ComplementaryDataproc('n') == Err(ValueError)
    ensures BpToIdx('n') == Ok(4)
  {
  }

  // ---------------------------------------------------------------------------
  // PWM scoring (utils.py `pwm_score`)

  /** A numpy matrix: every row has the same number of columns. */
  predicate IsMatrix(pwm: seq<seq<real>>) {
    forall r :: 0 <= r < |pwm| ==> |pwm[r]| == |pwm[0]|
  }

  function Cols(pwm: seq<seq<real>>): nat {
    if |pwm| == 0 then 0 else |pwm[0]|
  }

  /** The largest entry of column i among rows [0, k). */
  function ColMaxUpTo(pwm: seq<seq<real>>, i: nat, k: nat): real
    requires IsMatrix(pwm) && i < Cols(pwm) && 1 <= k <= |pwm|
  {
    if k == 1 then pwm[0][i]
    else
      var m := ColMaxUpTo(pwm, i, k - 1);
      if pwm[k - 1][i] > m then pwm[k - 1][i] else m
  }

  /** The running maximum is at least every entry it has passed, and one of them. */
  lemma {:induction false} ColMaxUpToBounds(pwm: seq<seq<real>>, i: nat, k: nat)
    requires IsMatrix(pwm) && i < Cols(pwm) && 1 <= k <= |pwm|
    ensures forall r :: 0 <= r < k ==> pwm[r][i] <= ColMaxUpTo(pwm, i, k)
    ensures exists r :: 0 <= r < k && pwm[r][i] == ColMaxUpTo(pwm, i, k)
  {
    if k > 1 {
      ColMaxUpToBounds(pwm, i, k - 1);
    }
  }

  /** `pwm[:, i].max()`. */
  function ColMax(pwm: seq<seq<real>>, i: nat): real
    requires IsMatrix(pwm) && i < Cols(pwm)
  {
    ColMaxUpTo(pwm, i, |pwm|)
  }

  /** The exception iteration i of the scoring loop raises, if any. */
  function ErrorAt(pwm: seq<seq<real>>, s: string, i: nat): Option<PyError>
    requires i < |s|
  {
    match BpToIdx(s[i])
    case Err(e) => Some(e)
    case Ok(k) => if k >= |pwm| || i >= |pwm[k]| then Some(IndexError) else None
  }

  /** The entry base i picks: row `bp_to_idx(s[i])`, column i. */
  function Entry(pwm: seq<seq<real>>, s: string, i: nat): real
    requires i < |s| && ErrorAt(pwm, s, i) == None
  {
    pwm[BpToIdx(s[i]).value][i]
  }

  /** The first k iterations of the scoring loop raise nothing. */
  predicate ScorablePrefix(pwm: seq<seq<real>>, s: string, k: nat)
    requires k <= |s|
  {
    forall i :: 0 <= i < k ==> ErrorAt(pwm, s, i) == None
  }

  /** Sum of the entries picked by the first k bases of s. */
  function Picked(pwm: seq<seq<real>>, s: string, k: nat): real
    requires k <= |s| && ScorablePrefix(pwm, s, k)
  {
    if k == 0 then 0.0
    else
      assert ErrorAt(pwm, s, k - 1) == None;
      Picked(pwm, s, k - 1) + Entry(pwm, s, k - 1)
  }

  /** Sum of the maxima of the first k columns. */
  function ColMaxSum(pwm: seq<seq<real>>, k: nat): real
    requires IsMatrix(pwm) && |pwm| >= 1 && k <= Cols(pwm)
  {
    if k == 0 then 0.0 else ColMaxSum(pwm, k - 1) + ColMax(pwm, k - 1)
  }

  /**
   * utils.py `pwm_score`: the sum of the entries the bases pick, minus the sum
   * of the column maxima when `norm` holds. The loop raises at the first base
   * that is not in "acgtn" (ValueError) or that indexes outside the matrix
   * (IndexError).
   */
  method PwmScore(pwm: seq<seq<real>>, s: string, norm: bool) returns (r: Result<real, PyError>)
    requires IsMatrix(pwm)
    ensures r.Ok? <==> ScorablePrefix(pwm, s, |s|)
    ensures r.Ok? ==> |s| == 0 || (|pwm| >= 1 && |s| <= Cols(pwm))
    ensures r.Ok? && |s| > 0 ==>
      r.value == if norm then Picked(pwm, s, |s|) - ColMaxSum(pwm, |s|) else Picked(pwm, s, |s|)
    ensures r.Ok? && |s| == 0 ==> r.value == 0.0
    ensures r.Err? ==> exists k :: 0 <= k < |s| && ScorablePrefix(pwm, s, k) && ErrorAt(pwm, s, k) == Some(r.error)
  {
    var score := 0.0;
    var maxScore := 0.0;
    var i := 0;
    while i < |s|
      invariant 0 <= i <= |s|
      invariant ScorablePrefix(pwm, s, i)
      invariant i > 0 ==> |pwm| >= 1 && i <= Cols(pwm)
      invariant score == Picked(pwm, s, i)
      invariant i > 0 ==> maxScore == ColMaxSum(pwm, i)
      invariant i == 0 ==> maxScore == 0.0
    {
      var idx := BpToIdx(s[i]);
      if idx.Err? {
        assert ErrorAt(pwm, s, i) == Some(idx.error);
        return Err(idx.error);
      }
      if idx.value >= |pwm| || i >= |pwm[idx.value]| {
        assert ErrorAt(pwm, s, i) == Some(IndexError);
        return Err(IndexError);
      }
      ScoreStep(pwm, s, i, idx.value);
      score := score + pwm[idx.value][i];
      maxScore := maxScore + ColMax(pwm, i);
      i := i + 1;
    }
    if norm {
      score := score - maxScore;
    }
    return Ok(score);
  }

  /** One iteration of the scoring loop that raises nothing. */
  lemma ScoreStep(pwm: seq<seq<real>>, s: string, i: nat, k: nat)
    requires IsMatrix(pwm) && i < |s| && ScorablePrefix(pwm, s, i)
    requires BpToIdx(s[i]) == Ok(k) && k < |pwm| && i < |pwm[k]|
    ensures ScorablePrefix(pwm, s, i + 1) && |pwm| >= 1 && i + 1 <= Cols(pwm)
    ensures Picked(pwm, s, i + 1) == Picked(pwm, s, i) + pwm[k][i]
    ensures ColMaxSum(pwm, i + 1) == ColMaxSum(pwm, i) + ColMax(pwm, i)
  {
    assert ErrorAt(pwm, s, i) == None;
  }

  /** Each picked entry is at most its column maximum, so the sums compare the same way. */
  lemma {:induction false} PickedAtMostColMax(pwm: seq<seq<real>>, s: string, k: nat)
    requires IsMatrix(pwm) && |pwm| >= 1 && k <= |s| && k <= Cols(pwm) && ScorablePrefix(pwm, s, k)
    ensures Picked(pwm, s, k) <= ColMaxSum(pwm, k)
    ensures Picked(pwm, s, k) == ColMaxSum(pwm, k) <==>
      forall i :: 0 <= i < k ==> Entry(pwm, s, i) == ColMax(pwm, i)
  {
    if k > 0 {
      assert ScorablePrefix(pwm, s, k - 1);
      PickedAtMostColMax(pwm, s, k - 1);
      assert ErrorAt(pwm, s, k - 1) == None;
      ColMaxUpToBounds(pwm, k - 1, |pwm|);
      assert Entry(pwm, s, k - 1) <= ColMax(pwm, k - 1);
    }
  }

  /**
   * The normalised score of a scorable sequence is at most 0, and it is 0
   * exactly when every base picks a maximum of its column.
   */
  lemma NormalisedScoreBound(pwm: seq<seq<real>>, s: string)
    requires IsMatrix(pwm) && |s| > 0 && ScorablePrefix(pwm, s, |s|)
    ensures |pwm| >= 1 && |s| <= Cols(pwm)
    ensures Picked(pwm, s, |s|) - ColMaxSum(pwm, |s|) <= 0.0
    ensures Picked(pwm, s, |s|) - ColMaxSum(pwm, |s|) == 0.0 <==>
      forall i :: 0 <= i < |s| ==> Entry(pwm, s, i) == ColMax(pwm, i)
  {
    assert ErrorAt(pwm, s, |s| - 1) == None;
    PickedAtMostColMax(pwm, s, |s|);
  }

  /** An 'n' in the sequence indexes row 4, so scoring fails on a matrix of four rows. */
  lemma NBaseFailsOnFourRows(pwm: seq<seq<real>>, s: string, k: nat)
    requires |pwm| <= 4 && k < |s| && s[k] == 'n'
    ensures ErrorAt(pwm, s, k) == Some(IndexError)
    ensures !ScorablePrefix(pwm, s, |s|)
  {
    assert BpToIdx('n') == Ok(4);
  }

  // ---------------------------------------------------------------------------
  // PWM parsing (dataproc/utils.py `get_pwms`)

  /** Python's `t[1:-1]`: the string without its first and last character. */
  function DropEnds(t: string): string {
    if |t| <= 2 then "" else t[1..|t| - 1]
  }

  /** A DBD string after removing the `PWM:` marker and every space. */
  function CleanPwm(dbd: string): string {
    RemoveChar(ReplaceAll(dbd, PWM_MARKER, ""), ' ')
  }

  /** The values of one `X=[v1,...,vL]` segment: the text after the last '=', brackets dropped, split on ','. */
  function RowFields(segment: string): seq<string> {
    var parts := PySplit(segment, '=');
    PySplit(DropEnds(parts[|parts| - 1]), ',')
  }

  /** `[float(el) for el in fields]`: the first unparsable field raises a ValueError. */
  function ParseFloats(fields: seq<string>, parseFloat: string -> Option<real>): (r: Result<seq<real>, PyError>)
    ensures r.Ok? <==> forall i :: 0 <= i < |fields| ==> parseFloat(fields[i]).Some?
    ensures r.Ok? ==> |r.value| == |fields| && forall i :: 0 <= i < |fields| ==> r.value[i] == parseFloat(fields[i]).value
    ensures r.Err? ==> r.error == ValueError
  {
    if |fields| == 0 then Ok([])
    else match parseFloat(fields[0])
      case None => Err(ValueError)
      case Some(v) =>
        match ParseFloats(fields[1..], parseFloat)
        case Err(e) => Err(e)
        case Ok(rest) => Ok([v] + rest)
  }

  /** The `;`-separated row segments of a cleaned DBD string. */
  function Segments(dbd: string): (segs: seq<string>)
    ensures |segs| == CountChar(CleanPwm(dbd), ';') + 1
  {
    SplitCount(CleanPwm(dbd), ';');
    PySplit(CleanPwm(dbd), ';')
  }

  /** The rows of one PWM: one per ';' segment of the cleaned string, in textual order. */
  function ParsePwm(dbd: string, parseFloat: string -> Option<real>): (r: Result<seq<seq<real>>, PyError>)
    ensures r.Ok? ==> |r.value| == CountChar(CleanPwm(dbd), ';') + 1
    ensures r.Ok? <==> forall j :: 0 <= j < |Segments(dbd)| ==> ParseFloats(RowFields(Segments(dbd)[j]), parseFloat).Ok?
  {
    ParseRows(AllRowFields(Segments(dbd)), parseFloat)
  }

  /** The value fields of every segment, in order. */
  function AllRowFields(segs: seq<string>): (r: seq<seq<string>>)
    ensures |r| == |segs| && forall j :: 0 <= j < |segs| ==> r[j] == RowFields(segs[j])
  {
    seq(|segs|, j requires 0 <= j < |segs| => RowFields(segs[j]))
  }

  /** Row j of the matrix holds the parsed values of field list j. */
  function ParseRows(fieldRows: seq<seq<string>>, parseFloat: string -> Option<real>): (r: Result<seq<seq<real>>, PyError>)
    ensures r.Ok? <==> forall j :: 0 <= j < |fieldRows| ==> ParseFloats(fieldRows[j], parseFloat).Ok?
    ensures r.Ok? ==> |r.value| == |fieldRows| && forall j :: 0 <= j < |fieldRows| ==>
      r.value[j] == ParseFloats(fieldRows[j], parseFloat).value
  {
    if |fieldRows| == 0 then Ok([])
    else
      match ParseFloats(fieldRows[0], parseFloat)
      case Err(e) => Err(e)
      case Ok(row) =>
        match ParseRows(fieldRows[1..], parseFloat)
        case Err(e) => Err(e)
        case Ok(rest) => Ok([row] + rest)
  }

  /** One row of the TF table: its index name and its DBD string. */
  datatype DbdRow = DbdRow(name: string, dbd: string)

  type Pwm = seq<seq<real>>

  /** The names of the TF table, in row order. */
  function Names(table: seq<DbdRow>): (r: seq<string>)
    ensures |r| == |table| && forall i :: 0 <= i < |table| ==> r[i] == table[i].name
  {
    seq(|table|, i requires 0 <= i < |table| => table[i].name)
  }

  /** The parse of every DBD string of the TF table, in row order. */
  function ParsedDbds(table: seq<DbdRow>, parse: string -> Result<Pwm, PyError>): (r: seq<Result<Pwm, PyError>>)
    ensures |r| == |table| && forall i :: 0 <= i < |table| ==> r[i] == parse(table[i].dbd)
  {
    seq(|table|, i requires 0 <= i < |table| => parse(table[i].dbd))
  }

  /**
   * The dictionary `get_pwms` has built after its first k rows, given each
   * row's name and the parse of its DBD string.
   */
  function PwmsUpTo(names: seq<string>, parsed: seq<Result<Pwm, PyError>>, k: nat): Result<map<string, Pwm>, PyError>
    requires k <= |names| == |parsed|
  {
    if k == 0 then Ok(map[])
    else
      var prev := PwmsUpTo(names, parsed, k - 1);
      if prev.Err? then prev
      else if parsed[k - 1].Err? then Err(parsed[k - 1].error)
      else Ok(prev.value[Lower(names[k - 1]) := parsed[k - 1].value])
  }

  /** Once a row fails to parse, its error is the outcome of every longer prefix. */
  lemma {:induction false} PwmsErrorSticks(names: seq<string>, parsed: seq<Result<Pwm, PyError>>, k: nat, m: nat)
    requires k <= m <= |names| == |parsed| && PwmsUpTo(names, parsed, k).Err?
    ensures PwmsUpTo(names, parsed, m) == PwmsUpTo(names, parsed, k)
    decreases m - k
  {
    if k < m {
      PwmsErrorSticks(names, parsed, k, m - 1);
    }
  }

  /** The outcome is an error exactly when some row fails to parse, and then it is the first failure. */
  lemma {:induction false} PwmsFirstError(names: seq<string>, parsed: seq<Result<Pwm, PyError>>, k: nat)
    requires k <= |names| == |parsed|
    ensures PwmsUpTo(names, parsed, k).Ok? <==> forall i :: 0 <= i < k ==> parsed[i].Ok?
    ensures PwmsUpTo(names, parsed, k).Err? ==>
      (exists i :: 0 <= i < k && parsed[i].Err? && PwmsUpTo(names, parsed, k).error == parsed[i].error &&
        (forall j :: 0 <= j < i ==> parsed[j].Ok?))
  {
    if k > 0 {
      PwmsFirstError(names, parsed, k - 1);
    }
  }

  /**
   * `get_pwms` (utils.py and dataproc/utils.py alike): fills the dictionary row by row, keyed by
   * the lower-cased TF name, and raises on the first unparsable value. The
   * parse of one DBD string is the parameter `parse`, which the script
   * performs as `ParsePwm` does.
   */
  method GetPwms(table: seq<DbdRow>, parse: string -> Result<Pwm, PyError>)
    returns (r: Result<map<string, Pwm>, PyError>)
    ensures r == PwmsUpTo(Names(table), ParsedDbds(table, parse), |table|)
  {
    ghost var names := Names(table);
    ghost var parsed := ParsedDbds(table, parse);
    var d: map<string, Pwm> := map[];
    var k := 0;
    while k < |table|
      invariant 0 <= k <= |table|
      invariant PwmsUpTo(names, parsed, k) == Ok(d)
    {
      var pwm := parse(table[k].dbd);
      assert parsed[k] == pwm;
      if pwm.Err? {
        PwmsErrorSticks(names, parsed, k + 1, |table|);
        return Err(pwm.error);
      }
      d := d[Lower(table[k].name) := pwm.value];
      k := k + 1;
    }
    return Ok(d);
  }

  /**
   * A lower-cased name is a key of the result, holding the matrix of the
   * LAST row with that lower-cased name.
   */
  lemma {:induction false} PwmsLastRowWins(names: seq<string>, parsed: seq<Result<Pwm, PyError>>, k: nat, i: nat)
    requires i < k <= |names| == |parsed| && PwmsUpTo(names, parsed, k).Ok?
    requires forall j :: i < j < k ==> Lower(names[j]) != Lower(names[i])
    ensures parsed[i].Ok? && Lower(names[i]) in PwmsUpTo(names, parsed, k).value
    ensures PwmsUpTo(names, parsed, k).value[Lower(names[i])] == parsed[i].value
  {
    PwmsFirstError(names, parsed, k);
    if k - 1 > i {
      PwmsLastRowWins(names, parsed, k - 1, i);
    }
  }

  /** The dictionary has a key exactly for the lower-cased names of the rows. */
  lemma {:induction false} PwmsKeys(names: seq<string>, parsed: seq<Result<Pwm, PyError>>, k: nat)
    requires k <= |names| == |parsed| && PwmsUpTo(names, parsed, k).Ok?
    ensures PwmsUpTo(names, parsed, k).value.Keys == set j | 0 <= j < k :: Lower(names[j])
  {
    if k > 0 {
      PwmsKeys(names, parsed, k - 1);
    }
  }

}
