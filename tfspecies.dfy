/**
 * A species of transcription factor (src/objects/TFSpecies.java): its
 * footprint, its cumulative move thresholds, the DNA-binding domain it
 * is built from (a sequence, a weight matrix, an affinity landscape or a
 * sequence file), and its cooperativity tables.
 *
 * The DBD markers and separator (`Constants.DBD_TYPE_*`) are parameters,
 * taken literally; reading a double, the PWM loader's alphabet and
 * syntax, and whether a named file can be read are parameters as well.
 * `DNAregion` is not part of this model: a region is its start and end,
 * and its size is taken as end − start.
 */
module TfSpecies {
  import opened Wrappers
  import opened Text
  import opened JUtils
  import opened Pfm
  import DnaFiles

  datatype Region = Region(start: int, end: int)
  {
    function Size(): int { end - start }
  }

  // ------------------------------------------------------------ move thresholds

  /** The probabilities of the four moves of a bound molecule. */
  datatype Moves = Moves(unbinding: real, slideLeft: real, slideRight: real, jumping: real)

  /** `jumpNo`, `hopNo`, `slideLeftNo`, `slideRightNo`. */
  datatype Thresholds = Thresholds(jumpNo: real, hopNo: real, slideLeftNo: real, slideRightNo: real)

  /** The cumulative thresholds both constructors compute. */
  function CumulativeThresholds(m: Moves): Thresholds
  {
    var hop := m.unbinding;
    var left := hop + m.slideLeft;
    Thresholds(m.unbinding * m.jumping, hop, left, left + m.slideRight)
  }

  /**
   * With non-negative probabilities and a jumping probability at most 1
   * the thresholds are ordered, and each band between two of them is as
   * wide as the probability of its move.
   */
  lemma ThresholdsOrdered(m: Moves)
    requires m.unbinding >= 0.0 && m.slideLeft >= 0.0 && m.slideRight >= 0.0
    requires 0.0 <= m.jumping <= 1.0
    ensures var t := CumulativeThresholds(m);
      0.0 <= t.jumpNo <= t.hopNo <= t.slideLeftNo <= t.slideRightNo
    ensures var t := CumulativeThresholds(m);
      t.hopNo - t.jumpNo == m.unbinding * (1.0 - m.jumping) &&
      t.slideLeftNo - t.hopNo == m.slideLeft && t.slideRightNo - t.slideLeftNo == m.slideRight
  {
    var t := CumulativeThresholds(m);
    assert 0.0 <= m.unbinding * m.jumping <= m.unbinding * 1.0;
  }

  // ------------------------------------------------------------ affinity of a DBD

  /** The specific energy summed once per base that is not the ANY wildcard. */
  function MaxAffinity(ids: seq<int>, any: int, es: real): real
  {
    if |ids| == 0 then 0.0
    else MaxAffinity(ids[..|ids| - 1], any, es) + (if ids[|ids| - 1] != any then es else 0.0)
  }

  function NonAnyCount(ids: seq<int>, any: int): nat
  {
    if |ids| == 0 then 0
    else NonAnyCount(ids[..|ids| - 1], any) + (if ids[|ids| - 1] != any then 1 else 0)
  }

  /** The summed energy is es times the number of bases other than ANY. */
  lemma {:induction false} MaxAffinityScaled(ids: seq<int>, any: int, es: real)
    ensures MaxAffinity(ids, any, es) == es * NonAnyCount(ids, any) as real
  {
    if |ids| > 0 {
      MaxAffinityScaled(ids[..|ids| - 1], any, es);
    }
  }

  /**
   * The DBD of the random constructor: dbdLength entries copied from the
   * strand at pos, and 0 (the default byte) past the end of the strand.
   */
  function CopiedDbd(strand: seq<int>, pos: nat, len: nat): (d: seq<int>)
    ensures |d| == len
  {
    seq(len, k requires 0 <= k < len => if pos + k < |strand| then strand[pos + k] else 0)
  }

  /** The strand positions the random constructor reads: from pos, at most len of them. */
  function CopiedPart(strand: seq<int>, pos: nat, len: nat): (s: seq<int>)
    ensures |s| <= len
  {
    if pos >= |strand| then [] else strand[pos..if pos + len < |strand| then pos + len else |strand|]
  }

  /** The copy loop of the random constructor. */
  method CopyDbd(strand: seq<int>, pos: nat, len: nat, any: int, es: real) returns (dbd: seq<int>, maxAffinity: real)
    ensures dbd == CopiedDbd(strand, pos, len)
    ensures maxAffinity == MaxAffinity(CopiedPart(strand, pos, len), any, es)
  {
    var buffer := new int[len](_ => 0);
    maxAffinity := 0.0;
    var i := pos;
    while i < pos + len && i < |strand|
      invariant pos <= i <= pos + len && (i <= |strand| || i == pos)
      invariant forall k :: 0 <= k < i - pos ==> buffer[k] == strand[pos + k]
      invariant forall k :: i - pos <= k < len ==> buffer[k] == 0
      invariant maxAffinity == MaxAffinity(CopiedPart(strand, pos, i - pos), any, es)
    {
      CopiedPartStep(strand, pos, i, any, es);
      buffer[i - pos] := strand[i];
      if buffer[i - pos] != any {
        maxAffinity := maxAffinity + es;
      }
      i := i + 1;
    }
    forall k | 0 <= k < len
      ensures buffer[k] == CopiedDbd(strand, pos, len)[k]
    {
      assert k < i - pos <==> pos + k < |strand|;
    }
    dbd := buffer[..];
    CopiedPartDone(strand, pos, len, i);
  }

  lemma CopiedPartDone(strand: seq<int>, pos: nat, len: nat, i: nat)
    requires pos <= i <= pos + len && (i <= |strand| || i == pos)
    requires !(i < pos + len && i < |strand|)
    ensures CopiedPart(strand, pos, i - pos) == CopiedPart(strand, pos, len)
  {
  }

  lemma CopiedPartStep(strand: seq<int>, pos: nat, i: nat, any: int, es: real)
    requires pos <= i < |strand|
    ensures MaxAffinity(CopiedPart(strand, pos, i + 1 - pos), any, es) ==
            MaxAffinity(CopiedPart(strand, pos, i - pos), any, es) + (if strand[i] != any then es else 0.0)
  {
    var next := CopiedPart(strand, pos, i + 1 - pos);
    assert next[..|next| - 1] == CopiedPart(strand, pos, i - pos);
  }

  /** Only the copied bases count towards the maximal affinity; the padding does not. */
  lemma CopiedAffinity(strand: seq<int>, pos: nat, len: nat, any: int, es: real)
    requires pos + len <= |strand|
    ensures CopiedPart(strand, pos, len) == CopiedDbd(strand, pos, len)
    ensures MaxAffinity(CopiedDbd(strand, pos, len), any, es) == es * NonAnyCount(strand[pos..pos + len], any) as real
  {
    MaxAffinityScaled(CopiedDbd(strand, pos, len), any, es);
  }

  // ------------------------------------------------------------ parseDBD

  /** The DBD type markers and the separator of the landscape and sequence-file forms. */
  datatype DbdSyntax = DbdSyntax(seqMarker: string, pfmMarker: string, pwmMarker: string,
                                 landscapeMarker: string, seqsMarker: string, sep: char)
  {
    predicate Valid() {
      |seqMarker| > 0 && |landscapeMarker| > 0 && |seqsMarker| > 0 && |pwmMarker| > 0
    }
  }

  /** What is needed to read a DBD besides its text. */
  datatype DbdEnv = DbdEnv(syn: DbdSyntax, bps: map<char, int>, any: int, alpha: Alphabet, pfmSyn: PfmSyntax,
                           num: string -> real, parseReal: string -> Option<real>, readable: string -> bool)
  {
    predicate Valid() {
      syn.Valid() && |pfmSyn.marker| > 0 && pfmSyn.marker == syn.pwmMarker
    }
  }

  /** The columns and file of an affinity landscape. */
  datatype LandscapeSpec = LandscapeSpec(posCol: int, colLR: int, colRL: int, file: string, escapeLines: int)

  /** The default value and file of a sequence file. */
  datatype SeqsSpec = SeqsSpec(defaultValue: real, file: string, escapeLines: int)

  /** The fields `parseDBD` sets, and the size it returns. */
  datatype DbdFields = DbdFields(sizeInBP: int, isCognate: bool, dbd: seq<int>, maxAffinity: real,
                                 pfm: Option<PfmState>, landscape: LandscapeSpec, seqs: SeqsSpec, dbdFile: string)

  /** Why `parseDBD` stops the simulation. */
  datatype Stop =
    | NoMotifSize | NoPositionColumn | NoColumnLR | NoColumnRL | NoLandscapeFile | LandscapeUnreadable
    | LandscapeNotSplit | NoDefaultValue | NoSeqsFile | SeqsUnreadable | SeqsNotSplit | BadPfm(e: PfmError)

  /** The fields before `parseDBD`: nothing loaded, not cognate. */
  function Unloaded(): DbdFields
  {
    DbdFields(0, false, [], 0.0, None, LandscapeSpec(0, 0, 0, "", 0), SeqsSpec(0.0, "", 0), "")
  }

  /** The size check of both file forms: negative, or zero with no flanks. */
  predicate NoSize(sizeInBP: int, sizeLeft: int, sizeRight: int) {
    sizeInBP < 0 || (sizeInBP == 0 && sizeLeft == 0 && sizeRight == 0)
  }

  /** The SEQ form: the recognised letters after the marker. */
  function SeqDbd(text: string, env: DbdEnv, es: real): DbdFields
    requires env.Valid()
  {
    SeqFields(DnaFiles.SequenceIds(ReplaceAll(text, env.syn.seqMarker, ""), env.bps), env.any, es)
  }

  /** The fields of a SEQ domain with the given base ids. */
  function SeqFields(ids: seq<int>, any: int, es: real): DbdFields
  {
    Unloaded().(sizeInBP := |ids|, isCognate := |ids| > 0, dbd := ids, maxAffinity := MaxAffinity(ids, any, es))
  }

  /** The landscape form once split into at least six fields. */
  function LandscapeDbd(f: seq<string>, text: string, sizeLeft: int, sizeRight: int, env: DbdEnv): Result<DbdFields, Stop>
    requires |f| >= 6
  {
    var size := ParseInteger(f[0], NONE);
    if NoSize(size, sizeLeft, sizeRight) then Err(NoMotifSize)
    else
      var posCol := if |f| == 7 then ToInt(ParseInteger(f[2], NONE) - 1) else NONE;
      if |f| == 7 && posCol < 0 then Err(NoPositionColumn)
      else
        var k := if |f| == 7 then 3 else 2;
        var colLR := ToInt(ParseInteger(f[k], NONE) - 1);
        var colRL := ToInt(ParseInteger(f[k + 1], NONE) - 1);
        var file := f[k + 2];
        var escape := ParseInteger(f[k + 3], 0);
        if colLR < 0 then Err(NoColumnLR)
        else if colRL < 0 then Err(NoColumnRL)
        else if file == "" then Err(NoLandscapeFile)
        else if !env.readable(file) then Err(LandscapeUnreadable)
        else Ok(Unloaded().(sizeInBP := size, isCognate := ParseBoolean(f[1], true),
                            landscape := LandscapeSpec(posCol, colLR, colRL, file, escape), dbdFile := text))
  }

  /** The sequence-file form once split into exactly five fields. */
  function SeqsFileDbd(f: seq<string>, text: string, sizeLeft: int, sizeRight: int, env: DbdEnv): Result<DbdFields, Stop>
    requires |f| == 5
  {
    var size := ParseInteger(f[0], NONE);
    if NoSize(size, sizeLeft, sizeRight) then Err(NoMotifSize)
    else
      var defaultValue := ParseDouble(env.parseReal(f[2]), NONE as real);
      var file := f[3];
      if defaultValue < 0.0 then Err(NoDefaultValue)
      else if file == "" then Err(NoSeqsFile)
      else if !env.readable(file) then Err(SeqsUnreadable)
      else Ok(Unloaded().(sizeInBP := size, isCognate := ParseBoolean(f[1], true),
                          seqs := SeqsSpec(defaultValue, file, ParseInteger(f[4], 0)), dbdFile := text))
  }

  /** The text after a marker splits into fields. */
  predicate Splits(buffer: string, sep: char) {
    buffer != "" && sep in buffer
  }

  /**
   * `parseDBD(n, dbd)`: the fields it sets, or the reason it stops the
   * simulation. The first marker the text starts with decides the form;
   * a landscape with fewer than six fields and a sequence file without
   * exactly five leave everything unloaded without stopping.
   */
  function ParseDbd(text: string, sizeLeft: int, sizeRight: int, es: real, env: DbdEnv): (r: Result<DbdFields, Stop>)
    requires env.Valid()
  {
    var syn := env.syn;
    if StartsWith(text, syn.seqMarker) then Ok(SeqDbd(text, env, es))
    else if StartsWith(text, syn.pfmMarker) || StartsWith(text, syn.pwmMarker) then
      match PfmOf(env.alpha, env.pfmSyn, env.num, text)
      case Err(e) => Err(BadPfm(e))
      case Ok(p) => Ok(Unloaded().(sizeInBP := p.motifSize, isCognate := p.isCorrect, pfm := Some(p)))
    else if StartsWith(text, syn.landscapeMarker) then
      var buffer := ReplaceAll(text, syn.landscapeMarker, "");
      if !Splits(buffer, syn.sep) then Err(LandscapeNotSplit)
      else
        var f := JavaSplit(buffer, syn.sep);
        if |f| >= 6 then LandscapeDbd(f, text, sizeLeft, sizeRight, env) else Ok(Unloaded().(dbdFile := text))
    else if StartsWith(text, syn.seqsMarker) then
      var buffer := ReplaceAll(text, syn.seqsMarker, "");
      if !Splits(buffer, syn.sep) then Err(SeqsNotSplit)
      else
        var f := JavaSplit(buffer, syn.sep);
        if |f| == 5 then SeqsFileDbd(f, text, sizeLeft, sizeRight, env) else Ok(Unloaded().(dbdFile := text))
    else Ok(Unloaded())
  }

  /**
   * A SEQ domain: its size is its number of recognised letters, it is
   * cognate iff that is non-zero, every id is a base id, and the maximal
   * affinity is the sum `MaxAffinity`: es per base other than ANY.
   */
  lemma ParseDbdSeq(text: string, sizeLeft: int, sizeRight: int, es: real, env: DbdEnv)
    requires env.Valid() && StartsWith(text, env.syn.seqMarker)
    ensures var r := ParseDbd(text, sizeLeft, sizeRight, es, env);
      r.Ok? && r.value.sizeInBP == |r.value.dbd| && (r.value.isCognate <==> |r.value.dbd| > 0) &&
      (forall k :: 0 <= k < |r.value.dbd| ==> r.value.dbd[k] in env.bps.Values) &&
      r.value.maxAffinity == MaxAffinity(r.value.dbd, env.any, es)
  {
    ParseDbdIsSeq(text, sizeLeft, sizeRight, es, env);
    SeqDbdShape(text, es, env);
  }

  /** The SEQ marker selects the SEQ form. */
  lemma ParseDbdIsSeq(text: string, sizeLeft: int, sizeRight: int, es: real, env: DbdEnv)
    requires env.Valid() && StartsWith(text, env.syn.seqMarker)
    ensures ParseDbd(text, sizeLeft, sizeRight, es, env) == Ok(SeqDbd(text, env, es))
  {
  }

  lemma SeqDbdShape(text: string, es: real, env: DbdEnv)
    requires env.Valid()
    ensures var d := SeqDbd(text, env, es);
      d.sizeInBP == |d.dbd| && (d.isCognate <==> |d.dbd| > 0) &&
      (forall k :: 0 <= k < |d.dbd| ==> d.dbd[k] in env.bps.Values)
  {
    DnaFiles.RecognisedIds(Trim(ReplaceAll(text, env.syn.seqMarker, "")), env.bps);
  }

  /** A weight-matrix domain: the size is the matrix's motif size and it is cognate iff the matrix is correct. */
  lemma ParseDbdPfm(text: string, sizeLeft: int, sizeRight: int, es: real, env: DbdEnv)
    requires env.Valid() && !StartsWith(text, env.syn.seqMarker)
    requires StartsWith(text, env.syn.pwmMarker)
    ensures var r := ParseDbd(text, sizeLeft, sizeRight, es, env);
      var p := PfmOf(env.alpha, env.pfmSyn, env.num, text);
      (r.Ok? <==> p.Ok?) &&
      (r.Ok? ==> r.value.sizeInBP == p.value.motifSize && r.value.isCognate == p.value.isCorrect)
  {
  }

  /**
   * A domain marked as a PFM but not as a PWM always stops the
   * simulation: the matrix reader accepts only the PWM marker.
   */
  lemma ParseDbdPfmMarkerStops(text: string, sizeLeft: int, sizeRight: int, es: real, env: DbdEnv)
    requires env.Valid() && !StartsWith(text, env.syn.seqMarker)
    requires StartsWith(text, env.syn.pfmMarker) && !StartsWith(text, env.syn.pwmMarker)
    ensures ParseDbd(text, sizeLeft, sizeRight, es, env) == Err(BadPfm(NoMarker))
  {
  }

  /**
   * A seven-field landscape: the 1-based position and affinity columns
   * become 0-based, and the simulation stops when the position column
   * becomes negative.
   */
  lemma LandscapeSevenFields(f: seq<string>, text: string, sizeLeft: int, sizeRight: int, env: DbdEnv)
    requires |f| == 7 && !NoSize(ParseInteger(f[0], NONE), sizeLeft, sizeRight)
    ensures var r := LandscapeDbd(f, text, sizeLeft, sizeRight, env);
      var pos := ParseInteger(f[2], NONE);
      (r == Err(NoPositionColumn) <==> ToInt(pos - 1) < 0) &&
      (r.Ok? ==> r.value.landscape.posCol == ToInt(pos - 1) && r.value.landscape.file == f[5] &&
                 r.value.landscape.colLR == ToInt(ParseInteger(f[3], NONE) - 1) &&
                 r.value.landscape.colRL == ToInt(ParseInteger(f[4], NONE) - 1))
  {
  }

  /** A six-field (or longer, not seven) landscape has no position column and reads the columns one field earlier. */
  lemma LandscapeSixFields(f: seq<string>, text: string, sizeLeft: int, sizeRight: int, env: DbdEnv)
    requires |f| >= 6 && |f| != 7 && !NoSize(ParseInteger(f[0], NONE), sizeLeft, sizeRight)
    ensures var r := LandscapeDbd(f, text, sizeLeft, sizeRight, env);
      r.Ok? ==> r.value.landscape.posCol == NONE && r.value.landscape.file == f[4] &&
                r.value.landscape.colLR == ToInt(ParseInteger(f[2], NONE) - 1)
  {
  }

  /** Both file forms stop when the motif size is negative, or zero without flanks. */
  lemma FileFormsNeedSize(f: seq<string>, text: string, sizeLeft: int, sizeRight: int, env: DbdEnv)
    requires |f| >= 5 && NoSize(ParseInteger(f[0], NONE), sizeLeft, sizeRight)
    ensures |f| >= 6 ==> LandscapeDbd(f, text, sizeLeft, sizeRight, env) == Err(NoMotifSize)
    ensures |f| == 5 ==> SeqsFileDbd(f, text, sizeLeft, sizeRight, env) == Err(NoMotifSize)
  {
  }

  /** A loaded sequence file has a non-negative default value and a readable, named file. */
  lemma SeqsFileLoaded(f: seq<string>, text: string, sizeLeft: int, sizeRight: int, env: DbdEnv)
    requires |f| == 5 && SeqsFileDbd(f, text, sizeLeft, sizeRight, env).Ok?
    ensures var v := SeqsFileDbd(f, text, sizeLeft, sizeRight, env).value;
      v.seqs.defaultValue >= 0.0 && v.seqs.file != "" && env.readable(v.seqs.file) &&
      !NoSize(v.sizeInBP, sizeLeft, sizeRight)
  {
  }

  /** A text with none of the markers leaves the domain unloaded, with size 0. */
  lemma ParseDbdUnknown(text: string, sizeLeft: int, sizeRight: int, es: real, env: DbdEnv)
    requires env.Valid()
    requires !StartsWith(text, env.syn.seqMarker) && !StartsWith(text, env.syn.pfmMarker)
    requires !StartsWith(text, env.syn.pwmMarker) && !StartsWith(text, env.syn.landscapeMarker)
    requires !StartsWith(text, env.syn.seqsMarker)
    ensures ParseDbd(text, sizeLeft, sizeRight, es, env) == Ok(Unloaded())
  {
  }

  /**
   * The named constructor as written calls `parseDBD` before it assigns
   * `es`, so a SEQ domain's maximal affinity is summed with es = 0.
   */
  function NamedDbdAsWritten(text: string, sizeLeft: int, sizeRight: int, es: real, env: DbdEnv): Result<DbdFields, Stop>
    requires env.Valid()
  {
    ParseDbd(text, sizeLeft, sizeRight, 0.0, env)
  }

  /** The named constructor with `es` assigned before the domain is parsed. */
  function NamedDbd(text: string, sizeLeft: int, sizeRight: int, es: real, env: DbdEnv): Result<DbdFields, Stop>
    requires env.Valid()
  {
    ParseDbd(text, sizeLeft, sizeRight, es, env)
  }

  /** As written, every SEQ domain gets maximal affinity 0, whatever its bases and energy. */
  lemma NamedSeqAffinityAsWritten(text: string, sizeLeft: int, sizeRight: int, es: real, env: DbdEnv)
    requires env.Valid() && StartsWith(text, env.syn.seqMarker)
    ensures NamedDbdAsWritten(text, sizeLeft, sizeRight, es, env).Ok?
    ensures NamedDbdAsWritten(text, sizeLeft, sizeRight, es, env).value.maxAffinity == 0.0
  {
    ParseDbdIsSeq(text, sizeLeft, sizeRight, 0.0, env);
    MaxAffinityScaled(SeqDbd(text, env, 0.0).dbd, env.any, 0.0);
  }

  /**
   * Corrected, a SEQ domain's maximal affinity is the random
   * constructor's sum over its bases: es per base other than ANY
   * (`MaxAffinityScaled`).
   */
  lemma NamedSeqAffinity(text: string, sizeLeft: int, sizeRight: int, es: real, env: DbdEnv)
    requires env.Valid() && StartsWith(text, env.syn.seqMarker)
    ensures var r := NamedDbd(text, sizeLeft, sizeRight, es, env);
      r.Ok? && r.value.maxAffinity == MaxAffinity(r.value.dbd, env.any, es)
  {
    ParseDbdIsSeq(text, sizeLeft, sizeRight, es, env);
  }

  /** A non-zero energy and a base other than ANY give a non-zero sum. */
  lemma MaxAffinityNonZero(ids: seq<int>, any: int, es: real)
    requires es != 0.0 && NonAnyCount(ids, any) > 0
    ensures MaxAffinity(ids, any, es) != 0.0
  {
    MaxAffinityScaled(ids, any, es);
  }

  /**
   * As soon as a SEQ domain has a base other than ANY and the energy is
   * not zero, the affinity as written differs from the intended one.
   */
  lemma NamedSeqAffinityDiffers(text: string, sizeLeft: int, sizeRight: int, es: real, env: DbdEnv)
    requires env.Valid() && StartsWith(text, env.syn.seqMarker) && es != 0.0
    requires NonAnyCount(SeqDbd(text, env, es).dbd, env.any) > 0
    ensures NamedDbdAsWritten(text, sizeLeft, sizeRight, es, env).value.maxAffinity == 0.0
    ensures NamedDbd(text, sizeLeft, sizeRight, es, env).value.maxAffinity != 0.0
  {
    NamedSeqAffinityAsWritten(text, sizeLeft, sizeRight, es, env);
    NamedSeqAffinity(text, sizeLeft, sizeRight, es, env);
    MaxAffinityNonZero(SeqDbd(text, env, es).dbd, env.any, es);
  }

  // ------------------------------------------------------------ the initial drop

  /**
   * The initial drop of the named constructor and its position relative
   * to the region: kept only when it starts after the region's start and
   * its end − 1 lies before the region's size; otherwise both become the
   * whole region.
   */
  function InitialDrop(region: Region, drop: Region): (r: (Region, Region))
  {
    var rel := Region(drop.start - region.start, drop.end - region.start);
    if rel.start > 0 && rel.end - 1 < region.Size() then (drop, rel)
    else (Region(0, region.Size()), Region(0, region.Size()))
  }

  /** The relative drop ends within the region, and starts inside it or at 0. */
  lemma InitialDropInside(region: Region, drop: Region)
    ensures var r := InitialDrop(region, drop);
      0 <= r.1.start && r.1.end <= region.Size() &&
      (r.1.start == 0 || r.0 == drop)
  {
  }

  /** A drop that starts at the region's very start is replaced by the whole region. */
  lemma InitialDropAtStart(region: Region, drop: Region)
    requires drop.start == region.start
    ensures InitialDrop(region, drop) == (Region(0, region.Size()), Region(0, region.Size()))
  {
  }

  // ------------------------------------------------------------ cooperativity

  /** `TF_COOPERATIVITY_TYPE_DNA`, `TF_COOPERATIVITY_TYPE_DIRECT` or another type. */
  datatype CoopKind = DnaCoop | DirectCoop | OtherCoop

  /** The parts of a `TFcooperativity` the species reads. */
  datatype Coop = Coop(kind: CoopKind, species1: int, direction0: int, direction1: int, region0: Region)

  /** Whether a stored direction admits the given one. */
  predicate Admits(stored: int, given: int) {
    stored == NONE || stored == given
  }

  /** `setSiteAsCooperative` as written: rows [start, end) with end clamped by `Math.min(1, region.end)`. */
  function SiteRowsAsWritten(region: Region): (r: (int, int))
  {
    var start := if 0 > region.start then 0 else region.start;
    var end0 := if 1 < region.end then 1 else region.end;
    (start, if start + 1 > end0 then start + 1 else end0)
  }

  /** As written, exactly one row is ever marked, whatever the region. */
  lemma SiteRowsAsWrittenOne(region: Region)
    ensures SiteRowsAsWritten(region).1 == SiteRowsAsWritten(region).0 + 1
  {
  }

  /** The rows meant to be marked: the region clipped to the DNA, at least one row. */
  function SiteRows(region: Region, length: int): (r: (int, int))
  {
    var start := if 0 > region.start then 0 else region.start;
    var end0 := if length < region.end then length else region.end;
    (start, if start + 1 > end0 then start + 1 else end0)
  }

  /** The corrected rows cover the whole region inside the DNA. */
  lemma SiteRowsCover(region: Region, length: int, p: int)
    requires 0 <= p < length && region.start <= p < region.end
    ensures SiteRows(region, length).0 <= p < SiteRows(region, length).1
  {
  }

  /** The region [0, 3) of a DNA of length 3: only position 0 is marked as written, all three corrected. */
  lemma SiteRowsDiffer()
    ensures SiteRowsAsWritten(Region(0, 3)) == (0, 1)
    ensures SiteRows(Region(0, 3), 3) == (0, 3)
  {
  }

  /** The cells a DNA-based cooperativity marks, given the rows and the direction it holds. */
  predicate Marked(rows: (int, int), dir0: int, dirs: int, i: int, j: int) {
    rows.0 <= i < rows.1 && (if dir0 != NONE then j == dir0 else 0 <= j < dirs)
  }

  /** The SEQ branch's loop: es added once per base other than ANY. */
  method SumAffinity(ids: seq<int>, any: int, es: real) returns (maxAffinity: real)
    ensures maxAffinity == MaxAffinity(ids, any, es)
  {
    maxAffinity := 0.0;
    var i := 0;
    while i < |ids|
      invariant 0 <= i <= |ids|
      invariant maxAffinity == MaxAffinity(ids[..i], any, es)
    {
      assert ids[..i + 1][..i] == ids[..i];
      if ids[i] != any {
        maxAffinity := maxAffinity + es;
      }
      i := i + 1;
    }
    assert ids[..i] == ids;
  }

  /**
   * `parseDBD` run step by step: the SEQ branch sums the affinity in a
   * loop; the other branches assign the fields their function gives.
   */
  method ParseDbdFields(text: string, sizeLeft: int, sizeRight: int, es: real, env: DbdEnv) returns (r: Result<DbdFields, Stop>)
    requires env.Valid()
    ensures r == ParseDbd(text, sizeLeft, sizeRight, es, env)
  {
    if StartsWith(text, env.syn.seqMarker) {
      var ids := DnaFiles.SequenceIds(ReplaceAll(text, env.syn.seqMarker, ""), env.bps);
      var maxAffinity := SumAffinity(ids, env.any, es);
      r := Ok(Unloaded().(sizeInBP := |ids|, isCognate := |ids| > 0, dbd := ids, maxAffinity := maxAffinity));
      ParseDbdIsSeq(text, sizeLeft, sizeRight, es, env);
    } else {
      r := ParseDbd(text, sizeLeft, sizeRight, es, env);
    }
  }

  /** The species' arguments that both constructors store unchanged. */
  datatype SpeciesArgs = SpeciesArgs(copyNumber: int, es: real, sizeLeft: int, sizeRight: int, assocRate: real,
                                     moves: Moves, repressionRate: real, repressionAttenuationFactor: real,
                                     repressionLeftSize: int, repressionRightSize: int, stepLeftSize: int,
                                     stepRightSize: int, uncorrelatedDisplacementSize: int, stallsIfBlocked: bool,
                                     isImmobile: bool)

  class TFSpecies {
    const id: int
    const name: string
    const args: SpeciesArgs
    /** What the DBD gave: the motif, its size, cognacy, affinity and file settings. */
    const dbd: DbdFields
    const sizeTotal: int
    const thresholds: Thresholds
    const initialDrop: Region
    /** Not set by the random constructor (Java's null). */
    const relInitialDrop: Option<Region>
    /** `TFcoop`: the cooperativities added so far. */
    var coops: seq<Coop>
    /** `isCooperativeSite[position][direction]`: a cooperativity id, or NONE; null until the first DNA-based one. */
    var coopSite: array2?<int>
    /** `directCooperativeSpecies`: the cooperativity id of each partner species. */
    var directCoop: map<int, int>
    var isCooperative: bool
    var hasDnaCoop: bool
    var hasDirectCoop: bool
    /** The event counters `countTFBindingEvents`, `countTFUnbindingEvents`, `countTFHoppingEvents`, ... */
    var countBinding: int
    var countUnbinding: int
    var countSlideLeft: int
    var countSlideRight: int
    var countHopping: int
    var countForcedJumps: int
    var countHopsOutside: int

    /** Every stored cooperativity id names a cooperativity. */
    ghost predicate Valid()
      reads this, coopSite
    {
      (forall s :: s in directCoop ==> 0 <= directCoop[s] < |coops|) &&
      (coopSite != null ==>
         coopSite.Length1 > 0 &&
         forall i, j :: 0 <= i < coopSite.Length0 && 0 <= j < coopSite.Length1 ==>
           coopSite[i, j] == NONE || 0 <= coopSite[i, j] < |coops|)
    }

    /**
     * The fields both constructors set: the total footprint is the flanks
     * plus the motif, and the thresholds are cumulative; no cooperativity
     * yet (the named constructor marks the species cooperative anyway).
     */
    constructor (id: int, name: string, args: SpeciesArgs, dbd: DbdFields, initialDrop: Region,
                 relInitialDrop: Option<Region>, isCooperative: bool)
      ensures Valid()
      ensures this.id == id && this.name == name && this.args == args && this.dbd == dbd
      ensures sizeTotal == args.sizeLeft + args.sizeRight + dbd.sizeInBP
      ensures thresholds == CumulativeThresholds(args.moves)
      ensures this.initialDrop == initialDrop && this.relInitialDrop == relInitialDrop
      ensures coops == [] && coopSite == null && directCoop == map[]
      ensures this.isCooperative == isCooperative && !hasDnaCoop && !hasDirectCoop
      ensures countBinding == 0 && countUnbinding == 0 && countSlideLeft == 0 && countSlideRight == 0
      ensures countHopping == 0 && countForcedJumps == 0 && countHopsOutside == 0
    {
      this.id := id;
      this.name := name;
      this.args := args;
      this.dbd := dbd;
      sizeTotal := args.sizeLeft + args.sizeRight + dbd.sizeInBP;
      thresholds := CumulativeThresholds(args.moves);
      this.initialDrop := initialDrop;
      this.relInitialDrop := relInitialDrop;
      coops := [];
      coopSite := null;
      directCoop := map[];
      this.isCooperative := isCooperative;
      hasDnaCoop := false;
      hasDirectCoop := false;
      countBinding, countUnbinding, countSlideLeft, countSlideRight := 0, 0, 0, 0;
      countHopping, countForcedJumps, countHopsOutside := 0, 0, 0;
    }

    /** A hop that unbound and rebound a molecule counts as one hop, not as an unbinding and a binding. */
    method CountHop()
      modifies this`countHopping, this`countBinding, this`countUnbinding
      ensures countHopping == old(countHopping) + 1
      ensures countBinding == old(countBinding) - 1 && countUnbinding == old(countUnbinding) - 1
    {
      countHopping := countHopping + 1;
      countBinding := countBinding - 1;
      countUnbinding := countUnbinding - 1;
    }

    /**
     * The constructor of the random species: named "TF" + id, its DBD
     * copied from the strand at pos, its total size counting all
     * dbdLength entries, and not cooperative.
     */
    static method Random(id: int, strand: seq<int>, pos: nat, dbdLength: nat, args: SpeciesArgs, initialDrop: Region,
                         isCognate: bool, any: int) returns (t: TFSpecies)
      ensures fresh(t) && t.Valid() && !t.isCooperative && t.coops == []
      ensures t.name == "TF" + IntToString(id) && t.id == id && t.args == args
      ensures t.dbd.dbd == CopiedDbd(strand, pos, dbdLength) && t.dbd.isCognate == isCognate
      ensures t.dbd.maxAffinity == MaxAffinity(CopiedPart(strand, pos, dbdLength), any, args.es)
      ensures t.sizeTotal == args.sizeLeft + args.sizeRight + dbdLength
      ensures t.thresholds == CumulativeThresholds(args.moves)
      ensures t.initialDrop == initialDrop && t.relInitialDrop.None?
    {
      var dbd, maxAffinity := CopyDbd(strand, pos, dbdLength, any, args.es);
      var fields := Unloaded().(sizeInBP := dbdLength, isCognate := isCognate, dbd := dbd, maxAffinity := maxAffinity);
      t := new TFSpecies(id, "TF" + IntToString(id), args, fields, initialDrop, None, false);
    }

    /**
     * The named constructor: the DBD text parsed (with `es` already
     * assigned, see `NamedDbdAsWritten`), the simulation stopped when
     * parsing stops it, the initial drop placed in the region, and the
     * species marked cooperative.
     */
    static method Named(region: Region, id: int, name: string, text: string, args: SpeciesArgs, drop: Region,
                        env: DbdEnv) returns (r: Result<TFSpecies, Stop>)
      requires env.Valid()
      ensures var d := NamedDbd(text, args.sizeLeft, args.sizeRight, args.es, env);
        r.Err? <==> d.Err? && (r.Err? ==> r.error == d.error)
      ensures r.Ok? ==>
        var d := NamedDbd(text, args.sizeLeft, args.sizeRight, args.es, env).value;
        fresh(r.value) && r.value.Valid() && r.value.isCooperative && r.value.coops == [] &&
        r.value.id == id && r.value.name == name && r.value.args == args && r.value.dbd == d &&
        r.value.sizeTotal == args.sizeLeft + args.sizeRight + d.sizeInBP &&
        r.value.thresholds == CumulativeThresholds(args.moves) &&
        (r.value.initialDrop, r.value.relInitialDrop) == (InitialDrop(region, drop).0, Some(InitialDrop(region, drop).1))
    {
      var parsed := ParseDbdFields(text, args.sizeLeft, args.sizeRight, args.es, env);
      if parsed.Err? {
        return Err(parsed.error);
      }
      var initialDrop, rel := PlaceDrop(region, drop);
      var t := new TFSpecies(id, name, args, parsed.value, initialDrop, Some(rel), true);
      return Ok(t);
    }

    /** The named constructor's placing of the initial drop. */
    static method PlaceDrop(region: Region, drop: Region) returns (initialDrop: Region, rel: Region)
      ensures (initialDrop, rel) == InitialDrop(region, drop)
    {
      rel := Region(drop.start - region.start, drop.end - region.start);
      initialDrop := drop;
      if !(rel.start > 0 && rel.end - 1 < region.Size()) {
        initialDrop := Region(0, region.Size());
        rel := Region(0, region.Size());
      }
    }

    /** `isRepressor()`. */
    predicate IsRepressor() {
      args.repressionRate > 0.0
    }

    /** `getDirectCooperativityRight(speciesID1, direction0, direction1)`. */
    function DirectRight(species1: int, direction0: int, direction1: int): (r: Option<Coop>)
      reads this, coopSite
      requires Valid()
      ensures r.Some? <==>
                species1 in directCoop &&
                Admits(coops[directCoop[species1]].direction0, direction0) &&
                Admits(coops[directCoop[species1]].direction1, direction1)
      ensures r.Some? ==> r.value == coops[directCoop[species1]]
    {
      if species1 in directCoop then
        var c := coops[directCoop[species1]];
        if Admits(c.direction0, direction0) && Admits(c.direction1, direction1) then Some(c) else None
      else None
    }

    /** `getDirectCooperativityLeft(speciesID1, direction0, direction1)`: the stored directions compared crosswise. */
    function DirectLeft(species1: int, direction0: int, direction1: int): (r: Option<Coop>)
      reads this, coopSite
      requires Valid()
      ensures r.Some? ==> species1 in directCoop && r.value == coops[directCoop[species1]]
    {
      if species1 in directCoop then
        var c := coops[directCoop[species1]];
        if Admits(c.direction0, direction1) && Admits(c.direction1, direction0) then Some(c) else None
      else None
    }

    /** The left lookup is the right lookup with the two given directions swapped. */
    lemma LeftIsSwappedRight(species1: int, direction0: int, direction1: int)
      requires Valid()
      ensures DirectLeft(species1, direction0, direction1) == DirectRight(species1, direction1, direction0)
    {
    }

    /**
     * `isCooperativeSite(position, dir)`: in a valid species, exactly when the
     * cell holds the index of one of its cooperativities.
     */
    predicate IsCooperativeSite(position: int, dir: int)
      reads this, coopSite
      requires coopSite != null && 0 <= position < coopSite.Length0 && 0 <= dir < coopSite.Length1
      ensures Valid() ==> (IsCooperativeSite(position, dir) <==> 0 <= coopSite[position, dir] < |coops|)
    {
      coopSite[position, dir] != NONE
    }

    /** `getCooperativity(position, direction)` at a cooperative site. */
    function GetCooperativity(position: int, dir: int): (c: Coop)
      reads this, coopSite
      requires Valid() && coopSite != null && 0 <= position < coopSite.Length0 && 0 <= dir < coopSite.Length1
      requires IsCooperativeSite(position, dir)
      ensures c in coops
    {
      coops[coopSite[position, dir]]
    }

    /** `intiateCooperativeSite(DNAlength, TFdirections)`: every cell NONE. */
    method InitCooperativeSites(dnaLength: nat, directions: nat)
      requires directions > 0
      requires Valid()
      modifies this
      ensures Valid()
      ensures coopSite != null && fresh(coopSite)
      ensures coopSite.Length0 == dnaLength && coopSite.Length1 == directions
      ensures forall i, j :: 0 <= i < dnaLength && 0 <= j < directions ==> coopSite[i, j] == NONE
      ensures coops == old(coops) && directCoop == old(directCoop)
      ensures isCooperative == old(isCooperative) && hasDnaCoop == old(hasDnaCoop) && hasDirectCoop == old(hasDirectCoop)
    {
      coopSite := new int[dnaLength, directions]((i, j) => NONE);
    }

    /**
     * `setSiteAsCooperative(region, coopID)`, with the rows clipped to the
     * DNA (see `SiteRowsAsWritten` for the rows as written): every cell of
     * the rows, in the cooperativity's direction or in all of them, gets
     * the id; nothing else changes.
     */
    method SetSiteAsCooperative(region: Region, coopId: nat)
      requires coopSite != null && coopId < |coops|
      requires SiteRows(region, coopSite.Length0).0 < coopSite.Length0
      requires coops[coopId].direction0 == NONE || 0 <= coops[coopId].direction0 < coopSite.Length1
      modifies coopSite
      ensures forall i, j :: 0 <= i < coopSite.Length0 && 0 <= j < coopSite.Length1 ==>
        coopSite[i, j] == (if Marked(SiteRows(region, coopSite.Length0), coops[coopId].direction0, coopSite.Length1, i, j)
                           then coopId else old(coopSite[i, j]))
    {
      var rows := SiteRows(region, coopSite.Length0);
      var dir0 := coops[coopId].direction0;
      var startDir, endDir := 0, coopSite.Length1;
      if dir0 != NONE {
        startDir, endDir := dir0, dir0 + 1;
      }
      var i := rows.0;
      while i < rows.1
        invariant rows.0 <= i <= rows.1
        invariant forall a, b :: 0 <= a < coopSite.Length0 && 0 <= b < coopSite.Length1 ==>
          coopSite[a, b] == (if Marked((rows.0, i), dir0, coopSite.Length1, a, b) then coopId else old(coopSite[a, b]))
      {
        MarkRow(i, startDir, endDir, coopId);
        i := i + 1;
      }
    }

    /** The inner loop: one row, the directions [startDir, endDir). */
    method MarkRow(i: int, startDir: int, endDir: int, coopId: int)
      requires coopSite != null && 0 <= i < coopSite.Length0 && 0 <= startDir <= endDir <= coopSite.Length1
      modifies coopSite
      ensures forall a, b :: 0 <= a < coopSite.Length0 && 0 <= b < coopSite.Length1 ==>
        coopSite[a, b] == (if a == i && startDir <= b < endDir then coopId else old(coopSite[a, b]))
    {
      var j := startDir;
      while j < endDir
        invariant startDir <= j <= endDir
        invariant forall a, b :: 0 <= a < coopSite.Length0 && 0 <= b < coopSite.Length1 ==>
          coopSite[a, b] == (if a == i && startDir <= b < j then coopId else old(coopSite[a, b]))
      {
        coopSite[i, j] := coopId;
        j := j + 1;
      }
    }

    /** A DNA-based cooperativity can be marked: its rows start inside the DNA and its direction is a column. */
    predicate Fits(coop: Coop, rows: int, dirs: int) {
      dirs > 0 && SiteRows(coop.region0, rows).0 < rows &&
      (coop.direction0 == NONE || 0 <= coop.direction0 < dirs)
    }

    /**
     * `addCooperativity(coop, DNAlength, TFdirections)`: the cooperativity
     * is appended and the species becomes cooperative; a DNA-based one
     * marks its site (creating the table on first use) with its index, a
     * direct one is stored under its partner species.
     */
    method AddCooperativity(coop: Coop, dnaLength: nat, directions: nat)
      requires Valid()
      requires coop.kind == DnaCoop ==>
        if coopSite == null then Fits(coop, dnaLength, directions) else Fits(coop, coopSite.Length0, coopSite.Length1)
      modifies this, coopSite
      ensures Valid()
      ensures coops == old(coops) + [coop] && isCooperative
      ensures hasDnaCoop == (old(hasDnaCoop) || coop.kind == DnaCoop)
      ensures hasDirectCoop == (old(hasDirectCoop) || coop.kind == DirectCoop)
      ensures directCoop == if coop.kind == DirectCoop then old(directCoop)[coop.species1 := |old(coops)|] else old(directCoop)
      ensures coop.kind != DnaCoop ==> coopSite == old(coopSite) && (coopSite != null ==> unchanged(coopSite))
      ensures coop.kind == DnaCoop && old(coopSite) != null ==>
        coopSite == old(coopSite) &&
        forall i, j :: 0 <= i < coopSite.Length0 && 0 <= j < coopSite.Length1 ==>
          coopSite[i, j] == (if Marked(SiteRows(coop.region0, coopSite.Length0), coop.direction0, coopSite.Length1, i, j)
                             then |old(coops)| else old(coopSite[i, j]))
      ensures coop.kind == DnaCoop && old(coopSite) == null ==>
        coopSite != null && fresh(coopSite) && coopSite.Length0 == dnaLength && coopSite.Length1 == directions &&
        forall i, j :: 0 <= i < dnaLength && 0 <= j < directions ==>
          coopSite[i, j] == (if Marked(SiteRows(coop.region0, dnaLength), coop.direction0, directions, i, j)
                             then |old(coops)| else NONE)
    {
      coops := coops + [coop];
      isCooperative := true;
      if !hasDnaCoop && coop.kind == DnaCoop {
        hasDnaCoop := true;
      }
      if !hasDirectCoop && coop.kind == DirectCoop {
        hasDirectCoop := true;
      }
      if coop.kind == DnaCoop {
        MarkDnaCooperativity(coop.region0, |coops| - 1, dnaLength, directions);
      }
      if coop.kind == DirectCoop {
        directCoop := directCoop[coop.species1 := |coops| - 1];
      }
    }

    /** The DNA-based half of `addCooperativity`: create the table on first use, then mark the site. */
    method MarkDnaCooperativity(region: Region, coopId: nat, dnaLength: nat, directions: nat)
      requires Valid() && coopId < |coops|
      requires var c := coops[coopId].(region0 := region);
        if coopSite == null then Fits(c, dnaLength, directions) else Fits(c, coopSite.Length0, coopSite.Length1)
      modifies this, coopSite
      ensures Valid()
      ensures coops == old(coops) && directCoop == old(directCoop)
      ensures isCooperative == old(isCooperative) && hasDnaCoop == old(hasDnaCoop) && hasDirectCoop == old(hasDirectCoop)
      ensures old(coopSite) != null ==>
        coopSite == old(coopSite) &&
        forall i, j :: 0 <= i < coopSite.Length0 && 0 <= j < coopSite.Length1 ==>
          coopSite[i, j] == (if Marked(SiteRows(region, coopSite.Length0), coops[coopId].direction0, coopSite.Length1, i, j)
                             then coopId else old(coopSite[i, j]))
      ensures old(coopSite) == null ==>
        coopSite != null && fresh(coopSite) && coopSite.Length0 == dnaLength && coopSite.Length1 == directions &&
        forall i, j :: 0 <= i < dnaLength && 0 <= j < directions ==>
          coopSite[i, j] == (if Marked(SiteRows(region, dnaLength), coops[coopId].direction0, directions, i, j)
                             then coopId else NONE)
    {
      if coopSite == null {
        InitCooperativeSites(dnaLength, directions);
      }
      SetSiteAsCooperative(region, coopId);
    }
  }
}
