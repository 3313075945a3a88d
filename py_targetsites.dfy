/**
 * The target-site table of the post-processing scripts (utils.py and
 * dataproc/utils.py `create_target_site_df`): one row per line of the
 * target-site file `NAME:...:START..END:STRAND`, with the site's affinity
 * (utils.py) or energy (dataproc/utils.py) looked up in a landscape table.
 */
module PyTargetSites {
  import opened Wrappers
  import opened Text
  import PyVectors

  /** One row of the table: repressor, name, name_strand, pos, size, strand and affinity. */
  datatype SiteRow = SiteRow(repressor: bool, name: string, nameStrand: string,
                             pos: int, size: int, strand: int, affinity: real)

  /** `df_tf_data.at[name, REPRESSION_RATE]`: a KeyError for an unknown TF. */
  type RateLookup = string -> Result<real, PyError>

  /** The landscape lookup of a site by its position and strand-qualified name. */
  type SiteLookup = (int, string) -> Result<real, PyError>

  const FORWARD_STRAND: string := "5'3'"

  /** The strand suffix of a column name: strand 0 is 5'3', every other value 3'5'. */
  function StrandSuffix(strand: int): string {
    if strand == 0 then FORWARD_STRAND else PyVectors.REVERSE_STRAND
  }

  /** The numeric fields of a line: its start, its end and its strand. */
  datatype Span = Span(pos: int, end: int, strand: int)

  /**
   * `int(info[2].split('..')[0])`, `int(info[2].split('..')[1])` and
   * `int(info[-1])`, in that order, each raising on its own.
   */
  function SpanOf(line: string): (r: Result<Span, PyError>)
    ensures |PySplit(line, ':')| < 3 ==> r == Err(IndexError)
    ensures r.Err? ==> r.error == IndexError || r.error == ValueError
  {
    var info := PySplit(line, ':');
    if |info| < 3 then Err(IndexError)
    else
      var parts := SplitStr(info[2], "..");
      var pos := PyInt(parts[0]);
      if pos.Err? then Err(pos.error)
      else if |parts| < 2 then Err(IndexError)
      else
        var end := PyInt(parts[1]);
        if end.Err? then Err(end.error)
        else
          var strand := PyInt(info[|info| - 1]);
          if strand.Err? then Err(strand.error)
          else Ok(Span(pos.value, end.value, strand.value))
  }

  /** `is_site_of_repr`: the TF's repression rate is positive; no TF table means no repressor. */
  function IsRepressor(rates: Option<RateLookup>, name: string): Result<bool, PyError> {
    match rates
    case None => Ok(false)
    case Some(rate) =>
      var r := rate(name);
      if r.Err? then Err(r.error) else Ok(r.value > 0.0)
  }

  /**
   * One line for utils.py: the span first, then the repression rate, then
   * the affinity of the site under its column name, which carries the
   * strand only when the landscape is double-stranded.
   */
  function ParseSiteLine(line: string, bothDir: bool, rates: Option<RateLookup>, affinity: SiteLookup): (r: Result<SiteRow, PyError>)
    ensures r.Ok? ==> r.value.name == PySplit(line, ':')[0] && SpanOf(line).Ok?
    ensures r.Ok? ==> r.value.size == SpanOf(line).value.end + 1 - r.value.pos
    ensures r.Ok? ==> r.value.nameStrand == r.value.name + (if bothDir then StrandSuffix(r.value.strand) else "")
  {
    RowOfSpan(PySplit(line, ':')[0], SpanOf(line), bothDir, rates, affinity)
  }

  /** The row of a line whose name and span have been read. */
  function RowOfSpan(name: string, span: Result<Span, PyError>, bothDir: bool, rates: Option<RateLookup>, affinity: SiteLookup): (r: Result<SiteRow, PyError>)
    ensures r.Ok? ==> r.value.name == name && span.Ok? && r.value.size == span.value.end + 1 - r.value.pos
    ensures r.Ok? ==> r.value.nameStrand == name + (if bothDir then StrandSuffix(r.value.strand) else "")
  {
    if span.Err? then Err(span.error)
    else
      var s := span.value;
      var nameDir := if bothDir then name + StrandSuffix(s.strand) else name + "";
      var repr := IsRepressor(rates, name);
      if repr.Err? then Err(repr.error)
      else
        var a := affinity(s.pos, nameDir);
        if a.Err? then Err(a.error)
        else Ok(SiteRow(repr.value, name, nameDir, s.pos, s.end + 1 - s.pos, s.strand, a.value))
  }

  /**
   * One line for dataproc/utils.py: the repression rate is read first, the
   * column name always carries the strand, and the energy is looked up with
   * `.at[pos, name_strand]`.
   */
  function ParseSiteLineDataproc(line: string, rates: RateLookup, energy: SiteLookup): (r: Result<SiteRow, PyError>)
    ensures r.Ok? ==> r.value.name == PySplit(line, ':')[0] && SpanOf(line).Ok?
    ensures r.Ok? ==> r.value.size == SpanOf(line).value.end + 1 - r.value.pos
    ensures r.Ok? ==> r.value.nameStrand == r.value.name + StrandSuffix(r.value.strand)
  {
    var name := PySplit(line, ':')[0];
    var repr := IsRepressor(Some(rates), name);
    if repr.Err? then Err(repr.error)
    else RowOfSpanDataproc(name, repr.value, SpanOf(line), energy)
  }

  /** The dataproc row of a line whose name, repressor flag and span have been read. */
  function RowOfSpanDataproc(name: string, repressor: bool, span: Result<Span, PyError>, energy: SiteLookup): (r: Result<SiteRow, PyError>)
    ensures r.Ok? ==> r.value.name == name && span.Ok? && r.value.size == span.value.end + 1 - r.value.pos
    ensures r.Ok? ==> r.value.nameStrand == name + StrandSuffix(r.value.strand)
  {
    if span.Err? then Err(span.error)
    else
      var s := span.value;
      var nameDir := name + StrandSuffix(s.strand);
      var e := energy(s.pos, nameDir);
      if e.Err? then Err(e.error)
      else Ok(SiteRow(repressor, name, nameDir, s.pos, s.end + 1 - s.pos, s.strand, e.value))
  }

  /** The table of the lines read so far, or the first exception. */
  function RowsOf(lines: seq<string>, parse: string -> Result<SiteRow, PyError>): (r: Result<seq<SiteRow>, PyError>)
    ensures r.Ok? <==> forall i :: 0 <= i < |lines| ==> parse(lines[i]).Ok?
    ensures r.Ok? ==> |r.value| == |lines| && forall i :: 0 <= i < |lines| ==> r.value[i] == parse(lines[i]).value
  {
    if |lines| == 0 then Ok([])
    else
      var init := lines[..|lines| - 1];
      var prev := RowsOf(init, parse);
      assert forall i :: 0 <= i < |init| ==> init[i] == lines[i];
      if prev.Err? then Err(prev.error)
      else
        var p := parse(lines[|lines| - 1]);
        if p.Err? then Err(p.error) else Ok(prev.value + [p.value])
  }

  /** On failure the exception is the one raised by the first line that fails. */
  lemma {:induction false} RowsOfFirstError(lines: seq<string>, parse: string -> Result<SiteRow, PyError>, k: nat)
    requires k < |lines| && parse(lines[k]).Err?
    requires forall j :: 0 <= j < k ==> parse(lines[j]).Ok?
    ensures RowsOf(lines, parse) == Err(parse(lines[k]).error)
  {
    var init := lines[..|lines| - 1];
    if k < |lines| - 1 {
      assert init[k] == lines[k];
      RowsOfFirstError(init, parse, k);
    } else {
      assert forall j :: 0 <= j < |init| ==> parse(init[j]).Ok? by {
        assert forall j :: 0 <= j < |init| ==> init[j] == lines[j];
      }
    }
  }

  /**
   * The loop both `create_target_site_df` functions share: each line of the
   * file becomes row i of the table, in file order; `parse` is
   * `ParseSiteLine` for utils.py and `ParseSiteLineDataproc` for
   * dataproc/utils.py.
   */
  method CreateTargetSiteDf(lines: seq<string>, parse: string -> Result<SiteRow, PyError>) returns (r: Result<seq<SiteRow>, PyError>)
    ensures r == RowsOf(lines, parse)
  {
    var rows: seq<SiteRow> := [];
    var i := 0;
    while i < |lines|
      invariant 0 <= i <= |lines|
      invariant RowsOf(lines[..i], parse) == Ok(rows)
    {
      assert lines[..i + 1][..i] == lines[..i];
      var p := parse(lines[i]);
      if p.Err? {
        assert RowsOf(lines[..i + 1], parse) == Err(p.error);
        RowsOfPrefixError(lines, parse, i + 1);
        return Err(p.error);
      }
      rows := rows + [p.value];
      i := i + 1;
    }
    assert lines[..i] == lines;
    return Ok(rows);
  }

  /** An exception in a prefix of the file is the exception of the whole file. */
  lemma {:induction false} RowsOfPrefixError(lines: seq<string>, parse: string -> Result<SiteRow, PyError>, n: nat)
    requires n <= |lines| && RowsOf(lines[..n], parse).Err?
    ensures RowsOf(lines, parse) == RowsOf(lines[..n], parse)
    decreases |lines| - n
  {
    if n < |lines| {
      assert lines[..n + 1][..n] == lines[..n];
      RowsOfPrefixError(lines, parse, n + 1);
    } else {
      assert lines[..n] == lines;
    }
  }

  /** A line of the shape the reader expects, with natural-number fields. */
  function SiteLine(name: string, region: string, start: nat, end: nat, strand: nat): string {
    name + ":" + (region + ":" + (RangeText(start, end) + ":" + (NatToString(strand) + "\n")))
  }

  /** The `START..END` field of a site line. */
  function RangeText(start: nat, end: nat): string {
    NatToString(start) + ".." + NatToString(end)
  }

  lemma DigitsHaveNo(n: nat, c: char)
    requires !('0' <= c <= '9')
    ensures c !in NatToString(n)
  {
  }

  /** The ':'-fields of a site line. */
  lemma SiteLineFields(name: string, region: string, start: nat, end: nat, strand: nat)
    requires ':' !in name && ':' !in region
    ensures PySplit(SiteLine(name, region, start, end, strand), ':') ==
      [name, region, RangeText(start, end), NatToString(strand) + "\n"]
  {
    var m := RangeText(start, end);
    var c := NatToString(strand) + "\n";
    DigitsHaveNo(start, ':');
    DigitsHaveNo(end, ':');
    DigitsHaveNo(strand, ':');
    assert ':' !in m;
    assert ':' !in c;
    SplitPrefix(name, region + ":" + (m + ":" + c), ':');
    SplitPrefix(region, m + ":" + c, ':');
    SplitPrefix(m, c, ':');
    SplitNoSep(c, ':');
  }

  /** The two ends of a site's range. */
  lemma RangeParts(start: nat, end: nat)
    ensures SplitStr(RangeText(start, end), "..") == [NatToString(start), NatToString(end)]
  {
    DigitsHaveNo(start, '.');
    DigitsHaveNo(end, '.');
    SplitStrPrefix(NatToString(start), NatToString(end), "..");
    SplitStrNoSep(NatToString(end), "..");
  }

  /** The span of a site line: its start, end and strand are read back. */
  lemma SiteLineSpan(name: string, region: string, start: nat, end: nat, strand: nat)
    requires ':' !in name && ':' !in region
    ensures PySplit(SiteLine(name, region, start, end, strand), ':')[0] == name
    ensures SpanOf(SiteLine(name, region, start, end, strand)) == Ok(Span(start, end, strand))
  {
    var line := SiteLine(name, region, start, end, strand);
    var info := [name, region, RangeText(start, end), NatToString(strand) + "\n"];
    SiteLineFields(name, region, start, end, strand);
    RangeParts(start, end);
    NatReadBack(start);
    NatReadBack(end);
    PyIntOfNat(strand, "\n");
    SpanOfParts(line, info, [NatToString(start), NatToString(end)], start, end, strand);
  }

  /** A number written out reads back as itself. */
  lemma NatReadBack(n: nat)
    ensures PyInt(NatToString(n)) == Ok(n)
  {
    PyIntOfNat(n, "");
    assert NatToString(n) + "" == NatToString(n);
  }

  /** The span of a line whose fields and range parts read as numbers. */
  lemma SpanOfParts(line: string, info: seq<string>, parts: seq<string>, start: int, end: int, strand: int)
    requires PySplit(line, ':') == info && |info| >= 3 && SplitStr(info[2], "..") == parts && |parts| >= 2
    requires PyInt(parts[0]) == Ok(start) && PyInt(parts[1]) == Ok(end) && PyInt(info[|info| - 1]) == Ok(strand)
    ensures SpanOf(line) == Ok(Span(start, end, strand))
  {
  }

  /**
   * utils.py reads a site line back: the row has the line's name, start,
   * size `end + 1 - start` and strand, and the affinity found under its
   * column name.
   */
  lemma ReadSiteLine(name: string, region: string, start: nat, end: nat, strand: nat,
                     bothDir: bool, rates: Option<RateLookup>, affinity: SiteLookup)
    requires ':' !in name && ':' !in region
    requires IsRepressor(rates, name).Ok?
    requires affinity(start, name + (if bothDir then StrandSuffix(strand) else "")).Ok?
    ensures ParseSiteLine(SiteLine(name, region, start, end, strand), bothDir, rates, affinity) ==
      Ok(SiteRow(IsRepressor(rates, name).value, name, name + (if bothDir then StrandSuffix(strand) else ""),
                 start, end + 1 - start, strand, affinity(start, name + (if bothDir then StrandSuffix(strand) else "")).value))
  {
    SiteLineSpan(name, region, start, end, strand);
    ReadSpan(SiteLine(name, region, start, end, strand), name, start, end, strand, bothDir, rates, affinity);
  }

  lemma ReadSpan(line: string, name: string, start: int, end: int, strand: int,
                 bothDir: bool, rates: Option<RateLookup>, affinity: SiteLookup)
    requires PySplit(line, ':')[0] == name && SpanOf(line) == Ok(Span(start, end, strand))
    requires IsRepressor(rates, name).Ok?
    requires affinity(start, name + (if bothDir then StrandSuffix(strand) else "")).Ok?
    ensures ParseSiteLine(line, bothDir, rates, affinity) ==
      Ok(SiteRow(IsRepressor(rates, name).value, name, name + (if bothDir then StrandSuffix(strand) else ""),
                 start, end + 1 - start, strand, affinity(start, name + (if bothDir then StrandSuffix(strand) else "")).value))
  {
    assert ParseSiteLine(line, bothDir, rates, affinity) == RowOfSpan(name, Ok(Span(start, end, strand)), bothDir, rates, affinity);
    RowOfSpanOk(name, start, end, strand, bothDir, rates, affinity);
  }

  /** The row of a read span, when the TF and its affinity are known. */
  lemma RowOfSpanOk(name: string, start: int, end: int, strand: int,
                    bothDir: bool, rates: Option<RateLookup>, affinity: SiteLookup)
    requires IsRepressor(rates, name).Ok?
    requires affinity(start, name + (if bothDir then StrandSuffix(strand) else "")).Ok?
    ensures RowOfSpan(name, Ok(Span(start, end, strand)), bothDir, rates, affinity) ==
      Ok(SiteRow(IsRepressor(rates, name).value, name, name + (if bothDir then StrandSuffix(strand) else ""),
                 start, end + 1 - start, strand, affinity(start, name + (if bothDir then StrandSuffix(strand) else "")).value))
  {
    assert name + "" == name;
  }

  /** dataproc/utils.py reads a site line back in the same way, always strand-qualified. */
  lemma ReadSiteLineDataproc(name: string, region: string, start: nat, end: nat, strand: nat,
                             rates: RateLookup, energy: SiteLookup)
    requires ':' !in name && ':' !in region
    requires rates(name).Ok? && energy(start, name + StrandSuffix(strand)).Ok?
    ensures ParseSiteLineDataproc(SiteLine(name, region, start, end, strand), rates, energy) ==
      Ok(SiteRow(rates(name).value > 0.0, name, name + StrandSuffix(strand),
                 start, end + 1 - start, strand, energy(start, name + StrandSuffix(strand)).value))
  {
    SiteLineSpan(name, region, start, end, strand);
    ReadSpanDataproc(SiteLine(name, region, start, end, strand), name, start, end, strand, rates, energy);
  }

  lemma ReadSpanDataproc(line: string, name: string, start: int, end: int, strand: int, rates: RateLookup, energy: SiteLookup)
    requires PySplit(line, ':')[0] == name && SpanOf(line) == Ok(Span(start, end, strand))
    requires rates(name).Ok? && energy(start, name + StrandSuffix(strand)).Ok?
    ensures ParseSiteLineDataproc(line, rates, energy) ==
      Ok(SiteRow(rates(name).value > 0.0, name, name + StrandSuffix(strand),
                 start, end + 1 - start, strand, energy(start, name + StrandSuffix(strand)).value))
  {
    assert IsRepressor(Some(rates), name) == Ok(rates(name).value > 0.0);
    assert ParseSiteLineDataproc(line, rates, energy) ==
      RowOfSpanDataproc(name, rates(name).value > 0.0, Ok(Span(start, end, strand)), energy);
    RowOfSpanDataprocOk(name, rates(name).value > 0.0, start, end, strand, energy);
  }

  /** The dataproc row of a read span, when the site's energy is known. */
  lemma RowOfSpanDataprocOk(name: string, repressor: bool, start: int, end: int, strand: int, energy: SiteLookup)
    requires energy(start, name + StrandSuffix(strand)).Ok?
    ensures RowOfSpanDataproc(name, repressor, Ok(Span(start, end, strand)), energy) ==
      Ok(SiteRow(repressor, name, name + StrandSuffix(strand), start, end + 1 - start, strand, energy(start, name + StrandSuffix(strand)).value))
  {
  }

  /**
   * The two versions raise different exceptions on a line with fewer than
   * three fields whose TF is unknown: utils.py parses the span first and
   * raises an IndexError, dataproc/utils.py looks up the TF first and
   * raises a KeyError.
   */
  lemma ErrorOrderDiffers(line: string, rates: RateLookup, lookup: SiteLookup, bothDir: bool)
    requires |PySplit(line, ':')| < 3 && rates(PySplit(line, ':')[0]) == Err(KeyError)
    ensures ParseSiteLine(line, bothDir, Some(rates), lookup) == Err(IndexError)
    ensures ParseSiteLineDataproc(line, rates, lookup) == Err(KeyError)
  {
  }

  /** With the landscape single-stranded, utils.py looks sites up under the bare TF name. */
  lemma SingleStrandUsesBareName(line: string, rates: Option<RateLookup>, affinity: SiteLookup)
    requires ParseSiteLine(line, false, rates, affinity).Ok?
    ensures ParseSiteLine(line, false, rates, affinity).value.nameStrand == PySplit(line, ':')[0]
  {
  }
}
