/**
 * Parameter files of the simulator as the post-processing scripts read and
 * write them: one `KEY = VALUE;` line per parameter (utils.py
 * `write_dict_to_params` and `read_params_to_dict`, dataproc/utils.py
 * `read_params_to_dict`). A file is its text; reading iterates over its
 * lines, which `PySplit(text, '\n')` yields up to the line terminators that
 * `strip` removes anyway.
 */
module PyParams {
  import opened Wrappers
  import opened Text

  /** The line `write_dict_to_params` writes for one entry, without its newline. */
  function ParamLine(key: string, value: string): string {
    key + " = " + value + ";"
  }

  /** The text of a parameter file holding the entries in dictionary order. */
  function ParamsText(entries: seq<(string, string)>): string {
    if |entries| == 0 then ""
    else ParamLine(entries[0].0, entries[0].1) + "\n" + ParamsText(entries[1..])
  }

  /** utils.py `write_dict_to_params`: one line per entry, in order. */
  method WriteDictToParams(entries: seq<(string, string)>) returns (text: string)
    ensures text == ParamsText(entries)
  {
    text := "";
    var i := 0;
    while i < |entries|
      invariant 0 <= i <= |entries|
      invariant text + ParamsText(entries[i..]) == ParamsText(entries)
    {
      ParamsTextStep(entries, i, text);
      text := text + ParamLine(entries[i].0, entries[i].1) + "\n";
      i := i + 1;
    }
    assert entries[i..] == [];
  }

  lemma ParamsTextStep(entries: seq<(string, string)>, i: nat, text: string)
    requires i < |entries|
    ensures text + ParamsText(entries[i..]) ==
      (text + ParamLine(entries[i].0, entries[i].1) + "\n") + ParamsText(entries[i + 1..])
  {
    assert entries[i..][1..] == entries[i + 1..];
  }

  /** The dictionary the entries describe, starting from acc; a later key overwrites an earlier one. */
  function ToDict(entries: seq<(string, string)>, acc: map<string, string>): map<string, string> {
    if |entries| == 0 then acc else ToDict(entries[1..], acc[entries[0].0 := entries[0].1])
  }

  // ---------------------------------------------------------------------------
  // utils.py `read_params_to_dict`

  /**
   * One line: blank and `#` lines are skipped; otherwise every ';' is
   * deleted, the text is split at '=', and the stripped first two pieces
   * become key and value. A line without '=' raises an IndexError.
   */
  function ParseParamRow(row: string): (r: Result<Option<(string, string)>, PyError>)
    ensures r == Ok(None) <==> Strip(row) == "" || StartsWith(Strip(row), "#")
    ensures r.Err? <==> Strip(row) != "" && !StartsWith(Strip(row), "#") && '=' !in RemoveChar(Strip(row), ';')
    ensures r.Err? ==> r.error == IndexError
    ensures r.Ok? && r.value.Some? ==> IsStripped(r.value.value.0) && IsStripped(r.value.value.1)
    ensures r.Ok? && r.value.Some? ==> '=' !in r.value.value.0
  {
    var row := Strip(row);
    if row == "" || StartsWith(row, "#") then Ok(None)
    else
      var l := PySplit(RemoveChar(row, ';'), '=');
      SplitCount(RemoveChar(row, ';'), '=');
      CountCharPositive(RemoveChar(row, ';'), '=');
      if |l| < 2 then Err(IndexError)
      else
        StripIsStripped(l[0]);
        StripIsStripped(l[1]);
        StripKeepsAbsent(l[0], '=');
        Ok(Some((Strip(l[0]), Strip(l[1]))))
  }

  lemma {:induction false} CountCharPositive(s: string, c: char)
    ensures CountChar(s, c) > 0 <==> c in s
  {
    if |s| > 0 {
      CountCharPositive(s[1..], c);
      assert s == [s[0]] + s[1..];
    }
  }

  lemma StripIsStripped(s: string)
    ensures IsStripped(Strip(s))
  {
  }

  lemma StripKeepsAbsent(s: string, c: char)
    requires c !in s
    ensures c !in Strip(s)
  {
    var l := LStrip(s);
    assert forall i :: 0 <= i < |l| ==> l[i] == s[|s| - |l| + i];
    var r := RStrip(l);
    assert forall i :: 0 <= i < |r| ==> r[i] == l[i];
  }

  /** The parse of one line of a parameter file: skipped, a key and a value, or an exception. */
  type RowParser = string -> Result<Option<(string, string)>, PyError>

  /**
   * The dictionary after reading the rows with the line parser `parse`,
   * starting from acc: a later key overwrites an earlier one, and the first
   * exception ends the reading.
   */
  function ReadRows(rows: seq<string>, parse: RowParser, acc: map<string, string>): Result<map<string, string>, PyError> {
    if |rows| == 0 then Ok(acc)
    else
      var p := parse(rows[0]);
      if p.Err? then Err(p.error)
      else if p.value.None? then ReadRows(rows[1..], parse, acc)
      else ReadRows(rows[1..], parse, acc[p.value.value.0 := p.value.value.1])
  }

  /**
   * The loop both `read_params_to_dict` functions share, over the text of a
   * parameter file: utils.py parses each line as `ParseParamRow`,
   * dataproc/utils.py as `ParseParamRowDataproc`.
   */
  method ReadParamsToDict(text: string, parse: RowParser) returns (r: Result<map<string, string>, PyError>)
    ensures r == ReadRows(PySplit(text, '\n'), parse, map[])
  {
    var rows := PySplit(text, '\n');
    var d: map<string, string> := map[];
    var i := 0;
    while i < |rows|
      invariant 0 <= i <= |rows|
      invariant ReadRows(rows, parse, map[]) == ReadRows(rows[i..], parse, d)
    {
      assert rows[i..][1..] == rows[i + 1..];
      var p := parse(rows[i]);
      if p.Err? {
        return Err(p.error);
      }
      if p.value.Some? {
        d := d[p.value.value.0 := p.value.value.1];
      }
      i := i + 1;
    }
    assert rows[i..] == [];
    return Ok(d);
  }

  /** When a key appears in the file, the dictionary holds the value of its last line. */
  lemma {:induction false} ReadRowsLastWins(rows: seq<string>, parse: RowParser, acc: map<string, string>, i: nat, key: string, value: string)
    requires i < |rows| && ReadRows(rows, parse, acc).Ok?
    requires parse(rows[i]) == Ok(Some((key, value)))
    requires forall j :: i < j < |rows| ==> !(parse(rows[j]).Ok? && parse(rows[j]).value.Some? && parse(rows[j]).value.value.0 == key)
    ensures key in ReadRows(rows, parse, acc).value && ReadRows(rows, parse, acc).value[key] == value
  {
    var p := parse(rows[0]);
    if i == 0 {
      ReadRowsKeepsKey(rows[1..], parse, acc[key := value], key, value);
    } else {
      var acc' := if p.value.None? then acc else acc[p.value.value.0 := p.value.value.1];
      ReadRowsLastWins(rows[1..], parse, acc', i - 1, key, value);
    }
  }

  lemma {:induction false} ReadRowsKeepsKey(rows: seq<string>, parse: RowParser, acc: map<string, string>, key: string, value: string)
    requires ReadRows(rows, parse, acc).Ok? && key in acc && acc[key] == value
    requires forall j :: 0 <= j < |rows| ==> !(parse(rows[j]).Ok? && parse(rows[j]).value.Some? && parse(rows[j]).value.value.0 == key)
    ensures key in ReadRows(rows, parse, acc).value && ReadRows(rows, parse, acc).value[key] == value
  {
    if |rows| > 0 {
      var p := parse(rows[0]);
      var acc' := if p.value.None? then acc else acc[p.value.value.0 := p.value.value.1];
      ReadRowsKeepsKey(rows[1..], parse, acc', key, value);
    }
  }

  /** The entries that `read_params_to_dict` gives back unchanged. */
  predicate RoundTrips(key: string, value: string) {
    |key| > 0 && key[0] != '#' && IsStripped(key) && IsStripped(value)
    && ';' !in key && '=' !in key && '\n' !in key
    && ';' !in value && '=' !in value && '\n' !in value
  }

  /** ParseParamRow of a non-skipped line with at least two '='-fields. */
  lemma ParseRowFields(row: string, l: seq<string>)
    requires Strip(row) != "" && !StartsWith(Strip(row), "#")
    requires PySplit(RemoveChar(Strip(row), ';'), '=') == l && |l| >= 2
    ensures ParseParamRow(row) == Ok(Some((Strip(l[0]), Strip(l[1]))))
  {
  }

  /** A key that `key = ...` lines carry through the reader unchanged. */
  predicate PlainKey(key: string) {
    |key| > 0 && key[0] != '#' && IsStripped(key) && ';' !in key && '=' !in key
  }

  /** An assignment line `key = rest;` is stripped and is not a comment. */
  lemma AssignmentLineKept(key: string, rest: string)
    requires |key| > 0 && key[0] != '#' && !IsPyWs(key[0])
    ensures Strip(key + " = " + rest + ";") == key + " = " + rest + ";"
    ensures !StartsWith(key + " = " + rest + ";", "#")
  {
    var line := key + " = " + rest + ";";
    assert line[0] == key[0] && line[|line| - 1] == ';';
    StripStripped(line);
    assert line[..1] == [key[0]];
  }

  /** Deleting ';' from an assignment line leaves the key, '=' and the rest without ';'. */
  lemma AssignmentLineBody(key: string, rest: string)
    requires ';' !in key
    ensures RemoveChar(key + " = " + rest + ";", ';') == (key + " ") + ['='] + (" " + RemoveChar(rest, ';'))
  {
    RemoveCharAppend(key + " = " + rest, ";", ';');
    RemoveCharAppend(key + " = ", rest, ';');
    RemoveCharAppend(key, " = ", ';');
    RemoveCharAbsent(key, ';');
    RemoveCharAbsent(" = ", ';');
    assert RemoveChar(";", ';') == "";
    AssignmentShape(key, RemoveChar(rest, ';'));
  }

  lemma AssignmentShape(key: string, r: string)
    ensures key + " = " + r + "" == (key + " ") + ['='] + (" " + r)
  {
  }

  lemma StripKeySpace(key: string)
    requires IsStripped(key)
    ensures Strip(key + " ") == key
  {
    StripPadded("", key, " ");
    assert "" + key + " " == key + " ";
  }

  lemma StripSpaceValue(value: string)
    requires IsStripped(value)
    ensures Strip(" " + value) == value
  {
    StripPadded(" ", value, "");
    assert " " + value + "" == " " + value;
  }

  /** The '='-fields of a written line. */
  lemma WrittenLineFields(key: string, value: string)
    requires RoundTrips(key, value)
    ensures Strip(ParamLine(key, value)) != "" && !StartsWith(Strip(ParamLine(key, value)), "#")
    ensures PySplit(RemoveChar(Strip(ParamLine(key, value)), ';'), '=') == [key + " ", " " + value]
  {
    AssignmentLineKept(key, value);
    AssignmentLineBody(key, value);
    RemoveCharAbsent(value, ';');
    SplitAfterKey(key, value);
  }

  lemma SplitAfterKey(key: string, value: string)
    requires '=' !in key && '=' !in value
    ensures PySplit((key + " ") + ['='] + (" " + value), '=') == [key + " ", " " + value]
  {
    NotInConcat(key, " ", '=');
    NotInConcat(" ", value, '=');
    SplitPrefix(key + " ", " " + value, '=');
    SplitNoSep(" " + value, '=');
  }

  lemma NotInConcat(a: string, b: string, c: char)
    requires c !in a && c !in b
    ensures c !in a + b
  {
  }

  lemma ParseWrittenLine(key: string, value: string)
    requires RoundTrips(key, value)
    ensures ParseParamRow(ParamLine(key, value)) == Ok(Some((key, value)))
  {
    WrittenLineFields(key, value);
    StripKeySpace(key);
    StripSpaceValue(value);
    ParseRowFields(ParamLine(key, value), [key + " ", " " + value]);
  }

  /**
   * Reading back what `write_dict_to_params` wrote gives the dictionary back,
   * for entries whose keys and values round-trip.
   */
  lemma {:induction false} ReadWrittenParams(entries: seq<(string, string)>, acc: map<string, string>)
    requires forall i :: 0 <= i < |entries| ==> RoundTrips(entries[i].0, entries[i].1)
    ensures ReadRows(PySplit(ParamsText(entries), '\n'), ParseParamRow, acc) == Ok(ToDict(entries, acc))
  {
    if |entries| == 0 {
      assert PySplit("", '\n') == [""];
    } else {
      var line := ParamLine(entries[0].0, entries[0].1);
      assert '\n' !in line;
      SplitPrefix(line, ParamsText(entries[1..]), '\n');
      ParseWrittenLine(entries[0].0, entries[0].1);
      ReadWrittenParams(entries[1..], acc[entries[0].0 := entries[0].1]);
      var rows := PySplit(ParamsText(entries), '\n');
      assert rows[1..] == PySplit(ParamsText(entries[1..]), '\n');
    }
  }

  /**
   * A second '=' truncates the value: everything from it on is lost, and
   * every ';' of the line is deleted.
   */
  lemma SecondEqualsTruncates(key: string, a: string, b: string)
    requires PlainKey(key) && IsStripped(a) && ';' !in a && '=' !in a
    ensures ParseParamRow(key + " = " + (a + "=" + b) + ";") == Ok(Some((key, a)))
  {
    var line := key + " = " + (a + "=" + b) + ";";
    TruncatedLineFields(key, a, b);
    StripKeySpace(key);
    StripSpaceValue(a);
    ParseRowFields(line, [key + " ", " " + a] + PySplit(RemoveChar(b, ';'), '='));
  }

  lemma TruncatedLineFields(key: string, a: string, b: string)
    requires PlainKey(key) && ';' !in a && '=' !in a
    ensures Strip(key + " = " + (a + "=" + b) + ";") != ""
    ensures !StartsWith(Strip(key + " = " + (a + "=" + b) + ";"), "#")
    ensures PySplit(RemoveChar(Strip(key + " = " + (a + "=" + b) + ";"), ';'), '=') ==
      [key + " ", " " + a] + PySplit(RemoveChar(b, ';'), '=')
  {
    AssignmentLineKept(key, a + "=" + b);
    AssignmentLineBody(key, a + "=" + b);
    TruncatedRest(a, b);
    TruncatedSplit(key, a, RemoveChar(b, ';'));
  }

  lemma TruncatedRest(a: string, b: string)
    requires ';' !in a
    ensures " " + RemoveChar(a + "=" + b, ';') == (" " + a) + ['='] + RemoveChar(b, ';')
  {
    RemoveCharAppend(a + "=", b, ';');
    RemoveCharAppend(a, "=", ';');
    RemoveCharAbsent(a, ';');
    assert RemoveChar("=", ';') == "=";
  }

  lemma TruncatedSplit(key: string, a: string, rb: string)
    requires '=' !in key && '=' !in a
    ensures PySplit((key + " ") + ['='] + ((" " + a) + ['='] + rb), '=') == [key + " ", " " + a] + PySplit(rb, '=')
  {
    NotInConcat(key, " ", '=');
    NotInConcat(" ", a, '=');
    SplitPrefix(key + " ", (" " + a) + ['='] + rb, '=');
    SplitPrefix(" " + a, rb, '=');
  }

  // ---------------------------------------------------------------------------
  // dataproc/utils.py `read_params_to_dict`

  /**
   * One line for the dataproc reader: blank and `#` lines are skipped;
   * otherwise ';' is deleted, the line is split on whitespace, and token 0
   * maps to token 2 with every '"' removed. Fewer than three tokens raise an
   * IndexError.
   */
  function ParseParamRowDataproc(row: string): (r: Result<Option<(string, string)>, PyError>)
    ensures r == Ok(None) <==> Strip(row) == "" || StartsWith(Strip(row), "#")
    ensures r.Err? <==> Strip(row) != "" && !StartsWith(Strip(row), "#") && |PySplitWs(RemoveChar(Strip(row), ';'))| < 3
    ensures r.Err? ==> r.error == IndexError
    ensures r.Ok? && r.value.Some? ==> '"' !in r.value.value.1
  {
    var row := Strip(row);
    if row == "" || StartsWith(row, "#") then Ok(None)
    else
      var l := PySplitWs(RemoveChar(row, ';'));
      if |l| < 3 then Err(IndexError)
      else
        RemoveCharRemoves(l[2], '"');
        Ok(Some((l[0], RemoveChar(l[2], '"'))))
  }

  predicate NoWs(s: string) {
    forall i :: 0 <= i < |s| ==> !IsPyWs(s[i])
  }

  lemma {:induction false} RemoveCharNoWs(s: string, c: char)
    requires NoWs(s)
    ensures NoWs(RemoveChar(s, c))
  {
    if |s| > 0 {
      RemoveCharNoWs(s[1..], c);
    }
  }

  lemma NoWsSplitsOnce(s: string)
    requires NoWs(s)
    ensures |PySplitWs(s)| <= 1
  {
    if |s| > 0 {
      SplitWsWord(s, "");
      assert s + "" == s;
    }
  }

  /**
   * The dataproc reader needs whitespace around '=': a line without any
   * whitespace, such as `K=V;`, raises an IndexError.
   */
  lemma DataprocNeedsSpaces(row: string)
    requires |row| > 0 && row[0] != '#' && NoWs(row)
    ensures ParseParamRowDataproc(row) == Err(IndexError)
  {
    StripStripped(row);
    assert row[..1] == [row[0]];
    RemoveCharNoWs(row, ';');
    NoWsSplitsOnce(RemoveChar(row, ';'));
  }

  /** A line carries a word key and a word value through the dataproc reader. */
  predicate WordEntry(key: string, value: string) {
    |key| > 0 && |value| > 0 && NoWs(key) && NoWs(value) && key[0] != '#' && ';' !in key && ';' !in value
  }

  lemma WrittenLineWords(key: string, value: string)
    requires WordEntry(key, value)
    ensures Strip(ParamLine(key, value)) != "" && !StartsWith(Strip(ParamLine(key, value)), "#")
    ensures PySplitWs(RemoveChar(Strip(ParamLine(key, value)), ';')) == [key, "=", value]
  {
    AssignmentLineKept(key, value);
    AssignmentLineBody(key, value);
    RemoveCharAbsent(value, ';');
    WordsShape(key, value);
    ThreeWords(key, value);
  }

  lemma WordsShape(key: string, value: string)
    ensures (key + " ") + ['='] + (" " + value) == key + ([' '] + ("=" + ([' '] + value)))
  {
  }

  /** `key = value` splits on whitespace into the key, "=" and the value. */
  lemma ThreeWords(key: string, value: string)
    requires |key| > 0 && |value| > 0 && NoWs(key) && NoWs(value)
    ensures PySplitWs(key + ([' '] + ("=" + ([' '] + value)))) == [key, "=", value]
  {
    var t2 := "=" + ([' '] + value);
    ValueWord(value);
    SplitWsWord("=", [' '] + value);
    SplitWsSpace(' ', t2);
    SplitWsWord(key, [' '] + t2);
  }

  lemma ValueWord(value: string)
    requires |value| > 0 && NoWs(value)
    ensures PySplitWs([' '] + value) == [value]
  {
    SplitWsSpace(' ', value);
    SplitWsWord(value, "");
    assert value + "" == value;
  }

  /** The entries the dataproc reader gives back: the values lose every '"'. */
  function Unquoted(entries: seq<(string, string)>): (r: seq<(string, string)>)
    ensures |r| == |entries|
    ensures forall i :: 0 <= i < |r| ==> r[i].0 == entries[i].0 && '"' !in r[i].1
  {
    if |entries| == 0 then []
    else
      RemoveCharRemoves(entries[0].1, '"');
      [(entries[0].0, RemoveChar(entries[0].1, '"'))] + Unquoted(entries[1..])
  }

  /** A written line reads back, for keys and values that are single words without ';'. */
  lemma ParseWrittenLineDataproc(key: string, value: string)
    requires WordEntry(key, value)
    ensures ParseParamRowDataproc(ParamLine(key, value)) == Ok(Some((key, RemoveChar(value, '"'))))
  {
    WrittenLineWords(key, value);
  }

  /** The first line of a parameter file is the line of its first entry. */
  lemma FirstLine(entries: seq<(string, string)>)
    requires |entries| > 0 && '\n' !in ParamLine(entries[0].0, entries[0].1)
    ensures PySplit(ParamsText(entries), '\n') ==
      [ParamLine(entries[0].0, entries[0].1)] + PySplit(ParamsText(entries[1..]), '\n')
  {
    SplitPrefix(ParamLine(entries[0].0, entries[0].1), ParamsText(entries[1..]), '\n');
  }

  lemma WordLineHasNoNewline(key: string, value: string)
    requires WordEntry(key, value)
    ensures '\n' !in ParamLine(key, value)
  {
    assert IsPyWs('\n');
    assert '\n' !in key && '\n' !in value;
  }

  /**
   * Reading back a written file with the dataproc reader gives the
   * dictionary back, with '"' removed from the values.
   */
  lemma {:induction false} ReadWrittenParamsDataproc(entries: seq<(string, string)>, acc: map<string, string>)
    requires forall i :: 0 <= i < |entries| ==> WordEntry(entries[i].0, entries[i].1)
    ensures ReadRows(PySplit(ParamsText(entries), '\n'), ParseParamRowDataproc, acc) == Ok(ToDict(Unquoted(entries), acc))
  {
    if |entries| == 0 {
      assert PySplit("", '\n') == [""];
    } else {
      WordLineHasNoNewline(entries[0].0, entries[0].1);
      FirstLine(entries);
      ParseWrittenLineDataproc(entries[0].0, entries[0].1);
      ReadWrittenParamsDataproc(entries[1..], acc[entries[0].0 := RemoveChar(entries[0].1, '"')]);
      var rows := PySplit(ParamsText(entries), '\n');
      assert rows[1..] == PySplit(ParamsText(entries[1..]), '\n');
    }
  }
}
