/**
 * The reader of the simulator's parameter files
 * (`InputParameters.getParamArray`): lines of the form `KEY = VALUE;`,
 * with blank lines, comment lines and lines without the line ending
 * skipped, and the reading cut short by an exception of the splitter.
 */
module ParamFile {
  import opened Wrappers
  import opened Text
  import opened JUtils

  /**
   * The comment prefix, the line ending and the assignment character of
   * parameter files (`Constants.PARAMS_FILE_*`, which are not part of this
   * model and so are parameters).
   */
  datatype Syntax = Syntax(comment: string, lineEnding: string, assign: char)

  /** What one line of a parameter file contributes. */
  datatype LineOutcome =
    | Skip                            // blank, comment, no line ending, or no non-empty name
    | Abort                           // the splitter threw: nothing more is read
    | Pair(name: string, value: string)

  /** A trimmed line that `getParamArray` hands to the parameter splitter. */
  predicate Kept(t: string, syn: Syntax) {
    t != "" && !StartsWith(t, syn.comment) && EndsWith(t, syn.lineEnding)
  }

  /** The outcome of one line: trimmed, filtered, split. */
  function Outcome(line: string, syn: Syntax): (o: LineOutcome)
    ensures o.Pair? ==> o.name != ""
  {
    var t := Trim(line);
    if !Kept(t, syn) then Skip
    else match ExtractParameter(t, syn.assign)
      case Err(_) => Abort
      case Ok(p) => if p.0 != "" then Pair(p.0, p.1) else Skip
  }

  /** The pairs collected from a series of outcomes, up to the first abort. */
  function Collect(outs: seq<LineOutcome>): seq<(string, string)>
  {
    if |outs| == 0 then []
    else match outs[0]
      case Skip => Collect(outs[1..])
      case Abort => []
      case Pair(n, v) => [(n, v)] + Collect(outs[1..])
  }

  /** The pairs of every outcome, as if nothing aborted. */
  function AllPairs(outs: seq<LineOutcome>): seq<(string, string)>
  {
    if |outs| == 0 then []
    else match outs[0]
      case Pair(n, v) => [(n, v)] + AllPairs(outs[1..])
      case _ => AllPairs(outs[1..])
  }

  /** The outcome of each line. */
  function Outcomes(lines: seq<string>, syn: Syntax): (outs: seq<LineOutcome>)
    ensures |outs| == |lines|
  {
    if |lines| == 0 then [] else [Outcome(lines[0], syn)] + Outcomes(lines[1..], syn)
  }

  lemma {:induction false} OutcomesAt(lines: seq<string>, syn: Syntax, i: nat)
    requires i < |lines|
    ensures Outcomes(lines, syn)[i] == Outcome(lines[i], syn)
  {
    if i > 0 {
      OutcomesAt(lines[1..], syn, i - 1);
    }
  }

  /** The (name, value) pairs `getParamArray` returns for the lines of a file. */
  function ParamArray(lines: seq<string>, syn: Syntax): seq<(string, string)>
  {
    Collect(Outcomes(lines, syn))
  }

  /** The pair an outcome adds, if any. */
  function Own(o: LineOutcome): seq<(string, string)>
  {
    if o.Pair? then [(o.name, o.value)] else []
  }

  lemma {:induction false} AllPairsSnoc(outs: seq<LineOutcome>, k: nat)
    requires k < |outs|
    ensures AllPairs(outs[..k + 1]) == AllPairs(outs[..k]) + Own(outs[k])
  {
    if k == 0 {
      assert outs[..1][1..] == [];
      assert outs[..0] == [];
    } else {
      AllPairsSnoc(outs[1..], k - 1);
      assert outs[..k + 1][1..] == outs[1..][..k];
      assert outs[..k][1..] == outs[1..][..k - 1];
    }
  }

  /** The body of `getParamArray`'s loop for line i: trim, filter, split. */
  method ReadLine(lines: seq<string>, i: nat, syn: Syntax) returns (o: LineOutcome)
    requires i < |lines|
    ensures o == Outcomes(lines, syn)[i]
  {
    var text := Trim(lines[i]);
    o := Skip;
    if Kept(text, syn) {
      var buffer := ExtractParameter(text, syn.assign);
      if buffer.Err? {
        o := Abort;
      } else if buffer.value.0 != "" {
        o := Pair(buffer.value.0, buffer.value.1);
      }
    }
    OutcomesAt(lines, syn, i);
  }

  /** No line among the outcomes aborted the reading. */
  predicate NoAbort(outs: seq<LineOutcome>)
  {
    |outs| == 0 || (NoAbort(outs[..|outs| - 1]) && outs[|outs| - 1] != Abort)
  }

  lemma {:induction false} NoAbortAt(outs: seq<LineOutcome>)
    requires NoAbort(outs)
    ensures forall j :: 0 <= j < |outs| ==> outs[j] != Abort
  {
    if |outs| > 0 {
      NoAbortAt(outs[..|outs| - 1]);
    }
  }

  /** One more line that does not abort: its pair, if any, is appended. */
  lemma Advance(outs: seq<LineOutcome>, i: nat, result: seq<(string, string)>)
    requires i < |outs| && outs[i] != Abort
    requires NoAbort(outs[..i]) && result == AllPairs(outs[..i])
    ensures NoAbort(outs[..i + 1]) && result + Own(outs[i]) == AllPairs(outs[..i + 1])
  {
    AllPairsSnoc(outs, i);
    assert outs[..i + 1][..i] == outs[..i];
  }

  /** The pairs gathered when the loop ends, by an abort at line i or at the end of the file, are `Collect`'s. */
  lemma CollectDone(outs: seq<LineOutcome>, i: nat, stopped: bool, result: seq<(string, string)>)
    requires i <= |outs|
    requires stopped ==> i < |outs| && outs[i] == Abort
    requires !stopped ==> i == |outs|
    requires NoAbort(outs[..i]) && result == AllPairs(outs[..i])
    ensures result == Collect(outs)
  {
    NoAbortAt(outs[..i]);
    if stopped {
      CollectStopsAtAbort(outs, i);
    } else {
      assert outs[..i] == outs;
      CollectWithoutAbort(outs);
    }
  }

  /** `getParamArray(reader, comment, lineEnding, assignment)` over the lines the reader yields. */
  method GetParamArray(lines: seq<string>, syn: Syntax) returns (result: seq<(string, string)>)
    ensures result == ParamArray(lines, syn)
  {
    ghost var outs := Outcomes(lines, syn);
    result := [];
    var i := 0;
    while i < |lines|
      invariant 0 <= i <= |lines|
      invariant NoAbort(outs[..i])
      invariant result == AllPairs(outs[..i])
    {
      var o := ReadLine(lines, i, syn);
      if o.Abort? {
        CollectDone(outs, i, true, result);
        return;
      }
      Advance(outs, i, result);
      if o.Pair? {
        result := result + [(o.name, o.value)];
      } else {
        assert result + Own(o) == result;
      }
      i := i + 1;
    }
    CollectDone(outs, i, false, result);
  }

  /** Every collected pair has a non-empty name. */
  lemma {:induction false} CollectNamed(outs: seq<LineOutcome>)
    requires forall i :: 0 <= i < |outs| && outs[i].Pair? ==> outs[i].name != ""
    ensures forall j :: 0 <= j < |Collect(outs)| ==> Collect(outs)[j].0 != ""
  {
    if |outs| > 0 && outs[0] != Abort {
      CollectNamed(outs[1..]);
    }
  }

  /** `getParamArray` only returns pairs with a non-empty name. */
  lemma ParamArrayNamed(lines: seq<string>, syn: Syntax)
    ensures forall j :: 0 <= j < |ParamArray(lines, syn)| ==> ParamArray(lines, syn)[j].0 != ""
  {
    var outs := Outcomes(lines, syn);
    forall i | 0 <= i < |outs| && outs[i].Pair?
      ensures outs[i].name != ""
    {
      OutcomesAt(lines, syn, i);
    }
    CollectNamed(outs);
  }

  /** Without an abort, every pair is collected, in order. */
  lemma {:induction false} CollectWithoutAbort(outs: seq<LineOutcome>)
    requires forall i :: 0 <= i < |outs| ==> outs[i] != Abort
    ensures Collect(outs) == AllPairs(outs)
  {
    if |outs| > 0 {
      CollectWithoutAbort(outs[1..]);
    }
  }

  /** An abort keeps the pairs of the lines before it and drops all the rest. */
  lemma {:induction false} CollectStopsAtAbort(outs: seq<LineOutcome>, k: nat)
    requires k < |outs| && outs[k] == Abort
    requires forall i :: 0 <= i < k ==> outs[i] != Abort
    ensures Collect(outs) == AllPairs(outs[..k])
  {
    if k == 0 {
      assert outs[..k] == [];
    } else {
      CollectStopsAtAbort(outs[1..], k - 1);
      assert outs[1..][..k - 1] == outs[..k][1..];
    }
  }

  /** A kept line ends with the line ending, so the splitter throws only for the assignment character there. */
  lemma KeptNoError(t: string, syn: Syntax)
    requires Kept(t, syn) && JavaTrimmed(t) && |syn.lineEnding| > 0
    requires syn.lineEnding[|syn.lineEnding| - 1] != syn.assign
    ensures ExtractParameter(t, syn.assign).Ok?
  {
    assert t[|t| - 1] == syn.lineEnding[|syn.lineEnding| - 1];
    TrimOfTrimmed(t);
    ExtractTrimmedOk(t, syn.assign);
  }

  lemma OutcomeNotAbort(line: string, syn: Syntax)
    requires |syn.lineEnding| > 0 && syn.lineEnding[|syn.lineEnding| - 1] != syn.assign
    ensures Outcome(line, syn) != Abort
  {
    var t := Trim(line);
    assert JavaTrimmed(t);
    if Kept(t, syn) {
      KeptNoError(t, syn);
      assert ExtractParameter(t, syn.assign).Ok?;
    }
  }

  /**
   * With a non-empty line ending whose last character is not the
   * assignment character, no line aborts the reading: the pairs returned
   * are those of every kept line with a non-empty name, in file order.
   */
  lemma ParamArrayFilters(lines: seq<string>, syn: Syntax)
    requires |syn.lineEnding| > 0 && syn.lineEnding[|syn.lineEnding| - 1] != syn.assign
    ensures ParamArray(lines, syn) == AllPairs(Outcomes(lines, syn))
  {
    var outs := Outcomes(lines, syn);
    forall i | 0 <= i < |outs|
      ensures outs[i] != Abort
    {
      OutcomesAt(lines, syn, i);
      OutcomeNotAbort(lines[i], syn);
    }
    CollectWithoutAbort(outs);
  }

  /**
   * A line whose splitter throws ends the reading: the pairs returned are
   * those of the lines before it.
   */
  lemma ParamArrayAborts(lines: seq<string>, syn: Syntax, k: nat)
    requires k < |lines| && Outcome(lines[k], syn) == Abort
    requires forall i :: 0 <= i < k ==> Outcome(lines[i], syn) != Abort
    ensures ParamArray(lines, syn) == AllPairs(Outcomes(lines[..k], syn))
  {
    var outs := Outcomes(lines, syn);
    forall i | 0 <= i <= k
      ensures outs[i] == Outcome(lines[i], syn)
    {
      OutcomesAt(lines, syn, i);
    }
    CollectStopsAtAbort(outs, k);
    OutcomesPrefix(lines, syn, k);
  }

  lemma OutcomesPrefix(lines: seq<string>, syn: Syntax, k: nat)
    requires k <= |lines|
    ensures Outcomes(lines[..k], syn) == Outcomes(lines, syn)[..k]
  {
    var prefix := Outcomes(lines[..k], syn);
    var whole := Outcomes(lines, syn);
    forall i | 0 <= i < k
      ensures prefix[i] == whole[i]
    {
      OutcomesAt(lines[..k], syn, i);
      OutcomesAt(lines, syn, i);
    }
  }
}
