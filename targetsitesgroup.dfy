/**
 * A group of target sites (src/objects/TargetSitesGroup.java): the sites
 * that must be occupied together, the logic expression over their ids, and
 * the reaching and occupancy statistics. The expression is turned into
 * reverse Polish notation by a shunting loop; the tree built from that
 * output (`RPNtree`) is not part of this model, so the group keeps the
 * trimmed output text instead.
 */
module TargetSitesGroups {
  import opened Wrappers
  import opened Text

  // ------------------------------------------------------------ generateRPN

  /** The shunting loop's state: the operator stack (top last) and the output buffer. */
  datatype Shunt = Shunt(stack: seq<char>, out: string)

  /** The characters the loop treats as operators or brackets; every other character is copied. */
  predicate IsOperatorChar(c: char) {
    c == '!' || c == '+' || c == '*' || c == '(' || c == ')' || c == ' '
  }

  /** Pops while the top is `*` or `/`, writing " c" for each. */
  function PopProducts(st: Shunt): (r: Shunt)
    ensures |r.stack| <= |st.stack|
    decreases |st.stack|
  {
    if |st.stack| > 0 && (st.stack[|st.stack| - 1] == '*' || st.stack[|st.stack| - 1] == '/') then
      PopProducts(Shunt(st.stack[..|st.stack| - 1], st.out + [' ', st.stack[|st.stack| - 1]]))
    else st
  }

  /** Pops while the top is not `(`, writing " c" for each. */
  function PopToParen(st: Shunt): (r: Shunt)
    ensures |r.stack| <= |st.stack|
    decreases |st.stack|
  {
    if |st.stack| > 0 && st.stack[|st.stack| - 1] != '(' then
      PopToParen(Shunt(st.stack[..|st.stack| - 1], st.out + [' ', st.stack[|st.stack| - 1]]))
    else st
  }

  /** Pops everything left, writing " c" for each. */
  function PopAll(st: Shunt): (r: Shunt)
    decreases |st.stack|
  {
    if |st.stack| > 0 then PopAll(Shunt(st.stack[..|st.stack| - 1], st.out + [' ', st.stack[|st.stack| - 1]]))
    else st
  }

  /**
   * One character of the switch, with its fall-through: `!` and `+` pop
   * the pending products, then write a space and push themselves, as `*`
   * does; `(` is pushed; a space does nothing; `)` pops down to its `(`
   * and drops it; anything else is copied.
   */
  function ShuntStep(st: Shunt, c: char): Shunt
  {
    if c == '!' || c == '+' then
      var p := PopProducts(st);
      Shunt(p.stack + [c], p.out + " ")
    else if c == '*' then Shunt(st.stack + [c], st.out + " ")
    else if c == '(' then Shunt(st.stack + [c], st.out)
    else if c == ' ' then st
    else if c == ')' then
      var p := PopToParen(st);
      if |p.stack| > 0 then Shunt(p.stack[..|p.stack| - 1], p.out) else p
    else Shunt(st.stack, st.out + [c])
  }

  /** The state after the first n characters. */
  function ShuntPrefix(s: string, n: nat): Shunt
    requires n <= |s|
  {
    if n == 0 then Shunt([], "") else ShuntStep(ShuntPrefix(s, n - 1), s[n - 1])
  }

  /** The output buffer once the whole expression is read and the stack emptied. */
  function RpnOutput(s: string): string {
    PopAll(ShuntPrefix(s, |s|)).out
  }

  /** The characters of s that are copied by the default branch, in order. */
  function Operands(s: string): (r: string)
    ensures |r| <= |s|
  {
    if |s| == 0 then ""
    else Operands(s[..|s| - 1]) + (if IsOperatorChar(s[|s| - 1]) then "" else [s[|s| - 1]])
  }

  lemma {:induction false} OperandsAppend(a: string, b: string)
    ensures Operands(a + b) == Operands(a) + Operands(b)
    decreases |b|
  {
    if |b| == 0 {
      assert a + b == a;
    } else {
      assert (a + b)[..|a + b| - 1] == a + b[..|b| - 1];
      OperandsAppend(a, b[..|b| - 1]);
    }
  }

  /** Only `!`, `+`, `*` and `(` are ever pushed. */
  predicate StackOfOperators(stack: seq<char>) {
    forall i :: 0 <= i < |stack| ==> stack[i] in "!+*("
  }

  /** Writing " c" for an operator c adds no operand. */
  lemma PopWrite(out: string, top: char)
    requires top in "!+*("
    ensures Operands(out + [' ', top]) == Operands(out)
    ensures ')' !in out ==> ')' !in out + [' ', top]
  {
    OperandsAppend(out, [' ', top]);
    assert [' ', top][..1] == [' '];
  }

  /** The pops write nothing but spaces and operators, and keep the stack made of operators. */
  lemma {:induction false} PopProductsKeeps(st: Shunt)
    requires StackOfOperators(st.stack)
    ensures Operands(PopProducts(st).out) == Operands(st.out) && StackOfOperators(PopProducts(st).stack)
    ensures ')' !in st.out ==> ')' !in PopProducts(st).out
    decreases |st.stack|
  {
    if |st.stack| > 0 {
      var top := st.stack[|st.stack| - 1];
      PopWrite(st.out, top);
      PopProductsKeeps(Shunt(st.stack[..|st.stack| - 1], st.out + [' ', top]));
    }
  }

  lemma {:induction false} PopToParenKeeps(st: Shunt)
    requires StackOfOperators(st.stack)
    ensures Operands(PopToParen(st).out) == Operands(st.out) && StackOfOperators(PopToParen(st).stack)
    ensures ')' !in st.out ==> ')' !in PopToParen(st).out
    decreases |st.stack|
  {
    if |st.stack| > 0 {
      var top := st.stack[|st.stack| - 1];
      PopWrite(st.out, top);
      PopToParenKeeps(Shunt(st.stack[..|st.stack| - 1], st.out + [' ', top]));
    }
  }

  lemma {:induction false} PopAllKeeps(st: Shunt)
    requires StackOfOperators(st.stack)
    ensures Operands(PopAll(st).out) == Operands(st.out)
    ensures ')' !in st.out ==> ')' !in PopAll(st).out
    decreases |st.stack|
  {
    if |st.stack| > 0 {
      var top := st.stack[|st.stack| - 1];
      PopWrite(st.out, top);
      PopAllKeeps(Shunt(st.stack[..|st.stack| - 1], st.out + [' ', top]));
    }
  }

  /** One character: the output gains that character's operands only, and the stack stays made of operators. */
  lemma StepKeepsOperands(st: Shunt, c: char)
    requires StackOfOperators(st.stack) && ')' !in st.out
    ensures var r := ShuntStep(st, c);
      Operands(r.out) == Operands(st.out) + Operands([c]) && StackOfOperators(r.stack) && ')' !in r.out
  {
    assert Operands([c]) == (if IsOperatorChar(c) then "" else [c]) by {
      assert [c][..0] == [];
    }
    if c == '!' || c == '+' {
      var p := PopProducts(st);
      PopProductsKeeps(st);
      OperandsAppend(p.out, " ");
      PushKeeps(p.stack, c);
      assert ')' !in p.out + " ";
    } else if c == '*' {
      OperandsAppend(st.out, " ");
      PushKeeps(st.stack, c);
      assert ')' !in st.out + " ";
    } else if c == '(' {
      PushKeeps(st.stack, c);
    } else if c == ')' {
      PopToParenKeeps(st);
      var p := PopToParen(st);
      if |p.stack| > 0 {
        DropTopKeeps(p.stack);
      }
    } else if !IsOperatorChar(c) {
      OperandsAppend(st.out, [c]);
      assert ')' !in st.out + [c];
    }
  }

  lemma DropTopKeeps(stack: seq<char>)
    requires StackOfOperators(stack) && |stack| > 0
    ensures StackOfOperators(stack[..|stack| - 1])
  {
    assert forall i :: 0 <= i < |stack| - 1 ==> stack[..|stack| - 1][i] == stack[i];
  }

  lemma PushKeeps(stack: seq<char>, c: char)
    requires StackOfOperators(stack) && c in "!+*("
    ensures StackOfOperators(stack + [c])
  {
    assert forall i :: 0 <= i < |stack| ==> (stack + [c])[i] == stack[i];
  }

  /**
   * After any prefix, the characters the loop copies are exactly the
   * input's operands, in order, no `)` was written, and the stack holds
   * operators only.
   */
  lemma {:induction false} ShuntKeepsOperands(s: string, n: nat)
    requires n <= |s|
    ensures var st := ShuntPrefix(s, n);
      Operands(st.out) == Operands(s[..n]) && StackOfOperators(st.stack) && ')' !in st.out
  {
    if n > 0 {
      var prev, c := ShuntPrefix(s, n - 1), s[n - 1];
      ShuntKeepsOperands(s, n - 1);
      assert s[..n] == s[..n - 1] + [c];
      OperandsAppend(s[..n - 1], [c]);
      StepKeepsOperands(prev, c);
      assert ShuntPrefix(s, n) == ShuntStep(prev, c);
    }
  }

  /** The whole output keeps the operands of the expression in order and never holds `)`. */
  lemma RpnOutputOperands(s: string)
    ensures Operands(RpnOutput(s)) == Operands(s) && ')' !in RpnOutput(s)
  {
    ShuntKeepsOperands(s, |s|);
    assert s[..|s|] == s;
    PopAllKeeps(ShuntPrefix(s, |s|));
  }

  /** An expression with no operator, bracket or space is copied unchanged. */
  lemma {:induction false} PlainCopied(s: string, n: nat)
    requires n <= |s| && forall i :: 0 <= i < |s| ==> !IsOperatorChar(s[i])
    ensures ShuntPrefix(s, n) == Shunt([], s[..n])
  {
    if n > 0 {
      PlainCopied(s, n - 1);
      assert s[..n] == s[..n - 1] + [s[n - 1]];
    }
  }

  /** `firstTimeReached` before the group is first reached. */
  const NOT_REACHED: real := -1.0

  /** The statistics of a group, as `updateTargetSiteStatistics` reads and writes them. */
  datatype GroupStats = GroupStats(lastTimeUpdate: real, timeOccupied: real, firstTimeReached: real,
                                   timesReached: int, isOccupied: bool)

  /**
   * One pass of `updateTargetSiteStatistics` over a group whose expression
   * now evaluates to `evaluated`: reached on an unoccupied → occupied
   * transition, occupied time accrued if it was occupied, then the new
   * state and the time recorded.
   */
  function Updated(s: GroupStats, evaluated: bool, time: real): (r: GroupStats)
  {
    var reached := if evaluated && !s.isOccupied then
        s.(firstTimeReached := if s.firstTimeReached == NOT_REACHED then time else s.firstTimeReached,
           timesReached := s.timesReached + 1)
      else s;
    var accrued := if reached.isOccupied then reached.(timeOccupied := reached.timeOccupied + (time - reached.lastTimeUpdate))
      else reached;
    accrued.(isOccupied := evaluated, lastTimeUpdate := time)
  }

  /**
   * The counter grows by one exactly on a transition into occupancy, the
   * first reaching time is set only once, occupied time grows by the time
   * since the last update only while occupied, and a second pass with the
   * same value at the same time changes nothing.
   */
  lemma UpdatedFacts(s: GroupStats, evaluated: bool, time: real)
    ensures var r := Updated(s, evaluated, time);
      r.timesReached == s.timesReached + (if evaluated && !s.isOccupied then 1 else 0) &&
      (s.firstTimeReached != NOT_REACHED ==> r.firstTimeReached == s.firstTimeReached) &&
      (evaluated && !s.isOccupied && s.firstTimeReached == NOT_REACHED ==> r.firstTimeReached == time) &&
      r.timeOccupied == s.timeOccupied + (if s.isOccupied then time - s.lastTimeUpdate else 0.0) &&
      r.isOccupied == evaluated && r.lastTimeUpdate == time &&
      Updated(r, evaluated, time) == r
  {
  }

  /** The id and the text never change once the group is built; they are constants. */
  class TargetSitesGroup {
    const groupID: int
    var targetSitesID: seq<int>
    /** The trimmed output of the shunting loop, once generated. */
    var rpn: Option<string>
    const text: string
    var lastTimeUpdate: real
    var timeOccupied: real
    var firstTimeReached: real
    var timesReached: int
    var isOccupied: bool

    /** The group's statistics as one value. */
    function Stats(): GroupStats
      reads this`lastTimeUpdate, this`timeOccupied, this`firstTimeReached, this`timesReached, this`isOccupied
    {
      GroupStats(lastTimeUpdate, timeOccupied, firstTimeReached, timesReached, isOccupied)
    }

    /** A new group: never reached, never occupied, no sites. */
    constructor (groupID: int, text: string)
      ensures this.groupID == groupID && this.text == text && targetSitesID == [] && rpn == None
      ensures Stats() == GroupStats(0.0, 0.0, NOT_REACHED, 0, false)
    {
      this.groupID := groupID;
      targetSitesID := [];
      lastTimeUpdate := 0.0;
      timeOccupied := 0.0;
      firstTimeReached := NOT_REACHED;
      timesReached := 0;
      this.text := text;
      isOccupied := false;
      rpn := None;
    }

    /** `addTargetSite(id)`. */
    method AddTargetSite(id: int)
      modifies this`targetSitesID
      ensures targetSitesID == old(targetSitesID) + [id]
    {
      targetSitesID := targetSitesID + [id];
    }

    /** `updateTimesReachedStatistics(time)`: the first time is kept once set; the count always grows. */
    method UpdateTimesReachedStatistics(time: real)
      modifies this`firstTimeReached, this`timesReached
      ensures firstTimeReached == (if old(firstTimeReached) == NOT_REACHED then time else old(firstTimeReached))
      ensures timesReached == old(timesReached) + 1
    {
      if firstTimeReached == NOT_REACHED {
        firstTimeReached := time;
      }
      timesReached := timesReached + 1;
    }

    /** `updateOccupancyStatistics(time)`. */
    method UpdateOccupancyStatistics(time: real)
      modifies this`timeOccupied
      ensures timeOccupied == old(timeOccupied) + (time - lastTimeUpdate)
    {
      timeOccupied := timeOccupied + (time - lastTimeUpdate);
    }

    /** `updateLastTimeUpdate(time)`. */
    method UpdateLastTimeUpdate(time: real)
      modifies this`lastTimeUpdate
      ensures lastTimeUpdate == time
    {
      lastTimeUpdate := time;
    }

    /**
     * `generateRPN(str)`: false and nothing built for an empty expression;
     * otherwise the shunting loop over the characters, the stack emptied
     * into the output, and the trimmed output kept.
     */
    method GenerateRPN(str: string) returns (result: bool)
      modifies this`rpn
      ensures result <==> |str| > 0
      ensures result ==> rpn == Some(Trim(RpnOutput(str)))
      ensures !result ==> rpn == old(rpn)
    {
      result := true;
      if |str| == 0 {
        result := false;
      } else {
        var stack: seq<char> := [];
        var out := "";
        var i := 0;
        while i < |str|
          invariant 0 <= i <= |str|
          invariant Shunt(stack, out) == ShuntPrefix(str, i)
        {
          stack, out := ShuntChar(stack, out, str[i]);
          i := i + 1;
        }
        while |stack| > 0
          invariant PopAll(Shunt(stack, out)) == PopAll(ShuntPrefix(str, |str|))
        {
          out := out + [' ', stack[|stack| - 1]];
          stack := stack[..|stack| - 1];
        }
        rpn := Some(Trim(out));
      }
    }
  }

  /** One turn of the switch. */
  method ShuntChar(stack: seq<char>, out: string, value: char) returns (stack': seq<char>, out': string)
    ensures Shunt(stack', out') == ShuntStep(Shunt(stack, out), value)
  {
    stack', out' := stack, out;
    if value == '!' || value == '+' {
      stack', out' := PopWhileProducts(stack', out');
      out' := out' + " ";
      stack' := stack' + [value];
    } else if value == '*' {
      out' := out' + " ";
      stack' := stack' + [value];
    } else if value == '(' {
      stack' := stack' + [value];
    } else if value == ')' {
      stack', out' := PopWhileNotParen(stack', out');
      if |stack'| > 0 {
        stack' := stack'[..|stack'| - 1];
      }
    } else if value != ' ' {
      out' := out' + [value];
    }
  }

  /** The pop loop of `!` and `+`. */
  method PopWhileProducts(stack: seq<char>, out: string) returns (stack': seq<char>, out': string)
    ensures Shunt(stack', out') == PopProducts(Shunt(stack, out))
  {
    stack', out' := stack, out;
    while |stack'| > 0 && (stack'[|stack'| - 1] == '*' || stack'[|stack'| - 1] == '/')
      invariant PopProducts(Shunt(stack', out')) == PopProducts(Shunt(stack, out))
    {
      out' := out' + [' ', stack'[|stack'| - 1]];
      stack' := stack'[..|stack'| - 1];
    }
  }

  /** The pop loop of `)`. */
  method PopWhileNotParen(stack: seq<char>, out: string) returns (stack': seq<char>, out': string)
    ensures Shunt(stack', out') == PopToParen(Shunt(stack, out))
  {
    stack', out' := stack, out;
    while |stack'| > 0 && stack'[|stack'| - 1] != '('
      invariant PopToParen(Shunt(stack', out')) == PopToParen(Shunt(stack, out))
    {
      out' := out' + [' ', stack'[|stack'| - 1]];
      stack' := stack'[..|stack'| - 1];
    }
  }
}
