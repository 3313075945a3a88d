/**
 * The general helpers of the simulator (`utils.Utils`): the parameter-line
 * splitter, the bounded random draws (the draw itself is a parameter), the
 * number parsers with defaults, the sum and mean loops and the CSV line parser.
 */
module JUtils {
  import opened Wrappers
  import opened Text

  /** The Java exceptions these helpers can end with. */
  datatype JavaError = StringIndexOutOfBounds | IllegalArgument

  const INT_MIN: int := -0x8000_0000
  const INT_MAX: int := 0x7fff_ffff
  const LONG_MIN: int := -0x8000_0000_0000_0000
  const LONG_MAX: int := 0x7fff_ffff_ffff_ffff

  predicate IsInt(x: int) { INT_MIN <= x <= INT_MAX }
  predicate IsLong(x: int) { LONG_MIN <= x <= LONG_MAX }

  /** Java's narrowing of a long to an int: the low 32 bits, two's complement. */
  function ToInt(x: int): (r: int)
    ensures IsInt(r)
    ensures IsInt(x) ==> r == x
  {
    var m := x % 0x1_0000_0000;
    if m > INT_MAX then m - 0x1_0000_0000 else m
  }

  /** `Math.max` and `Math.min` on ints. */
  function MathMax(a: int, b: int): int { if a >= b then a else b }

  function MathMin(a: int, b: int): int { if a <= b then a else b }

  // ---------------------------------------------------------------------------
  // extractParameterFromCommandLine

  /** The two strings returned for a line that is not one assignment. */
  const NO_PARAMETER: (string, string) := ("", "")

  /**
   * `extractParameterFromCommandLine(text, assignmentChar)`: on the trimmed
   * line, when the assignment character occurs exactly once, the name is the
   * trimmed text before it and the value the text between it and the last
   * character (which is always dropped), trimmed and without '"'. An
   * assignment character at the very end makes `substring` throw.
   */
  function ExtractParameter(text: string, assign: char): (r: Result<(string, string), JavaError>)
  {
    ExtractTrimmed(Trim(text), assign)
  }

  /** `extractParameterFromCommandLine` after the line has been trimmed. */
  function ExtractTrimmed(t: string, assign: char): (r: Result<(string, string), JavaError>)
  {
    if assign !in t then Ok(NO_PARAMETER)
    else
      var first := IndexOf(t, assign);
      var last := LastIndexOf(t, assign);
      if first != last then Ok(NO_PARAMETER)
      else if first + 1 > |t| - 1 then Err(StringIndexOutOfBounds)
      else Ok(Parts(t[..first], t[first + 1..|t| - 1]))
  }

  /** A trimmed line that does not end with the assignment character never makes the splitter throw. */
  lemma ExtractTrimmedOk(t: string, assign: char)
    requires |t| > 0 && t[|t| - 1] != assign
    ensures ExtractTrimmed(t, assign).Ok?
  {
    if assign in t {
      var last := LastIndexOf(t, assign);
      assert last != |t| - 1;
    }
  }

  /** The name before the assignment and the value after it, cleaned. */
  function Parts(before: string, after: string): (string, string)
  {
    (Trim(before), RemoveChar(Trim(after), '"'))
  }

  lemma {:induction false} CountCharZero(s: string, c: char)
    ensures CountChar(s, c) == 0 <==> c !in s
  {
    if |s| > 0 {
      CountCharZero(s[1..], c);
      assert s == [s[0]] + s[1..];
    }
  }

  lemma {:induction false} CountCharAppend(a: string, b: string, c: char)
    ensures CountChar(a + b, c) == CountChar(a, c) + CountChar(b, c)
  {
    if |a| > 0 {
      assert (a + b)[1..] == a[1..] + b;
      CountCharAppend(a[1..], b, c);
    } else {
      assert a + b == b;
    }
  }

  lemma CountConsSep(x: string, c: char)
    ensures CountChar([c] + x, c) == 1 + CountChar(x, c)
  {
    assert ([c] + x)[1..] == x;
  }

  /** Everything up to the first occurrence holds one occurrence. */
  lemma CountFromFirst(t: string, c: char)
    requires c in t
    ensures CountChar(t, c) == 1 + CountChar(t[IndexOf(t, c) + 1..], c)
  {
    var first := IndexOf(t, c);
    var rest := t[first + 1..];
    assert t == t[..first] + ([c] + rest);
    CountCharAppend(t[..first], [c] + rest, c);
    CountCharZero(t[..first], c);
    CountConsSep(rest, c);
  }

  /** The assignment character occurs once iff its first and last positions agree. */
  lemma CountOnce(t: string, c: char)
    requires c in t
    ensures CountChar(t, c) == 1 <==> IndexOf(t, c) == LastIndexOf(t, c)
  {
    var first := IndexOf(t, c);
    var last := LastIndexOf(t, c);
    CountFromFirst(t, c);
    var rest := t[first + 1..];
    CountCharZero(rest, c);
    if first != last {
      assert rest[last - first - 1] == c;
    } else {
      assert rest == t[last + 1..];
    }
  }

  /**
   * The outcome of `extractParameterFromCommandLine` by the number of
   * assignment characters on the trimmed line: none or several give
   * `["", ""]`; exactly one at the end throws; exactly one elsewhere splits
   * the line around it.
   */
  lemma ExtractParameterCases(text: string, assign: char)
    ensures var t := Trim(text);
      var r := ExtractParameter(text, assign);
      (CountChar(t, assign) != 1 ==> r == Ok(NO_PARAMETER))
      && (CountChar(t, assign) == 1 && t[|t| - 1] == assign ==> r == Err(StringIndexOutOfBounds))
      && (CountChar(t, assign) == 1 && t[|t| - 1] != assign ==>
            var k := IndexOf(t, assign);
            k < |t| - 1 && r == Ok(Parts(t[..k], t[k + 1..|t| - 1])))
  {
    var t := Trim(text);
    if CountChar(t, assign) == 1 {
      ExtractOnce(t, assign);
    } else {
      ExtractNotOnce(t, assign);
    }
  }

  lemma ExtractNotOnce(t: string, assign: char)
    requires CountChar(t, assign) != 1
    ensures ExtractTrimmed(t, assign) == Ok(NO_PARAMETER)
  {
    CountCharZero(t, assign);
    if assign in t {
      CountOnce(t, assign);
    }
  }

  lemma OnceFirstLast(t: string, c: char)
    requires CountChar(t, c) == 1
    ensures c in t && IndexOf(t, c) == LastIndexOf(t, c)
  {
    CountCharZero(t, c);
    CountOnce(t, c);
  }

  lemma ExtractOnce(t: string, assign: char)
    requires CountChar(t, assign) == 1
    ensures |t| > 0
    ensures t[|t| - 1] == assign ==> ExtractTrimmed(t, assign) == Err(StringIndexOutOfBounds)
    ensures t[|t| - 1] != assign ==>
      var k := IndexOf(t, assign);
      k < |t| - 1 && ExtractTrimmed(t, assign) == Ok(Parts(t[..k], t[k + 1..|t| - 1]))
  {
    OnceFirstLast(t, assign);
    var k := IndexOf(t, assign);
    if t[|t| - 1] == assign {
      assert k + 1 > |t| - 1;
    } else {
      assert k != |t| - 1;
    }
  }

  /** A text with no surrounding whitespace. */
  predicate JavaTrimmed(s: string) {
    |s| == 0 || (!IsJavaTrimmable(s[0]) && !IsJavaTrimmable(s[|s| - 1]))
  }

  lemma {:induction false} TrimLeftSpaces(w: string, s: string)
    requires forall i :: 0 <= i < |w| ==> IsJavaTrimmable(w[i])
    requires |s| == 0 || !IsJavaTrimmable(s[0])
    ensures TrimLeft(w + s) == s
  {
    if |w| > 0 {
      assert (w + s)[1..] == w[1..] + s;
      TrimLeftSpaces(w[1..], s);
    } else {
      assert w + s == s;
    }
  }

  lemma {:induction false} TrimRightSpaces(s: string, w: string)
    requires forall i :: 0 <= i < |w| ==> IsJavaTrimmable(w[i])
    requires |s| == 0 || !IsJavaTrimmable(s[|s| - 1])
    ensures TrimRight(s + w) == s
  {
    if |w| > 0 {
      assert (s + w)[..|s + w| - 1] == s + w[..|w| - 1];
      TrimRightSpaces(s, w[..|w| - 1]);
    } else {
      assert s + w == s;
    }
  }

  lemma TrimOfTrimmed(s: string)
    requires JavaTrimmed(s)
    ensures Trim(s) == s
  {
    TrimLeftSpaces("", s);
    assert "" + s == s;
    TrimRightSpaces(s, "");
    assert s + "" == s;
  }

  /**
   * Reading back a written parameter line: `name = value;` gives the name
   * and the value, when the name is non-empty and neither holds the
   * assignment character, surrounding whitespace or (for the value) '"'.
   */
  lemma {:induction false} ExtractParameterRoundTrip(name: string, value: string, assign: char)
    requires |name| > 0 && JavaTrimmed(name) && JavaTrimmed(value)
    requires assign !in name && assign !in value && assign != ';' && assign != ' '
    requires '"' !in value
    ensures ExtractParameter(name + " " + [assign] + " " + value + ";", assign) == Ok((name, value))
  {
    var line := name + " " + [assign] + " " + value + ";";
    var k := |name| + 1;
    LineShape(name, value, assign);
    OnlyAt(line, assign, k);
    TrimOfTrimmed(line);
    TrimRightSpaces(name, " ");
    TrimLeftSpaces("", name + " ");
    assert "" + (name + " ") == name + " ";
    TrimLeftSpaces(" ", value);
    TrimRightSpaces(value, "");
    assert value + "" == value;
    RemoveCharAbsent(value, '"');
    SplitAround(line, assign, k, name + " ", " " + value);
    assert ExtractParameter(line, assign) == ExtractTrimmed(line, assign);
  }

  lemma SplitAround(t: string, c: char, k: int, before: string, after: string)
    requires 0 <= k < |t| - 1 && t[k] == c && IndexOf(t, c) == k && LastIndexOf(t, c) == k
    requires t[..k] == before && t[k + 1..|t| - 1] == after
    ensures ExtractTrimmed(t, c) == Ok(Parts(before, after))
  {
    assert c in t;
    assert ExtractTrimmed(t, c) == Ok(Parts(t[..k], t[k + 1..|t| - 1]));
  }

  lemma LineShape(name: string, value: string, assign: char)
    requires |name| > 0 && JavaTrimmed(name)
    requires assign !in name && assign !in value && assign != ';' && assign != ' '
    ensures var line := name + " " + [assign] + " " + value + ";";
      var k := |name| + 1;
      JavaTrimmed(line) && k < |line| - 1
      && line[..k] == name + " " && line[k + 1..|line| - 1] == " " + value
      && line[k] == assign && assign !in line[..k] && assign !in line[k + 1..]
  {
    var line := name + " " + [assign] + " " + value + ";";
    var k := |name| + 1;
    assert line[..k] == name + " ";
    assert line[k + 1..] == " " + value + ";";
    assert line[k + 1..|line| - 1] == " " + value;
  }

  /** A character occurring only at k has k as its first and last index. */
  lemma OnlyAt(s: string, c: char, k: int)
    requires 0 <= k < |s| && s[k] == c && c !in s[..k] && c !in s[k + 1..]
    ensures IndexOf(s, c) == k && LastIndexOf(s, c) == k
  {
  }

  // ---------------------------------------------------------------------------
  // Random draws: the value drawn from `java.util.Random` is a parameter.

  /**
   * `generateNextInteger(generator, min, max)` with `draw` the value of
   * `nextInt(max - min)`. The bound is computed in 32-bit arithmetic, and
   * `nextInt` refuses a bound that is not positive.
   */
  function GenerateNextInteger(min: int, max: int, draw: int): (r: Result<int, JavaError>)
    requires IsInt(min) && IsInt(max)
    requires min < max && ToInt(max - min) > 0 ==> 0 <= draw < ToInt(max - min)
    ensures min >= max ==> r == Ok(min)
    ensures min < max && max - min <= INT_MAX ==> r.Ok? && min <= r.value < max
    ensures min < max && max - min > INT_MAX ==> r == Err(IllegalArgument)
  {
    if min < max then
      var bound := ToInt(max - min);
      if bound <= 0 then Err(IllegalArgument) else Ok(ToInt(min + draw))
    else Ok(min)
  }

  /**
   * `generateNextDouble(generator, min, max)` with `u` the value of
   * `nextDouble()`, which lies in [0, 1).
   */
  function GenerateNextDouble(min: real, max: real, u: real): (r: real)
    requires 0.0 <= u < 1.0
    ensures min >= max ==> r == min
    ensures min < max ==> min <= r < max
  {
    if min < max then min + Scaled(u, max - min) else min
  }

  /** `u * w` for a draw u in [0, 1) lies in [0, w). */
  function Scaled(u: real, w: real): (d: real)
    requires 0.0 <= u < 1.0 && w > 0.0
    ensures 0.0 <= d < w
  {
    assert w - u * w == (1.0 - u) * w;
    u * w
  }

  /**
   * `generateNextNormalDistributedDouble`: the Gaussian draw `g` scaled and
   * shifted, but never below `min`.
   */
  function NormalDouble(mean: real, stddev: real, min: real, g: real): (r: real)
    ensures r >= min && r >= g * stddev + mean
    ensures r == min || r == g * stddev + mean
  {
    var x := g * stddev + mean;
    if x >= min then x else min
  }

  /** `Math.round` on a double: the nearest integer, halves rounded up, saturated to a long. */
  function Round(x: real): (r: int)
    ensures IsLong(r)
  {
    var n := (x + 0.5).Floor;
    if n < LONG_MIN then LONG_MIN else if n > LONG_MAX then LONG_MAX else n
  }

  /** `generateNextNormalDistributedInteger`: the rounded draw narrowed to an int. */
  function NormalInteger(mean: real, stddev: real, g: real): (r: int)
    ensures IsInt(r)
  {
    ToInt(Round(g * stddev + mean))
  }

  /** When the draw is within the int range, the result is within one half of it. */
  lemma NormalIntegerNearest(mean: real, stddev: real, g: real)
    requires INT_MIN as real <= g * stddev + mean <= INT_MAX as real
    ensures var x := g * stddev + mean;
      var r := NormalInteger(mean, stddev, g);
      x - 0.5 < r as real <= x + 0.5
  {
  }

  // ---------------------------------------------------------------------------
  // Parsers with defaults

  /**
   * `parseDouble(str, none)`: `parsed` is what `Double.parseDouble` makes of
   * the text, `None` when it throws a NumberFormatException.
   */
  function ParseDouble(parsed: Option<real>, none: real): (r: real)
    ensures parsed.None? ==> r == none
    ensures parsed.Some? ==> r == parsed.value
  {
    match parsed
    case Some(v) => v
    case None => none
  }

  /**
   * `Integer.parseInt` / `Long.parseLong` on ASCII text: an optional sign,
   * at least one digit and nothing else, within [lo, hi]; `None` stands for
   * the NumberFormatException.
   */
  function JavaParseIntegral(s: string, lo: int, hi: int): (r: Option<int>)
    ensures r.Some? ==> lo <= r.value <= hi
  {
    var signed := |s| > 0 && (s[0] == '-' || s[0] == '+');
    var digits := if signed then s[1..] else s;
    if !IsDigits(digits) then None
    else
      var v: int := if signed && s[0] == '-' then -(DigitsValue(digits) as int) else DigitsValue(digits);
      if lo <= v <= hi then Some(v) else None
  }

  /** `parseInteger(str, none)`: the int the text denotes, or the default. */
  function ParseInteger(str: string, none: int): (r: int)
    ensures r == none || IsInt(r)
  {
    match JavaParseIntegral(str, INT_MIN, INT_MAX)
    case Some(v) => v
    case None => none
  }

  /** `parseLong(str, none)`: the long the text denotes, or the default. */
  function ParseLong(str: string, none: int): (r: int)
    ensures r == none || IsLong(r)
  {
    match JavaParseIntegral(str, LONG_MIN, LONG_MAX)
    case Some(v) => v
    case None => none
  }

  /** Reading back the decimal rendering of an integer in range gives it. */
  lemma ParseIntegralOfString(n: int, lo: int, hi: int)
    requires lo <= n <= hi
    ensures JavaParseIntegral(IntToString(n), lo, hi) == Some(n)
  {
    var s := IntToString(n);
    if n < 0 {
      var m: nat := -n;
      assert s == "-" + NatToString(m);
      ParseNegative(m, lo, hi);
      assert JavaParseIntegral(s, lo, hi) == JavaParseIntegral("-" + NatToString(m), lo, hi);
    } else {
      assert s == NatToString(n);
      ParseNonNegative(n, lo, hi);
    }
  }

  lemma ParseNegative(m: nat, lo: int, hi: int)
    requires m > 0 && lo <= -(m as int) <= hi
    ensures JavaParseIntegral("-" + NatToString(m), lo, hi) == Some(-(m as int))
  {
    var s := "-" + NatToString(m);
    assert s[1..] == NatToString(m);
    assert IsDigits(s[1..]);
    DigitsOfNat(m);
  }

  lemma ParseNonNegative(n: nat, lo: int, hi: int)
    requires lo <= n <= hi
    ensures JavaParseIntegral(NatToString(n), lo, hi) == Some(n)
  {
    var s := NatToString(n);
    assert s[0] != '-' && s[0] != '+';
    assert IsDigits(s);
    DigitsOfNat(n);
  }

  /** `parseInteger(String.valueOf(n), none) == n` for every int n. */
  lemma ParseIntegerRoundTrip(n: int, none: int)
    requires IsInt(n)
    ensures ParseInteger(IntToString(n), none) == n
  {
    ParseIntegralOfString(n, INT_MIN, INT_MAX);
  }

  /** `parseLong(String.valueOf(n), none) == n` for every long n. */
  lemma ParseLongRoundTrip(n: int, none: int)
    requires IsLong(n)
    ensures ParseLong(IntToString(n), none) == n
  {
    ParseIntegralOfString(n, LONG_MIN, LONG_MAX);
  }

  /** A text with no digit falls back to the default. */
  lemma ParseIntegerDefault(str: string, none: int)
    requires forall i :: 0 <= i < |str| ==> !('0' <= str[i] <= '9')
    ensures ParseInteger(str, none) == none && ParseLong(str, none) == none
  {
    if |str| > 0 && (str[0] == '-' || str[0] == '+') {
      assert |str[1..]| > 0 ==> !('0' <= str[1..][0] <= '9');
    } else {
      assert |str| > 0 ==> !('0' <= str[0] <= '9');
    }
  }

  function BoolToString(b: bool): string { if b then "true" else "false" }

  function LowerChar(c: char): char {
    if 'A' <= c <= 'Z' then (c as int + 32) as char else c
  }

  /** `a.equalsIgnoreCase(b)` on ASCII letters. */
  predicate EqualsIgnoreCase(a: string, b: string) {
    |a| == |b| && forall i :: 0 <= i < |a| ==> LowerChar(a[i]) == LowerChar(b[i])
  }

  /**
   * `parseBoolean(str, none)`: `Boolean.parseBoolean` never throws, so the
   * default is never used; the result is whether the text is "true" in any
   * (ASCII) case.
   */
  function ParseBoolean(str: string, none: bool): (r: bool)
  {
    EqualsIgnoreCase(str, "true")
  }

  /** Only the four letters of "true", in any case, parse as true. */
  lemma ParseBooleanTrue(str: string, none: bool)
    ensures ParseBoolean(str, none) <==>
      |str| == 4 && LowerChar(str[0]) == 't' && LowerChar(str[1]) == 'r'
      && LowerChar(str[2]) == 'u' && LowerChar(str[3]) == 'e'
  {
  }

  /** `parseBoolean(String.valueOf(b), none) == b`. */
  lemma ParseBooleanRoundTrip(b: bool, none: bool)
    ensures ParseBoolean(BoolToString(b), none) == b
  {
  }

  // ---------------------------------------------------------------------------
  // computeSum, computeMean

  function Sum(s: seq<int>): int
  {
    if |s| == 0 then 0 else Sum(s[..|s| - 1]) + s[|s| - 1]
  }

  /** `computeSum(vector)`: the sum, accumulated in a long. */
  method ComputeSum(vector: array<int>) returns (sum: int)
    ensures sum == Sum(vector[..])
  {
    sum := 0;
    var i := 0;
    while i < vector.Length
      invariant 0 <= i <= vector.Length
      invariant sum == Sum(vector[..i])
    {
      assert vector[..i + 1][..i] == vector[..i];
      sum := sum + vector[i];
      i := i + 1;
    }
    assert vector[..i] == vector[..];
  }

  /** The sum of ints is at most the length times the largest magnitude. */
  lemma {:induction false} SumBounds(s: seq<int>)
    requires forall i :: 0 <= i < |s| ==> IsInt(s[i])
    ensures |s| * INT_MIN <= Sum(s) <= |s| * INT_MAX
  {
    if |s| > 0 {
      SumBounds(s[..|s| - 1]);
    }
  }

  /** A Java array has fewer than 2^31 entries, so the long accumulator never wraps. */
  lemma SumFitsLong(s: seq<int>)
    requires forall i :: 0 <= i < |s| ==> IsInt(s[i])
    requires |s| <= INT_MAX
    ensures IsLong(Sum(s))
  {
    SumBounds(s);
    var n := |s|;
    assert n * INT_MAX <= INT_MAX * INT_MAX;
    assert n * INT_MIN >= INT_MAX * INT_MIN;
  }

  function RealSum(s: seq<real>): real
  {
    if |s| == 0 then 0.0 else RealSum(s[..|s| - 1]) + s[|s| - 1]
  }

  function Mean(s: seq<real>): real
  {
    if |s| == 0 then 0.0 else RealSum(s) / |s| as real
  }

  /** `computeMean(vector)`: 0 for an empty list, else the sum over the size. */
  method ComputeMean(vector: seq<real>) returns (avg: real)
    ensures avg == Mean(vector)
  {
    avg := 0.0;
    var i := 0;
    while i < |vector|
      invariant 0 <= i <= |vector|
      invariant avg == RealSum(vector[..i])
    {
      assert vector[..i + 1][..i] == vector[..i];
      avg := avg + vector[i];
      i := i + 1;
    }
    assert vector[..i] == vector;
    if |vector| > 0 {
      avg := avg / |vector| as real;
    }
  }

  lemma {:induction false} RealSumBounds(s: seq<real>, lo: real, hi: real)
    requires forall i :: 0 <= i < |s| ==> lo <= s[i] <= hi
    ensures |s| as real * lo <= RealSum(s) <= |s| as real * hi
  {
    if |s| > 0 {
      RealSumBounds(s[..|s| - 1], lo, hi);
      assert |s| as real * lo == (|s| - 1) as real * lo + lo;
      assert |s| as real * hi == (|s| - 1) as real * hi + hi;
    }
  }

  /** The mean of a non-empty list lies between any bounds of its entries. */
  lemma MeanBetween(s: seq<real>, lo: real, hi: real)
    requires |s| > 0
    requires forall i :: 0 <= i < |s| ==> lo <= s[i] <= hi
    ensures lo <= Mean(s) <= hi
  {
    RealSumBounds(s, lo, hi);
    var n := |s| as real;
    var m := Mean(s);
    assert m * n == RealSum(s);
  }

  // ---------------------------------------------------------------------------
  // parseCSVline

  /** The values of the cells, each parsed by `parse` with the default on failure. */
  function CellValues(cells: seq<string>, parse: string -> Option<real>, defaultValue: real): (r: seq<real>)
    ensures |r| == |cells|
    ensures forall i :: 0 <= i < |cells| ==> r[i] == ParseDouble(parse(cells[i]), defaultValue)
  {
    if |cells| == 0 then [] else CellValues(cells[..|cells| - 1], parse, defaultValue) + [ParseDouble(parse(cells[|cells| - 1]), defaultValue)]
  }

  /**
   * `parseCSVline(line, delimiter, defaultValue)` with a one-character
   * delimiter and `parse` standing for `Double.parseDouble`: one value per
   * split cell, or null when the split yields no cell.
   */
  method ParseCSVLine(line: string, delimiter: char, defaultValue: real, parse: string -> Option<real>)
    returns (result: array?<real>)
    ensures result == null <==> |JavaSplit(line, delimiter)| == 0
    ensures result != null ==> (fresh(result)
      && result[..] == CellValues(JavaSplit(line, delimiter), parse, defaultValue))
  {
    result := null;
    var cells := JavaSplit(line, delimiter);
    if |cells| > 0 {
      result := new real[|cells|];
      var i := 0;
      while i < |cells|
        invariant 0 <= i <= |cells|
        invariant forall j :: 0 <= j < i ==> result[j] == ParseDouble(parse(cells[j]), defaultValue)
      {
        result[i] := ParseDouble(parse(cells[i]), defaultValue);
        i := i + 1;
      }
    }
  }

  lemma {:induction false} SplitAllSeparators(s: string, c: char)
    requires forall i :: 0 <= i < |s| ==> s[i] == c
    ensures forall i :: 0 <= i < |PySplit(s, c)| ==> PySplit(s, c)[i] == ""
  {
    if |s| > 0 {
      SplitAllSeparators(s[1..], c);
    }
  }

  lemma {:induction false} DropAllEmpty(parts: seq<string>)
    requires forall i :: 0 <= i < |parts| ==> parts[i] == ""
    ensures DropTrailingEmpty(parts) == []
  {
    if |parts| > 0 {
      DropAllEmpty(parts[..|parts| - 1]);
    }
  }

  lemma {:induction false} JoinEmpty(parts: seq<string>, c: char)
    requires forall i :: 0 <= i < |parts| ==> parts[i] == ""
    ensures forall i :: 0 <= i < |JoinWith(parts, c)| ==> JoinWith(parts, c)[i] == c
  {
    if |parts| > 1 {
      JoinEmpty(parts[1..], c);
      assert JoinWith(parts, c) == [c] + JoinWith(parts[1..], c);
    }
  }

  /**
   * `parseCSVline` returns null exactly for a non-empty line made only of
   * delimiters (Java's `split` drops trailing empty cells and returns the
   * whole text when the delimiter does not occur).
   */
  lemma {:induction false} CSVLineNull(line: string, delimiter: char)
    ensures |JavaSplit(line, delimiter)| == 0 <==>
      (|line| > 0 && forall i :: 0 <= i < |line| ==> line[i] == delimiter)
  {
    if delimiter in line {
      var parts := PySplit(line, delimiter);
      if |JavaSplit(line, delimiter)| == 0 {
        JoinSplit(line, delimiter);
        JoinEmpty(parts, delimiter);
      }
      if forall i :: 0 <= i < |line| ==> line[i] == delimiter {
        SplitAllSeparators(line, delimiter);
        DropAllEmpty(parts);
      }
    } else if |line| > 0 {
      assert line[0] != delimiter;
    }
  }
}
