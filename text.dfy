/**
 * String primitives with the semantics of the two source languages:
 * Python's `str.split`, `str.strip`, `str.split()` and Java's
 * `String.trim`, `String.split` (single-character separator), `replace`.
 */
module Text {
  import opened Wrappers

  /** Python's ASCII whitespace (`str.isspace` restricted to code points below 128). */
  predicate IsPyWs(c: char) {
    // space, tab, line feed, vertical tab, form feed, carriage return, and the
    // four separators U+001C..U+001F
    c == ' ' || (9 <= c as int <= 13) || (28 <= c as int <= 31)
  }

  /** Characters removed by Java's `String.trim`: every code unit up to the space. */
  predicate IsJavaTrimmable(c: char) { c <= ' ' }

  predicate StartsWith(s: string, p: string) { |p| <= |s| && s[..|p|] == p }

  predicate EndsWith(s: string, p: string) { |p| <= |s| && s[|s| - |p|..] == p }

  /** `p in s` for strings: p occurs as a contiguous substring of s. */
  predicate Contains(s: string, p: string)
    decreases |s|
  {
    StartsWith(s, p) || (|s| > 0 && Contains(s[1..], p))
  }

  /** A string containing [c] + p also contains p. */
  lemma {:induction false} ContainsTail(s: string, c: char, p: string)
    requires Contains(s, [c] + p)
    ensures Contains(s, p)
    decreases |s|
  {
    if StartsWith(s, [c] + p) {
      assert s[1..][..|p|] == ([c] + p)[1..] == p;
      assert Contains(s[1..], p);
    } else {
      ContainsTail(s[1..], c, p);
    }
  }

  /** `s.replace(c, '')`: every occurrence of c deleted. */
  function RemoveChar(s: string, c: char): (r: string)
    ensures |r| <= |s|
  {
    if |s| == 0 then "" else (if s[0] == c then "" else [s[0]]) + RemoveChar(s[1..], c)
  }

  /** After `s.replace(c, '')` no c is left. */
  lemma {:induction false} RemoveCharRemoves(s: string, c: char)
    ensures c !in RemoveChar(s, c)
  {
    if |s| > 0 {
      RemoveCharRemoves(s[1..], c);
    }
  }

  lemma {:induction false} RemoveCharAbsent(s: string, c: char)
    requires c !in s
    ensures RemoveChar(s, c) == s
  {
    if |s| > 0 { RemoveCharAbsent(s[1..], c); }
  }

  lemma {:induction false} RemoveCharAppend(a: string, b: string, c: char)
    ensures RemoveChar(a + b, c) == RemoveChar(a, c) + RemoveChar(b, c)
  {
    if |a| > 0 {
      assert (a + b)[1..] == a[1..] + b;
      RemoveCharAppend(a[1..], b, c);
    } else {
      assert a + b == b;
    }
  }

  /** Python's `s.split(c)`: the pieces between occurrences of c, empty pieces kept. */
  function PySplit(s: string, c: char): (r: seq<string>)
    ensures |r| >= 1
    ensures forall i :: 0 <= i < |r| ==> c !in r[i]
  {
    if |s| == 0 then [""]
    else
      var rest := PySplit(s[1..], c);
      if s[0] == c then [""] + rest else [[s[0]] + rest[0]] + rest[1..]
  }

  /** Number of occurrences of c in s. */
  function CountChar(s: string, c: char): nat
  {
    if |s| == 0 then 0 else (if s[0] == c then 1 else 0) + CountChar(s[1..], c)
  }

  /** `s.split(c)` has one piece more than there are separators. */
  lemma {:induction false} SplitCount(s: string, c: char)
    ensures |PySplit(s, c)| == CountChar(s, c) + 1
  {
    if |s| > 0 {
      SplitCount(s[1..], c);
    }
  }

  /** The first piece of `s.split(c)` is the text before the first c. */
  lemma {:induction false} SplitFirst(s: string, c: char)
    ensures PySplit(s, c)[0] == s[..IndexOf(s, c)]
  {
    if |s| > 0 && s[0] != c {
      SplitFirst(s[1..], c);
      assert s[..IndexOf(s, c)] == [s[0]] + s[1..][..IndexOf(s[1..], c)];
    }
  }

  /** `c.join(parts)`. */
  function JoinWith(parts: seq<string>, c: char): string
  {
    if |parts| == 0 then ""
    else if |parts| == 1 then parts[0]
    else parts[0] + [c] + JoinWith(parts[1..], c)
  }

  /** Splitting inverts joining when no part holds the separator. */
  lemma {:induction false} SplitJoin(parts: seq<string>, c: char)
    requires |parts| >= 1
    requires forall i :: 0 <= i < |parts| ==> c !in parts[i]
    ensures PySplit(JoinWith(parts, c), c) == parts
  {
    if |parts| == 1 {
      SplitNoSep(parts[0], c);
    } else {
      SplitJoin(parts[1..], c);
      SplitPrefix(parts[0], JoinWith(parts[1..], c), c);
    }
  }

  lemma {:induction false} SplitNoSep(s: string, c: char)
    requires c !in s
    ensures PySplit(s, c) == [s]
  {
    if |s| > 0 {
      assert s[0] != c && c !in s[1..];
      SplitNoSep(s[1..], c);
      assert [s[0]] + s[1..] == s;
    }
  }

  /** Splitting `a + [c] + b` with c not in a gives a followed by the pieces of b. */
  lemma {:induction false} SplitPrefix(a: string, b: string, c: char)
    requires c !in a
    ensures PySplit(a + [c] + b, c) == [a] + PySplit(b, c)
  {
    if |a| == 0 {
      assert a + [c] + b == [c] + b;
      assert ([c] + b)[1..] == b;
    } else {
      assert (a + [c] + b)[1..] == a[1..] + [c] + b;
      SplitPrefix(a[1..], b, c);
      assert [a[0]] + a[1..] == a;
    }
  }

  /** Joining inverts splitting. */
  lemma {:induction false} JoinSplit(s: string, c: char)
    ensures JoinWith(PySplit(s, c), c) == s
  {
    if |s| > 0 {
      JoinSplit(s[1..], c);
      var rest := PySplit(s[1..], c);
      if s[0] == c {
        assert JoinWith([""] + rest, c) == "" + [c] + JoinWith(rest, c);
      } else {
        var p := [[s[0]] + rest[0]] + rest[1..];
        if |rest| == 1 {
          assert JoinWith(p, c) == [s[0]] + rest[0];
        } else {
          assert p[1..] == rest[1..];
          assert JoinWith(rest, c) == rest[0] + [c] + JoinWith(rest[1..], c);
        }
      }
    }
  }

  /** Python's `s.lstrip()`. */
  function LStrip(s: string): (r: string)
    ensures |r| <= |s| && r == s[|s| - |r|..]
    ensures |r| > 0 ==> !IsPyWs(r[0])
  {
    if |s| > 0 && IsPyWs(s[0]) then LStrip(s[1..]) else s
  }

  /** Python's `s.rstrip()`. */
  function RStrip(s: string): (r: string)
    ensures |r| <= |s| && r == s[..|r|]
    ensures |r| > 0 ==> !IsPyWs(r[|r| - 1])
  {
    if |s| > 0 && IsPyWs(s[|s| - 1]) then RStrip(s[..|s| - 1]) else s
  }

  /** Python's `s.strip()`. */
  function Strip(s: string): string { RStrip(LStrip(s)) }

  /** A string without surrounding whitespace is its own strip. */
  predicate IsStripped(s: string) {
    |s| == 0 || (!IsPyWs(s[0]) && !IsPyWs(s[|s| - 1]))
  }

  lemma StripStripped(s: string)
    requires IsStripped(s)
    ensures Strip(s) == s
  {
  }

  lemma {:induction false} LStripSpaces(w: string, s: string)
    requires forall i :: 0 <= i < |w| ==> IsPyWs(w[i])
    requires |s| == 0 || !IsPyWs(s[0])
    ensures LStrip(w + s) == s
  {
    if |w| > 0 {
      assert (w + s)[1..] == w[1..] + s;
      LStripSpaces(w[1..], s);
    } else {
      assert w + s == s;
    }
  }

  lemma {:induction false} RStripSpaces(s: string, w: string)
    requires forall i :: 0 <= i < |w| ==> IsPyWs(w[i])
    requires |s| == 0 || !IsPyWs(s[|s| - 1])
    ensures RStrip(s + w) == s
  {
    if |w| > 0 {
      assert (s + w)[..|s + w| - 1] == s + w[..|w| - 1];
      RStripSpaces(s, w[..|w| - 1]);
    } else {
      assert s + w == s;
    }
  }

  /** Surrounding whitespace of a stripped string is removed by strip. */
  lemma StripPadded(w1: string, s: string, w2: string)
    requires forall i :: 0 <= i < |w1| ==> IsPyWs(w1[i])
    requires forall i :: 0 <= i < |w2| ==> IsPyWs(w2[i])
    requires IsStripped(s)
    ensures Strip(w1 + s + w2) == s
  {
    if |s| == 0 {
      assert w1 + s + w2 == w1 + w2;
      LStripSpaces(w1 + w2, "");
      assert w1 + w2 + "" == w1 + w2;
    } else {
      assert w1 + s + w2 == w1 + (s + w2);
      LStripSpaces(w1, s + w2);
      RStripSpaces(s, w2);
    }
  }

  /** Python's `s.split()` (no argument): the maximal runs of non-whitespace. */
  function PySplitWs(s: string): (r: seq<string>)
    ensures forall i :: 0 <= i < |r| ==> |r[i]| > 0
    decreases |s|
  {
    if |s| == 0 then []
    else if IsPyWs(s[0]) then PySplitWs(s[1..])
    else
      var n := WordLength(s);
      [s[..n]] + PySplitWs(s[n..])
  }

  /** Length of the leading run of non-whitespace characters. */
  function WordLength(s: string): (n: nat)
    ensures n <= |s|
    ensures forall i :: 0 <= i < n ==> !IsPyWs(s[i])
    ensures n < |s| ==> IsPyWs(s[n])
  {
    if |s| == 0 || IsPyWs(s[0]) then 0 else 1 + WordLength(s[1..])
  }

  /** A word followed by whitespace (or nothing) is the first piece of `split()`. */
  lemma {:induction false} SplitWsWord(a: string, rest: string)
    requires |a| > 0 && forall i :: 0 <= i < |a| ==> !IsPyWs(a[i])
    requires |rest| == 0 || IsPyWs(rest[0])
    ensures PySplitWs(a + rest) == [a] + PySplitWs(rest)
  {
    WordLengthOfWord(a, rest);
    assert (a + rest)[..|a|] == a && (a + rest)[|a|..] == rest;
  }

  lemma {:induction false} WordLengthOfWord(a: string, rest: string)
    requires forall i :: 0 <= i < |a| ==> !IsPyWs(a[i])
    requires |rest| == 0 || IsPyWs(rest[0])
    ensures WordLength(a + rest) == |a|
  {
    if |a| > 0 {
      assert (a + rest)[1..] == a[1..] + rest;
      WordLengthOfWord(a[1..], rest);
    } else {
      assert a + rest == rest;
    }
  }

  /** Leading whitespace does not change `split()`. */
  lemma SplitWsSpace(c: char, rest: string)
    requires IsPyWs(c)
    ensures PySplitWs([c] + rest) == PySplitWs(rest)
  {
    assert ([c] + rest)[1..] == rest;
  }

  /** Java's `String.trim()`. */
  function Trim(s: string): (r: string)
    ensures |r| <= |s|
    ensures |r| > 0 ==> !IsJavaTrimmable(r[0]) && !IsJavaTrimmable(r[|r| - 1])
  {
    TrimRight(TrimLeft(s))
  }

  function TrimLeft(s: string): (r: string)
    ensures |r| <= |s| && r == s[|s| - |r|..]
    ensures |r| > 0 ==> !IsJavaTrimmable(r[0])
  {
    if |s| > 0 && IsJavaTrimmable(s[0]) then TrimLeft(s[1..]) else s
  }

  function TrimRight(s: string): (r: string)
    ensures |r| <= |s| && r == s[..|r|]
    ensures |r| > 0 ==> !IsJavaTrimmable(r[|r| - 1])
    ensures |s| > 0 && !IsJavaTrimmable(s[0]) ==> |r| > 0 && r[0] == s[0]
  {
    if |s| > 0 && IsJavaTrimmable(s[|s| - 1]) then TrimRight(s[..|s| - 1]) else s
  }

  /** Drops the empty strings at the end of a list, as Java's `split` does. */
  function DropTrailingEmpty(parts: seq<string>): (r: seq<string>)
    ensures |r| <= |parts| && r == parts[..|r|]
    ensures |r| > 0 ==> |r[|r| - 1]| > 0
    ensures forall i :: |r| <= i < |parts| ==> parts[i] == ""
  {
    if |parts| == 0 then []
    else if parts[|parts| - 1] == "" then DropTrailingEmpty(parts[..|parts| - 1])
    else parts
  }

  /**
   * Java's `s.split(sep)` for a separator that matches exactly the one
   * character c: no occurrence gives `[s]`; otherwise the pieces with the
   * trailing empty ones removed.
   */
  function JavaSplit(s: string, c: char): (r: seq<string>)
    ensures forall i :: 0 <= i < |r| ==> c !in r[i]
  {
    if c !in s then [s] else DropTrailingEmpty(PySplit(s, c))
  }

  /** Index of the first occurrence of c, or |s| when there is none. */
  function IndexOf(s: string, c: char): (k: nat)
    ensures k <= |s|
    ensures c !in s[..k]
    ensures k < |s| <==> c in s
    ensures k < |s| ==> s[k] == c
  {
    if |s| == 0 then 0 else if s[0] == c then 0 else 1 + IndexOf(s[1..], c)
  }

  /** Index of the last occurrence of c, or -1 when there is none. */
  function LastIndexOf(s: string, c: char): (k: int)
    ensures -1 <= k < |s|
    ensures k >= 0 <==> c in s
    ensures k >= 0 ==> s[k] == c && c !in s[k + 1..]
    ensures k < 0 ==> c !in s
  {
    if |s| == 0 then -1
    else if s[|s| - 1] == c then |s| - 1
    else
      var k := LastIndexOf(s[..|s| - 1], c);
      assert s == s[..|s| - 1] + [s[|s| - 1]];
      if k < 0 then -1
      else
        assert s[..|s| - 1][k + 1..] + [s[|s| - 1]] == s[k + 1..];
        k
  }

  /** ASCII lower-casing, as `str.lower()` on ASCII text. */
  function Lower(s: string): (r: string)
    ensures |r| == |s|
    ensures forall i :: 0 <= i < |s| ==> !('A' <= r[i] <= 'Z')
  {
    if |s| == 0 then ""
    else [if 'A' <= s[0] <= 'Z' then (s[0] as int + 32) as char else s[0]] + Lower(s[1..])
  }

  /** Literal `s.replace(p, q)` / Java `replace`: every non-overlapping occurrence of p, left to right. */
  function ReplaceAll(s: string, p: string, q: string): string
    requires |p| > 0
    decreases |s|
  {
    if |s| < |p| then s
    else if s[..|p|] == p then q + ReplaceAll(s[|p|..], p, q)
    else [s[0]] + ReplaceAll(s[1..], p, q)
  }

  lemma {:induction false} ReplaceAllAbsent(s: string, p: string, q: string)
    requires |p| > 0
    requires !Contains(s, p)
    ensures ReplaceAll(s, p, q) == s
    decreases |s|
  {
    if |s| >= |p| {
      ReplaceAllAbsent(s[1..], p, q);
    }
  }

  // ------------------------------------------------------------ Java's replaceAll

  /** The line terminators of Java's regular expressions, which `.` does not match. */
  predicate IsLineTerminator(c: char) {
    c == '\n' || c == '\r' || c == '\U{0085}' || c == '\U{2028}' || c == '\U{2029}'
  }

  /** One pattern character against one character: `.` stands for any character but a line terminator. */
  predicate PatternChar(pc: char, c: char) {
    if pc == '.' then !IsLineTerminator(c) else c == pc
  }

  /** The pattern p matches at the start of s. */
  predicate MatchesAt(s: string, p: string) {
    |p| <= |s| && forall i :: 0 <= i < |p| ==> PatternChar(p[i], s[i])
  }

  /** The pattern p matches somewhere in s. */
  predicate PatternOccurs(s: string, p: string)
    decreases |s|
  {
    MatchesAt(s, p) || (|s| > 0 && PatternOccurs(s[1..], p))
  }

  /**
   * Java `s.replaceAll(p, q)` for a pattern whose only metacharacter is
   * `.` and a replacement with no `$` or `\\`: every match, left to right
   * and not overlapping, replaced by q.
   */
  function PatternReplaceAll(s: string, p: string, q: string): string
    requires |p| > 0
    decreases |s|
  {
    if |s| < |p| then s
    else if MatchesAt(s, p) then q + PatternReplaceAll(s[|p|..], p, q)
    else [s[0]] + PatternReplaceAll(s[1..], p, q)
  }

  /** A pattern without `.` is its own text: replaceAll is the literal replacement. */
  lemma {:induction false} PatternLiteral(s: string, p: string, q: string)
    requires |p| > 0 && '.' !in p
    ensures PatternReplaceAll(s, p, q) == ReplaceAll(s, p, q)
    decreases |s|
  {
    if |s| >= |p| {
      assert MatchesAt(s, p) <==> s[..|p|] == p by {
        if s[..|p|] == p {
          assert forall i :: 0 <= i < |p| ==> s[i] == s[..|p|][i];
        }
        if MatchesAt(s, p) {
          assert forall i :: 0 <= i < |p| ==> p[i] != '.' && s[..|p|][i] == p[i];
        }
      }
      PatternLiteral(s[1..], p, q);
      PatternLiteral(s[|p|..], p, q);
    }
  }

  /** Where the pattern matches nowhere, nothing is replaced. */
  lemma {:induction false} PatternAbsent(s: string, p: string, q: string)
    requires |p| > 0 && !PatternOccurs(s, p)
    ensures PatternReplaceAll(s, p, q) == s
    decreases |s|
  {
    if |s| >= |p| {
      PatternAbsent(s[1..], p, q);
    }
  }

  /** A pattern matches its own text (`.` matches itself). */
  lemma MatchesSelf(s: string, p: string)
    requires |p| <= |s| && s[..|p|] == p
    ensures MatchesAt(s, p)
  {
    forall i | 0 <= i < |p|
      ensures PatternChar(p[i], s[i])
    {
      assert s[i] == s[..|p|][i];
    }
  }

  /** No match at the start of a prefix as long as the pattern: none at the start of the whole. */
  lemma NoMatchInPrefix(s: string, n: nat, p: string)
    requires |p| <= n <= |s| && !MatchesAt(s[..n], p)
    ensures !MatchesAt(s, p)
  {
    var i :| 0 <= i < |p| && !PatternChar(p[i], s[..n][i]);
    assert s[..n][i] == s[i];
  }

  /** p matching only at the very end of stem + p: that one match is replaced. */
  lemma {:induction false} PatternSuffix(stem: string, p: string, q: string)
    requires |p| > 0 && !PatternOccurs((stem + p)[..|stem| + |p| - 1], p)
    ensures PatternReplaceAll(stem + p, p, q) == stem + q
    decreases |stem|
  {
    var s := stem + p;
    if |stem| == 0 {
      assert s[..|p|] == p;
      MatchesSelf(s, p);
      assert s[|p|..] == [];
    } else {
      var t := s[..|stem| + |p| - 1];
      NoMatchInPrefix(s, |stem| + |p| - 1, p);
      assert t[1..] == (stem[1..] + p)[..|stem[1..]| + |p| - 1];
      assert s[1..] == stem[1..] + p;
      PatternSuffix(stem[1..], p, q);
      assert [stem[0]] + (stem[1..] + q) == stem + q;
    }
  }

  /** Decimal rendering of a natural number, as Java's and Python's `str` of an int. */
  function NatToString(n: nat): (r: string)
    ensures |r| > 0
    ensures forall i :: 0 <= i < |r| ==> '0' <= r[i] <= '9'
  {
    if n < 10 then [Digit(n)] else NatToString(n / 10) + [Digit(n % 10)]
  }

  function Digit(d: nat): (c: char)
    requires d < 10
    ensures '0' <= c <= '9'
  {
    ['0', '1', '2', '3', '4', '5', '6', '7', '8', '9'][d]
  }

  /** Decimal rendering of an int with a leading '-' for negatives. */
  function IntToString(n: int): (r: string)
    ensures |r| > 0
  {
    if n < 0 then "-" + NatToString(-n) else NatToString(n)
  }
  /** Python's `s.split(sep)` for a separator of several characters, left to right. */
  function SplitStr(s: string, sep: string): (r: seq<string>)
    requires |sep| > 0
    ensures |r| >= 1
    decreases |s|
  {
    if |s| < |sep| then [s]
    else if s[..|sep|] == sep then [""] + SplitStr(s[|sep|..], sep)
    else
      var rest := SplitStr(s[1..], sep);
      [[s[0]] + rest[0]] + rest[1..]
  }

  /** A text without the separator's first character is one piece. */
  lemma {:induction false} SplitStrNoSep(s: string, sep: string)
    requires |sep| > 0 && sep[0] !in s
    ensures SplitStr(s, sep) == [s]
    decreases |s|
  {
    if |s| >= |sep| {
      assert s[0] != sep[0];
      SplitStrNoSep(s[1..], sep);
      assert [s[0]] + s[1..] == s;
    }
  }

  /** A first piece without the separator's first character is split off whole. */
  lemma {:induction false} SplitStrPrefix(a: string, b: string, sep: string)
    requires |sep| > 0 && sep[0] !in a
    ensures SplitStr(a + sep + b, sep) == [a] + SplitStr(b, sep)
    decreases |a|
  {
    var s := a + sep + b;
    if |a| == 0 {
      assert s == sep + b;
      assert s[..|sep|] == sep && s[|sep|..] == b;
    } else {
      assert s[..|sep|] != sep by {
        assert s[0] == a[0];
      }
      assert s[1..] == a[1..] + sep + b;
      SplitStrPrefix(a[1..], b, sep);
      assert [a[0]] + a[1..] == a;
    }
  }

  /** Every character is an ASCII digit (and there is at least one). */
  predicate IsDigits(s: string) {
    |s| > 0 && forall i :: 0 <= i < |s| ==> '0' <= s[i] <= '9'
  }

  /** The decimal value of a string of ASCII digits. */
  function DigitsValue(s: string): (n: nat)
    requires forall i :: 0 <= i < |s| ==> '0' <= s[i] <= '9'
  {
    if |s| == 0 then 0
    else DigitsValue(s[..|s| - 1]) * 10 + (s[|s| - 1] as int - '0' as int)
  }

  /**
   * Python's `int(s)` on a decimal text: surrounding whitespace is ignored,
   * an optional sign is allowed, and anything else raises a ValueError.
   */
  function PyInt(s: string): (r: Result<int, PyError>)
    ensures r.Err? ==> r.error == ValueError
  {
    var t := Strip(s);
    if |t| > 0 && (t[0] == '-' || t[0] == '+') then
      var v: int := if IsDigits(t[1..]) then DigitsValue(t[1..]) else 0;
      if IsDigits(t[1..]) then Ok(if t[0] == '-' then -v else v)
      else Err(ValueError)
    else if IsDigits(t) then Ok(DigitsValue(t))
    else Err(ValueError)
  }

  lemma DigitValue(d: nat)
    requires d < 10
    ensures Digit(d) as int - '0' as int == d
  {
  }

  /** Reading back the decimal rendering of a natural number gives the number. */
  lemma {:induction false} DigitsOfNat(n: nat)
    ensures DigitsValue(NatToString(n)) == n
  {
    DigitValue(n % 10);
    if n >= 10 {
      DigitsOfNat(n / 10);
      var s := NatToString(n);
      assert s[..|s| - 1] == NatToString(n / 10);
    }
  }

  /** `int(str(n))` is n, with or without the line terminator after it. */
  lemma PyIntOfNat(n: nat, w: string)
    requires forall i :: 0 <= i < |w| ==> IsPyWs(w[i])
    ensures PyInt(NatToString(n) + w) == Ok(n)
  {
    var s := NatToString(n);
    StripNat(n, w);
    assert IsDigits(s) && s[0] != '-' && s[0] != '+';
    DigitsOfNat(n);
  }

  lemma StripNat(n: nat, w: string)
    requires forall i :: 0 <= i < |w| ==> IsPyWs(w[i])
    ensures Strip(NatToString(n) + w) == NatToString(n)
  {
    var s := NatToString(n);
    assert !IsPyWs(s[0]) && !IsPyWs(s[|s| - 1]);
    StripPadded("", s, w);
    assert "" + s + w == s + w;
  }
}
