/**
 * The sequence utilities of the simulator (src/utils/CellUtils.java). A
 * nucleotide is its byte id, an `int`; the id of the ANY wildcard and the
 * complement map of `BasePairs` are parameters, since that class is not part
 * of this model. A Java `byte[]` that may be null is an `Option<seq<int>>`.
 */
module CellUtils {
  import opened Wrappers

  /** `Constants.NONE` as a double, the marker of a position with no affinity. */
  const NONE_REAL: real := -1.0

  // ---------------------------------------------------------------------------
  // Reverse complement

  /** The reversed complement of s: position j holds the complement of the base at |s| - 1 - j. */
  function RevComp(comp: int -> int, s: seq<int>): (r: seq<int>)
    ensures |r| == |s|
  {
    seq(|s|, j requires 0 <= j < |s| => comp(s[|s| - 1 - j]))
  }

  /** When the complement is an involution on the bases of s, reversing the complement twice gives s back. */
  lemma RevCompTwice(comp: int -> int, s: seq<int>)
    requires forall i :: 0 <= i < |s| ==> comp(comp(s[i])) == s[i]
    ensures RevComp(comp, RevComp(comp, s)) == s
  {
    var r := RevComp(comp, RevComp(comp, s));
    forall i | 0 <= i < |s|
      ensures r[i] == s[i]
    {
      assert RevComp(comp, s)[|s| - 1 - i] == comp(s[i]);
    }
  }

  /** `getReversedComplementSequences(byte[])`: the loop fills a fresh array from the back of seq. */
  method GetReversedComplementSequences(comp: int -> int, s: seq<int>) returns (r: seq<int>)
    ensures r == RevComp(comp, s)
  {
    var revSeq := new int[|s|];
    var j := 0;
    var i := |s| - 1;
    while i >= 0
      invariant -1 <= i < |s| && j == |s| - 1 - i
      invariant forall k :: 0 <= k < j ==> revSeq[k] == comp(s[|s| - 1 - k])
    {
      revSeq[j] := comp(s[i]);
      j := j + 1;
      i := i - 1;
    }
    r := revSeq[..];
  }

  /**
   * The window the windowed overload reads: [start, start + length), except
   * that a non-positive length or a window reaching the last base falls back
   * to the whole sequence.
   */
  predicate WindowFallsBack(s: seq<int>, start: int, length: int) {
    length <= 0 || start + length >= |s|
  }

  /** `getReversedComplementSequences(seq, start, length)` as a value. */
  function RevCompWindow(comp: int -> int, s: seq<int>, start: int, length: int): (r: seq<int>)
    requires WindowFallsBack(s, start, length) || 0 <= start
    ensures WindowFallsBack(s, start, length) ==> |r| == |s|
    ensures !WindowFallsBack(s, start, length) ==> |r| == length
  {
    if WindowFallsBack(s, start, length) then RevComp(comp, s) else RevComp(comp, s[start..start + length])
  }

  /** The windowed overload: a non-positive length or a window reaching the last base means the whole sequence. */
  method GetReversedComplementWindow(comp: int -> int, s: seq<int>, start: int, length: int) returns (r: seq<int>)
    requires WindowFallsBack(s, start, length) || 0 <= start
    ensures r == RevCompWindow(comp, s, start, length)
  {
    var st := start;
    var len := length;
    if len <= 0 || st + len >= |s| {
      len := |s|;
      st := 0;
    }
    assert WindowFallsBack(s, start, length) ==> s[st..st + len] == s;
    r := RevCompSlice(comp, s, st, len);
  }

  /** The loop of the windowed overload: from the window's last base down to its first. */
  method RevCompSlice(comp: int -> int, s: seq<int>, st: nat, len: nat) returns (r: seq<int>)
    requires st + len <= |s|
    ensures r == RevComp(comp, s[st..st + len])
  {
    ghost var w := s[st..st + len];
    var revSeq := new int[len];
    var j := 0;
    var i := len + st - 1;
    while i >= st
      invariant st - 1 <= i < len + st && j == len + st - 1 - i
      invariant forall k :: 0 <= k < j ==> revSeq[k] == comp(w[len - 1 - k])
    {
      assert w[i - st] == s[i];
      revSeq[j] := comp(s[i]);
      j := j + 1;
      i := i - 1;
    }
    r := revSeq[..];
  }

  /**
   * The fallback is harmless for a window that ends at the last base: the
   * first `length` entries are still the reversed complement of the window,
   * which is all `computeTFAffinityRL` reads.
   */
  lemma RevCompWindowPrefix(comp: int -> int, s: seq<int>, start: int, length: int)
    requires 0 <= start && 0 < length && start + length <= |s|
    ensures |RevCompWindow(comp, s, start, length)| >= length
    ensures RevCompWindow(comp, s, start, length)[..length] == RevComp(comp, s[start..start + length])
  {
    var r := RevCompWindow(comp, s, start, length);
    var w := RevComp(comp, s[start..start + length]);
    forall k | 0 <= k < length
      ensures r[k] == w[k]
    {
    }
  }

  /** A window that ends at the last base falls back to the whole sequence. */
  lemma RevCompWindowAtEnd(comp: int -> int, s: seq<int>, start: int, length: int)
    requires 0 < start && 0 < length && start + length == |s|
    ensures RevCompWindow(comp, s, start, length) == RevComp(comp, s)
    ensures |RevCompWindow(comp, s, start, length)| > length
  {
  }

  // ---------------------------------------------------------------------------
  // Wildcard equality

  /**
   * `areSequencesEqual`: two sequences of the same positive length whose
   * bases agree at every position, or where either is the ANY wildcard.
   */
  predicate SequencesEqual(any: int, a: seq<int>, b: seq<int>) {
    |a| == |b| && |a| > 0 && forall i :: 0 <= i < |a| ==> a[i] == b[i] || a[i] == any || b[i] == any
  }

  /** The loop of `areSequencesEqual`, which stops at the first mismatch. */
  method AreSequencesEqual(any: int, a: seq<int>, b: seq<int>) returns (result: bool)
    ensures result == SequencesEqual(any, a, b)
  {
    result := false;
    if |a| == |b| && |a| > 0 {
      result := true;
      var i := 0;
      while i < |a| && result
        invariant 0 <= i <= |a|
        invariant result == forall k :: 0 <= k < i ==> a[k] == b[k] || a[k] == any || b[k] == any
      {
        if a[i] != b[i] && a[i] != any && b[i] != any {
          result := false;
        }
        i := i + 1;
      }
    }
  }

  /** Wildcard equality is symmetric and reflexive on non-empty sequences. */
  lemma SequencesEqualSymmetric(any: int, a: seq<int>, b: seq<int>)
    ensures SequencesEqual(any, a, b) == SequencesEqual(any, b, a)
    ensures |a| > 0 ==> SequencesEqual(any, a, a)
  {
  }

  /** An empty sequence is not equal even to itself. */
  lemma EmptyNeverEqual(any: int)
    ensures !SequencesEqual(any, [], [])
  {
  }

  /** Wildcard equality is not transitive: a wildcard matches two different bases. */
  lemma SequencesEqualNotTransitive(any: int, x: int, y: int)
    requires x != y && x != any && y != any
    ensures SequencesEqual(any, [x], [any]) && SequencesEqual(any, [any], [y])
    ensures !SequencesEqual(any, [x], [y])
  {
    assert [x][0] == x && [y][0] == y;
  }

  // ---------------------------------------------------------------------------
  // Building sequences

  /** `concatenateDNAseq`: a followed by b. */
  function ConcatenateDNAseq(a: seq<int>, b: seq<int>): (r: seq<int>)
    ensures |r| == |a| + |b| && r[..|a|] == a && r[|a|..] == b
  {
    a + b
  }

  /** `copySequence`: null for a null or empty sequence, otherwise an equal copy. */
  function CopySequence(s: Option<seq<int>>): (r: Option<seq<int>>)
    ensures r.Some? <==> s.Some? && |s.value| > 0
    ensures r.Some? ==> r.value == s.value
  {
    if s.Some? && |s.value| > 0 then Some(s.value) else None
  }

  /**
   * `extractSubSequence`: the bases of [max(0, start), min(|s|, end)), or
   * null when that range is empty.
   */
  function ExtractSubSequence(s: seq<int>, start: int, end: int): (r: Option<seq<int>>)
    ensures r.None? <==> (if end < |s| then end else |s|) <= (if start > 0 then start else 0)
    ensures r.Some? ==> 0 < |r.value| && (if start > 0 then start else 0) + |r.value| <= |s|
    ensures r.Some? ==> forall k :: 0 <= k < |r.value| ==> r.value[k] == s[(if start > 0 then start else 0) + k]
  {
    var lo := if start > 0 then start else 0;
    var hi := if end < |s| then end else |s|;
    if hi > lo then Some(s[lo..hi]) else None
  }

  /** Extracting the first part of a concatenation gives that part back. */
  lemma ExtractConcatenated(a: seq<int>, b: seq<int>)
    requires |a| > 0 && |b| > 0
    ensures ExtractSubSequence(ConcatenateDNAseq(a, b), 0, |a|) == Some(a)
    ensures ExtractSubSequence(ConcatenateDNAseq(a, b), |a|, |a| + |b|) == Some(b)
  {
    assert (a + b)[..|a|] == a;
    assert (a + b)[|a|..|a| + |b|] == b;
  }

  /**
   * The strand `replaceDNAseq` returns: when 0 < pos < |strand|, the
   * positions [pos, min(pos + |sub|, |strand|)) take the base of sub unless
   * it is the ANY wildcard; everything else is the strand's own base.
   */
  function Replaced(any: int, strand: seq<int>, sub: seq<int>, pos: int): (r: seq<int>)
    ensures |r| == |strand|
  {
    seq(|strand|, i requires 0 <= i < |strand| =>
      if 0 < pos < |strand| && pos <= i < pos + |sub| && sub[i - pos] != any then sub[i - pos] else strand[i])
  }

  /** `replaceDNAseq`: a copy of the strand (null when it is empty) with sub written from pos. */
  method ReplaceDNAseq(any: int, strand: seq<int>, sub: seq<int>, pos: int) returns (r: Option<seq<int>>)
    ensures r == if |strand| == 0 then None else Some(Replaced(any, strand, sub, pos))
  {
    if |strand| == 0 {
      return None;
    }
    var result := new int[|strand|](i requires 0 <= i < |strand| => strand[i]);
    if pos > 0 && pos < |strand| {
      var end := if pos + |sub| < |strand| then pos + |sub| else |strand|;
      var i := pos;
      while i < end
        invariant pos <= i <= end
        invariant forall k :: 0 <= k < |strand| ==>
          result[k] == if pos <= k < i && sub[k - pos] != any then sub[k - pos] else strand[k]
      {
        if sub[i - pos] != any {
          result[i] := sub[i - pos];
        }
        i := i + 1;
      }
    }
    assert result[..] == Replaced(any, strand, sub, pos);
    r := Some(result[..]);
  }

  /**
   * A sub-sequence without wildcards written strictly inside the strand is
   * read back by `extractSubSequence`, and the rest of the strand is kept.
   */
  lemma ReplaceThenExtract(any: int, strand: seq<int>, sub: seq<int>, pos: int)
    requires 0 < pos && pos + |sub| <= |strand| && |sub| > 0
    requires forall k :: 0 <= k < |sub| ==> sub[k] != any
    ensures ExtractSubSequence(Replaced(any, strand, sub, pos), pos, pos + |sub|) == Some(sub)
    ensures forall i :: 0 <= i < |strand| && !(pos <= i < pos + |sub|) ==> Replaced(any, strand, sub, pos)[i] == strand[i]
  {
    assert Replaced(any, strand, sub, pos)[pos..pos + |sub|] == sub;
  }

  /** Writing at position 0 changes nothing: the guard demands pos > 0. */
  lemma ReplaceAtZero(any: int, strand: seq<int>, sub: seq<int>)
    ensures Replaced(any, strand, sub, 0) == strand
  {
  }

  // ---------------------------------------------------------------------------
  // Affinities of a sequence motif (Gerland 2002)

  /**
   * The number of motif positions i < n that are not the wildcard and whose
   * base differs from the DNA base at at + i.
   */
  function Mismatches(any: int, dna: seq<int>, at: int, motif: seq<int>, n: nat): nat
    requires n <= |motif| && 0 <= at && at + |motif| <= |dna|
  {
    if n == 0 then 0
    else Mismatches(any, dna, at, motif, n - 1) + (if motif[n - 1] != any && dna[at + n - 1] != motif[n - 1] then 1 else 0)
  }

  /** At most every non-wildcard motif position mismatches; an exact match has none. */
  lemma {:induction false} MismatchesBounds(any: int, dna: seq<int>, at: int, motif: seq<int>, n: nat)
    requires n <= |motif| && 0 <= at && at + |motif| <= |dna|
    ensures Mismatches(any, dna, at, motif, n) <= n
    ensures (forall i :: 0 <= i < n ==> dna[at + i] == motif[i] || motif[i] == any) ==> Mismatches(any, dna, at, motif, n) == 0
    ensures Mismatches(any, dna, at, motif, n) == 0 ==> forall i :: 0 <= i < n ==> dna[at + i] == motif[i] || motif[i] == any
  {
    if n > 0 {
      MismatchesBounds(any, dna, at, motif, n - 1);
    }
  }

  /** The sum of es over the first n motif positions that mismatch, added up as the source does. */
  function Penalty(any: int, dna: seq<int>, at: int, motif: seq<int>, n: nat, es: real): real
    requires n <= |motif| && 0 <= at && at + |motif| <= |dna|
  {
    if n == 0 then 0.0
    else Penalty(any, dna, at, motif, n - 1, es) + (if motif[n - 1] != any && dna[at + n - 1] != motif[n - 1] then es else 0.0)
  }

  /** The summed penalty is the mismatch energy times the number of mismatches. */
  lemma {:induction false} PenaltyIsScaledCount(any: int, dna: seq<int>, at: int, motif: seq<int>, n: nat, es: real)
    requires n <= |motif| && 0 <= at && at + |motif| <= |dna|
    ensures Penalty(any, dna, at, motif, n, es) == es * Mismatches(any, dna, at, motif, n) as real
  {
    if n > 0 {
      PenaltyIsScaledCount(any, dna, at, motif, n - 1, es);
    }
  }

  /** `computeTFAffinityLR` (byte motif): es for every mismatching motif position. */
  method ComputeTFAffinityLR(any: int, dna: seq<int>, dnaPos: int, tf: seq<int>, sizeLeft: int, es: real) returns (sumLR: real)
    requires 0 <= dnaPos + sizeLeft && dnaPos + sizeLeft + |tf| <= |dna|
    ensures sumLR == Penalty(any, dna, dnaPos + sizeLeft, tf, |tf|, es)
  {
    sumLR := 0.0;
    var i := 0;
    while i < |tf|
      invariant 0 <= i <= |tf|
      invariant sumLR == Penalty(any, dna, dnaPos + sizeLeft, tf, i, es)
    {
      if tf[i] != any && dna[dnaPos + i + sizeLeft] != tf[i] {
        sumLR := sumLR + es;
      }
      i := i + 1;
    }
  }

  /** `computeTFAffinityRL` (byte motif): the same count against the reversed complement of the motif. */
  method ComputeTFAffinityRL(any: int, comp: int -> int, dna: seq<int>, dnaPos: int, tf: seq<int>, sizeLeft: int, es: real)
    returns (sumRL: real)
    requires 0 <= dnaPos + sizeLeft && dnaPos + sizeLeft + |tf| <= |dna|
    ensures sumRL == Penalty(any, dna, dnaPos + sizeLeft, RevComp(comp, tf), |tf|, es)
  {
    var revSeq := GetReversedComplementSequences(comp, tf);
    sumRL := 0.0;
    var i := 0;
    while i < |tf|
      invariant 0 <= i <= |tf|
      invariant sumRL == Penalty(any, dna, dnaPos + sizeLeft, revSeq, i, es)
    {
      if revSeq[i] != any && dna[dnaPos + i + sizeLeft] != revSeq[i] {
        sumRL := sumRL + es;
      }
      i := i + 1;
    }
  }

  /** The smaller of two reals, `Math.min`. */
  function Min(a: real, b: real): (r: real)
    ensures r <= a && r <= b && (r == a || r == b)
  {
    if a <= b then a else b
  }

  /** `computeTFAffinity2Way`: the smaller of the two directions' sums, computed in one loop. */
  method ComputeTFAffinity2Way(any: int, comp: int -> int, dna: seq<int>, dnaPos: int, tf: seq<int>, sizeLeft: int, es: real)
    returns (r: real)
    requires 0 <= dnaPos + sizeLeft && dnaPos + sizeLeft + |tf| <= |dna|
    ensures r == Min(Penalty(any, dna, dnaPos + sizeLeft, tf, |tf|, es),
                     Penalty(any, dna, dnaPos + sizeLeft, RevComp(comp, tf), |tf|, es))
  {
    var sumLR := 0.0;
    var sumRL := 0.0;
    var revSeq := GetReversedComplementSequences(comp, tf);
    var i := 0;
    while i < |tf|
      invariant 0 <= i <= |tf|
      invariant sumLR == Penalty(any, dna, dnaPos + sizeLeft, tf, i, es)
      invariant sumRL == Penalty(any, dna, dnaPos + sizeLeft, revSeq, i, es)
    {
      if tf[i] != any && dna[dnaPos + i + sizeLeft] != tf[i] {
        sumLR := sumLR + es;
      }
      if revSeq[i] != any && dna[dnaPos + i + sizeLeft] != revSeq[i] {
        sumRL := sumRL + es;
      }
      i := i + 1;
    }
    r := Min(sumLR, sumRL);
  }

  /**
   * With a non-negative mismatch energy the two-way affinity is zero where
   * the DNA matches the motif in either direction, and never negative.
   */
  lemma TwoWayZeroOnMatch(any: int, comp: int -> int, dna: seq<int>, at: int, tf: seq<int>, es: real)
    requires 0 <= at && at + |tf| <= |dna| && es >= 0.0
    requires forall i :: 0 <= i < |tf| ==> dna[at + i] == tf[i] || tf[i] == any
    ensures Min(Penalty(any, dna, at, tf, |tf|, es), Penalty(any, dna, at, RevComp(comp, tf), |tf|, es)) == 0.0
  {
    MismatchesBounds(any, dna, at, tf, |tf|);
    PenaltyIsScaledCount(any, dna, at, tf, |tf|, es);
    PenaltyIsScaledCount(any, dna, at, RevComp(comp, tf), |tf|, es);
    var m := Mismatches(any, dna, at, RevComp(comp, tf), |tf|) as real;
    assert 0.0 <= es * m by {
      assert 0.0 <= m;
    }
  }

  /**
   * The shared loops of every `computeTFAffinities` overload: the positions
   * a footprint of sizeTotal base pairs can start from get their score (the
   * motif, PWM, known-sequence or random value the overload computes, or 0
   * when the direction is neither 0 nor 1), the last sizeTotal - 1 get NONE.
   */
  method ComputeTFAffinities(length: nat, sizeTotal: int, score: int -> real) returns (affinities: seq<real>)
    requires 1 <= sizeTotal <= length + 1
    ensures |affinities| == length
    ensures forall i :: 0 <= i < length - sizeTotal + 1 ==> affinities[i] == score(i)
    ensures forall i :: length - sizeTotal + 1 <= i < length ==> affinities[i] == NONE_REAL
  {
    var a := new real[length];
    var last := sizeTotal - 1;
    var i := 0;
    while i < length - last
      invariant 0 <= i <= length - last
      invariant forall k :: 0 <= k < i ==> a[k] == score(k)
    {
      a[i] := score(i);
      i := i + 1;
    }
    i := length - last;
    while i < length
      invariant length - last <= i <= length
      invariant forall k :: 0 <= k < length - last ==> a[k] == score(k)
      invariant forall k :: length - last <= k < i ==> a[k] == NONE_REAL
    {
      a[i] := NONE_REAL;
      i := i + 1;
    }
    affinities := a[..];
  }

  // ---------------------------------------------------------------------------
  // Known-sequence affinities

  /**
   * The key `computeTFAffinityLR` (known sequences) looks up, as written:
   * the buffer has sizeMotif - sizeLeft bytes but the loop writes sizeMotif
   * of them, so any positive sizeLeft ends in an exception (None).
   */
  function KnownKeyAsWritten(dna: seq<int>, dnaPos: int, sizeLeft: int, sizeMotif: int): (r: Option<seq<int>>)
    requires 0 <= dnaPos + sizeLeft && dnaPos + sizeLeft + sizeMotif <= |dna| && sizeMotif >= 0 && sizeLeft >= 0
    ensures r.Some? <==> sizeLeft == 0
  {
    if sizeMotif - sizeLeft < 0 || sizeMotif > sizeMotif - sizeLeft then None
    else Some(dna[dnaPos + sizeLeft..dnaPos + sizeLeft + sizeMotif])
  }

  /** A TF with one base pair left of its motif cannot be looked up at all. */
  lemma KnownKeyCounterexample()
    ensures KnownKeyAsWritten([0, 1, 2], 0, 1, 1) == None
    ensures KnownKey([0, 1, 2], 0, 1, 1) == [1]
  {
  }

  /** The key as intended: the sizeMotif bases after the left flank. */
  function KnownKey(dna: seq<int>, dnaPos: int, sizeLeft: int, sizeMotif: int): (r: seq<int>)
    requires 0 <= dnaPos + sizeLeft && dnaPos + sizeLeft + sizeMotif <= |dna| && sizeMotif >= 0
    ensures |r| == sizeMotif && forall i :: 0 <= i < sizeMotif ==> r[i] == dna[dnaPos + sizeLeft + i]
  {
    dna[dnaPos + sizeLeft..dnaPos + sizeLeft + sizeMotif]
  }

  /** Where the written version does not fail it reads the intended key. */
  lemma KnownKeyAgrees(dna: seq<int>, dnaPos: int, sizeLeft: int, sizeMotif: int)
    requires 0 <= dnaPos + sizeLeft && dnaPos + sizeLeft + sizeMotif <= |dna| && sizeMotif >= 0 && sizeLeft >= 0
    ensures KnownKeyAsWritten(dna, dnaPos, sizeLeft, sizeMotif).Some? ==>
      KnownKeyAsWritten(dna, dnaPos, sizeLeft, sizeMotif).value == KnownKey(dna, dnaPos, sizeLeft, sizeMotif)
  {
  }

  /**
   * `computeTFAffinityLR` (known sequences) with the intended key: the
   * affinity listed for the window, or the default. The hash map is a
   * lookup function.
   */
  function KnownAffinity(lookup: seq<int> -> Option<real>, default: real,
                         dna: seq<int>, dnaPos: int, sizeLeft: int, sizeMotif: int): (r: real)
    requires 0 <= dnaPos + sizeLeft && dnaPos + sizeLeft + sizeMotif <= |dna| && sizeMotif >= 0
    ensures lookup(KnownKey(dna, dnaPos, sizeLeft, sizeMotif)).None? ==> r == default
    ensures lookup(KnownKey(dna, dnaPos, sizeLeft, sizeMotif)).Some? ==> r == lookup(KnownKey(dna, dnaPos, sizeLeft, sizeMotif)).value
  {
    match lookup(KnownKey(dna, dnaPos, sizeLeft, sizeMotif))
    case Some(v) => v
    case None => default
  }
}
