/**
 * The per-TF affinity landscape built by the post-processing script
 * (`get_affinity_from_df` and `is_opened` in utils.py).
 *
 * The landscape is a matrix with one row per TF and one column per DNA
 * position (the data frame without its position column, transposed). A
 * window of a TF with footprint s starting at position p is usable when the
 * chromatin track is fully open over [p, p + s); unusable windows are set to
 * minus infinity, every processed window is floored at the TF's threshold,
 * and the columns the footprint cannot start from are masked at the end.
 */
module PyAffinity {
  import opened Wrappers

  /** A float that may be minus infinity. */
  datatype ExtReal = NegInf | Fin(r: real)

  predicate Greater(a: ExtReal, b: ExtReal) {
    a.Fin? && (b.NegInf? || a.r > b.r)
  }

  /** Python's `max(a, b)`: b when b is greater, a otherwise. */
  function Max(a: ExtReal, b: ExtReal): (m: ExtReal)
    ensures m == a || m == b
    ensures !Greater(a, m) && !Greater(b, m)
  {
    if Greater(b, a) then b else a
  }

  function Sum(xs: seq<int>): int
  {
    if |xs| == 0 then 0 else xs[0] + Sum(xs[1..])
  }

  /** `track[lo:hi]` for 0 <= lo <= hi: the slice is cut short at the end of the track. */
  function Slice(track: seq<int>, lo: nat, hi: nat): (r: seq<int>)
    requires lo <= hi
    ensures |r| <= hi - lo
    ensures hi <= |track| ==> r == track[lo..hi]
  {
    var a := if lo < |track| then lo else |track|;
    var b := if hi < |track| then hi else |track|;
    track[a..b]
  }

  /** `is_opened(p, s, track)`: the track sums to at least s over the window. */
  predicate IsOpened(p: nat, s: nat, track: seq<int>) {
    !(Sum(Slice(track, p, p + s)) < s)
  }

  /** The start index Python gives to the slice `row[k:]` of a row of length n. */
  function PySliceStart(k: int, n: nat): (start: nat)
    ensures start <= n
  {
    if k < 0 then (if n + k < 0 then 0 else n + k) else (if k > n then n else k)
  }

  /** The threshold of TF i: the i-th entry of a threshold vector, else minus infinity. */
  function ThresholdOf(thresholds: Option<seq<ExtReal>>, i: nat): ExtReal
    requires thresholds.Some? ==> i < |thresholds.value|
  {
    if thresholds.Some? then thresholds.value[i] else NegInf
  }

  /** The value a window takes in the window loop: masked when closed, then floored. */
  function WindowValue(v: ExtReal, s: nat, j: nat, thresh: ExtReal, track: seq<int>): ExtReal
  {
    Max(if IsOpened(j, s, track) then v else NegInf, thresh)
  }

  /**
   * The final value of column j of a TF row with footprint s >= 1 in a
   * landscape of n columns, as the code computes it: the trailing slice
   * `[-s+1:]` is masked, every other column went through the window loop.
   */
  function CellValue(v: ExtReal, s: nat, j: nat, n: nat, thresh: ExtReal, track: seq<int>): ExtReal
    requires s >= 1
  {
    if j >= PySliceStart(1 - s, n) then NegInf else WindowValue(v, s, j, thresh, track)
  }

  /**
   * `get_affinity_from_df` on the transposed landscape `aff`. It fails with
   * an index error (ok = false) when there are more TFs than rows or than
   * thresholds, or when some footprint is below 1, because the window loop
   * then runs past the end of the row.
   */
  method GetAffinityFromDf(aff: array2<ExtReal>, tfSize: seq<int>, track: seq<int>,
                           thresholds: Option<seq<ExtReal>>) returns (ok: bool)
    modifies aff
    ensures ok <==>
      |tfSize| <= aff.Length0 && (thresholds.Some? ==> |tfSize| <= |thresholds.value|) &&
      forall i :: 0 <= i < |tfSize| ==> tfSize[i] >= 1
    ensures ok ==> forall i, j :: 0 <= i < |tfSize| && 0 <= j < aff.Length1 ==>
      aff[i, j] == CellValue(old(aff[i, j]), tfSize[i], j, aff.Length1, ThresholdOf(thresholds, i), track)
    ensures ok ==> forall i, j :: |tfSize| <= i < aff.Length0 && 0 <= j < aff.Length1 ==>
      aff[i, j] == old(aff[i, j])
  {
    var i := 0;
    while i < |tfSize|
      invariant 0 <= i <= |tfSize| && i <= aff.Length0 && (thresholds.Some? ==> i <= |thresholds.value|)
      invariant forall r :: 0 <= r < i ==> tfSize[r] >= 1
      invariant forall r, c :: 0 <= r < i && 0 <= c < aff.Length1 ==>
        aff[r, c] == CellValue(old(aff[r, c]), tfSize[r], c, aff.Length1, ThresholdOf(thresholds, r), track)
      invariant forall r, c :: i <= r < aff.Length0 && 0 <= c < aff.Length1 ==> aff[r, c] == old(aff[r, c])
    {
      if i == aff.Length0 || (thresholds.Some? && i == |thresholds.value|) || tfSize[i] < 1 {
        return false;
      }
      FillRow(aff, i, tfSize[i], ThresholdOf(thresholds, i), track);
      i := i + 1;
    }
    return true;
  }

  /** One TF row of `get_affinity_from_df`: the window loop, then the masked trailing slice. */
  method FillRow(aff: array2<ExtReal>, i: nat, s: nat, thresh: ExtReal, track: seq<int>)
    requires i < aff.Length0 && s >= 1
    modifies aff
    ensures forall c :: 0 <= c < aff.Length1 ==> aff[i, c] == CellValue(old(aff[i, c]), s, c, aff.Length1, thresh, track)
    ensures forall r, c :: 0 <= r < aff.Length0 && r != i && 0 <= c < aff.Length1 ==> aff[r, c] == old(aff[r, c])
  {
    WindowRow(aff, i, s, thresh, track);
    var n := aff.Length1;
    var t0 := PySliceStart(1 - s, n);
    var t := t0;
    while t < n
      invariant t0 <= t <= n
      invariant forall c :: 0 <= c < t0 ==> aff[i, c] == WindowValue(old(aff[i, c]), s, c, thresh, track)
      invariant forall c :: t0 <= c < t ==> aff[i, c] == NegInf
      invariant forall r, c :: 0 <= r < aff.Length0 && r != i && 0 <= c < n ==> aff[r, c] == old(aff[r, c])
    {
      aff[i, t] := NegInf;
      t := t + 1;
    }
  }

  /** The window loop of one TF row: the first n - s + 1 columns get their window value. */
  method WindowRow(aff: array2<ExtReal>, i: nat, s: nat, thresh: ExtReal, track: seq<int>)
    requires i < aff.Length0 && s >= 1
    modifies aff
    ensures forall c :: 0 <= c < aff.Length1 - s + 1 ==> aff[i, c] == WindowValue(old(aff[i, c]), s, c, thresh, track)
    ensures forall r, c :: 0 <= r < aff.Length0 && 0 <= c < aff.Length1 && (r != i || c >= aff.Length1 - s + 1) ==>
      aff[r, c] == old(aff[r, c])
  {
    var n := aff.Length1;
    var limit := n - s + 1;
    var j := 0;
    while j < limit
      invariant 0 <= j <= (if limit > 0 then limit else 0)
      invariant forall c :: 0 <= c < j ==> aff[i, c] == WindowValue(old(aff[i, c]), s, c, thresh, track)
      invariant forall r, c :: 0 <= r < aff.Length0 && 0 <= c < n && (r != i || c >= j) ==> aff[r, c] == old(aff[r, c])
    {
      if !IsOpened(j, s, track) {
        aff[i, j] := NegInf;
      }
      aff[i, j] := Max(aff[i, j], thresh);
      j := j + 1;
    }
  }

  // ---------------------------------------------------------------------------
  // Properties of the window test

  predicate IsBinary(track: seq<int>) {
    forall k :: 0 <= k < |track| ==> track[k] == 0 || track[k] == 1
  }

  lemma {:induction false} BinarySum(xs: seq<int>)
    requires IsBinary(xs)
    ensures 0 <= Sum(xs) <= |xs|
    ensures Sum(xs) == |xs| <==> forall k :: 0 <= k < |xs| ==> xs[k] == 1
  {
    if |xs| > 0 {
      BinarySum(xs[1..]);
      assert forall k :: 1 <= k < |xs| ==> xs[1..][k - 1] == xs[k];
    }
  }

  /**
   * On a 0/1 chromatin track a window is open exactly when it lies inside the
   * track and every position of it is 1.
   */
  lemma IsOpenedOnBinaryTrack(p: nat, s: nat, track: seq<int>)
    requires IsBinary(track) && s >= 1
    ensures IsOpened(p, s, track) <==>
      p + s <= |track| && forall k :: p <= k < p + s ==> track[k] == 1
  {
    var w := Slice(track, p, p + s);
    assert IsBinary(w);
    BinarySum(w);
    if p + s <= |track| {
      assert forall k :: 0 <= k < s ==> w[k] == track[p + k];
      assert (forall k :: p <= k < p + s ==> track[k] == 1) ==> forall k :: 0 <= k < |w| ==> w[k] == 1;
    } else {
      assert |w| < s;
    }
  }

  /** With an empty footprint the test passes anywhere, even past the end of the track. */
  lemma EmptyFootprintAlwaysOpened(p: nat, track: seq<int>)
    ensures IsOpened(p, 0, track)
  {
  }

  // ---------------------------------------------------------------------------
  // Properties of the final landscape

  /**
   * Without a threshold vector, a window inside the reachable range keeps its
   * value when the track is open over it and becomes minus infinity otherwise.
   */
  lemma NoThresholdMasksClosed(v: ExtReal, s: nat, j: nat, n: nat, track: seq<int>)
    requires s >= 1 && j < PySliceStart(1 - s, n)
    ensures CellValue(v, s, j, n, NegInf, track) == (if IsOpened(j, s, track) then v else NegInf)
  {
  }

  /** A finite threshold un-masks a closed window: it ends at the threshold, not at minus infinity. */
  lemma FiniteThresholdUnmasksClosed(v: ExtReal, s: nat, j: nat, n: nat, t: real, track: seq<int>)
    requires s >= 1 && j < PySliceStart(1 - s, n)
    requires !IsOpened(j, s, track)
    ensures CellValue(v, s, j, n, Fin(t), track) == Fin(t)
  {
  }

  /** Every final value is at least the threshold, except in the masked trailing columns. */
  lemma FlooredAtThreshold(v: ExtReal, s: nat, j: nat, n: nat, thresh: ExtReal, track: seq<int>)
    requires s >= 1
    ensures j >= PySliceStart(1 - s, n) ==> CellValue(v, s, j, n, thresh, track) == NegInf
    ensures j < PySliceStart(1 - s, n) ==> !Greater(thresh, CellValue(v, s, j, n, thresh, track))
  {
  }

  /** As written: a footprint of size 1 masks every column of its row (the slice `[0:]`). */
  lemma SizeOneMasksWholeRow(v: ExtReal, j: nat, n: nat, thresh: ExtReal, track: seq<int>)
    requires j < n
    ensures CellValue(v, 1, j, n, thresh, track) == NegInf
  {
  }

  /** As written, a size-1 TF whose window is open and finite still ends at minus infinity. */
  lemma SizeOneCounterexample()
    ensures WindowValue(Fin(1.0), 1, 0, NegInf, [1]) == Fin(1.0)
    ensures CellValue(Fin(1.0), 1, 0, 1, NegInf, [1]) == NegInf
  {
    assert Slice([1], 0, 1) == [1];
  }

  /**
   * The evident intent of the trailing mask: mask exactly the last s - 1
   * columns, the positions from which a footprint of size s would run past
   * the end of the row.
   */
  function IntendedCellValue(v: ExtReal, s: nat, j: nat, n: nat, thresh: ExtReal, track: seq<int>): ExtReal
    requires s >= 1
  {
    if j + s > n then NegInf else WindowValue(v, s, j, thresh, track)
  }

  /** With the intended mask, a column is minus infinity exactly when no footprint fits or the window is masked. */
  lemma IntendedMaskExact(v: ExtReal, s: nat, j: nat, n: nat, thresh: ExtReal, track: seq<int>)
    requires s >= 1 && j < n
    ensures j + s <= n ==>
      (IntendedCellValue(v, s, j, n, thresh, track) == Max(if IsOpened(j, s, track) then v else NegInf, thresh))
    ensures j + s > n ==> IntendedCellValue(v, s, j, n, thresh, track) == NegInf
    ensures s == 1 ==> IntendedCellValue(v, s, j, n, thresh, track) == WindowValue(v, s, j, thresh, track)
  {
  }

  /** The code and the intended mask agree for every footprint of size 2 or more. */
  lemma AsWrittenMatchesIntendedFromSizeTwo(v: ExtReal, s: nat, j: nat, n: nat, thresh: ExtReal, track: seq<int>)
    requires s >= 2
    ensures CellValue(v, s, j, n, thresh, track) == IntendedCellValue(v, s, j, n, thresh, track)
  {
  }
}
