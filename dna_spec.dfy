/**
 * The discrete state of the simulated DNA strand (src/objects/DNA.java) as
 * values: which molecule occupies each base pair, the chromatin state of
 * each base pair, and the per-species availability of binding positions.
 * The DNA class in `Dna` is specified by these functions.
 */
module DnaSpec {
  import opened Wrappers

  /** The chromatin state of one base pair: BP_IS_OPEN, BP_IS_CLOSED or BP_IS_REPRESSED. */
  datatype BpState = Open | Closed | Repressed

  /** The sequence with the cells in [lo, hi) set to v; cells outside the sequence are ignored. */
  function Fill<T>(s: seq<T>, v: T, lo: int, hi: int): seq<T> {
    seq(|s|, i requires 0 <= i < |s| => if lo <= i < hi then v else s[i])
  }

  /** Filling a window twice with the same value is filling it once. */
  lemma FillIdempotent<T>(s: seq<T>, v: T, lo: int, hi: int)
    ensures Fill(Fill(s, v, lo, hi), v, lo, hi) == Fill(s, v, lo, hi)
  {
  }

  /**
   * Occupying a free window and freeing it again gives back the occupancy
   * vector: `occupyDNA` followed by `freeDNA` on the same window.
   */
  lemma OccupyThenFree(occ: seq<int>, id: int, pos: int, size: int)
    requires forall i :: 0 <= i < |occ| && pos <= i < pos + size ==> occ[i] == NONE
    ensures Fill(Fill(occ, id, pos, pos + size), NONE, pos, pos + size) == occ
  {
  }

  /**
   * A slide to the right by step ≤ size of a molecule occupying
   * [pos, pos + size): occupying [pos + size, pos + size + step) and freeing
   * [pos, pos + step) leaves exactly [pos + step, pos + size + step) occupied
   * by it, and nothing else changes.
   */
  lemma SlideRightShiftsBlock(occ: seq<int>, id: int, pos: int, size: int, step: nat)
    requires 0 <= pos && pos + size + step <= |occ| && step <= size
    requires forall i :: pos <= i < pos + size ==> occ[i] == id
    ensures var r := Fill(Fill(occ, id, pos + size, pos + size + step), NONE, pos, pos + step);
      (forall i :: pos + step <= i < pos + size + step ==> r[i] == id) &&
      (forall i :: pos <= i < pos + step ==> r[i] == NONE) &&
      (forall i :: 0 <= i < |occ| && !(pos <= i < pos + size + step) ==> r[i] == occ[i])
  {
  }

  /** The mirror image for a slide to the left by step ≤ size. */
  lemma SlideLeftShiftsBlock(occ: seq<int>, id: int, pos: int, size: int, step: nat)
    requires 0 <= pos - step && pos + size <= |occ| && step <= size
    requires forall i :: pos <= i < pos + size ==> occ[i] == id
    ensures var r := Fill(Fill(occ, id, pos - step, pos), NONE, pos + size - step, pos + size);
      (forall i :: pos - step <= i < pos + size - step ==> r[i] == id) &&
      (forall i :: pos + size - step <= i < pos + size ==> r[i] == NONE) &&
      (forall i :: 0 <= i < |occ| && !(pos - step <= i < pos + size) ==> r[i] == occ[i])
  {
  }

  /** `getBoundProtein`: the first occupant of [lo, hi), or NONE when the window is free. */
  function FirstOccupant(occ: seq<int>, lo: nat, hi: nat): int
    requires lo <= hi <= |occ|
    decreases hi - lo
  {
    if lo == hi then NONE
    else if occ[lo] != NONE then occ[lo]
    else FirstOccupant(occ, lo + 1, hi)
  }

  /**
   * The first occupant is NONE exactly when the window is free; otherwise
   * it occupies some base pair of the window and everything before that
   * base pair is free.
   */
  lemma {:induction false} FirstOccupantIsFirst(occ: seq<int>, lo: nat, hi: nat)
    requires lo <= hi <= |occ|
    ensures FirstOccupant(occ, lo, hi) == NONE <==> forall i :: lo <= i < hi ==> occ[i] == NONE
    ensures FirstOccupant(occ, lo, hi) != NONE ==>
      exists k :: lo <= k < hi && occ[k] == FirstOccupant(occ, lo, hi) && forall i :: lo <= i < k ==> occ[i] == NONE
    decreases hi - lo
  {
    if lo < hi && occ[lo] == NONE {
      FirstOccupantIsFirst(occ, lo + 1, hi);
      if FirstOccupant(occ, lo, hi) != NONE {
        var k :| lo + 1 <= k < hi && occ[k] == FirstOccupant(occ, lo, hi) && forall i :: lo + 1 <= i < k ==> occ[i] == NONE;
        assert forall i :: lo <= i < k ==> occ[i] == NONE;
      }
    }
  }

  /** `checkAvailability`: the first state other than open in [lo, hi), or Open. */
  function FirstNotOpen(cl: seq<BpState>, lo: nat, hi: nat): BpState
    requires lo <= hi <= |cl|
    decreases hi - lo
  {
    if lo == hi then Open
    else if cl[lo] != Open then cl[lo]
    else FirstNotOpen(cl, lo + 1, hi)
  }

  /** The first state other than open is Open exactly when the whole window is open. */
  lemma {:induction false} FirstNotOpenIsFirst(cl: seq<BpState>, lo: nat, hi: nat)
    requires lo <= hi <= |cl|
    ensures FirstNotOpen(cl, lo, hi) == Open <==> forall i :: lo <= i < hi ==> cl[i] == Open
    decreases hi - lo
  {
    if lo < hi && cl[lo] == Open {
      FirstNotOpenIsFirst(cl, lo + 1, hi);
    }
  }

  /** `updateLeftBoundary`: `Math.max(0, start)`, the nearest index not left of the strand. */
  function ClampLow(start: int): (r: nat)
    ensures r >= start && (start >= 0 ==> r == start) && (start < 0 ==> r == 0)
  {
    if start < 0 then 0 else start
  }

  /** `updateRightBoundary`: `Math.min(end, length - 1)`, the nearest index not right of the strand. */
  function ClampHigh(end: int, length: nat): (r: int)
    ensures r <= end && r <= length - 1 && (r == end || r == length - 1)
  {
    if end < length - 1 then end else length - 1
  }

  /**
   * `findLastClosedBP`: the last index of [max(0, start), min(end, length-1)]
   * whose state is not open, or NONE.
   */
  function LastClosed(cl: seq<BpState>, start: int, end: int): (r: int)
    ensures r == NONE || (ClampLow(start) <= r <= ClampHigh(end, |cl|) && cl[r] != Open)
    decreases end - start
  {
    var hi := ClampHigh(end, |cl|);
    if hi < ClampLow(start) then NONE
    else if cl[hi] != Open then hi
    else LastClosed(cl, start, hi - 1)
  }

  /** The index found is the last one that is not open; NONE means the clamped window is open. */
  lemma {:induction false} LastClosedIsLast(cl: seq<BpState>, start: int, end: int)
    ensures LastClosed(cl, start, end) != NONE ==>
      forall i :: LastClosed(cl, start, end) < i <= ClampHigh(end, |cl|) ==> cl[i] == Open
    ensures LastClosed(cl, start, end) == NONE <==> forall i :: ClampLow(start) <= i <= ClampHigh(end, |cl|) ==> cl[i] == Open
    decreases end - start
  {
    var hi := ClampHigh(end, |cl|);
    if ClampLow(start) <= hi && cl[hi] == Open {
      LastClosedIsLast(cl, start, hi - 1);
    }
  }

  /**
   * `findFirstClosedBP`: the first index of [max(0, start), min(end, length-1)]
   * whose state is not open, or NONE.
   */
  function FirstClosed(cl: seq<BpState>, start: int, end: int): (r: int)
    ensures r == NONE || (ClampLow(start) <= r <= ClampHigh(end, |cl|) && cl[r] != Open)
    decreases end - start
  {
    var lo := ClampLow(start);
    if ClampHigh(end, |cl|) < lo then NONE
    else if cl[lo] != Open then lo
    else FirstClosed(cl, lo + 1, end)
  }

  /** The index found is the first one that is not open; NONE means the clamped window is open. */
  lemma {:induction false} FirstClosedIsFirst(cl: seq<BpState>, start: int, end: int)
    ensures FirstClosed(cl, start, end) != NONE ==>
      forall i :: ClampLow(start) <= i < FirstClosed(cl, start, end) ==> cl[i] == Open
    ensures FirstClosed(cl, start, end) == NONE <==> forall i :: ClampLow(start) <= i <= ClampHigh(end, |cl|) ==> cl[i] == Open
    decreases end - start
  {
    var lo := ClampLow(start);
    if lo <= ClampHigh(end, |cl|) && cl[lo] == Open {
      FirstClosedIsFirst(cl, lo + 1, end);
    }
  }

  /**
   * `findLastBoundMolecule`: scanning down from min(end, length-1) to
   * max(0, start), the first occupant met and the index one below it; when
   * every cell is free, NONE and the index where the scan stopped.
   */
  function LastBound(occ: seq<int>, start: int, end: int): (r: (int, int))
    ensures r.0 != NONE ==> ClampLow(start) <= r.1 + 1 <= ClampHigh(end, |occ|) && occ[r.1 + 1] == r.0
    decreases end - start
  {
    var hi := ClampHigh(end, |occ|);
    if hi < ClampLow(start) then (NONE, hi)
    else if occ[hi] != NONE then (occ[hi], hi - 1)
    else LastBound(occ, start, hi - 1)
  }

  /**
   * The molecule found is the last one in the clamped window: every base
   * pair after the index it was met at is free; NONE means the window is free.
   */
  lemma {:induction false} LastBoundIsLast(occ: seq<int>, start: int, end: int)
    ensures LastBound(occ, start, end).0 != NONE ==>
      forall i :: LastBound(occ, start, end).1 + 1 < i <= ClampHigh(end, |occ|) ==> occ[i] == NONE
    ensures LastBound(occ, start, end).0 == NONE <==> forall i :: ClampLow(start) <= i <= ClampHigh(end, |occ|) ==> occ[i] == NONE
    decreases end - start
  {
    var hi := ClampHigh(end, |occ|);
    if ClampLow(start) <= hi && occ[hi] == NONE {
      LastBoundIsLast(occ, start, hi - 1);
    }
  }

  /**
   * `findFirstBoundMolecule`: scanning up from max(0, start) to
   * min(end, length-1), the first occupant met and the index one above it.
   */
  function FirstBound(occ: seq<int>, start: int, end: int): (r: (int, int))
    ensures r.0 != NONE ==> ClampLow(start) <= r.1 - 1 <= ClampHigh(end, |occ|) && occ[r.1 - 1] == r.0
    decreases end - start
  {
    var lo := ClampLow(start);
    if ClampHigh(end, |occ|) < lo then (NONE, lo)
    else if occ[lo] != NONE then (occ[lo], lo + 1)
    else FirstBound(occ, lo + 1, end)
  }

  /**
   * The molecule found is the first one in the clamped window: every base
   * pair before the index it was met at is free; NONE means the window is free.
   */
  lemma {:induction false} FirstBoundIsFirst(occ: seq<int>, start: int, end: int)
    ensures FirstBound(occ, start, end).0 != NONE ==>
      forall i :: ClampLow(start) <= i < FirstBound(occ, start, end).1 - 1 ==> occ[i] == NONE
    ensures FirstBound(occ, start, end).0 == NONE <==> forall i :: ClampLow(start) <= i <= ClampHigh(end, |occ|) ==> occ[i] == NONE
    decreases end - start
  {
    var lo := ClampLow(start);
    if lo <= ClampHigh(end, |occ|) && occ[lo] == NONE {
      FirstBoundIsFirst(occ, lo + 1, end);
    }
  }

  /** `repressDNA`: the open base pairs of [l, r] become repressed. */
  function RepressState(cl: seq<BpState>, l: int, r: int): seq<BpState> {
    seq(|cl|, i requires 0 <= i < |cl| => if l <= i <= r && cl[i] == Open then Repressed else cl[i])
  }

  /** `derepressDNA`: the repressed base pairs of [l, r] become open. */
  function DerepressState(cl: seq<BpState>, l: int, r: int): seq<BpState> {
    seq(|cl|, i requires 0 <= i < |cl| => if l <= i <= r && cl[i] == Repressed then Open else cl[i])
  }

  /** One step of the loop of `repressDNA`. */
  lemma RepressStep(cl: seq<BpState>, l: int, pos: nat)
    requires l <= pos < |cl|
    ensures RepressState(cl, l, pos) == RepressState(cl, l, pos - 1)[pos := if cl[pos] == Open then Repressed else cl[pos]]
  {
  }

  /** One step of the loop of `derepressDNA`. */
  lemma DerepressStep(cl: seq<BpState>, l: int, pos: nat)
    requires l <= pos < |cl|
    ensures DerepressState(cl, l, pos) == DerepressState(cl, l, pos - 1)[pos := if cl[pos] == Repressed then Open else cl[pos]]
  {
  }

  /** An empty window changes nothing. */
  lemma RepressEmpty(cl: seq<BpState>, l: int)
    ensures RepressState(cl, l, l - 1) == cl && DerepressState(cl, l, l - 1) == cl
  {
  }

  /** Repression only turns open base pairs into repressed ones, inside [l, r]. */
  lemma RepressTouchesOnlyOpen(cl: seq<BpState>, l: int, r: int)
    ensures |RepressState(cl, l, r)| == |cl|
    ensures forall i :: 0 <= i < |cl| && RepressState(cl, l, r)[i] != cl[i] ==>
      l <= i <= r && cl[i] == Open && RepressState(cl, l, r)[i] == Repressed
  {
  }

  /** Derepressing what was repressed restores a window that held no repressed base pair. */
  lemma DerepressUndoesRepress(cl: seq<BpState>, l: int, r: int)
    requires forall i :: 0 <= i < |cl| && l <= i <= r ==> cl[i] != Repressed
    ensures DerepressState(RepressState(cl, l, r), l, r) == cl
  {
  }

  /** The number of base pairs of [0, n) in state st. */
  function CountState(cl: seq<BpState>, st: BpState, n: nat): nat
    requires n <= |cl|
  {
    if n == 0 then 0 else CountState(cl, st, n - 1) + (if cl[n - 1] == st then 1 else 0)
  }

  /** The number of base pairs of [0, n) that lie in [l, r] and are in state st. */
  function CountStateIn(cl: seq<BpState>, st: BpState, l: int, r: int, n: nat): nat
    requires n <= |cl|
  {
    if n == 0 then 0 else CountStateIn(cl, st, l, r, n - 1) + (if l <= n - 1 <= r && cl[n - 1] == st then 1 else 0)
  }

  /**
   * Repression raises the number of repressed base pairs by exactly the
   * number of open base pairs in the window, which is what
   * `currentRepressedLength` counts.
   */
  lemma {:induction false} RepressCount(cl: seq<BpState>, l: int, r: int, n: nat)
    requires n <= |cl|
    ensures CountState(RepressState(cl, l, r), Repressed, n) == CountState(cl, Repressed, n) + CountStateIn(cl, Open, l, r, n)
  {
    if n > 0 {
      RepressCount(cl, l, r, n - 1);
    }
  }

  /** Derepression lowers the repressed count by the number of repressed base pairs in the window. */
  lemma {:induction false} DerepressCount(cl: seq<BpState>, l: int, r: int, n: nat)
    requires n <= |cl|
    ensures CountState(DerepressState(cl, l, r), Repressed, n) == CountState(cl, Repressed, n) - CountStateIn(cl, Repressed, l, r, n)
    ensures CountStateIn(cl, Repressed, l, r, n) <= CountState(cl, Repressed, n)
  {
    if n > 0 {
      DerepressCount(cl, l, r, n - 1);
    }
  }

  // ---------------------------------------------------------------------------
  // Availability of binding positions for one species

  /** The number of available positions in [0, n) of a species' row. */
  function CountTrue(row: seq<bool>, n: nat): nat
    requires n <= |row|
  {
    if n == 0 then 0 else CountTrue(row, n - 1) + (if row[n - 1] then 1 else 0)
  }

  /** The number of available positions in [0, n) that lie in sector k. */
  function CountSector(row: seq<bool>, sector: seq<nat>, k: nat, n: nat): nat
    requires n <= |row| && |sector| == |row|
  {
    if n == 0 then 0 else CountSector(row, sector, k, n - 1) + (if row[n - 1] && sector[n - 1] == k then 1 else 0)
  }

  /** A row with no available position counts zero, in total and in every sector. */
  lemma {:induction false} CountAllFalse(row: seq<bool>, sector: seq<nat>, k: nat, n: nat)
    requires n <= |row| && |sector| == |row| && forall i :: 0 <= i < |row| ==> !row[i]
    ensures CountTrue(row, n) == 0 && CountSector(row, sector, k, n) == 0
  {
    if n > 0 {
      CountAllFalse(row, sector, k, n - 1);
    }
  }

  /** Changing one position of a row changes its count by at most one, in the obvious direction. */
  lemma {:induction false} CountTrueUpdate(row: seq<bool>, j: nat, v: bool, n: nat)
    requires j < |row| && n <= |row|
    ensures CountTrue(row[j := v], n) ==
      CountTrue(row, n) + (if j < n && v && !row[j] then 1 else 0) - (if j < n && !v && row[j] then 1 else 0)
  {
    if n > 0 {
      CountTrueUpdate(row, j, v, n - 1);
    }
  }

  /** The same for the count of one sector, which moves only when j lies in that sector. */
  lemma {:induction false} CountSectorUpdate(row: seq<bool>, sector: seq<nat>, k: nat, j: nat, v: bool, n: nat)
    requires j < |row| && n <= |row| && |sector| == |row|
    ensures CountSector(row[j := v], sector, k, n) ==
      CountSector(row, sector, k, n)
      + (if j < n && sector[j] == k && v && !row[j] then 1 else 0)
      - (if j < n && sector[j] == k && !v && row[j] then 1 else 0)
  {
    if n > 0 {
      CountSectorUpdate(row, sector, k, j, v, n - 1);
    }
  }

  /** The sector counts of a row add up to its count. */
  lemma {:induction false} SectorsAddUp(row: seq<bool>, sector: seq<nat>, sectors: nat, n: nat)
    requires n <= |row| && |sector| == |row|
    requires forall j :: 0 <= j < |sector| ==> sector[j] < sectors
    ensures SumSectors(row, sector, sectors, n) == CountTrue(row, n)
  {
    if n > 0 {
      SectorsAddUp(row, sector, sectors, n - 1);
      SumSectorsStep(row, sector, sectors, n);
    } else {
      SumSectorsEmpty(row, sector, sectors);
    }
  }

  lemma {:induction false} SumSectorsEmpty(row: seq<bool>, sector: seq<nat>, sectors: nat)
    requires |sector| == |row|
    ensures SumSectors(row, sector, sectors, 0) == 0
  {
    if sectors > 0 {
      SumSectorsEmpty(row, sector, sectors - 1);
    }
  }

  /** The sum over the sectors k < sectors of the counts of [0, n). */
  function SumSectors(row: seq<bool>, sector: seq<nat>, sectors: nat, n: nat): nat
    requires n <= |row| && |sector| == |row|
  {
    if sectors == 0 then 0 else SumSectors(row, sector, sectors - 1, n) + CountSector(row, sector, sectors - 1, n)
  }

  lemma {:induction false} SumSectorsStep(row: seq<bool>, sector: seq<nat>, sectors: nat, n: nat)
    requires 0 < n <= |row| && |sector| == |row|
    ensures SumSectors(row, sector, sectors, n) ==
      SumSectors(row, sector, sectors, n - 1) + (if row[n - 1] && sector[n - 1] < sectors then 1 else 0)
  {
    if sectors > 0 {
      SumSectorsStep(row, sector, sectors - 1, n);
    }
  }

  /** Setting one more cell of a filled window: the window grows by one. */
  lemma FillStep<T>(s: seq<T>, v: T, lo: int, j: nat)
    requires lo <= j < |s|
    ensures Fill(s, v, lo, j + 1) == Fill(s, v, lo, j)[j := v]
  {
  }

  /**
   * The window `freeDNA` and `openDNA` walk, [max(0, lo), min(hi, |s|)),
   * or nothing when that is empty, fills the same cells as [lo, hi).
   */
  lemma FillClamped<T>(s: seq<T>, v: T, lo: int, hi: int, i: int)
    requires i == ClampLow(lo) || i == (if hi < |s| then hi else |s|)
    requires i >= ClampLow(lo) && i >= (if hi < |s| then hi else |s|)
    ensures Fill(s, v, ClampLow(lo), i) == Fill(s, v, lo, hi)
  {
  }

  /** A window that ends after the strand fills the same cells as the clamped one. */
  lemma FillClampHigh<T>(s: seq<T>, v: T, lo: int, hi: int)
    ensures Fill(s, v, lo, hi) == Fill(s, v, lo, if hi < |s| then hi else |s|)
  {
  }

  /** The window `recomputeTFAffinityLandscapeOnTFSlideRight` clears, clamped to the strand as it is walked. */
  lemma FillRightWindow<T>(s: seq<T>, v: T, a: nat, step: nat)
    ensures var lo := if a < |s| then a else |s|;
      Fill(s, v, lo, if lo + step < |s| then lo + step else |s|) == Fill(s, v, a, a + step)
  {
  }

  /** A window that starts before the strand fills the same cells as the clamped one. */
  lemma FillClampLow<T>(s: seq<T>, v: T, lo: int, hi: int)
    ensures Fill(s, v, lo, hi) == Fill(s, v, ClampLow(lo), hi)
  {
  }

  // ---------------------------------------------------------------------------
  // Re-opening and closing positions of a species' availability row

  /**
   * The re-opening loops: every position of [lo, hi) whose base pair is open
   * becomes available; nothing becomes unavailable.
   */
  function Reopened(row: seq<bool>, cl: seq<BpState>, lo: int, hi: int): (r: seq<bool>)
    requires |cl| == |row|
    ensures |r| == |row|
    ensures forall j :: 0 <= j < |row| && r[j] != row[j] ==> !row[j] && lo <= j < hi && cl[j] == Open
  {
    seq(|row|, j requires 0 <= j < |row| => row[j] || (lo <= j < hi && cl[j] == Open))
  }

  lemma ReopenedStep(row: seq<bool>, cl: seq<BpState>, lo: int, j: nat)
    requires |cl| == |row| && lo <= j < |row|
    ensures Reopened(row, cl, lo, j + 1) ==
      if cl[j] == Open then Reopened(row, cl, lo, j)[j := true] else Reopened(row, cl, lo, j)
  {
  }

  lemma ReopenedPast(row: seq<bool>, cl: seq<BpState>, lo: int, hi: int, j: int)
    requires |cl| == |row| && hi <= |row| && (j == lo || j == hi) && j >= lo && j >= hi
    ensures Reopened(row, cl, lo, j) == Reopened(row, cl, lo, hi)
  {
  }

  lemma ReopenedEmpty(row: seq<bool>, cl: seq<BpState>, lo: int)
    requires |cl| == |row|
    ensures Reopened(row, cl, lo, lo) == row
  {
  }

  /**
   * The base pairs `recomputeTFAffinityLandscapeForClosedRegions` (not open)
   * or `...ForRepressedRegions` (repressed) looks for.
   */
  predicate Blocks(b: BpState, repressedOnly: bool) {
    if repressedOnly then b == Repressed else b != Open
  }

  /**
   * Position j of a species of footprint t is blocked by [lo, hi) when some
   * base pair p of [lo, hi) under the footprint [j, j + t) blocks.
   */
  predicate BlockedNear(cl: seq<BpState>, repressedOnly: bool, t: nat, lo: int, hi: int, j: int) {
    exists p :: lo <= p < hi && 0 <= p < |cl| && j <= p < j + t && Blocks(cl[p], repressedOnly)
  }

  /** The row after every blocking base pair of [lo, hi) has made the footprints over it unavailable. */
  function Cleared(row: seq<bool>, cl: seq<BpState>, repressedOnly: bool, t: nat, lo: int, hi: int): (r: seq<bool>)
    requires |cl| == |row|
    ensures |r| == |row|
  {
    seq(|row|, j requires 0 <= j < |row| => row[j] && !BlockedNear(cl, repressedOnly, t, lo, hi, j))
  }

  lemma ClearedEmpty(row: seq<bool>, cl: seq<BpState>, repressedOnly: bool, t: nat, lo: int)
    requires |cl| == |row|
    ensures Cleared(row, cl, repressedOnly, t, lo, lo) == row
  {
  }

  lemma ClearedPast(row: seq<bool>, cl: seq<BpState>, repressedOnly: bool, t: nat, lo: int, hi: int, j: int)
    requires |cl| == |row| && hi <= |row| && (j == lo || j == hi) && j >= lo && j >= hi
    ensures Cleared(row, cl, repressedOnly, t, lo, j) == Cleared(row, cl, repressedOnly, t, lo, hi)
  {
    forall i | 0 <= i < |row|
      ensures BlockedNear(cl, repressedOnly, t, lo, j, i) == BlockedNear(cl, repressedOnly, t, lo, hi, i)
    {
      if BlockedNear(cl, repressedOnly, t, lo, j, i) {
        var p :| lo <= p < j && 0 <= p < |cl| && i <= p < i + t && Blocks(cl[p], repressedOnly);
      }
    }
  }

  /** Passing over base pairs that do not block clears nothing more. */
  lemma ClearedSkip(row: seq<bool>, cl: seq<BpState>, repressedOnly: bool, t: nat, lo: int, a: int, b: int)
    requires |cl| == |row| && lo <= a <= b
    requires forall p :: a <= p < b && 0 <= p < |cl| ==> !Blocks(cl[p], repressedOnly)
    ensures Cleared(row, cl, repressedOnly, t, lo, b) == Cleared(row, cl, repressedOnly, t, lo, a)
  {
    forall j | 0 <= j < |row|
      ensures BlockedNear(cl, repressedOnly, t, lo, b, j) == BlockedNear(cl, repressedOnly, t, lo, a, j)
    {
      if BlockedNear(cl, repressedOnly, t, lo, b, j) {
        var p :| lo <= p < b && 0 <= p < |cl| && j <= p < j + t && Blocks(cl[p], repressedOnly);
        assert p < a;
      }
    }
  }

  /**
   * `closeRegionInAffinityLandscape(a, b)` over a run [a, b) of blocking base
   * pairs clears exactly the footprints the run blocks.
   */
  lemma ClearedRun(row: seq<bool>, cl: seq<BpState>, repressedOnly: bool, t: nat, lo: int, a: int, b: int)
    requires |cl| == |row| && 0 <= lo <= a < b <= |cl| && t >= 1
    requires forall p :: a <= p < b ==> Blocks(cl[p], repressedOnly)
    ensures Fill(Cleared(row, cl, repressedOnly, t, lo, a), false, a - t + 1, b) == Cleared(row, cl, repressedOnly, t, lo, b)
  {
    var left := Fill(Cleared(row, cl, repressedOnly, t, lo, a), false, a - t + 1, b);
    var right := Cleared(row, cl, repressedOnly, t, lo, b);
    forall j | 0 <= j < |row|
      ensures left[j] == right[j]
    {
      if a - t + 1 <= j < b {
        var p := if j < a then a else j;
        assert lo <= p < b && j <= p < j + t && Blocks(cl[p], repressedOnly);
        assert BlockedNear(cl, repressedOnly, t, lo, b, j);
      } else if BlockedNear(cl, repressedOnly, t, lo, b, j) {
        var p :| lo <= p < b && 0 <= p < |cl| && j <= p < j + t && Blocks(cl[p], repressedOnly);
        assert p < a;
        assert BlockedNear(cl, repressedOnly, t, lo, a, j);
      }
    }
  }

  /**
   * What the unbinding update leaves: a position that became available has
   * an open base pair, and no repressed base pair of the scanned stretch
   * lies under its footprint.
   */
  lemma ReopenThenClearRepressed(row: seq<bool>, cl: seq<BpState>, t: nat, lo: int, hi: int, j: nat)
    requires |cl| == |row| && j < |row|
    requires Cleared(Reopened(row, cl, lo, hi), cl, true, t, lo, hi + t - 1)[j] && !row[j]
    ensures lo <= j < hi && cl[j] == Open
    ensures forall p :: j <= p < j + t && lo <= p < hi + t - 1 && p < |cl| ==> cl[p] != Repressed
  {
    var reopened := Reopened(row, cl, lo, hi);
    assert reopened[j];
    assert !BlockedNear(cl, true, t, lo, hi + t - 1, j);
  }

  /** Clearing never makes a position available. */
  lemma ClearedOnlyClears(row: seq<bool>, cl: seq<BpState>, repressedOnly: bool, t: nat, lo: int, hi: int, j: nat)
    requires |cl| == |row| && j < |row|
    requires Cleared(row, cl, repressedOnly, t, lo, hi)[j]
    ensures row[j]
  {
  }

  /** The number of base pairs of [0, n) that lie in [l, r] and are in state st grows by the one at r + 1. */
  lemma {:induction false} CountStateInStep(cl: seq<BpState>, st: BpState, l: int, r: int, n: nat)
    requires n <= |cl| && l <= r + 1 && 0 <= r + 1 < n
    ensures CountStateIn(cl, st, l, r + 1, n) == CountStateIn(cl, st, l, r, n) + (if cl[r + 1] == st then 1 else 0)
  {
    if n - 1 != r + 1 {
      CountStateInStep(cl, st, l, r, n - 1);
    } else {
      CountStateInBelow(cl, st, l, r, n - 1);
    }
  }

  /** Widening the window past the counted prefix changes nothing. */
  lemma {:induction false} CountStateInBelow(cl: seq<BpState>, st: BpState, l: int, r: int, n: nat)
    requires n <= |cl| && n <= r + 1
    ensures CountStateIn(cl, st, l, r + 1, n) == CountStateIn(cl, st, l, r, n)
  {
    if n > 0 {
      CountStateInBelow(cl, st, l, r, n - 1);
    }
  }

  /** An empty window holds no base pair. */
  lemma {:induction false} CountStateInEmpty(cl: seq<BpState>, st: BpState, l: int, r: int, n: nat)
    requires n <= |cl| && r < l
    ensures CountStateIn(cl, st, l, r, n) == 0
  {
    if n > 0 {
      CountStateInEmpty(cl, st, l, r, n - 1);
    }
  }

  /** No base pair of an all-open strand is repressed. */
  lemma {:induction false} CountStateNone(cl: seq<BpState>, st: BpState, n: nat)
    requires n <= |cl| && forall i :: 0 <= i < |cl| ==> cl[i] != st
    ensures CountState(cl, st, n) == 0
  {
    if n > 0 {
      CountStateNone(cl, st, n - 1);
    }
  }

  /** A row with no available position counts zero, overall and in every sector. */
  lemma {:induction false} CountNone(row: seq<bool>, sector: seq<nat>, k: nat, n: nat)
    requires n <= |row| && |sector| == |row| && forall j :: 0 <= j < |row| ==> !row[j]
    ensures CountTrue(row, n) == 0 && CountSector(row, sector, k, n) == 0
  {
    if n > 0 {
      CountNone(row, sector, k, n - 1);
    }
  }

  // ---------------------------------------------------------------------------
  // Binding and sliding decisions

  /**
   * `canBind`: NONE outside the strand; otherwise id, unless occupancy is
   * checked and the window holds a molecule (its first occupant) or a base
   * pair that is not open (NONE).
   */
  function CanBindResult(occ: seq<int>, cl: seq<BpState>, id: int, position: int, size: nat, check: bool): int
    requires |cl| == |occ|
  {
    if position < 0 || position > |occ| - size then NONE
    else if !check then id
    else
      var b := FirstOccupant(occ, position, position + size);
      if b == NONE && FirstNotOpen(cl, position, position + size) == Open then id else b
  }

  /**
   * A molecule that is not on the strand binds exactly when its window lies
   * on the strand and, when occupancy is checked, is free and fully open;
   * when it cannot bind inside the strand, the answer is the window's first
   * occupant, NONE when the window is only closed.
   */
  lemma CanBindIff(occ: seq<int>, cl: seq<BpState>, id: int, position: int, size: nat, check: bool)
    requires |cl| == |occ| && id >= 0
    requires forall i :: 0 <= i < |occ| ==> occ[i] != id
    ensures CanBindResult(occ, cl, id, position, size, check) == id <==>
      0 <= position <= |occ| - size &&
      (check ==> forall i :: position <= i < position + size ==> occ[i] == NONE && cl[i] == Open)
    ensures 0 <= position <= |occ| - size && CanBindResult(occ, cl, id, position, size, check) != id ==>
      CanBindResult(occ, cl, id, position, size, check) == FirstOccupant(occ, position, position + size)
  {
    if 0 <= position <= |occ| - size && check {
      FirstOccupantIsFirst(occ, position, position + size);
      FirstNotOpenIsFirst(cl, position, position + size);
      var b := FirstOccupant(occ, position, position + size);
      if b != NONE {
        var k :| position <= k < position + size && occ[k] == b;
      }
    }
  }

  /** The bounds test `slideRight` applies to the new position (only on a reflexive strand). */
  predicate SlideRightOffStrand(reflexive: bool, newPosition: int, length: int, size: int) {
    reflexive && (newPosition < 0 || newPosition >= length - size)
  }

  /**
   * The bounds test `slideLeft` applies, with Java's precedence:
   * `isReflexive && newPosition < 0 || newPosition >= length - size`.
   */
  predicate SlideLeftOffStrand(reflexive: bool, newPosition: int, length: int, size: int) {
    (reflexive && newPosition < 0) || newPosition >= length - size
  }

  /** hi, or length when hi lies past it. */
  function Clip(hi: int, length: int): int {
    if hi <= length then hi else length
  }

  /**
   * Whether `slideRight` indexes past the strand's end. On a strand that is
   * not reflexive a window [lo, hi) past the end is not refused; the
   * occupancy scan then reads up to the end unless it meets an occupant,
   * the availability scan unless it meets a closed base pair, and when the
   * occupancy test is off, or the occupant met is the molecule itself,
   * `occupyDNA` writes past the end.
   */
  predicate SlideRightThrows(occ: seq<int>, cl: seq<BpState>, reflexive: bool, id: int, lo: nat, hi: int, check: bool)
    requires |cl| == |occ| && lo <= |occ|
  {
    !reflexive && hi > |occ| &&
    (!check || FirstOccupant(occ, lo, |occ|) == NONE || FirstOccupant(occ, lo, |occ|) == id ||
     FirstNotOpen(cl, lo, |occ|) == Open)
  }

  /**
   * Whether `slideLeft` indexes before the strand's start: on a strand that
   * is not reflexive a negative new position is not refused, and the first
   * read or write of the window is at that position.
   */
  predicate SlideLeftThrows(reflexive: bool, newPosition: int) {
    !reflexive && newPosition < 0
  }

  /**
   * The precedence of `slideLeft`'s test makes no difference for a molecule
   * bound on the strand that steps left: its new position is always below
   * length - size, so the test agrees with the parenthesised one of `slideRight`.
   */
  lemma SlideLeftPrecedenceHarmless(reflexive: bool, position: int, step: int, length: int, size: int)
    requires 0 <= position <= length - size && step >= 1
    ensures SlideLeftOffStrand(reflexive, position - step, length, size) ==
      SlideRightOffStrand(reflexive, position - step, length, size)
    ensures !reflexive ==> !SlideLeftOffStrand(reflexive, position - step, length, size)
  {
  }

  /**
   * Both slides refuse the last position: on a reflexive strand a molecule
   * can bind at length - size but never slides onto it.
   */
  lemma SlideRefusesLastPosition(length: int, size: int)
    ensures SlideRightOffStrand(true, length - size, length, size)
    ensures SlideLeftOffStrand(true, length - size, length, size)
  {
  }

  /** The result of `slideRight`/`slideLeft`, given the bounds test and the window the molecule moves into. */
  function SlideResult(occ: seq<int>, cl: seq<BpState>, id: int, offStrand: bool, lo: int, hi: int, check: bool): int
    requires |cl| == |occ| && (offStrand || 0 <= lo <= hi <= |occ|)
  {
    if offStrand then NONE
    else if !check then id
    else
      var b := FirstOccupant(occ, lo, hi);
      if b == NONE && FirstNotOpen(cl, lo, hi) == Open then id else b
  }

  // ---------------------------------------------------------------------------
  // `unbindMolecule`'s guard

  /** The guard of `unbindMolecule` as written: `position >= 0 || position <= length - size`. */
  predicate UnbindGuardAsWritten(position: int, size: int, length: int) {
    position >= 0 || position <= length - size
  }

  /** The guard as written holds for every position when the molecule fits the strand, even off the strand. */
  lemma UnbindGuardAlwaysHolds(position: int, size: int, length: int)
    requires size <= length
    ensures UnbindGuardAsWritten(position, size, length)
  {
  }

  /** A position left of the strand passes the guard as written. */
  lemma UnbindGuardCounterexample()
    ensures UnbindGuardAsWritten(-1, 1, 1) && !(0 <= -1 <= 1 - 1)
  {
  }

  /** The guard the comment describes: the window lies on the strand. */
  predicate UnbindGuard(position: int, size: int, length: int) {
    position >= 0 && position <= length - size
  }

  /** The corrected guard admits exactly the windows that lie on the strand. */
  lemma UnbindGuardOnStrand(position: int, size: nat, length: nat)
    ensures UnbindGuard(position, size, length) <==> 0 <= position && position + size <= length
    ensures UnbindGuard(position, size, length) ==> UnbindGuardAsWritten(position, size, length)
  {
  }

  /** `getBoundMolecule`: the occupant whose leftmost base pair is at position, else NONE. */
  function BoundMoleculeAt(occ: seq<int>, position: nat): int
    requires position < |occ|
  {
    if occ[position] != NONE && (position == 0 || occ[position - 1] != occ[position]) then occ[position] else NONE
  }

  /**
   * A molecule occupying exactly [p, p + size) is reported at p and nowhere
   * else inside its window.
   */
  lemma BoundMoleculeAtStart(occ: seq<int>, id: int, p: nat, size: nat, q: nat)
    requires id != NONE && p + size <= |occ| && size >= 1
    requires forall i :: p <= i < p + size ==> occ[i] == id
    requires p > 0 ==> occ[p - 1] != id
    requires p <= q < p + size
    ensures BoundMoleculeAt(occ, q) == (if q == p then id else NONE)
  {
  }

  // ---------------------------------------------------------------------------
  // The stretches the landscape updates re-open

  /**
   * The left end of the stretch re-opened left of `position` for a species
   * of footprint t (`recomputeTFAffinityLandscapeOnUnbinding` and
   * `...OnTFSlideRight`): max(0, position - t + 1), moved right past the
   * last bound molecule and the last closed base pair before position,
   * unless the position just left of it is available.
   */
  function ReopenStart(occ: seq<int>, cl: seq<BpState>, row: seq<bool>, position: nat, t: nat): (r: int)
    requires |occ| == |row| && |cl| == |row| && position < |row| && t >= 1
    ensures ClampLow(position - t + 1) <= r
  {
    var start := ClampLow(position - t + 1);
    if row[ClampLow(start - 1)] then start else ScanLeft(occ, cl, start, position - 1)
  }

  /**
   * Moving the left end `start` right past the last bound molecule and the
   * last closed base pair up to `last`.
   */
  function ScanLeft(occ: seq<int>, cl: seq<BpState>, start: nat, last: int): (r: int)
    requires |occ| == |cl|
    ensures start <= r
  {
    var b := LastBound(occ, start, last);
    var start1 := if b.0 != NONE then b.1 + 2 else start;
    var c := LastClosed(cl, start1, last);
    if c != NONE && c + 1 > start1 then c + 1 else start1
  }

  /**
   * The right end (exclusive) of the stretch `recomputeTFAffinityLandscapeOnUnbinding`
   * re-opens: min(position + size, length - 1), moved left before the first
   * bound molecule and the first closed base pair after the window, unless
   * that position is available; never past length - t + 1.
   */
  function UnbindEnd(occ: seq<int>, cl: seq<BpState>, row: seq<bool>, position: nat, size: nat, t: nat): (r: int)
    requires |occ| == |row| && |cl| == |row| && position + size <= |row| && |row| >= 1
    ensures r <= position + size && r <= |row| - t + 1
  {
    var end := if position + size < |row| - 1 then position + size else |row| - 1;
    var end1 := if row[end] then end else ScanRight(occ, cl, end, position + size, t, t - 1);
    if |row| - t + 1 < end1 then |row| - t + 1 else end1
  }

  /**
   * Moving the exclusive right end `end` of a stretch of footprints of size
   * t so that no footprint reaches the first bound molecule within `reach`
   * base pairs right of end, nor the first closed base pair from `from` up
   * to `reach` past the new end.
   */
  function ScanRight(occ: seq<int>, cl: seq<BpState>, end: int, from: int, t: nat, reach: int): (r: int)
    requires |occ| == |cl| && reach + 1 >= t
    ensures r <= end + reach + 1 - t
  {
    var b := FirstBound(occ, end, ClampHigh(end + reach, |occ|));
    var e := if b.0 != NONE then b.1 - t else end;
    var c := FirstClosed(cl, from, ClampHigh(e + reach, |occ|));
    if c != NONE && c - t + 1 < e then c - t + 1 else e
  }

  /**
   * A species' row after a molecule left [position, position + size): the
   * stretch is re-opened where the chromatin is open, then footprints over
   * repressed base pairs are closed again.
   */
  function UnbindRow(occ: seq<int>, cl: seq<BpState>, row: seq<bool>, position: nat, size: nat, t: nat): seq<bool>
    requires |occ| == |row| && |cl| == |row| && size >= 1 && position + size <= |row| && t >= 1
  {
    var lo := ReopenStart(occ, cl, row, position, t);
    var hi := UnbindEnd(occ, cl, row, position, size, t);
    Cleared(Reopened(row, cl, lo, hi), cl, true, t, lo, hi + t - 1)
  }

  /**
   * Unbinding only makes available positions whose footprint starts within
   * t - 1 base pairs left of the freed window or inside it, and only where
   * the base pair is open.
   */
  lemma UnbindRowLocal(occ: seq<int>, cl: seq<BpState>, row: seq<bool>, position: nat, size: nat, t: nat, j: nat)
    requires |occ| == |row| && |cl| == |row| && size >= 1 && position + size <= |row| && t >= 1 && j < |row|
    requires UnbindRow(occ, cl, row, position, size, t)[j] && !row[j]
    ensures position - t + 1 <= j < position + size && cl[j] == Open
  {
    var lo := ReopenStart(occ, cl, row, position, t);
    var hi := UnbindEnd(occ, cl, row, position, size, t);
    ReopenThenClearRepressed(row, cl, t, lo, hi, j);
  }

  /**
   * The right end (exclusive) of the stretch `recomputeTFAffinityLandscapeOnTFSlideLeft`
   * re-opens after a molecule of the given size slid left from position:
   * position + size, unless that position is unavailable; then it moves to
   * where the first bound molecule within t base pairs right of it allows
   * (one further right when that molecule is exactly t away) and before the
   * first closed base pair.
   */
  function SlideLeftEnd(occ: seq<int>, cl: seq<BpState>, row: seq<bool>, position: nat, size: nat, t: nat): (r: int)
    requires |occ| == |row| && |cl| == |row|
    ensures r <= position + size + 1
  {
    var end := position + size;
    if end < |row| && !row[end] then ScanRight(occ, cl, end, position + size, t, t) else end
  }

  /**
   * A species' row after a molecule of the given size slid left by step
   * from position: the footprints ending on the newly covered base pairs
   * become unavailable, and the stretch ending at the vacated base pairs is
   * re-opened where the chromatin is open.
   */
  function SlideLeftRow(occ: seq<int>, cl: seq<BpState>, row: seq<bool>, position: nat, size: nat, step: nat, t: nat): seq<bool>
    requires |occ| == |row| && |cl| == |row|
  {
    var closedRow := Fill(row, false, position - step - t + 1, position - t + 1);
    var hi := SlideLeftEnd(occ, cl, closedRow, position, size, t);
    Reopened(closedRow, cl, ClampLow(position + size - step), if hi < |row| - t + 1 then hi else |row| - t + 1)
  }

  /** SlideLeftRow, given the cleared row and the end computed on it. */
  lemma SlideLeftRowIs(occ: seq<int>, cl: seq<BpState>, row: seq<bool>, closedRow: seq<bool>,
                       position: nat, size: nat, step: nat, t: nat, end: int)
    requires |occ| == |row| && |cl| == |row|
    requires closedRow == Fill(row, false, position - step - t + 1, position - t + 1)
    requires end == SlideLeftEnd(occ, cl, closedRow, position, size, t)
    ensures SlideLeftRow(occ, cl, row, position, size, step, t) ==
      Reopened(closedRow, cl, ClampLow(position + size - step), if end < |row| - t + 1 then end else |row| - t + 1)
  {
  }

  /**
   * A left slide changes a species' row only near the molecule: a position
   * becomes unavailable only when its footprint ends on a newly covered
   * base pair, and available only on the vacated side, within one past the
   * molecule's old right end and over an open base pair.
   */
  lemma SlideLeftRowLocal(occ: seq<int>, cl: seq<BpState>, row: seq<bool>, position: nat, size: nat, step: nat,
                          t: nat, j: nat)
    requires |occ| == |row| && |cl| == |row| && j < |row|
    ensures |SlideLeftRow(occ, cl, row, position, size, step, t)| == |row|
    ensures row[j] && !SlideLeftRow(occ, cl, row, position, size, step, t)[j] ==>
      position - step - t + 1 <= j < position - t + 1
    ensures !row[j] && SlideLeftRow(occ, cl, row, position, size, step, t)[j] ==>
      ClampLow(position + size - step) <= j <= position + size && j < |row| - t + 1 && cl[j] == Open
  {
    var closedRow := Fill(row, false, position - step - t + 1, position - t + 1);
    var end := SlideLeftEnd(occ, cl, closedRow, position, size, t);
    SlideLeftRowIs(occ, cl, row, closedRow, position, size, step, t, end);
  }

  /**
   * A species' row after a molecule of the given size slid right by step
   * from position: the footprints starting on the newly covered base pairs
   * become unavailable, and the stretch starting at the vacated base pairs
   * is re-opened where the chromatin is open.
   */
  function SlideRightRow(occ: seq<int>, cl: seq<BpState>, row: seq<bool>, position: nat, size: nat, step: nat, t: nat): seq<bool>
    requires |occ| == |row| && |cl| == |row| && position < |row| && t >= 1
  {
    var closedRow := Fill(row, false, position + size, position + size + step);
    var hi := position + step - t + 1;
    Reopened(closedRow, cl, ReopenStart(occ, cl, closedRow, position, t), if hi < |row| - t + 1 then hi else |row| - t + 1)
  }

  /**
   * The mirror image for a right slide: a position becomes unavailable only
   * when its footprint starts on a newly covered base pair, and available
   * only on the vacated side, from at most t - 1 base pairs left of the old
   * position and before position + step - t + 1, over an open base pair.
   */
  lemma SlideRightRowLocal(occ: seq<int>, cl: seq<BpState>, row: seq<bool>, position: nat, size: nat, step: nat,
                           t: nat, j: nat)
    requires |occ| == |row| && |cl| == |row| && position < |row| && t >= 1 && j < |row|
    ensures |SlideRightRow(occ, cl, row, position, size, step, t)| == |row|
    ensures row[j] && !SlideRightRow(occ, cl, row, position, size, step, t)[j] ==>
      position + size <= j < position + size + step
    ensures !row[j] && SlideRightRow(occ, cl, row, position, size, step, t)[j] ==>
      ClampLow(position - t + 1) <= j < position + step - t + 1 && cl[j] == Open
  {
    var closedRow := Fill(row, false, position + size, position + size + step);
    var lo := ReopenStart(occ, cl, closedRow, position, t);
    var hi := position + step - t + 1;
    assert SlideRightRow(occ, cl, row, position, size, step, t) ==
      Reopened(closedRow, cl, lo, if hi < |row| - t + 1 then hi else |row| - t + 1);
  }

  /**
   * A species' row after [l, r] was derepressed (the first part of
   * `recomputeTFAffinityLandscapeOnDerepression`): the footprints starting
   * in [l - t + 1, r] are re-opened where the chromatin is open, then
   * footprints over base pairs that are not open are closed again.
   */
  function DerepressRow(cl: seq<BpState>, row: seq<bool>, l: int, r: int, t: nat): seq<bool>
    requires |cl| == |row|
  {
    var lo := ClampLow(l - t + 1);
    var hi := if |row| - t + 1 < r + 1 then |row| - t + 1 else r + 1;
    Cleared(Reopened(row, cl, lo, hi), cl, false, t, lo, hi + t - 1)
  }

  /**
   * After derepression every available position whose footprint lies in
   * the scanned stretch has open chromatin under its whole footprint.
   */
  lemma DerepressRowOpen(cl: seq<BpState>, row: seq<bool>, l: int, r: int, t: nat, j: nat)
    requires |cl| == |row| && j < |row| && t >= 1
    requires DerepressRow(cl, row, l, r, t)[j]
    requires ClampLow(l - t + 1) <= j && j + t <= (if |row| - t + 1 < r + 1 then |row| - t + 1 else r + 1) + t - 1
    ensures forall p :: j <= p < j + t ==> cl[p] == Open
  {
    var lo := ClampLow(l - t + 1);
    var hi := if |row| - t + 1 < r + 1 then |row| - t + 1 else r + 1;
    assert !BlockedNear(cl, false, t, lo, hi + t - 1, j);
  }

  // ---------------------------------------------------------------------------
  // Sectors

  /**
   * The sector size `computeTFaffinityLandscape` settles on: the square
   * root of the length (rounded down) when 0 is requested, the whole strand
   * when the request is negative or longer than the strand.
   */
  function SectorSize(requested: int, length: nat, floorSqrt: nat): (r: int)
    requires floorSqrt * floorSqrt <= length < (floorSqrt + 1) * (floorSqrt + 1)
    ensures length >= 1 ==> 1 <= r <= length
  {
    if requested == 0 then floorSqrt
    else if requested > length || requested < 0 then length
    else requested
  }

  /** `sectorID[i] = i / DNAsectorSize`. */
  function SectorIds(length: nat, size: nat): (r: seq<nat>)
    requires size >= 1
    ensures |r| == length
  {
    seq(length, i requires 0 <= i < length => i / size)
  }

  /** `DNAsectorsCount = ceil(length / DNAsectorSize)`, in integers. */
  function SectorsCount(length: nat, size: nat): nat
    requires size >= 1
  {
    (length + size - 1) / size
  }

  /** Every base pair's sector is below the sector count. */
  lemma SectorInRange(length: nat, size: nat, i: nat)
    requires size >= 1 && i < length
    ensures SectorIds(length, size)[i] < SectorsCount(length, size)
  {
    var q := i / size;
    assert q * size <= i;
    assert (q + 1) * size <= length + size - 1;
    DivAtLeast(length + size - 1, size, q + 1);
  }

  lemma DivAtLeast(a: nat, b: nat, m: nat)
    requires b >= 1 && m * b <= a
    ensures m <= a / b
  {
    var q := a / b;
    assert q * b + a % b == a;
    if q < m {
      MulMonotone(q + 1, m, b);
      assert false;
    }
  }

  lemma {:induction false} MulMonotone(x: nat, y: nat, b: nat)
    requires x <= y
    ensures x * b <= y * b
  {
    if x < y {
      MulMonotone(x, y - 1, b);
      assert (y - 1) * b + b == y * b;
    }
  }
}
