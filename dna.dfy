/**
 * The DNA strand of the simulator (src/objects/DNA.java) as a class whose
 * arrays are updated in place: the occupancy vector, the chromatin state of
 * each base pair, and for every TF species the availability of each binding
 * position together with its running total and its per-sector totals.
 *
 * The class invariant that matters is `Counted`: for every species the
 * running total is the number of available positions and every sector total
 * is the number of available positions in that sector. Every method that
 * touches availability keeps it.
 */
module Dna {
  import opened Wrappers
  import opened DnaSpec

  class DNA {
    /** `strand.length`. */
    const length: nat
    /** `TFsize`: the footprint of every species. */
    const tfSize: seq<nat>
    /** `sectorID`: the sector of every base pair. */
    const sectorID: seq<nat>
    /** `DNAsectorsCount`. */
    const sectorsCount: nat
    /** Whether the strand ends reflect sliding molecules. */
    const isReflexive: bool
    /** Whether repressed lengths are counted (`OUTPUT_REPRESSED_LENGTHS`). */
    const countRepressed: bool

    /** `occupied`: the molecule on each base pair, NONE when free. */
    const occupied: array<int>
    /** `closed`: the chromatin state of each base pair. */
    const closed: array<BpState>
    /** `effectiveTFavailability[species][position]`. */
    const avail: array2<bool>
    /** `effectiveTFavailabilitySum[species]`. */
    const availSum: array<int>
    /** `effectiveTFsectorsAvailabilitySum[species][sector]`. */
    const sectorSum: array2<int>
    /** `currentRepressedLength`. */
    var currentRepressedLength: int

    /** The shapes of the arrays agree with the strand and the species. */
    ghost predicate Valid() {
      occupied.Length == length && closed.Length == length &&
      avail.Length0 == |tfSize| && avail.Length1 == length &&
      availSum.Length == |tfSize| &&
      sectorSum.Length0 == |tfSize| && sectorSum.Length1 == sectorsCount &&
      occupied != availSum &&
      |sectorID| == length && (forall j :: 0 <= j < length ==> sectorID[j] < sectorsCount) &&
      (forall s :: 0 <= s < |tfSize| ==> tfSize[s] >= 1)
    }

    /** The availability row of species s. */
    ghost function Row(s: nat): seq<bool>
      requires Valid() && s < |tfSize|
      reads avail
    {
      seq(length, j requires 0 <= j < length reads avail => avail[s, j])
    }

    /** The availability rows of all species. */
    ghost function Rows(): (r: seq<seq<bool>>)
      requires Valid()
      reads avail
      ensures |r| == |tfSize| && forall s :: 0 <= s < |tfSize| ==> r[s] == Row(s)
    {
      seq(|tfSize|, s requires 0 <= s < |tfSize| reads avail => Row(s))
    }

    /** The totals of species s agree with its row. */
    ghost predicate SpeciesCounted(s: nat)
      requires Valid() && s < |tfSize|
      reads avail, availSum, sectorSum
    {
      availSum[s] == CountTrue(Row(s), length) &&
      forall k :: 0 <= k < sectorsCount ==> sectorSum[s, k] == CountSector(Row(s), sectorID, k, length)
    }

    /** The class invariant: every species' totals agree with its row. */
    ghost predicate Counted()
      reads avail, availSum, sectorSum
    {
      Valid() && forall s :: 0 <= s < |tfSize| ==> SpeciesCounted(s)
    }

    /** While counting is on, `currentRepressedLength` is the number of repressed base pairs. */
    ghost predicate RepressedCounted()
      reads this, closed
    {
      Valid() && (countRepressed ==> currentRepressedLength == CountState(closed[..], Repressed, length))
    }

    /**
     * A strand of the given length with every base pair free and open
     * (`setOccupancyAndClosenessVectorsFree`), no repressed length, and for
     * every species an availability row with no available position whose
     * totals are zero (the allocation in `computeTFaffinityLandscape`, with
     * the sector size already settled by `SectorSize`).
     */
    constructor (length: nat, tfSize: seq<nat>, sectorSize: nat, isReflexive: bool, countRepressed: bool)
      requires sectorSize >= 1 && forall s :: 0 <= s < |tfSize| ==> tfSize[s] >= 1
      ensures Counted() && RepressedCounted()
      ensures this.length == length && this.tfSize == tfSize
      ensures this.isReflexive == isReflexive && this.countRepressed == countRepressed
      ensures sectorID == SectorIds(length, sectorSize) && sectorsCount == SectorsCount(length, sectorSize)
      ensures forall i :: 0 <= i < length ==> occupied[i] == NONE && closed[i] == Open
      ensures forall s, j :: 0 <= s < |tfSize| && 0 <= j < length ==> !avail[s, j]
      ensures fresh(occupied) && fresh(closed) && fresh(avail) && fresh(availSum) && fresh(sectorSum)
    {
      this.length := length;
      this.tfSize := tfSize;
      this.isReflexive := isReflexive;
      this.countRepressed := countRepressed;
      sectorID := SectorIds(length, sectorSize);
      sectorsCount := SectorsCount(length, sectorSize);
      occupied := new int[length];
      closed := new BpState[length];
      avail := new bool[|tfSize|, length]((s, j) => false);
      availSum := new int[|tfSize|](s => 0);
      sectorSum := new int[|tfSize|, SectorsCount(length, sectorSize)]((s, k) => 0);
      currentRepressedLength := 0;
      new;
      forall j | 0 <= j < length
        ensures sectorID[j] < sectorsCount
      {
        SectorInRange(length, sectorSize, j);
      }
      FreeDNA(0, length);
      OpenDNA(0, length);
      CountStateNone(closed[..], Repressed, length);
      forall s | 0 <= s < |tfSize|
        ensures SpeciesCounted(s)
      {
        CountAllFalse(Row(s), sectorID, 0, length);
        forall k | 0 <= k < sectorsCount
          ensures sectorSum[s, k] == CountSector(Row(s), sectorID, k, length)
        {
          CountAllFalse(Row(s), sectorID, k, length);
        }
      }
    }

    /**
     * The per-species part of `computeTFaffinityLandscape`: a position is
     * available when the species has an affinity there (`known`), the
     * totals are counted from that row, footprints over base pairs that are
     * not open are closed, and the returned maximal total
     * (`effectiveTFavailabilityMaxSum`) counts what is left.
     */
    method InitSpeciesAvailability(s: nat, known: seq<bool>) returns (maxSum: int)
      requires Valid() && s < |tfSize| && |known| == length
      requires forall t :: 0 <= t < |tfSize| && t != s ==> SpeciesCounted(t)
      modifies avail, availSum, sectorSum
      ensures Counted()
      ensures Row(s) == Cleared(known, closed[..], false, tfSize[s], 0, length)
      ensures maxSum == CountTrue(Row(s), length)
      ensures forall t :: 0 <= t < |tfSize| && t != s ==> Row(t) == old(Row(t))
    {
      LoadRow(s, known);
      CountRow(s);
      CloseRuns(0, length, s, false);
      maxSum := 0;
      var j := 0;
      while j < length
        invariant 0 <= j <= length
        invariant maxSum == CountTrue(Row(s), j)
      {
        assert Row(s)[j] == avail[s, j];
        if avail[s, j] {
          maxSum := maxSum + 1;
        }
        j := j + 1;
      }
    }

    /** The first loop over a species' positions in `computeTFaffinityLandscape`: the row becomes `known`. */
    method LoadRow(s: nat, known: seq<bool>)
      requires Valid() && s < |tfSize| && |known| == length
      modifies avail
      ensures Row(s) == known
      ensures forall t :: 0 <= t < |tfSize| && t != s ==> Row(t) == old(Row(t))
    {
      var j := 0;
      while j < length
        invariant 0 <= j <= length
        invariant forall i :: 0 <= i < j ==> avail[s, i] == known[i]
        invariant forall t, i :: 0 <= t < |tfSize| && t != s && 0 <= i < length ==> avail[t, i] == old(avail[t, i])
      {
        avail[s, j] := known[j];
        j := j + 1;
      }
    }

    /**
     * The totals of species s are reset and counted from its row, position
     * by position, as the second loop of `computeTFaffinityLandscape` does.
     */
    method CountRow(s: nat)
      requires Valid() && s < |tfSize|
      requires forall t :: 0 <= t < |tfSize| && t != s ==> SpeciesCounted(t)
      modifies availSum, sectorSum
      ensures Counted()
    {
      availSum[s] := 0;
      var k := 0;
      while k < sectorsCount
        invariant 0 <= k <= sectorsCount && availSum[s] == 0
        invariant forall i :: 0 <= i < k ==> sectorSum[s, i] == 0
        invariant forall t, i :: 0 <= t < |tfSize| && t != s && 0 <= i < sectorsCount ==> sectorSum[t, i] == old(sectorSum[t, i])
        invariant forall t :: 0 <= t < |tfSize| && t != s ==> availSum[t] == old(availSum[t])
      {
        sectorSum[s, k] := 0;
        k := k + 1;
      }
      var j := 0;
      while j < length
        invariant 0 <= j <= length
        invariant availSum[s] == CountTrue(Row(s), j)
        invariant forall i :: 0 <= i < sectorsCount ==> sectorSum[s, i] == CountSector(Row(s), sectorID, i, j)
        invariant forall t, i :: 0 <= t < |tfSize| && t != s && 0 <= i < sectorsCount ==> sectorSum[t, i] == old(sectorSum[t, i])
        invariant forall t :: 0 <= t < |tfSize| && t != s ==> availSum[t] == old(availSum[t])
      {
        assert Row(s)[j] == avail[s, j];
        if avail[s, j] {
          availSum[s] := availSum[s] + 1;
          sectorSum[s, sectorID[j]] := sectorSum[s, sectorID[j]] + 1;
        }
        j := j + 1;
      }
      forall t | 0 <= t < |tfSize| && t != s
        ensures SpeciesCounted(t)
      {
        assert old(SpeciesCounted(t));
      }
    }

    // -------------------------------------------------------------------------
    // Occupancy and chromatin state

    /** `occupyDNA`: the window [position, position + size) holds proteinID; nothing else changes. */
    method OccupyDNA(proteinID: int, position: int, size: int)
      requires Valid() && 0 <= position && position + size <= length
      modifies occupied
      ensures occupied[..] == Fill(old(occupied[..]), proteinID, position, position + size)
    {
      var i := 0;
      while i < size
        invariant 0 <= i <= if size < 0 then 0 else size
        invariant occupied[..] == Fill(old(occupied[..]), proteinID, position, position + i)
      {
        FillStep(old(occupied[..]), proteinID, position, position + i);
        occupied[i + position] := proteinID;
        i := i + 1;
      }
    }

    /** `freeDNA`: the part of [position, position + size) on the strand becomes free. */
    method FreeDNA(position: int, size: int)
      requires Valid()
      modifies occupied
      ensures occupied[..] == Fill(old(occupied[..]), NONE, position, position + size)
    {
      var end := if position + size < length then position + size else length;
      var start := ClampLow(position);
      var i := start;
      while i < end
        invariant start <= i <= if start <= end then end else start
        invariant occupied[..] == Fill(old(occupied[..]), NONE, start, i)
      {
        FillStep(old(occupied[..]), NONE, start, i);
        occupied[i] := NONE;
        i := i + 1;
      }
      assert |old(occupied[..])| == length;
      FillClamped(old(occupied[..]), NONE, position, position + size, i);
    }

    /** `openDNA`: the part of [position, position + size) on the strand becomes open. */
    method OpenDNA(position: int, size: int)
      requires Valid()
      modifies closed
      ensures closed[..] == Fill(old(closed[..]), Open, position, position + size)
    {
      var end := if position + size < length then position + size else length;
      var start := ClampLow(position);
      var i := start;
      while i < end
        invariant start <= i <= if start <= end then end else start
        invariant closed[..] == Fill(old(closed[..]), Open, start, i)
      {
        FillStep(old(closed[..]), Open, start, i);
        closed[i] := Open;
        i := i + 1;
      }
      assert |old(closed[..])| == length;
      FillClamped(old(closed[..]), Open, position, position + size, i);
    }

    /** `getBoundProtein`: the first occupant of [position, position + size), or NONE. */
    method GetBoundProtein(position: int, size: int) returns (proteinID: int)
      requires Valid() && 0 <= position && 0 <= size && position + size <= length
      ensures proteinID == FirstOccupant(occupied[..], position, position + size)
    {
      proteinID := NONE;
      var i := 0;
      while i < size && proteinID == NONE
        invariant 0 <= i <= size
        invariant proteinID == NONE ==> FirstOccupant(occupied[..], position, position + size) == FirstOccupant(occupied[..], position + i, position + size)
        invariant proteinID != NONE ==> proteinID == FirstOccupant(occupied[..], position, position + size)
      {
        proteinID := occupied[i + position];
        i := i + 1;
      }
    }

    /** `checkAvailability`: the first state other than open in [position, position + size), or Open. */
    method CheckAvailability(position: int, size: int) returns (state: BpState)
      requires Valid() && 0 <= position && 0 <= size && position + size <= length
      ensures state == FirstNotOpen(closed[..], position, position + size)
    {
      state := Open;
      var i := 0;
      while i < size && state == Open
        invariant 0 <= i <= size
        invariant state == Open ==> FirstNotOpen(closed[..], position, position + size) == FirstNotOpen(closed[..], position + i, position + size)
        invariant state != Open ==> state == FirstNotOpen(closed[..], position, position + size)
      {
        state := closed[position + i];
        i := i + 1;
      }
    }

    /** `canBind`. */
    method CanBind(proteinID: int, position: int, size: nat, checkOccupancy: bool) returns (r: int)
      requires Valid()
      ensures r == CanBindResult(occupied[..], closed[..], proteinID, position, size, checkOccupancy)
    {
      r := proteinID;
      if position < 0 || position > length - size {
        r := NONE;
      }
      if r == proteinID && checkOccupancy && 0 <= position <= length - size {
        r := GetBoundProtein(position, size);
        var bpStatus := CheckAvailability(position, size);
        if r == NONE && bpStatus == Open {
          r := proteinID;
        }
      }
    }

    /** `getBoundMolecule`: the molecule whose leftmost base pair is at position, else NONE. */
    function GetBoundMolecule(position: nat): (r: int)
      requires Valid() && position < length
      reads occupied
      ensures r == BoundMoleculeAt(occupied[..], position)
    {
      if occupied[position] != NONE && (position == 0 || occupied[position - 1] != occupied[position]) then occupied[position] else NONE
    }

    /** `getLeftNeighbour`: the occupant just left of position, NONE at the strand's start. */
    function GetLeftNeighbour(position: int): (r: int)
      requires Valid() && position <= length
      reads occupied
      ensures position > 0 ==> r == occupied[..][position - 1]
      ensures position <= 0 ==> r == NONE
    {
      if position > 0 then occupied[position - 1] else NONE
    }

    /** `getRightNeighbour`: the occupant just right of position, NONE at the strand's end. */
    function GetRightNeighbour(position: int): (r: int)
      requires Valid() && -1 <= position
      reads occupied
      ensures position < length - 1 ==> r == occupied[..][position + 1]
      ensures position >= length - 1 ==> r == NONE
    {
      if position < length - 1 then occupied[position + 1] else NONE
    }

    // -------------------------------------------------------------------------
    // Finding molecules and closed base pairs

    /** `findLastBoundMolecule`. */
    method FindLastBoundMolecule(start: int, end: int) returns (r: (int, int))
      requires Valid()
      ensures r == LastBound(occupied[..], start, end)
    {
      var lo := ClampLow(start);
      var hi := ClampHigh(end, length);
      var id := NONE;
      var idx := hi;
      while idx >= lo && id == NONE
        invariant idx <= hi
        invariant id == NONE ==> LastBound(occupied[..], start, end) == LastBound(occupied[..], start, idx)
        invariant id != NONE ==> LastBound(occupied[..], start, end) == (id, idx)
        decreases idx - lo, if id == NONE then 1 else 0
      {
        id := occupied[idx];
        idx := idx - 1;
      }
      r := (id, idx);
    }

    /** `findFirstBoundMolecule`. */
    method FindFirstBoundMolecule(start: int, end: int) returns (r: (int, int))
      requires Valid()
      ensures r == FirstBound(occupied[..], start, end)
    {
      var lo := ClampLow(start);
      var hi := ClampHigh(end, length);
      var id := NONE;
      var idx := lo;
      while idx <= hi && id == NONE
        invariant lo <= idx
        invariant id == NONE ==> FirstBound(occupied[..], start, end) == FirstBound(occupied[..], idx, end)
        invariant id != NONE ==> FirstBound(occupied[..], start, end) == (id, idx)
        decreases hi - idx, if id == NONE then 1 else 0
      {
        id := occupied[idx];
        idx := idx + 1;
      }
      r := (id, idx);
    }

    /** `findLastClosedBP`. */
    method FindLastClosedBP(start: int, end: int) returns (r: int)
      requires Valid()
      ensures r == LastClosed(closed[..], start, end)
    {
      var lo := ClampLow(start);
      var pos := ClampHigh(end, length);
      while pos >= lo
        invariant pos <= ClampHigh(end, length)
        invariant LastClosed(closed[..], start, end) == LastClosed(closed[..], start, pos)
      {
        if closed[pos] != Open {
          return pos;
        }
        pos := pos - 1;
      }
      return NONE;
    }

    /** `findFirstClosedBP`. */
    method FindFirstClosedBP(start: int, end: int) returns (r: int)
      requires Valid()
      ensures r == FirstClosed(closed[..], start, end)
    {
      var pos := ClampLow(start);
      var hi := ClampHigh(end, length);
      while pos <= hi
        invariant ClampLow(start) <= pos
        invariant FirstClosed(closed[..], start, end) == FirstClosed(closed[..], pos, end)
        decreases hi - pos
      {
        if closed[pos] != Open {
          return pos;
        }
        pos := pos + 1;
      }
      return NONE;
    }
 
    // -------------------------------------------------------------------------
    // Availability of binding positions

    /**
     * One step of the availability loops: position j of species s becomes
     * available (v) or unavailable (!v), and when that changes anything the
     * species' total and the total of j's sector move by one.
     */
    method SetAvailability(s: nat, j: nat, v: bool)
      requires Counted() && s < |tfSize| && j < length
      modifies avail, availSum, sectorSum
      ensures Counted()
      ensures Row(s) == old(Row(s))[j := v]
      ensures forall t :: 0 <= t < |tfSize| && t != s ==> Row(t) == old(Row(t))
    {
      if avail[s, j] != v {
        ghost var row := Row(s);
        var d := if v then 1 else -1;
        avail[s, j] := v;
        sectorSum[s, sectorID[j]] := sectorSum[s, sectorID[j]] + d;
        availSum[s] := availSum[s] + d;
        assert Row(s) == row[j := v];
        assert old(SpeciesCounted(s));
        CountTrueUpdate(row, j, v, length);
        forall k | 0 <= k < sectorsCount
          ensures sectorSum[s, k] == CountSector(Row(s), sectorID, k, length)
        {
          assert old(SpeciesCounted(s));
          CountSectorUpdate(row, sectorID, k, j, v, length);
        }
        assert SpeciesCounted(s);
        forall t | 0 <= t < |tfSize| && t != s
          ensures Row(t) == old(Row(t)) && SpeciesCounted(t)
        {
          assert forall i :: 0 <= i < length ==> Row(t)[i] == old(Row(t))[i];
          assert old(SpeciesCounted(t));
          assert forall k :: 0 <= k < sectorsCount ==> sectorSum[t, k] == old(sectorSum[t, k]);
        }
      }
    }

    /** The loop of `closeRegionInAffinityLandscape`: positions [lo, hi) of species s become unavailable. */
    method ClearRange(s: nat, lo: nat, hi: int)
      requires Counted() && s < |tfSize| && hi <= length
      modifies avail, availSum, sectorSum
      ensures Counted()
      ensures Row(s) == Fill(old(Row(s)), false, lo, hi)
      ensures forall t :: 0 <= t < |tfSize| && t != s ==> Row(t) == old(Row(t))
    {
      var j := lo;
      while j < hi
        invariant lo <= j <= if lo <= hi then hi else lo
        invariant Counted()
        invariant Row(s) == Fill(old(Row(s)), false, lo, j)
        invariant forall t :: 0 <= t < |tfSize| && t != s ==> Row(t) == old(Row(t))
      {
        FillStep(old(Row(s)), false, lo, j);
        SetAvailability(s, j, false);
        j := j + 1;
      }
      FillClamped(old(Row(s)), false, lo, hi, j);
    }
    /**
     * `closeRegionInAffinityLandscape(left, right, s)`: every footprint of
     * species s that overlaps [left, right) becomes unavailable.
     */
    method CloseRegionInAffinityLandscape(left: int, right: int, s: nat)
      requires Counted() && s < |tfSize|
      modifies avail, availSum, sectorSum
      ensures Counted()
      ensures Row(s) == Fill(old(Row(s)), false, left - tfSize[s] + 1, right)
      ensures forall t :: 0 <= t < |tfSize| && t != s ==> Row(t) == old(Row(t))
    {
      var start := ClampLow(left - tfSize[s] + 1);
      var end := if right < length then right else length;
      FillClampLow(old(Row(s)), false, left - tfSize[s] + 1, right);
      ClearRange(s, start, end);
      FillClampHigh(old(Row(s)), false, start, right);
    }

    /**
     * The re-opening loops: every position of [lo, hi) of species s whose
     * base pair is open becomes available.
     */
    method ReopenRange(s: nat, lo: nat, hi: int)
      requires Counted() && s < |tfSize| && hi <= length
      modifies avail, availSum, sectorSum
      ensures Counted()
      ensures Row(s) == Reopened(old(Row(s)), closed[..], lo, hi)
      ensures forall t :: 0 <= t < |tfSize| && t != s ==> Row(t) == old(Row(t))
    {
      ReopenedEmpty(old(Row(s)), closed[..], lo);
      var j := lo;
      while j < hi
        invariant lo <= j <= if lo <= hi then hi else lo
        invariant Counted()
        invariant Row(s) == Reopened(old(Row(s)), closed[..], lo, j)
        invariant forall t :: 0 <= t < |tfSize| && t != s ==> Row(t) == old(Row(t))
      {
        ReopenedStep(old(Row(s)), closed[..], lo, j);
        if closed[j] == Open {
          SetAvailability(s, j, true);
        }
        j := j + 1;
      }
      ReopenedPast(old(Row(s)), closed[..], lo, hi, j);
    }

    /**
     * `recomputeTFAffinityLandscapeForClosedRegions` (repressedOnly false)
     * and `...ForRepressedRegions` (repressedOnly true): every maximal run
     * of blocking base pairs in [startPos, endPos) is closed for species s.
     */
    method CloseRuns(startPos: nat, endPos: int, s: nat, repressedOnly: bool)
      requires Counted() && s < |tfSize| && endPos <= length
      modifies avail, availSum, sectorSum
      ensures Counted()
      ensures Row(s) == Cleared(old(Row(s)), closed[..], repressedOnly, tfSize[s], startPos, endPos)
      ensures forall t :: 0 <= t < |tfSize| && t != s ==> Row(t) == old(Row(t))
    {
      ghost var row0 := old(Row(s));
      ClearedEmpty(row0, closed[..], repressedOnly, tfSize[s], startPos);
      var start := startPos;
      while start < endPos
        invariant startPos <= start <= if startPos <= endPos then endPos else startPos
        invariant Counted()
        invariant Row(s) == Cleared(row0, closed[..], repressedOnly, tfSize[s], startPos, start)
        invariant forall t :: 0 <= t < |tfSize| && t != s ==> Row(t) == old(Row(t))
        decreases endPos - start
      {
        while start < endPos && !Blocks(closed[start], repressedOnly)
          invariant startPos <= start <= endPos
          invariant Counted()
          invariant Row(s) == Cleared(row0, closed[..], repressedOnly, tfSize[s], startPos, start)
          invariant forall t :: 0 <= t < |tfSize| && t != s ==> Row(t) == old(Row(t))
          decreases endPos - start
        {
          ClearedSkip(row0, closed[..], repressedOnly, tfSize[s], startPos, start, start + 1);
          start := start + 1;
        }
        if start < endPos {
          var end := start + 1;
          while end < endPos && Blocks(closed[end], repressedOnly)
            invariant start < end <= endPos
            invariant forall p :: start <= p < end ==> Blocks(closed[p], repressedOnly)
            invariant Counted()
            invariant Row(s) == Cleared(row0, closed[..], repressedOnly, tfSize[s], startPos, start)
            invariant forall t :: 0 <= t < |tfSize| && t != s ==> Row(t) == old(Row(t))
          {
            end := end + 1;
          }
          CloseRegionInAffinityLandscape(start, end, s);
          ClearedRun(row0, closed[..], repressedOnly, tfSize[s], startPos, start, end);
          start := end;
        }
      }
      ClearedPast(row0, closed[..], repressedOnly, tfSize[s], startPos, endPos, start);
    }
    // -------------------------------------------------------------------------
    // Recomputing the landscape after binding, unbinding and sliding

    /**
     * `recomputeTFAffinityLandscapeOnRepression(l, r)` (and, with
     * r = position + size - 1, `...OnBinding`): for every species the
     * footprints overlapping [l, r] become unavailable.
     */
    method RecomputeOnRepression(l: int, r: int)
      requires Counted()
      modifies avail, availSum, sectorSum
      ensures Counted()
      ensures forall t :: 0 <= t < |tfSize| ==> Row(t) == Fill(old(Row(t)), false, l - tfSize[t] + 1, r + 1)
    {
      ghost var rows := Rows();
      var s := 0;
      while s < |tfSize|
        invariant 0 <= s <= |tfSize| && Counted()
        invariant forall t :: 0 <= t < s ==> Row(t) == Fill(rows[t], false, l - tfSize[t] + 1, r + 1)
        invariant forall t :: s <= t < |tfSize| ==> Row(t) == rows[t]
      {
        CloseRegionInAffinityLandscape(l, r + 1, s);
        s := s + 1;
      }
    }

    /**
     * The left end of the stretch re-opened for species s left of position,
     * as `recomputeTFAffinityLandscapeOnUnbinding` and `...OnTFSlideRight`
     * compute it.
     */
    method LeftReopenStart(s: nat, position: nat) returns (start: int)
      requires Valid() && s < |tfSize| && position < length
      ensures start == ReopenStart(occupied[..], closed[..], Row(s), position, tfSize[s])
    {
      var t := tfSize[s];
      start := ClampLow(position - t + 1);
      assert Row(s)[ClampLow(start - 1)] == avail[s, ClampLow(start - 1)];
      if !avail[s, ClampLow(start - 1)] {
        start := ScanLeftStart(start, position - 1);
      }
    }

    /**
     * The left-hand scan of `recomputeTFAffinityLandscapeOnUnbinding` and
     * `...OnTFSlideRight`: start moves right past the last bound molecule
     * and the last closed base pair up to `last`.
     */
    method ScanLeftStart(start: nat, last: int) returns (r: int)
      requires Valid()
      ensures r == ScanLeft(occupied[..], closed[..], start, last)
    {
      r := start;
      var buffer := FindLastBoundMolecule(start, last);
      if buffer.0 != NONE {
        r := buffer.1 + 2;
      }
      var pos := FindLastClosedBP(r, last);
      if pos != NONE {
        r := if pos + 1 > r then pos + 1 else r;
      }
    }

    /** The right end of the stretch `recomputeTFAffinityLandscapeOnUnbinding` re-opens for species s. */
    method UnbindReopenEnd(s: nat, position: nat, size: nat) returns (end: int)
      requires Valid() && s < |tfSize| && position + size <= length && length >= 1
      ensures end == UnbindEnd(occupied[..], closed[..], Row(s), position, size, tfSize[s])
    {
      var t := tfSize[s];
      end := if position + size < length - 1 then position + size else length - 1;
      assert Row(s)[end] == avail[s, end];
      if !avail[s, end] {
        end := ScanRightEnd(end, position + size, t, t - 1);
      }
      end := if length - t + 1 < end then length - t + 1 else end;
    }

    /**
     * The right-hand scan of `recomputeTFAffinityLandscapeOnUnbinding`
     * (reach t - 1) and `...OnTFSlideLeft` (reach t, where the bound
     * `min(end + t, length)` clamps to the same last index inside the
     * search): end moves left before the first bound molecule within reach
     * and before the first closed base pair from `from` on.
     */
    method ScanRightEnd(end: int, from: int, t: nat, reach: int) returns (e: int)
      requires Valid() && reach + 1 >= t
      ensures e == ScanRight(occupied[..], closed[..], end, from, t, reach)
    {
      e := end;
      var buffer := FindFirstBoundMolecule(end, ClampHigh(end + reach, length));
      if buffer.0 != NONE {
        e := buffer.1 - t;
      }
      var pos := FindFirstClosedBP(from, ClampHigh(e + reach, length));
      if pos != NONE {
        e := if pos - t + 1 < e then pos - t + 1 else e;
      }
    }

    /** One species' part of `recomputeTFAffinityLandscapeOnUnbinding`. */
    method RecomputeSpeciesOnUnbinding(s: nat, position: nat, size: nat)
      requires Counted() && s < |tfSize| && size >= 1 && position + size <= length
      modifies avail, availSum, sectorSum
      ensures Counted()
      ensures Row(s) == UnbindRow(occupied[..], closed[..], old(Row(s)), position, size, tfSize[s])
      ensures forall t :: 0 <= t < |tfSize| && t != s ==> Row(t) == old(Row(t))
    {
      var t := tfSize[s];
      var start := LeftReopenStart(s, position);
      var end := UnbindReopenEnd(s, position, size);
      ReopenRange(s, start, end);
      CloseRuns(start, end + t - 1, s, true);
    }

    /**
     * `recomputeTFAffinityLandscapeOnUnbinding`: every species' row is
     * updated for the freed window [position, position + size).
     */
    method RecomputeOnUnbinding(position: nat, size: nat)
      requires Counted() && size >= 1 && position + size <= length
      modifies avail, availSum, sectorSum
      ensures Counted()
      ensures forall t :: 0 <= t < |tfSize| ==>
        Row(t) == UnbindRow(occupied[..], closed[..], old(Row(t)), position, size, tfSize[t])
    {
      ghost var rows := Rows();
      var s := 0;
      while s < |tfSize|
        invariant 0 <= s <= |tfSize| && Counted()
        invariant forall t :: 0 <= t < s ==> Row(t) == UnbindRow(occupied[..], closed[..], rows[t], position, size, tfSize[t])
        invariant forall t :: s <= t < |tfSize| ==> Row(t) == rows[t]
      {
        RecomputeSpeciesOnUnbinding(s, position, size);
        s := s + 1;
      }
    }

    /** One species' part of `recomputeTFAffinityLandscapeOnTFSlideLeft` for a molecule that left position. */
    method RecomputeSpeciesOnSlideLeft(s: nat, position: nat, moleculeSize: nat, stepSize: nat)
      requires Counted() && s < |tfSize| && position <= length
      modifies avail, availSum, sectorSum
      ensures Counted()
      ensures Row(s) == SlideLeftRow(occupied[..], closed[..], old(Row(s)), position, moleculeSize, stepSize, tfSize[s])
      ensures forall t :: 0 <= t < |tfSize| && t != s ==> Row(t) == old(Row(t))
    {
      var t := tfSize[s];
      ghost var row0 := Row(s);
      CloseRegionInAffinityLandscape(position - stepSize, position - t + 1, s);
      ghost var row1 := Row(s);
      var start := ClampLow(position + moleculeSize - stepSize);
      var end := SlideLeftReopenEnd(s, position, moleculeSize);
      SlideLeftRowIs(occupied[..], closed[..], row0, row1, position, moleculeSize, stepSize, t, end);
      var maxPos := length - t + 1;
      ReopenRange(s, start, if end < maxPos then end else maxPos);
    }

    /** The right end of the stretch `recomputeTFAffinityLandscapeOnTFSlideLeft` re-opens for species s. */
    method SlideLeftReopenEnd(s: nat, position: nat, size: nat) returns (end: int)
      requires Valid() && s < |tfSize|
      ensures end == SlideLeftEnd(occupied[..], closed[..], Row(s), position, size, tfSize[s])
    {
      end := position + size;
      if end < length {
        assert Row(s)[end] == avail[s, end];
        if !avail[s, end] {
          end := ScanRightEnd(end, position + size, tfSize[s], tfSize[s]);
        }
      }
    }

    /** One species' part of `recomputeTFAffinityLandscapeOnTFSlideRight` for a molecule that left position. */
    method RecomputeSpeciesOnSlideRight(s: nat, position: nat, moleculeSize: nat, stepSize: nat)
      requires Counted() && s < |tfSize| && position < length
      modifies avail, availSum, sectorSum
      ensures Counted()
      ensures Row(s) == SlideRightRow(occupied[..], closed[..], old(Row(s)), position, moleculeSize, stepSize, tfSize[s])
      ensures forall t :: 0 <= t < |tfSize| && t != s ==> Row(t) == old(Row(t))
    {
      var t := tfSize[s];
      var start := if position + moleculeSize < length then position + moleculeSize else length;
      var end := if start + stepSize < length then start + stepSize else length;
      ghost var row0 := Row(s);
      FillRightWindow(row0, false, position + moleculeSize, stepSize);
      ClearRange(s, start, end);
      ghost var row1 := Row(s);
      assert row1 == Fill(row0, false, position + moleculeSize, position + moleculeSize + stepSize);
      start := LeftReopenStart(s, position);
      var maxPos := length - t + 1;
      end := position + stepSize - t + 1;
      ReopenRange(s, start, if end < maxPos then end else maxPos);
      assert Row(s) == Reopened(row1, closed[..], start, if end < maxPos then end else maxPos);
    }

    /** `recomputeTFAffinityLandscapeOnTFSlideLeft`: every species' row is updated for the slide. */
    method RecomputeOnTFSlideLeft(position: nat, moleculeSize: nat, stepSize: nat)
      requires Counted() && position <= length
      modifies avail, availSum, sectorSum
      ensures Counted()
      ensures forall t :: 0 <= t < |tfSize| ==>
        Row(t) == SlideLeftRow(occupied[..], closed[..], old(Row(t)), position, moleculeSize, stepSize, tfSize[t])
    {
      ghost var rows := Rows();
      var s := 0;
      while s < |tfSize|
        invariant 0 <= s <= |tfSize| && Counted()
        invariant forall t :: 0 <= t < s ==>
          Row(t) == SlideLeftRow(occupied[..], closed[..], rows[t], position, moleculeSize, stepSize, tfSize[t])
        invariant forall t :: s <= t < |tfSize| ==> Row(t) == rows[t]
      {
        RecomputeSpeciesOnSlideLeft(s, position, moleculeSize, stepSize);
        s := s + 1;
      }
    }

    /** `recomputeTFAffinityLandscapeOnTFSlideRight`: every species' row is updated for the slide. */
    method RecomputeOnTFSlideRight(position: nat, moleculeSize: nat, stepSize: nat)
      requires Counted() && position < length
      modifies avail, availSum, sectorSum
      ensures Counted()
      ensures forall t :: 0 <= t < |tfSize| ==>
        Row(t) == SlideRightRow(occupied[..], closed[..], old(Row(t)), position, moleculeSize, stepSize, tfSize[t])
    {
      ghost var rows := Rows();
      var s := 0;
      while s < |tfSize|
        invariant 0 <= s <= |tfSize| && Counted()
        invariant forall t :: 0 <= t < s ==>
          Row(t) == SlideRightRow(occupied[..], closed[..], rows[t], position, moleculeSize, stepSize, tfSize[t])
        invariant forall t :: s <= t < |tfSize| ==> Row(t) == rows[t]
      {
        RecomputeSpeciesOnSlideRight(s, position, moleculeSize, stepSize);
        s := s + 1;
      }
    }

    /** One species' part of the re-opening in `recomputeTFAffinityLandscapeOnDerepression`. */
    method RecomputeSpeciesOnDerepression(s: nat, l: int, r: int)
      requires Counted() && s < |tfSize|
      modifies avail, availSum, sectorSum
      ensures Counted()
      ensures Row(s) == DerepressRow(closed[..], old(Row(s)), l, r, tfSize[s])
      ensures forall t :: 0 <= t < |tfSize| && t != s ==> Row(t) == old(Row(t))
    {
      var t := tfSize[s];
      var start := ClampLow(l - t + 1);
      var end := if length - t + 1 < r + 1 then length - t + 1 else r + 1;
      ReopenRange(s, start, end);
      CloseRuns(start, end + t - 1, s, false);
    }

    /**
     * The re-opening part of `recomputeTFAffinityLandscapeOnDerepression`:
     * every species' row is updated for the derepressed window [l, r].
     */
    method RecomputeOnDerepression(l: int, r: int)
      requires Counted()
      modifies avail, availSum, sectorSum
      ensures Counted()
      ensures forall t :: 0 <= t < |tfSize| ==> Row(t) == DerepressRow(closed[..], old(Row(t)), l, r, tfSize[t])
    {
      ghost var rows := Rows();
      var s := 0;
      while s < |tfSize|
        invariant 0 <= s <= |tfSize| && Counted()
        invariant forall t :: 0 <= t < s ==> Row(t) == DerepressRow(closed[..], rows[t], l, r, tfSize[t])
        invariant forall t :: s <= t < |tfSize| ==> Row(t) == rows[t]
      {
        RecomputeSpeciesOnDerepression(s, l, r);
        s := s + 1;
      }
    }

    // -------------------------------------------------------------------------
    // Repression

    /** One step of `repressDNA`: base pair pos is repressed if it is open, and counted. */
    method RepressBp(pos: nat)
      requires Valid() && pos < length
      modifies closed, this`currentRepressedLength
      ensures closed[..] == old(closed[..])[pos := if old(closed[pos]) == Open then Repressed else old(closed[pos])]
      ensures currentRepressedLength ==
        old(currentRepressedLength) + (if countRepressed && old(closed[pos]) == Open then 1 else 0)
    {
      if closed[pos] == Open {
        closed[pos] := Repressed;
        if countRepressed {
          currentRepressedLength := currentRepressedLength + 1;
        }
      }
    }

    /** One step of `derepressDNA`: base pair pos is opened if it is repressed, and uncounted. */
    method DerepressBp(pos: nat)
      requires Valid() && pos < length
      modifies closed, this`currentRepressedLength
      ensures closed[..] == old(closed[..])[pos := if old(closed[pos]) == Repressed then Open else old(closed[pos])]
      ensures currentRepressedLength ==
        old(currentRepressedLength) - (if countRepressed && old(closed[pos]) == Repressed then 1 else 0)
    {
      if closed[pos] == Repressed {
        closed[pos] := Open;
        if countRepressed {
          currentRepressedLength := currentRepressedLength - 1;
        }
      }
    }

    /**
     * `repressDNA(l, r)`: the open base pairs of [l, r] become repressed and,
     * while counting is on, `currentRepressedLength` grows by their number.
     */
    method RepressDNA(l: int, r: int)
      requires RepressedCounted() && (r < l || (0 <= l && r < length))
      modifies closed, this`currentRepressedLength
      ensures closed[..] == RepressState(old(closed[..]), l, r)
      ensures RepressedCounted()
      ensures countRepressed ==>
        currentRepressedLength == old(currentRepressedLength) + CountStateIn(old(closed[..]), Open, l, r, length)
    {
      ghost var cl := closed[..];
      CountStateInEmpty(cl, Open, l, l - 1, length);
      RepressEmpty(cl, l);
      var pos := l;
      while pos <= r
        invariant l <= pos <= if l <= r then r + 1 else l
        invariant closed[..] == RepressState(cl, l, pos - 1)
        invariant countRepressed ==> currentRepressedLength == old(currentRepressedLength) + CountStateIn(cl, Open, l, pos - 1, length)
      {
        CountStateInStep(cl, Open, l, pos - 1, length);
        RepressStep(cl, l, pos);
        assert closed[pos] == cl[pos];
        RepressBp(pos);
        pos := pos + 1;
      }
      RepressCount(cl, l, r, length);
      assert RepressState(cl, l, pos - 1) == RepressState(cl, l, r);
    }

    /**
     * `derepressDNA(l, r)`: the repressed base pairs of [l, r] become open
     * and, while counting is on, `currentRepressedLength` shrinks by their
     * number, so it never drops below zero.
     */
    method DerepressDNA(l: int, r: int)
      requires RepressedCounted() && (r < l || (0 <= l && r < length))
      modifies closed, this`currentRepressedLength
      ensures closed[..] == DerepressState(old(closed[..]), l, r)
      ensures RepressedCounted()
      ensures countRepressed ==>
        currentRepressedLength == old(currentRepressedLength) - CountStateIn(old(closed[..]), Repressed, l, r, length)
      ensures countRepressed ==> currentRepressedLength >= 0
    {
      ghost var cl := closed[..];
      CountStateInEmpty(cl, Repressed, l, l - 1, length);
      RepressEmpty(cl, l);
      var pos := l;
      while pos <= r
        invariant l <= pos <= if l <= r then r + 1 else l
        invariant closed[..] == DerepressState(cl, l, pos - 1)
        invariant countRepressed ==> currentRepressedLength == old(currentRepressedLength) - CountStateIn(cl, Repressed, l, pos - 1, length)
      {
        CountStateInStep(cl, Repressed, l, pos - 1, length);
        DerepressStep(cl, l, pos);
        assert closed[pos] == cl[pos];
        DerepressBp(pos);
        pos := pos + 1;
      }
      DerepressCount(cl, l, r, length);
      assert DerepressState(cl, l, pos - 1) == DerepressState(cl, l, r);
    }

    /**
     * `repress(l, r)`: [l, r] is repressed and every footprint overlapping it
     * becomes unavailable.
     */
    method Repress(l: int, r: int)
      requires Counted() && RepressedCounted() && (r < l || (0 <= l && r < length))
      modifies closed, this`currentRepressedLength, avail, availSum, sectorSum
      ensures Counted() && RepressedCounted()
      ensures closed[..] == RepressState(old(closed[..]), l, r)
      ensures forall t :: 0 <= t < |tfSize| ==> Row(t) == Fill(old(Row(t)), false, l - tfSize[t] + 1, r + 1)
    {
      RepressDNA(l, r);
      RecomputeOnRepression(l, r);
    }

    /**
     * The modelled part of `derepress(l, r)`: [l, r] is derepressed and the
     * footprints near it are re-opened where the chromatin is open.
     */
    method Derepress(l: int, r: int)
      requires Counted() && RepressedCounted() && (r < l || (0 <= l && r < length))
      modifies closed, this`currentRepressedLength, avail, availSum, sectorSum
      ensures Counted() && RepressedCounted()
      ensures closed[..] == DerepressState(old(closed[..]), l, r)
      ensures forall t :: 0 <= t < |tfSize| ==> Row(t) == DerepressRow(closed[..], old(Row(t)), l, r, tfSize[t])
    {
      DerepressDNA(l, r);
      RecomputeOnDerepression(l, r);
    }

    // -------------------------------------------------------------------------
    // Binding, unbinding and sliding

    /**
     * `bindMolecule`: when `canBind` answers proteinID the window is
     * occupied and every footprint overlapping it becomes unavailable;
     * otherwise nothing changes.
     */
    method BindMolecule(proteinID: int, position: int, size: nat, checkOccupancy: bool) returns (r: int)
      requires Counted() && proteinID >= 0
      modifies occupied, avail, availSum, sectorSum
      ensures Counted()
      ensures r == CanBindResult(old(occupied[..]), closed[..], proteinID, position, size, checkOccupancy)
      ensures r == proteinID ==> occupied[..] == Fill(old(occupied[..]), proteinID, position, position + size)
      ensures r == proteinID ==> forall t :: 0 <= t < |tfSize| ==>
        Row(t) == Fill(old(Row(t)), false, position - tfSize[t] + 1, position + size)
      ensures r != proteinID ==> occupied[..] == old(occupied[..]) && forall t :: 0 <= t < |tfSize| ==> Row(t) == old(Row(t))
    {
      r := CanBind(proteinID, position, size, checkOccupancy);
      if r == proteinID {
        OccupyDNA(proteinID, position, size);
        RecomputeOnRepression(position, position + size - 1);
      }
    }

    /**
     * `unbindMolecule` with the guard it evidently intends (the position on
     * the strand): the window is freed and, unless the molecule represses
     * the DNA, the footprints around it are re-opened.
     */
    method UnbindMolecule(position: int, size: nat, repressing: bool) returns (canUnbind: bool)
      requires Counted() && size >= 1
      modifies occupied, avail, availSum, sectorSum
      ensures Counted()
      ensures canUnbind == UnbindGuard(position, size, length)
      ensures canUnbind ==> occupied[..] == Fill(old(occupied[..]), NONE, position, position + size)
      ensures canUnbind && !repressing ==> position >= 0 && forall t :: 0 <= t < |tfSize| ==>
        Row(t) == UnbindRow(occupied[..], closed[..], old(Row(t)), position, size, tfSize[t])
      ensures !canUnbind || repressing ==> forall t :: 0 <= t < |tfSize| ==> Row(t) == old(Row(t))
      ensures !canUnbind ==> occupied[..] == old(occupied[..])
    {
      canUnbind := false;
      if UnbindGuard(position, size, length) {
        canUnbind := true;
        FreeDNA(position, size);
        if !repressing {
          RecomputeOnUnbinding(position, size);
        }
      }
    }

    /**
     * `slideRight`: the molecule at [position, position + proteinSize) moves
     * stepSize base pairs right when the bounds test and, if asked, the
     * occupancy of the window it moves into allow it. On a strand that is
     * not reflexive a step past the end is not refused, and thrown says
     * when Java then indexes past the end (`ArrayIndexOutOfBoundsException`);
     * the strand is then left as it was.
     */
    method SlideRight(proteinID: int, position: nat, proteinSize: nat, stepSize: nat, checkOccupancy: bool)
      returns (canSlide: int, thrown: bool)
      requires Counted() && proteinID >= 0 && proteinSize >= 1 && position + proteinSize <= length
      modifies occupied, avail, availSum, sectorSum
      ensures Counted()
      ensures thrown == SlideRightThrows(old(occupied[..]), closed[..], isReflexive, proteinID,
        position + proteinSize, position + proteinSize + stepSize, checkOccupancy)
      ensures !thrown ==> canSlide == SlideResult(old(occupied[..]), closed[..], proteinID,
        SlideRightOffStrand(isReflexive, position + stepSize, length, proteinSize),
        position + proteinSize, Clip(position + proteinSize + stepSize, length), checkOccupancy)
      ensures !thrown && canSlide == proteinID ==> position + proteinSize + stepSize <= length
      ensures !thrown && canSlide == proteinID ==> occupied[..] == Fill(Fill(old(occupied[..]), proteinID,
        position + proteinSize, position + proteinSize + stepSize), NONE, position, position + stepSize)
      ensures !thrown && canSlide == proteinID ==> forall t :: 0 <= t < |tfSize| ==>
        Row(t) == SlideRightRow(occupied[..], closed[..], old(Row(t)), position, proteinSize, stepSize, tfSize[t])
      ensures thrown || canSlide != proteinID ==>
        occupied[..] == old(occupied[..]) && forall t :: 0 <= t < |tfSize| ==> Row(t) == old(Row(t))
    {
      canSlide, thrown := CanSlideRight(proteinID, position, proteinSize, stepSize, checkOccupancy);
      if !thrown && canSlide == proteinID {
        MoveRight(proteinID, position, proteinSize, stepSize);
      }
    }

    /**
     * The tests of `slideRight` that decide whether the molecule moves, and
     * whether they or the move index past the strand's end; nothing changes.
     * Past the end the scans read the base pairs up to the end.
     */
    method CanSlideRight(proteinID: int, position: nat, proteinSize: nat, stepSize: nat, checkOccupancy: bool)
      returns (canSlide: int, thrown: bool)
      requires Valid() && proteinID >= 0 && proteinSize >= 1 && position + proteinSize <= length
      ensures thrown == SlideRightThrows(occupied[..], closed[..], isReflexive, proteinID,
        position + proteinSize, position + proteinSize + stepSize, checkOccupancy)
      ensures !thrown ==> canSlide == SlideResult(occupied[..], closed[..], proteinID,
        SlideRightOffStrand(isReflexive, position + stepSize, length, proteinSize),
        position + proteinSize, Clip(position + proteinSize + stepSize, length), checkOccupancy)
      ensures !thrown && canSlide == proteinID ==> position + proteinSize + stepSize <= length
    {
      canSlide, thrown := proteinID, false;
      var newPosition := position + stepSize;
      if isReflexive && (newPosition < 0 || newPosition >= length - proteinSize) {
        canSlide := NONE;
      }
      var pastEnd := position + proteinSize + stepSize > length;
      var reach := if pastEnd then length - (position + proteinSize) else stepSize;
      if canSlide == proteinID && checkOccupancy {
        canSlide := GetBoundProtein(position + proteinSize, reach);
        if pastEnd && canSlide == NONE {
          return NONE, true;
        }
        var bpStatus := CheckAvailability(position + proteinSize, reach);
        if pastEnd && bpStatus == Open {
          return NONE, true;
        }
        if canSlide == NONE && bpStatus == Open {
          canSlide := proteinID;
        }
      }
      if canSlide == proteinID && pastEnd {
        // `occupyDNA` writes past the end
        thrown := true;
      }
    }

    /** The move of `slideRight` once it is allowed: occupancy and availability follow the molecule. */
    method MoveRight(proteinID: int, position: nat, proteinSize: nat, stepSize: nat)
      requires Counted() && proteinID >= 0 && proteinSize >= 1 && position + proteinSize <= length
      requires position + proteinSize + stepSize <= length
      modifies occupied, avail, availSum, sectorSum
      ensures Counted()
      ensures occupied[..] == Fill(Fill(old(occupied[..]), proteinID,
        position + proteinSize, position + proteinSize + stepSize), NONE, position, position + stepSize)
      ensures forall t :: 0 <= t < |tfSize| ==>
        Row(t) == SlideRightRow(occupied[..], closed[..], old(Row(t)), position, proteinSize, stepSize, tfSize[t])
    {
      OccupyDNA(proteinID, position + proteinSize, stepSize);
      FreeDNA(position, stepSize);
      RecomputeOnTFSlideRight(position, proteinSize, stepSize);
    }

    /**
     * `slideLeft`: the molecule at [position, position + proteinSize) moves
     * stepSize base pairs left when the bounds test (with Java's precedence)
     * and, if asked, the occupancy of the window it moves into allow it. On
     * a strand that is not reflexive a step past the start is not refused,
     * and thrown says that Java then indexes before the start
     * (`ArrayIndexOutOfBoundsException`); the strand is left as it was.
     */
    method SlideLeft(proteinID: int, position: nat, proteinSize: nat, stepSize: nat, checkOccupancy: bool)
      returns (canSlide: int, thrown: bool)
      requires Counted() && proteinID >= 0 && proteinSize >= 1 && position + proteinSize <= length
      modifies occupied, avail, availSum, sectorSum
      ensures Counted()
      ensures thrown == SlideLeftThrows(isReflexive, position - stepSize)
      ensures !thrown ==> canSlide == SlideResult(old(occupied[..]), closed[..], proteinID,
        SlideLeftOffStrand(isReflexive, position - stepSize, length, proteinSize),
        position - stepSize, position, checkOccupancy)
      ensures !thrown && canSlide == proteinID ==> occupied[..] == Fill(Fill(old(occupied[..]), proteinID,
        position - stepSize, position), NONE, position + proteinSize - stepSize, position + proteinSize)
      ensures !thrown && canSlide == proteinID ==> forall t :: 0 <= t < |tfSize| ==>
        Row(t) == SlideLeftRow(occupied[..], closed[..], old(Row(t)), position, proteinSize, stepSize, tfSize[t])
      ensures thrown || canSlide != proteinID ==>
        occupied[..] == old(occupied[..]) && forall t :: 0 <= t < |tfSize| ==> Row(t) == old(Row(t))
    {
      canSlide, thrown := CanSlideLeft(proteinID, position, proteinSize, stepSize, checkOccupancy);
      if !thrown && canSlide == proteinID {
        MoveLeft(proteinID, position, proteinSize, stepSize);
      }
    }

    /**
     * The tests of `slideLeft` that decide whether the molecule moves, and
     * whether the first read or write of the window falls before the
     * strand's start; nothing changes.
     */
    method CanSlideLeft(proteinID: int, position: nat, proteinSize: nat, stepSize: nat, checkOccupancy: bool)
      returns (canSlide: int, thrown: bool)
      requires Valid() && proteinID >= 0 && proteinSize >= 1 && position + proteinSize <= length
      ensures thrown == SlideLeftThrows(isReflexive, position - stepSize)
      ensures !thrown ==> canSlide == SlideResult(occupied[..], closed[..], proteinID,
        SlideLeftOffStrand(isReflexive, position - stepSize, length, proteinSize),
        position - stepSize, position, checkOccupancy)
    {
      canSlide, thrown := proteinID, false;
      var newPosition := position - stepSize;
      if (isReflexive && newPosition < 0) || newPosition >= length - proteinSize {
        canSlide := NONE;
      }
      if canSlide == proteinID && newPosition < 0 {
        // `getBoundProtein` or `occupyDNA` reads or writes index newPosition first
        return NONE, true;
      }
      if canSlide == proteinID && checkOccupancy {
        canSlide := GetBoundProtein(position - stepSize, stepSize);
        var bpStatus := CheckAvailability(position - stepSize, stepSize);
        if canSlide == NONE && bpStatus == Open {
          canSlide := proteinID;
        }
      }
    }

    /** The move of `slideLeft` once it is allowed: occupancy and availability follow the molecule. */
    method MoveLeft(proteinID: int, position: nat, proteinSize: nat, stepSize: nat)
      requires Counted() && proteinID >= 0 && proteinSize >= 1 && position + proteinSize <= length
      requires stepSize <= position
      modifies occupied, avail, availSum, sectorSum
      ensures Counted()
      ensures occupied[..] == Fill(Fill(old(occupied[..]), proteinID,
        position - stepSize, position), NONE, position + proteinSize - stepSize, position + proteinSize)
      ensures forall t :: 0 <= t < |tfSize| ==>
        Row(t) == SlideLeftRow(occupied[..], closed[..], old(Row(t)), position, proteinSize, stepSize, tfSize[t])
    {
      OccupyDNA(proteinID, position - stepSize, stepSize);
      FreeDNA(position + proteinSize - stepSize, stepSize);
      RecomputeOnTFSlideLeft(position, proteinSize, stepSize);
    }
  }
}
