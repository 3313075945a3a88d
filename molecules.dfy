/**
 * The DNA-binding molecules of the simulator: the abstract class DBP
 * (src/agents/DBP.java) and its only concrete subclass TF
 * (src/agents/TF.java), merged into one class `TF`, together with the lists
 * of free molecules the cell keeps per species.
 *
 * A molecule's own state (its position, the previous position, its
 * neighbours on the strand and the extremes of its sliding) is updated in
 * place; the neighbour links live in the cell's shared array of molecules.
 */
module Molecules {
  import opened Wrappers
  import opened JUtils
  import opened Events
  import opened DnaSpec
  import opened Dna
  import opened TfSpecies

  // ------------------------------------------------------------ free molecules

  /** The number of ids over all the lists. */
  function TotalLength(lists: seq<seq<int>>): int
  {
    if |lists| == 0 then 0 else TotalLength(lists[..|lists| - 1]) + |lists[|lists| - 1]|
  }

  /** Replacing one list changes the total by the change of its length. */
  lemma {:induction false} TotalLengthUpdate(lists: seq<seq<int>>, s: nat, l: seq<int>)
    requires s < |lists|
    ensures TotalLength(lists[s := l]) == TotalLength(lists) - |lists[s]| + |l|
  {
    var n := |lists| - 1;
    if s < n {
      assert lists[s := l][..n] == lists[..n][s := l];
      TotalLengthUpdate(lists[..n], s, l);
    } else {
      assert lists[s := l][..n] == lists[..n];
    }
  }

  /** The cell's `freeTFmolecules` (one list of ids per species) and `freeTFmoleculesTotal`. */
  class FreeMolecules {
    var lists: seq<seq<int>>
    var total: int

    /** The running total is the number of free ids. */
    ghost predicate Counted()
      reads this
    {
      total == TotalLength(lists)
    }

    constructor (lists: seq<seq<int>>)
      ensures this.lists == lists && Counted()
    {
      this.lists := lists;
      total := TotalLength(lists);
    }

    /** On binding: the species' last free id leaves its list and the total drops by one. */
    method RemoveLast(s: nat)
      requires Counted() && s < |lists| && |lists[s]| > 0
      modifies this`lists, this`total
      ensures Counted()
      ensures lists == old(lists[s := lists[s][..|lists[s]| - 1]]) && total == old(total) - 1
    {
      TotalLengthUpdate(lists, s, lists[s][..|lists[s]| - 1]);
      total := total - 1;
      lists := lists[s := lists[s][..|lists[s]| - 1]];
    }

    /** On unbinding: the id goes back at the end of its species' list and the total grows by one. */
    method Append(s: nat, id: int)
      requires Counted() && s < |lists|
      modifies this`lists, this`total
      ensures Counted()
      ensures lists == old(lists[s := lists[s] + [id]]) && total == old(total) + 1
    {
      TotalLengthUpdate(lists, s, lists[s] + [id]);
      total := total + 1;
      lists := lists[s := lists[s] + [id]];
    }
  }

  // ------------------------------------------------------------ the shared array of molecules

  /** The molecules of the array `dbp`. */
  ghost function Objects(dbp: array<TF>): set<TF>
    reads dbp
  {
    set k | 0 <= k < dbp.Length :: dbp[k]
  }

  /** Every molecule sits at the index of its id. */
  ghost predicate Indexed(dbp: array<TF>)
    reads dbp
  {
    forall k :: 0 <= k < dbp.Length ==> dbp[k].id == k
  }

  function LeftOf(dbp: array<TF>, k: int): int
    requires 0 <= k < dbp.Length
    reads dbp, {dbp[k]}`leftNeighbour
  {
    dbp[k].leftNeighbour
  }

  function RightOf(dbp: array<TF>, k: int): int
    requires 0 <= k < dbp.Length
    reads dbp, {dbp[k]}`rightNeighbour
  {
    dbp[k].rightNeighbour
  }

  /** Neighbour links are mutual: a's right neighbour is b exactly when b's left neighbour is a. */
  ghost predicate Consistent(dbp: array<TF>)
    reads dbp, Objects(dbp)`leftNeighbour, Objects(dbp)`rightNeighbour
  {
    (forall k :: 0 <= k < dbp.Length && RightOf(dbp, k) != NONE ==>
       0 <= RightOf(dbp, k) < dbp.Length && LeftOf(dbp, RightOf(dbp, k)) == k) &&
    (forall k :: 0 <= k < dbp.Length && LeftOf(dbp, k) != NONE ==>
       0 <= LeftOf(dbp, k) < dbp.Length && RightOf(dbp, LeftOf(dbp, k)) == k)
  }

  /** Every link is NONE or names a molecule of the array. */
  ghost predicate LinksKnown(dbp: array<TF>)
    reads dbp, Objects(dbp)`leftNeighbour, Objects(dbp)`rightNeighbour
  {
    forall k :: 0 <= k < dbp.Length ==>
      NONE <= LeftOf(dbp, k) < dbp.Length && NONE <= RightOf(dbp, k) < dbp.Length
  }

  /** Mutual links name molecules of the array. */
  lemma ConsistentLinksKnown(dbp: array<TF>)
    requires Consistent(dbp)
    ensures LinksKnown(dbp)
  {
    forall k | 0 <= k < dbp.Length
      ensures NONE <= LeftOf(dbp, k) < dbp.Length && NONE <= RightOf(dbp, k) < dbp.Length
    {
      if LeftOf(dbp, k) != NONE {
        assert 0 <= LeftOf(dbp, k);
      }
      if RightOf(dbp, k) != NONE {
        assert 0 <= RightOf(dbp, k);
      }
    }
  }

  /** Every occupant the strand records is NONE or a molecule of the array. */
  ghost predicate OccupantsKnown(dna: DNA, dbp: array<TF>)
    reads dna.occupied
  {
    forall j :: 0 <= j < dna.occupied.Length ==> NONE <= dna.occupied[j] < dbp.Length
  }

  /** A base pair of [position, position + size) is repressed. */
  predicate RepressedWithin(closed: seq<BpState>, position: int, size: int) {
    exists i :: position <= i < position + size && 0 <= i < |closed| && closed[i] == Repressed
  }

  // ------------------------------------------------------------ what `act` does with an event

  /** The outcome `act` selects for a random-walk or binding event. */
  datatype Move =
    | Bind                      // bind a free molecule of the species
    | Unbind                    // jump off the strand
    | Stall                     // blocked by repression and stalling: nothing moves
    | HopOutside                // a hop off the strand: unbind, count a hop outside
    | ForcedJump                // a hop too far: unbind, count a forced jump
    | HopSamePosition           // a hop that lands where it started
    | Hop(target: int)          // `hopMolecule` to target
    | SlideLeft(target: int)    // `slideLeftMolecule` to target
    | SlideRight(target: int)   // `slideRightMolecule` to target
    | Reset                     // reflected at a strand end: `resetPosition`
    | Nothing                   // an action `act` does not handle

  /** The strand's boundary condition and the molecule's surroundings as `act` reads them. */
  datatype Surroundings = Surroundings(length: int, isAbsorbing: bool, isPeriodic: bool,
                                       uncorrelatedDisplacementSize: int, stallsIfBlocked: bool)

  /** `Math.abs` on ints, away from the 32-bit extremes. */
  function Abs(x: int): int { if x < 0 then -x else x }

  /**
   * The decision of `act` (src/agents/TF.java:66-170) for event pe of a
   * molecule at position with footprint size that is repressed or not;
   * `redraw` says whether the direction is drawn again afterwards.
   */
  function Dispatch(pe: ProteinEvent, acts: ActionIds, position: int, size: int, repressed: bool,
                    env: Surroundings): (r: (Move, bool))
    ensures pe.nextAction == acts.binding ==> r.0 == Bind
    ensures pe.nextAction != acts.binding && pe.nextAction == acts.jump ==> r.0 == Unbind
    ensures r.1 ==> pe.isHoppingEvent
  {
    if pe.nextAction == acts.binding then (Bind, false)
    else if pe.nextAction == acts.jump then (Unbind, false)
    else if repressed then (if env.stallsIfBlocked then Stall else Unbind, false)
    else if pe.nextAction == acts.hop then
      (if pe.position < 0 || pe.position > env.length - size then HopOutside
       else if Abs(pe.position - position) > env.uncorrelatedDisplacementSize then ForcedJump
       else if pe.position == position then HopSamePosition
       else Hop(pe.position), false)
    else if pe.nextAction == acts.slideLeft then
      if env.isAbsorbing && pe.position < 0 then (Unbind, false)
      else if env.isPeriodic && pe.position < 0 then (Hop(env.length - size - 1), false)
      else (if pe.position >= 0 then SlideLeft(pe.position) else Reset, pe.isHoppingEvent)
    else if pe.nextAction == acts.slideRight then
      if env.isAbsorbing && pe.position >= env.length - size then (Unbind, false)
      else if env.isPeriodic && pe.position >= env.length - size then (Hop(0), false)
      else (if pe.position < env.length - size then SlideRight(pe.position) else Reset, pe.isHoppingEvent)
    else (Nothing, false)
  }

  /**
   * Hops of a bound molecule that is not repressed are classified by their
   * target: off the strand, farther than the uncorrelated displacement,
   * the same position, or a genuine hop to a position on the strand.
   */
  lemma DispatchHop(pe: ProteinEvent, acts: ActionIds, position: int, size: int, env: Surroundings)
    requires acts.Distinct() && pe.nextAction == acts.hop
    ensures var m := Dispatch(pe, acts, position, size, false, env).0;
      (m == HopOutside <==> pe.position < 0 || pe.position > env.length - size) &&
      (m == ForcedJump <==> 0 <= pe.position <= env.length - size &&
                            Abs(pe.position - position) > env.uncorrelatedDisplacementSize) &&
      (m == HopSamePosition <==> 0 <= pe.position <= env.length - size && pe.position == position &&
                                 0 <= env.uncorrelatedDisplacementSize) &&
      (m.Hop? ==> m.target == pe.position && m.target != position && 0 <= m.target <= env.length - size &&
                  Abs(m.target - position) <= env.uncorrelatedDisplacementSize)
  {
    var ids := [acts.binding, acts.jump, acts.hop, acts.slideLeft, acts.slideRight, acts.repression, acts.unrepression];
    assert ids[0] != ids[2] && ids[1] != ids[2];
  }

  /**
   * A repressed molecule never moves along the strand: every action other
   * than binding unbinds it, unless its species stalls when blocked, in
   * which case a non-jump move does nothing.
   */
  lemma DispatchRepressed(pe: ProteinEvent, acts: ActionIds, position: int, size: int, env: Surroundings)
    requires pe.nextAction != acts.binding
    ensures var m := Dispatch(pe, acts, position, size, true, env).0;
      (m == Unbind <==> pe.nextAction == acts.jump || !env.stallsIfBlocked) &&
      (m == Stall <==> pe.nextAction != acts.jump && env.stallsIfBlocked)
  {
  }

  /** Where `hopMolecule` sends a hop to newPosition. */
  datatype HopRoute = ViaSlideRight | ViaSlideLeft | ViaRebind

  /**
   * `hopMolecule`'s redirect: a hop shorter than the footprint is a slide
   * in its direction; any other hop unbinds and rebinds.
   */
  function RouteOfHop(position: int, newPosition: int, size: int): (r: HopRoute)
    ensures r == ViaSlideRight <==> position < newPosition < position + size
    ensures r == ViaSlideLeft <==> !(position < newPosition < position + size) && position - size < newPosition < position
    ensures r == ViaRebind ==> newPosition == position || newPosition >= position + size || newPosition <= position - size
  {
    if position < newPosition && newPosition < position + size then ViaSlideRight
    else if position - size < newPosition && newPosition < position then ViaSlideLeft
    else ViaRebind
  }

  /** Filling a window of the strand's known occupants with a known occupant keeps them known. */
  lemma FillKnown(dna: DNA, dbp: array<TF>, before: seq<int>, id: int, lo: int, hi: int)
    requires dna.occupied[..] == Fill(before, id, lo, hi) && NONE <= id < dbp.Length
    requires forall j :: 0 <= j < |before| ==> NONE <= before[j] < dbp.Length
    ensures OccupantsKnown(dna, dbp)
  {
    forall j | 0 <= j < dna.occupied.Length
      ensures NONE <= dna.occupied[j] < dbp.Length
    {
      assert dna.occupied[j] == dna.occupied[..][j];
    }
  }

  // ------------------------------------------------------------ the molecule

  class TF {
    /** `ID`, `size` (the species' total footprint) and `speciesID`: set once, by a constructor. */
    const id: int
    const size: int
    const speciesID: int
    const hasDnaCoop: bool
    const hasDirectCoop: bool
    /** The molecule's pending random-walk or repression event (Java's null is None). */
    var pe: Option<ProteinEvent>
    var re: Option<RepressionEvent>
    var moveRate: real
    var repressionEventRate: real
    var leftNeighbour: int
    var rightNeighbour: int
    var leftMostPosition: int
    var rightMostPosition: int
    var observedLeftMostPosition: int
    var observedRightMostPosition: int
    var slidingEvents: int
    var position: int
    var lastPosition: int
    var timeOfLastPositionChange: real
    var repressesDNA: bool
    var direction: int
    var wasBound: bool

    /** The nine-argument constructor of TF (and the five-argument one of DBP it calls). */
    constructor (id: int, position: int, lastPosition: int, timeOfLastPositionChange: int, speciesID: int,
                 size: int, direction: int, hasDnaCoop: bool, hasDirectCoop: bool)
      ensures this.id == id && this.position == position && this.lastPosition == lastPosition
      ensures this.timeOfLastPositionChange == timeOfLastPositionChange as real
      ensures this.speciesID == speciesID && this.size == size && this.direction == direction
      ensures this.hasDnaCoop == hasDnaCoop && this.hasDirectCoop == hasDirectCoop
      ensures leftNeighbour == NONE && rightNeighbour == NONE && pe.None? && re.None?
      ensures moveRate == NONE as real && repressionEventRate == NONE as real
      ensures leftMostPosition == NONE && rightMostPosition == NONE && slidingEvents == 0
      ensures observedLeftMostPosition == NONE && observedRightMostPosition == NONE
      ensures !repressesDNA && !wasBound
    {
      this.id := id;
      this.position := position;
      this.lastPosition := lastPosition;
      this.timeOfLastPositionChange := timeOfLastPositionChange as real;
      this.size := size;
      moveRate := NONE as real;
      repressionEventRate := NONE as real;
      leftNeighbour := NONE;
      rightNeighbour := NONE;
      pe := None;
      re := None;
      leftMostPosition := NONE;
      rightMostPosition := NONE;
      observedLeftMostPosition := NONE;
      observedRightMostPosition := NONE;
      slidingEvents := 0;
      wasBound := false;
      this.speciesID := speciesID;
      this.direction := direction;
      this.hasDnaCoop := hasDnaCoop;
      this.hasDirectCoop := hasDirectCoop;
      repressesDNA := false;
    }

    /** The empty constructor: a free molecule of no species. */
    constructor Empty()
      ensures id == NONE && position == NONE && lastPosition == NONE && timeOfLastPositionChange == 0.0
      ensures size == 0 && speciesID == NONE && direction == NONE && !hasDnaCoop && !hasDirectCoop
      ensures leftNeighbour == NONE && rightNeighbour == NONE && pe.None? && re.None?
      ensures leftMostPosition == NONE && rightMostPosition == NONE && slidingEvents == 0
      ensures observedLeftMostPosition == NONE && observedRightMostPosition == NONE
      ensures moveRate == NONE as real && repressionEventRate == NONE as real && !repressesDNA && !wasBound
    {
      id := NONE;
      position := NONE;
      lastPosition := NONE;
      timeOfLastPositionChange := 0.0;
      size := 0;
      moveRate := NONE as real;
      repressionEventRate := NONE as real;
      leftNeighbour := NONE;
      rightNeighbour := NONE;
      pe := None;
      re := None;
      leftMostPosition := NONE;
      rightMostPosition := NONE;
      observedLeftMostPosition := NONE;
      observedRightMostPosition := NONE;
      slidingEvents := 0;
      wasBound := false;
      speciesID := NONE;
      direction := NONE;
      hasDnaCoop := false;
      hasDirectCoop := false;
      repressesDNA := false;
    }

    // ---------------------------------------------------------- position

    /** `setPosition`: the old position becomes the last one. */
    method SetPosition(newPosition: int, time: real)
      modifies this`position, this`lastPosition, this`timeOfLastPositionChange
      ensures position == newPosition && lastPosition == old(position) && timeOfLastPositionChange == time
    {
      lastPosition := position;
      position := newPosition;
      timeOfLastPositionChange := time;
    }

    /** `clearPosition`: the molecule is free; its old position becomes the last one. */
    method ClearPosition(time: real)
      modifies this`position, this`lastPosition, this`timeOfLastPositionChange
      ensures position == NONE && lastPosition == old(position) && timeOfLastPositionChange == time
    {
      lastPosition := position;
      position := NONE;
      timeOfLastPositionChange := time;
    }

    /** `resetPosition`: the molecule stays, and its last position is where it is. */
    method ResetPosition(time: real)
      modifies this`lastPosition, this`timeOfLastPositionChange
      ensures lastPosition == position && timeOfLastPositionChange == time
    {
      lastPosition := position;
      timeOfLastPositionChange := time;
    }

    /** `directionToString`. */
    function DirectionToString(): (r: string)
      reads this`direction
      ensures r == "5'->3' " <==> direction == 0
      ensures r == "3'->5' " <==> direction == 1
      ensures r == "none" <==> direction != 0 && direction != 1
    {
      if direction == 1 then "3'->5' " else if direction == 0 then "5'->3' " else "none"
    }

    /**
     * `isRepressed`: a free molecule is never repressed; a bound one is when
     * some base pair under its footprint is.
     */
    method IsRepressed(dna: DNA) returns (r: bool)
      requires dna.Valid()
      requires position == NONE || 0 <= position <= dna.length - size
      ensures r == (position != NONE && RepressedWithin(dna.closed[..], position, size))
    {
      if position == NONE {
        return false;
      }
      var i := 0;
      while i < size
        invariant 0 <= i <= if size < 0 then 0 else size
        invariant forall j :: position <= j < position + i ==> dna.closed[j] != Repressed
      {
        if dna.closed[position + i] == Repressed {
          return true;
        }
        i := i + 1;
      }
      return false;
    }

    // ---------------------------------------------------------- sliding extremes

    function SlidingLength(): int
      reads this`leftMostPosition, this`rightMostPosition
    {
      rightMostPosition - leftMostPosition
    }

    function ObservedSlidingLength(): int
      reads this`observedLeftMostPosition, this`observedRightMostPosition
    {
      observedRightMostPosition - observedLeftMostPosition
    }

    /** The sliding extremes enclose the stretch slid over, and the events are counted from zero. */
    ghost predicate SlidingOrdered()
      reads this`leftMostPosition, this`rightMostPosition, this`slidingEvents
    {
      leftMostPosition <= rightMostPosition && slidingEvents >= 0
    }

    ghost predicate ObservedOrdered()
      reads this`observedLeftMostPosition, this`observedRightMostPosition
    {
      observedLeftMostPosition <= observedRightMostPosition
    }

    /** `initSlidingExtremes`. */
    method InitSlidingExtremes()
      modifies this`leftMostPosition, this`rightMostPosition, this`slidingEvents
      ensures leftMostPosition == position && rightMostPosition == position && slidingEvents == 0
      ensures SlidingOrdered() && SlidingLength() == 0
    {
      leftMostPosition := position;
      rightMostPosition := position;
      slidingEvents := 0;
    }

    /** `setLeftSlidingExtreme`: the left extreme moves out to the position, and one more event. */
    method SetLeftSlidingExtreme()
      modifies this`leftMostPosition, this`slidingEvents
      ensures leftMostPosition <= old(leftMostPosition) && leftMostPosition <= position
      ensures leftMostPosition == old(leftMostPosition) || leftMostPosition == position
      ensures slidingEvents == old(slidingEvents) + 1
      ensures SlidingLength() >= old(SlidingLength())
      ensures old(SlidingOrdered()) ==> SlidingOrdered()
    {
      if position < leftMostPosition {
        leftMostPosition := position;
      }
      slidingEvents := slidingEvents + 1;
    }

    /** `setRightSlidingExtreme`: the right extreme moves out to the position, and one more event. */
    method SetRightSlidingExtreme()
      modifies this`rightMostPosition, this`slidingEvents
      ensures rightMostPosition >= old(rightMostPosition) && rightMostPosition >= position
      ensures rightMostPosition == old(rightMostPosition) || rightMostPosition == position
      ensures slidingEvents == old(slidingEvents) + 1
      ensures SlidingLength() >= old(SlidingLength())
      ensures old(SlidingOrdered()) ==> SlidingOrdered()
    {
      if position > rightMostPosition {
        rightMostPosition := position;
      }
      slidingEvents := slidingEvents + 1;
    }

    /** `incrementSlidingEvents`. */
    method IncrementSlidingEvents()
      modifies this`slidingEvents
      ensures slidingEvents == old(slidingEvents) + 1
    {
      slidingEvents := slidingEvents + 1;
    }

    /** `initObservedSlidingExtremes()`. */
    method InitObservedSlidingExtremes()
      modifies this`observedLeftMostPosition, this`observedRightMostPosition
      ensures observedLeftMostPosition == position && observedRightMostPosition == position
      ensures ObservedOrdered() && ObservedSlidingLength() == 0
    {
      observedLeftMostPosition := position;
      observedRightMostPosition := position;
    }

    /** `initObservedSlidingExtremes(left, right)`. */
    method InitObservedSlidingExtremesTo(left: int, right: int)
      modifies this`observedLeftMostPosition, this`observedRightMostPosition
      ensures observedLeftMostPosition == left && observedRightMostPosition == right
      ensures ObservedSlidingLength() == right - left
    {
      observedLeftMostPosition := left;
      observedRightMostPosition := right;
    }

    /** `setObservedLeftSlidingExtreme`: widen to the left, no event counted. */
    method SetObservedLeftSlidingExtreme()
      modifies this`observedLeftMostPosition
      ensures observedLeftMostPosition <= old(observedLeftMostPosition) && observedLeftMostPosition <= position
      ensures observedLeftMostPosition == old(observedLeftMostPosition) || observedLeftMostPosition == position
      ensures ObservedSlidingLength() >= old(ObservedSlidingLength())
      ensures old(ObservedOrdered()) ==> ObservedOrdered()
    {
      if position < observedLeftMostPosition {
        observedLeftMostPosition := position;
      }
    }

    /** `setObservedRightSlidingExtreme`: widen to the right, no event counted. */
    method SetObservedRightSlidingExtreme()
      modifies this`observedRightMostPosition
      ensures observedRightMostPosition >= old(observedRightMostPosition) && observedRightMostPosition >= position
      ensures observedRightMostPosition == old(observedRightMostPosition) || observedRightMostPosition == position
      ensures ObservedSlidingLength() >= old(ObservedSlidingLength())
      ensures old(ObservedOrdered()) ==> ObservedOrdered()
    {
      if position > observedRightMostPosition {
        observedRightMostPosition := position;
      }
    }

    // ---------------------------------------------------------- rates and direction

    /**
     * `updateRepressionRate`: no repression for a free molecule; a molecule
     * that represses the DNA releases it at the remodeller's rate weakened
     * by the species' attenuation factor; otherwise it represses at its
     * species' rate.
     */
    method UpdateRepressionRate(derepressionRate: real, species: TFSpecies)
      requires position != NONE && repressesDNA ==> species.args.repressionAttenuationFactor != 0.0
      modifies this`repressionEventRate
      ensures position == NONE ==> repressionEventRate == 0.0
      ensures position != NONE && repressesDNA ==>
        repressionEventRate * species.args.repressionAttenuationFactor == derepressionRate
      ensures position != NONE && !repressesDNA ==> repressionEventRate == species.args.repressionRate
    {
      if position == NONE {
        repressionEventRate := 0.0;
      } else if repressesDNA {
        repressionEventRate := derepressionRate / species.args.repressionAttenuationFactor;
      } else {
        repressionEventRate := species.args.repressionRate;
      }
    }

    /**
     * `changeDirection` with draw the value of `nextInt(TFreadingDirection)`
     * and newMoveRate the species' move rate in the drawn direction: only
     * with more than one reading direction, and the move rate changes only
     * when the direction does.
     */
    method ChangeDirection(readingDirections: int, draw: int, newMoveRate: real)
      requires IsInt(readingDirections)
      requires readingDirections > 1 ==> 0 <= draw < readingDirections
      modifies this`direction, this`moveRate
      ensures readingDirections <= 1 ==> direction == old(direction) && moveRate == old(moveRate)
      ensures readingDirections > 1 ==> direction == draw && 0 <= direction < readingDirections
      ensures readingDirections > 1 && draw != old(direction) ==> moveRate == newMoveRate
      ensures draw == old(direction) ==> moveRate == old(moveRate)
    {
      if readingDirections > 1 {
        var newDirection := GenerateNextInteger(0, readingDirections, draw);
        if newDirection.value != direction {
          direction := newDirection.value;
          moveRate := newMoveRate;
        }
      }
    }

    // ---------------------------------------------------------- neighbours

    /**
     * `setNeighboursOnBinding`: the molecule links to the occupants just
     * outside its footprint, and they link back to it.
     */
    method SetNeighboursOnBinding(dna: DNA, dbp: array<TF>)
      requires dna.Valid() && OccupantsKnown(dna, dbp) && Indexed(dbp) && LinksKnown(dbp)
      requires 0 <= id < dbp.Length && dbp[id] == this
      requires 0 <= position && position + size <= dna.length && size >= 1
      modifies Objects(dbp)`leftNeighbour, Objects(dbp)`rightNeighbour
      ensures LinksKnown(dbp)
      ensures var l := dna.GetLeftNeighbour(position);
        var r := dna.GetRightNeighbour(position + size - 1);
        (r != id ==> leftNeighbour == l) && (l != id ==> rightNeighbour == r) &&
        (l != NONE && l != id ==> dbp[l].rightNeighbour == id) &&
        (r != NONE && r != id ==> dbp[r].leftNeighbour == id)
      ensures forall k :: 0 <= k < dbp.Length && k != id && k != dna.GetLeftNeighbour(position) ==>
        dbp[k].rightNeighbour == old(dbp[k].rightNeighbour)
      ensures forall k :: 0 <= k < dbp.Length && k != id && k != dna.GetRightNeighbour(position + size - 1) ==>
        dbp[k].leftNeighbour == old(dbp[k].leftNeighbour)
    {
      var l, r := dna.GetLeftNeighbour(position), dna.GetRightNeighbour(position + size - 1);
      LinkLeft(dbp, l);
      assert LeftOf(dbp, id) == l;
      LinkRight(dbp, r);
      assert r != id ==> LeftOf(dbp, id) == l;
      forall k | 0 <= k < dbp.Length && k != id && k != l
        ensures dbp[k].rightNeighbour == old(dbp[k].rightNeighbour)
      {
        assert RightOf(dbp, k) == old(RightOf(dbp, k));
      }
      forall k | 0 <= k < dbp.Length && k != id && k != r
        ensures dbp[k].leftNeighbour == old(dbp[k].leftNeighbour)
      {
        assert LeftOf(dbp, k) == old(LeftOf(dbp, k));
      }
    }

    /** The first half of `setNeighboursOnBinding`: the link to the left occupant and back. */
    method LinkLeft(dbp: array<TF>, l: int)
      requires Indexed(dbp) && LinksKnown(dbp) && 0 <= id < dbp.Length && dbp[id] == this && NONE <= l < dbp.Length
      modifies this`leftNeighbour, Objects(dbp)`rightNeighbour
      ensures LinksKnown(dbp)
      ensures leftNeighbour == l && (l != NONE ==> dbp[l].rightNeighbour == id)
      ensures forall k :: 0 <= k < dbp.Length && k != l ==> RightOf(dbp, k) == old(RightOf(dbp, k))
    {
      leftNeighbour := l;
      if l != NONE {
        dbp[l].rightNeighbour := id;
      }
      forall k | 0 <= k < dbp.Length
        ensures NONE <= LeftOf(dbp, k) < dbp.Length && NONE <= RightOf(dbp, k) < dbp.Length
      {
        assert k != id ==> LeftOf(dbp, k) == old(LeftOf(dbp, k));
      }
    }

    /** The second half of `setNeighboursOnBinding`: the link to the right occupant and back. */
    method LinkRight(dbp: array<TF>, r: int)
      requires Indexed(dbp) && LinksKnown(dbp) && 0 <= id < dbp.Length && dbp[id] == this && NONE <= r < dbp.Length
      modifies this`rightNeighbour, Objects(dbp)`leftNeighbour
      ensures LinksKnown(dbp)
      ensures rightNeighbour == r && (r != NONE ==> dbp[r].leftNeighbour == id)
      ensures forall k :: 0 <= k < dbp.Length && k != r ==> LeftOf(dbp, k) == old(LeftOf(dbp, k))
    {
      rightNeighbour := r;
      if r != NONE {
        dbp[r].leftNeighbour := id;
      }
      forall k | 0 <= k < dbp.Length
        ensures NONE <= LeftOf(dbp, k) < dbp.Length && NONE <= RightOf(dbp, k) < dbp.Length
      {
        assert k != id ==> RightOf(dbp, k) == old(RightOf(dbp, k));
      }
    }

    /**
     * `setNeighboursOnUnbinding`: both links of the molecule and the links
     * back to it are cleared, so mutual links stay mutual and nobody is
     * left pointing at the molecule.
     */
    method SetNeighboursOnUnbinding(dbp: array<TF>)
      requires Indexed(dbp) && Consistent(dbp)
      requires 0 <= id < dbp.Length && dbp[id] == this
      modifies Objects(dbp)`leftNeighbour, Objects(dbp)`rightNeighbour
      ensures leftNeighbour == NONE && rightNeighbour == NONE
      ensures Consistent(dbp)
      ensures forall k :: 0 <= k < dbp.Length ==> LeftOf(dbp, k) != id && RightOf(dbp, k) != id
    {
      ghost var l, r := LeftOf(dbp, id), RightOf(dbp, id);
      if leftNeighbour != NONE {
        dbp[leftNeighbour].rightNeighbour := NONE;
        leftNeighbour := NONE;
      }
      if rightNeighbour != NONE {
        dbp[rightNeighbour].leftNeighbour := NONE;
        rightNeighbour := NONE;
      }
      forall k | 0 <= k < dbp.Length && RightOf(dbp, k) != NONE
        ensures 0 <= RightOf(dbp, k) < dbp.Length && LeftOf(dbp, RightOf(dbp, k)) == k
      {
        assert k != id && k != l;
        var n := old(RightOf(dbp, k));
        assert RightOf(dbp, k) == n && old(LeftOf(dbp, n)) == k;
        assert n != id && n != r;
      }
      forall k | 0 <= k < dbp.Length && LeftOf(dbp, k) != NONE
        ensures 0 <= LeftOf(dbp, k) < dbp.Length && RightOf(dbp, LeftOf(dbp, k)) == k
      {
        assert k != id && k != r;
        var n := old(LeftOf(dbp, k));
        assert LeftOf(dbp, k) == n && old(RightOf(dbp, n)) == k;
        assert n != id && n != l;
      }
      assert LeftOf(dbp, id) == NONE && RightOf(dbp, id) == NONE;
    }

    /**
     * `setNeighboursOnSlideLeft`: the molecule links to the occupant now
     * just left of it, which links back, and its old right neighbour and it
     * forget each other.
     */
    method SetNeighboursOnSlideLeft(dna: DNA, dbp: array<TF>)
      requires dna.Valid() && OccupantsKnown(dna, dbp) && Indexed(dbp) && LinksKnown(dbp)
      requires 0 <= id < dbp.Length && dbp[id] == this
      requires 0 <= position <= dna.length
      modifies Objects(dbp)`leftNeighbour, Objects(dbp)`rightNeighbour
      ensures LinksKnown(dbp)
      ensures var l := dna.GetLeftNeighbour(position);
        var r := old(rightNeighbour);
        rightNeighbour == NONE &&
        (l != id && r != id ==> leftNeighbour == l) &&
        (l != NONE && l != id ==> dbp[l].rightNeighbour == id) &&
        (r != NONE && r != id && l != id ==> 0 <= r < dbp.Length && dbp[r].leftNeighbour == NONE)
    {
      assert RightOf(dbp, id) == rightNeighbour;
      leftNeighbour := dna.GetLeftNeighbour(position);
      if leftNeighbour != NONE {
        dbp[leftNeighbour].rightNeighbour := id;
      }
      if rightNeighbour != NONE {
        dbp[rightNeighbour].leftNeighbour := NONE;
        rightNeighbour := NONE;
      }
    }

    /**
     * `setNeighboursOnSlideRight`: the mirror image; the old left
     * neighbour and the molecule forget each other, and it links to the
     * occupant now just right of its footprint, which links back.
     */
    method SetNeighboursOnSlideRight(dna: DNA, dbp: array<TF>)
      requires dna.Valid() && OccupantsKnown(dna, dbp) && Indexed(dbp) && LinksKnown(dbp)
      requires 0 <= id < dbp.Length && dbp[id] == this
      requires 0 <= position && size >= 0
      modifies Objects(dbp)`leftNeighbour, Objects(dbp)`rightNeighbour
      ensures LinksKnown(dbp)
      ensures var l := old(leftNeighbour);
        var r := dna.GetRightNeighbour(position + size - 1);
        (r != id ==> leftNeighbour == NONE) && rightNeighbour == r &&
        (l != NONE && l != id ==> 0 <= l < dbp.Length && dbp[l].rightNeighbour == NONE) &&
        (r != NONE && r != id ==> dbp[r].leftNeighbour == id)
    {
      assert LeftOf(dbp, id) == leftNeighbour;
      if leftNeighbour != NONE {
        dbp[leftNeighbour].rightNeighbour := NONE;
        leftNeighbour := NONE;
      }
      rightNeighbour := dna.GetRightNeighbour(position + size - 1);
      if rightNeighbour != NONE {
        dbp[rightNeighbour].leftNeighbour := id;
      }
    }

    // ---------------------------------------------------------- binding and unbinding

    /**
     * The molecule's own part of a binding: it takes the position, the
     * direction and the move rate there, and, when sliding lengths are
     * recorded, starts both sliding windows at the new footprint.
     */
    method Settle(newPosition: int, time: real, newDirection: int, newMoveRate: real, outputSlidingLengths: bool)
      modifies this`position, this`lastPosition, this`timeOfLastPositionChange, this`direction, this`moveRate
      modifies this`wasBound, this`leftMostPosition, this`rightMostPosition, this`slidingEvents
      modifies this`observedLeftMostPosition, this`observedRightMostPosition
      ensures position == newPosition && lastPosition == old(position) && timeOfLastPositionChange == time
      ensures direction == newDirection && moveRate == newMoveRate && wasBound
      ensures outputSlidingLengths ==>
        SlidingOrdered() && SlidingLength() == 0 && ObservedOrdered() && ObservedSlidingLength() == 0
    {
      SetPosition(newPosition, time);
      direction := newDirection;
      moveRate := newMoveRate;
      wasBound := true;
      if outputSlidingLengths {
        InitSlidingExtremes();
        InitObservedSlidingExtremes();
      }
    }

    /**
     * The bookkeeping of `bindMolecule` once the strand has accepted the
     * molecule: it settles at newPosition, the species counts a binding,
     * the last entry of the species' free list is removed and its
     * repression rate is refreshed (derepressionRate is the remodeller's).
     */
    method BookBinding(pool: FreeMolecules, species: TFSpecies, time: real, newPosition: int, newDirection: int,
                       newMoveRate: real, outputSlidingLengths: bool, derepressionRate: real)
      requires newPosition != NONE && (repressesDNA ==> species.args.repressionAttenuationFactor != 0.0)
      requires pool.Counted() && 0 <= speciesID < |pool.lists| && |pool.lists[speciesID]| > 0
      modifies this`position, this`lastPosition, this`timeOfLastPositionChange, this`direction, this`moveRate
      modifies this`wasBound, this`leftMostPosition, this`rightMostPosition, this`slidingEvents
      modifies this`observedLeftMostPosition, this`observedRightMostPosition, this`repressionEventRate
      modifies pool`lists, pool`total, species`countBinding
      ensures pool.Counted()
      ensures position == newPosition && lastPosition == old(position) && timeOfLastPositionChange == time
      ensures direction == newDirection && moveRate == newMoveRate && wasBound
      ensures species.countBinding == old(species.countBinding) + 1 && pool.total == old(pool.total) - 1
      ensures pool.lists == old(pool.lists[speciesID := pool.lists[speciesID][..|pool.lists[speciesID]| - 1]])
      ensures !repressesDNA ==> repressionEventRate == species.args.repressionRate
      ensures repressesDNA ==> repressionEventRate * species.args.repressionAttenuationFactor == derepressionRate
      ensures outputSlidingLengths ==>
        SlidingOrdered() && SlidingLength() == 0 && ObservedOrdered() && ObservedSlidingLength() == 0
    {
      Settle(newPosition, time, newDirection, newMoveRate, outputSlidingLengths);
      species.countBinding := species.countBinding + 1;
      pool.RemoveLast(speciesID);
      UpdateRepressionRate(derepressionRate, species);
    }

    /**
     * What `bindMolecule` does once the strand has accepted the molecule at
     * newPosition: the bookkeeping, then the links to its neighbours.
     */
    method TakeBoundState(dna: DNA, dbp: array<TF>, pool: FreeMolecules, species: TFSpecies, time: real,
                          newPosition: int, newDirection: int, newMoveRate: real, outputSlidingLengths: bool,
                          derepressionRate: real)
      requires dna.Valid() && OccupantsKnown(dna, dbp) && Indexed(dbp) && LinksKnown(dbp)
      requires 0 <= id < dbp.Length && dbp[id] == this && size >= 1
      requires 0 <= newPosition && newPosition + size <= dna.length
      requires pool.Counted() && 0 <= speciesID < |pool.lists| && |pool.lists[speciesID]| > 0
      requires repressesDNA ==> species.args.repressionAttenuationFactor != 0.0
      modifies this`position, this`lastPosition, this`timeOfLastPositionChange, this`direction, this`moveRate,
        this`wasBound, this`leftMostPosition, this`rightMostPosition, this`slidingEvents,
        this`observedLeftMostPosition, this`observedRightMostPosition, this`repressionEventRate
      modifies pool`lists, pool`total, species`countBinding
      modifies Objects(dbp)`leftNeighbour, Objects(dbp)`rightNeighbour
      ensures pool.Counted() && LinksKnown(dbp)
      ensures position == newPosition && lastPosition == old(position) && timeOfLastPositionChange == time
      ensures direction == newDirection && moveRate == newMoveRate && wasBound
      ensures species.countBinding == old(species.countBinding) + 1 && pool.total == old(pool.total) - 1
      ensures pool.lists == old(pool.lists[speciesID := pool.lists[speciesID][..|pool.lists[speciesID]| - 1]])
      ensures !repressesDNA ==> repressionEventRate == species.args.repressionRate
      ensures repressesDNA ==> repressionEventRate * species.args.repressionAttenuationFactor == derepressionRate
      ensures outputSlidingLengths ==>
        SlidingOrdered() && SlidingLength() == 0 && ObservedOrdered() && ObservedSlidingLength() == 0
      ensures var l := dna.GetLeftNeighbour(newPosition);
        var r := dna.GetRightNeighbour(newPosition + size - 1);
        (r != id ==> leftNeighbour == l) && (l != id ==> rightNeighbour == r) &&
        (l != NONE && l != id ==> dbp[l].rightNeighbour == id) &&
        (r != NONE && r != id ==> dbp[r].leftNeighbour == id)
    {
      BookBinding(pool, species, time, newPosition, newDirection, newMoveRate, outputSlidingLengths, derepressionRate);
      SetNeighboursOnBinding(dna, dbp);
    }

    /**
     * `bindMolecule(n, time, newPosition, direction)`: when the strand
     * accepts the molecule at newPosition, the molecule takes the position
     * and direction, links to its neighbours, counts a binding, and the last
     * entry of the species' free list is removed; otherwise nothing changes
     * and the answer is NONE. newMoveRate is the species' move rate there,
     * derepressionRate the remodeller's.
     */
    method BindMolecule(dna: DNA, dbp: array<TF>, pool: FreeMolecules, species: TFSpecies, time: real,
                        newPosition: int, newDirection: int, newMoveRate: real, checkOccupancy: bool,
                        outputSlidingLengths: bool, derepressionRate: real) returns (bound: int)
      requires dna.Counted() && OccupantsKnown(dna, dbp) && Indexed(dbp) && LinksKnown(dbp)
      requires 0 <= id < dbp.Length && dbp[id] == this && size >= 1
      requires pool.Counted() && 0 <= speciesID < |pool.lists| && species.id == speciesID
      requires CanBindResult(dna.occupied[..], dna.closed[..], id, newPosition, size, checkOccupancy) == id ==>
        |pool.lists[speciesID]| > 0
      requires repressesDNA ==> species.args.repressionAttenuationFactor != 0.0
      modifies this`position, this`lastPosition, this`timeOfLastPositionChange, this`direction, this`moveRate,
        this`wasBound, this`leftMostPosition, this`rightMostPosition, this`slidingEvents,
        this`observedLeftMostPosition, this`observedRightMostPosition, this`repressionEventRate
      modifies pool`lists, pool`total, species`countBinding, dna.occupied, dna.avail, dna.availSum, dna.sectorSum
      modifies Objects(dbp)`leftNeighbour, Objects(dbp)`rightNeighbour
      ensures dna.Counted() && pool.Counted() && OccupantsKnown(dna, dbp) && LinksKnown(dbp)
      ensures bound == id || bound == NONE
      ensures bound == id <==>
        CanBindResult(old(dna.occupied[..]), dna.closed[..], id, newPosition, size, checkOccupancy) == id
      ensures bound == id ==>
        position == newPosition && lastPosition == old(position) && timeOfLastPositionChange == time &&
        direction == newDirection && moveRate == newMoveRate && wasBound &&
        dna.occupied[..] == Fill(old(dna.occupied[..]), id, newPosition, newPosition + size)
      ensures bound == id ==>
        species.countBinding == old(species.countBinding) + 1 && pool.total == old(pool.total) - 1 &&
        pool.lists == old(pool.lists[speciesID := pool.lists[speciesID][..|pool.lists[speciesID]| - 1]])
      ensures bound == id && !repressesDNA ==> repressionEventRate == species.args.repressionRate
      ensures bound == id && repressesDNA ==>
        repressionEventRate * species.args.repressionAttenuationFactor == derepressionRate
      ensures bound == id && outputSlidingLengths ==>
        SlidingOrdered() && SlidingLength() == 0 && ObservedOrdered() && ObservedSlidingLength() == 0
      ensures bound == id ==>
        var l := dna.GetLeftNeighbour(newPosition);
        var r := dna.GetRightNeighbour(newPosition + size - 1);
        (r != id ==> leftNeighbour == l) && (l != id ==> rightNeighbour == r) &&
        (l != NONE && l != id ==> dbp[l].rightNeighbour == id) &&
        (r != NONE && r != id ==> dbp[r].leftNeighbour == id)
      ensures bound != id ==>
        unchanged(this) && unchanged(pool) && species.countBinding == old(species.countBinding) &&
        dna.occupied[..] == old(dna.occupied[..]) &&
        forall k :: 0 <= k < dbp.Length ==> LeftOf(dbp, k) == old(LeftOf(dbp, k)) && RightOf(dbp, k) == old(RightOf(dbp, k))
    {
      bound := Occupy(dna, dbp, newPosition, checkOccupancy);
      if bound == id {
        TakeBoundState(dna, dbp, pool, species, time, newPosition, newDirection, newMoveRate, outputSlidingLengths,
                       derepressionRate);
      }
    }

    /**
     * The strand's side of `bindMolecule`: the window is taken for the
     * molecule when the strand accepts it, and the answer is the molecule's
     * id or NONE.
     */
    method Occupy(dna: DNA, dbp: array<TF>, newPosition: int, checkOccupancy: bool) returns (bound: int)
      requires dna.Counted() && OccupantsKnown(dna, dbp) && 0 <= id < dbp.Length && size >= 1
      modifies dna.occupied, dna.avail, dna.availSum, dna.sectorSum
      ensures dna.Counted() && OccupantsKnown(dna, dbp)
      ensures bound == id || bound == NONE
      ensures bound == id <==>
        CanBindResult(old(dna.occupied[..]), dna.closed[..], id, newPosition, size, checkOccupancy) == id
      ensures bound == id ==>
        0 <= newPosition && newPosition + size <= dna.length &&
        dna.occupied[..] == Fill(old(dna.occupied[..]), id, newPosition, newPosition + size)
      ensures bound != id ==> dna.occupied[..] == old(dna.occupied[..])
    {
      bound := dna.BindMolecule(id, newPosition, size, checkOccupancy);
      if bound != id {
        return NONE;
      }
      assert forall j :: 0 <= j < |old(dna.occupied[..])| ==> NONE <= old(dna.occupied[..])[j] < dbp.Length;
      FillKnown(dna, dbp, old(dna.occupied[..]), id, newPosition, newPosition + size);
    }

    /** A molecule that represses the strand stops doing so and takes the derepression rate. */
    method StopRepressing(derepressionRate: real)
      modifies this`repressesDNA, this`repressionEventRate
      ensures !repressesDNA
      ensures repressionEventRate == if old(repressesDNA) then derepressionRate else old(repressionEventRate)
    {
      if repressesDNA {
        repressionEventRate := derepressionRate;
        repressesDNA := false;
      }
    }

    /**
     * What `unbindMolecule` does once the strand has released the
     * molecule: the species counts an unbinding, the molecule leaves its
     * position and its neighbours, its id goes back on the species' free
     * list, and its repression rate drops to zero.
     */
    method TakeUnboundState(dbp: array<TF>, pool: FreeMolecules, species: TFSpecies, time: real)
      requires Indexed(dbp) && Consistent(dbp) && 0 <= id < dbp.Length && dbp[id] == this
      requires pool.Counted() && 0 <= speciesID < |pool.lists|
      modifies this`position, this`lastPosition, this`timeOfLastPositionChange, this`repressionEventRate
      modifies pool`lists, pool`total, species`countUnbinding
      modifies Objects(dbp)`leftNeighbour, Objects(dbp)`rightNeighbour
      ensures pool.Counted() && Consistent(dbp)
      ensures position == NONE && lastPosition == old(position) && timeOfLastPositionChange == time
      ensures leftNeighbour == NONE && rightNeighbour == NONE
      ensures forall k :: 0 <= k < dbp.Length ==> LeftOf(dbp, k) != id && RightOf(dbp, k) != id
      ensures species.countUnbinding == old(species.countUnbinding) + 1 && pool.total == old(pool.total) + 1
      ensures pool.lists == old(pool.lists[speciesID := pool.lists[speciesID] + [id]])
      ensures repressionEventRate == 0.0
    {
      species.countUnbinding := species.countUnbinding + 1;
      ClearPosition(time);
      pool.Append(speciesID, id);
      UpdateRepressionRate(0.0, species);
      SetNeighboursOnUnbinding(dbp);
    }

    /**
     * The part of `unbindMolecule` after the repression has stopped: the
     * strand releases the footprint when the molecule sits on it, and then
     * the molecule takes its unbound state.
     */
    method ReleaseFromStrand(dna: DNA, dbp: array<TF>, pool: FreeMolecules, species: TFSpecies, time: real)
      returns (unbound: bool)
      requires dna.Counted() && OccupantsKnown(dna, dbp) && Indexed(dbp) && Consistent(dbp)
      requires 0 <= id < dbp.Length && dbp[id] == this && size >= 1
      requires pool.Counted() && 0 <= speciesID < |pool.lists|
      modifies this`position, this`lastPosition, this`timeOfLastPositionChange, this`repressionEventRate
      modifies pool`lists, pool`total, species`countUnbinding, dna.occupied, dna.avail, dna.availSum, dna.sectorSum
      modifies Objects(dbp)`leftNeighbour, Objects(dbp)`rightNeighbour
      ensures dna.Counted() && pool.Counted() && OccupantsKnown(dna, dbp) && Consistent(dbp)
      ensures unbound == UnbindGuard(old(position), size, dna.length)
      ensures unbound ==>
        position == NONE && lastPosition == old(position) && timeOfLastPositionChange == time &&
        dna.occupied[..] == Fill(old(dna.occupied[..]), NONE, old(position), old(position) + size)
      ensures unbound ==>
        leftNeighbour == NONE && rightNeighbour == NONE &&
        forall k :: 0 <= k < dbp.Length ==> LeftOf(dbp, k) != id && RightOf(dbp, k) != id
      ensures unbound ==>
        species.countUnbinding == old(species.countUnbinding) + 1 && pool.total == old(pool.total) + 1 &&
        pool.lists == old(pool.lists[speciesID := pool.lists[speciesID] + [id]]) && repressionEventRate == 0.0
      ensures !unbound ==>
        position == old(position) && dna.occupied[..] == old(dna.occupied[..]) &&
        species.countUnbinding == old(species.countUnbinding) && pool.lists == old(pool.lists) &&
        repressionEventRate == old(repressionEventRate)
    {
      unbound := Vacate(dna, dbp);
      if unbound {
        TakeUnboundState(dbp, pool, species, time);
      }
    }

    /** The strand's side of `unbindMolecule`: the footprint is freed when the molecule sits on the strand. */
    method Vacate(dna: DNA, dbp: array<TF>) returns (unbound: bool)
      requires dna.Counted() && OccupantsKnown(dna, dbp) && size >= 1
      modifies dna.occupied, dna.avail, dna.availSum, dna.sectorSum
      ensures dna.Counted() && OccupantsKnown(dna, dbp)
      ensures unbound == UnbindGuard(position, size, dna.length)
      ensures unbound ==> dna.occupied[..] == Fill(old(dna.occupied[..]), NONE, position, position + size)
      ensures !unbound ==> dna.occupied[..] == old(dna.occupied[..])
    {
      unbound := dna.UnbindMolecule(position, size, false);
      if unbound {
        assert forall j :: 0 <= j < |old(dna.occupied[..])| ==> NONE <= old(dna.occupied[..])[j] < dbp.Length;
        FillKnown(dna, dbp, old(dna.occupied[..]), NONE, position, position + size);
      }
    }

    /**
     * `unbindMolecule`: a molecule that represses the strand stops doing
     * so and takes the derepression rate; then, when the strand releases
     * its footprint (which it does whenever the molecule sits on it), the
     * footprint is freed and the molecule returns to the species' free
     * list. derepressionRate is the remodeller's.
     */
    method UnbindMolecule(dna: DNA, dbp: array<TF>, pool: FreeMolecules, species: TFSpecies, time: real,
                          derepressionRate: real) returns (unbound: bool)
      requires dna.Counted() && OccupantsKnown(dna, dbp) && Indexed(dbp) && Consistent(dbp)
      requires 0 <= id < dbp.Length && dbp[id] == this && size >= 1
      requires pool.Counted() && 0 <= speciesID < |pool.lists| && species.id == speciesID
      modifies this, pool`lists, pool`total, species`countUnbinding, dna.occupied, dna.avail, dna.availSum, dna.sectorSum
      modifies Objects(dbp)`leftNeighbour, Objects(dbp)`rightNeighbour
      ensures dna.Counted() && pool.Counted() && OccupantsKnown(dna, dbp) && Consistent(dbp)
      ensures !repressesDNA
      ensures unbound == UnbindGuard(old(position), size, dna.length)
      ensures unbound ==>
        position == NONE && lastPosition == old(position) && timeOfLastPositionChange == time &&
        dna.occupied[..] == Fill(old(dna.occupied[..]), NONE, old(position), old(position) + size)
      ensures unbound ==>
        leftNeighbour == NONE && rightNeighbour == NONE &&
        forall k :: 0 <= k < dbp.Length ==> LeftOf(dbp, k) != id && RightOf(dbp, k) != id
      ensures unbound ==>
        species.countUnbinding == old(species.countUnbinding) + 1 && pool.total == old(pool.total) + 1 &&
        pool.lists == old(pool.lists[speciesID := pool.lists[speciesID] + [id]]) && repressionEventRate == 0.0
      ensures !unbound ==>
        position == old(position) && dna.occupied[..] == old(dna.occupied[..]) &&
        species.countUnbinding == old(species.countUnbinding) && pool.lists == old(pool.lists) &&
        repressionEventRate == (if old(repressesDNA) then derepressionRate else old(repressionEventRate))
    {
      StopRepressing(derepressionRate);
      unbound := ReleaseFromStrand(dna, dbp, pool, species, time);
    }

    /**
     * `hopMoleculeSamePos`: the molecule stays where it is, may turn (see
     * ChangeDirection), the species counts a hop, and the sliding window
     * starts again at the position.
     */
    method HopSamePosition(species: TFSpecies, time: real, readingDirections: int, draw: int, newMoveRate: real)
      requires IsInt(readingDirections) && (readingDirections > 1 ==> 0 <= draw < readingDirections)
      modifies this`lastPosition, this`timeOfLastPositionChange, this`direction, this`moveRate
      modifies this`leftMostPosition, this`rightMostPosition, this`slidingEvents, species`countHopping
      ensures lastPosition == position && timeOfLastPositionChange == time
      ensures readingDirections > 1 ==> direction == draw
      ensures readingDirections <= 1 ==> direction == old(direction) && moveRate == old(moveRate)
      ensures species.countHopping == old(species.countHopping) + 1
      ensures SlidingOrdered() && SlidingLength() == 0 && leftMostPosition == position
    {
      ResetPosition(time);
      ChangeDirection(readingDirections, draw, newMoveRate);
      species.countHopping := species.countHopping + 1;
      InitSlidingExtremes();
    }

    /**
     * After a hop has rebound the molecule: it keeps the observed sliding
     * window it had before the hop (when one was recorded) and its last
     * position from before the unbinding.
     */
    method RestoreAfterHop(outputSlidingLengths: bool, left: int, right: int, oldLastPosition: int)
      modifies this`observedLeftMostPosition, this`observedRightMostPosition, this`lastPosition
      ensures lastPosition == oldLastPosition
      ensures outputSlidingLengths && left != NONE && right != NONE ==>
        observedLeftMostPosition == left && observedRightMostPosition == right
      ensures !(outputSlidingLengths && left != NONE && right != NONE) ==>
        observedLeftMostPosition == old(observedLeftMostPosition) &&
        observedRightMostPosition == old(observedRightMostPosition)
    {
      if outputSlidingLengths && left != NONE && right != NONE {
        InitObservedSlidingExtremesTo(left, right);
      }
      lastPosition := oldLastPosition;
    }

    /**
     * The rebinding half of a hop, after the molecule has been unbound: it
     * binds at newPosition, keeps the observed sliding window it had before
     * the hop, keeps its last position from before the unbinding, and the
     * species counts a hop instead of an unbinding and a binding.
     */
    method RebindAfterHop(dna: DNA, dbp: array<TF>, pool: FreeMolecules, species: TFSpecies, time: real,
                          newPosition: int, newDirection: int, newMoveRate: real, checkOccupancy: bool,
                          outputSlidingLengths: bool, left: int, right: int, oldLastPosition: int, derepressionRate: real)
      returns (bound: int)
      requires dna.Counted() && OccupantsKnown(dna, dbp) && Indexed(dbp) && Consistent(dbp)
      requires 0 <= id < dbp.Length && dbp[id] == this && size >= 1 && !repressesDNA
      requires pool.Counted() && 0 <= speciesID < |pool.lists| && species.id == speciesID
      requires |pool.lists[speciesID]| > 0
      modifies this`position, this`lastPosition, this`timeOfLastPositionChange, this`direction, this`moveRate,
        this`wasBound, this`leftMostPosition, this`rightMostPosition, this`slidingEvents,
        this`observedLeftMostPosition, this`observedRightMostPosition, this`repressionEventRate
      modifies pool`lists, pool`total, species`countBinding, species`countUnbinding, species`countHopping
      modifies dna.occupied, dna.avail, dna.availSum, dna.sectorSum
      modifies Objects(dbp)`leftNeighbour, Objects(dbp)`rightNeighbour
      ensures dna.Counted() && pool.Counted() && OccupantsKnown(dna, dbp) && LinksKnown(dbp)
      ensures bound == id || bound == NONE
      ensures bound == id <==>
        CanBindResult(old(dna.occupied[..]), dna.closed[..], id, newPosition, size, checkOccupancy) == id
      ensures bound == id ==>
        position == newPosition && direction == newDirection && timeOfLastPositionChange == time &&
        dna.occupied[..] == Fill(old(dna.occupied[..]), id, newPosition, newPosition + size) &&
        pool.total == old(pool.total) - 1 &&
        pool.lists == old(pool.lists[speciesID := pool.lists[speciesID][..|pool.lists[speciesID]| - 1]])
      ensures lastPosition == oldLastPosition
      ensures species.countHopping == old(species.countHopping) + 1
      ensures species.countUnbinding == old(species.countUnbinding) - 1
      ensures species.countBinding == old(species.countBinding) - (if bound == id then 0 else 1)
      ensures outputSlidingLengths && left != NONE && right != NONE ==>
        observedLeftMostPosition == left && observedRightMostPosition == right
    {
      ConsistentLinksKnown(dbp);
      // the counters are independent of the binding, so they are settled first
      species.CountHop();
      bound := BindMolecule(dna, dbp, pool, species, time, newPosition, newDirection, newMoveRate, checkOccupancy,
                            outputSlidingLengths, derepressionRate);
      RestoreAfterHop(outputSlidingLengths, left, right, oldLastPosition);
    }

    /**
     * `hopMolecule` once a hop shorter than the footprint has been sent to
     * the slides (see RouteOfHop): when the species' availability table
     * lets the molecule bind at newPosition, or the species does not stall
     * when blocked, the molecule unbinds; in the first case it then binds
     * at newPosition and the hop leaves the free list as it was. A species
     * that stalls at a blocked target does not move at all.
     */
    method RebindHop(dna: DNA, dbp: array<TF>, pool: FreeMolecules, species: TFSpecies, time: real,
                     newPosition: int, newDirection: int, newMoveRate: real, checkOccupancy: bool,
                     outputSlidingLengths: bool, derepressionRate: real) returns (bound: int)
      requires dna.Counted() && OccupantsKnown(dna, dbp) && Indexed(dbp) && Consistent(dbp)
      requires 0 <= id < dbp.Length && dbp[id] == this && size >= 1
      requires pool.Counted() && 0 <= speciesID < |pool.lists| && species.id == speciesID
      requires 0 <= position && position + size <= dna.length && RouteOfHop(position, newPosition, size) == ViaRebind
      requires speciesID < dna.avail.Length0 && 0 <= newPosition < dna.avail.Length1
      modifies this, pool`lists, pool`total, species`countBinding, species`countUnbinding, species`countHopping
      modifies dna.occupied, dna.avail, dna.availSum, dna.sectorSum
      modifies Objects(dbp)`leftNeighbour, Objects(dbp)`rightNeighbour
      ensures dna.Counted() && pool.Counted() && OccupantsKnown(dna, dbp) && LinksKnown(dbp)
      ensures bound == id || bound == NONE
      ensures !old(dna.avail[speciesID, newPosition]) && species.args.stallsIfBlocked ==>
        bound == NONE && position == old(position) && dna.occupied[..] == old(dna.occupied[..]) &&
        pool.lists == old(pool.lists) && species.countHopping == old(species.countHopping) &&
        species.countUnbinding == old(species.countUnbinding)
      ensures !old(dna.avail[speciesID, newPosition]) && !species.args.stallsIfBlocked ==>
        bound == NONE && position == NONE && !repressesDNA &&
        dna.occupied[..] == Fill(old(dna.occupied[..]), NONE, old(position), old(position) + size) &&
        pool.lists == old(pool.lists[speciesID := pool.lists[speciesID] + [id]]) &&
        species.countUnbinding == old(species.countUnbinding) + 1 &&
        species.countHopping == old(species.countHopping)
      ensures old(dna.avail[speciesID, newPosition]) ==>
        !repressesDNA && lastPosition == old(lastPosition) &&
        species.countHopping == old(species.countHopping) + 1 &&
        species.countUnbinding == old(species.countUnbinding) &&
        (bound == id <==> CanBindResult(Fill(old(dna.occupied[..]), NONE, old(position), old(position) + size),
                                         dna.closed[..], id, newPosition, size, checkOccupancy) == id)
      ensures old(dna.avail[speciesID, newPosition]) && bound == id ==>
        position == newPosition && direction == newDirection && pool.lists == old(pool.lists) &&
        pool.total == old(pool.total) && species.countBinding == old(species.countBinding) &&
        dna.occupied[..] == Fill(Fill(old(dna.occupied[..]), NONE, old(position), old(position) + size),
                                 id, newPosition, newPosition + size)
      ensures (old(dna.avail[speciesID, newPosition]) && outputSlidingLengths &&
               old(observedLeftMostPosition) != NONE && old(observedRightMostPosition) != NONE) ==>
        observedLeftMostPosition == old(observedLeftMostPosition) &&
        observedRightMostPosition == old(observedRightMostPosition)
    {
      bound := NONE;
      var canBind := dna.avail[speciesID, newPosition];
      if canBind || !species.args.stallsIfBlocked {
        var left, right := NONE, NONE;
        if outputSlidingLengths {
          left, right := observedLeftMostPosition, observedRightMostPosition;
        }
        var oldLastPosition := lastPosition;
        var unbound := UnbindMolecule(dna, dbp, pool, species, time, derepressionRate);
        if canBind {
          bound := RebindAfterHop(dna, dbp, pool, species, time, newPosition, newDirection, newMoveRate,
                                  checkOccupancy, outputSlidingLengths, left, right, oldLastPosition, derepressionRate);
        }
      } else {
        ConsistentLinksKnown(dbp);
      }
    }
  }
}
