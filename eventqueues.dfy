/**
 * The simulator's three event queues (src/event/TFBindingEventQueue.java,
 * TFRandomWalkEventQueueFR.java, TFRepressionEventQueueFR.java): a single
 * slot for the next binding from the cytoplasm with the per-species
 * binding propensities, and two time-ordered queues for the events of
 * molecules on the strand.
 *
 * Java's `PriorityQueue` is modelled by a sequence read as a multiset:
 * `peek` and `poll` give an event of least time; of several with the same
 * time the model takes the one added first, where Java's heap leaves the
 * choice unspecified. Random draws (`Gillespie.computeNextReactionTime`,
 * `nextDouble`, the normally distributed hop target) are parameters.
 */
module EventQueues {
  import opened Wrappers
  import opened Events
  import opened DnaSpec
  import opened TfSpecies
  import opened Molecules

  // ------------------------------------------------------------ sums of propensities

  /** The sum of a sequence of reals, added from the first to the last. */
  function SumReal(s: seq<real>): real {
    if |s| == 0 then 0.0 else SumReal(s[..|s| - 1]) + s[|s| - 1]
  }

  /** A sum of non-negative terms is non-negative, and it is zero exactly when every term is. */
  lemma {:induction false} SumRealNonNegative(s: seq<real>)
    requires forall i :: 0 <= i < |s| ==> s[i] >= 0.0
    ensures SumReal(s) >= 0.0
    ensures SumReal(s) == 0.0 <==> forall i :: 0 <= i < |s| ==> s[i] == 0.0
  {
    if |s| > 0 {
      var p := s[..|s| - 1];
      assert forall i :: 0 <= i < |p| ==> p[i] == s[i];
      SumRealNonNegative(p);
      if SumReal(s) == 0.0 {
        assert SumReal(p) == 0.0 && s[|s| - 1] == 0.0;
        forall i | 0 <= i < |s|
          ensures s[i] == 0.0
        {
          if i < |s| - 1 {
            assert s[i] == p[i];
          }
        }
      }
    }
  }

  /** What `computePropensity` reads of the cell for one species. */
  datatype BindingInput = BindingInput(assocRate: real, freeCount: nat, availSum: int, availMaxSum: int)

  /** The maximum availability sums divide, so none of them is zero. */
  predicate Divisible(inputs: seq<BindingInput>) {
    forall i :: 0 <= i < |inputs| ==> inputs[i].availMaxSum != 0
  }

  /**
   * `computePropensity`: the association rate times the number of free
   * molecules times the fraction of the strand still available to the
   * species. It is zero exactly when one factor is, and with a
   * non-negative rate and an availability within its maximum it lies
   * between zero and rate times count.
   */
  function ComputePropensity(b: BindingInput): (r: real)
    requires b.availMaxSum != 0
    ensures r == 0.0 <==> b.assocRate == 0.0 || b.freeCount == 0 || b.availSum == 0
    ensures b.assocRate >= 0.0 && 0 <= b.availSum <= b.availMaxSum ==>
      0.0 <= r <= b.assocRate * b.freeCount as real
  {
    var free := b.assocRate * b.freeCount as real;
    var fraction := b.availSum as real / b.availMaxSum as real;
    assert 0 <= b.availSum <= b.availMaxSum ==> 0.0 <= fraction <= 1.0;
    assert free * b.availSum as real / b.availMaxSum as real == free * fraction;
    free * b.availSum as real / b.availMaxSum as real
  }

  /** The propensity of every species, in species order. */
  function Propensities(inputs: seq<BindingInput>): (r: seq<real>)
    requires Divisible(inputs)
    ensures |r| == |inputs|
    ensures forall i :: 0 <= i < |inputs| ==> r[i] == ComputePropensity(inputs[i])
  {
    if |inputs| == 0 then []
    else Propensities(inputs[..|inputs| - 1]) + [ComputePropensity(inputs[|inputs| - 1])]
  }

  /**
   * With non-negative rates and availabilities within their maxima, the
   * total binding propensity is non-negative, and it is zero exactly when
   * no species can bind.
   */
  lemma PropensitySumZero(inputs: seq<BindingInput>)
    requires Divisible(inputs)
    requires forall i :: 0 <= i < |inputs| ==>
      inputs[i].assocRate >= 0.0 && 0 <= inputs[i].availSum <= inputs[i].availMaxSum
    ensures SumReal(Propensities(inputs)) >= 0.0
    ensures SumReal(Propensities(inputs)) == 0.0 <==>
      forall i :: 0 <= i < |inputs| ==>
        inputs[i].assocRate == 0.0 || inputs[i].freeCount == 0 || inputs[i].availSum == 0
  {
    var p := Propensities(inputs);
    SumRealNonNegative(p);
  }

  // ------------------------------------------------------------ TFBindingEventQueue

  /** `TFBindingEventQueue`: at most one pending binding, and the binding propensities. */
  class BindingQueue {
    /** `proteinBindingPropensity`, one entry per species. */
    const propensity: array<real>
    var propensitySum: real
    /** `bindingEvent`; Java's null is None. */
    var bindingEvent: Option<ProteinEvent>

    /**
     * The constructor: the propensities of all species and their sum, and
     * no pending binding. (The Java constructor computes them once in its
     * own loop and then again by calling `updateProteinBindingPropensities`;
     * both give the same values.)
     */
    constructor (inputs: seq<BindingInput>)
      requires Divisible(inputs)
      ensures fresh(propensity) && propensity.Length == |inputs| && propensity[..] == Propensities(inputs)
      ensures propensitySum == SumReal(propensity[..]) && bindingEvent == None
    {
      propensity := new real[|inputs|];
      propensitySum := 0.0;
      bindingEvent := None;
      new;
      UpdateProteinBindingPropensities(inputs);
    }

    /** `isEmpty`: no binding is pending. */
    predicate IsEmpty()
      reads this
    {
      bindingEvent.None?
    }

    /** `peek`: the pending binding, left in place. */
    function Peek(): Option<ProteinEvent>
      reads this
    {
      bindingEvent
    }

    /** `add`: the new binding replaces the pending one. */
    method Add(pe: ProteinEvent)
      modifies this`bindingEvent
      ensures Peek() == Some(pe) && !IsEmpty()
    {
      bindingEvent := Some(pe);
    }

    /** `pop`: the pending binding is returned and the slot is emptied. */
    method Pop() returns (pe: Option<ProteinEvent>)
      modifies this`bindingEvent
      ensures pe == old(Peek()) && IsEmpty()
    {
      pe := bindingEvent;
      bindingEvent := None;
    }

    /** `clear`: the pending binding is dropped. */
    method Clear()
      modifies this`bindingEvent
      ensures IsEmpty()
    {
      bindingEvent := None;
    }

    /**
     * `updateProteinBindingPropensities`: every species' propensity is
     * recomputed, the stored sum is their sum, and the pending binding is
     * dropped so that it is drawn again.
     */
    method UpdateProteinBindingPropensities(inputs: seq<BindingInput>)
      requires propensity.Length == |inputs| && Divisible(inputs)
      modifies propensity, this`propensitySum, this`bindingEvent
      ensures propensity[..] == Propensities(inputs)
      ensures propensitySum == SumReal(propensity[..]) && IsEmpty()
    {
      propensitySum := 0.0;
      var i := 0;
      while i < propensity.Length
        invariant 0 <= i <= propensity.Length
        invariant forall j :: 0 <= j < i ==> propensity[j] == ComputePropensity(inputs[j])
        invariant propensitySum == SumReal(propensity[..i])
      {
        propensity[i] := ComputePropensity(inputs[i]);
        assert propensity[..i + 1][..i] == propensity[..i];
        propensitySum := propensitySum + propensity[i];
        i := i + 1;
      }
      assert propensity[..i] == propensity[..];
      Clear();
    }

    /** `getPropensitySum` (`propensitySum`): the propensities added up afresh. */
    method GetPropensitySum() returns (result: real)
      ensures result == SumReal(propensity[..])
    {
      result := 0.0;
      for i := 0 to propensity.Length
        invariant result == SumReal(propensity[..i])
      {
        assert propensity[..i + 1][..i] == propensity[..i];
        result := result + propensity[i];
      }
      assert propensity[..propensity.Length] == propensity[..];
    }
  }

  // ------------------------------------------------------------ time-ordered queues

  /** The index of the first event of least time. */
  function MinIndex<T>(s: seq<T>, time: T -> real): (i: nat)
    requires |s| > 0
    ensures i < |s| && forall j :: 0 <= j < |s| ==> time(s[i]) <= time(s[j])
    ensures forall j :: 0 <= j < i ==> time(s[i]) < time(s[j])
  {
    if |s| == 1 then 0
    else
      var k := MinIndex(s[1..], time);
      if time(s[0]) <= time(s[1..][k]) then 0 else k + 1
  }

  /** Taking out the element at i takes one copy of it out of the multiset. */
  lemma RemoveAt<T>(s: seq<T>, i: nat)
    requires i < |s|
    ensures multiset(s[..i] + s[i + 1..]) == multiset(s) - multiset{s[i]}
  {
    assert s == s[..i] + [s[i]] + s[i + 1..];
  }

  /** The index of the first copy of x in s. */
  function FirstIndexOf<T(==)>(s: seq<T>, x: T): (i: nat)
    requires x in s
    ensures i < |s| && s[i] == x && forall j :: 0 <= j < i ==> s[j] != x
  {
    if s[0] == x then 0 else FirstIndexOf(s[1..], x) + 1
  }

  function WalkTime(pe: ProteinEvent): real {
    pe.time
  }

  function RepressionTime(re: RepressionEvent): real {
    re.time
  }

  // ------------------------------------------------------------ TFRandomWalkEventQueueFR

  /** The random draws one random-walk event needs. */
  datatype WalkDraws = WalkDraws(nextTime: real, u: real, hopTarget: int)

  /**
   * What `createNextEvent` reads of the species and the strand for the
   * molecule's position and direction: the species' cumulative thresholds
   * and steps, and the strand's cumulative slide thresholds there
   * (`TFSlideLeftNo`, `TFSlideRightNo`).
   */
  datatype WalkSetting = WalkSetting(thresholds: Thresholds, slideLeftNo: real, slideRightNo: real,
                                     stepLeftSize: int, stepRightSize: int)

  /**
   * `createNextEvent`: an unbound molecule gets the empty event; a bound
   * one gets an event at time + nextTime with its move rate as propensity,
   * whose action is chosen by r = u * slideRightNo of the species against
   * the cumulative thresholds: a jump off the strand, a hop to the drawn
   * target, a slide left or right by a step, or no action when r passes
   * them all.
   */
  function CreateWalkEvent(moleculeID: int, position: int, moveRate: real, time: real, setting: WalkSetting,
                           draws: WalkDraws, acts: ActionIds): (r: ProteinEvent)
    ensures position == NONE ==> r == EmptyProteinEvent()
    ensures position != NONE ==>
      r.time == time + draws.nextTime && r.proteinID == moleculeID && r.isTF && r.propensity == moveRate
    ensures position != NONE ==>
      var u := draws.u * setting.thresholds.slideRightNo;
      var t := setting.thresholds;
      (u < t.jumpNo ==> r.nextAction == acts.jump && r.position == NONE && !r.isHoppingEvent) &&
      (t.jumpNo <= u < t.hopNo ==> r.nextAction == acts.hop && r.position == draws.hopTarget && r.isHoppingEvent) &&
      (t.jumpNo <= u && t.hopNo <= u && u < setting.slideLeftNo ==>
         r.nextAction == acts.slideLeft && r.position == position - setting.stepLeftSize && !r.isHoppingEvent) &&
      (t.jumpNo <= u && t.hopNo <= u && setting.slideLeftNo <= u && u < setting.slideRightNo ==>
         r.nextAction == acts.slideRight && r.position == position + setting.stepRightSize && !r.isHoppingEvent) &&
      (t.jumpNo <= u && t.hopNo <= u && setting.slideLeftNo <= u && setting.slideRightNo <= u ==>
         r.nextAction == NONE && r.position == position && !r.isHoppingEvent)
  {
    if position == NONE then EmptyProteinEvent()
    else
      var u := draws.u * setting.thresholds.slideRightNo;
      var t := setting.thresholds;
      var (action, newPosition, hopping) :=
        if u < t.jumpNo then (acts.jump, NONE, false)
        else if u < t.hopNo then (acts.hop, draws.hopTarget, true)
        else if u < setting.slideLeftNo then (acts.slideLeft, position - setting.stepLeftSize, false)
        else if u < setting.slideRightNo then (acts.slideRight, position + setting.stepRightSize, false)
        else (NONE, position, false);
      NewProteinEvent(time + draws.nextTime, moleculeID, newPosition, true, action, hopping, moveRate)
  }

  /**
   * A bound molecule with a real id never gets the empty event, so its
   * event is always scheduled; an unbound one always gets it, so nothing
   * is scheduled. A created action is one of the four moves of `act`.
   */
  lemma WalkEventScheduled(moleculeID: int, position: int, moveRate: real, time: real, setting: WalkSetting,
                           draws: WalkDraws, acts: ActionIds)
    requires moleculeID != NONE
    ensures CreateWalkEvent(moleculeID, position, moveRate, time, setting, draws, acts).IsEmpty() <==> position == NONE
    ensures var a := CreateWalkEvent(moleculeID, position, moveRate, time, setting, draws, acts).nextAction;
      a == NONE || a == acts.jump || a == acts.hop || a == acts.slideLeft || a == acts.slideRight
  {
  }

  /** `TFRandomWalkEventQueueFR`: the pending random-walk events. */
  class RandomWalkQueue {
    var events: seq<ProteinEvent>

    ghost function Contents(): multiset<ProteinEvent>
      reads this
    {
      multiset(events)
    }

    /** The constructor: no events. */
    constructor ()
      ensures Contents() == multiset{}
    {
      events := [];
    }

    /** `size`: the number of pending events, copies counted. */
    function Size(): (r: nat)
      reads this
      ensures r == |Contents()|
    {
      |events|
    }

    /** `isEmpty`. */
    predicate IsEmpty()
      reads this
      ensures IsEmpty() <==> Contents() == multiset{}
    {
      |events| == 0
    }

    /** `peek`: a pending event of least time, or None when there is none. */
    function Peek(): (r: Option<ProteinEvent>)
      reads this
      ensures r.None? <==> Contents() == multiset{}
      ensures r.Some? ==> r.value in Contents() && forall e :: e in Contents() ==> r.value.time <= e.time
    {
      if |events| == 0 then None
      else
        var i := MinIndex(events, WalkTime);
        assert forall e :: e in Contents() ==> exists j :: 0 <= j < |events| && events[j] == e;
        Some(events[i])
    }

    /** `add`: one more pending event. */
    method Add(pe: ProteinEvent)
      modifies this`events
      ensures Contents() == old(Contents()) + multiset{pe}
    {
      events := events + [pe];
    }

    /** `pop` (`poll`): the event `peek` gives is returned and taken out. */
    method Pop() returns (r: Option<ProteinEvent>)
      modifies this`events
      ensures r == old(Peek())
      ensures r.Some? ==> Contents() == old(Contents()) - multiset{r.value}
      ensures r.None? ==> Contents() == old(Contents())
    {
      r := Peek();
      if |events| > 0 {
        var i := MinIndex(events, WalkTime);
        RemoveAt(events, i);
        events := events[..i] + events[i + 1..];
      }
    }

    /**
     * `PriorityQueue.remove`: one copy of the event is taken out when it
     * is pending, and the answer says whether it was; Java's null is never
     * pending.
     */
    method Remove(pe: Option<ProteinEvent>) returns (removed: bool)
      modifies this`events
      ensures removed <==> pe.Some? && pe.value in old(Contents())
      ensures removed ==> Contents() == old(Contents()) - multiset{pe.value}
      ensures !removed ==> Contents() == old(Contents())
    {
      removed := false;
      if pe.Some? && pe.value in events {
        var i := FirstIndexOf(events, pe.value);
        RemoveAt(events, i);
        events := events[..i] + events[i + 1..];
        removed := true;
      }
    }

    /**
     * `scheduleNextEvent`: a non-empty event becomes the molecule's pending
     * event (its repression event is forgotten) and joins the queue; an
     * empty one changes nothing.
     */
    method ScheduleNextEvent(tf: TF, pe: ProteinEvent)
      modifies this`events, tf`pe, tf`re
      ensures pe.IsEmpty() ==> Contents() == old(Contents()) && tf.pe == old(tf.pe) && tf.re == old(tf.re)
      ensures !pe.IsEmpty() ==> Contents() == old(Contents()) + multiset{pe} && tf.pe == Some(pe) && tf.re == None
    {
      if !pe.IsEmpty() {
        tf.pe := Some(pe);
        tf.re := None;
        Add(pe);
      }
    }

    /**
     * `updateNextEvent`: only when the molecule's pending event was still
     * in the queue is it replaced by a freshly created one.
     */
    method UpdateNextEvent(tf: TF, time: real, setting: WalkSetting, draws: WalkDraws, acts: ActionIds)
      modifies this`events, tf`pe, tf`re
      ensures old(tf.pe).None? || old(tf.pe).value !in old(Contents()) ==>
        Contents() == old(Contents()) && tf.pe == old(tf.pe) && tf.re == old(tf.re)
      ensures old(tf.pe).Some? && old(tf.pe).value in old(Contents()) ==>
        var pe := CreateWalkEvent(tf.id, tf.position, tf.moveRate, time, setting, draws, acts);
        (pe.IsEmpty() ==> Contents() == old(Contents()) - multiset{old(tf.pe).value} &&
                          tf.pe == old(tf.pe) && tf.re == old(tf.re)) &&
        (!pe.IsEmpty() ==> Contents() == old(Contents()) - multiset{old(tf.pe).value} + multiset{pe} &&
                           tf.pe == Some(pe) && tf.re == None)
    {
      var removed := Remove(tf.pe);
      if removed {
        var pe := CreateWalkEvent(tf.id, tf.position, tf.moveRate, time, setting, draws, acts);
        ScheduleNextEvent(tf, pe);
      }
    }
  }

  // ------------------------------------------------------------ TFRepressionEventQueueFR

  /**
   * `createNextEvent` of the repression queue: a molecule whose repression
   * rate is below the tolerance gets the empty event; otherwise the event
   * at time + nextTime, with the rate as propensity, covers the molecule's
   * footprint widened by the species' repression flanks and cut to the
   * strand, and it releases the strand exactly when the molecule
   * represses it. The event is made with `scheduleNextEvent` false (the
   * Java call passes six of the constructor's seven arguments, leaving this
   * one out).
   */
  function CreateRepressionEvent(moleculeID: int, position: int, repressionRate: real, repressing: bool,
                                 time: real, nextTime: real, doubleZero: real, species: RepressionShape,
                                 length: nat, acts: ActionIds): (r: RepressionEvent)
    ensures repressionRate < doubleZero ==> r == EmptyRepressionEvent()
    ensures repressionRate >= doubleZero ==>
      r.time == time + nextTime && r.proteinID == moleculeID && r.propensity == repressionRate &&
      !r.scheduleNextEvent &&
      r.boundaryLeft == ClampLow(position - species.repressionLeftSize) &&
      r.boundaryRight == ClampHigh(position + species.sizeTotal - 1 + species.repressionRightSize, length) &&
      0 <= r.boundaryLeft && r.boundaryRight <= length - 1 &&
      (repressing ==> r.nextAction == acts.unrepression) && (!repressing ==> r.nextAction == acts.repression)
  {
    if repressionRate < doubleZero then EmptyRepressionEvent()
    else
      var left := ClampLow(position - species.repressionLeftSize);
      var right := ClampHigh(position + species.sizeTotal - 1 + species.repressionRightSize, length);
      var action := if repressing then acts.unrepression else acts.repression;
      NewRepressionEvent(time + nextTime, action, moleculeID, left, right, repressionRate, false)
  }

  /** What the repression queue reads of the molecule's species. */
  datatype RepressionShape = RepressionShape(repressionLeftSize: int, repressionRightSize: int, sizeTotal: int)

  /**
   * With distinct action ids, a created repression event of a real
   * molecule is never empty, and `toString` names it "Unrepression"
   * exactly when the molecule represses the strand.
   */
  lemma RepressionEventLabelled(moleculeID: int, position: int, repressionRate: real, repressing: bool,
                                time: real, nextTime: real, doubleZero: real, species: RepressionShape,
                                length: nat, acts: ActionIds)
    requires acts.Distinct() && moleculeID != NONE && repressionRate >= doubleZero
    ensures var re := CreateRepressionEvent(moleculeID, position, repressionRate, repressing, time, nextTime,
                                            doubleZero, species, length, acts);
      !re.IsEmpty() && (re.Label(acts) == "Unrepression" <==> repressing)
  {
    var re := CreateRepressionEvent(moleculeID, position, repressionRate, repressing, time, nextTime,
                                    doubleZero, species, length, acts);
    RepressionEventLabels(re, acts);
    var ids := [acts.binding, acts.jump, acts.hop, acts.slideLeft, acts.slideRight, acts.repression, acts.unrepression];
    assert ids[5] != ids[6];
  }

  /** `TFRepressionEventQueueFR`: the pending repression and unrepression events. */
  class RepressionQueue {
    var events: seq<RepressionEvent>

    ghost function Contents(): multiset<RepressionEvent>
      reads this
    {
      multiset(events)
    }

    /** The constructor: no events. */
    constructor ()
      ensures Contents() == multiset{}
    {
      events := [];
    }

    /** `size`. */
    function Size(): (r: nat)
      reads this
      ensures r == |Contents()|
    {
      |events|
    }

    /** `isEmpty`. */
    predicate IsEmpty()
      reads this
      ensures IsEmpty() <==> Contents() == multiset{}
    {
      |events| == 0
    }

    /** `peek`: a pending event of least time, or None when there is none. */
    function Peek(): (r: Option<RepressionEvent>)
      reads this
      ensures r.None? <==> Contents() == multiset{}
      ensures r.Some? ==> r.value in Contents() && forall e :: e in Contents() ==> r.value.time <= e.time
    {
      if |events| == 0 then None
      else
        var i := MinIndex(events, RepressionTime);
        assert forall e :: e in Contents() ==> exists j :: 0 <= j < |events| && events[j] == e;
        Some(events[i])
    }

    /** `add`. */
    method Add(re: RepressionEvent)
      modifies this`events
      ensures Contents() == old(Contents()) + multiset{re}
    {
      events := events + [re];
    }

    /** `pop` (`poll`). */
    method Pop() returns (r: Option<RepressionEvent>)
      modifies this`events
      ensures r == old(Peek())
      ensures r.Some? ==> Contents() == old(Contents()) - multiset{r.value}
      ensures r.None? ==> Contents() == old(Contents())
    {
      r := Peek();
      if |events| > 0 {
        var i := MinIndex(events, RepressionTime);
        RemoveAt(events, i);
        events := events[..i] + events[i + 1..];
      }
    }

    /** `PriorityQueue.remove`. */
    method Remove(re: Option<RepressionEvent>) returns (removed: bool)
      modifies this`events
      ensures removed <==> re.Some? && re.value in old(Contents())
      ensures removed ==> Contents() == old(Contents()) - multiset{re.value}
      ensures !removed ==> Contents() == old(Contents())
    {
      removed := false;
      if re.Some? && re.value in events {
        var i := FirstIndexOf(events, re.value);
        RemoveAt(events, i);
        events := events[..i] + events[i + 1..];
        removed := true;
      }
    }

    /**
     * `scheduleNextEvent`: a non-empty event becomes the molecule's pending
     * event (its random-walk event is forgotten) and joins the queue.
     */
    method ScheduleNextEvent(tf: TF, re: RepressionEvent)
      modifies this`events, tf`pe, tf`re
      ensures re.IsEmpty() ==> Contents() == old(Contents()) && tf.pe == old(tf.pe) && tf.re == old(tf.re)
      ensures !re.IsEmpty() ==> Contents() == old(Contents()) + multiset{re} && tf.re == Some(re) && tf.pe == None
    {
      if !re.IsEmpty() {
        tf.pe := None;
        tf.re := Some(re);
        Add(re);
      }
    }

    /** `updateNextEvent`: only a still pending event is replaced by a fresh one. */
    method UpdateNextEvent(tf: TF, time: real, nextTime: real, doubleZero: real, species: RepressionShape,
                           length: nat, acts: ActionIds)
      modifies this`events, tf`pe, tf`re
      ensures old(tf.re).None? || old(tf.re).value !in old(Contents()) ==>
        Contents() == old(Contents()) && tf.pe == old(tf.pe) && tf.re == old(tf.re)
      ensures old(tf.re).Some? && old(tf.re).value in old(Contents()) ==>
        var re := CreateRepressionEvent(tf.id, tf.position, tf.repressionEventRate, tf.repressesDNA, time, nextTime,
                                        doubleZero, species, length, acts);
        (re.IsEmpty() ==> Contents() == old(Contents()) - multiset{old(tf.re).value} &&
                          tf.pe == old(tf.pe) && tf.re == old(tf.re)) &&
        (!re.IsEmpty() ==> Contents() == old(Contents()) - multiset{old(tf.re).value} + multiset{re} &&
                           tf.re == Some(re) && tf.pe == None)
    {
      var removed := Remove(tf.re);
      if removed {
        var re := CreateRepressionEvent(tf.id, tf.position, tf.repressionEventRate, tf.repressesDNA, time, nextTime,
                                        doubleZero, species, length, acts);
        ScheduleNextEvent(tf, re);
      }
    }
  }
}
