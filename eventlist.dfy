/**
 * The simulator's event list (src/event/EventList.java): the three event
 * queues together, the choice of the soonest event among them, and the
 * scheduling of a molecule's next event in the right queue.
 *
 * The random draws of `Gillespie.computeNextReactionTime`,
 * `Gillespie.getNextReaction` and `nextDouble` are parameters.
 */
module EventLists {
  import opened Wrappers
  import opened Events
  import opened CellUtils
  import opened Cell
  import opened Molecules
  import opened EventQueues

  /** The `Constants.NEXT_EVENT_IS_*` answers of `getNextEventType`. */
  datatype NextEvent = NoEvent | BindingNext | WalkNext | RepressionNext

  /** The event `getNextEvent` hands out; Java's null is `NullEvent`. */
  datatype AnyEvent = NullEvent | Protein(pe: ProteinEvent) | Repression(re: RepressionEvent)

  /**
   * `getNextEventType` on the times at the heads of the binding, random-walk
   * and repression queues (None for an empty queue): starting from
   * `Double.MAX_VALUE`, each queue in turn takes over when its head is
   * strictly earlier than the earliest time seen so far.
   */
  function Earliest(b: Option<real>, w: Option<real>, r: Option<real>): NextEvent {
    var (t1, n1) := if b.Some? && MAX_VALUE > b.value then (b.value, BindingNext) else (MAX_VALUE, NoEvent);
    var (t2, n2) := if w.Some? && t1 > w.value then (w.value, WalkNext) else (t1, n1);
    if r.Some? && t2 > r.value then RepressionNext else n2
  }

  /** The head time is absent or not before `Double.MAX_VALUE`. */
  predicate Never(t: Option<real>) {
    t.None? || t.value >= MAX_VALUE
  }

  /** The head time is absent or not before `time`. */
  predicate NotBefore(t: Option<real>, time: real) {
    t.None? || t.value >= time
  }

  /**
   * The choice, case by case: nothing when no head is before
   * `Double.MAX_VALUE`; otherwise the earliest head, ties going to the
   * binding queue first and to the random-walk queue second.
   */
  lemma EarliestIsFirst(b: Option<real>, w: Option<real>, r: Option<real>)
    ensures Earliest(b, w, r) == NoEvent <==> Never(b) && Never(w) && Never(r)
    ensures Earliest(b, w, r) == BindingNext <==>
      b.Some? && b.value < MAX_VALUE && NotBefore(w, b.value) && NotBefore(r, b.value)
    ensures Earliest(b, w, r) == WalkNext <==>
      w.Some? && w.value < MAX_VALUE && (b.None? || w.value < b.value) && NotBefore(r, w.value)
    ensures Earliest(b, w, r) == RepressionNext <==>
      r.Some? && r.value < MAX_VALUE && (b.None? || r.value < b.value) && (w.None? || r.value < w.value)
  {
  }

  function HeadTime(pe: Option<ProteinEvent>): Option<real> {
    if pe.None? then None else Some(pe.value.time)
  }

  function RepressionHeadTime(re: Option<RepressionEvent>): Option<real> {
    if re.None? then None else Some(re.value.time)
  }

  /** How `scheduleNextTFOnDNAEvent` picks the queue for a molecule on the strand. */
  datatype OnDnaChoice = Unscheduled | WalkChosen | RepressionChosen

  /**
   * The combined propensity, capped at `Double.MAX_VALUE`; nothing when it
   * is not positive, and otherwise the random-walk event when the draw
   * `u` scaled by it falls below the walk's propensity.
   */
  function ChooseOnDna(pe: ProteinEvent, re: RepressionEvent, u: real): OnDnaChoice {
    var sum := Min(pe.propensity + re.propensity, MAX_VALUE);
    if sum <= 0.0 then Unscheduled
    else if u * sum < pe.propensity then WalkChosen
    else RepressionChosen
  }

  /**
   * With a draw in [0, 1) and non-negative propensities, the event chosen
   * has a positive propensity, so whatever its time it is not empty and
   * its queue takes it; nothing is chosen exactly when both propensities
   * are zero.
   */
  lemma OnDnaChoiceSchedulesOne(pe: ProteinEvent, re: RepressionEvent, u: real, t: real)
    requires 0.0 <= u < 1.0 && pe.propensity >= 0.0 && re.propensity >= 0.0
    ensures ChooseOnDna(pe, re, u) == Unscheduled <==> pe.propensity == 0.0 && re.propensity == 0.0
    ensures ChooseOnDna(pe, re, u) == WalkChosen ==> pe.propensity > 0.0 && !pe.(time := t).IsEmpty()
    ensures ChooseOnDna(pe, re, u) == RepressionChosen ==> re.propensity > 0.0 && !re.(time := t).IsEmpty()
  {
    var sum := Min(pe.propensity + re.propensity, MAX_VALUE);
    if sum > 0.0 {
      DrawBelowOne(u, sum, pe.propensity, re.propensity);
    }
  }

  /**
   * A draw below one scales a positive amount down, so when the scaled
   * amount reaches `p` the amount exceeds `p` and `q` is positive.
   */
  lemma DrawBelowOne(u: real, sum: real, p: real, q: real)
    requires 0.0 <= u < 1.0 && 0.0 < sum <= p + q
    ensures 0.0 <= u * sum < sum
    ensures u * sum >= p ==> q > 0.0
  {
    assert (1.0 - u) * sum > 0.0;
    assert (1.0 - u) * sum == sum - u * sum;
  }

  /** `EventList`: the binding, random-walk and repression queues. */
  class EventList {
    const binding: BindingQueue
    const walk: RandomWalkQueue
    const repression: RepressionQueue

    /**
     * The constructor: a binding queue with the species' propensities and
     * two empty queues for molecules on the strand. (Both branches of the
     * Java constructor build the same first-reaction queues.)
     */
    constructor (inputs: seq<BindingInput>)
      requires Divisible(inputs)
      ensures fresh(binding) && fresh(binding.propensity) && fresh(walk) && fresh(repression)
      ensures binding.propensity[..] == Propensities(inputs) && binding.propensitySum == SumReal(Propensities(inputs))
      ensures IsEmpty()
    {
      binding := new BindingQueue(inputs);
      walk := new RandomWalkQueue();
      repression := new RepressionQueue();
    }

    /**
     * `getNextEventType`: the queue holding the soonest pending event, or
     * none when no pending event is before `Double.MAX_VALUE`. The chosen
     * queue's head is not after any pending event of any queue, and it is
     * strictly before those of the queues checked earlier.
     */
    function NextEventType(): (n: NextEvent)
      reads binding, walk, repression
      ensures n == NoEvent <==>
        (binding.IsEmpty() || binding.bindingEvent.value.time >= MAX_VALUE) &&
        (forall e :: e in walk.Contents() ==> e.time >= MAX_VALUE) &&
        (forall e :: e in repression.Contents() ==> e.time >= MAX_VALUE)
      ensures n == BindingNext ==>
        !binding.IsEmpty() && binding.bindingEvent.value.time < MAX_VALUE &&
        (forall e :: e in walk.Contents() ==> binding.bindingEvent.value.time <= e.time) &&
        (forall e :: e in repression.Contents() ==> binding.bindingEvent.value.time <= e.time)
      ensures n == WalkNext ==>
        walk.Peek().Some? && walk.Peek().value.time < MAX_VALUE &&
        (binding.IsEmpty() || walk.Peek().value.time < binding.bindingEvent.value.time) &&
        (forall e :: e in repression.Contents() ==> walk.Peek().value.time <= e.time)
      ensures n == RepressionNext ==>
        repression.Peek().Some? && repression.Peek().value.time < MAX_VALUE &&
        (binding.IsEmpty() || repression.Peek().value.time < binding.bindingEvent.value.time) &&
        (forall e :: e in walk.Contents() ==> repression.Peek().value.time < e.time)
    {
      var b := HeadTime(binding.Peek());
      var w := HeadTime(walk.Peek());
      var r := RepressionHeadTime(repression.Peek());
      EarliestIsFirst(b, w, r);
      Earliest(b, w, r)
    }

    /**
     * `getNextEvent`: the head of the queue `getNextEventType` names is
     * taken out of that queue and returned; the other queues are left as
     * they were, and nothing is taken when no queue is named.
     */
    method GetNextEvent() returns (e: AnyEvent)
      modifies binding`bindingEvent, walk`events, repression`events
      ensures old(NextEventType()) == NoEvent ==>
        e == NullEvent && binding.bindingEvent == old(binding.bindingEvent) &&
        walk.events == old(walk.events) && repression.events == old(repression.events)
      ensures old(NextEventType()) == BindingNext ==>
        e == Protein(old(binding.bindingEvent).value) && binding.IsEmpty() &&
        walk.events == old(walk.events) && repression.events == old(repression.events)
      ensures old(NextEventType()) == WalkNext ==>
        e == Protein(old(walk.Peek()).value) && walk.Contents() == old(walk.Contents()) - multiset{e.pe} &&
        binding.bindingEvent == old(binding.bindingEvent) && repression.events == old(repression.events)
      ensures old(NextEventType()) == RepressionNext ==>
        e == Repression(old(repression.Peek()).value) &&
        repression.Contents() == old(repression.Contents()) - multiset{e.re} &&
        binding.bindingEvent == old(binding.bindingEvent) && walk.events == old(walk.events)
    {
      var n := NextEventType();
      e := PopFrom(n);
    }

    /** The `switch` of `getNextEvent`: the head of the named queue is popped. */
    method PopFrom(n: NextEvent) returns (e: AnyEvent)
      requires n == BindingNext ==> !binding.IsEmpty()
      requires n == WalkNext ==> walk.Peek().Some?
      requires n == RepressionNext ==> repression.Peek().Some?
      modifies binding`bindingEvent, walk`events, repression`events
      ensures n == NoEvent ==>
        e == NullEvent && binding.bindingEvent == old(binding.bindingEvent) &&
        walk.events == old(walk.events) && repression.events == old(repression.events)
      ensures n == BindingNext ==>
        e == Protein(old(binding.bindingEvent).value) && binding.IsEmpty() &&
        walk.events == old(walk.events) && repression.events == old(repression.events)
      ensures n == WalkNext ==>
        e == Protein(old(walk.Peek()).value) && walk.Contents() == old(walk.Contents()) - multiset{e.pe} &&
        binding.bindingEvent == old(binding.bindingEvent) && repression.events == old(repression.events)
      ensures n == RepressionNext ==>
        e == Repression(old(repression.Peek()).value) &&
        repression.Contents() == old(repression.Contents()) - multiset{e.re} &&
        binding.bindingEvent == old(binding.bindingEvent) && walk.events == old(walk.events)
    {
      match n
      case NoEvent =>
        e := NullEvent;
      case BindingNext =>
        var pe := binding.Pop();
        e := Protein(pe.value);
      case WalkNext =>
        var pe := walk.Pop();
        e := Protein(pe.value);
      case RepressionNext =>
        var re := repression.Pop();
        e := Repression(re.value);
    }

    /** `isEmpty`: no queue holds an event. */
    predicate IsEmpty()
      reads binding, walk, repression
      ensures IsEmpty() <==>
        binding.Peek().None? && walk.Contents() == multiset{} && repression.Contents() == multiset{}
    {
      binding.IsEmpty() && walk.IsEmpty() && repression.IsEmpty()
    }

    /**
     * `size`: the pending binding and the random-walk events; the
     * repression queue is not counted, so a list holding only repression
     * events has size 0 without being empty.
     */
    function Size(): (r: nat)
      reads binding, walk
      ensures r == |walk.Contents()| + (if binding.Peek().None? then 0 else 1)
      ensures r == 0 <==> binding.Peek().None? && walk.Contents() == multiset{}
    {
      (if binding.IsEmpty() then 0 else 1) + walk.Size()
    }

    /** An empty list has size 0, but size 0 leaves the repression queue open. */
    lemma SizeOfEmpty()
      ensures IsEmpty() ==> Size() == 0
      ensures Size() == 0 ==> (IsEmpty() <==> repression.Contents() == multiset{})
    {
    }

    /**
     * `scheduleNextTFBindingEvent`: when some molecule is free and the
     * propensities sum to more than zero, the drawn species `nextSpecies`
     * (a species index, or NONE) gives its last free molecule, which is
     * to bind from the cytoplasm at time + nextTime; the event replaces
     * the pending binding. Java compares the index with the number of
     * species, which is the number of free lists.
     */
    method ScheduleNextTFBindingEvent(pool: FreeMolecules, time: real, nextTime: real, nextSpecies: int,
                                      acts: ActionIds)
      modifies binding`bindingEvent
      ensures !(pool.total > 0 && binding.propensitySum > 0.0 && 0 <= nextSpecies < |pool.lists|) ==>
        binding.bindingEvent == old(binding.bindingEvent)
      ensures pool.total > 0 && binding.propensitySum > 0.0 && 0 <= nextSpecies < |pool.lists| ==>
        var pe := binding.bindingEvent;
        pe.Some? && pe.value.time == time + nextTime && pe.value.position == NONE && !pe.value.IsBindingEvent() &&
        pe.value.nextAction == acts.binding && pe.value.isTF && !pe.value.isHoppingEvent &&
        pe.value.propensity == binding.propensitySum &&
        pe.value.proteinID == GetFreeTFmolecule(pool.lists, nextSpecies) &&
        (|pool.lists[nextSpecies]| > 0 ==> pe.value.proteinID in pool.lists[nextSpecies])
    {
      var propensity := binding.propensitySum;
      if pool.total > 0 && propensity > 0.0 {
        if NONE < nextSpecies < |pool.lists| {
          var id := GetFreeTFmolecule(pool.lists, nextSpecies);
          binding.Add(NewProteinEvent(time + nextTime, id, NONE, true, acts.binding, false, propensity));
        }
      }
    }

    /**
     * `scheduleNextTFOnDNAEvent`: for a mobile species, the molecule's next
     * random-walk and repression events are created and one of them, at the
     * common time time + nextTime, is scheduled in its queue as
     * `ChooseOnDna` picks it with the draw `u`; an immobile molecule gets
     * nothing.
     */
    method ScheduleNextTFOnDNAEvent(tf: TF, immobile: bool, time: real, setting: WalkSetting, draws: WalkDraws,
                                    repressionNextTime: real, doubleZero: real, shape: RepressionShape,
                                    length: nat, nextTime: real, u: real, acts: ActionIds)
      modifies walk`events, repression`events, tf`pe, tf`re
      ensures
        var pe := CreateWalkEvent(tf.id, tf.position, tf.moveRate, time, setting, draws, acts);
        var re := CreateRepressionEvent(tf.id, tf.position, tf.repressionEventRate, tf.repressesDNA, time,
                                        repressionNextTime, doubleZero, shape, length, acts);
        var c := if immobile then Unscheduled else ChooseOnDna(pe, re, u);
        var pe' := pe.(time := time + nextTime);
        var re' := re.(time := time + nextTime);
        (c == Unscheduled || (c == WalkChosen && pe'.IsEmpty()) || (c == RepressionChosen && re'.IsEmpty()) ==>
           walk.Contents() == old(walk.Contents()) && repression.Contents() == old(repression.Contents()) &&
           tf.pe == old(tf.pe) && tf.re == old(tf.re)) &&
        (c == WalkChosen && !pe'.IsEmpty() ==>
           walk.Contents() == old(walk.Contents()) + multiset{pe'} && repression.Contents() == old(repression.Contents()) &&
           tf.pe == Some(pe') && tf.re == None) &&
        (c == RepressionChosen && !re'.IsEmpty() ==>
           repression.Contents() == old(repression.Contents()) + multiset{re'} && walk.Contents() == old(walk.Contents()) &&
           tf.re == Some(re') && tf.pe == None)
    {
      if !immobile {
        var pe := CreateWalkEvent(tf.id, tf.position, tf.moveRate, time, setting, draws, acts);
        var re := CreateRepressionEvent(tf.id, tf.position, tf.repressionEventRate, tf.repressesDNA, time,
                                        repressionNextTime, doubleZero, shape, length, acts);
        var c := ChooseOnDna(pe, re, u);
        if c == WalkChosen {
          walk.ScheduleNextEvent(tf, pe.(time := time + nextTime));
        } else if c == RepressionChosen {
          repression.ScheduleNextEvent(tf, re.(time := time + nextTime));
        }
      }
    }

    /**
     * `scheduleNextTFRepressionEvent`: the molecule's next repression
     * event, carrying the given `scheduleNextEvent` flag, is scheduled;
     * it is scheduled exactly when the molecule's repression rate reaches
     * the tolerance.
     */
    method ScheduleNextTFRepressionEvent(tf: TF, time: real, nextTime: real, doubleZero: real,
                                         shape: RepressionShape, length: nat, scheduleNext: bool, acts: ActionIds)
      requires acts.Distinct()
      modifies repression`events, tf`pe, tf`re
      ensures old(tf.repressionEventRate) < doubleZero ==>
        repression.Contents() == old(repression.Contents()) && tf.pe == old(tf.pe) && tf.re == old(tf.re)
      ensures old(tf.repressionEventRate) >= doubleZero ==>
        var re := CreateRepressionEvent(tf.id, tf.position, tf.repressionEventRate, tf.repressesDNA, time,
                                        nextTime, doubleZero, shape, length, acts).(scheduleNextEvent := scheduleNext);
        repression.Contents() == old(repression.Contents()) + multiset{re} &&
        tf.re == Some(re) && tf.pe == None && re.scheduleNextEvent == scheduleNext
    {
      var re := CreateRepressionEvent(tf.id, tf.position, tf.repressionEventRate, tf.repressesDNA, time,
                                      nextTime, doubleZero, shape, length, acts);
      RepressionEventLabels(re, acts);
      re := re.(scheduleNextEvent := scheduleNext);
      repression.ScheduleNextEvent(tf, re);
    }

    /**
     * `scheduleNextTFRandomWalkEvent`: the molecule's next random-walk event
     * is scheduled; it is scheduled exactly when the molecule is on the
     * strand.
     */
    method ScheduleNextTFRandomWalkEvent(tf: TF, time: real, setting: WalkSetting, draws: WalkDraws,
                                         acts: ActionIds)
      requires tf.id != NONE
      modifies walk`events, tf`pe, tf`re
      ensures old(tf.position) == NONE ==>
        walk.Contents() == old(walk.Contents()) && tf.pe == old(tf.pe) && tf.re == old(tf.re)
      ensures old(tf.position) != NONE ==>
        var pe := CreateWalkEvent(tf.id, tf.position, tf.moveRate, time, setting, draws, acts);
        walk.Contents() == old(walk.Contents()) + multiset{pe} && tf.pe == Some(pe) && tf.re == None &&
        pe.proteinID == tf.id && pe.time == time + draws.nextTime
    {
      var pe := CreateWalkEvent(tf.id, tf.position, tf.moveRate, time, setting, draws, acts);
      WalkEventScheduled(tf.id, tf.position, tf.moveRate, time, setting, draws, acts);
      walk.ScheduleNextEvent(tf, pe);
    }
  }
}
