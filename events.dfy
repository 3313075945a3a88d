/**
 * The simulator's events (src/event/Event.java, ProteinEvent.java,
 * RepressionEvent.java): values that carry the time at which they are
 * scheduled, the action they perform and the molecule they concern.
 *
 * Java's `Double.MAX_VALUE` marks the empty event. Times are reals, so the
 * model has no NaN and no infinity.
 */
module Events {
  import opened Wrappers
  import opened Text

  /** Java's `Double.MAX_VALUE`, (2^53 - 1) * 2^971. */
  const MAX_VALUE: real := 179769313486231570814527423731704356798070567525844996598917476803157260780028538760589558632766878171540458953514382464234321326889464182768467546703537516986049910576551282076245490090389328944075868508455133942304583236903222948165808559332123348274797826204144723168738177180919299881250404026184124858368.0

  /**
   * The `Constants.EVENT_TF_*` action ids, which the model takes as
   * parameters: all that matters is that they differ from each other and
   * from NONE.
   */
  datatype ActionIds = ActionIds(binding: int, jump: int, hop: int, slideLeft: int, slideRight: int,
                                 repression: int, unrepression: int)
  {
    predicate Distinct() {
      var ids := [binding, jump, hop, slideLeft, slideRight, repression, unrepression];
      (forall i :: 0 <= i < |ids| ==> ids[i] != NONE) &&
      (forall i, j :: 0 <= i < j < |ids| ==> ids[i] != ids[j])
    }
  }

  // ------------------------------------------------------------ Event

  /** `Event`: the time at which it is scheduled and the action it performs. */
  datatype Event = Event(time: real, nextAction: int)
  {
    /** `compareTo`: events are ordered by their time alone. */
    function CompareTo(e: Event): (r: int)
      ensures r == -1 <==> time < e.time
      ensures r == 0 <==> time == e.time
      ensures r == 1 <==> time > e.time
    {
      if e.time > time then -1 else if e.time == time then 0 else 1
    }

    /** `isEmpty`: the event is scheduled at `Double.MAX_VALUE`. */
    predicate IsEmpty() {
      time == MAX_VALUE
    }
  }

  /**
   * `compareTo` is a total preorder: swapping the events negates the
   * answer, and "not after" is transitive and total.
   */
  lemma CompareToPreorder(a: Event, b: Event, c: Event)
    ensures a.CompareTo(b) == -b.CompareTo(a)
    ensures a.CompareTo(a) == 0
    ensures a.CompareTo(b) <= 0 || b.CompareTo(a) <= 0
    ensures a.CompareTo(b) <= 0 && b.CompareTo(c) <= 0 ==> a.CompareTo(c) <= 0
  {
  }

  // ------------------------------------------------------------ ProteinEvent

  /** `ProteinEvent`: a binding or random-walk event of one molecule. */
  datatype ProteinEvent = ProteinEvent(time: real, nextAction: int, proteinID: int, position: int, isTF: bool,
                                       isHoppingEvent: bool, propensity: real)
  {
    /** The `Event` part. */
    function AsEvent(): (e: Event)
      ensures e.time == time && e.nextAction == nextAction
    {
      Event(time, nextAction)
    }

    /** `isBindingEvent`. */
    predicate IsBindingEvent() {
      position >= 0
    }

    /** `isEqualTo`: the same molecule at the same time. */
    predicate IsEqualTo(pe: ProteinEvent) {
      proteinID == pe.proteinID && time == pe.time
    }

    /** `isEmpty`. */
    predicate IsEmpty() {
      time == MAX_VALUE && nextAction == NONE && proteinID == NONE && propensity == 0.0
    }
  }

  /** The default constructor `ProteinEvent()`. */
  function EmptyProteinEvent(): (pe: ProteinEvent)
    ensures pe.IsEmpty() && pe.AsEvent().IsEmpty()
    ensures pe.position == NONE && !pe.IsBindingEvent() && !pe.isTF && !pe.isHoppingEvent
  {
    ProteinEvent(MAX_VALUE, NONE, NONE, NONE, false, false, 0.0)
  }

  /** The seven-argument constructor keeps every argument. */
  function NewProteinEvent(time: real, proteinID: int, position: int, isTF: bool, nextAction: int,
                           isHoppingEvent: bool, propensity: real): (pe: ProteinEvent)
    ensures pe.time == time && pe.proteinID == proteinID && pe.position == position && pe.isTF == isTF
    ensures pe.nextAction == nextAction && pe.isHoppingEvent == isHoppingEvent && pe.propensity == propensity
  {
    ProteinEvent(time, nextAction, proteinID, position, isTF, isHoppingEvent, propensity)
  }

  /**
   * An empty protein event is an empty `Event`, and an event with a
   * non-NONE action or molecule is never empty.
   */
  lemma ProteinEventEmptiness(pe: ProteinEvent)
    ensures pe.IsEmpty() ==> pe.AsEvent().IsEmpty()
    ensures pe.nextAction != NONE || pe.proteinID != NONE || pe.time != MAX_VALUE ==> !pe.IsEmpty()
    ensures pe.IsEmpty() <==> pe == EmptyProteinEvent().(position := pe.position, isTF := pe.isTF,
                                                         isHoppingEvent := pe.isHoppingEvent)
  {
  }

  /** `isEqualTo` is an equivalence relation. */
  lemma IsEqualToEquivalence(a: ProteinEvent, b: ProteinEvent, c: ProteinEvent)
    ensures a.IsEqualTo(a)
    ensures a.IsEqualTo(b) ==> b.IsEqualTo(a)
    ensures a.IsEqualTo(b) && b.IsEqualTo(c) ==> a.IsEqualTo(c)
  {
  }

  // ------------------------------------------------------------ RepressionEvent

  /** `RepressionEvent`: a molecule represses or releases [boundaryLeft, boundaryRight]. */
  datatype RepressionEvent = RepressionEvent(time: real, nextAction: int, proteinID: int, boundaryLeft: int,
                                             boundaryRight: int, propensity: real, scheduleNextEvent: bool)
  {
    /** The `Event` part. */
    function AsEvent(): (e: Event)
      ensures e.time == time && e.nextAction == nextAction
    {
      Event(time, nextAction)
    }

    /** The action word of `toString`. */
    function Label(acts: ActionIds): (r: string)
      ensures r == "Repression" <==> nextAction == acts.repression
      ensures r == "Unrepression" <==> nextAction != acts.repression
    {
      if nextAction == acts.repression then "Repression" else "Unrepression"
    }

    /**
     * `toString`, given the text Java prints for the time: the time, the
     * action word and then the molecule and the two boundaries.
     */
    function ToString(timeText: string, acts: ActionIds): (r: string)
      ensures |r| > |timeText| + 2 + |Label(acts)|
      ensures r[..|timeText| + 2 + |Label(acts)|] == timeText + ": " + Label(acts)
    {
      timeText + ": " + Label(acts) + " by TF " + IntToString(proteinID) + " from position " +
      IntToString(boundaryLeft) + " to " + IntToString(boundaryRight)
    }

    /** `isEmpty`. */
    predicate IsEmpty() {
      time == MAX_VALUE && nextAction == NONE && proteinID == NONE && propensity == 0.0
    }
  }

  /** The default constructor `RepressionEvent()`. */
  function EmptyRepressionEvent(): (re: RepressionEvent)
    ensures re.IsEmpty() && re.AsEvent().IsEmpty()
    ensures re.boundaryLeft == NONE && re.boundaryRight == NONE && !re.scheduleNextEvent
  {
    RepressionEvent(MAX_VALUE, NONE, NONE, NONE, NONE, 0.0, false)
  }

  /** The seven-argument constructor keeps every argument. */
  function NewRepressionEvent(time: real, nextAction: int, proteinID: int, boundaryLeft: int, boundaryRight: int,
                              propensity: real, scheduleNextEvent: bool): (re: RepressionEvent)
    ensures re.time == time && re.nextAction == nextAction && re.proteinID == proteinID
    ensures re.boundaryLeft == boundaryLeft && re.boundaryRight == boundaryRight
    ensures re.propensity == propensity && re.scheduleNextEvent == scheduleNextEvent
  {
    RepressionEvent(time, nextAction, proteinID, boundaryLeft, boundaryRight, propensity, scheduleNextEvent)
  }

  /**
   * A repression or unrepression event made with a real action id is never
   * empty, and the two actions get different labels.
   */
  lemma RepressionEventLabels(re: RepressionEvent, acts: ActionIds)
    requires acts.Distinct()
    ensures re.nextAction == acts.repression || re.nextAction == acts.unrepression ==> !re.IsEmpty()
    ensures re.nextAction == acts.unrepression ==> re.Label(acts) == "Unrepression"
    ensures re.IsEmpty() ==> re.Label(acts) == "Unrepression"
  {
    var ids := [acts.binding, acts.jump, acts.hop, acts.slideLeft, acts.slideRight, acts.repression, acts.unrepression];
    assert ids[5] != ids[6] && ids[5] != NONE && ids[6] != NONE;
  }
}
