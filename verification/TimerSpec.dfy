/**
 What a TimerQueue promises (audio_utils/TimerQueue.cpp), over every run of its locked steps:
 add, remove, and one pass of the thread loop. Each clock is just the map from event id to
 the event and the time it is registered for; module TimerQueue shows that the clocks' two
 indices and their armed deadline implement that map.
 */
module TimerSpec {

  const INVALID_EVENT_ID: int := -1
  const INT64_MAX: int := 0x7FFF_FFFF_FFFF_FFFF

  /** ptr is the identity of the shared_ptr: ids may be reused after 2^63 events, objects not. */
  datatype Event = Event(ptr: nat, id: int, priorityTime: int, hardDeadline: int)

  datatype Entry = Entry(event: Event, time: int)

  type Pending = map<int, Entry>

  /** One call of an event's function, in the pass that found it due. */
  datatype Execution = Execution(event: Event, now: int)

  /** An event as it was added: the object, and the earliest time it is registered for. */
  datatype Issue = Issue(event: Event, earliest: int)

  datatype Queue = Queue(
    alarm: bool, boot: Pending, wake: Pending, nextId: int,
    issued: seq<Issue>, executed: seq<Execution>, removed: set<nat>)

  /** getNextEventId_l: ids wrap to 1. */
  function IdAfter(id: int): int {
    if id == INT64_MAX then 1 else id + 1
  }

  function Min(a: int, b: int): int {
    if a < b then a else b
  }

  // ---- the steps

  predicate Live(q: Queue, id: int) {
    id in q.boot || id in q.wake
  }

  function EventOf(q: Queue, id: int): Event
    requires Live(q, id)
  {
    if id in q.boot then q.boot[id].event else q.wake[id].event
  }

  /** An event is due when any of its registrations is. */
  predicate DueNow(q: Queue, id: int, now: int) {
    (id in q.boot && q.boot[id].time <= now) || (id in q.wake && q.wake[id].time <= now)
  }

  function DueEvents(q: Queue, now: int): set<Event> {
    set id | id in q.boot.Keys + q.wake.Keys && DueNow(q, id, now) :: EventOf(q, id)
  }

  function AddOne(q: Queue, time: int): Queue {
    var event := Event(|q.issued|, q.nextId, time, time);
    var issued := q.issued + [Issue(event, time)];
    if q.alarm then q.(wake := q.wake[q.nextId := Entry(event, time)], nextId := IdAfter(q.nextId), issued := issued)
    else q.(boot := q.boot[q.nextId := Entry(event, time)], nextId := IdAfter(q.nextId), issued := issued)
  }

  function AddTwo(q: Queue, soft: int, hard: int, priority: int): Queue {
    var event := Event(|q.issued|, q.nextId, if priority >= 0 then priority else hard, hard);
    var issued := q.issued + [Issue(event, if q.alarm then Min(soft, hard) else soft)];
    q.(boot := q.boot[q.nextId := Entry(event, soft)],
       wake := if q.alarm then q.wake[q.nextId := Entry(event, hard)] else q.wake,
       nextId := IdAfter(q.nextId), issued := issued)
  }

  function Removed(q: Queue, id: int): Queue {
    if Live(q, id) then
      q.(boot := q.boot - {id}, wake := q.wake - {id}, removed := q.removed + {EventOf(q, id).ptr})
    else
      q
  }

  /** One pass: order is the execution order that the set and std::sort happened to give. */
  function Passed(q: Queue, now: int, order: seq<Event>): Queue {
    q.(boot := map id | id in q.boot && !DueNow(q, id, now) :: q.boot[id],
       wake := map id | id in q.wake && !DueNow(q, id, now) :: q.wake[id],
       executed := q.executed + seq(|order|, i requires 0 <= i < |order| => Execution(order[i], now)))
  }

  /** The due events, each once, by non-decreasing priority time. */
  ghost predicate IsOrder(order: seq<Event>, events: set<Event>) {
    && (forall i: nat, j: nat :: i < j < |order| ==> order[i] != order[j])
    && (forall i: nat, j: nat :: i < j < |order| ==> order[i].priorityTime <= order[j].priorityTime)
    && (forall e :: e in order <==> e in events)
  }

  datatype Step =
    | Add(time: int)
    | AddSoftHard(soft: int, hard: int, priority: int)
    | Remove(id: int)
    | Pass(now: int, order: seq<Event>)

  function Do(q: Queue, step: Step): Queue {
    match step
    case Add(time) => AddOne(q, time)
    case AddSoftHard(soft, hard, priority) => AddTwo(q, soft, hard, priority)
    case Remove(id) => Removed(q, id)
    case Pass(now, order) => Passed(q, now, order)
  }

  /** Live ids are distinct: no id is handed out again while its event is pending. */
  ghost predicate Possible(q: Queue, step: Step) {
    match step
    case Add(_) => !Live(q, q.nextId)
    case AddSoftHard(_, _, _) => !Live(q, q.nextId)
    case Remove(_) => true
    case Pass(now, order) => IsOrder(order, DueEvents(q, now))
  }

  // ---- what holds in every state

  ghost predicate Registered(q: Queue, id: int, e: Entry) {
    && e.event.id == id && e.event.ptr < |q.issued|
    && q.issued[e.event.ptr].event == e.event && q.issued[e.event.ptr].earliest <= e.time
  }

  ghost predicate IsPending(q: Queue, p: nat)
    requires p < |q.issued|
  {
    Live(q, q.issued[p].event.id) && EventOf(q, q.issued[p].event.id).ptr == p
  }

  ghost predicate IsExecuted(q: Queue, p: nat) {
    exists i: nat :: i < |q.executed| && q.executed[i].event.ptr == p
  }

  /** Event p is in exactly one place. */
  ghost predicate InOnePlace(q: Queue, p: nat)
    requires p < |q.issued|
  {
    && (IsPending(q, p) || IsExecuted(q, p) || p in q.removed)
    && !(IsPending(q, p) && IsExecuted(q, p))
    && !(IsPending(q, p) && p in q.removed)
    && !(IsExecuted(q, p) && p in q.removed)
  }

  /** No event ran before its earliest registered time. */
  ghost predicate InTime(q: Queue, x: Execution) {
    && x.event.ptr < |q.issued| && q.issued[x.event.ptr].event == x.event
    && q.issued[x.event.ptr].earliest <= x.now
  }

  ghost predicate Inv(q: Queue) {
    && (!q.alarm ==> q.wake == map[])
    && (forall id :: id in q.boot ==> Registered(q, id, q.boot[id]))
    && (forall id :: id in q.wake ==> Registered(q, id, q.wake[id]))
    && (forall id :: id in q.boot && id in q.wake ==> q.boot[id].event == q.wake[id].event)
    && (forall p: nat :: p < |q.issued| ==> q.issued[p].event.ptr == p)
    && (forall p: nat :: p < |q.issued| ==> InOnePlace(q, p))
    && (forall i: nat :: i < |q.executed| ==> InTime(q, q.executed[i]))
    && (forall i: nat, j: nat :: i < j < |q.executed| ==> q.executed[i].event.ptr != q.executed[j].event.ptr)
    && (forall p :: p in q.removed ==> p < |q.issued|)
  }

  function NewQueue(alarm: bool): Queue {
    Queue(alarm, map[], map[], 1, [], [], {})
  }

  // ---- every step keeps it

  lemma NewQueueInv(alarm: bool)
    ensures Inv(NewQueue(alarm))
  {
  }

  lemma LiveRegistered(q: Queue, id: int)
    requires Inv(q) && Live(q, id)
    ensures
      var e := EventOf(q, id);
      e.id == id && e.ptr < |q.issued| && q.issued[e.ptr].event == e && IsPending(q, e.ptr)
  {
    hide InOnePlace, InTime;
  }

  /** Adding an event on one clock or both, under an id that is not live. */
  ghost predicate Extends(q: Queue, r: Queue, event: Event, earliest: int) {
    && !Live(q, event.id) && event.ptr == |q.issued| && r.issued == q.issued + [Issue(event, earliest)]
    && r.alarm == q.alarm && r.executed == q.executed && r.removed == q.removed
    && (r.boot == q.boot || exists t :: earliest <= t && r.boot == q.boot[event.id := Entry(event, t)])
    && (r.wake == q.wake || (q.alarm && exists t :: earliest <= t && r.wake == q.wake[event.id := Entry(event, t)]))
    && Live(r, event.id)
  }

  lemma AddStepExtends(q: Queue, step: Step)
    requires Possible(q, step) && (step.Add? || step.AddSoftHard?)
    ensures Extends(q, Do(q, step), Do(q, step).issued[|q.issued|].event, Do(q, step).issued[|q.issued|].earliest)
  {
  }

  lemma ExtendKeepsPlaces(q: Queue, r: Queue, event: Event, earliest: int, p: nat)
    requires Inv(q) && Extends(q, r, event, earliest) && p < |r.issued|
    ensures InOnePlace(r, p)
  {
    hide Registered, InTime;
    if p < |q.issued| {
      assert InOnePlace(q, p);
      assert IsPending(r, p) == IsPending(q, p);
      assert IsExecuted(r, p) == IsExecuted(q, p);
    } else {
      NotYetExecuted(q, p);
      assert IsPending(r, p);
      assert !IsExecuted(r, p);
    }
  }

  lemma NotYetExecuted(q: Queue, p: nat)
    requires Inv(q) && p >= |q.issued|
    ensures !IsExecuted(q, p) && p !in q.removed
  {
    hide InOnePlace, Registered;
    if IsExecuted(q, p) {
      var i: nat :| i < |q.executed| && q.executed[i].event.ptr == p;
      ExecutedIsIssued(q, i);
    }
  }

  lemma ExecutedIsIssued(q: Queue, i: nat)
    requires Inv(q) && i < |q.executed|
    ensures q.executed[i].event.ptr < |q.issued|
  {
    hide InOnePlace, Registered;
    assert InTime(q, q.executed[i]);
  }

  lemma ExtendKeeps(q: Queue, r: Queue, event: Event, earliest: int)
    requires Inv(q) && Extends(q, r, event, earliest)
    ensures Inv(r)
  {
    hide InOnePlace, Registered, InTime;
    forall p: nat | p < |r.issued|
      ensures InOnePlace(r, p)
    {
      ExtendKeepsPlaces(q, r, event, earliest, p);
    }
    forall id | id in r.boot
      ensures Registered(r, id, r.boot[id])
    {
      assert id in q.boot ==> Registered(q, id, q.boot[id]);
      ExtendKeepsEntry(q, r, event, earliest, id, r.boot[id]);
    }
    forall id | id in r.wake
      ensures Registered(r, id, r.wake[id])
    {
      assert id in q.wake ==> Registered(q, id, q.wake[id]);
      ExtendKeepsEntry(q, r, event, earliest, id, r.wake[id]);
    }
    forall i: nat | i < |r.executed|
      ensures InTime(r, r.executed[i])
    {
      assert InTime(q, q.executed[i]);
      ExtendKeepsExecution(q, r, event, earliest, q.executed[i]);
    }
  }

  lemma ExtendKeepsEntry(q: Queue, r: Queue, event: Event, earliest: int, id: int, e: Entry)
    requires Extends(q, r, event, earliest)
    requires Registered(q, id, e) || (id == event.id && e.event == event && earliest <= e.time)
    ensures Registered(r, id, e)
  {
  }

  lemma ExtendKeepsExecution(q: Queue, r: Queue, event: Event, earliest: int, x: Execution)
    requires Extends(q, r, event, earliest) && InTime(q, x)
    ensures InTime(r, x)
  {
  }

  lemma RemoveKeeps(q: Queue, id: int)
    requires Inv(q)
    ensures Inv(Removed(q, id))
  {
    hide InOnePlace, Registered, InTime;
    if Live(q, id) {
      var r := Removed(q, id);
      LiveRegistered(q, id);
      forall p: nat | p < |r.issued|
        ensures InOnePlace(r, p)
      {
        RemoveKeepsPlaces(q, id, p);
      }
      SameIssues(q, r);
    }
  }

  lemma RemoveKeepsPlaces(q: Queue, id: int, p: nat)
    requires Inv(q) && Live(q, id) && p < |q.issued|
    ensures InOnePlace(Removed(q, id), p)
  {
    hide Registered, InTime;
    var r := Removed(q, id);
    LiveRegistered(q, id);
    assert InOnePlace(q, p);
    assert IsExecuted(r, p) == IsExecuted(q, p);
    assert IsPending(r, p) == (IsPending(q, p) && p != EventOf(q, id).ptr);
  }

  /** Registrations and executions do not depend on what is pending. */
  lemma SameIssues(q: Queue, r: Queue)
    requires r.issued == q.issued
    ensures forall id, e :: Registered(r, id, e) == Registered(q, id, e)
    ensures forall x :: InTime(r, x) == InTime(q, x)
  {
  }

  lemma DueIsPending(q: Queue, now: int, e: Event)
    requires Inv(q)
    ensures e in DueEvents(q, now) <==> Live(q, e.id) && DueNow(q, e.id, now) && EventOf(q, e.id) == e
    ensures e in DueEvents(q, now) ==> e.ptr < |q.issued| && q.issued[e.ptr].event == e && IsPending(q, e.ptr)
  {
    hide InOnePlace, InTime, DueNow, Registered;
    if e in DueEvents(q, now) {
      var id :| id in q.boot.Keys + q.wake.Keys && DueNow(q, id, now) && EventOf(q, id) == e;
      LiveRegistered(q, id);
    }
  }

  lemma PassMoves(q: Queue, now: int, order: seq<Event>, p: nat)
    requires Inv(q) && IsOrder(order, DueEvents(q, now)) && p < |q.issued|
    ensures
      var r := Passed(q, now, order);
      var id := q.issued[p].event.id;
      && IsPending(r, p) == (IsPending(q, p) && !DueNow(q, id, now))
      && IsExecuted(r, p) == (IsExecuted(q, p) || (IsPending(q, p) && DueNow(q, id, now)))
  {
    hide InOnePlace, InTime, DueEvents, Registered;
    var r := Passed(q, now, order);
    var e := q.issued[p].event;
    PassedPending(q, now, order, e.id);
    DueIsPending(q, now, e);
    if IsPending(q, p) {
      LiveRegistered(q, e.id);
    }
    if IsPending(q, p) && DueNow(q, e.id, now) {
      assert e in order;
      var i: nat :| i < |order| && order[i] == e;
      assert r.executed[|q.executed| + i].event.ptr == p;
    }
    if IsExecuted(q, p) {
      var i: nat :| i < |q.executed| && q.executed[i].event.ptr == p;
      assert r.executed[i].event.ptr == p;
    }
    if IsExecuted(r, p) && !IsExecuted(q, p) {
      var i: nat :| i < |r.executed| && r.executed[i].event.ptr == p;
      var f := order[i - |q.executed|];
      assert f in order;
      DueIsPending(q, now, f);
    }
  }

  lemma PassedPending(q: Queue, now: int, order: seq<Event>, id: int)
    ensures
      var r := Passed(q, now, order);
      && Live(r, id) == (Live(q, id) && !DueNow(q, id, now))
      && (Live(r, id) ==> EventOf(r, id) == EventOf(q, id))
  {
    hide DueNow;
  }

  lemma PassKeeps(q: Queue, now: int, order: seq<Event>)
    requires Inv(q) && IsOrder(order, DueEvents(q, now))
    ensures Inv(Passed(q, now, order))
  {
    hide InOnePlace, InTime, DueEvents, Registered, DueNow;
    var r := Passed(q, now, order);
    SameIssues(q, r);
    forall p: nat | p < |r.issued|
      ensures InOnePlace(r, p)
    {
      PassKeepsPlace(q, now, order, p);
    }
    forall i: nat | i < |order|
      ensures InTime(r, r.executed[|q.executed| + i])
      ensures order[i].ptr < |q.issued| && !IsExecuted(q, order[i].ptr) && q.issued[order[i].ptr].event == order[i]
    {
      assert order[i] in order;
      DueInTime(q, now, order[i]);
    }
    forall i: nat, j: nat | i < j < |r.executed|
      ensures r.executed[i].event.ptr != r.executed[j].event.ptr
    {
      RanOnce(q, now, order, i, j);
    }
  }

  lemma RanOnce(q: Queue, now: int, order: seq<Event>, i: nat, j: nat)
    requires Inv(q) && IsOrder(order, DueEvents(q, now)) && i < j < |Passed(q, now, order).executed|
    ensures Passed(q, now, order).executed[i].event.ptr != Passed(q, now, order).executed[j].event.ptr
  {
    hide InOnePlace, InTime, DueEvents, Registered, DueNow;
    if |q.executed| <= j {
      var f := order[j - |q.executed|];
      assert f in order;
      DueInTime(q, now, f);
      if |q.executed| <= i {
        assert order[i - |q.executed|] in order;
        DueInTime(q, now, order[i - |q.executed|]);
        assert order[i - |q.executed|] != f;
      }
    }
  }

  lemma PassKeepsPlace(q: Queue, now: int, order: seq<Event>, p: nat)
    requires Inv(q) && IsOrder(order, DueEvents(q, now)) && p < |q.issued|
    ensures InOnePlace(Passed(q, now, order), p)
  {
    hide InTime, DueEvents, Registered, DueNow, IsExecuted, IsPending;
    PassMoves(q, now, order, p);
    assert InOnePlace(q, p);
  }

  lemma DueInTime(q: Queue, now: int, e: Event)
    requires Inv(q) && e in DueEvents(q, now)
    ensures InTime(q, Execution(e, now)) && e.ptr < |q.issued| && q.issued[e.ptr].event == e && !IsExecuted(q, e.ptr)
  {
    hide IsExecuted;
    DueIsPending(q, now, e);
    assert InOnePlace(q, e.ptr);
    assert e.id in q.boot ==> Registered(q, e.id, q.boot[e.id]);
    assert e.id in q.wake ==> Registered(q, e.id, q.wake[e.id]);
  }

  lemma StepKeeps(q: Queue, step: Step)
    requires Inv(q) && Possible(q, step)
    ensures Inv(Do(q, step))
  {
    hide Inv, AddOne, AddTwo, Removed, Passed, DueEvents, IsOrder;
    match step
    case Add(_) =>
      AddStepExtends(q, step);
      ExtendKeeps(q, Do(q, step), Do(q, step).issued[|q.issued|].event, Do(q, step).issued[|q.issued|].earliest);
    case AddSoftHard(_, _, _) =>
      AddStepExtends(q, step);
      ExtendKeeps(q, Do(q, step), Do(q, step).issued[|q.issued|].event, Do(q, step).issued[|q.issued|].earliest);
    case Remove(id) => RemoveKeeps(q, id);
    case Pass(now, order) => PassKeeps(q, now, order);
  }

  // ---- runs

  ghost predicate PossibleRun(q: Queue, steps: seq<Step>)
    decreases |steps|
  {
    steps == [] || (Possible(q, steps[0]) && PossibleRun(Do(q, steps[0]), steps[1..]))
  }

  function Run(q: Queue, steps: seq<Step>): Queue
    decreases |steps|
  {
    if steps == [] then q else Run(Do(q, steps[0]), steps[1..])
  }

  lemma {:induction false} RunKeeps(q: Queue, steps: seq<Step>)
    requires Inv(q) && PossibleRun(q, steps)
    ensures Inv(Run(q, steps))
    decreases |steps|
  {
    hide Inv, Do, Possible;
    if steps != [] {
      StepKeeps(q, steps[0]);
      RunKeeps(Do(q, steps[0]), steps[1..]);
    }
  }

  /** In every run: each event added is in exactly one of pending, executed and removed; it was
      executed at most once, although it may be registered on both clocks, and not before its
      earliest registered time. */
  lemma EveryEventInOnePlace(alarm: bool, steps: seq<Step>)
    requires PossibleRun(NewQueue(alarm), steps)
    ensures
      var q := Run(NewQueue(alarm), steps);
      && (forall p: nat :: p < |q.issued| ==> InOnePlace(q, p))
      && (forall i: nat, j: nat :: i < j < |q.executed| ==> q.executed[i].event.ptr != q.executed[j].event.ptr)
      && (forall i: nat :: i < |q.executed| ==> InTime(q, q.executed[i]))
  {
    hide InOnePlace, InTime, Run, PossibleRun;
    NewQueueInv(alarm);
    RunKeeps(NewQueue(alarm), steps);
  }

  lemma StepGrows(q: Queue, step: Step)
    ensures q.removed <= Do(q, step).removed && q.executed <= Do(q, step).executed && q.issued <= Do(q, step).issued
  {
  }

  lemma {:induction false} RunGrows(q: Queue, steps: seq<Step>)
    ensures q.removed <= Run(q, steps).removed && q.executed <= Run(q, steps).executed && q.issued <= Run(q, steps).issued
    decreases |steps|
  {
    hide Do;
    if steps != [] {
      StepGrows(q, steps[0]);
      RunGrows(Do(q, steps[0]), steps[1..]);
    }
  }

  /** remove returns true exactly for an event that neither ran nor was removed, and after that
      the event never runs, whatever follows. */
  lemma RemovedNeverRuns(q: Queue, id: int, steps: seq<Step>)
    requires Inv(q) && PossibleRun(Removed(q, id), steps)
    ensures Live(q, id) ==>
      var p := EventOf(q, id).ptr;
      p < |q.issued| && IsPending(q, p) && !IsExecuted(q, p) && p !in q.removed
      && !IsExecuted(Run(Removed(q, id), steps), p)
  {
    hide InTime, Registered, IsExecuted, IsPending, Run, PossibleRun;
    if Live(q, id) {
      var p := EventOf(q, id).ptr;
      LiveRegistered(q, id);
      assert InOnePlace(q, p);
      RemoveKeeps(q, id);
      RunKeeps(Removed(q, id), steps);
      RunGrows(Removed(q, id), steps);
      assert p in Removed(q, id).removed;
      assert InOnePlace(Run(Removed(q, id), steps), p);
    }
  }

  /** A pass leaves nothing due behind, and takes nothing that is not due. */
  lemma PassTakesAllDue(q: Queue, now: int, order: seq<Event>)
    requires Inv(q) && IsOrder(order, DueEvents(q, now))
    ensures forall id :: !DueNow(Passed(q, now, order), id, now)
    ensures forall id :: Live(q, id) && !DueNow(q, id, now) ==> Live(Passed(q, now, order), id)
    ensures forall e :: e in order ==> DueNow(q, e.id, now) && Live(q, e.id) && EventOf(q, e.id) == e
  {
    hide Inv, DueEvents;
    forall e | e in order
      ensures DueNow(q, e.id, now) && Live(q, e.id) && EventOf(q, e.id) == e
    {
      DueIsPending(q, now, e);
    }
  }

  // ---- events are registered as they were added

  /** The calls of add, in order: event p is the one that call p made. */
  function Adds(steps: seq<Step>): seq<Step>
    decreases |steps|
  {
    if steps == [] then []
    else if steps[0].Add? || steps[0].AddSoftHard? then [steps[0]] + Adds(steps[1..])
    else Adds(steps[1..])
  }

  /** The deadline by which the caller wants the event executed, even if the device is suspended. */
  function HardOf(a: Step): int
    requires a.Add? || a.AddSoftHard?
  {
    if a.Add? then a.time else a.hard
  }

  /** Events due in one pass are executed by this time. */
  function PriorityOf(a: Step): int
    requires a.Add? || a.AddSoftHard?
  {
    if a.Add? then a.time else if a.priority < 0 then a.hard else a.priority
  }

  /** No clock makes the event due before this time. */
  function EarliestOf(alarm: bool, a: Step): int
    requires a.Add? || a.AddSoftHard?
  {
    if a.Add? then a.time else if alarm && a.hard < a.soft then a.hard else a.soft
  }

  predicate RegisteredAt(clock: Pending, id: int, event: Event, time: int) {
    id in clock && clock[id] == Entry(event, time)
  }

  /** A live event is on the clock that wakes the device at its hard deadline, if there is such a
      clock, and on the boot clock at its soft deadline; with one time it is on one clock. */
  predicate OnClocks(q: Queue, event: Event, a: Step)
    requires a.Add? || a.AddSoftHard?
  {
    && (if q.alarm then RegisteredAt(q.wake, event.id, event, HardOf(a)) else event.id !in q.wake)
    && (if a.AddSoftHard? then RegisteredAt(q.boot, event.id, event, a.soft)
        else if q.alarm then event.id !in q.boot else RegisteredAt(q.boot, event.id, event, a.time))
  }

  ghost predicate MadeBy(q: Queue, adds: seq<Step>) {
    && |q.issued| == |adds| && (forall p: nat :: p < |adds| ==> adds[p].Add? || adds[p].AddSoftHard?)
    && (forall p: nat :: p < |adds| ==>
          && q.issued[p].event.hardDeadline == HardOf(adds[p]) && q.issued[p].event.priorityTime == PriorityOf(adds[p])
          && q.issued[p].earliest == EarliestOf(q.alarm, adds[p]))
    && (forall id :: Live(q, id) ==>
          EventOf(q, id).ptr < |adds| && EventOf(q, id).id == id && OnClocks(q, EventOf(q, id), adds[EventOf(q, id).ptr]))
  }

  lemma AddMadeBy(q: Queue, step: Step, adds: seq<Step>)
    requires MadeBy(q, adds) && Possible(q, step) && (step.Add? || step.AddSoftHard?) && (!q.alarm ==> q.wake == map[])
    ensures MadeBy(Do(q, step), adds + [step])
  {
    var r, all, event := Do(q, step), adds + [step], Do(q, step).issued[|q.issued|].event;
    forall id | Live(r, id)
      ensures EventOf(r, id).ptr < |all| && EventOf(r, id).id == id && OnClocks(r, EventOf(r, id), all[EventOf(r, id).ptr])
    {
      if id != event.id {
        assert Live(q, id) && EventOf(r, id) == EventOf(q, id);
        assert OnClocks(q, EventOf(q, id), adds[EventOf(q, id).ptr]);
      }
    }
  }

  /** Removing and executing takes an event off both clocks. */
  lemma OtherMadeBy(q: Queue, step: Step, adds: seq<Step>)
    requires MadeBy(q, adds) && (step.Remove? || step.Pass?)
    ensures MadeBy(Do(q, step), adds)
  {
    hide HardOf, PriorityOf, EarliestOf;
    var r := Do(q, step);
    assert r.issued == q.issued && r.alarm == q.alarm;
    forall id | Live(r, id)
      ensures Live(q, id) && EventOf(r, id) == EventOf(q, id) && EventOf(q, id).id == id
      ensures EventOf(q, id).ptr < |adds| && OnClocks(r, EventOf(q, id), adds[EventOf(q, id).ptr])
    {
      assert OnClocks(q, EventOf(q, id), adds[EventOf(q, id).ptr]);
    }
  }

  lemma {:induction false} RunMadeBy(q: Queue, before: seq<Step>, steps: seq<Step>)
    requires Inv(q) && MadeBy(q, before) && PossibleRun(q, steps)
    ensures MadeBy(Run(q, steps), before + Adds(steps))
    decreases |steps|
  {
    hide Inv, Do, Possible, MadeBy, Adds;
    AddsFirst(before, steps);
    if steps != [] {
      StepKeeps(q, steps[0]);
      if steps[0].Add? || steps[0].AddSoftHard? {
        WakeUnused(q);
        AddMadeBy(q, steps[0], before);
        RunMadeBy(Do(q, steps[0]), before + [steps[0]], steps[1..]);
      } else {
        OtherMadeBy(q, steps[0], before);
        RunMadeBy(Do(q, steps[0]), before, steps[1..]);
      }
    }
  }

  lemma AddsFirst(before: seq<Step>, steps: seq<Step>)
    ensures before + Adds(steps) ==
      if steps == [] then before
      else if steps[0].Add? || steps[0].AddSoftHard? then before + [steps[0]] + Adds(steps[1..])
      else before + Adds(steps[1..])
  {
    AddsIs(steps);
    hide Adds;
    if steps != [] {
      Regroup(before, steps[0], Adds(steps[1..]));
    }
  }

  lemma AddsIs(steps: seq<Step>)
    ensures Adds(steps) ==
      if steps == [] then []
      else if steps[0].Add? || steps[0].AddSoftHard? then [steps[0]] + Adds(steps[1..])
      else Adds(steps[1..])
  {
  }

  lemma Regroup<T>(a: seq<T>, x: T, b: seq<T>)
    ensures a + ([x] + b) == a + [x] + b
  {
  }

  lemma WakeUnused(q: Queue)
    requires Inv(q)
    ensures !q.alarm ==> q.wake == map[]
  {
    hide InOnePlace, InTime, Registered;
  }

  /** In every run: each event that is still pending is registered for the times it was added with,
      on the clocks that these call for, and each event has the priority it was added with. */
  lemma EventsKeepTheirTimes(alarm: bool, steps: seq<Step>)
    requires PossibleRun(NewQueue(alarm), steps)
    ensures MadeBy(Run(NewQueue(alarm), steps), Adds(steps)) && Run(NewQueue(alarm), steps).alarm == alarm
  {
    hide Run, PossibleRun, Adds;
    NewQueueInv(alarm);
    RunMadeBy(NewQueue(alarm), [], steps);
    AlarmStays(NewQueue(alarm), steps);
    assert [] + Adds(steps) == Adds(steps);
  }

  lemma {:induction false} AlarmStays(q: Queue, steps: seq<Step>)
    ensures Run(q, steps).alarm == q.alarm
    decreases |steps|
  {
    if steps != [] {
      AlarmStays(Do(q, steps[0]), steps[1..]);
    }
  }

  // ---- ids do not run out in practice

  /** As long as the id counter has not wrapped, ids count the events added. */
  ghost predicate Counting(q: Queue) {
    && q.nextId == |q.issued| + 1 <= INT64_MAX
    && forall p: nat :: p < |q.issued| ==> q.issued[p].event.id == p + 1
  }

  lemma NewQueueCounts(alarm: bool)
    ensures Counting(NewQueue(alarm))
  {
  }

  /** The ids go round: none is left out, and INVALID_EVENT_ID is none of them. */
  lemma IdsGoRound(id: int, other: int)
    requires 1 <= id <= INT64_MAX && 1 <= other <= INT64_MAX && id != other
    ensures 1 <= IdAfter(id) <= INT64_MAX && IdAfter(id) != IdAfter(other) && IdAfter(id) != INVALID_EVENT_ID
  {
  }

  /** Then the next id is not live: every step is possible, and keeps counting until the wrap. */
  lemma CountingNeverReuses(q: Queue, step: Step)
    requires Inv(q) && Counting(q) && (step.Pass? ==> IsOrder(step.order, DueEvents(q, step.now)))
    ensures Possible(q, step)
    ensures q.nextId < INT64_MAX ==> Counting(Do(q, step))
  {
    hide InOnePlace, InTime, DueEvents, IsOrder;
    if Live(q, q.nextId) {
      LiveRegistered(q, q.nextId);
    }
  }
}
