/**
 The TimerQueue and its AlarmClocks (audio_utils/TimerQueue.cpp). A clock keeps its events by
 id and, in a second index, by time, and has a one-shot timer armed for the first of them.
 The methods are proved against the steps of module TimerSpec.
 */
module TimerQueue {
  import opened TimerSpec

  /** One element of the time index, a multimap from time to id. */
  datatype Slot = Slot(time: int, id: int)

  /** setTimer's argument that fires at once, used when shutting down. */
  const MAGIC_UNBLOCK_TIME: int := 1

  ghost predicate Sorted(index: seq<Slot>) {
    forall i: nat, j: nat :: i < j < |index| ==> index[i].time <= index[j].time
  }

  ghost predicate DistinctIds(index: seq<Slot>) {
    forall i: nat, j: nat :: i < j < |index| ==> index[i].id != index[j].id
  }

  /** The two indices agree: they hold the same ids, each at the time it is registered for. */
  ghost predicate Agree(events: Pending, index: seq<Slot>) {
    && Sorted(index) && DistinctIds(index)
    && (forall i: nat :: i < |index| ==> index[i].id in events && events[index[i].id].time == index[i].time)
    && (forall id :: id in events ==> Slot(events[id].time, id) in index)
  }

  /** What the timer must be set to: the least pending time, or 0, which disarms it. */
  ghost predicate IsDeadline(events: Pending, deadline: int) {
    if events == map[] then deadline == 0
    else
      && (exists id :: id in events && events[id].time == deadline)
      && (forall id :: id in events ==> deadline <= events[id].time)
  }

  /** Position at which multimap::emplace inserts: behind all elements that are not later. */
  function UpperBound(index: seq<Slot>, time: int): (k: nat)
    ensures k <= |index|
    ensures forall i: nat :: i < k ==> index[i].time <= time
    ensures k < |index| ==> time < index[k].time
  {
    if index == [] || time < index[0].time then 0 else 1 + UpperBound(index[1..], time)
  }

  function Inserted(index: seq<Slot>, slot: Slot): seq<Slot> {
    var k := UpperBound(index, slot.time);
    index[..k] + [slot] + index[k..]
  }

  lemma InsertAgrees(events: Pending, index: seq<Slot>, id: int, e: Entry)
    requires Agree(events, index) && id !in events
    ensures Agree(events[id := e], Inserted(index, Slot(e.time, id)))
  {
    hide Sorted, UpperBound;
    InsertedSorted(index, Slot(e.time, id));
    InsertedDistinct(index, Slot(e.time, id));
    InsertedHolds(index, Slot(e.time, id));
  }

  lemma InsertedSorted(index: seq<Slot>, slot: Slot)
    requires Sorted(index)
    ensures Sorted(Inserted(index, slot))
  {
    var k := UpperBound(index, slot.time);
    forall i: nat | k <= i < |index|
      ensures slot.time <= index[i].time
    {
      assert index[k].time <= index[i].time by { assert i == k || k < i; }
    }
  }

  lemma InsertedDistinct(index: seq<Slot>, slot: Slot)
    requires DistinctIds(index) && forall i: nat :: i < |index| ==> index[i].id != slot.id
    ensures DistinctIds(Inserted(index, slot))
  {
    hide UpperBound;
    var k := UpperBound(index, slot.time);
    forall i: nat, j: nat | i < j < |index| + 1
      ensures Inserted(index, slot)[i].id != Inserted(index, slot)[j].id
    {
      if i == k {
        assert index[j - 1].id != slot.id;
      } else if j == k {
        assert index[i].id != slot.id;
      } else {
        assert index[if i < k then i else i - 1].id != index[if j < k then j else j - 1].id;
      }
    }
  }

  lemma InsertedHolds(index: seq<Slot>, slot: Slot)
    ensures forall x: Slot :: x in Inserted(index, slot) <==> x in index || x == slot
  {
    hide UpperBound;
    var k := UpperBound(index, slot.time);
    assert index == index[..k] + index[k..];
  }

  function Dropped(index: seq<Slot>, i: nat): seq<Slot>
    requires i < |index|
  {
    index[..i] + index[i + 1..]
  }

  lemma DropAgrees(events: Pending, index: seq<Slot>, i: nat)
    requires Agree(events, index) && i < |index|
    ensures Agree(events - {index[i].id}, Dropped(index, i))
  {
    hide Sorted, DistinctIds, Dropped;
    DroppedOrdered(index, i);
    DroppedHolds(index, i);
    var after := Dropped(index, i);
    forall j: nat | j < |after|
      ensures after[j] in index && after[j].id != index[i].id
    {
      assert after[j] in after;
    }
  }

  /** Without element i the deadline stays, unless i was the first. */
  lemma DropKeepsFirst(events: Pending, index: seq<Slot>, deadline: int, i: nat)
    requires Agree(events, index) && IsDeadline(events, deadline) && i < |index|
    ensures Agree(events - {index[i].id}, Dropped(index, i))
    ensures index[0].id != index[i].id ==> IsDeadline(events - {index[i].id}, deadline)
  {
    hide Agree, IsDeadline;
    FirstIsLeast(events, index);
    DeadlineUnique(events, deadline, index[0].time);
    DropAgrees(events, index, i);
    FirstIsLeast(events - {index[i].id}, Dropped(index, i));
  }

  lemma DroppedOrdered(index: seq<Slot>, i: nat)
    requires Sorted(index) && DistinctIds(index) && i < |index|
    ensures Sorted(Dropped(index, i)) && DistinctIds(Dropped(index, i))
  {
    var after := Dropped(index, i);
    forall j: nat, k: nat | j < k < |after|
      ensures after[j].time <= after[k].time && after[j].id != after[k].id
    {
      var j', k' := if j < i then j else j + 1, if k < i then k else k + 1;
      assert after[j] == index[j'] && after[k] == index[k'];
    }
  }

  lemma DroppedHolds(index: seq<Slot>, i: nat)
    requires DistinctIds(index) && i < |index|
    ensures forall x: Slot :: x in Dropped(index, i) <==> x in index && x.id != index[i].id
  {
    assert index == index[..i] + [index[i]] + index[i + 1..];
    assert Dropped(index, i) == index[..i] + index[i + 1..];
  }

  /** In agreement, the first element of the time index carries the least pending time. */
  lemma FirstIsLeast(events: Pending, index: seq<Slot>)
    requires Agree(events, index)
    ensures index == [] <==> events == map[]
    ensures index != [] ==> IsDeadline(events, index[0].time)
    ensures index == [] ==> IsDeadline(events, 0)
  {
    if index != [] {
      assert index[0].id in events;
      forall id | id in events
        ensures index[0].time <= events[id].time
      {
        var i: nat :| i < |index| && index[i] == Slot(events[id].time, id);
        assert i == 0 || index[0].time <= index[i].time;
      }
    } else {
      assert forall id :: id !in events;
    }
  }

  /** The timer of a clock as it was last set: a timer set to 0 is disarmed. */
  datatype Timer = Disarmed | Armed(time: int)

  /** The itimerspec that setTimer fills in: it stays 0 unless the time is positive. */
  function TimerFor(time: int): Timer {
    if time > 0 then Armed(time) else Disarmed
  }

  /** Whatever was added, removed or collected, a clock with pending events is left disarmed
      exactly if one of them is registered for a time that is not positive. */
  lemma PendingButDisarmedIff(clock: AlarmClock)
    requires clock.Valid()
    ensures clock.events != map[] && clock.timer == Disarmed <==> exists id :: id in clock.events && clock.events[id].time <= 0
    ensures clock.timer.Armed? ==> IsDeadline(clock.events, clock.timer.time)
  {
    hide Agree;
    if id :| id in clock.events && clock.events[id].time <= 0 {
      assert clock.events != map[];
    }
  }

  class AlarmClock {
    var events: Pending
    var timeIndex: seq<Slot>
    var deadline: int  // the time last passed to setTimer
    var timer: Timer

    constructor ()
      ensures events == map[] && Valid()
    {
      events, timeIndex, deadline, timer := map[], [], 0, Disarmed;
    }

    /** While the queue is running. */
    ghost predicate Valid()
      reads this
    {
      Agree(events, timeIndex) && IsDeadline(events, deadline) && timer == TimerFor(deadline) && INVALID_EVENT_ID !in events
    }

    method SetTimer(time: int)
      modifies this`deadline, this`timer
      ensures deadline == time && timer == TimerFor(time)
    {
      deadline := time;
      if time > 0 {
        timer := Armed(time);
      } else {
        timer := Disarmed;
      }
    }

    method ArmTimerForNextEvent(running: bool)
      requires Agree(events, timeIndex) && INVALID_EVENT_ID !in events
      modifies this`deadline, this`timer
      ensures running ==> Valid()
      ensures !running ==> timer == Armed(MAGIC_UNBLOCK_TIME)
    {
      FirstIsLeast(events, timeIndex);
      var nextTime := 0;
      if !running {
        nextTime := MAGIC_UNBLOCK_TIME;
      } else if timeIndex != [] {
        nextTime := timeIndex[0].time;
      }
      SetTimer(nextTime);
    }

    method Add(executionTime: int, event: Event)
      requires Valid() && event.id !in events && event.id != INVALID_EVENT_ID
      modifies this
      ensures Valid() && events == old(events)[event.id := Entry(event, executionTime)]
    {
      hide Agree, IsDeadline;
      FirstIsLeast(events, timeIndex);
      var needsReschedule := timeIndex == [] || executionTime < timeIndex[0].time;
      DeadlineUnique(events, deadline, if timeIndex == [] then 0 else timeIndex[0].time);
      InsertAgrees(events, timeIndex, event.id, Entry(event, executionTime));
      events := events[event.id := Entry(event, executionTime)];
      timeIndex := Inserted(timeIndex, Slot(executionTime, event.id));
      FirstIsLeast(events, timeIndex);
      if needsReschedule {
        ArmTimerForNextEvent(true);
      }
    }

    /** The search through the elements of the same time for the one with this id. */
    method FindSlot(id: int) returns (i: nat)
      requires Agree(events, timeIndex) && id in events
      ensures i < |timeIndex| && timeIndex[i].id == id
      ensures timeIndex[0].id == id ==> i == 0
    {
      i := 0;
      while i < |timeIndex| && timeIndex[i] != Slot(events[id].time, id)
        invariant 0 <= i <= |timeIndex|
        invariant forall j: nat :: j < i ==> timeIndex[j] != Slot(events[id].time, id)
      {
        i := i + 1;
      }
    }

    method Remove(id: int) returns (found: bool)
      requires Valid()
      modifies this
      ensures Valid() && events == old(events) - {id}
      ensures found <==> id in old(events)
    {
      if id == INVALID_EVENT_ID || id !in events {
        assert events - {id} == events;
        return false;
      }
      hide Agree, IsDeadline, Dropped, TimerFor;
      var i := FindSlot(id);
      var wasNext := timeIndex[0].id == id;
      DropKeepsFirst(events, timeIndex, deadline, i);
      events := events - {id};
      timeIndex := Dropped(timeIndex, i);
      if wasNext {
        ArmTimerForNextEvent(true);
      }
      return true;
    }

    /** Moves every event that is due on this clock into the set. */
    method CollectEvents(now: int, running: bool, before: set<Event>) returns (collected: set<Event>)
      requires Valid()
      modifies this
      ensures running ==> Valid()
      ensures !running ==> timer == Armed(MAGIC_UNBLOCK_TIME)
      ensures events == Later(old(events), now)
      ensures collected == before + DueOn(old(events), now)
    {
      hide Agree, IsDeadline;
      ghost var was := events;
      collected := before;
      CollectedNothing(was, now);
      while timeIndex != [] && timeIndex[0].time <= now
        invariant Agree(events, timeIndex) && INVALID_EVENT_ID !in events
        invariant Between(was, events, now)
        invariant collected == before + Gone(was, events)
        decreases |timeIndex|
      {
        var id := timeIndex[0].id;
        FirstIsPending(events, timeIndex);
        CollectOne(was, events, now, id);
        DropAgrees(events, timeIndex, 0);
        collected := collected + {events[id].event};
        events := events - {id};
        assert Dropped(timeIndex, 0) == timeIndex[1..];
        timeIndex := timeIndex[1..];
      }
      FirstIsLeast(events, timeIndex);
      CollectedAll(was, events, now, if timeIndex == [] then 0 else timeIndex[0].time);
      ArmTimerForNextEvent(running);
    }

    /** Removes events that were collected from another clock. */
    method RemoveEvents(gone: set<Event>)
      requires Valid()
      modifies this
      ensures Valid() && events == old(events) - (set e | e in gone :: e.id)
    {
      hide Agree, IsDeadline;
      var rest := gone;
      while rest != {}
        invariant rest <= gone && Valid()
        invariant events == old(events) - (set e | e in gone - rest :: e.id)
        decreases rest
      {
        var event :| event in rest;
        var _ := Remove(event.id);
        rest := rest - {event};
        assert (set e | e in gone - rest :: e.id) == (set e | e in gone - rest - {event} :: e.id) + {event.id};
      }
      assert gone - {} == gone;
    }
  }

  class TimerQueue {
    const alarm: bool
    const boot: AlarmClock
    const wake: AlarmClock
    var running: bool
    var nextEventId: int
    var objects: nat  // stands for the addresses that make_shared hands out
    ghost var issued: seq<Issue>
    ghost var executed: seq<Execution>
    ghost var removed: set<nat>

    /** Without alarm the second clock does not exist; here it stays empty. */
    constructor (withAlarm: bool)
      ensures Valid() && State() == NewQueue(withAlarm)
      ensures fresh(boot) && fresh(wake)
    {
      alarm := withAlarm;
      boot := new AlarmClock();
      wake := new AlarmClock();
      running, nextEventId, objects := true, 1, 0;
      issued, executed, removed := [], [], {};
      new;
      NewQueueInv(withAlarm);
    }

    ghost predicate Valid()
      reads this, boot, wake
    {
      && boot != wake && boot.Valid() && wake.Valid()
      && running && 1 <= nextEventId <= INT64_MAX && objects == |issued| && Inv(State())
    }

    ghost function State(): Queue
      reads this, boot, wake
    {
      Queue(alarm, boot.events, wake.events, nextEventId, issued, executed, removed)
    }

    method GetNextEventId() returns (id: int)
      requires 1 <= nextEventId <= INT64_MAX
      modifies this`nextEventId
      ensures id == old(nextEventId) && nextEventId == IdAfter(id) && 1 <= nextEventId <= INT64_MAX
    {
      id := nextEventId;
      nextEventId := if id == INT64_MAX then 1 else nextEventId + 1;
    }

    /** add with one time; usable says that the clock is ready and the function not null. */
    method Add(usable: bool, time: int) returns (id: int)
      requires Valid() && !Live(State(), nextEventId)
      modifies this, boot, wake
      ensures Valid()
      ensures !usable ==> id == INVALID_EVENT_ID && State() == old(State())
      ensures usable ==> id == old(nextEventId) && State() == Do(old(State()), Step.Add(time))
    {
      hide Agree, IsDeadline, Inv;
      if !usable {
        return INVALID_EVENT_ID;
      }
      StepKeeps(State(), Step.Add(time));
      id := GetNextEventId();
      var event := Event(objects, id, time, time);
      if alarm {
        wake.Add(time, event);
      } else {
        boot.Add(time, event);
      }
      objects := objects + 1;
      issued := issued + [Issue(event, time)];
    }

    /** add with a soft and a hard deadline. */
    method AddSoftHard(usable: bool, soft: int, hard: int, priority: int) returns (id: int)
      requires Valid() && !Live(State(), nextEventId)
      modifies this, boot, wake
      ensures Valid()
      ensures !usable ==> id == INVALID_EVENT_ID && State() == old(State())
      ensures usable ==> id == old(nextEventId) && State() == Do(old(State()), Step.AddSoftHard(soft, hard, priority))
    {
      hide Agree, IsDeadline, Inv;
      if !usable {
        return INVALID_EVENT_ID;
      }
      StepKeeps(State(), Step.AddSoftHard(soft, hard, priority));
      id := GetNextEventId();
      var event := Event(objects, id, if priority >= 0 then priority else hard, hard);
      boot.Add(soft, event);
      if alarm {
        wake.Add(hard, event);
      }
      objects := objects + 1;
      issued := issued + [Issue(event, if alarm then TimerSpec.Min(soft, hard) else soft)];
    }

    /** remove looks at all clocks, because an id can belong to more than one. */
    method Remove(ready: bool, id: int) returns (found: bool)
      requires Valid()
      modifies this, boot, wake
      ensures Valid()
      ensures found <==> ready && Live(old(State()), id)
      ensures State() == if ready then Do(old(State()), Step.Remove(id)) else old(State())
    {
      hide Agree, IsDeadline, Inv;
      if !ready || id == INVALID_EVENT_ID {
        return false;
      }
      StepKeeps(State(), Step.Remove(id));
      NothingToRemove(boot.events, id);
      NothingToRemove(wake.events, id);
      if Live(State(), id) {
        removed := removed + {EventOf(State(), id).ptr};
      }
      found := boot.Remove(id);
      var other := wake.Remove(id);
      found := found || other;
    }

    /** One pass of the thread loop, up to the functions it then calls in the order returned. */
    method Pass(now: int) returns (order: seq<Event>)
      requires Valid()
      modifies this, boot, wake
      ensures Valid()
      ensures IsOrder(order, DueEvents(old(State()), now))
      ensures State() == Passed(old(State()), now, order)
    {
      hide Agree, IsDeadline, Inv, IsOrder, DueEvents;
      ghost var was := State();
      var events := boot.CollectEvents(now, running, {});
      events := wake.CollectEvents(now, running, events);
      boot.RemoveEvents(events);
      wake.RemoveEvents(events);
      CollectedIsDue(was, now);
      order := SortByPriority(events);
      StepKeeps(was, Step.Pass(now, order));
      executed := executed + seq(|order|, i requires 0 <= i < |order| => Execution(order[i], now));
    }

    /** The destructor stops the loop: both timers are set to fire at once. */
    method Stop()
      requires Valid()
      modifies this`running, boot`deadline, boot`timer, wake`deadline, wake`timer
      ensures !running && boot.timer == wake.timer == Armed(MAGIC_UNBLOCK_TIME)
    {
      running := false;
      boot.ArmTimerForNextEvent(running);
      wake.ArmTimerForNextEvent(running);
    }
  }

  /** Whatever calls were made and passes ran: the clock that wakes the device is due no later than
      the hard deadline of any pending event, and armed if these deadlines are positive. */
  lemma DeviceWakes(queue: TimerQueue, steps: seq<Step>)
    requires queue.Valid() && queue.alarm
    requires PossibleRun(NewQueue(true), steps) && queue.State() == Run(NewQueue(true), steps)
    ensures forall id :: Live(queue.State(), id) ==> queue.wake.deadline <= EventOf(queue.State(), id).hardDeadline
    ensures (exists id :: Live(queue.State(), id))
            && (forall id :: Live(queue.State(), id) ==> EventOf(queue.State(), id).hardDeadline > 0)
            ==> queue.wake.timer == Armed(queue.wake.deadline)
  {
    hide Agree, Inv, Run, PossibleRun, Adds, HardOf, PriorityOf, EarliestOf;
    EventsKeepTheirTimes(true, steps);
    var q, adds := queue.State(), Adds(steps);
    forall id | Live(q, id)
      ensures id in q.wake && q.wake[id].time == EventOf(q, id).hardDeadline
    {
      LiveRegistered(q, id);
      assert OnClocks(q, EventOf(q, id), adds[EventOf(q, id).ptr]);
    }
  }

  lemma NothingToRemove(events: Pending, id: int)
    ensures id !in events ==> events - {id} == events
  {
  }

  /** Collecting on each clock and then removing the collected ids from both is taking all
      events that are due on either. */
  lemma CollectedIsDue(q: Queue, now: int)
    requires Inv(q)
    ensures
      var events := {} + DueOn(q.boot, now) + DueOn(q.wake, now);
      var ids := set e | e in events :: e.id;
      && events == DueEvents(q, now)
      && Later(q.boot, now) - ids == (map id | id in q.boot && !DueNow(q, id, now) :: q.boot[id])
      && Later(q.wake, now) - ids == (map id | id in q.wake && !DueNow(q, id, now) :: q.wake[id])
  {
    hide InOnePlace, InTime;
    var events := {} + DueOn(q.boot, now) + DueOn(q.wake, now);
    forall e | e in DueEvents(q, now)
      ensures e in events
    {
      DueIsPending(q, now, e);
    }
    forall e | e in events
      ensures e in DueEvents(q, now)
    {
      CollectedPending(q, now, e);
      DueIsPending(q, now, e);
    }
    IdsOfDue(q, now, events);
  }

  lemma CollectedPending(q: Queue, now: int, e: Event)
    requires Inv(q) && e in DueOn(q.boot, now) + DueOn(q.wake, now)
    ensures Live(q, e.id) && DueNow(q, e.id, now) && EventOf(q, e.id) == e
  {
    hide InOnePlace, InTime;
  }

  lemma IdsOfDue(q: Queue, now: int, events: set<Event>)
    requires Inv(q) && events == DueEvents(q, now)
    ensures forall id :: id in (set e | e in events :: e.id) <==> Live(q, id) && DueNow(q, id, now)
  {
    hide InOnePlace, InTime, DueEvents, Inv;
    var ids := set e | e in events :: e.id;
    forall id | Live(q, id) && DueNow(q, id, now)
      ensures id in ids
    {
      LiveRegistered(q, id);
      DueIsPending(q, now, EventOf(q, id));
    }
    forall id | id in ids
      ensures Live(q, id) && DueNow(q, id, now)
    {
      var e :| e in events && e.id == id;
      DueIsPending(q, now, e);
    }
  }

  /** Any enumeration of the set, sorted by priority time. */
  method SortByPriority(events: set<Event>) returns (order: seq<Event>)
    ensures IsOrder(order, events)
  {
    order := [];
    var rest := events;
    while rest != {}
      invariant rest <= events && IsOrder(order, events - rest)
      decreases rest
    {
      var e :| e in rest;
      var k := 0;
      while k < |order| && order[k].priorityTime <= e.priorityTime
        invariant 0 <= k <= |order|
        invariant forall i: nat :: i < k ==> order[i].priorityTime <= e.priorityTime
      {
        k := k + 1;
      }
      InsertKeepsOrder(order, events - rest, e, k);
      order := order[..k] + [e] + order[k..];
      rest := rest - {e};
      assert events - rest == events - (rest + {e}) + {e};
    }
    assert events - {} == events;
  }

  lemma InsertKeepsOrder(order: seq<Event>, events: set<Event>, e: Event, k: nat)
    requires IsOrder(order, events) && e !in events && k <= |order|
    requires forall i: nat :: i < k ==> order[i].priorityTime <= e.priorityTime
    requires k < |order| ==> e.priorityTime < order[k].priorityTime
    ensures IsOrder(order[..k] + [e] + order[k..], events + {e})
  {
    hide IsOrder;
    OrderOf(order, events);
    var after := order[..k] + [e] + order[k..];
    forall i: nat, j: nat | i < j < |after|
      ensures after[i] != after[j] && after[i].priorityTime <= after[j].priorityTime
    {
      var i', j' := if i < k then i else i - 1, if j < k then j else j - 1;
      assert i != k ==> after[i] == order[i'] && order[i'] in order;
      assert j != k ==> after[j] == order[j'] && order[j'] in order;
      if i == k && k < j' {
        assert order[k].priorityTime <= order[j'].priorityTime;
      }
    }
    assert order == order[..k] + order[k..];
    assert forall x :: x in after <==> x in order || x == e;
    OrderIs(after, events + {e});
  }

  lemma OrderOf(order: seq<Event>, events: set<Event>)
    requires IsOrder(order, events)
    ensures forall i: nat, j: nat :: i < j < |order| ==>
      order[i] != order[j] && order[i].priorityTime <= order[j].priorityTime
    ensures forall e :: e in order <==> e in events
  {
  }

  lemma OrderIs(order: seq<Event>, events: set<Event>)
    requires forall i: nat, j: nat :: i < j < |order| ==>
      order[i] != order[j] && order[i].priorityTime <= order[j].priorityTime
    requires forall e :: e in order <==> e in events
    ensures IsOrder(order, events)
  {
  }

  lemma DeadlineUnique(events: Pending, a: int, b: int)
    requires IsDeadline(events, a) && IsDeadline(events, b)
    ensures a == b
  {
  }

  function Later(events: Pending, now: int): Pending {
    map id | id in events && now < events[id].time :: events[id]
  }

  function DueOn(events: Pending, now: int): set<Event> {
    set id | id in events && events[id].time <= now :: events[id].event
  }

  /** The events that left the clock. */
  ghost function Gone(was: Pending, events: Pending): set<Event> {
    set id | id in was && id !in events :: was[id].event
  }

  /** Only due events left. */
  ghost predicate Between(was: Pending, events: Pending, now: int) {
    && (forall id :: id in events ==> id in was && was[id] == events[id])
    && (forall id :: id in was && id !in events ==> was[id].time <= now)
  }

  lemma CollectedNothing(was: Pending, now: int)
    ensures Between(was, was, now) && Gone(was, was) == {}
  {
  }

  lemma FirstIsPending(events: Pending, index: seq<Slot>)
    requires Agree(events, index) && index != []
    ensures index[0].id in events && events[index[0].id].time == index[0].time
  {
  }

  lemma CollectOne(was: Pending, events: Pending, now: int, id: int)
    requires Between(was, events, now) && id in events && events[id].time <= now
    ensures Between(was, events - {id}, now)
    ensures Gone(was, events - {id}) == Gone(was, events) + {events[id].event}
  {
  }

  lemma CollectedAll(was: Pending, events: Pending, now: int, least: int)
    requires Between(was, events, now) && IsDeadline(events, least) && (events == map[] || now < least)
    ensures events == Later(was, now) && Gone(was, events) == DueOn(was, now)
  {
    forall id | id in was
      ensures id in events <==> now < was[id].time
    {
      CollectedIff(was, events, now, least, id);
    }
    hide IsDeadline, Gone, DueOn;
    GoneIsDue(was, events, now);
    var later := Later(was, now);
    assert forall id :: id in events <==> id in later;
    assert forall id :: id in events ==> events[id] == later[id];
  }

  lemma GoneIsDue(was: Pending, events: Pending, now: int)
    requires forall id :: id in was ==> (id in events <==> now < was[id].time)
    ensures Gone(was, events) == DueOn(was, now)
  {
    forall e: Event
      ensures e in Gone(was, events) <==> e in DueOn(was, now)
    {
      if e in Gone(was, events) {
        var id :| id in was && id !in events && was[id].event == e;
        assert was[id].time <= now;
      }
      if e in DueOn(was, now) {
        var id :| id in was && was[id].time <= now && was[id].event == e;
        assert id !in events;
      }
    }
  }

  lemma CollectedIff(was: Pending, events: Pending, now: int, least: int, id: int)
    requires Between(was, events, now) && IsDeadline(events, least) && (events == map[] || now < least) && id in was
    ensures id in events <==> now < was[id].time
  {
  }
}
