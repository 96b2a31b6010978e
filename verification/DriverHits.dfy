/**
 Draining a hardware breakpoint's events from the kernel (`ReadHardwareBreakpointInfo`,
 engine/android/AndroidKernelDriver.cpp): at most sixteen reads of at most 256 events a call, hits
 passed on, everything else skipped, and a running 64-bit total.
 */
module DriverHits {
  import opened Basics
  import Modular

  const EVENT_HIT: nat := 1

  datatype Registers = Registers(general: seq<nat>, sp: nat, pc: nat, pstate: nat, origX0: nat, syscallno: nat)

  /** One event as the kernel queues it; `tid` is a 32-bit signed number. */
  datatype Event = Event(kind: nat, tid: int, time: nat, address: nat, registers: Registers)

  /** One hit as callers get it. */
  datatype Item = Item(taskId: int, address: nat, time: nat, registers: Registers)

  /** `ConvertHwbpEvent`. */
  function Convert(e: Event): Item {
    Item(if e.tid >= 0 then e.tid else TWO_64 + e.tid, e.address, e.time,
         Registers(e.registers.general, e.registers.sp, e.registers.pc, e.registers.pstate, e.registers.origX0,
                   e.registers.syscallno))
  }

  /** The item tells of the event's thread, modulo 2^64, of its address, time and registers. */
  ghost predicate Reports(item: Item, e: Event) {
    && e.kind == EVENT_HIT
    && item.address == e.address && item.time == e.time && item.registers == e.registers
    && (e.tid >= 0 ==> item.taskId == e.tid) && (e.tid < 0 ==> item.taskId == TWO_64 + e.tid)
  }

  const CAPACITY: nat := 256
  const MAX_DRAINS: nat := 16

  function HitsOf(events: seq<Event>): seq<Item> {
    if events == [] then []
    else
      var n := |events| - 1;
      HitsOf(events[..n]) + if events[n].kind == EVENT_HIT then [Convert(events[n])] else []
  }

  /** `items` report the hits among `events`, which are at these places, one for one and in order. */
  ghost predicate AreReports(items: seq<Item>, events: seq<Event>, places: seq<nat>) {
    && |places| == |items|
    && (forall k :: 0 <= k < |places| ==> places[k] < |events| && Reports(items[k], events[places[k]]))
    && (forall j, k :: 0 <= j < k < |places| ==> places[j] < places[k])
    && forall i :: 0 <= i < |events| && events[i].kind == EVENT_HIT ==> i in places
  }

  lemma ReportOneMore(items: seq<Item>, events: seq<Event>, places: seq<nat>, e: Event)
    requires AreReports(items, events, places)
    ensures e.kind == EVENT_HIT ==> AreReports(items + [Convert(e)], events + [e], places + [|events|])
    ensures e.kind != EVENT_HIT ==> AreReports(items, events + [e], places)
  {
    hide Reports;
    if e.kind == EVENT_HIT {
      ConvertReports(e);
      var places' := places + [|events|];
      assert |events| in places' && forall i :: i in places ==> i in places';
    }
  }

  lemma ConvertReports(e: Event)
    requires e.kind == EVENT_HIT
    ensures Reports(Convert(e), e)
  {
  }

  /** Every hit event is reported, once, in its place and with its own fields, and nothing else is. */
  lemma {:induction false} HitsAreReported(events: seq<Event>) returns (places: seq<nat>)
    ensures AreReports(HitsOf(events), events, places)
  {
    if events == [] {
      places := [];
    } else {
      var n := |events| - 1;
      var early := HitsAreReported(events[..n]);
      ReportOneMore(HitsOf(events[..n]), events[..n], early, events[n]);
      assert events == events[..n] + [events[n]];
      places := if events[n].kind == EVENT_HIT then early + [n] else early;
    }
  }

  lemma {:induction false} HitsOfConcat(s: seq<Event>, t: seq<Event>)
    ensures HitsOf(s + t) == HitsOf(s) + HitsOf(t)
    decreases |t|
  {
    if t == [] {
      assert s + t == s;
    } else {
      var n := |t| - 1;
      assert (s + t)[..|s + t| - 1] == s + t[..n];
      HitsOfConcat(s, t[..n]);
    }
  }

  /** The kernel's queue of one breakpoint. */
  class EventQueue {
    var queue: seq<Event>

    constructor ()
      ensures queue == []
    {
      queue := [];
    }

    /**
     `hwbp_read_events`: the oldest events, never more than asked for, and none only when there are none.
     `wish` stands for how many the kernel chooses to return.
     */
    method ReadEvents(capacity: nat, wish: nat) returns (events: seq<Event>)
      requires 0 < capacity
      modifies this
      ensures |events| <= capacity && old(queue) == events + queue
      ensures old(queue) != [] && 0 < wish ==> events != []
      ensures old(queue) != [] && capacity <= wish && capacity <= |old(queue)| ==> |events| == capacity
      ensures |old(queue)| <= wish && |old(queue)| <= capacity ==> queue == []
    {
      var n := if wish < capacity then wish else capacity;
      if |queue| < n { n := |queue|; }
      events := queue[..n];
      queue := queue[n..];
    }
  }

  /** The driver's part for one handle: the entry of `hwbpHitTotals_`. */
  class HitReader {
    const events: EventQueue
    var total: nat

    constructor (events: EventQueue)
      ensures this.events == events && total == 0
    {
      this.events := events;
      total := 0;
    }

    /**
     `ReadHardwareBreakpointInfo`.  The events it takes are the first of the queue; the hits among them are
     appended to `out` in order, and the total grows by their number.  `wishes` are the kernel's answers; a
     kernel that always fills the request leaves nothing unless there were more than 4096 events.
     */
    method ReadHardwareBreakpointInfo(handle: nat, driverOpen: bool, out: seq<Item>, wishes: seq<nat>)
        returns (ok: bool, totalHitCount: nat, out': seq<Item>, ghost taken: seq<Event>)
      requires |wishes| == MAX_DRAINS
      modifies this, events
      ensures ok <==> handle != 0 && driverOpen
      ensures old(events.queue) == taken + events.queue && out' == out + HitsOf(taken)
      ensures ok ==> total == (old(total) + |HitsOf(taken)|) % TWO_64
      ensures !ok ==> taken == [] && total == old(total)
      ensures totalHitCount == if ok then total else 0
      ensures ok && (forall i :: 0 <= i < MAX_DRAINS ==> wishes[i] >= CAPACITY) ==>
        events.queue == [] || |taken| == 4096
    {
      totalHitCount, out', taken := 0, out, [];
      if handle == 0 || !driverOpen { return false, totalHitCount, out', taken; }
      var newHits, drain := 0, 0;
      ghost var drained := false;
      ghost var before := events.queue;
      var draining := true;
      while draining && drain < MAX_DRAINS
        invariant drain <= MAX_DRAINS && before == taken + events.queue && total == old(total)
        invariant out' == out + HitsOf(taken) && newHits == |HitsOf(taken)|
        invariant (forall i :: 0 <= i < MAX_DRAINS ==> wishes[i] >= CAPACITY) ==>
          if draining then |taken| == 256 * drain else events.queue == []
        decreases MAX_DRAINS - drain
      {
        var batch := events.ReadEvents(CAPACITY, wishes[drain]);
        var hits := PassOn(batch);
        HitsOfConcat(taken, batch);
        out', newHits, taken := out' + hits, newHits + |hits|, taken + batch;
        if |batch| < CAPACITY { draining := false; }
        drain := drain + 1;
      }
      total := (total + newHits) % TWO_64;
      ok, totalHitCount := true, total;
    }

    /** The inner loop. */
    static method PassOn(batch: seq<Event>) returns (hits: seq<Item>)
      ensures hits == HitsOf(batch)
    {
      hits := [];
      for i := 0 to |batch|
        invariant hits == HitsOf(batch[..i])
      {
        assert batch[..i + 1][..i] == batch[..i];
        if batch[i].kind == EVENT_HIT { hits := hits + [Convert(batch[i])]; }
      }
      assert batch[..|batch|] == batch;
    }
  }

  // ---- Runs ----

  /** One handle over time: what waits in the kernel, what callers got, and the total. */
  datatype Life = Life(queue: seq<Event>, given: seq<Item>, total: nat)

  datatype Step = Arrive(events: seq<Event>) | Read(count: nat)

  predicate Possible(l: Life, s: Step) {
    s.Read? ==> s.count <= |l.queue|
  }

  /** A read of `count` events is what the method does to queue, caller and total. */
  function Next(l: Life, s: Step): Life
    requires Possible(l, s)
  {
    match s
    case Arrive(events) => l.(queue := l.queue + events)
    case Read(count) =>
      var hits := HitsOf(l.queue[..count]);
      Life(l.queue[count..], l.given + hits, (l.total + |hits|) % TWO_64)
  }

  /** Everything that arrived in a run of steps, or nothing if a step is not possible. */
  ghost predicate IsLife(lives: seq<Life>, steps: seq<Step>) {
    && |lives| == |steps| + 1 && lives[0] == Life([], [], 0)
    && forall i :: 0 <= i < |steps| ==> Possible(lives[i], steps[i]) && lives[i + 1] == Next(lives[i], steps[i])
  }

  function Arrived(steps: seq<Step>): seq<Event> {
    if steps == [] then []
    else Arrived(steps[..|steps| - 1]) + if steps[|steps| - 1].Arrive? then steps[|steps| - 1].events else []
  }

  ghost predicate Settled(l: Life, arrived: seq<Event>) {
    l.given + HitsOf(l.queue) == HitsOf(arrived) && l.total == |l.given| % TWO_64
  }

  lemma ArrivalSettles(l: Life, events: seq<Event>, arrived: seq<Event>)
    requires Settled(l, arrived)
    ensures Settled(l.(queue := l.queue + events), arrived + events)
  {
    HitsOfConcat(l.queue, events);
    HitsOfConcat(arrived, events);
    hide HitsOf;
    Regroup(l.given, HitsOf(l.queue), HitsOf(events));
  }

  lemma ReadSettles(l: Life, taken: seq<Event>, left: seq<Event>, arrived: seq<Event>)
    requires Settled(l, arrived) && l.queue == taken + left
    ensures Settled(Life(left, l.given + HitsOf(taken), (l.total + |HitsOf(taken)|) % TWO_64), arrived)
  {
    HitsOfConcat(taken, left);
    hide HitsOf;
    Regroup(l.given, HitsOf(taken), HitsOf(left));
    Modular.ModThenAdd(|l.given|, |HitsOf(taken)|, TWO_64);
  }

  lemma Regroup(a: seq<Item>, b: seq<Item>, c: seq<Item>)
    ensures a + (b + c) == (a + b) + c
  {
  }

  lemma StepSettles(l: Life, s: Step, arrived: seq<Event>)
    requires Settled(l, arrived) && Possible(l, s)
    ensures Settled(Next(l, s), if s.Arrive? then arrived + s.events else arrived)
  {
    hide Settled, HitsOf;
    match s {
      case Arrive(events) => ArrivalSettles(l, events, arrived);
      case Read(count) =>
        assert l.queue == l.queue[..count] + l.queue[count..];
        ReadSettles(l, l.queue[..count], l.queue[count..], arrived);
    }
  }

  /**
   Over every run, no hit is lost, repeated or reordered between the kernel and the callers: what they got,
   followed by the hits still queued, is what arrived; and the total is the number they got.
   */
  lemma {:induction false} HitsArriveOnce(lives: seq<Life>, steps: seq<Step>)
    requires IsLife(lives, steps)
    ensures Settled(lives[|steps|], Arrived(steps))
    decreases |steps|
  {
    if steps != [] {
      var n := |steps| - 1;
      hide Settled, Next, HitsOf;
      HitsArriveOnce(lives[..n + 1], steps[..n]);
      assert lives[n + 1] == Next(lives[n], steps[n]);
      StepSettles(lives[n], steps[n], Arrived(steps[..n]));
      assert Arrived(steps[..n]) + [] == Arrived(steps[..n]);
    } else {
      assert HitsOf([]) == [];
    }
  }
}
