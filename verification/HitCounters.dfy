/**
 Breakpoint hit counters of the service (gui/mem/MemService.cpp).  The device reports a cumulative total
 per breakpoint; the service remembers the last total it passed on and tells the caller how many hits are
 new and how many of those it did not get to see.
 */
module HitCounters {
  import opened Basics
  import opened TargetSeqlock
  import opened ServiceContext
  import opened MemWrites

  const MAX_HIT_COUNT: nat := 100000

  datatype Action = Set | Remove | Suspend | Resume

  /** A record of one hit, opaque to the service. */
  type Hit = nat

  datatype HitReply = HitReply(hits: seq<Hit>, total: nat)
  datatype HitBatch = HitBatch(address: nat, items: seq<Hit>, available: nat, dropped: nat, target: Snapshot)

  /** `breakpointCounterTarget_` and `breakpointHitTotals_`. */
  datatype Counters = Counters(target: Snapshot, totals: map<nat, nat>)

  /** Counters of another target are forgotten. */
  function For(k: Counters, target: Snapshot): Counters {
    if k.target != target then Counters(target, map[]) else k
  }

  /** Hits since the last total passed on; a total that went back starts afresh. */
  function NewHits(k: Counters, address: nat, total: nat): nat {
    if address in k.totals && total >= k.totals[address] then total - k.totals[address] else total
  }

  datatype Event =
    | Fetch(c: Context, address: nat, limit: nat, before: Observation, answer: Option<HitReply>, after: Observation)
    | Mutate(c: Context, address: nat, action: Action, before: Observation, locked: Observation, reply: MutationReply,
             after: Observation)

  /** The call gets as far as the counters. */
  predicate ReachesCounters(e: Event) {
    && e.address != 0 && Passes(e.c, e.before)
    && (e.Fetch? ==> 0 < e.limit <= MAX_HIT_COUNT)
    && (e.Mutate? ==> Passes(e.c, e.locked))
  }

  /** The reply of a fetch is consistent with the request and with the total passed on before. */
  predicate Consistent(k: Counters, e: Event)
    requires e.Fetch?
  {
    && e.answer.Some?
    && |e.answer.value.hits| <= e.limit && |e.answer.value.hits| <= e.answer.value.total
    && |e.answer.value.hits| <= NewHits(k, e.address, e.answer.value.total)
  }

  predicate Succeeds(k: Counters, e: Event) {
    ReachesCounters(e) &&
    if e.Fetch? then Consistent(For(k, e.c.target.value), e) && Passes(e.c, e.after)
    else MutateBreakpoint(e.c, e.address, e.before, e.locked, e.reply, e.after).result.Success?
  }

  /** The counters after a call. */
  function Step(k: Counters, e: Event): Counters {
    if !ReachesCounters(e) then k
    else
      var k' := For(k, e.c.target.value);
      if !Succeeds(k, e) then k'
      else if e.Fetch? then k'.(totals := k'.totals[e.address := e.answer.value.total])
      else if e.action.Set? || e.action.Remove? then k'.(totals := k'.totals - {e.address})
      else k'
  }

  /** Why a fetch failed. */
  function Failing<T>(k: Counters, e: Event): Result<T>
    requires e.Fetch? && !Succeeds(k, e)
  {
    if e.address == 0 || e.limit == 0 || e.limit > MAX_HIT_COUNT then Fail(InvalidArgument, false)
    else if !Passes(e.c, e.before) then Refused(e.c, e.before)
    else if e.answer.None? then Unanswered(e.c, e.after)
    else if !Consistent(For(k, e.c.target.value), e) then Fail(ProtocolError, false)
    else Refused(e.c, e.after)
  }

  class MemService {
    var counterTarget: Snapshot
    var totals: map<nat, nat>

    constructor (none: Snapshot)
      ensures State() == Counters(none, map[])
    {
      counterTarget, totals := none, map[];
    }

    function State(): Counters
      reads this
    {
      Counters(counterTarget, totals)
    }

    /** `breakpointHits`: everything new since the last success is handed out or counted as dropped. */
    method BreakpointHits(c: Context, address: nat, limit: nat, before: Observation, answer: Option<HitReply>,
                          after: Observation) returns (r: Result<HitBatch>)
      modifies this
      ensures var e := Fetch(c, address, limit, before, answer, after); var k := old(State());
        && State() == Step(k, e) && (r.Success? <==> Succeeds(k, e))
        && (r.Success? ==>
          && Bracketed(c, before, after) && r.value.address == address && Some(r.value.target) == c.target
          && r.value.items == answer.value.hits && r.value.available == answer.value.total
          && |r.value.items| + r.value.dropped == NewHits(For(k, c.target.value), address, answer.value.total))
        && (r.Failure? ==> r == Failing(k, e))
      ensures r.Success? ==> |r.value.items| <= limit <= MAX_HIT_COUNT && |r.value.items| <= r.value.available
      ensures r.Success? ==> address != 0 && answer.Some? && Passes(c, before) && Passes(c, after)
    {
      if address == 0 || limit == 0 || limit > MAX_HIT_COUNT { return Fail(InvalidArgument, false); }
      if !Passes(c, before) { return Refused(c, before); }
      if counterTarget != c.target.value {
        counterTarget, totals := c.target.value, map[];
      }
      if answer.None? { return Unanswered(c, after); }
      var hits, total := answer.value.hits, answer.value.total;
      if |hits| > limit || total < |hits| { return Fail(ProtocolError, false); }
      var newHits := total;
      if address in totals && total >= totals[address] {
        newHits := total - totals[address];
        if newHits < |hits| { return Fail(ProtocolError, false); }
      }
      if !Passes(c, after) { return Refused(c, after); }
      var dropped := if newHits > |hits| then newHits - |hits| else 0;
      totals := totals[address := total];
      r := Success(HitBatch(address, hits, total, dropped, c.target.value));
    }

    /** `mutateBreakpoint` with its counters: setting or removing a breakpoint forgets its total. */
    method MutateBreakpoint(c: Context, address: nat, action: Action, before: Observation, locked: Observation,
                            reply: MutationReply, after: Observation) returns (r: Outcome<Snapshot>)
      modifies this
      ensures r == MemWrites.MutateBreakpoint(c, address, before, locked, reply, after)
      ensures State() == Step(old(State()), Mutate(c, address, action, before, locked, reply, after))
    {
      r := MemWrites.MutateBreakpoint(c, address, before, locked, reply, after);
      if address == 0 || !Passes(c, before) || !Passes(c, locked) { return; }
      if counterTarget != c.target.value {
        counterTarget, totals := c.target.value, map[];
      }
      if r.result.Failure? { return; }
      if action.Set? || action.Remove? { totals := totals - {address}; }
    }
  }

  // ---- Conservation ----

  /** The total last passed on for a breakpoint. */
  function Latest(k: Counters, address: nat): nat {
    if address in k.totals then k.totals[address] else 0
  }

  /** What a call tells its caller about one breakpoint: hits handed out and hits dropped. */
  function Credit(k: Counters, e: Event, address: nat): nat {
    if e.Fetch? && e.address == address && Succeeds(k, e)
    then NewHits(For(k, e.c.target.value), address, e.answer.value.total)
    else 0
  }

  /** The counter of the breakpoint is dropped by this call: new target, set or removed, or total gone back. */
  predicate Forgets(k: Counters, e: Event, address: nat) {
    ReachesCounters(e) && (
      || k.target != e.c.target.value
      || (Succeeds(k, e) && e.address == address && (
        if e.Fetch? then e.answer.value.total < Latest(k, address) else e.action.Set? || e.action.Remove?)))
  }

  function Forgotten(k: Counters, e: Event, address: nat): nat {
    if Forgets(k, e, address) then Latest(k, address) else 0
  }

  function After(k: Counters, es: seq<Event>): Counters {
    if es == [] then k else Step(After(k, es[..|es| - 1]), es[|es| - 1])
  }

  function Credited(k: Counters, es: seq<Event>, address: nat): nat {
    if es == [] then 0
    else Credited(k, es[..|es| - 1], address) + Credit(After(k, es[..|es| - 1]), es[|es| - 1], address)
  }

  function AllForgotten(k: Counters, es: seq<Event>, address: nat): nat {
    if es == [] then 0
    else AllForgotten(k, es[..|es| - 1], address) + Forgotten(After(k, es[..|es| - 1]), es[|es| - 1], address)
  }

  lemma StepConserves(k: Counters, e: Event, address: nat)
    ensures Latest(Step(k, e), address) + Forgotten(k, e, address) == Latest(k, address) + Credit(k, e, address)
  {
  }

  /**
   Conservation over every run, with any targets, breakpoints and failures in between: what callers were
   told about a breakpoint is the total last passed on plus the totals forgotten on the way.
   */
  lemma {:induction false} HitsAreConserved(k: Counters, es: seq<Event>, address: nat)
    ensures Latest(After(k, es), address) + AllForgotten(k, es, address) ==
      Latest(k, address) + Credited(k, es, address)
  {
    if es != [] {
      HitsAreConserved(k, es[..|es| - 1], address);
      StepConserves(After(k, es[..|es| - 1]), es[|es| - 1], address);
    }
  }

  /** No call of the run drops a total of this breakpoint that was passed on. */
  ghost predicate Steady(k: Counters, es: seq<Event>, address: nat) {
    forall i :: 0 <= i < |es| ==> Forgotten(After(k, es[..i]), es[i], address) == 0
  }

  predicate ReportsAt(k: Counters, es: seq<Event>, address: nat, i: nat)
    requires i < |es|
  {
    es[i].Fetch? && es[i].address == address && Succeeds(After(k, es[..i]), es[i])
  }

  /** The total of the last successful fetch, if there is one. */
  function LastReported(k: Counters, es: seq<Event>, address: nat): Option<nat> {
    if es == [] then None
    else if ReportsAt(k, es, address, |es| - 1) then Some(es[|es| - 1].answer.value.total)
    else LastReported(k, es[..|es| - 1], address)
  }

  lemma {:induction false} SteadyForgetsNothing(k: Counters, es: seq<Event>, address: nat)
    requires Steady(k, es, address)
    ensures AllForgotten(k, es, address) == 0
    ensures var last := LastReported(k, es, address);
      Latest(After(k, es), address) == if last.Some? then last.value else Latest(k, address)
  {
    if es != [] {
      var n := |es| - 1;
      forall i | 0 <= i < n ensures Forgotten(After(k, es[..n][..i]), es[..n][i], address) == 0 {
        assert es[..n][..i] == es[..i];
      }
      SteadyForgetsNothing(k, es[..n], address);
      assert Forgotten(After(k, es[..n]), es[n], address) == 0;
    }
  }

  /** All calls of the run are made for one target. */
  ghost predicate OneTarget(es: seq<Event>, target: Snapshot) {
    forall i :: 0 <= i < |es| ==> es[i].c.target == Some(target)
  }

  /**
   No successful set or remove of the breakpoint, and no total reported for it is below an earlier one.
   */
  ghost predicate Undisturbed(k: Counters, es: seq<Event>, address: nat) {
    && (forall i :: 0 <= i < |es| && Succeeds(After(k, es[..i]), es[i]) && es[i].Mutate? && es[i].address == address ==>
      !es[i].action.Set? && !es[i].action.Remove?)
    && forall i, j :: 0 <= i < j < |es| && ReportsAt(k, es, address, i) && ReportsAt(k, es, address, j) ==>
      es[i].answer.value.total <= es[j].answer.value.total
  }

  /** Counters of another target make no difference to a run for this one. */
  lemma {:induction false} OthersDoNotMatter(k: Counters, es: seq<Event>, address: nat, target: Snapshot)
    requires OneTarget(es, target)
    ensures For(After(k, es), target) == After(For(k, target), es)
    ensures Credited(k, es, address) == Credited(For(k, target), es, address)
    ensures LastReported(k, es, address) == LastReported(For(k, target), es, address)
  {
    if es != [] { OthersDoNotMatter(k, es[..|es| - 1], address, target); }
  }

  /** The last report of a run is one of its reports. */
  lemma {:induction false} LastIsAReport(k: Counters, es: seq<Event>, address: nat) returns (i: nat)
    ensures LastReported(k, es, address).Some? ==>
      i < |es| && ReportsAt(k, es, address, i) && LastReported(k, es, address).value == es[i].answer.value.total
  {
    i := 0;
    if es != [] {
      if ReportsAt(k, es, address, |es| - 1) {
        i := |es| - 1;
      } else {
        i := LastIsAReport(k, es[..|es| - 1], address);
        if i < |es| - 1 { assert es[..|es| - 1][..i] == es[..i]; }
      }
    }
  }

  lemma CallForgetsNothing(k: Counters, e: Event, address: nat, target: Snapshot)
    requires k.target == target && e.c.target == Some(target)
    requires Succeeds(k, e) && e.address == address ==>
      if e.Fetch? then Latest(k, address) <= e.answer.value.total else !e.action.Set? && !e.action.Remove?
    ensures Forgotten(k, e, address) == 0 && Step(k, e).target == target
  {
  }

  lemma UndisturbedPrefix(k: Counters, es: seq<Event>, address: nat, n: nat)
    requires Undisturbed(k, es, address) && n <= |es|
    ensures Undisturbed(k, es[..n], address)
  {
    hide Succeeds, After;
    forall i | 0 <= i < n ensures es[..n][..i] == es[..i] && es[..n][i] == es[i] {}
    assert forall i :: 0 <= i < n ==> ReportsAt(k, es[..n], address, i) == ReportsAt(k, es, address, i);
  }

  lemma SteadyExtends(k: Counters, es: seq<Event>, address: nat, n: nat)
    requires n + 1 == |es| && Steady(k, es[..n], address) && Forgotten(After(k, es[..n]), es[n], address) == 0
    ensures Steady(k, es, address)
  {
    hide Forgotten, After;
    forall j | 0 <= j < |es| ensures Forgotten(After(k, es[..j]), es[j], address) == 0 {
      if j < n {
        assert Forgotten(After(k, es[..n][..j]), es[..n][j], address) == 0;
        assert es[..n][..j] == es[..j];
      }
    }
  }

  /** A new report is not below the last one. */
  lemma LastIsBelow(k: Counters, es: seq<Event>, address: nat, n: nat)
    requires n + 1 == |es| && Undisturbed(k, es, address) && ReportsAt(k, es, address, n)
    ensures var last := LastReported(k, es[..n], address); last.Some? ==> last.value <= es[n].answer.value.total
  {
    var i := LastIsAReport(k, es[..n], address);
    hide Succeeds, After;
    if LastReported(k, es[..n], address).Some? {
      assert es[..n][..i] == es[..i] && ReportsAt(k, es, address, i);
    }
  }

  lemma {:induction false} UndisturbedIsSteady(k: Counters, es: seq<Event>, address: nat, target: Snapshot)
    requires OneTarget(es, target) && k.target == target && address !in k.totals && Undisturbed(k, es, address)
    ensures Steady(k, es, address) && After(k, es).target == target
  {
    if es != [] {
      var n := |es| - 1;
      var k' := After(k, es[..n]);
      UndisturbedPrefix(k, es, address, n);
      UndisturbedIsSteady(k, es[..n], address, target);
      SteadyForgetsNothing(k, es[..n], address);
      if ReportsAt(k, es, address, n) { LastIsBelow(k, es, address, n); }
      CallForgetsNothing(k', es[n], address, target);
      SteadyExtends(k, es, address, n);
    }
  }

  lemma UndisturbedFor(k: Counters, es: seq<Event>, address: nat, target: Snapshot)
    requires OneTarget(es, target) && Undisturbed(k, es, address)
    ensures Undisturbed(For(k, target), es, address)
  {
    forall i | 0 <= i < |es|
      ensures Succeeds(After(For(k, target), es[..i]), es[i]) == Succeeds(After(k, es[..i]), es[i])
    {
      OthersDoNotMatter(k, es[..i], address, target);
    }
    assert forall i :: 0 <= i < |es| ==> ReportsAt(For(k, target), es, address, i) == ReportsAt(k, es, address, i);
  }

  /**
   Calls for one target, whose breakpoint the counters do not know from before, with no successful set or
   remove of it and totals that do not go back: the hits handed out and dropped add up to the last total
   reported, whatever failed in between.
   */
  lemma SumIsLastTotal(k: Counters, es: seq<Event>, address: nat, target: Snapshot)
    requires OneTarget(es, target) && (k.target != target || address !in k.totals)
    requires Undisturbed(k, es, address)
    ensures var last := LastReported(k, es, address);
      Credited(k, es, address) == if last.Some? then last.value else 0
  {
    var k' := For(k, target);
    UndisturbedFor(k, es, address, target);
    OthersDoNotMatter(k, es, address, target);
    UndisturbedIsSteady(k', es, address, target);
    HitsAreConserved(k', es, address);
    SteadyForgetsNothing(k', es, address);
  }
}
