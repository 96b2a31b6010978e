/**
 The target snapshot of gui/gui/AppContext.cpp: one mutex, an odd/even revision, a writer that
 compares before it mutates, and a reader that takes no lock.

 The model is a state machine whose steps are the single atomic loads, stores, lock and unlock
 operations of the source, interleaved in any order under sequential consistency.
 */
module TargetSeqlock {
  import opened Basics

  datatype Snapshot = Snapshot(pid: int, handle: int, revision: nat, generation: nat)

  /** Where a thread is inside `beginTargetMutation`, a mutation, or `snapshotTarget`. */
  datatype Phase =
    | Idle
    | BeginLocked(expected: Option<Snapshot>, generation: nat)
    | BeginRevision(expected: Option<Snapshot>, generation: nat, revision: nat)
    | BeginPid(expected: Option<Snapshot>, generation: nat, revision: nat, pid: int)
    | BeginHandle(expected: Option<Snapshot>, current: Snapshot)
    | Mutating(previous: Snapshot, objects: seq<bool>)     // objects[i]: object i still has its owner
    | Publishing(previous: Snapshot, objects: seq<bool>, newHandle: int)  // pid stored, handle not yet
    | Leaving                                              // nothing left to do but unlock
    | SnapLocked(generation: nat)
    | SnapPid(generation: nat, pid: int)
    | SnapHandle(generation: nat, pid: int, handle: int)
    | SnapDone(snapshot: Snapshot)

  datatype Grant = Grant(expected: Option<Snapshot>, current: Snapshot)

  /**
   The shared atomics, the mutex, the threads, and what is kept for the theorems: which pair stood when each even
   revision was published, the arguments of all publications so far, those of the last one when each even revision
   was published, the mutations granted so far, and the snapshots handed out.
   */
  datatype State = State(pid: int, handle: int, revision: nat, mutex: Option<nat>, threads: seq<Phase>,
                         log: map<nat, (int, int)>, asked: seq<(int, int)>, wanted: map<nat, (int, int)>,
                         grants: seq<Grant>, snapshots: seq<Snapshot>)

  /** What the last publication asked for; before the first one there is no target. */
  function LastAsked(s: State): (int, int) {
    if s.asked == [] then (0, 0) else s.asked[|s.asked| - 1]
  }

  datatype Action =
    | Begin(wanted: Option<Snapshot>, generation: nat)     // lock the mutex in beginTargetMutation
    | Advance                                              // the next load, comparison or unlock
    | StorePid(which: nat, pid: int, handle: int)         // first store of publish
    | StoreHandle                                          // second store of publish
    | Move(which: nat)                                    // move-construct a new mutation object
    | Destroy(which: nat)                                 // run the destructor of object i
    | Snap(generation: nat)                                // lock the mutex in snapshotTarget

  function Init(threads: nat): State {
    State(0, 0, 0, None, seq(threads, _ => Idle), map[0 := (0, 0)], [], map[0 := (0, 0)], [], [])
  }

  function At(s: State, t: nat, p: Phase): State
    requires t < |s.threads|
  {
    s.(threads := s.threads[t := p])
  }

  /** One load, one comparison or the unlock, whichever comes next for a thread in phase `p`. */
  function Advanced(s: State, t: nat, p: Phase): Option<State>
    requires t < |s.threads|
  {
    match p
    case BeginLocked(expected, g) =>
      if s.revision % 2 != 0 then Some(At(s, t, Leaving))
      else Some(At(s, t, BeginRevision(expected, g, s.revision)))
    case BeginRevision(expected, g, r) => Some(At(s, t, BeginPid(expected, g, r, s.pid)))
    case BeginPid(expected, g, r, pid) => Some(At(s, t, BeginHandle(expected, Snapshot(pid, s.handle, r, g))))
    case BeginHandle(expected, current) =>
      if expected.Some? && expected.value != current then Some(At(s, t, Leaving))
      else Some(At(s, t, Mutating(current, [true])).(revision := s.revision + 1,
                                                     grants := s.grants + [Grant(expected, current)]))
    case SnapLocked(g) => Some(At(s, t, SnapPid(g, s.pid)))
    case SnapPid(g, pid) => Some(At(s, t, SnapHandle(g, pid, s.handle)))
    case SnapHandle(g, pid, h) => Some(At(s, t, SnapDone(Snapshot(pid, h, s.revision, g))))
    case SnapDone(snapshot) => Some(At(s, t, Idle).(mutex := None, snapshots := s.snapshots + [snapshot]))
    case Leaving => Some(At(s, t, Idle).(mutex := None))
    case _ => None
  }

  /** The effect of one atomic action of thread `t`, or None when `t` cannot take it now. */
  function Apply(s: State, t: nat, a: Action): Option<State> {
    if t >= |s.threads| then None else
      var p := s.threads[t];
      match a
      case Begin(expected, g) =>
        if p.Idle? && s.mutex.None? then Some(At(s, t, BeginLocked(expected, g)).(mutex := Some(t))) else None
      case Snap(g) =>
        if p.Idle? && s.mutex.None? then Some(At(s, t, SnapLocked(g)).(mutex := Some(t))) else None
      case Advance => Advanced(s, t, p)
      case StorePid(i, pid, handle) =>
        if p.Mutating? && i < |p.objects| then
          if p.objects[i]
          then Some(At(s, t, Publishing(p.previous, p.objects, handle)).(pid := pid,
                                                                         asked := s.asked + [(pid, handle)]))
          else Some(s)
        else None
      case StoreHandle =>
        if p.Publishing? then Some(At(s, t, Mutating(p.previous, p.objects)).(handle := p.newHandle)) else None
      case Move(i) =>
        if p.Mutating? && i < |p.objects| then
          Some(At(s, t, Mutating(p.previous, p.objects[i := false] + [p.objects[i]])))
        else None
      case Destroy(i) =>
        if p.Mutating? && i < |p.objects| then
          if p.objects[i]
          then Some(At(s, t, Leaving).(revision := s.revision + 1,
                                       log := s.log[s.revision + 1 := (s.pid, s.handle)],
                                       wanted := s.wanted[s.revision + 1 := LastAsked(s)]))
          else Some(s)
        else None
  }

  ghost predicate Next(s: State, s': State) {
    s' == s || exists t, a :: Apply(s, t, a) == Some(s')
  }

  // ---------------------------------------------------------------- the inductive invariant

  predicate Holding(p: Phase) { !p.Idle? }

  predicate InMutation(p: Phase) { p.Mutating? || p.Publishing? }

  ghost predicate OneOwner(objects: seq<bool>) {
    && (exists i :: 0 <= i < |objects| && objects[i])
    && (forall i, j :: 0 <= i < j < |objects| ==> !(objects[i] && objects[j]))
  }

  /** What a thread has read under the mutex is still what the shared variables hold. */
  ghost predicate Current(s: State, p: Phase) {
    match p
    case BeginRevision(_, _, r) => r == s.revision
    case BeginPid(_, _, r, pid) => r == s.revision && pid == s.pid
    case BeginHandle(_, c) => c.revision == s.revision && c.pid == s.pid && c.handle == s.handle
    case Mutating(previous, objects) => OneOwner(objects) && previous.revision + 1 == s.revision
    case Publishing(previous, objects, _) => OneOwner(objects) && previous.revision + 1 == s.revision
    case SnapPid(_, pid) => pid == s.pid
    case SnapHandle(_, pid, h) => pid == s.pid && h == s.handle
    case SnapDone(c) => c.revision == s.revision && c.pid == s.pid && c.handle == s.handle
    case _ => true
  }

  /** A snapshot that names an even revision and the very pair published under it. */
  ghost predicate Published(s: State, c: Snapshot) {
    c.revision % 2 == 0 && c.revision in s.log && s.log[c.revision] == (c.pid, c.handle)
  }

  ghost predicate GrantsOrdered(s: State) {
    && (forall i :: 0 <= i < |s.grants| ==> s.grants[i].current.revision < s.revision)
    && (forall i, j :: 0 <= i < j < |s.grants| ==> s.grants[i].current.revision < s.grants[j].current.revision)
    && (forall i :: 0 <= i < |s.grants| && s.grants[i].expected.Some? ==>
          s.grants[i].expected.value == s.grants[i].current)
  }

  /**
   The shared pair is what the last publication asked for, except that its handle may still be to be stored, and
   so was every pair published.
   */
  ghost predicate AsAsked(s: State) {
    && LastAsked(s).0 == s.pid
    && LastAsked(s).1 == (
       if s.mutex.Some? && s.mutex.value < |s.threads| && s.threads[s.mutex.value].Publishing?
       then s.threads[s.mutex.value].newHandle else s.handle)
    && s.wanted == s.log
  }

  ghost predicate Inv(s: State) {
    && (s.mutex.Some? ==> s.mutex.value < |s.threads|)
    && (forall t :: 0 <= t < |s.threads| ==> (Holding(s.threads[t]) <==> s.mutex == Some(t)))
    && (forall t :: 0 <= t < |s.threads| ==> Current(s, s.threads[t]))
    && (s.revision % 2 == 1 <==> s.mutex.Some? && InMutation(s.threads[s.mutex.value]))
    && (s.revision % 2 == 0 ==> s.revision in s.log && s.log[s.revision] == (s.pid, s.handle))
    && (forall r :: r in s.log ==> r <= s.revision)
    && GrantsOrdered(s)
    && AsAsked(s)
    && (forall i :: 0 <= i < |s.snapshots| ==> Published(s, s.snapshots[i]))
  }

  lemma InitInv(threads: nat)
    ensures Inv(Init(threads))
  {
  }

  lemma MoveKeepsOneOwner(objects: seq<bool>, i: nat)
    requires OneOwner(objects) && i < |objects|
    ensures OneOwner(objects[i := false] + [objects[i]])
  {
    var moved := objects[i := false] + [objects[i]];
    if objects[i] {
      assert moved[|objects|];
    } else {
      var k :| 0 <= k < |objects| && objects[k];
      assert moved[k];
    }
  }

  lemma StepKeepsAsAsked(s: State, t: nat, a: Action)
    requires AsAsked(s) && Apply(s, t, a).Some?
    requires forall u :: 0 <= u < |s.threads| ==> (Holding(s.threads[u]) <==> s.mutex == Some(u))
    ensures AsAsked(Apply(s, t, a).value)
  {
    assert Holding(s.threads[t]) <==> s.mutex == Some(t);
  }

  lemma AdvanceKeepsGrants(s: State, t: nat)
    requires Inv(s) && Apply(s, t, Advance).Some?
    ensures GrantsOrdered(Apply(s, t, Advance).value)
  {
    hide AsAsked, Published;
    assert Current(s, s.threads[t]);
  }

  lemma AdvanceKeepsInv(s: State, t: nat)
    requires Inv(s) && Apply(s, t, Advance).Some?
    ensures Inv(Apply(s, t, Advance).value)
  {
    StepKeepsAsAsked(s, t, Advance);
    AdvanceKeepsGrants(s, t);
    hide AsAsked, GrantsOrdered;
    var s' := Apply(s, t, Advance).value;
    if s'.threads[t].Mutating? { assert s'.threads[t].objects[0]; }
    forall u | 0 <= u < |s'.threads| ensures Holding(s'.threads[u]) <==> s'.mutex == Some(u) {
      assert Holding(s.threads[u]) <==> s.mutex == Some(u);
    }
    forall u | 0 <= u < |s'.threads| ensures Current(s', s'.threads[u]) {
      assert Current(s, s.threads[u]);
    }
  }

  lemma MutateKeepsInv(s: State, t: nat, a: Action)
    requires Inv(s) && Apply(s, t, a).Some? && !a.Advance?
    ensures Inv(Apply(s, t, a).value)
  {
    StepKeepsAsAsked(s, t, a);
    hide AsAsked;
    var s' := Apply(s, t, a).value;
    if a.Move? { MoveKeepsOneOwner(s.threads[t].objects, a.which); }
    forall u | 0 <= u < |s'.threads| ensures Holding(s'.threads[u]) <==> s'.mutex == Some(u) {
      assert Holding(s.threads[u]) <==> s.mutex == Some(u);
    }
    forall u | 0 <= u < |s'.threads| ensures Current(s', s'.threads[u]) {
      assert Current(s, s.threads[u]);
    }
  }

  lemma StepKeepsInv(s: State, t: nat, a: Action)
    requires Inv(s) && Apply(s, t, a).Some?
    ensures Inv(Apply(s, t, a).value)
  {
    if a.Advance? { AdvanceKeepsInv(s, t); } else { MutateKeepsInv(s, t, a); }
  }

  /** The odd guard of `beginTargetMutation` is dead code: whoever holds the mutex there sees an even revision. */
  lemma OddGuardNeverFires(s: State, t: nat)
    requires Inv(s) && t < |s.threads| && s.threads[t].BeginLocked?
    ensures s.revision % 2 == 0
    ensures Apply(s, t, Advance).Some? && Apply(s, t, Advance).value.threads[t].BeginRevision?
  {
    assert Holding(s.threads[t]) <==> s.mutex == Some(t);
  }

  /** Later states never lower the revision, rewrite a published pair, or move a pair under an even revision. */
  ghost predicate Grew(s: State, s': State) {
    && s.revision <= s'.revision
    && (s'.revision == s.revision && s.revision % 2 == 0 ==> s'.pid == s.pid && s'.handle == s.handle)
    && (forall r :: r in s.log ==> r in s'.log && s'.log[r] == s.log[r])
    && s.grants <= s'.grants
    && s.asked <= s'.asked
  }

  lemma GrewReflexive(s: State)
    ensures Grew(s, s)
  {
  }

  lemma GrewTransitive(s1: State, s2: State, s3: State)
    requires Grew(s1, s2) && Grew(s2, s3)
    ensures Grew(s1, s3)
  {
    var n, m := |s1.grants|, |s2.grants|;
    assert s3.grants[..n] == s3.grants[..m][..n];
    var a, b := |s1.asked|, |s2.asked|;
    assert s3.asked[..a] == s3.asked[..b][..a];
  }

  lemma StepGrows(s: State, t: nat, a: Action)
    requires Inv(s) && Apply(s, t, a).Some?
    ensures Grew(s, Apply(s, t, a).value)
  {
    assert Holding(s.threads[t]) <==> s.mutex == Some(t);
  }

  // ---------------------------------------------------------------- whole runs

  ghost predicate IsRun(run: seq<State>) {
    && 0 < |run|
    && Inv(run[0])
    && forall i :: 0 <= i < |run| - 1 ==> Next(run[i], run[i + 1])
  }

  lemma {:induction false} RunKeepsInv(run: seq<State>, i: nat)
    requires IsRun(run) && i < |run|
    ensures Inv(run[i])
  {
    if i > 0 {
      RunKeepsInv(run, i - 1);
      assert Next(run[i - 1], run[i - 1 + 1]);
      if run[i] != run[i - 1] {
        var t, a :| Apply(run[i - 1], t, a) == Some(run[i]);
        StepKeepsInv(run[i - 1], t, a);
      }
    }
  }

  lemma {:induction false} RunGrows(run: seq<State>, i: nat, j: nat)
    requires IsRun(run) && i <= j < |run|
    ensures Grew(run[i], run[j])
    decreases j - i
  {
    hide Inv, Apply, Grew;
    GrewReflexive(run[i]);
    if i < j {
      RunGrows(run, i, j - 1);
      RunKeepsInv(run, j - 1);
      assert Next(run[j - 1], run[j - 1 + 1]);
      if run[j] != run[j - 1] {
        var t, a :| Apply(run[j - 1], t, a) == Some(run[j]);
        StepGrows(run[j - 1], t, a);
        GrewTransitive(run[i], run[j - 1], run[j]);
      }
    }
  }

  /** Same even revision at both ends: nothing moved at any point in between. */
  lemma FrozenBetween(run: seq<State>, i: nat, j: nat, k: nat)
    requires IsRun(run) && i <= k <= j < |run|
    requires run[i].revision == run[j].revision && run[i].revision % 2 == 0
    ensures run[k].revision == run[i].revision && run[k].pid == run[i].pid && run[k].handle == run[i].handle
  {
    RunGrows(run, i, k);
    RunGrows(run, k, j);
  }

  /** The four loads of `matchesStableTarget`, each seeing the state of its own instant. */
  predicate Matches(before: State, pidLoad: State, handleLoad: State, after: State,
                    expected: Snapshot, generation: nat)
  {
    if expected.generation != generation then false
    else if before.revision % 2 != 0 || before.revision != expected.revision then false
    else
      && before.revision == after.revision
      && after.revision % 2 == 0
      && pidLoad.pid == expected.pid
      && handleLoad.handle == expected.handle
  }

  /**
   Reader safety: in every interleaving, a lock-free match means the expected pair is the one
   published under exactly that even revision, and it stood unchanged from the first load to the
   last.
   */
  lemma MatchIsStable(run: seq<State>, i0: nat, i1: nat, i2: nat, i3: nat, expected: Snapshot, generation: nat)
    requires IsRun(run) && i0 <= i1 <= i2 <= i3 < |run|
    requires Matches(run[i0], run[i1], run[i2], run[i3], expected, generation)
    ensures Published(run[i3], expected)
    ensures forall k :: i0 <= k <= i3 ==>
      run[k].revision == expected.revision && run[k].pid == expected.pid && run[k].handle == expected.handle
  {
    forall k | i0 <= k <= i3
      ensures run[k].revision == run[i0].revision && run[k].pid == run[i0].pid && run[k].handle == run[i0].handle
    {
      FrozenBetween(run, i0, i3, k);
    }
    RunKeepsInv(run, i3);
  }

  /** And completeness: an expected pair that stands throughout the four loads is matched. */
  lemma StableIsMatched(run: seq<State>, i0: nat, i1: nat, i2: nat, i3: nat, expected: Snapshot)
    requires IsRun(run) && i0 <= i1 <= i2 <= i3 < |run|
    requires expected.revision % 2 == 0
    requires run[i0].revision == run[i3].revision == expected.revision
    requires run[i0].pid == expected.pid && run[i0].handle == expected.handle
    ensures Matches(run[i0], run[i1], run[i2], run[i3], expected, expected.generation)
  {
    FrozenBetween(run, i0, i3, i1);
    FrozenBetween(run, i0, i3, i2);
  }

  /** Of all mutations begun with the same expected snapshot at most one is ever granted. */
  lemma AtMostOneGrant(run: seq<State>, e: nat, i: nat, j: nat, expected: Snapshot)
    requires IsRun(run) && e < |run| && i < |run[e].grants| && j < |run[e].grants|
    requires run[e].grants[i].expected == Some(expected) && run[e].grants[j].expected == Some(expected)
    ensures i == j
  {
    RunKeepsInv(run, e);
    assert GrantsOrdered(run[e]);
  }

  /** Every snapshot handed out by `snapshotTarget` is a pair published under its own even revision. */
  lemma SnapshotsArePublished(run: seq<State>, e: nat, i: nat)
    requires IsRun(run) && e < |run| && i < |run[e].snapshots|
    ensures Published(run[e], run[e].snapshots[i])
  {
    RunKeepsInv(run, e);
  }

  /**
   A granted mutation raises the revision by exactly two however often its object is moved: it is
   odd while the mutation is open and the destructor of the one owning object closes it.
   */
  lemma OneDestructorCloses(s: State, t: nat, i: nat)
    requires Inv(s) && t < |s.threads| && s.threads[t].Mutating? && i < |s.threads[t].objects|
    ensures var p := s.threads[t]; var s' := Apply(s, t, Destroy(i)).value;
      if p.objects[i]
      then s'.revision == p.previous.revision + 2 && s'.revision % 2 == 0
           && s'.log[s'.revision] == (s.pid, s.handle)
           && forall k :: 0 <= k < |p.objects| && k != i ==> !p.objects[k]
      else s' == s
  {
    assert Current(s, s.threads[t]);
    assert Holding(s.threads[t]) <==> s.mutex == Some(t);
  }

  // ---------------------------------------------------------------- what a mutation does

  /** While one thread holds the mutex, no other takes a step. */
  lemma OneAtATime(s: State, t: nat, u: nat, a: Action)
    requires Inv(s) && s.mutex == Some(t) && u != t
    ensures Apply(s, u, a).None?
  {
    if u < |s.threads| { assert Holding(s.threads[u]) <==> s.mutex == Some(u); }
  }

  function Steps(s: State, t: nat, actions: seq<Action>): (r: Option<State>)
    ensures r.Some? ==> |r.value.threads| == |s.threads|
    decreases actions
  {
    if actions == [] then Some(s)
    else match Apply(s, t, actions[0]) case None => None case Some(s') => Steps(s', t, actions[1..])
  }

  lemma StepThen(s: State, t: nat, a: Action, rest: seq<Action>, s': State)
    requires Apply(s, t, a) == Some(s')
    ensures Steps(s, t, [a] + rest) == Steps(s', t, rest)
  {
    assert ([a] + rest)[1..] == rest;
  }

  lemma FiveSteps(t: nat, s: State, a: Action, s1: State, b: Action, s2: State, c: Action, s3: State, d: Action,
                  s4: State, e: Action, s5: State)
    requires Apply(s, t, a) == Some(s1) && Apply(s1, t, b) == Some(s2) && Apply(s2, t, c) == Some(s3)
    requires Apply(s3, t, d) == Some(s4) && Apply(s4, t, e) == Some(s5)
    ensures Steps(s, t, [a, b, c, d, e]) == Some(s5)
  {
    hide Apply;
    StepThen(s, t, a, [b, c, d, e], s1);
    StepThen(s1, t, b, [c, d, e], s2);
    StepThen(s2, t, c, [d, e], s3);
    StepThen(s3, t, d, [e], s4);
    StepThen(s4, t, e, [], s5);
    assert [a] + [b, c, d, e] == [a, b, c, d, e] && [b] + [c, d, e] == [b, c, d, e];
    assert [c] + [d, e] == [c, d, e] && [d] + [e] == [d, e] && [e] + [] == [e];
  }

  /** What follows the granted mutation or its refusal. */
  ghost predicate Begun(s: State, t: nat, expected: Option<Snapshot>, live: Snapshot, s': State)
    requires t < |s.threads|
  {
    if expected.None? || expected.value == live
    then s' == s.(mutex := Some(t), threads := s.threads[t := Mutating(live, [true])], revision := s.revision + 1,
                  grants := s.grants + [Grant(expected, live)])
    else s' == s.(mutex := Some(t), threads := s.threads[t := Leaving]) && Apply(s', t, Advance) == Some(s)
  }

  /**
   `beginTargetMutation`, which nobody can disturb once it has the mutex, grants a mutation exactly if the caller
   expects nothing or just the live target, and otherwise leaves everything as it was.
   */
  lemma BeginOutcome(s: State, t: nat, expected: Option<Snapshot>, generation: nat)
    requires Inv(s) && s.mutex.None? && t < |s.threads|
    ensures var r := Steps(s, t, [Begin(expected, generation), Advance, Advance, Advance, Advance]);
      r.Some? && Begun(s, t, expected, Snapshot(s.pid, s.handle, s.revision, generation), r.value)
  {
    assert Holding(s.threads[t]) <==> s.mutex == Some(t);
    assert s.revision % 2 == 0;
    hide Inv;
    var a := Begin(expected, generation);
    var live := Snapshot(s.pid, s.handle, s.revision, generation);
    var s1 := At(s, t, BeginLocked(expected, generation)).(mutex := Some(t));
    var s2 := At(s1, t, BeginRevision(expected, generation, s.revision));
    var s3 := At(s2, t, BeginPid(expected, generation, s.revision, s.pid));
    var s4 := At(s3, t, BeginHandle(expected, live));
    var s5 := Apply(s4, t, Advance).value;
    FiveSteps(t, s, a, s1, Advance, s2, Advance, s3, Advance, s4, Advance, s5);
    assert s4.threads == s.threads[t := BeginHandle(expected, live)];
    assert s4.threads[t := Leaving] == s.threads[t := Leaving];
    assert s.threads[t := Leaving][t := Idle] == s.threads;
  }

  /** `snapshotTarget` hands out the live target and changes nothing else. */
  lemma SnapOutcome(s: State, t: nat, generation: nat)
    requires Inv(s) && s.mutex.None? && t < |s.threads|
    ensures Steps(s, t, [Snap(generation), Advance, Advance, Advance, Advance]) ==
      Some(s.(snapshots := s.snapshots + [Snapshot(s.pid, s.handle, s.revision, generation)]))
  {
    assert Holding(s.threads[t]) <==> s.mutex == Some(t);
    hide Inv;
    var live := Snapshot(s.pid, s.handle, s.revision, generation);
    var s1 := At(s, t, SnapLocked(generation)).(mutex := Some(t));
    var s2 := At(s1, t, SnapPid(generation, s.pid));
    var s3 := At(s2, t, SnapHandle(generation, s.pid, s.handle));
    var s4 := At(s3, t, SnapDone(live));
    var s5 := Apply(s4, t, Advance).value;
    FiveSteps(t, s, Snap(generation), s1, Advance, s2, Advance, s3, Advance, s4, Advance, s5);
    assert s5.threads == s.threads;
  }

  /**
   Moving a mutation object hands over the mutation, if it had it, and leaves the others as they are; through an
   object that does not have it nothing is published and nothing is closed.
   */
  lemma MoveHandsOver(s: State, t: nat, i: nat)
    requires t < |s.threads| && s.threads[t].Mutating? && i < |s.threads[t].objects|
    ensures var objects, r := s.threads[t].objects, Apply(s, t, Move(i));
      && r.Some? && r.value.threads[t].Mutating? && r.value == s.(threads := r.value.threads)
      && var objects' := r.value.threads[t].objects;
         && |objects'| == |objects| + 1 && objects'[|objects|] == objects[i] && !objects'[i]
         && forall k :: 0 <= k < |objects| && k != i ==> objects'[k] == objects[k]
    ensures !s.threads[t].objects[i] ==> forall pid, handle ::
      Apply(s, t, StorePid(i, pid, handle)) == Some(s) && Apply(s, t, Destroy(i)) == Some(s)
  {
  }

  /**
   A publication takes effect: its two stores and the destructor, of the object that owns the mutation, make what
   was asked the live target under the next even revision.
   */
  lemma PublishOutcome(s: State, t: nat, i: nat, pid: int, handle: int)
    requires Inv(s) && t < |s.threads| && s.threads[t].Mutating? && i < |s.threads[t].objects|
    requires s.threads[t].objects[i]
    ensures var r := Steps(s, t, [StorePid(i, pid, handle), StoreHandle, Destroy(i)]);
      && r.Some? && r.value.threads[t].Leaving? && r.value.mutex == Some(t)
      && r.value.pid == pid && r.value.handle == handle && r.value.revision == s.threads[t].previous.revision + 2
      && r.value.log == s.log[r.value.revision := (pid, handle)]
  {
    assert Current(s, s.threads[t]) && (Holding(s.threads[t]) <==> s.mutex == Some(t));
    hide Inv, OneOwner;
    var p := s.threads[t];
    var s1 := At(s, t, Publishing(p.previous, p.objects, handle)).(pid := pid, asked := s.asked + [(pid, handle)]);
    var s2 := At(s1, t, Mutating(p.previous, p.objects)).(handle := handle);
    var s3 := At(s2, t, Leaving).(revision := s.revision + 1, log := s.log[s.revision + 1 := (pid, handle)],
                                  wanted := s.wanted[s.revision + 1 := (pid, handle)]);
    assert Apply(s, t, StorePid(i, pid, handle)) == Some(s1) && Apply(s1, t, StoreHandle) == Some(s2);
    assert Apply(s2, t, Destroy(i)) == Some(s3);
    ThreeSteps(t, s, StorePid(i, pid, handle), s1, StoreHandle, s2, Destroy(i), s3);
  }

  lemma ThreeSteps(t: nat, s: State, a: Action, s1: State, b: Action, s2: State, c: Action, s3: State)
    requires Apply(s, t, a) == Some(s1) && Apply(s1, t, b) == Some(s2) && Apply(s2, t, c) == Some(s3)
    ensures Steps(s, t, [a, b, c]) == Some(s3)
  {
    hide Apply;
    StepThen(s, t, a, [b, c], s1);
    StepThen(s1, t, b, [c], s2);
    StepThen(s2, t, c, [], s3);
    assert [a] + [b, c] == [a, b, c] && [b] + [c] == [b, c] && [c] + [] == [c];
  }

  /**
   And in any interleaving: from the first store of a publication to the destructor that closes the mutation,
   whatever the other threads try and however the object is moved, if nothing further is published in between then
   the destructor leaves just that pair live, published under its even revision.
   */
  lemma PublicationTakesEffect(run: seq<State>, a: nat, b: nat, t: nat, i: nat, j: nat, pid: int, handle: int)
    requires IsRun(run) && a < b < |run| - 1
    requires t < |run[a].threads| && run[a].threads[t].Mutating?
    requires i < |run[a].threads[t].objects| && run[a].threads[t].objects[i]
    requires Apply(run[a], t, StorePid(i, pid, handle)) == Some(run[a + 1])
    requires |run[b].asked| == |run[a].asked| + 1
    requires t < |run[b].threads| && run[b].threads[t].Mutating?
    requires j < |run[b].threads[t].objects| && run[b].threads[t].objects[j]
    requires Apply(run[b], t, Destroy(j)) == Some(run[b + 1])
    ensures run[b + 1].pid == pid && run[b + 1].handle == handle
    ensures run[b + 1].revision == run[b].threads[t].previous.revision + 2
    ensures run[b + 1].revision in run[b + 1].log && run[b + 1].log[run[b + 1].revision] == (pid, handle)
  {
    RunGrows(run, a + 1, b);
    RunKeepsInv(run, b);
    assert run[b].asked == run[a + 1].asked;
    assert Current(run[b], run[b].threads[t]) && (Holding(run[b].threads[t]) <==> run[b].mutex == Some(t));
  }

  /** Over whole runs: every pair ever published is (0, 0) or what the last publication before it asked for. */
  lemma PublishedAsAsked(run: seq<State>, e: nat)
    requires IsRun(run) && e < |run|
    ensures run[e].log == run[e].wanted
    ensures run[e].revision % 2 == 0 ==> (run[e].pid, run[e].handle) == LastAsked(run[e])
  {
    RunKeepsInv(run, e);
  }
}
