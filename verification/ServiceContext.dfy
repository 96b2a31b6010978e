/**
 Captured contexts and their validation (gui/mem/MemService.cpp, gui/mem/MemTypes.h), and why
 checking before and after a call brackets the call.

 A context remembers a connection generation and a target snapshot.  Each check reads the live
 values one after another, at different instants of a run in which other threads select processes,
 reconnect and poison the connection.
 */
module ServiceContext {
  import opened Basics
  import opened TargetSeqlock

  datatype ErrorCode =
    | InvalidArgument | CancelRequested | Timeout | ConnectionChanged | ConnectionPoisoned | NotConnected
    | NoTarget | TargetChanged | ProtocolError | PermissionDenied | PartialWrite | CompletionUnknown
    | SymbolSessionChanged | InternalError

  datatype Error = Error(code: ErrorCode, retryable: bool, affectedBytes: Option<nat>)

  datatype Result<+T> = Success(value: T) | Failure(error: Error)

  function Fail<T>(code: ErrorCode, retryable: bool): Result<T> {
    Failure(Error(code, retryable, None))
  }

  datatype Context = Context(generation: nat, target: Option<Snapshot>)

  /** What one validation sees: the caller's token and clock, the connection, the target snapshot. */
  datatype Observation = Observation(cancelled: bool, expired: bool, generation: nat, poisoned: bool,
                                     connected: bool, target: Snapshot)

  predicate IsAttached(t: Snapshot) {
    t.pid > 0 && t.handle != 0
  }

  const CONTEXT_CODES: set<ErrorCode> :=
    {CancelRequested, Timeout, ConnectionChanged, ConnectionPoisoned, NotConnected, NoTarget, TargetChanged}

  /** The caller gave up, as far as that is asked. */
  predicate GaveUp(o: Observation, checkCancellation: bool) {
    checkCancellation && (o.cancelled || o.expired)
  }

  /** The connection is the captured one and, as far as that is asked, usable. */
  predicate Connected(c: Context, o: Observation, requireConnected: bool) {
    o.generation == c.generation && (requireConnected ==> o.connected && !o.poisoned)
  }

  /** The context was captured with a target that was attached over its connection. */
  predicate HasTarget(c: Context) {
    c.target.Some? && IsAttached(c.target.value) && c.target.value.generation == c.generation
  }

  /**
   Nothing to object exactly when nobody gave up, the generation is the captured one, and as far as they are
   required the connection is sound and the target is the captured, attached one.  What reconnecting or
   waiting can cure is retryable; each code has its own cause.
   */
  function ValidateContext(c: Context, o: Observation, requireConnected: bool, requireTarget: bool,
                           checkCancellation: bool): (r: Option<Error>)
    ensures r.None? <==>
      && !(checkCancellation && (o.cancelled || o.expired))
      && o.generation == c.generation
      && (requireConnected ==> o.connected && !o.poisoned)
      && (requireTarget ==> c.target == Some(o.target) && IsAttached(o.target) && o.target.generation == o.generation)
    ensures r.Some? ==> r.value.affectedBytes.None? && r.value.code in CONTEXT_CODES
    ensures r.Some? ==>
      (r.value.retryable <==> r.value.code in {Timeout, ConnectionChanged, ConnectionPoisoned, NotConnected})
    ensures r.Some? && r.value.code == CancelRequested <==> checkCancellation && o.cancelled
    ensures r.Some? && r.value.code == Timeout <==> checkCancellation && o.expired && !o.cancelled
    ensures r.Some? && r.value.code == ConnectionPoisoned <==>
      !GaveUp(o, checkCancellation) && o.poisoned && (o.generation != c.generation || requireConnected)
    ensures r.Some? && r.value.code == NotConnected <==>
      && !GaveUp(o, checkCancellation) && o.generation == c.generation && requireConnected
      && !o.poisoned && !o.connected
    ensures r.Some? && r.value.code == NoTarget <==>
      && !GaveUp(o, checkCancellation) && Connected(c, o, requireConnected) && requireTarget
      && (c.target.None? || !IsAttached(c.target.value))
    ensures r.Some? && r.value.code == TargetChanged <==>
      && !GaveUp(o, checkCancellation) && Connected(c, o, requireConnected) && requireTarget
      && HasTarget(c) && c.target != Some(o.target)
  {
    if checkCancellation && o.cancelled then Some(Error(CancelRequested, false, None))
    else if checkCancellation && o.expired then Some(Error(Timeout, true, None))
    else if o.generation != c.generation then
      if o.poisoned then Some(Error(ConnectionPoisoned, true, None)) else Some(Error(ConnectionChanged, true, None))
    else if requireConnected && o.poisoned then Some(Error(ConnectionPoisoned, true, None))
    else if requireConnected && !o.connected then Some(Error(NotConnected, true, None))
    else if requireTarget then
      if c.target.None? || !IsAttached(c.target.value) then Some(Error(NoTarget, false, None))
      else if c.target.value.generation != c.generation then Some(Error(ConnectionChanged, true, None))
      else if o.target != c.target.value then Some(Error(TargetChanged, false, None))
      else None
    else None
  }

  /** The check the target operations make before they touch the device and before they commit. */
  predicate Passes(c: Context, o: Observation) {
    ValidateContext(c, o, true, true, true).None?
  }

  /** The same without a look at the caller's token and clock. */
  predicate Stands(c: Context, o: Observation) {
    ValidateContext(c, o, true, true, false).None?
  }

  // ---------------------------------------------------------------- the world around a call

  datatype World = World(target: State, generation: nat, connected: bool, poisoned: bool)

  /** Anybody may move the target state machine or the connection; generations never go back. */
  ghost predicate WorldNext(w: World, w': World) {
    || (Next(w.target, w'.target) && w' == w.(target := w'.target))
    || (w'.target == w.target && w.generation <= w'.generation)
  }

  ghost predicate IsHistory(h: seq<World>) {
    && 0 < |h|
    && Inv(h[0].target)
    && forall i :: 0 <= i < |h| - 1 ==> WorldNext(h[i], h[i + 1])
  }

  /** The instants at which one validation reads the backend, in the order of the source. */
  datatype Instants = Instants(generation: nat, poisoned: nat, connected: nat, snapGeneration: nat, snap: nat,
                               thread: nat)

  ghost predicate InOrder(h: seq<World>, i: Instants) {
    i.generation <= i.poisoned <= i.connected <= i.snapGeneration <= i.snap < |h|
  }

  /** `o` is what a validation at these instants sees; the snapshot is one completed by `thread`. */
  ghost predicate Observes(h: seq<World>, i: Instants, o: Observation) {
    && InOrder(h, i)
    && o.generation == h[i.generation].generation
    && o.poisoned == h[i.poisoned].poisoned && o.connected == h[i.connected].connected
    && o.target.generation == h[i.snapGeneration].generation
    && i.thread < |h[i.snap].target.threads|
    && h[i.snap].target.threads[i.thread] == SnapDone(o.target)
  }

  /** The context's generation and target are the live ones at instant `k`. */
  ghost predicate CurrentAt(c: Context, w: World) {
    && w.generation == c.generation
    && c.target.Some?
    && w.target.revision == c.target.value.revision
    && w.target.pid == c.target.value.pid
    && w.target.handle == c.target.value.handle
  }

  ghost function Targets(h: seq<World>): (run: seq<State>)
    ensures |run| == |h|
    ensures forall i :: 0 <= i < |h| ==> run[i] == h[i].target
  {
    seq(|h|, i requires 0 <= i < |h| => h[i].target)
  }

  lemma TargetsAreARun(h: seq<World>)
    requires IsHistory(h)
    ensures IsRun(Targets(h))
  {
    var run := Targets(h);
    forall i | 0 <= i < |run| - 1 ensures Next(run[i], run[i + 1]) {
      assert WorldNext(h[i], h[i + 1]);
    }
  }

  lemma {:induction false} GenerationGrows(h: seq<World>, i: nat, j: nat)
    requires IsHistory(h) && i <= j < |h|
    ensures h[i].generation <= h[j].generation
    decreases j - i
  {
    if i < j {
      GenerationGrows(h, i, j - 1);
      assert WorldNext(h[j - 1], h[j - 1 + 1]);
    }
  }

  /** A completed snapshot is the live target at that instant, under an even revision. */
  lemma SnapshotIsLive(s: State, t: nat, c: Snapshot)
    requires Inv(s) && t < |s.threads| && s.threads[t] == SnapDone(c)
    ensures s.revision % 2 == 0 && c.revision == s.revision && c.pid == s.pid && c.handle == s.handle
  {
    assert Current(s, s.threads[t]);
    assert Holding(s.threads[t]) <==> s.mutex == Some(t);
  }

  /**
   The sandwich: two checks that one context stands enclose an interval in which its target and its
   connection generation were the live ones at every instant, because neither counter goes back.
   */
  lemma Sandwich(h: seq<World>, c: Context, i1: Instants, o1: Observation, i2: Instants, o2: Observation)
    requires IsHistory(h) && Observes(h, i1, o1) && Observes(h, i2, o2)
    requires i1.snap <= i2.generation
    requires Stands(c, o1) && Stands(c, o2)
    ensures forall k :: i1.snap <= k <= i2.snapGeneration ==> CurrentAt(c, h[k])
  {
    var run := Targets(h);
    TargetsAreARun(h);
    RunKeepsInv(run, i1.snap);
    RunKeepsInv(run, i2.snap);
    SnapshotIsLive(run[i1.snap], i1.thread, o1.target);
    SnapshotIsLive(run[i2.snap], i2.thread, o2.target);
    forall k | i1.snap <= k <= i2.snapGeneration ensures CurrentAt(c, h[k]) {
      GenerationGrows(h, i1.generation, k);
      GenerationGrows(h, k, i2.snapGeneration);
      FrozenBetween(run, i1.snap, i2.snap, k);
    }
  }

  // ---------------------------------------------------------------- calls between two checks

  /** What every successful operation establishes: the context stood before and after the device call. */
  ghost predicate Bracketed(c: Context, before: Observation, after: Observation) {
    Stands(c, before) && Stands(c, after)
  }

  /**
   In any run interleaved with target mutations and reconnects, at each instant between the two checks of
   a bracketed call, the device calls included, the context's target and generation were the live ones.
   */
  lemma BracketedIsCurrent(h: seq<World>, c: Context, i1: Instants, before: Observation, i2: Instants,
                           after: Observation, k: nat)
    requires IsHistory(h) && Observes(h, i1, before) && Observes(h, i2, after)
    requires i1.snap <= k <= i2.generation
    requires Bracketed(c, before, after)
    ensures CurrentAt(c, h[k])
  {
    Sandwich(h, c, i1, before, i2, after);
  }

  lemma BothStand(c: Context, before: Observation, after: Observation)
    requires Stands(c, before) && Stands(c, after)
    ensures Bracketed(c, before, after)
  {
  }

  /** The answer to a device call that brought nothing: the reason the context fell, or the call's own. */
  function Unanswered<T>(c: Context, after: Observation): (r: Result<T>)
    ensures r.Failure? && (Stands(c, after) ==> r.error == Error(ProtocolError, true, None))
    ensures !Stands(c, after) ==> r.error.code in CONTEXT_CODES - {CancelRequested, Timeout}
    ensures !Stands(c, after) ==> Some(r.error) == ValidateContext(c, after, true, true, false)
  {
    match ValidateContext(c, after, true, true, false)
    case Some(error) => Failure(error)
    case None => Fail(ProtocolError, true)
  }

  /** The answer when a check on the way fails. */
  function Refused<T>(c: Context, o: Observation): (r: Result<T>)
    requires !Passes(c, o)
    ensures r.Failure? && r.error.code in CONTEXT_CODES
    ensures Some(r.error) == ValidateContext(c, o, true, true, true)
  {
    Failure(ValidateContext(c, o, true, true, true).value)
  }

  lemma PassedStands(c: Context, o: Observation)
    requires Passes(c, o)
    ensures Stands(c, o) && c.target.Some?
  {
  }
}
