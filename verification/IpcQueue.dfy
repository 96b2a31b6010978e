/**
 The accept queue and worker pool of gui/ipc/IpcServer.cpp: one acceptor thread, a bounded queue,
 worker threads, and a thread that runs `Stop`.  Steps are the atomic actions of the source (a
 critical section under `clientQueueMutex_` is one step); any thread may take the next one.
 */
module IpcQueue {

  type Socket = nat      // identity of one accepted connection

  const MAX_PENDING: nat := 64

  datatype Acceptor =
    | Loading                       // about to load listenSocket_
    | Accepting                     // inside accept()
    | Accepted(client: Socket)      // about to test running_
    | Offering(client: Socket)      // about to lock the queue
    | Refused(client: Socket)       // not queued, about to close
    | AcceptorGone

  datatype Worker = Waiting | Handling(client: Socket) | WorkerGone

  datatype Stopper =
    | Idle
    | Flagged                       // running_ is false
    | Unlistened                    // accept loop woken, listen socket closed
    | Joined                        // acceptor joined
    | Draining(pending: seq<Socket>)
    | Joining                       // waiting for the workers
    | Stopped

  /**
   The threads and what they share, and for the theorems which sockets were accepted, and closed how often, which
   were queued and handed to a worker, in order, and which the stop took out of the queue.
   */
  datatype State = State(acceptor: Acceptor, queue: seq<Socket>, workers: seq<Worker>, stopper: Stopper,
                         running: bool, stopWorkers: bool, listening: bool,
                         accepted: set<Socket>, closed: multiset<Socket>,
                         offered: seq<Socket>, handed: seq<Socket>, drained: seq<Socket>)

  datatype Action =
    | AcceptorStep(client: Socket, failed: bool)   // `client` and `failed` matter only inside accept()
    | WorkerStep(worker: nat)
    | StopStep

  function Started(workers: nat): State {
    State(Loading, [], seq(workers, _ => Waiting), Idle, true, false, true, {}, multiset{}, [], [], [])
  }

  function AcceptorNext(s: State, client: Socket, failed: bool): (r: State) {
    match s.acceptor
    case Loading => if s.listening then s.(acceptor := Accepting) else s.(acceptor := AcceptorGone)
    case Accepting =>
      if failed then s.(acceptor := AcceptorGone)
      else if client in s.accepted then s          // accept never hands out the same connection twice
      else s.(acceptor := Accepted(client), accepted := s.accepted + {client})
    case Accepted(c) =>
      if !s.running then s.(acceptor := AcceptorGone, closed := s.closed + multiset{c})
      else s.(acceptor := Offering(c))
    case Offering(c) =>
      if !s.stopWorkers && |s.queue| < MAX_PENDING then
        s.(acceptor := Loading, queue := s.queue + [c], offered := s.offered + [c])
      else s.(acceptor := Refused(c))
    case Refused(c) => s.(acceptor := Loading, closed := s.closed + multiset{c})
    case AcceptorGone => s
  }

  function WorkerNext(s: State, w: nat): (r: State)
    requires w < |s.workers|
  {
    match s.workers[w]
    case Waiting =>
      if s.queue != [] then
        s.(workers := s.workers[w := Handling(s.queue[0])], queue := s.queue[1..], handed := s.handed + [s.queue[0]])
      else if s.stopWorkers then s.(workers := s.workers[w := WorkerGone])
      else s                                       // the condition variable keeps it asleep
    case Handling(c) => s.(workers := s.workers[w := Waiting], closed := s.closed + multiset{c})
    case WorkerGone => s
  }

  predicate AllWorkersGone(s: State) {
    forall w :: 0 <= w < |s.workers| ==> s.workers[w].WorkerGone?
  }

  function StopNext(s: State): (r: State) {
    match s.stopper
    case Idle => if s.running then s.(stopper := Flagged, running := false) else s
    case Flagged => s.(stopper := Unlistened, listening := false)
    case Unlistened => if s.acceptor.AcceptorGone? then s.(stopper := Joined) else s
    case Joined => s.(stopper := Draining(s.queue), queue := [], stopWorkers := true, drained := s.queue)
    case Draining(p) =>
      if p == [] then s.(stopper := Joining)
      else s.(stopper := Draining(p[1..]), closed := s.closed + multiset{p[0]})
    case Joining => if AllWorkersGone(s) then s.(stopper := Stopped) else s
    case Stopped => s
  }

  function Apply(s: State, a: Action): State {
    match a
    case AcceptorStep(client, failed) => AcceptorNext(s, client, failed)
    case WorkerStep(w) => if w < |s.workers| then WorkerNext(s, w) else s
    case StopStep => StopNext(s)
  }

  // ---------------------------------------------------------------- where the sockets are

  function One(b: bool): nat { if b then 1 else 0 }

  function InHand(a: Acceptor, c: Socket): nat {
    One((a.Accepted? || a.Offering? || a.Refused?) && a.client == c)
  }

  function InQueue(q: seq<Socket>, c: Socket): nat {
    if q == [] then 0 else One(q[0] == c) + InQueue(q[1..], c)
  }

  function InWorkers(ws: seq<Worker>, c: Socket): nat {
    if ws == [] then 0 else One(ws[0].Handling? && ws[0].client == c) + InWorkers(ws[1..], c)
  }

  function InDrain(p: Stopper, c: Socket): nat {
    if p.Draining? then InQueue(p.pending, c) else 0
  }

  /** In how many places socket `c` is still open. */
  function OpenCount(s: State, c: Socket): nat {
    InHand(s.acceptor, c) + InQueue(s.queue, c) + InWorkers(s.workers, c) + InDrain(s.stopper, c)
  }

  /** Open once, or closed once, or never accepted. */
  predicate Balanced(s: State, c: Socket) {
    OpenCount(s, c) + s.closed[c] == One(c in s.accepted)
  }

  lemma {:induction false} InQueuePush(q: seq<Socket>, x: Socket, c: Socket)
    ensures InQueue(q + [x], c) == InQueue(q, c) + One(x == c)
    decreases |q|
  {
    if q != [] {
      InQueuePush(q[1..], x, c);
      assert (q + [x])[1..] == q[1..] + [x];
    }
  }

  lemma {:induction false} InWorkersUpdate(ws: seq<Worker>, i: nat, w: Worker, c: Socket)
    requires i < |ws|
    ensures InWorkers(ws[i := w], c) + One(ws[i].Handling? && ws[i].client == c)
         == InWorkers(ws, c) + One(w.Handling? && w.client == c)
    decreases |ws|
  {
    if i == 0 {
      assert ws[i := w][1..] == ws[1..];
    } else {
      InWorkersUpdate(ws[1..], i - 1, w, c);
      assert ws[i := w][1..] == ws[1..][i - 1 := w];
    }
  }

  lemma {:induction false} IdleWorkersHoldNothing(ws: seq<Worker>, c: Socket)
    requires forall w :: 0 <= w < |ws| ==> !ws[w].Handling?
    ensures InWorkers(ws, c) == 0
    decreases |ws|
  {
    if ws != [] { IdleWorkersHoldNothing(ws[1..], c); }
  }

  lemma WorkerBalances(s: State, w: nat, c: Socket)
    requires Balanced(s, c) && w < |s.workers|
    ensures Balanced(WorkerNext(s, w), c)
  {
    InWorkersUpdate(s.workers, w, WorkerNext(s, w).workers[w], c);
  }

  lemma StopBalances(s: State, c: Socket)
    requires Balanced(s, c)
    ensures Balanced(StopNext(s), c)
  {
    hide InHand, InWorkers, AllWorkersGone;
    if s.stopper.Draining? && s.stopper.pending != [] {
      var p := s.stopper.pending;
      assert InQueue(p, c) == One(p[0] == c) + InQueue(p[1..], c);
      assert StopNext(s).closed[c] == s.closed[c] + One(p[0] == c);
    }
  }

  lemma AcceptorBalances(s: State, client: Socket, failed: bool, c: Socket)
    requires Balanced(s, c)
    ensures Balanced(AcceptorNext(s, client, failed), c)
  {
    hide InWorkers, InDrain, InQueue;
    if s.acceptor.Offering? { InQueuePush(s.queue, s.acceptor.client, c); }
  }

  /** What `Stop` has established by each of its points. */
  predicate StopProgress(s: State) {
    match s.stopper
    case Idle => true
    case Flagged => !s.running
    case Unlistened => !s.running && !s.listening
    case Joined => s.acceptor.AcceptorGone?
    case Draining(p) => s.acceptor.AcceptorGone? && s.stopWorkers && s.queue == [] && |p| <= MAX_PENDING
    case Joining => s.acceptor.AcceptorGone? && s.stopWorkers && s.queue == []
    case Stopped => s.acceptor.AcceptorGone? && s.stopWorkers && s.queue == [] && AllWorkersGone(s)
  }

  predicate Controlled(s: State) {
    |s.queue| <= MAX_PENDING && StopProgress(s)
  }

  lemma StepKeepsControl(s: State, a: Action)
    requires Controlled(s)
    ensures Controlled(Apply(s, a))
  {
  }

  function Run(s: State, actions: seq<Action>): State
    decreases actions
  {
    if actions == [] then s else Run(Apply(s, actions[0]), actions[1..])
  }

  lemma {:induction false} RunKeepsControl(s: State, actions: seq<Action>)
    requires Controlled(s)
    ensures Controlled(Run(s, actions))
    decreases actions
  {
    if actions != [] {
      StepKeepsControl(s, actions[0]);
      RunKeepsControl(Apply(s, actions[0]), actions[1..]);
    }
  }

  lemma {:induction false} RunBalances(s: State, actions: seq<Action>, c: Socket)
    requires Balanced(s, c)
    ensures Balanced(Run(s, actions), c)
    decreases actions
  {
    hide Balanced, AcceptorNext, WorkerNext, StopNext;
    if actions != [] {
      match actions[0] {
        case AcceptorStep(client, failed) => AcceptorBalances(s, client, failed, c);
        case WorkerStep(w) => if w < |s.workers| { WorkerBalances(s, w, c); }
        case StopStep => StopBalances(s, c);
      }
      RunBalances(Apply(s, actions[0]), actions[1..], c);
    }
  }

  /**
   Conservation: in every interleaving from the start on, each accepted socket is in exactly one
   place, in the acceptor's hand, the queue, a worker, the batch being drained, or among the closed
   ones, where it was closed once; and the queue is never longer than 64.
   */
  lemma EachSocketInOnePlace(workers: nat, actions: seq<Action>, c: Socket)
    ensures var s := Run(Started(workers), actions);
      && |s.queue| <= MAX_PENDING
      && InHand(s.acceptor, c) + InQueue(s.queue, c) + InWorkers(s.workers, c) + InDrain(s.stopper, c) + s.closed[c]
         == if c in s.accepted then 1 else 0
  {
    IdleWorkersHoldNothing(Started(workers).workers, c);
    RunBalances(Started(workers), actions, c);
    RunKeepsControl(Started(workers), actions);
  }

  /** Once `Stop` has returned, every accepted socket has been closed exactly once, and none is open. */
  lemma StopClosesEverySocketOnce(workers: nat, actions: seq<Action>)
    requires Run(Started(workers), actions).stopper.Stopped?
    ensures var s := Run(Started(workers), actions);
      forall c :: s.closed[c] == (if c in s.accepted then 1 else 0) && OpenCount(s, c) == 0
  {
    var s := Run(Started(workers), actions);
    RunKeepsControl(Started(workers), actions);
    forall c ensures s.closed[c] == (if c in s.accepted then 1 else 0) && OpenCount(s, c) == 0 {
      EachSocketInOnePlace(workers, actions, c);
      IdleWorkersHoldNothing(s.workers, c);
    }
  }

  // ---------------------------------------------------------------- who is served

  /**
   What was queued was handed on, waits, or was drained, in this order; nothing is drained and no worker leaves before
   the stop.
   */
  ghost predicate InOrder(s: State) {
    && s.offered == s.handed + s.queue + s.drained
    && (s.drained != [] ==> s.stopWorkers)
    && (s.stopWorkers ==> s.stopper.Draining? || s.stopper.Joining? || s.stopper.Stopped?)
    && (s.stopper.Idle? ==> s.running)
    && (forall w :: 0 <= w < |s.workers| && s.workers[w].WorkerGone? ==> s.stopWorkers)
  }

  lemma AcceptorKeepsOrder(s: State, client: Socket, failed: bool)
    requires Controlled(s) && InOrder(s)
    ensures var s' := AcceptorNext(s, client, failed);
      InOrder(s') && s.offered <= s'.offered && s.handed == s'.handed
  {
    hide AllWorkersGone;
    if s.acceptor.Offering? {
      var q := s.queue + [s.acceptor.client];
      assert s.drained == [];
      assert s.offered + [s.acceptor.client] == s.handed + q + [];
    }
  }

  lemma WorkerKeepsOrder(s: State, w: nat)
    requires InOrder(s) && w < |s.workers|
    ensures var s' := WorkerNext(s, w); InOrder(s') && s.offered == s'.offered && s.handed <= s'.handed
  {
    if s.queue != [] {
      assert (s.handed + [s.queue[0]]) + s.queue[1..] == s.handed + s.queue;
    }
  }

  lemma StopKeepsOrder(s: State)
    requires Controlled(s) && InOrder(s)
    ensures var s' := StopNext(s); InOrder(s') && s.offered == s'.offered && s.handed == s'.handed
  {
    hide AllWorkersGone;
    if s.stopper.Joined? {
      assert s.drained == [];
      assert s.handed + s.queue + [] == s.handed + [] + s.queue;
    }
  }

  lemma StepKeepsOrder(s: State, a: Action)
    requires Controlled(s) && InOrder(s)
    ensures InOrder(Apply(s, a))
    ensures s.offered <= Apply(s, a).offered && s.handed <= Apply(s, a).handed
  {
    hide Controlled, InOrder, AcceptorNext, WorkerNext, StopNext;
    match a
    case AcceptorStep(client, failed) => AcceptorKeepsOrder(s, client, failed);
    case WorkerStep(w) => if w < |s.workers| { WorkerKeepsOrder(s, w); }
    case StopStep => StopKeepsOrder(s);
  }

  lemma {:induction false} RunKeepsOrder(s: State, actions: seq<Action>)
    requires Controlled(s) && InOrder(s)
    ensures Controlled(Run(s, actions)) && InOrder(Run(s, actions))
    ensures s.offered <= Run(s, actions).offered && s.handed <= Run(s, actions).handed
    decreases actions
  {
    hide Controlled, InOrder, Apply;
    if actions != [] {
      StepKeepsControl(s, actions[0]);
      StepKeepsOrder(s, actions[0]);
      RunKeepsOrder(Apply(s, actions[0]), actions[1..]);
      PrefixOfPrefix(s.offered, Apply(s, actions[0]).offered, Run(s, actions).offered);
      PrefixOfPrefix(s.handed, Apply(s, actions[0]).handed, Run(s, actions).handed);
    }
  }

  lemma PrefixOfPrefix(a: seq<Socket>, b: seq<Socket>, c: seq<Socket>)
    requires a <= b <= c
    ensures a <= c
  {
    assert c[..|a|] == c[..|b|][..|a|];
  }

  /** Sockets are handed to workers in the order in which they were queued, and only the stop takes any away. */
  lemma FirstComeFirstServed(workers: nat, actions: seq<Action>)
    ensures var s := Run(Started(workers), actions);
      && s.offered == s.handed + s.queue + s.drained
      && (s.drained != [] ==> !s.stopper.Idle?)
  {
    RunKeepsOrder(Started(workers), actions);
  }

  /** The instants at which the acceptor may turn a socket away: 64 are waiting, or the stop has begun. */
  predicate MayTurnAway(s: State, c: Socket) {
    || (s.acceptor == Offering(c) && |s.queue| == MAX_PENDING)
    || (s.acceptor == Accepted(c) && !s.stopper.Idle?)
  }

  ghost predicate TurnedAway(start: State, actions: seq<Action>, c: Socket) {
    exists k :: 0 <= k < |actions| && MayTurnAway(Run(start, actions[..k]), c)
  }

  /** An accepted socket is on its way to the queue, was queued, or was turned away when that was allowed. */
  ghost predicate Accountable(start: State, actions: seq<Action>, c: Socket) {
    var s := Run(start, actions);
    c in s.accepted ==>
      s.acceptor == Accepted(c) || s.acceptor == Offering(c) || c in s.offered || TurnedAway(start, actions, c)
  }

  lemma StepAccounts(s: State, a: Action, c: Socket)
    requires Controlled(s) && InOrder(s) && c in Apply(s, a).accepted
    requires c in s.accepted ==> s.acceptor == Accepted(c) || s.acceptor == Offering(c) || c in s.offered
    ensures var s' := Apply(s, a);
      s'.acceptor == Accepted(c) || s'.acceptor == Offering(c) || c in s'.offered || MayTurnAway(s, c)
  {
  }

  lemma RunOneMore(start: State, actions: seq<Action>, a: Action)
    ensures Run(start, actions + [a]) == Apply(Run(start, actions), a)
  {
    RunInTwo(start, actions, [a]);
    assert [a][1..] == [];
  }

  lemma TurnedAwayStays(start: State, actions: seq<Action>, a: Action, c: Socket)
    requires TurnedAway(start, actions, c)
    ensures TurnedAway(start, actions + [a], c)
  {
    var k :| 0 <= k < |actions| && MayTurnAway(Run(start, actions[..k]), c);
    assert (actions + [a])[..k] == actions[..k];
  }

  lemma {:induction false} AllAccountable(start: State, actions: seq<Action>, c: Socket)
    requires Controlled(start) && InOrder(start) && start.accepted == {}
    ensures Accountable(start, actions, c)
    decreases |actions|
  {
    hide Controlled, InOrder, Apply, MayTurnAway;
    if actions != [] {
      var n := |actions| - 1;
      var before, a := actions[..n], actions[n];
      assert actions == before + [a];
      AllAccountable(start, before, c);
      RunKeepsOrder(start, before);
      RunOneMore(start, before, a);
      var s := Run(start, before);
      if c in Apply(s, a).accepted {
        if TurnedAway(start, before, c) {
          TurnedAwayStays(start, before, a, c);
        } else {
          AcceptedOnce(s, a);
          StepAccounts(s, a, c);
          if MayTurnAway(s, c) { assert actions[..n] == before && TurnedAway(start, actions, c); }
        }
      }
    }
  }

  lemma AcceptedOnce(s: State, a: Action)
    ensures s.accepted <= Apply(s, a).accepted
  {
  }

  /**
   Whom the server serves.  In every interleaving each accepted socket is with the acceptor on its way to the queue,
   waits, was handed to a worker, was taken out by the stop, or was turned away at an instant when 64 were waiting
   or the stop had begun.
   */
  lemma EverySocketHasItsFate(workers: nat, actions: seq<Action>, c: Socket)
    requires c in Run(Started(workers), actions).accepted
    ensures var s := Run(Started(workers), actions);
      || s.acceptor == Accepted(c) || s.acceptor == Offering(c)
      || c in s.queue || c in s.handed || c in s.drained
      || TurnedAway(Started(workers), actions, c)
  {
    AllAccountable(Started(workers), actions, c);
    RunKeepsOrder(Started(workers), actions);
  }

  /** A client that connects while fewer than 64 wait is queued by the acceptor's next steps, and it accepts again. */
  lemma ConnectedIsQueued(s: State, c: Socket)
    requires Controlled(s) && InOrder(s) && s.stopper.Idle? && s.listening && s.acceptor.Accepting?
    requires c !in s.accepted && |s.queue| < MAX_PENDING
    ensures Run(s, [AcceptorStep(c, false), AcceptorStep(c, false), AcceptorStep(c, false), AcceptorStep(c, false)]) ==
      s.(queue := s.queue + [c], offered := s.offered + [c], accepted := s.accepted + {c})
  {
    var a := AcceptorStep(c, false);
    var s1, s2 := Apply(s, a), Apply(Apply(s, a), a);
    var s3 := Apply(s2, a);
    assert [a, a, a, a][1..] == [a, a, a] && [a, a, a][1..] == [a, a] && [a, a][1..] == [a] && [a][1..] == [];
    assert Run(s3, [a]) == Apply(s3, a);
    assert Run(s2, [a, a]) == Run(s3, [a]) && Run(s1, [a, a, a]) == Run(s2, [a, a]);
  }

  /** The acceptor does not leave before the stop unless `accept` fails, and no step of its own leaves it as it is. */
  lemma {:induction false} AcceptorStays(s: State, actions: seq<Action>)
    requires !s.acceptor.AcceptorGone? && (s.stopper.Idle? ==> s.listening && s.running)
    requires forall i :: 0 <= i < |actions| && actions[i].AcceptorStep? ==> !actions[i].failed
    requires Run(s, actions).stopper.Idle?
    ensures !Run(s, actions).acceptor.AcceptorGone?
    ensures forall c :: c !in Run(s, actions).accepted ==>
      Apply(Run(s, actions), AcceptorStep(c, false)).acceptor != Run(s, actions).acceptor
    decreases actions
  {
    if actions == [] {
      forall c | c !in s.accepted ensures Apply(s, AcceptorStep(c, false)).acceptor != s.acceptor {
        AcceptorMoves(s, c, false);
      }
    } else {
      RunIsIdle(s, actions);
      RunIsIdle(Apply(s, actions[0]), actions[1..]);
      AcceptorStays(Apply(s, actions[0]), actions[1..]);
    }
  }

  /** How far the first `n` sockets ever queued are from all being handed on, as far as worker `w` can help. */
  function Behind(s: State, n: nat, w: nat): nat
    requires w < |s.workers|
  {
    if |s.handed| >= n then 0 else 2 * (n - |s.handed|) + if s.workers[w].Handling? then 1 else 0
  }

  lemma StepCatchesUp(s: State, a: Action, n: nat, w: nat)
    requires Controlled(s) && InOrder(s) && w < |s.workers| && n <= |s.offered|
    requires s.stopper.Idle? && Apply(s, a).stopper.Idle?
    ensures |Apply(s, a).workers| == |s.workers| && Behind(Apply(s, a), n, w) <= Behind(s, n, w)
    ensures a == WorkerStep(w) && |s.handed| < n ==> Behind(Apply(s, a), n, w) < Behind(s, n, w)
  {
    hide AllWorkersGone;
    assert s.drained == [] && |s.offered| == |s.handed| + |s.queue|;
    match a
    case AcceptorStep(_, _) =>
    case WorkerStep(v) => if v < |s.workers| { assert |s.handed| < n ==> s.queue != []; }
    case StopStep =>
  }

  lemma StoppedEarlier(s: State, a: Action)
    requires Apply(s, a).stopper.Idle?
    ensures s.stopper.Idle?
  {
  }

  lemma {:induction false} RunIsIdle(s: State, actions: seq<Action>)
    requires Run(s, actions).stopper.Idle?
    ensures s.stopper.Idle?
    decreases actions
  {
    if actions != [] {
      RunIsIdle(Apply(s, actions[0]), actions[1..]);
      StoppedEarlier(s, actions[0]);
    }
  }

  lemma {:induction false} RunCatchesUp(s: State, actions: seq<Action>, n: nat, w: nat)
    requires Controlled(s) && InOrder(s) && w < |s.workers| && n <= |s.offered| && Run(s, actions).stopper.Idle?
    ensures |Run(s, actions).workers| == |s.workers| && Behind(Run(s, actions), n, w) <= Behind(s, n, w)
    ensures WorkerStep(w) in actions && Behind(s, n, w) > 0 ==> Behind(Run(s, actions), n, w) < Behind(s, n, w)
    decreases actions
  {
    hide Controlled, InOrder, Apply;
    if actions != [] {
      var s1 := Apply(s, actions[0]);
      RunIsIdle(s1, actions[1..]);
      StoppedEarlier(s, actions[0]);
      StepCatchesUp(s, actions[0], n, w);
      StepKeepsControl(s, actions[0]);
      StepKeepsOrder(s, actions[0]);
      RunCatchesUp(s1, actions[1..], n, w);
      assert WorkerStep(w) in actions ==> actions[0] == WorkerStep(w) || WorkerStep(w) in actions[1..];
    }
  }

  lemma {:induction false} RoundsCatchUp(s: State, rounds: seq<seq<Action>>, n: nat, w: nat)
    requires Controlled(s) && InOrder(s) && w < |s.workers| && n <= |s.offered|
    requires forall i :: 0 <= i < |rounds| ==> WorkerStep(w) in rounds[i]
    requires Run(s, Flat(rounds)).stopper.Idle? && Behind(s, n, w) <= |rounds|
    ensures |Run(s, Flat(rounds)).handed| >= n
    decreases |rounds|
  {
    hide Controlled, InOrder, Apply;
    if rounds != [] {
      var s1, rest := Run(s, rounds[0]), Flat(rounds[1..]);
      RunInTwo(s, rounds[0], rest);
      RunIsIdle(s1, rest);
      RunCatchesUp(s, rounds[0], n, w);
      RunKeepsOrder(s, rounds[0]);
      RoundsCatchUp(s1, rounds[1..], n, w);
    }
  }

  /**
   Service: while the stop is not begun, every socket in the queue is handed to a worker within two rounds for each
   socket in the queue and one more, rounds in which some one worker gets its turn, whatever else happens in them.
   */
  lemma QueuedIsServed(workers: nat, actions: seq<Action>, rounds: seq<seq<Action>>, w: nat, c: Socket)
    requires w < workers && c in Run(Started(workers), actions).queue
    requires forall i :: 0 <= i < |rounds| ==> WorkerStep(w) in rounds[i]
    requires |rounds| > 2 * |Run(Started(workers), actions).queue|
    requires Run(Started(workers), actions + Flat(rounds)).stopper.Idle?
    ensures c in Run(Started(workers), actions + Flat(rounds)).handed
  {
    var s := Run(Started(workers), actions);
    StartedInOrder(workers);
    hide Controlled, InOrder, Apply, Started;
    RunKeepsOrder(Started(workers), actions);
    WorkersStay(Started(workers), actions);
    RunInTwo(Started(workers), actions, Flat(rounds));
    RunIsIdle(s, Flat(rounds));
    IdleHasDrainedNothing(s);
    OfferedSplits(s);
    RoundsCatchUp(s, rounds, |s.offered|, w);
    RunKeepsOrder(s, Flat(rounds));
    QueuedIsWithin(s, c);
    OfferedIsWithin(s, Run(s, Flat(rounds)), c);
  }

  lemma OfferedSplits(s: State)
    requires InOrder(s)
    ensures |s.offered| == |s.handed| + |s.queue| + |s.drained|
  {
  }

  lemma QueuedIsWithin(s: State, c: Socket)
    requires InOrder(s) && c in s.queue
    ensures c in s.offered
  {
  }

  lemma OfferedIsWithin(s: State, s': State, c: Socket)
    requires InOrder(s') && c in s.offered && s.offered <= s'.offered && |s'.handed| >= |s.offered|
    ensures c in s'.handed
  {
    var k :| 0 <= k < |s.offered| && s.offered[k] == c;
    assert s'.offered[k] == c && s'.handed[k] == s'.offered[k];
  }

  lemma StartedInOrder(workers: nat)
    ensures Controlled(Started(workers)) && InOrder(Started(workers)) && |Started(workers).workers| == workers
  {
  }

  lemma IdleHasDrainedNothing(s: State)
    requires Controlled(s) && InOrder(s) && s.stopper.Idle?
    ensures s.drained == []
  {
  }

  // ---------------------------------------------------------------- does Stop return?

  /** A stopped server is quiescent whatever is tried. */
  lemma StoppedIsFinal(s: State, a: Action)
    requires Controlled(s) && s.stopper.Stopped?
    ensures Apply(s, a) == s
  {
  }

  predicate Stopping(s: State) {
    Controlled(s) && !s.stopper.Idle?
  }

  function WorkLeft(ws: seq<Worker>): nat {
    if ws == [] then 0
    else (match ws[0] case Handling(_) => 2 case Waiting => 1 case WorkerGone => 0) + WorkLeft(ws[1..])
  }

  function AcceptLeft(a: Acceptor): nat {
    match a
    case Offering(_) => 6
    case Refused(_) => 4
    case Loading => 3
    case Accepting => 2
    case Accepted(_) => 1
    case AcceptorGone => 0
  }

  function StopLeft(p: Stopper): nat {
    match p
    case Idle => 6
    case Flagged => 5
    case Unlistened => 4
    case Joined => 3
    case Draining(pending) => 2 + |pending|
    case Joining => 1
    case Stopped => 0
  }

  /** A bound on the steps that are left once `Stop` has begun; a queued socket takes two. */
  function Left(s: State): nat {
    StopLeft(s.stopper) + AcceptLeft(s.acceptor) + 2 * |s.queue| + WorkLeft(s.workers)
  }

  lemma {:induction false} WorkLeftUpdate(ws: seq<Worker>, i: nat, w: Worker)
    requires i < |ws|
    ensures WorkLeft(ws[i := w]) + WorkLeft([ws[i]]) == WorkLeft(ws) + WorkLeft([w])
    decreases |ws|
  {
    if i == 0 {
      assert ws[i := w][1..] == ws[1..];
    } else {
      WorkLeftUpdate(ws[1..], i - 1, w);
      assert ws[i := w][1..] == ws[1..][i - 1 := w];
    }
  }

  lemma {:induction false} WorkLeftBound(ws: seq<Worker>)
    ensures WorkLeft(ws) <= 2 * |ws|
    decreases |ws|
  {
    if ws != [] { WorkLeftBound(ws[1..]); }
  }

  lemma WorkerRunsOut(s: State, w: nat)
    requires w < |s.workers|
    ensures WorkerNext(s, w) == s || Left(WorkerNext(s, w)) < Left(s)
  {
    WorkLeftUpdate(s.workers, w, WorkerNext(s, w).workers[w]);
    assert s.workers[w := s.workers[w]] == s.workers;
  }

  lemma AcceptorRunsOut(s: State, client: Socket, failed: bool)
    requires s.running ==> s.acceptor.AcceptorGone?
    ensures AcceptorNext(s, client, failed) == s || Left(AcceptorNext(s, client, failed)) < Left(s)
  {
  }

  lemma StopRunsOut(s: State)
    requires Stopping(s)
    ensures StopNext(s) == s || Left(StopNext(s)) < Left(s)
  {
  }

  /** Once the stop has begun, every step of any thread brings its end nearer, or is none. */
  lemma StepsRunOut(s: State, a: Action)
    requires Stopping(s)
    ensures Stopping(Apply(s, a)) && |Apply(s, a).workers| == |s.workers|
    ensures Apply(s, a) == s || Left(Apply(s, a)) < Left(s)
  {
    StepKeepsControl(s, a);
    hide Controlled, Left;
    match a
    case AcceptorStep(client, failed) =>
      assert s.running ==> s.acceptor.AcceptorGone? by { FlagIsDown(s); }
      AcceptorRunsOut(s, client, failed);
    case WorkerStep(w) => if w < |s.workers| { WorkerRunsOut(s, w); }
    case StopStep => StopRunsOut(s);
  }

  lemma FlagIsDown(s: State)
    requires Stopping(s)
    ensures s.running ==> s.acceptor.AcceptorGone?
  {
  }

  lemma {:induction false} RunsRunOut(s: State, actions: seq<Action>)
    requires Stopping(s)
    ensures var s' := Run(s, actions); Stopping(s') && |s'.workers| == |s.workers| && Left(s') <= Left(s)
    ensures Left(Run(s, actions)) == Left(s) ==> forall a :: a in actions ==> Apply(s, a) == s
    decreases actions
  {
    hide Apply, Left, Stopping;
    if actions != [] {
      StepsRunOut(s, actions[0]);
      RunsRunOut(Apply(s, actions[0]), actions[1..]);
      forall a | a in actions && Left(Run(s, actions)) == Left(s) ensures Apply(s, a) == s {
        assert a == actions[0] || a in actions[1..];
      }
    }
  }

  /**
   A round in which every thread gets its turn: the stopping thread, each worker, and the acceptor, whose `accept`
   returns, with an error or with a new connection such as the one that wakes it.
   */
  ghost predicate Fair(s: State, round: seq<Action>) {
    && StopStep in round
    && (forall w :: 0 <= w < |s.workers| ==> WorkerStep(w) in round)
    && exists client, failed :: AcceptorStep(client, failed) in round && (failed || client !in s.accepted)
  }

  /** Nobody is stuck before the end: in a fair round somebody moves. */
  lemma FairMoves(s: State, round: seq<Action>)
    requires Stopping(s) && Fair(s, round) && forall a :: a in round ==> Apply(s, a) == s
    ensures s.stopper.Stopped?
  {
    assert StopNext(s) == Apply(s, StopStep) == s;
    if s.stopper.Unlistened? {
      var client, failed :| AcceptorStep(client, failed) in round && (failed || client !in s.accepted);
      assert AcceptorNext(s, client, failed) == Apply(s, AcceptorStep(client, failed)) == s;
      AcceptorMoves(s, client, failed);
    }
    if s.stopper.Joining? {
      forall w | 0 <= w < |s.workers| ensures s.workers[w].WorkerGone? {
        assert WorkerNext(s, w) == Apply(s, WorkerStep(w)) == s;
        WorkerMoves(s, w);
      }
    }
  }

  lemma WorkerMoves(s: State, w: nat)
    requires w < |s.workers| && s.queue == [] && s.stopWorkers
    ensures WorkerNext(s, w).workers == s.workers ==> s.workers[w].WorkerGone?
  {
    var ws := WorkerNext(s, w).workers;
    assert s.workers[w].Handling? ==> ws[w].Waiting?;
    assert s.workers[w].Waiting? ==> ws[w].WorkerGone?;
  }

  lemma AcceptorMoves(s: State, client: Socket, failed: bool)
    requires failed || client !in s.accepted
    ensures AcceptorNext(s, client, failed).acceptor == s.acceptor ==> s.acceptor.AcceptorGone?
  {
  }

  function Flat(rounds: seq<seq<Action>>): seq<Action> {
    if rounds == [] then [] else rounds[0] + Flat(rounds[1..])
  }

  /** Each round is fair in the state that the rounds before it lead to. */
  ghost predicate AllFair(s: State, rounds: seq<seq<Action>>)
    decreases rounds
  {
    rounds == [] || (Fair(s, rounds[0]) && AllFair(Run(s, rounds[0]), rounds[1..]))
  }

  lemma {:induction false} RunInTwo(s: State, first: seq<Action>, second: seq<Action>)
    ensures Run(s, first + second) == Run(Run(s, first), second)
    decreases first
  {
    hide Apply;
    if first == [] {
      assert first + second == second;
    } else {
      RunInTwo(Apply(s, first[0]), first[1..], second);
      assert (first + second)[1..] == first[1..] + second;
    }
  }

  lemma {:induction false} RoundsRunOut(s: State, rounds: seq<seq<Action>>)
    requires Stopping(s) && AllFair(s, rounds) && Left(s) <= |rounds|
    ensures Run(s, Flat(rounds)).stopper.Stopped?
    decreases |rounds|
  {
    hide Controlled, Fair, Apply;
    if s.stopper.Stopped? {
      StaysStopped(s, Flat(rounds));
    } else {
      RunsRunOut(s, rounds[0]);
      if Left(Run(s, rounds[0])) == Left(s) { FairMoves(s, rounds[0]); }
      RoundsRunOut(Run(s, rounds[0]), rounds[1..]);
      RunInTwo(s, rounds[0], Flat(rounds[1..]));
    }
  }

  lemma {:induction false} StaysStopped(s: State, actions: seq<Action>)
    requires Controlled(s) && s.stopper.Stopped?
    ensures Run(s, actions) == s
    decreases actions
  {
    if actions != [] {
      StoppedIsFinal(s, actions[0]);
      StaysStopped(s, actions[1..]);
    }
  }

  lemma {:induction false} WorkersStay(s: State, actions: seq<Action>)
    ensures |Run(s, actions).workers| == |s.workers|
    decreases actions
  {
    if actions != [] { WorkersStay(Apply(s, actions[0]), actions[1..]); }
  }

  /**
   `Stop` returns.  However the server got to where it was called, a bounded number of fair rounds, in any order of
   steps inside each, ends in a stopped server that has closed every accepted socket once and does nothing more.
   */
  lemma StopReturns(workers: nat, actions: seq<Action>, rounds: seq<seq<Action>>, later: seq<Action>)
    requires var s := Run(Started(workers), actions); !s.stopper.Idle? && AllFair(s, rounds)
    requires |rounds| >= 11 + 2 * MAX_PENDING + 2 * workers
    ensures var s := Run(Started(workers), actions + Flat(rounds));
      s.stopper.Stopped? && Run(s, later) == s && forall c :: s.closed[c] == if c in s.accepted then 1 else 0
  {
    var start := Run(Started(workers), actions);
    RunKeepsControl(Started(workers), actions);
    WorkersStay(Started(workers), actions);
    WorkLeftBound(start.workers);
    RoundsRunOut(start, rounds);
    RunInTwo(Started(workers), actions, Flat(rounds));
    StopClosesEverySocketOnce(workers, actions + Flat(rounds));
    RunKeepsControl(Started(workers), actions + Flat(rounds));
    StaysStopped(Run(Started(workers), actions + Flat(rounds)), later);
  }
}
