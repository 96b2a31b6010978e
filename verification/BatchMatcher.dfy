/**
 The reply reconciliation of `readMemoryBatch` (gui/mem/MemService.cpp).

 The backend may answer a batch in any order and may shorten blocks, so the service has to decide
 whether the reply can be explained by the requests.  It pairs each block, in arrival order, with
 the smallest still unpaired request of the same address that is large enough.  The theorem is that
 this greedy loop never refuses a reply that some pairing explains.
 */
module BatchMatcher {

  datatype Request = Request(address: nat, size: nat)
  datatype Block = Block(address: nat, size: nat)

  const MAX_READ_BYTES: nat := 16 * 1024 * 1024
  const NO_SIZE: nat := 0xFFFF_FFFF

  predicate Fits(r: Request, b: Block) {
    r.address == b.address && b.size <= r.size
  }

  ghost predicate Injective(f: seq<nat>) {
    forall i, j :: 0 <= i < j < |f| ==> f[i] != f[j]
  }

  /** `f` pairs block `k` with request `f[k]`; no request is used twice. */
  ghost predicate IsPairing(requests: seq<Request>, blocks: seq<Block>, f: seq<nat>) {
    && |f| == |blocks|
    && (forall k :: 0 <= k < |f| ==> f[k] < |requests| && Fits(requests[f[k]], blocks[k]))
    && Injective(f)
  }

  /** The reply is explainable: some pairing exists. */
  ghost predicate Explainable(requests: seq<Request>, blocks: seq<Block>) {
    exists f :: IsPairing(requests, blocks, f)
  }

  /** Redirect block `j` to request `r`; whoever used `r` gets the request block `j` gave up. */
  ghost function Exchange(f: seq<nat>, j: nat, r: nat): (g: seq<nat>)
    requires j < |f|
    ensures |g| == |f|
  {
    seq(|f|, k requires 0 <= k < |f| => if k == j then r else if f[k] == r then f[j] else f[k])
  }

  /** The exchange argument: choosing the tightest request that fits block `j` loses no solution. */
  lemma ExchangeKeepsPairing(requests: seq<Request>, blocks: seq<Block>, f: seq<nat>, j: nat, r: nat)
    requires IsPairing(requests, blocks, f)
    requires j < |blocks| && r < |requests| && Fits(requests[r], blocks[j])
    requires requests[r].size <= requests[f[j]].size
    requires forall k :: 0 <= k < j ==> f[k] != r
    ensures IsPairing(requests, blocks, Exchange(f, j, r))
    ensures Exchange(f, j, r)[..j] == f[..j] && Exchange(f, j, r)[j] == r
  {
    var g := Exchange(f, j, r);
    forall k | 0 <= k < |g| ensures g[k] < |requests| && Fits(requests[g[k]], blocks[k]) {
      if k != j && f[k] == r {
        assert Fits(requests[r], blocks[k]) && Fits(requests[f[j]], blocks[j]);
      }
    }
  }

  /** An injective map of n indices into n indices hits every index (pigeonhole). */
  lemma {:induction false} InjectiveIsOnto(f: seq<nat>, n: nat)
    requires Injective(f) && |f| == n
    requires forall k :: 0 <= k < n ==> f[k] < n
    ensures forall i :: 0 <= i < n ==> i in f
    decreases n
  {
    if n > 0 {
      var m := n - 1;
      // Index m is used: otherwise the first m values already exhaust 0..m and f[m] repeats one.
      assert m in f by {
        if m !in f {
          assert f[m] < m && f[m] !in f[..m];
          InjectiveIsOnto(f[..m], m);
          assert false;
        }
      }
      // Hand f[m] to the position that holds m, then recurse on one index less.
      var p :| 0 <= p < n && f[p] == m;
      var g := f[p := f[m]][..m];
      InjectiveIsOnto(g, m);
      forall i | 0 <= i < n ensures i in f {
        if i < m {
          assert i in g;
          var k :| 0 <= k < m && g[k] == i;
          assert i == if k == p then f[m] else f[k];
        }
      }
    }
  }

  /** The inner scan: the tightest unmarked request that fits `b`, or `|requests|` when there is none. */
  method BestFit(requests: seq<Request>, matched: array<bool>, b: Block) returns (best: nat)
    requires matched.Length == |requests|
    requires forall i :: 0 <= i < |requests| ==> requests[i].size <= MAX_READ_BYTES
    ensures best <= |requests|
    ensures best < |requests| ==> !matched[best] && Fits(requests[best], b)
    ensures forall k :: 0 <= k < |requests| && !matched[k] && Fits(requests[k], b) ==>
      best < |requests| && requests[best].size <= requests[k].size
  {
    best := |requests|;
    var bestSize := NO_SIZE;
    for i := 0 to |requests|
      invariant best == |requests| ==> bestSize == NO_SIZE
      invariant best != |requests| ==>
        best < i && !matched[best] && Fits(requests[best], b) && bestSize == requests[best].size
      invariant forall k :: 0 <= k < i && !matched[k] && Fits(requests[k], b) ==>
        best != |requests| && bestSize <= requests[k].size
    {
      if !matched[i] && Fits(requests[i], b) && requests[i].size < bestSize {
        best, bestSize := i, requests[i].size;
      }
    }
  }

  /** The choices made so far: `f` pairs the first `|f|` blocks. */
  ghost predicate IsPartial(requests: seq<Request>, blocks: seq<Block>, f: seq<nat>) {
    && |f| <= |blocks|
    && (forall k :: 0 <= k < |f| ==> f[k] < |requests| && Fits(requests[f[k]], blocks[k]))
    && Injective(f)
  }

  /** If a pairing extends the choices so far, the next block still has an unused request. */
  lemma NextBlockHasFreeRequest(requests: seq<Request>, blocks: seq<Block>, f: seq<nat>, w: seq<nat>)
    requires IsPairing(requests, blocks, w) && |f| < |blocks| && w[..|f|] == f
    ensures w[|f|] < |requests| && w[|f|] !in f && Fits(requests[w[|f|]], blocks[|f|])
  {
    forall k | 0 <= k < |f| ensures f[k] != w[|f|] { assert w[..|f|][k] == w[k]; }
  }

  /** Best fit keeps an explanation alive: some pairing extends the choices including the new one. */
  lemma BestFitKeepsExplanation(requests: seq<Request>, blocks: seq<Block>, f: seq<nat>, w: seq<nat>, best: nat)
      returns (w': seq<nat>)
    requires IsPairing(requests, blocks, w) && |f| < |blocks| && w[..|f|] == f
    requires best < |requests| && best !in f && Fits(requests[best], blocks[|f|])
    requires forall k :: 0 <= k < |requests| && k !in f && Fits(requests[k], blocks[|f|]) ==>
      requests[best].size <= requests[k].size
    ensures IsPairing(requests, blocks, w') && w'[..|f| + 1] == f + [best]
  {
    NextBlockHasFreeRequest(requests, blocks, f, w);
    forall k | 0 <= k < |f| ensures w[k] != best { assert w[..|f|][k] == f[k]; }
    ExchangeKeepsPairing(requests, blocks, w, |f|, best);
    w' := Exchange(w, |f|, best);
    assert w'[..|f| + 1] == w'[..|f|] + [best];
  }

  /**
   The nested loop of the source; `f` records which request each block marked.  It accepts exactly
   the explainable replies, and on acceptance the marks are a bijection between blocks and requests.
   */
  method MatchBlocks(requests: seq<Request>, blocks: seq<Block>)
      returns (accepted: bool, f: seq<nat>)
    requires |requests| == |blocks|
    requires forall i :: 0 <= i < |requests| ==> requests[i].size <= MAX_READ_BYTES
    ensures accepted <==> Explainable(requests, blocks)
    ensures accepted ==> IsPairing(requests, blocks, f)
    ensures accepted ==> forall i :: 0 <= i < |requests| ==> i in f
  {
    var matched := new bool[|requests|](_ => false);
    f := [];
    ghost var feasible := Explainable(requests, blocks);
    ghost var w: seq<nat> := [];
    if feasible { w :| IsPairing(requests, blocks, w); }
    for j := 0 to |blocks|
      invariant |f| == j && IsPartial(requests, blocks, f)
      invariant forall i :: 0 <= i < |requests| ==> (matched[i] <==> i in f)
      invariant feasible ==> IsPairing(requests, blocks, w) && w[..j] == f
    {
      var best := BestFit(requests, matched, blocks[j]);
      if best == |requests| {
        if feasible { NextBlockHasFreeRequest(requests, blocks, f, w); }
        return false, f;
      }
      if feasible { w := BestFitKeepsExplanation(requests, blocks, f, w, best); }
      matched[best] := true;
      f := f + [best];
    }
    assert IsPairing(requests, blocks, f);
    InjectiveIsOnto(f, |requests|);
    accepted := true;
  }
}
