/**
 The read operations of the service (gui/mem/MemService.cpp): single and batched memory reads, module
 pages and pointer chains.  Every answer of the backend is a parameter: what the checks before and after
 the device call observe, and what the device replied.
 */
module MemReads {
  import opened Basics
  import opened LittleEndian
  import opened Text
  import opened TargetSeqlock
  import opened ServiceContext
  import opened BatchMatcher
  import opened ModuleNames

  const MAX_BATCH_COUNT: nat := 4096
  const MAX_BATCH_BYTES: nat := 16 * 1024 * 1024
  const MAX_MODULE_PAGE: nat := 1000
  const MAX_POINTER_OFFSETS: nat := 1024

  // ---- One block ----

  datatype DataBlock = DataBlock(address: nat, bytes: seq<Byte>, target: Snapshot)

  /** The range is non-empty, within the service limit and inside the address space. */
  predicate ReadableRange(address: nat, size: nat) {
    0 < size <= MAX_READ_BYTES && address + (size - 1) <= U64_MAX
  }

  /** `readMemory`. */
  function ReadMemory(c: Context, address: nat, size: nat, before: Observation, reply: Option<seq<Byte>>,
                      after: Observation): (r: Result<DataBlock>)
    ensures r.Success? ==> Bracketed(c, before, after) && reply == Some(r.value.bytes) && 0 < |r.value.bytes| <= size
    ensures r.Success? ==> r.value.address == address && Some(r.value.target) == c.target
    ensures r.Success? <==>
      && ReadableRange(address, size) && Passes(c, before) && Passes(c, after)
      && reply.Some? && 0 < |reply.value| <= size
  {
    if size == 0 || size > MAX_READ_BYTES then Fail(InvalidArgument, false)
    else if address > U64_MAX - (size - 1) then Fail(InvalidArgument, false)
    else if !Passes(c, before) then Refused(c, before)
    else if reply.None? then Unanswered(c, after)
    else if reply.value == [] || |reply.value| > size then Fail(ProtocolError, false)
    else if !Passes(c, after) then Refused(c, after)
    else Success(DataBlock(address, reply.value, c.target.value))
  }

  // ---- Batches ----

  function TotalBytes(items: seq<Request>): nat {
    if items == [] then 0 else TotalBytes(items[..|items| - 1]) + items[|items| - 1].size
  }

  lemma {:induction false} TotalGrows(items: seq<Request>, i: nat)
    requires i <= |items|
    ensures TotalBytes(items[..i]) <= TotalBytes(items)
    decreases |items|
  {
    if i < |items| {
      TotalGrows(items[..|items| - 1], i);
      assert items[..|items| - 1][..i] == items[..i];
    } else {
      assert items[..i] == items;
    }
  }

  predicate ReadableItems(items: seq<Request>) {
    && 0 < |items| <= MAX_BATCH_COUNT
    && (forall i :: 0 <= i < |items| ==> ReadableRange(items[i].address, items[i].size))
    && TotalBytes(items) <= MAX_BATCH_BYTES
  }

  /** The checks on the request: the running total refuses exactly the batches too large together. */
  method CheckItems(items: seq<Request>) returns (ok: bool)
    ensures ok <==> ReadableItems(items)
  {
    if items == [] || |items| > MAX_BATCH_COUNT { return false; }
    var total := 0;
    for i := 0 to |items|
      invariant total == TotalBytes(items[..i]) <= MAX_BATCH_BYTES
      invariant forall j :: 0 <= j < i ==> ReadableRange(items[j].address, items[j].size)
    {
      var item := items[i];
      assert items[..i + 1][..i] == items[..i];
      TotalGrows(items, i + 1);
      if item.size == 0 || item.size > MAX_READ_BYTES || total > MAX_BATCH_BYTES - item.size { return false; }
      if item.address > U64_MAX - (item.size - 1) { return false; }
      total := total + item.size;
    }
    assert items[..|items|] == items;
    return true;
  }

  /** What the matcher looks at. */
  function Shapes(blocks: seq<DataBlock>): (r: seq<Block>)
    ensures |r| == |blocks| && forall i :: 0 <= i < |r| ==> r[i] == Block(blocks[i].address, |blocks[i].bytes|)
  {
    seq(|blocks|, i requires 0 <= i < |blocks| => Block(blocks[i].address, |blocks[i].bytes|))
  }

  /** The blocks, each with the target it was read from. */
  function Labelled(blocks: seq<DataBlock>, target: Snapshot): (r: seq<DataBlock>)
    ensures |r| == |blocks| && forall i :: 0 <= i < |r| ==> r[i] == blocks[i].(target := target)
  {
    seq(|blocks|, i requires 0 <= i < |blocks| => blocks[i].(target := target))
  }

  /**
   `readMemoryBatch`.  It hands out the backend's blocks, in the backend's order, exactly when the request
   is within the limits, the context stands on both sides and some pairing explains the reply.
   */
  method ReadMemoryBatch(c: Context, items: seq<Request>, before: Observation, reply: Option<seq<DataBlock>>,
                         after: Observation) returns (r: Result<seq<DataBlock>>)
    ensures r ==
      if !ReadableItems(items) then Fail(InvalidArgument, false)
      else if !Passes(c, before) then Refused(c, before)
      else if reply.None? then Unanswered(c, after)
      else if |reply.value| != |items| || !Explainable(items, Shapes(reply.value)) then Fail(ProtocolError, false)
      else if !Passes(c, after) then Refused(c, after)
      else Success(Labelled(reply.value, c.target.value))
    ensures r.Success? ==> Bracketed(c, before, after)
  {
    var inLimits := CheckItems(items);
    if !inLimits { return Fail(InvalidArgument, false); }
    if !Passes(c, before) { return Refused(c, before); }
    if reply.None? { return Unanswered(c, after); }
    var blocks := reply.value;
    if |blocks| != |items| { return Fail(ProtocolError, false); }
    var explained, _ := MatchBlocks(items, Shapes(blocks));
    if !explained { return Fail(ProtocolError, false); }
    if !Passes(c, after) { return Refused(c, after); }
    return Success(Labelled(blocks, c.target.value));
  }

  // ---- Module pages ----

  datatype Page = Page(items: seq<Module>, offset: nat, total: nat, next: Option<nat>)

  /** The filter occurs somewhere in the lower-cased name. */
  ghost predicate Listed(m: Module, filter: string) {
    exists k :: 0 <= k && MatchAt(Lower(m.name), filter, k)
  }

  /** The test of the loop. */
  predicate PassesFilter(m: Module, filter: string) {
    filter == "" || FindFrom(Lower(m.name), filter, 0).Some?
  }

  lemma FilterIff(m: Module, filter: string)
    ensures PassesFilter(m, filter) <==> Listed(m, filter)
  {
    if filter == "" { assert MatchAt(Lower(m.name), filter, 0); }
  }

  /** The listed modules, in order. */
  ghost function Filtered(ms: seq<Module>, filter: string): (r: seq<Module>)
    ensures forall m :: m in r <==> m in ms && Listed(m, filter)
  {
    if ms == [] then []
    else
      var r, last := Filtered(ms[..|ms| - 1], filter), ms[|ms| - 1];
      if Listed(last, filter) then r + [last] else r
  }

  /** `list` is made of the listed modules of `ms`, at these places, in order. */
  ghost predicate ArePlaces(ms: seq<Module>, filter: string, list: seq<Module>, places: seq<nat>) {
    && |places| == |list|
    && (forall k :: 0 <= k < |places| ==> places[k] < |ms| && list[k] == ms[places[k]] && Listed(list[k], filter))
    && (forall j, k :: 0 <= j < k < |places| ==> places[j] < places[k])
    && forall i :: 0 <= i < |ms| && Listed(ms[i], filter) ==> i in places
  }

  lemma PlacesOneMore(ms: seq<Module>, filter: string, list: seq<Module>, places: seq<nat>, m: Module)
    requires ArePlaces(ms, filter, list, places)
    ensures Listed(m, filter) ==> ArePlaces(ms + [m], filter, list + [m], places + [|ms|])
    ensures !Listed(m, filter) ==> ArePlaces(ms + [m], filter, list, places)
  {
    hide Listed;
    var places' := places + [|ms|];
    assert |ms| in places' && forall i :: i in places ==> i in places';
  }

  /** Filtering keeps each listed module once, in its place among the others. */
  lemma {:induction false} FilteredInOrder(ms: seq<Module>, filter: string) returns (places: seq<nat>)
    ensures ArePlaces(ms, filter, Filtered(ms, filter), places)
  {
    hide Listed, ArePlaces;
    if ms == [] {
      places := [];
      NoPlaces(filter);
    } else {
      var n := |ms| - 1;
      var early := FilteredInOrder(ms[..n], filter);
      PlacesOneMore(ms[..n], filter, Filtered(ms[..n], filter), early, ms[n]);
      assert ms == ms[..n] + [ms[n]];
      places := if Listed(ms[n], filter) then early + [n] else early;
    }
  }

  lemma NoPlaces(filter: string)
    ensures ArePlaces([], filter, [], [])
  {
  }

  function PageOf(list: seq<Module>, offset: nat, limit: nat): Page {
    var from := if offset < |list| then offset else |list|;
    var end := if |list| < from + limit then |list| else from + limit;
    Page(list[from..end], from, |list|, if end < |list| then Some(end) else None)
  }

  /** All pages from `offset` on, following `next`. */
  function Walk(list: seq<Module>, offset: nat, limit: nat): seq<Module>
    requires 0 < limit
    decreases |list| - offset
  {
    var page := PageOf(list, offset, limit);
    if page.next.None? then page.items else page.items + Walk(list, page.next.value, limit)
  }

  /** Following the pages of one list from the start gives the whole list, for every page size. */
  lemma {:induction false} PagesTile(list: seq<Module>, offset: nat, limit: nat)
    requires 0 < limit && offset <= |list|
    ensures Walk(list, offset, limit) == list[offset..]
    decreases |list| - offset
  {
    var page := PageOf(list, offset, limit);
    if page.next.Some? {
      PagesTile(list, page.next.value, limit);
    }
  }

  /** `listModules`: a page of the listed modules, taken while the context stood at every check. */
  method ListModules(c: Context, filter: string, offset: nat, limit: nat, before: Observation,
                     reply: Option<seq<Module>>, between: Observation, after: Observation)
      returns (r: Result<Page>)
    ensures r ==
      if !(0 < limit <= MAX_MODULE_PAGE) || |filter| > MAX_TEXT_BYTES then Fail(InvalidArgument, false)
      else if !Passes(c, before) then Refused(c, before)
      else if reply.None? then Unanswered(c, between)
      else if !Passes(c, between) then Refused(c, between)
      else if !ValidList(reply.value) then Fail(ProtocolError, false)
      else if !Passes(c, after) then Refused(c, after)
      else Success(PageOf(Filtered(reply.value, Lower(filter)), offset, limit))
    ensures r.Success? ==> Bracketed(c, before, after)
  {
    if limit == 0 || limit > MAX_MODULE_PAGE || |filter| > MAX_TEXT_BYTES { return Fail(InvalidArgument, false); }
    if !Passes(c, before) { return Refused(c, before); }
    if reply.None? { return Unanswered(c, between); }
    if !Passes(c, between) { return Refused(c, between); }
    var ms := reply.value;
    var invalid := ValidateModules(ms);
    if invalid.Some? { return Failure(invalid.value); }
    var lowered, filtered := Lower(filter), [];
    for i := 0 to |ms|
      invariant filtered == Filtered(ms[..i], lowered)
    {
      assert ms[..i + 1][..i] == ms[..i];
      FilterIff(ms[i], lowered);
      if PassesFilter(ms[i], lowered) { filtered := filtered + [ms[i]]; }
    }
    assert ms[..|ms|] == ms;
    var from := if offset < |filtered| then offset else |filtered|;
    var end := if |filtered| < from + limit then |filtered| else from + limit;
    var items, i := [], from;
    while i < end
      invariant from <= i <= end && items == filtered[from..i]
    {
      items := items + [filtered[i]];
      i := i + 1;
    }
    if !Passes(c, after) { return Refused(c, after); }
    return Success(Page(items, from, |filtered|, if end < |filtered| then Some(end) else None));
  }

  // ---- Pointer chains ----

  lemma {:induction false} WordGrows(s: seq<Byte>, b: Byte)
    ensures Word(s + [b]) == Word(s) + b * Pow256(|s|)
  {
    if s != [] {
      assert (s + [b])[1..] == s[1..] + [b];
      WordGrows(s[1..], b);
      assert 256 * (b * Pow256(|s| - 1)) == b * (256 * Pow256(|s| - 1));
    } else {
      assert (s + [b])[1..] == [];
    }
  }

  /** `decodePointer`: eight bytes, least significant first. */
  method DecodePointer(bytes: seq<Byte>) returns (r: Option<nat>)
    ensures r == if |bytes| == 8 then Some(Word(bytes)) else None
  {
    if |bytes| != 8 { return None; }
    var value: nat, scale: nat := 0, 1;
    for i := 0 to 8
      invariant value == Word(bytes[..i]) && scale == Pow256(i)
    {
      assert bytes[..i + 1] == bytes[..i] + [bytes[i]];
      WordGrows(bytes[..i], bytes[i]);
      value, scale := value + bytes[i] * scale, 256 * scale;
    }
    assert bytes[..8] == bytes;
    return Some(value);
  }

  /** `addAddressOffset`. */
  function AddOffset(base: nat, offset: nat): (r: Option<nat>)
    ensures r.Some? <==> base + offset <= U64_MAX
    ensures r.Some? ==> r.value == base + offset
  {
    if base + offset <= U64_MAX then Some(base + offset) else None
  }

  /** The backend inside a pointer transaction: what check `k` sees and what read `k` of an address brings. */
  datatype Transaction = Transaction(look: nat -> Observation, read: (nat, nat) -> Option<seq<Byte>>)

  /** One hop: the pointer stored at `a`, plus the offset. */
  predicate Hops(c: Context, t: Transaction, k: nat, a: nat, offset: nat, next: nat) {
    && ValidateContext(c, t.look(k), true, false, true).None?
    && var bytes := t.read(k, a);
    && bytes.Some? && |bytes.value| == 8 && Word(bytes.value) + offset == next <= U64_MAX
  }

  /** The addresses of a whole chain: each is the pointer at the one before, plus its offset. */
  ghost predicate IsChain(c: Context, t: Transaction, start: nat, offsets: seq<nat>, chain: seq<nat>) {
    && |chain| == |offsets| + 1 && chain[0] == start
    && forall k :: 0 <= k < |offsets| ==> Hops(c, t, k, chain[k], offsets[k], chain[k + 1])
  }

  /** The hops asked for: the final dereference is one more, with no offset. */
  function AllHops(offsets: seq<nat>, final: bool): (hops: seq<nat>)
    ensures |hops| == |offsets| + if final then 1 else 0
    ensures forall k :: 0 <= k < |hops| ==> hops[k] == if k < |offsets| then offsets[k] else 0
  {
    if final then offsets + [0] else offsets
  }

  /** There is at most one chain, and a break ends every one. */
  lemma {:induction false} ChainUnique(c: Context, t: Transaction, start: nat, offsets: seq<nat>, p: seq<nat>,
                                       q: seq<nat>, k: nat)
    requires k <= |offsets| && |p| == k + 1 && IsChain(c, t, start, offsets[..k], p) && IsChain(c, t, start, offsets, q)
    ensures p == q[..k + 1]
  {
    if k > 0 {
      var p' := p[..k];
      forall j | 0 <= j < k - 1 ensures Hops(c, t, j, p'[j], offsets[..k - 1][j], p'[j + 1]) {
        assert Hops(c, t, j, p[j], offsets[..k][j], p[j + 1]);
      }
      ChainUnique(c, t, start, offsets, p', q, k - 1);
      assert p[k - 1] == p'[k - 1] == q[..k][k - 1];
      assert Hops(c, t, k - 1, p[k - 1], offsets[..k][k - 1], p[k]);
      assert Hops(c, t, k - 1, q[k - 1], offsets[k - 1], q[k]);
      assert p == p' + [p[k]];
    }
  }

  lemma ChainExtends(c: Context, t: Transaction, start: nat, offsets: seq<nat>, p: seq<nat>, k: nat, next: nat)
    requires k < |offsets| && IsChain(c, t, start, offsets[..k], p) && Hops(c, t, k, p[k], offsets[k], next)
    ensures IsChain(c, t, start, offsets[..k + 1], p + [next])
  {
    forall j | 0 <= j < k + 1 ensures Hops(c, t, j, (p + [next])[j], offsets[..k + 1][j], (p + [next])[j + 1]) {
      if j < k { assert Hops(c, t, j, p[j], offsets[..k][j], p[j + 1]); }
    }
  }

  lemma ChainHop(c: Context, t: Transaction, start: nat, offsets: seq<nat>, p: seq<nat>, k: nat, q: seq<nat>)
    requires k < |offsets| && IsChain(c, t, start, offsets[..k], p) && IsChain(c, t, start, offsets, q)
    ensures Hops(c, t, k, p[k], offsets[k], q[k + 1])
  {
    ChainUnique(c, t, start, offsets, p, q, k);
    assert p[k] == q[..k + 1][k];
  }

  lemma BrokenChain(c: Context, t: Transaction, start: nat, offsets: seq<nat>, p: seq<nat>, k: nat)
    requires k < |offsets| && IsChain(c, t, start, offsets[..k], p)
    requires forall next :: !Hops(c, t, k, p[k], offsets[k], next)
    ensures forall q :: !IsChain(c, t, start, offsets, q)
  {
    forall q ensures !IsChain(c, t, start, offsets, q) {
      if IsChain(c, t, start, offsets, q) { ChainHop(c, t, start, offsets, p, k, q); }
    }
  }

  /** The `dereference` lambda. */
  method Dereference(c: Context, t: Transaction, k: nat, a: nat, offset: nat) returns (next: Option<nat>)
    ensures next.Some? ==> Hops(c, t, k, a, offset, next.value)
    ensures next.None? ==> forall n :: !Hops(c, t, k, a, offset, n)
  {
    if ValidateContext(c, t.look(k), true, false, true).Some? { return None; }
    var bytes := t.read(k, a);
    if bytes.None? { return None; }
    var pointer := DecodePointer(bytes.value);
    if pointer.None? { return None; }
    next := AddOffset(pointer.value, offset);
  }

  /** Both loops of `resolvePointer`: hop after hop until one fails. */
  method FollowChain(c: Context, t: Transaction, start: nat, hops: seq<nat>)
      returns (end: Option<nat>, ghost chain: seq<nat>)
    ensures end.Some? ==> IsChain(c, t, start, hops, chain) && chain[|hops|] == end.value
    ensures end.None? ==> forall q :: !IsChain(c, t, start, hops, q)
  {
    var address := start;
    chain := [start];
    for k := 0 to |hops|
      invariant IsChain(c, t, start, hops[..k], chain) && chain[k] == address
    {
      var next := Dereference(c, t, k, address, hops[k]);
      if next.None? {
        BrokenChain(c, t, start, hops, chain, k);
        return None, chain;
      }
      ChainExtends(c, t, start, hops, chain, k, next.value);
      address, chain := next.value, chain + [next.value];
    }
    assert hops[..|hops|] == hops;
    end := Some(address);
  }

  /** The query resolves to `m` and `chain` starts at its base plus offset. */
  ghost predicate LeadsAlong(c: Context, t: Transaction, ms: seq<Module>, query: string, baseOffset: nat,
                             hops: seq<nat>, m: Module, chain: seq<nat>)
  {
    Resolves(ms, query, m) && m.base + baseOffset <= U64_MAX && IsChain(c, t, m.base + baseOffset, hops, chain)
  }

  /** The query resolves to a module whose base takes the offset. */
  ghost predicate Startable(ms: seq<Module>, query: string, baseOffset: nat) {
    query != "" && exists m :: Resolves(ms, query, m) && m.base + baseOffset <= U64_MAX
  }

  ghost predicate Leads(c: Context, t: Transaction, ms: seq<Module>, query: string, baseOffset: nat, hops: seq<nat>) {
    exists m, chain :: LeadsAlong(c, t, ms, query, baseOffset, hops, m, chain)
  }

  lemma NothingStarts(ms: seq<Module>, query: string, baseOffset: nat)
    requires query == "" || forall m :: !Resolves(ms, query, m)
    ensures !Startable(ms, query, baseOffset)
  {
  }

  lemma OnlyOneLeads(c: Context, t: Transaction, ms: seq<Module>, query: string, baseOffset: nat, hops: seq<nat>,
                     rep: Module, start: nat)
    requires query != "" && Resolves(ms, query, rep) && start == rep.base + baseOffset
    ensures Startable(ms, query, baseOffset) <==> start <= U64_MAX
    ensures start <= U64_MAX && (exists q :: IsChain(c, t, start, hops, q)) ==> Leads(c, t, ms, query, baseOffset, hops)
    ensures (forall q :: !IsChain(c, t, start, hops, q)) ==> !Leads(c, t, ms, query, baseOffset, hops)
  {
    forall m | Resolves(ms, query, m) ensures m == rep { ResolvesUnique(ms, query, m, rep); }
    forall q | start <= U64_MAX && IsChain(c, t, start, hops, q)
      ensures LeadsAlong(c, t, ms, query, baseOffset, hops, rep, q)
    {
    }
    if m, q :| LeadsAlong(c, t, ms, query, baseOffset, hops, m, q) {
      assert m == rep && IsChain(c, t, start, hops, q);
    }
  }

  predicate ValidChainRequest(name: string, offsets: seq<nat>) {
    0 < |name| <= MAX_TEXT_BYTES && |offsets| <= MAX_POINTER_OFFSETS
  }

  datatype Resolution = Resolution(rep: Module, start: nat, address: nat, count: nat, target: Snapshot)

  /**
   `resolvePointer`.  Success is exactly: a valid request, a context that stands at both ends, a module the
   name resolves to, and a chain of pointers from it; the answer is the chain's last address.  Short of that, the
   first thing that is missing gives the error.
   */
  method ResolvePointer(c: Context, name: string, baseOffset: nat, offsets: seq<nat>, final: bool,
                        before: Observation, began: bool, modules: Option<seq<Module>>, t: Transaction,
                        after: Observation)
      returns (r: Result<Resolution>, ghost chain: seq<nat>)
    ensures r.Success? ==>
      && Bracketed(c, before, after) && began && modules.Some? && 0 < |name| <= MAX_TEXT_BYTES
      && Resolves(modules.value, Lower(TrimAscii(name)), r.value.rep)
      && r.value.start == r.value.rep.base + baseOffset <= U64_MAX
      && IsChain(c, t, r.value.start, AllHops(offsets, final), chain)
      && r.value.address == chain[|chain| - 1] && r.value.count == |chain| - 1 && Some(r.value.target) == c.target
    ensures var query, hops := Lower(TrimAscii(name)), AllHops(offsets, final);
      if !ValidChainRequest(name, offsets) then r == Fail(InvalidArgument, false)
      else if !Passes(c, before) then r == Refused(c, before)
      else if !began then r == Unanswered(c, after)
      else if modules.None? then r == Fail(ProtocolError, true)
      else if !ValidList(modules.value) then r == Fail(ProtocolError, false)
      else if !Startable(modules.value, query, baseOffset) then r == Fail(InvalidArgument, false)
      else if !Leads(c, t, modules.value, query, baseOffset, hops) then r == Unanswered(c, after)
      else if !Passes(c, after) then r == Refused(c, after)
      else r.Success?
  {
    chain := [];
    hide Resolves, IsChain, Lower, TrimAscii, Passes, Stands, Bracketed, ValidateContext, Leads, Startable, ValidList,
      AllHops;
    if name == "" || |name| > MAX_TEXT_BYTES || |offsets| > MAX_POINTER_OFFSETS {
      return Fail(InvalidArgument, false), chain;
    }
    if !Passes(c, before) { return Refused(c, before), chain; }
    if !began { return Unanswered(c, after), chain; }
    if modules.None? { return Fail(ProtocolError, true), chain; }
    var invalid := ValidateModules(modules.value);
    if invalid.Some? { return Failure(invalid.value), chain; }
    var rep := ResolveByName(modules.value, name);
    if rep.Failure? {
      NothingStarts(modules.value, Lower(TrimAscii(name)), baseOffset);
      return Failure(rep.error), chain;
    }
    OnlyOneLeads(c, t, modules.value, Lower(TrimAscii(name)), baseOffset, AllHops(offsets, final), rep.value,
      rep.value.base + baseOffset);
    var start := AddOffset(rep.value.base, baseOffset);
    if start.None? { return Fail(InvalidArgument, false), chain; }
    var end;
    end, chain := FollowChain(c, t, start.value, AllHops(offsets, final));
    if end.None? { return Unanswered(c, after), chain; }
    if !Passes(c, after) { return Refused(c, after), chain; }
    PassedStands(c, before);
    PassedStands(c, after);
    BothStand(c, before, after);
    r := Success(Resolution(rep.value, start.value, end.value, |AllHops(offsets, final)|, c.target.value));
  }
}
