/**
 Loading a module's symbols page by page (`loadSymbolTable`, gui/mem/MemService.cpp) from the list that the
 engine keeps (`SymbolGetList`, engine/ceserver/api.cpp).
 */
module SymbolTable {
  import opened Basics
  import opened TargetSeqlock
  import opened ServiceContext
  import opened ModuleNames

  const MAX_SYMBOL_COUNT: nat := 1_000_000
  const MAX_SYMBOL_NAME_BYTES_TOTAL: nat := 64 * 1024 * 1024

  datatype Symbol = Symbol(name: string, address: nat)

  /** One page, and the total the backend reports with it. */
  datatype PageReply = PageReply(page: seq<Symbol>, total: int)

  /** The backend's answer to a request for `count` symbols from `offset` on. */
  type Fetcher = (nat, nat) -> Option<PageReply>

  /** How many symbols page `k` asks for; pages hold 1000. */
  function Wanted(total: nat, k: nat): nat {
    if total <= 1000 * k then 0 else if total - 1000 * k < 1000 then total - 1000 * k else 1000
  }

  /** The loop condition: there is still something to ask for. */
  predicate PageLeft(total: nat, k: nat) {
    1000 * k < total
  }

  function PageCount(total: nat): (n: nat)
    ensures 1000 * n < total + 1000 && total <= 1000 * n
  {
    (total + 999) / 1000
  }

  /** Page `k` is one that the loop takes: answered, of the same table, and no longer than asked. */
  predicate Accepted(fetch: Fetcher, total: nat, k: nat) {
    var reply := fetch(1000 * k, Wanted(total, k));
    reply.Some? && reply.value.total == total && |reply.value.page| <= Wanted(total, k)
  }

  /** The symbols that page `k` brings in. */
  function PageAt(fetch: Fetcher, total: nat, k: nat): (page: seq<Symbol>)
    ensures |page| <= Wanted(total, k)
  {
    if Accepted(fetch, total, k) then fetch(1000 * k, Wanted(total, k)).value.page else []
  }

  /** Page `k` came whole, of a table of this size. */
  predicate Full(fetch: Fetcher, total: nat, k: nat) {
    var reply := fetch(1000 * k, Wanted(total, k));
    reply.Some? && reply.value.total == total && |reply.value.page| == Wanted(total, k)
  }

  /** The first `n` pages put together. */
  function Joined(fetch: Fetcher, total: nat, n: nat): seq<Symbol> {
    if n == 0 then [] else Joined(fetch, total, n - 1) + PageAt(fetch, total, n - 1)
  }

  /** So many symbols the first `n` pages ask for. */
  function AskedFor(total: nat, n: nat): nat {
    if total < 1000 * n then total else 1000 * n
  }

  /** Pages bring in at most what was asked for, and exactly that only if every one is full. */
  lemma {:induction false} FullByCount(fetch: Fetcher, total: nat, n: nat)
    requires forall k :: 0 <= k < n ==> Accepted(fetch, total, k)
    ensures |Joined(fetch, total, n)| <= AskedFor(total, n)
    ensures |Joined(fetch, total, n)| == AskedFor(total, n) <==> forall k :: 0 <= k < n ==> Full(fetch, total, k)
  {
    if n > 0 {
      var m := n - 1;
      FullByCount(fetch, total, m);
      assert AskedFor(total, n) == AskedFor(total, m) + Wanted(total, m);
      assert Accepted(fetch, total, m);
      assert |Joined(fetch, total, n)| == |Joined(fetch, total, m)| + |PageAt(fetch, total, m)|;
      if forall k :: 0 <= k < n ==> Full(fetch, total, k) {
        assert Full(fetch, total, m);
      }
      if |Joined(fetch, total, n)| == AskedFor(total, n) {
        assert Full(fetch, total, m);
      }
    }
  }

  /** Names are bounded one by one and together. */
  predicate NamesFit(s: seq<Symbol>) {
    (forall i :: 0 <= i < |s| ==> |s[i].name| <= MAX_NAME_BYTES) && SymbolNameBytes(s) <= MAX_SYMBOL_NAME_BYTES_TOTAL
  }

  function SymbolNameBytes(s: seq<Symbol>): nat {
    if s == [] then 0 else SymbolNameBytes(s[..|s| - 1]) + |s[|s| - 1].name|
  }

  lemma {:induction false} NamesFitPrefix(s: seq<Symbol>, t: seq<Symbol>)
    requires NamesFit(s + t)
    ensures NamesFit(s)
    decreases |t|
  {
    if t == [] {
      assert s + t == s;
    } else {
      var n := |t| - 1;
      assert (s + t)[..|s + t| - 1] == s + t[..n];
      assert forall i :: 0 <= i < |s + t[..n]| ==> (s + t)[i] == (s + t[..n])[i];
      NamesFitPrefix(s, t[..n]);
    }
  }

  lemma OneMoreName(s: seq<Symbol>, symbol: Symbol)
    requires NamesFit(s)
    ensures SymbolNameBytes(s + [symbol]) == SymbolNameBytes(s) + |symbol.name|
    ensures NamesFit(s + [symbol]) <==>
      |symbol.name| <= MAX_NAME_BYTES && SymbolNameBytes(s) <= MAX_SYMBOL_NAME_BYTES_TOTAL - |symbol.name|
  {
    var t := s + [symbol];
    assert t[..|t| - 1] == s && t[|s|] == symbol;
  }

  /** The inner loop: the page's symbols are appended while their names fit. */
  method AppendPage(items: seq<Symbol>, nameBytes: nat, page: seq<Symbol>)
      returns (ok: bool, items': seq<Symbol>, nameBytes': nat)
    requires NamesFit(items) && nameBytes == SymbolNameBytes(items)
    ensures ok <==> NamesFit(items + page)
    ensures ok ==> items' == items + page && nameBytes' == SymbolNameBytes(items')
  {
    hide NamesFit, SymbolNameBytes;
    items', nameBytes' := items, nameBytes;
    for i := 0 to |page|
      invariant items' == items + page[..i] && nameBytes' == SymbolNameBytes(items') && NamesFit(items')
    {
      var symbol := page[i];
      OneMoreName(items', symbol);
      assert items + page[..i + 1] == items' + [symbol];
      if |symbol.name| > MAX_NAME_BYTES || nameBytes' > MAX_SYMBOL_NAME_BYTES_TOTAL - |symbol.name| {
        assert items + page == (items' + [symbol]) + page[i + 1..];
        if NamesFit(items + page) { NamesFitPrefix(items' + [symbol], page[i + 1..]); }
        return false, items', nameBytes';
      }
      items', nameBytes' := items' + [symbol], nameBytes' + |symbol.name|;
    }
    assert page[..|page|] == page;
    ok := true;
  }

  /** Every page is taken and the names of all together fit. */
  ghost predicate AllPagesFull(fetch: Fetcher, total: nat) {
    forall k :: 0 <= k < PageCount(total) ==> Full(fetch, total, k)
  }

  /** One turn of the page loop. */
  method TakePage(fetch: Fetcher, total: nat, k: nat, items: seq<Symbol>, nameBytes: nat)
      returns (error: Option<Error>, items': seq<Symbol>, nameBytes': nat)
    requires k < PageCount(total) && items == Joined(fetch, total, k)
    requires NamesFit(items) && nameBytes == SymbolNameBytes(items)
    ensures error.None? ==>
      && Accepted(fetch, total, k) && items' == Joined(fetch, total, k + 1)
      && NamesFit(items') && nameBytes' == SymbolNameBytes(items')
    ensures error.Some? ==> error.value in {Error(SymbolSessionChanged, false, None), Error(ProtocolError, false, None)}
    ensures error.Some? ==> !(AllPagesFull(fetch, total) && NamesFit(Joined(fetch, total, PageCount(total))))
    ensures error.Some? && error.value.code == SymbolSessionChanged ==> !Accepted(fetch, total, k)
  {
    hide *;
    items', nameBytes' := items, nameBytes;
    if !Accepted(fetch, total, k) {
      NotAllFull(fetch, total, k);
      return Some(Error(SymbolSessionChanged, false, None)), items', nameBytes';
    }
    var ok;
    ok, items', nameBytes' := AppendPage(items, nameBytes, PageAt(fetch, total, k));
    JoinedGrows(fetch, total, k);
    if !ok {
      TooLongStays(fetch, total, k + 1, PageCount(total));
      return Some(Error(ProtocolError, false, None)), items', nameBytes';
    }
    error := None;
  }

  /**
   The page loop and the one count check after it.  A page shorter than asked for is not noticed when it
   comes, but nothing later can make up for it: the table is complete exactly when every page is full.
   */
  method LoadPages(fetch: Fetcher, total: nat) returns (r: Result<seq<Symbol>>)
    ensures r.Success? <==> AllPagesFull(fetch, total) && NamesFit(Joined(fetch, total, PageCount(total)))
    ensures r.Success? ==> |r.value| == total && r.value == Joined(fetch, total, PageCount(total))
    ensures r.Failure? ==> r.error in {Error(SymbolSessionChanged, false, None), Error(ProtocolError, false, None)}
    ensures r.Failure? && r.error.code == SymbolSessionChanged ==>
      exists k :: 0 <= k < PageCount(total) && !Accepted(fetch, total, k)
  {
    assert NamesFit([]) && SymbolNameBytes([]) == 0 && Joined(fetch, total, 0) == [];
    PagesLeft(total);
    hide *;
    var items, nameBytes, k := [], 0, 0;
    while PageLeft(total, k)
      invariant k <= PageCount(total)
      invariant forall j :: 0 <= j < k ==> Accepted(fetch, total, j)
      invariant items == Joined(fetch, total, k) && NamesFit(items) && nameBytes == SymbolNameBytes(items)
      decreases PageCount(total) - k
    {
      var error;
      error, items, nameBytes := TakePage(fetch, total, k, items, nameBytes);
      if error.Some? { return Failure(error.value); }
      k := k + 1;
    }
    CompleteIfFull(fetch, total, k);
    if |items| != total { return Failure(Error(ProtocolError, false, None)); }
    return Success(items);
  }

  lemma PagesLeft(total: nat)
    ensures forall k: nat :: PageLeft(total, k) <==> k < PageCount(total)
  {
  }

  lemma NotAllFull(fetch: Fetcher, total: nat, k: nat)
    requires k < PageCount(total) && !Accepted(fetch, total, k)
    ensures !AllPagesFull(fetch, total)
  {
    assert !Full(fetch, total, k);
  }

  lemma JoinedGrows(fetch: Fetcher, total: nat, k: nat)
    ensures Joined(fetch, total, k + 1) == Joined(fetch, total, k) + PageAt(fetch, total, k)
  {
  }

  lemma CompleteIfFull(fetch: Fetcher, total: nat, n: nat)
    requires n == PageCount(total) && forall k :: 0 <= k < n ==> Accepted(fetch, total, k)
    ensures |Joined(fetch, total, n)| == total <==> AllPagesFull(fetch, total)
  {
    FullByCount(fetch, total, n);
  }

  lemma {:induction false} TooLongStays(fetch: Fetcher, total: nat, k: nat, n: nat)
    requires k <= n && !NamesFit(Joined(fetch, total, k))
    ensures !NamesFit(Joined(fetch, total, n))
    decreases n
  {
    if k < n {
      TooLongStays(fetch, total, k, n - 1);
      var page := PageAt(fetch, total, n - 1);
      if NamesFit(Joined(fetch, total, n - 1) + page) { NamesFitPrefix(Joined(fetch, total, n - 1), page); }
    }
  }

  // ---- Against the engine's list ----

  /** `SymbolGetList`. */
  function SymbolGetList(list: seq<Symbol>, offset: int, count: int): seq<Symbol> {
    if offset < 0 || offset >= |list| || count <= 0 then []
    else list[offset..if offset + count < |list| then offset + count else |list|]
  }

  /** The backend passes on at least a first part of each slice of one list. */
  ghost predicate Serves(fetch: Fetcher, list: seq<Symbol>) {
    forall offset: nat, count: nat :: var reply := fetch(offset, count);
      reply.Some? ==> reply.value.page <= SymbolGetList(list, offset, count)
  }

  /** A table that loads from such a backend is the list: no gap, no duplicate, nothing missing. */
  lemma {:induction false} PagesAreTheList(fetch: Fetcher, list: seq<Symbol>, n: nat)
    requires Serves(fetch, list)
    requires forall k :: 0 <= k < n ==> Full(fetch, |list|, k)
    ensures Joined(fetch, |list|, n) == list[..AskedFor(|list|, n)]
  {
    if n > 0 {
      PagesAreTheList(fetch, list, n - 1);
      assert Full(fetch, |list|, n - 1);
      var page := PageAt(fetch, |list|, n - 1);
      var slice := SymbolGetList(list, 1000 * (n - 1), Wanted(|list|, n - 1));
      assert page <= slice && |slice| <= Wanted(|list|, n - 1);
      assert page == slice;
    }
  }

  lemma TableIsTheList(fetch: Fetcher, list: seq<Symbol>)
    requires Serves(fetch, list) && AllPagesFull(fetch, |list|)
    ensures Joined(fetch, |list|, PageCount(|list|)) == list
  {
    PagesAreTheList(fetch, list, PageCount(|list|));
  }

  // ---- The whole operation ----

  /** The module that the base of any of its pieces stands for. */
  ghost predicate Named(ms: seq<Module>, base: nat, rep: Module) {
    exists i: nat :: IsFirstAt(ms, base, i) && IsRep(ms, Key(ms[i]), rep)
  }

  lemma NamedUnique(ms: seq<Module>, base: nat, m: Module, n: Module)
    requires Named(ms, base, m) && Named(ms, base, n)
    ensures m == n
  {
    var i: nat :| IsFirstAt(ms, base, i) && IsRep(ms, Key(ms[i]), m);
    var j: nat :| IsFirstAt(ms, base, j) && IsRep(ms, Key(ms[j]), n);
    RepUnique(ms, Key(ms[i]), m, n);
  }

  /** The backend has a complete table of this size. */
  ghost predicate Loadable(total: Option<int>, fetch: Fetcher) {
    && total.Some? && 0 <= total.value <= MAX_SYMBOL_COUNT
    && AllPagesFull(fetch, total.value) && NamesFit(Joined(fetch, total.value, PageCount(total.value)))
  }

  datatype Table = Table(rep: Module, items: seq<Symbol>, target: Snapshot)

  /**
   `loadSymbolTable`.  `initialize` maps a module base to the symbol count of its table; the base asked for
   may be that of any piece of the module.
   */
  method LoadSymbolTable(c: Context, base: nat, before: Observation, began: bool, modules: Option<seq<Module>>,
                         initialize: nat -> Option<int>, fetch: Fetcher, after: Observation)
      returns (r: Result<Table>)
    ensures r.Success? ==>
      && base != 0 && Bracketed(c, before, after) && began && modules.Some? && ValidList(modules.value)
      && Named(modules.value, base, r.value.rep) && Some(r.value.target) == c.target
      && Loadable(initialize(r.value.rep.base), fetch) && initialize(r.value.rep.base) == Some(|r.value.items|)
      && r.value.items == Joined(fetch, |r.value.items|, PageCount(|r.value.items|))
    ensures r.Success? ==>
      forall list :: Serves(fetch, list) && initialize(r.value.rep.base) == Some(|list|) ==> r.value.items == list
    ensures r.Failure? ==>
      || base == 0 || !Passes(c, before) || !Passes(c, after) || !began || modules.None? || !ValidList(modules.value)
      || forall m :: Named(modules.value, base, m) ==> !Loadable(initialize(m.base), fetch)
    ensures base == 0 ==> r == Fail(InvalidArgument, false)
    ensures base != 0 && !Passes(c, before) ==> r == Refused(c, before)
  {
    if base == 0 { return Fail(InvalidArgument, false); }
    if !Passes(c, before) { return Refused(c, before); }
    if !began { return Unanswered(c, after); }
    if modules.None? { return Fail(ProtocolError, true); }
    var invalid := ValidateModules(modules.value);
    if invalid.Some? { return Failure(invalid.value); }
    var rep := ResolveByBase(modules.value, base);
    if rep.Failure? { return Failure(rep.error); }
    assert Named(modules.value, base, rep.value);
    forall m | Named(modules.value, base, m) ensures m == rep.value {
      NamedUnique(modules.value, base, m, rep.value);
    }
    var total := initialize(rep.value.base);
    if total.None? || total.value < 0 || total.value > MAX_SYMBOL_COUNT { return Fail(ProtocolError, true); }
    var pages := LoadPages(fetch, total.value);
    if pages.Failure? { return Failure(pages.error); }
    if !Passes(c, after) { return Refused(c, after); }
    forall list | Serves(fetch, list) && |list| == total.value ensures pages.value == list {
      TableIsTheList(fetch, list);
    }
    r := Success(Table(rep.value, pages.value, c.target.value));
  }
}
