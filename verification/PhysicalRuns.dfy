/**
 Map queries of engine/android/AndroidKernelDriver.cpp: `QueryMaps`, and with `showPhysical` the
 extraction of the physically present runs of each map entry.
 */
module PhysicalRuns {
  import opened Basics
  import Modular

  datatype Protection = NoAccess | ReadOnly | ReadWrite | ExecuteRead | ExecuteReadWrite

  datatype MapEntry = MapEntry(start: nat, end: nat, readable: bool, writable: bool, executable: bool,
                               shared: bool, path: string)

  datatype Region = Region(base: nat, size: nat, protection: Protection, mapped: bool, name: string)
  {
    function End(): nat { base + size }
  }

  const NAME_CAPACITY: nat := 4096

  predicate Executes(p: Protection) { p.ExecuteRead? || p.ExecuteReadWrite? }

  predicate Writes(p: Protection) { p.ReadWrite? || p.ExecuteReadWrite? }

  /** `ConvertMapEntry`: the entry's range, rights and name, the name cut to what its field holds. */
  function Convert(e: MapEntry): (r: Region)
    ensures r.base == e.start && r.End() == if e.start < e.end then e.end else e.start
    ensures Executes(r.protection) <==> e.executable
    ensures Writes(r.protection) <==> e.writable
    ensures r.protection.NoAccess? <==> !e.readable && !e.writable && !e.executable
    ensures r.mapped == e.shared
    ensures r.name <= e.path && |r.name| < NAME_CAPACITY && (|e.path| < NAME_CAPACITY ==> r.name == e.path)
    ensures |e.path| >= NAME_CAPACITY ==> |r.name| == NAME_CAPACITY - 1
  {
    Region(e.start,
           if e.end > e.start then e.end - e.start else 0,
           if e.executable then if e.writable then ExecuteReadWrite else ExecuteRead
           else if e.writable then ReadWrite
           else if e.readable then ReadOnly
           else NoAccess,
           e.shared,
           if |e.path| < NAME_CAPACITY then e.path else e.path[..NAME_CAPACITY - 1])
  }

  /** Some region holds the address. */
  ghost predicate Covers(regions: seq<Region>, x: nat) {
    exists i :: 0 <= i < |regions| && regions[i].base <= x < regions[i].End()
  }

  /** Non-empty, ascending, and with a hole between any two. */
  ghost predicate Gapped(regions: seq<Region>) {
    && (forall i :: 0 <= i < |regions| ==> regions[i].size > 0)
    && forall i, j :: 0 <= i < j < |regions| ==> regions[i].End() < regions[j].base
  }

  /** The address that is probed for `x`: the start of its page, counted from the entry's start. */
  function PageOf(start: nat, pageSize: nat, x: nat): nat
    requires 0 < pageSize && start <= x
  {
    start + (x - start) / pageSize * pageSize
  }

  /**
   The maximal runs of present pages of one entry.  `valid` tells for each probed address whether a
   physical page backs it.
   */
  ghost predicate AreRuns(e: MapEntry, pageSize: nat, valid: nat -> bool, regions: seq<Region>)
    requires 0 < pageSize
  {
    && Gapped(regions)
    && (forall i :: 0 <= i < |regions| ==>
      && e.start <= regions[i].base && regions[i].End() <= e.end
      && regions[i] == Convert(e).(base := regions[i].base, size := regions[i].size))
    && forall x :: e.start <= x < e.end ==> (Covers(regions, x) <==> valid(PageOf(e.start, pageSize, x)))
  }

  // ---- Each answer is the only one ----

  lemma SameStart(r: seq<Region>, s: seq<Region>)
    requires Gapped(r) && Gapped(s) && |s| > 0
    requires forall x :: Covers(r, x) <==> Covers(s, x)
    ensures |r| > 0 && r[0].base <= s[0].base
  {
    assert s[0].base <= s[0].base < s[0].End();
    assert Covers(s, s[0].base);
    var i :| 0 <= i < |r| && r[i].base <= s[0].base < r[i].End();
    assert r[0].base <= r[i].base;
  }

  /** The addresses just before and just after a region are in none. */
  lemma HolesBeside(r: seq<Region>, i: nat)
    requires Gapped(r) && i < |r|
    ensures !Covers(r, r[i].End())
    ensures r[i].base > 0 ==> !Covers(r, r[i].base - 1)
  {
    forall j | 0 <= j < |r| ensures !(r[j].base <= r[i].End() < r[j].End()) {
      assert i < j || j < i || j == i;
    }
    forall j | 0 <= j < |r| ensures !(r[j].base <= r[i].base - 1 < r[j].End()) {
      assert i < j || j < i || j == i;
    }
  }

  lemma SameEnd(r: seq<Region>, s: seq<Region>)
    requires Gapped(r) && Gapped(s) && |r| > 0 && |s| > 0 && r[0].base == s[0].base
    requires forall x :: Covers(r, x) <==> Covers(s, x)
    ensures r[0].End() <= s[0].End()
  {
    HolesBeside(s, 0);
    assert !Covers(r, s[0].End());
  }

  lemma TailCovers(r: seq<Region>, x: nat)
    requires Gapped(r) && |r| > 0
    ensures Covers(r[1..], x) <==> Covers(r, x) && x >= r[0].End()
  {
    if Covers(r[1..], x) {
      var i :| 0 <= i < |r[1..]| && r[1..][i].base <= x < r[1..][i].End();
      assert r[i + 1] == r[1..][i];
    }
    if Covers(r, x) && x >= r[0].End() {
      var i :| 0 <= i < |r| && r[i].base <= x < r[i].End();
      assert r[i] == r[1..][i - 1];
    }
  }

  /** Ascending regions with holes between them are determined by the addresses they hold. */
  lemma {:induction false} GappedUnique(r: seq<Region>, s: seq<Region>)
    requires Gapped(r) && Gapped(s)
    requires forall x :: Covers(r, x) <==> Covers(s, x)
    ensures |r| == |s| && forall i :: 0 <= i < |r| ==> r[i].base == s[i].base && r[i].size == s[i].size
    decreases |r|
  {
    if |r| == 0 || |s| == 0 {
      if |s| > 0 { SameStart(r, s); }
      if |r| > 0 { SameStart(s, r); }
    } else {
      SameStart(r, s);
      SameStart(s, r);
      SameEnd(r, s);
      SameEnd(s, r);
      forall x ensures Covers(r[1..], x) <==> Covers(s[1..], x) {
        TailCovers(r, x);
        TailCovers(s, x);
      }
      GappedUnique(r[1..], s[1..]);
      forall i | 0 <= i < |r| ensures r[i].base == s[i].base && r[i].size == s[i].size {
        if i > 0 { assert r[i] == r[1..][i - 1] && s[i] == s[1..][i - 1]; }
      }
    }
  }

  /** One entry and one set of present pages have exactly one list of runs. */
  lemma RunsUnique(e: MapEntry, pageSize: nat, valid: nat -> bool, r: seq<Region>, s: seq<Region>)
    requires 0 < pageSize && AreRuns(e, pageSize, valid, r) && AreRuns(e, pageSize, valid, s)
    ensures r == s
  {
    forall x: nat ensures Covers(r, x) <==> Covers(s, x) {
      assert Covers(r, x) ==> e.start <= x < e.end;
      assert Covers(s, x) ==> e.start <= x < e.end;
    }
    GappedUnique(r, s);
  }

  /** A run can be extended on neither side. */
  lemma RunsAreMaximal(e: MapEntry, pageSize: nat, valid: nat -> bool, r: seq<Region>, i: nat)
    requires 0 < pageSize && AreRuns(e, pageSize, valid, r) && i < |r|
    ensures forall x :: r[i].base <= x < r[i].End() ==> valid(PageOf(e.start, pageSize, x))
    ensures r[i].End() < e.end ==> !valid(PageOf(e.start, pageSize, r[i].End()))
    ensures r[i].base > e.start ==> !valid(PageOf(e.start, pageSize, r[i].base - 1))
  {
    forall x | r[i].base <= x < r[i].End() ensures valid(PageOf(e.start, pageSize, x)) {
      assert Covers(r, x);
    }
    HolesBeside(r, i);
  }

  // ---- The scan ----

  /** Every address of the page at `addr` is probed at `addr`. */
  lemma PageOfWithin(start: nat, pageSize: nat, k: nat, x: nat)
    requires 0 < pageSize && start + k * pageSize <= x < start + (k + 1) * pageSize
    ensures start <= x && PageOf(start, pageSize, x) == start + k * pageSize
  {
    var d := x - start;
    assert (k + 1) * pageSize == k * pageSize + pageSize;
    var r := d - k * pageSize;
    assert d == pageSize * k + r;
    DivisionUnique(d, pageSize, k, r);
  }

  lemma DivisionUnique(d: nat, n: nat, q: nat, r: nat)
    requires 0 < n && r < n && d == n * q + r
    ensures d / n == q
  {
    var p := d / n;
    assert d == p * n + d % n && d == q * n + r;
    Modular.RemainderUnique(n, p, d % n, q, r);
    assert p * n == q * n;
    SameQuotient(n, p, q);
    SameQuotient(n, q, p);
  }

  lemma SameQuotient(n: nat, p: nat, q: nat)
    requires 0 < n && p * n == q * n
    ensures p >= q
  {
    assert (p + 1) * n == p * n + n;
    if p < q { Modular.ProductMonotone(p + 1, q, n); }
  }

  /** What the scan has settled: below `addr`, present addresses are covered or in the open run. */
  ghost predicate Scanned(e: MapEntry, pageSize: nat, valid: nat -> bool, done: seq<Region>, open: Option<nat>,
                          addr: nat)
    requires 0 < pageSize
  {
    && Gapped(done)
    && (forall i :: 0 <= i < |done| ==>
      && e.start <= done[i].base && done[i].End() < addr && done[i].End() < e.end
      && done[i] == Convert(e).(base := done[i].base, size := done[i].size))
    && (open.Some? ==>
      && e.start <= open.value < addr && open.value < e.end
      && forall i :: 0 <= i < |done| ==> done[i].End() < open.value)
    && forall x :: e.start <= x < addr && x < e.end ==>
      ((Covers(done, x) || (open.Some? && open.value <= x)) <==> valid(PageOf(e.start, pageSize, x)))
  }

  lemma CoversAppend(done: seq<Region>, r: Region, x: nat)
    ensures Covers(done + [r], x) <==> Covers(done, x) || r.base <= x < r.End()
  {
    if Covers(done, x) {
      var i :| 0 <= i < |done| && done[i].base <= x < done[i].End();
      assert (done + [r])[i] == done[i];
    }
    if r.base <= x < r.End() {
      assert (done + [r])[|done|] == r;
    }
  }

  lemma NotCoveredBeyond(done: seq<Region>, addr: nat, x: nat)
    requires forall i :: 0 <= i < |done| ==> done[i].End() < addr
    requires addr <= x
    ensures !Covers(done, x)
  {
  }

  /** One probe of the page at `addr`, up to `next`. */
  lemma ProbeScans(e: MapEntry, pageSize: nat, valid: nat -> bool, done: seq<Region>, open: Option<nat>,
                   addr: nat, next: nat, done': seq<Region>, open': Option<nat>)
    requires 0 < pageSize && e.start <= addr < next && addr < e.end
    requires Scanned(e, pageSize, valid, done, open, addr)
    requires forall x :: addr <= x < next ==> PageOf(e.start, pageSize, x) == addr
    requires valid(addr) ==> done' == done && open' == (if open.Some? then open else Some(addr))
    requires !valid(addr) ==> open' == None
    requires !valid(addr) ==>
      done' == if open.Some? then done + [Convert(e).(base := open.value, size := addr - open.value)] else done
    ensures Scanned(e, pageSize, valid, done', open', next)
  {
    forall x | e.start <= x < next && x < e.end
      ensures (Covers(done', x) || (open'.Some? && open'.value <= x)) <==> valid(PageOf(e.start, pageSize, x))
    {
      if !valid(addr) && open.Some? {
        CoversAppend(done, Convert(e).(base := open.value, size := addr - open.value), x);
      }
      if addr <= x {
        assert PageOf(e.start, pageSize, x) == addr;
        NotCoveredBeyond(done, addr, x);
      }
    }
  }

  lemma ScanCloses(e: MapEntry, pageSize: nat, valid: nat -> bool, done: seq<Region>, open: Option<nat>,
                   addr: nat, runs: seq<Region>)
    requires 0 < pageSize && Scanned(e, pageSize, valid, done, open, addr) && e.end <= addr
    requires runs == if open.Some? then done + [Convert(e).(base := open.value, size := e.end - open.value)] else done
    ensures AreRuns(e, pageSize, valid, runs)
  {
    forall x | e.start <= x < e.end ensures Covers(runs, x) <==> valid(PageOf(e.start, pageSize, x)) {
      if open.Some? {
        CoversAppend(done, Convert(e).(base := open.value, size := e.end - open.value), x);
      }
    }
  }

  /**
   The scan of one entry.  The guard against overflow of the 64-bit `addr` never cuts a run short: when
   it fires, no page is left.
   */
  method ExtractRuns(e: MapEntry, pageSize: nat, valid: nat -> bool) returns (out: seq<Region>)
    requires 0 < pageSize && e.start <= U64_MAX && e.end <= U64_MAX
    ensures AreRuns(e, pageSize, valid, out)
  {
    var region := Convert(e);
    out := [];
    var inPhysicalRange, current := false, region;
    var addr := e.start;
    ghost var k, next := 0, e.start;
    while addr < e.end
      invariant next == e.start + k * pageSize && (addr < e.end ==> addr == next)
      invariant next < e.end ==> addr == next
      invariant inPhysicalRange ==> current == region.(base := current.base)
      invariant Scanned(e, pageSize, valid, out, if inPhysicalRange then Some(current.base) else None, next)
      decreases e.end - addr
    {
      ghost var before, open := out, if inPhysicalRange then Some(current.base) else None;
      if valid(addr) && !inPhysicalRange {
        inPhysicalRange := true;
        current := region.(base := addr);
      } else if !valid(addr) && inPhysicalRange {
        inPhysicalRange := false;
        current := current.(size := addr - current.base);
        out := out + [current];
      }
      assert (k + 1) * pageSize == k * pageSize + pageSize;
      forall x | addr <= x < addr + pageSize ensures PageOf(e.start, pageSize, x) == addr {
        PageOfWithin(e.start, pageSize, k, x);
      }
      k, next := k + 1, addr + pageSize;
      ProbeScans(
        e, pageSize, valid, before, open, addr, next, out, if inPhysicalRange then Some(current.base) else None);
      if U64_MAX - addr < pageSize { break; }
      addr := addr + pageSize;
    }
    ScanCloses(e, pageSize, valid, out, if inPhysicalRange then Some(current.base) else None, next,
      if inPhysicalRange then out + [current.(size := e.end - current.base)] else out);
    if inPhysicalRange {
      current := current.(size := e.end - current.base);
      out := out + [current];
    }
  }

  // ---- All entries ----

  function Flatten(parts: seq<seq<Region>>): seq<Region> {
    if parts == [] then [] else Flatten(parts[..|parts| - 1]) + parts[|parts| - 1]
  }

  /** What one entry contributes to the answer. */
  ghost predicate IsPart(e: MapEntry, showPhysical: bool, pageSize: nat, valid: nat -> bool, part: seq<Region>)
    requires 0 < pageSize
  {
    if showPhysical then AreRuns(e, pageSize, valid, part) else part == [Convert(e)]
  }

  /**
   `QueryMaps` of an open process: every entry contributes, in order, itself or its physical runs.
   False, with nothing returned, without a valid handle, a driver or any map.
   */
  method QueryMaps(processHandle: nat, driverOpen: bool, maps: seq<MapEntry>, showPhysical: bool,
                   pageSize: nat, valid: nat -> bool)
      returns (ok: bool, out: seq<Region>, ghost parts: seq<seq<Region>>)
    requires 0 < pageSize && forall i :: 0 <= i < |maps| ==> maps[i].start <= U64_MAX && maps[i].end <= U64_MAX
    ensures ok <==> 0 < processHandle <= 0x7FFF_FFFF && driverOpen && maps != []
    ensures !ok ==> out == []
    ensures ok ==> |parts| == |maps| && out == Flatten(parts)
    ensures ok ==> forall i :: 0 <= i < |maps| ==> IsPart(maps[i], showPhysical, pageSize, valid, parts[i])
  {
    out, parts := [], [];
    ok := 0 < processHandle <= 0x7FFF_FFFF && driverOpen && maps != [];
    if !ok { return; }
    for i := 0 to |maps|
      invariant |parts| == i && out == Flatten(parts)
      invariant forall j :: 0 <= j < i ==> IsPart(maps[j], showPhysical, pageSize, valid, parts[j])
    {
      var part := [Convert(maps[i])];
      if showPhysical { part := ExtractRuns(maps[i], pageSize, valid); }
      out := out + part;
      assert (parts + [part])[..i] == parts;
      parts := parts + [part];
    }
  }

  ghost predicate Ascending(regions: seq<Region>) {
    forall i, j :: 0 <= i < j < |regions| ==> regions[i].End() <= regions[j].base
  }

  /** From maps in address order without overlap come physical regions in address order without overlap. */
  lemma {:induction false} RegionsAscend(maps: seq<MapEntry>, pageSize: nat, valid: nat -> bool,
                                         parts: seq<seq<Region>>, limit: nat)
    requires 0 < pageSize && |parts| == |maps|
    requires forall i, j :: 0 <= i < j < |maps| ==> maps[i].end <= maps[j].start
    requires forall i :: 0 <= i < |maps| ==> AreRuns(maps[i], pageSize, valid, parts[i])
    requires forall i :: 0 <= i < |maps| ==> maps[i].start <= maps[i].end <= limit
    ensures Ascending(Flatten(parts))
    ensures forall i :: 0 <= i < |Flatten(parts)| ==> Flatten(parts)[i].End() <= limit
    decreases |maps|
  {
    if |maps| > 0 {
      var n := |maps| - 1;
      RegionsAscend(maps[..n], pageSize, valid, parts[..n], maps[n].start);
    }
  }

  lemma {:induction false} FlattenCovers(parts: seq<seq<Region>>, x: nat)
    ensures Covers(Flatten(parts), x) <==> exists i :: 0 <= i < |parts| && Covers(parts[i], x)
  {
    if |parts| > 0 {
      var n := |parts| - 1;
      FlattenCovers(parts[..n], x);
      CoversConcat(Flatten(parts[..n]), parts[n], x);
      if i :| 0 <= i < |parts| && Covers(parts[i], x) {
        assert i < n ==> parts[..n][i] == parts[i];
      }
    }
  }

  lemma CoversConcat(r: seq<Region>, s: seq<Region>, x: nat)
    ensures Covers(r + s, x) <==> Covers(r, x) || Covers(s, x)
  {
    if i :| 0 <= i < |r| && r[i].base <= x < r[i].End() { assert (r + s)[i] == r[i]; }
    if i :| 0 <= i < |s| && s[i].base <= x < s[i].End() { assert (r + s)[|r| + i] == s[i]; }
  }

  /** The physical regions hold exactly the addresses of map entries whose page is present. */
  lemma RegionsCoverPresentPages(maps: seq<MapEntry>, pageSize: nat, valid: nat -> bool, parts: seq<seq<Region>>,
                                 x: nat)
    requires 0 < pageSize && |parts| == |maps|
    requires forall i :: 0 <= i < |maps| ==> AreRuns(maps[i], pageSize, valid, parts[i])
    ensures Covers(Flatten(parts), x)
      <==> exists i :: 0 <= i < |maps| && maps[i].start <= x < maps[i].end && valid(PageOf(maps[i].start, pageSize, x))
  {
    FlattenCovers(parts, x);
    forall i | 0 <= i < |maps|
      ensures Covers(parts[i], x) <==> maps[i].start <= x < maps[i].end && valid(PageOf(maps[i].start, pageSize, x))
    {
      assert AreRuns(maps[i], pageSize, valid, parts[i]);
    }
  }
}
