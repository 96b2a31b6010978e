/**
 Process-wide breakpoints over per-thread driver slots (engine/android/KernelHwBreakpoint.hpp).

 The engine ignores what the driver answers when it removes, enables or disables a slot.  The model
 keeps that: the driver may refuse.  `leaked` is exactly the live slots that no entry owns: those whose
 removal was refused, and those of an add whose 32-bit number came round to a handle still in use.  `stale`
 is exactly the owned slots that are not switched as their entry says.
 */
module KernelBreakpoints {
  import opened Basics
  import opened BreakpointBooks

  /** How the driver takes requests to remove or switch a slot: it complies, it refuses, or either. */
  datatype Temper = Obliging | Stubborn | Fickle

  /**
   The slots this engine holds in the driver, each switched on or off; what each handle given out last watches;
   the installs asked for so far; and the slots that the driver was asked to remove and would not.
   */
  class Driver {
    const temper: Temper
    const generous: bool
    var live: map<Handle, bool>
    var sites: map<Handle, Site>
    ghost var asked: seq<Request>
    ghost var withheld: set<Handle>

    constructor (temper: Temper, generous: bool)
      ensures this.temper == temper && this.generous == generous && live == map[] && sites == map[]
      ensures asked == [] && withheld == {}
    {
      this.temper, this.generous := temper, generous;
      live, sites, asked, withheld := map[], map[], [], {};
    }

    /** A fresh slot, switched on, or nothing.  A forced install takes slots of other owners only. */
    method AddHardwareBreakpoint(tid: Tid, address: nat, len: nat, kind: nat, forceReclaim: bool)
        returns (handle: Handle)
      modifies this
      ensures handle == 0 ==> live == old(live) && sites == old(sites)
      ensures handle != 0 ==> handle !in old(live) && live == old(live)[handle := true]
      ensures handle != 0 ==> sites == old(sites)[handle := Site(tid, address, len, kind)]
      ensures generous ==> handle != 0
      ensures asked == old(asked) + [Request(Site(tid, address, len, kind), forceReclaim)]
      ensures withheld == old(withheld)
    {
      asked := asked + [Request(Site(tid, address, len, kind), forceReclaim)];
      handle := 0;
      var grant := generous;
      if * { grant := true; }
      if grant {
        UnusedHandleExists(live.Keys);
        handle :| handle != 0 && handle !in live;
        live, sites := live[handle := true], sites[handle := Site(tid, address, len, kind)];
      }
    }

    method RemoveHardwareBreakpoint(handle: Handle) returns (ok: bool)
      modifies this
      ensures live == if ok then old(live) - {handle} else old(live)
      ensures withheld == old(withheld) - {handle} + if !ok && handle in old(live) then {handle} else {}
      ensures sites == old(sites) && asked == old(asked)
      ensures temper.Obliging? && handle in old(live) ==> ok
      ensures temper.Stubborn? ==> !ok
    {
      ok := temper.Obliging?;
      if temper.Fickle? { ok := *; }
      withheld := withheld - {handle} + if !ok && handle in live then {handle} else {};
      if ok { live := live - {handle}; }
    }

    method SwitchHardwareBreakpoint(handle: Handle, on: bool) returns (ok: bool)
      modifies this
      ensures ok ==> handle in old(live)
      ensures live == if ok then old(live)[handle := on] else old(live)
      ensures withheld == old(withheld) && sites == old(sites) && asked == old(asked)
      ensures temper.Obliging? && handle in old(live) ==> ok
      ensures temper.Stubborn? ==> !ok
    {
      ok := temper.Obliging? && handle in live;
      if temper.Fickle? { ok := *; ok := ok && handle in live; }
      if ok { live := live[handle := on]; }
    }
  }

  class KernelHwBreakpoint {
    const driver: Driver
    var entries: map<nat, Entry>
    var sequence: nat
    ghost var owner: map<Handle, (nat, Tid)>
    ghost var leaked: set<Handle>
    ghost var stale: set<Handle>
    ghost var adds: nat

    /**
     The counter is the number of adds modulo 2^32.  Until it comes round, no entry's handle is above the
     number of adds, so that the next one is new.
     */
    ghost predicate Numbered()
      reads this
    {
      && sequence == adds % TWO_32
      && (adds < TWO_32 ==> forall k :: k in entries ==> HANDLE_TAG < k <= HANDLE_TAG + adds)
    }

    ghost predicate Valid()
      reads this, driver
    {
      && Inverts(entries, owner)
      && Accounted(driver.live, owner, leaked)
      && Switched(driver.live, entries, owner, stale)
      && FailuresApart(entries)
      && Numbered()
      && Sited(entries, driver.sites)
      && driver.withheld <= leaked
      && (adds < TWO_32 ==> leaked == driver.withheld)
      && (driver.temper.Obliging? && adds < TWO_32 ==> leaked == {} && stale == {})
    }

    ghost function Standing(): Books
      reads this, driver
    {
      Books(entries, driver.live, leaked, stale, driver.withheld)
    }

    /**
     Exact ownership, in every reachable state.  Every sub-handle is live, belongs to one entry and thread, and
     watches that thread at the entry's address, with its length and kind.
     The live slots are exactly the sub-handles if and only if `leaked` is empty, and every slot is switched
     as its entry says if and only if `stale` is empty.  Neither holds anything with a driver that complies,
     before the sequence number wraps; until then `leaked` is just what the driver refused to remove.
     */
    lemma ExactOwnership()
      requires Valid()
      ensures forall k, t :: k in entries && t in entries[k].subs ==> entries[k].subs[t] in driver.live
      ensures forall k, t :: k in entries && t in entries[k].subs ==>
        && entries[k].subs[t] in driver.sites
        && driver.sites[entries[k].subs[t]] == Site(t, entries[k].address, entries[k].len, entries[k].kind)
      ensures forall k, t, k', t' ::
        (k in entries && t in entries[k].subs && k' in entries && t' in entries[k'].subs
         && entries[k].subs[t] == entries[k'].subs[t']) ==> k == k' && t == t'
      ensures leaked == {} <==>
        forall x :: x in driver.live ==> exists k, t :: k in entries && t in entries[k].subs && entries[k].subs[t] == x
      ensures stale == {} <==>
        forall k, t :: k in entries && t in entries[k].subs ==> driver.live[entries[k].subs[t]] == entries[k].enabled
      ensures driver.temper.Obliging? && adds < TWO_32 ==> leaked == {} && stale == {}
      ensures driver.withheld <= leaked && (adds < TWO_32 ==> leaked == driver.withheld)
    {
      forall k | k in entries ensures SubsSited(entries[k], driver.sites) {
      }
      forall k, t, k', t' | k in entries && t in entries[k].subs && k' in entries && t' in entries[k'].subs
        && entries[k].subs[t] == entries[k'].subs[t']
        ensures k == k' && t == t'
      {
        assert owner[entries[k].subs[t]] == (k, t) && owner[entries[k'].subs[t']] == (k', t');
      }
      forall x | x in owner ensures owner[x].0 in entries && owner[x].1 in entries[owner[x].0].subs
        && entries[owner[x].0].subs[owner[x].1] == x
      {
      }
      forall x | x in leaked ensures x in driver.live
        && !(exists k, t :: k in entries && t in entries[k].subs && entries[k].subs[t] == x)
      {
        forall k, t | k in entries && t in entries[k].subs ensures entries[k].subs[t] != x {
          assert entries[k].subs[t] in owner;
        }
      }
      if stale != {} {
        var x :| x in stale;
        assert entries[owner[x].0].subs[owner[x].1] == x && driver.live[x] != entries[owner[x].0].enabled;
      }
    }

    constructor (driver: Driver)
      requires driver.live == map[] && driver.withheld == {}
      ensures Valid() && this.driver == driver && entries == map[] && adds == 0 && leaked == {} && stale == {}
    {
      this.driver := driver;
      entries, sequence := map[], 0;
      owner, leaked, stale, adds := map[], {}, {}, 0;
    }

    /** Try a plain install and, when the entry asks for it and the plain one is refused, a forced one. */
    method InstallForTid(tid: Tid, address: nat, len: nat, kind: nat, forceReclaim: bool)
        returns (handle: Handle, ghost plain: Handle)
      modifies driver
      ensures handle == 0 ==> driver.live == old(driver.live)
      ensures handle != 0 ==> handle !in old(driver.live) && driver.live == old(driver.live)[handle := true]
      ensures driver.generous ==> handle != 0
      ensures plain != 0 ==> handle == plain
      ensures driver.withheld == old(driver.withheld)
      ensures driver.sites ==
        if handle == 0 then old(driver.sites) else old(driver.sites)[handle := Site(tid, address, len, kind)]
      ensures driver.asked == old(driver.asked) + Asks(Site(tid, address, len, kind), plain == 0 && forceReclaim)
      ensures plain == 0 && !forceReclaim ==> handle == 0
    {
      handle := driver.AddHardwareBreakpoint(tid, address, len, kind, false);
      plain := handle;
      assert [Request(Site(tid, address, len, kind), false)] == Asks(Site(tid, address, len, kind), false);
      if handle != 0 || !forceReclaim { return; }
      handle := driver.AddHardwareBreakpoint(tid, address, len, kind, true);
    }

    /** Remove the driver slots of all given threads; `refused` are those the driver kept. */
    method RemoveSubs(subs: map<Tid, Handle>) returns (ghost refused: set<Handle>)
      requires subs.Values <= driver.live.Keys
      modifies driver
      ensures refused <= subs.Values
      ensures driver.live == old(driver.live) - (subs.Values - refused)
      ensures driver.withheld == (old(driver.withheld) - subs.Values) + refused
      ensures driver.sites == old(driver.sites) && driver.asked == old(driver.asked)
      ensures driver.temper.Obliging? ==> refused == {}
      ensures driver.temper.Stubborn? ==> refused == subs.Values
    {
      var todo := subs.Keys;
      ghost var freed: set<Handle> := {};
      VisitAll(subs);
      while |todo| > 0
        invariant todo <= subs.Keys && freed <= Visited(subs, todo)
        invariant driver.live == old(driver.live) - freed
        invariant driver.withheld == (old(driver.withheld) - Visited(subs, todo)) + (Visited(subs, todo) - freed)
        invariant driver.sites == old(driver.sites) && driver.asked == old(driver.asked)
        invariant driver.temper.Obliging? ==> freed == Visited(subs, todo)
        invariant driver.temper.Stubborn? ==> freed == {}
        decreases todo
      {
        hide Visited;
        var t: Tid :| t in todo;
        VisitOne(subs, todo, t);
        todo := todo - {t};
        assert subs[t] in subs.Values;
        var ok := driver.RemoveHardwareBreakpoint(subs[t]);
        if ok { freed := freed + {subs[t]}; }
      }
      assert todo == {};
      refused := subs.Values - freed;
    }

    /** Delete frees exactly the entry's own slots; the ones the driver keeps are the only leak. */
    method DelProcessHwBp(h: nat) returns (found: bool, ghost refused: set<Handle>)
      requires Valid()
      modifies this, driver
      ensures Valid() && adds == old(adds)
      ensures found <==> h in old(entries)
      ensures entries == old(entries) - {h}
      ensures stale == if found then old(stale) - old(entries)[h].subs.Values else old(stale)
      ensures owner == if found then old(owner) - old(entries)[h].subs.Values else old(owner)
      ensures leaked == old(leaked) + refused && driver.withheld == old(driver.withheld) + refused
      ensures !found ==> driver.live == old(driver.live) && refused == {}
      ensures found ==> refused <= old(entries)[h].subs.Values
      ensures found ==> driver.live == old(driver.live) - (old(entries)[h].subs.Values - refused)
      ensures driver.temper.Obliging? ==> refused == {}
      ensures driver.temper.Stubborn? && found ==> refused == old(entries)[h].subs.Values
    {
      refused := {};
      hide Inverts, Switched;
      found := h in entries;
      if !found { return; }
      ghost var mine := entries[h].subs.Values;
      OwnedAreLive(entries, driver.live, owner, leaked, h);
      refused := RemoveSubs(entries[h].subs);
      DeleteKeeps(entries, old(driver.live), owner, leaked, stale, h, refused);
      hide SubsSited;
      entries := entries - {h};
      owner := owner - mine;
      leaked := leaked + refused;
      stale := stale - mine;
    }

    /** Switch every slot of an entry; the entry's flag follows the request, not the driver. */
    method SwitchSubs(subs: map<Tid, Handle>, on: bool) returns (ghost refused: set<Handle>)
      requires subs.Values <= driver.live.Keys
      modifies driver
      ensures refused <= subs.Values
      ensures driver.live.Keys == old(driver.live).Keys && driver.withheld == old(driver.withheld)
      ensures driver.sites == old(driver.sites) && driver.asked == old(driver.asked)
      ensures forall x :: x in driver.live ==>
        driver.live[x] == if x in subs.Values && x !in refused then on else old(driver.live)[x]
      ensures driver.temper.Obliging? ==> refused == {}
      ensures driver.temper.Stubborn? ==> refused == subs.Values
    {
      var todo := subs.Keys;
      ghost var switched: set<Handle> := {};
      VisitAll(subs);
      while |todo| > 0
        invariant todo <= subs.Keys && switched <= Visited(subs, todo)
        invariant driver.live.Keys == old(driver.live).Keys && driver.withheld == old(driver.withheld)
        invariant driver.sites == old(driver.sites) && driver.asked == old(driver.asked)
        invariant forall x :: x in driver.live ==>
          driver.live[x] == if x in switched then on else old(driver.live)[x]
        invariant driver.temper.Obliging? ==> switched == Visited(subs, todo)
        invariant driver.temper.Stubborn? ==> switched == {}
        decreases todo
      {
        hide Visited;
        var t: Tid :| t in todo;
        VisitOne(subs, todo, t);
        todo := todo - {t};
        assert subs[t] in subs.Values;
        var ok := driver.SwitchHardwareBreakpoint(subs[t], on);
        if ok { switched := switched + {subs[t]}; }
      }
      assert todo == {};
      refused := subs.Values - switched;
    }

    /**
     Suspend (`on` false) and resume (`on` true).  Of the entry's slots exactly those become stale that stood
     otherwise and that the driver refused to switch.
     */
    method SetEnabled(h: nat, on: bool) returns (found: bool, ghost refused: set<Handle>)
      requires Valid()
      modifies this, driver
      ensures Valid() && owner == old(owner) && leaked == old(leaked) && adds == old(adds)
      ensures driver.withheld == old(driver.withheld)
      ensures found <==> h in old(entries)
      ensures !found ==> entries == old(entries) && driver.live == old(driver.live) && stale == old(stale)
      ensures found ==> entries == old(entries)[h := old(entries)[h].(enabled := on)]
      ensures found ==> driver.live.Keys == old(driver.live).Keys && refused <= old(entries)[h].subs.Values
      ensures found ==> stale == (old(stale) - old(entries)[h].subs.Values) + Wrong(old(driver.live), refused, on)
      ensures found ==> forall x :: x in driver.live ==>
        driver.live[x] == if x in old(entries)[h].subs.Values && x !in refused then on else old(driver.live)[x]
      ensures driver.temper.Obliging? ==> refused == {}
      ensures driver.temper.Stubborn? && found ==> refused == old(entries)[h].subs.Values
    {
      refused := {};
      hide Inverts, Switched, Wrong, Sited;
      found := h in entries;
      if !found { return; }
      ghost var mine := entries[h].subs.Values;
      OwnedAreLive(entries, driver.live, owner, leaked, h);
      refused := SwitchSubs(entries[h].subs, on);
      SwitchKeeps(entries, old(driver.live), driver.live, owner, leaked, stale, h, on);
      WrongAreRefused(old(driver.live), driver.live, mine, refused, on);
      WrongOfNone(old(driver.live), on);
      SitedSwitched(entries, h, on, driver.sites);
      entries := entries[h := entries[h].(enabled := on)];
      stale := (stale - mine) + Wrong(driver.live, mine, on);
    }

    /** Install a slot and bring it to the entry's on/off state; a refused switch leaves it on. */
    method InstallAs(tid: Tid, e: Entry) returns (dh: Handle, ghost plain: Handle)
      modifies driver
      ensures dh == 0 ==> driver.live == old(driver.live)
      ensures dh != 0 ==> dh !in old(driver.live) && dh in driver.live
      ensures dh != 0 ==> driver.live == old(driver.live)[dh := driver.live[dh]]
      ensures dh != 0 && (driver.temper.Obliging? || e.enabled) ==> driver.live[dh] == e.enabled
      ensures dh != 0 && driver.temper.Stubborn? ==> driver.live[dh]
      ensures driver.generous ==> dh != 0
      ensures driver.withheld == old(driver.withheld)
      ensures driver.sites == if dh == 0 then old(driver.sites) else old(driver.sites)[dh := SiteOf(e, tid)]
      ensures driver.asked == old(driver.asked) + Asks(SiteOf(e, tid), plain == 0 && e.forceReclaim)
      ensures plain != 0 ==> dh == plain
    {
      dh, plain := InstallForTid(tid, e.address, e.len, e.kind, e.forceReclaim);
      if dh != 0 && !e.enabled {
        var ok := driver.SwitchHardwareBreakpoint(dh, false);
        assert driver.live == old(driver.live)[dh := !ok];
      }
    }

    /**
     Try an install for every scanned thread that has no slot yet, on that thread and as the entry says; 0 records
     a refusal.
     */
    method InstallMissing(e: Entry, tids: seq<Tid>) returns (answers: map<Tid, Handle>)
      requires Distinct(tids)
      modifies driver
      ensures answers.Keys == Scanned(tids) - e.subs.Keys && OneToOne(Granted(answers))
      ensures driver.live.Keys == old(driver.live).Keys + Granted(answers).Values
      ensures old(driver.live).Keys !! Granted(answers).Values
      ensures forall x :: x in old(driver.live) ==> driver.live[x] == old(driver.live)[x]
      ensures Granted(answers).Values == {} ==> driver.live == old(driver.live)
      ensures driver.temper.Obliging? || e.enabled ==> Wrong(driver.live, Granted(answers).Values, e.enabled) == {}
      ensures driver.temper.Stubborn? ==> forall x :: x in Granted(answers).Values ==> driver.live[x]
      ensures driver.generous ==> Granted(answers) == answers
      ensures driver.withheld == old(driver.withheld)
      ensures GrantedSited(e, answers, driver.sites) && SitesStay(old(driver.live), old(driver.sites), driver.sites)
      ensures AskedFor(e, answers, old(driver.asked), driver.asked)
    {
      hide Granted, OneToOne, Gained, AllStand, Wrong, Scanned, Distinct, GrantedSited, SitesStay, AskedFor, Asks;
      ghost var before, sites, asked := driver.live, driver.sites, driver.asked;
      NothingSited(e, before, sites, asked);
      answers := map[];
      GrantedNone();
      NothingGained(before);
      NothingScannedYet(tids);
      for i := 0 to |tids|
        invariant answers.Keys == Scanned(tids[..i]) - e.subs.Keys && OneToOne(Granted(answers))
        invariant Gained(before, driver.live, Granted(answers).Values)
        invariant driver.temper.Obliging? || e.enabled ==> AllStand(driver.live, Granted(answers).Values, e.enabled)
        invariant driver.temper.Stubborn? ==> AllStand(driver.live, Granted(answers).Values, true)
        invariant driver.generous ==> Granted(answers) == answers
        invariant driver.withheld == old(driver.withheld)
        invariant GrantedSited(e, answers, driver.sites) && SitesStay(before, sites, driver.sites)
        invariant AskedFor(e, answers, asked, driver.asked)
      {
        ScannedOneMore(tids, i);
        if tids[i] !in e.subs {
          ghost var between, sitesBetween, askedBetween := driver.live, driver.sites, driver.asked;
          ghost var plain;
          var dh;
          dh, plain := InstallAs(tids[i], e);
          SiteOneMore(e, before, between, answers, tids[i], dh, sites, sitesBetween, driver.sites);
          AskOneMore(e, answers, tids[i], dh, plain == 0 && e.forceReclaim, asked, askedBetween, driver.asked);
          GainOne(before, between, driver.live, Granted(answers).Values, dh);
          GrantedOneMore(answers, tids[i], dh);
          answers := answers[tids[i] := dh];
        }
      }
      assert tids[..|tids|] == tids;
      GainMeans(before, driver.live, Granted(answers).Values, e.enabled);
    }

    /** `++mSeq`, a 32-bit counter, under the engine's tag bit. */
    method NextHandle() returns (handle: nat)
      requires Numbered()
      modifies `sequence, `adds
      ensures adds == old(adds) + 1 && sequence == adds % TWO_32 && handle == HANDLE_TAG + sequence
      ensures adds < TWO_32 ==> handle == HANDLE_TAG + adds && handle !in entries
      ensures adds < TWO_32 ==> forall k :: k in entries ==> HANDLE_TAG < k <= HANDLE_TAG + adds
    {
      sequence := (sequence + 1) % TWO_32;
      adds := adds + 1;
      handle := HANDLE_TAG + sequence;
    }

    /**
     Add: on failure nothing stays installed; on success one new entry owns exactly the new slots.
     Only when the sequence number has come round to a handle still in use does the table keep the
     old entry, and then the new slots are leaked.  The driver is asked for every thread, at the address.
     */
    method AddProcessHwBp(connected: bool, pid: int, address: nat, len: nat, kind: nat, force: bool, tids: seq<Tid>)
        returns (handle: nat, ghost answers: map<Tid, Handle>)
      requires Valid() && Distinct(tids)
      modifies this, driver
      ensures Valid() && stale == old(stale) && driver.withheld == old(driver.withheld)
      ensures pid <= 0 || address == 0 || !connected || tids == [] ==> handle == 0
      ensures handle == 0 ==> entries == old(entries) && driver.live == old(driver.live)
      ensures handle == 0 ==> leaked == old(leaked) && adds == old(adds)
      ensures pid > 0 && address != 0 && connected && tids != [] ==>
        && answers.Keys == Scanned(tids) && (handle == 0 <==> Granted(answers) == map[])
        && AskedFor(Entry(pid, address, len, kind, true, force, map[], {}), answers, old(driver.asked), driver.asked)
      ensures driver.generous && pid > 0 && address != 0 && connected && tids != [] ==> handle != 0
      ensures handle != 0 ==> adds == old(adds) + 1 && handle == HANDLE_TAG + adds % TWO_32
      ensures handle != 0 ==> driver.live.Keys > old(driver.live).Keys
      ensures handle != 0 && adds < TWO_32 ==> handle !in old(entries)
      ensures handle != 0 && handle in old(entries) ==> entries == old(entries)
      ensures handle != 0 && handle in old(entries) ==>
        leaked == old(leaked) + (driver.live.Keys - old(driver.live).Keys)
      ensures handle != 0 && handle !in old(entries) ==> leaked == old(leaked)
      ensures handle != 0 && handle !in old(entries) ==>
        && handle in entries && entries == old(entries)[handle := entries[handle]]
        && var e := entries[handle];
           && e == Entry(pid, address, len, kind, true, force, e.subs, e.failures)
           && e.subs == Granted(answers) && e.subs != map[]
           && e.subs.Keys + e.failures == Scanned(tids) && e.subs.Keys !! e.failures
           && driver.live.Keys == old(driver.live).Keys + e.subs.Values
           && old(driver.live).Keys !! e.subs.Values
    {
      hide AskedFor, SitesStay, GrantedSited, SubsSited, Sited, Switched, FailuresApart;
      handle, answers := 0, map[];
      if pid <= 0 || address == 0 || !connected || |tids| == 0 { return; }
      var blank := Entry(pid, address, len, kind, true, force, map[], {});
      var given := InstallMissing(blank, tids);
      answers := given;
      SomeAnswer(tids, given);
      SitedLater(entries, old(driver.live), owner, leaked, old(driver.sites), driver.sites);
      var e := blank.(subs := Granted(given), failures := Refused(given));
      GrantedAreSited(blank, e, given, driver.sites);
      if e.subs == map[] { return; }
      SomeValue(e.subs);
      handle := Emplace(old(driver.live), e);
    }

    /** Number the new entry and put it into the table, unless its number is still taken. */
    method Emplace(ghost before: map<Handle, bool>, e: Entry) returns (handle: nat)
      requires Inverts(entries, owner) && Accounted(before, owner, leaked) && Switched(before, entries, owner, stale)
      requires FailuresApart(entries) && Numbered()
      requires driver.withheld <= leaked && (adds < TWO_32 ==> leaked == driver.withheld)
      requires driver.temper.Obliging? && adds < TWO_32 ==> leaked == {} && stale == {}
      requires OneToOne(e.subs) && e.enabled && e.subs.Keys !! e.failures
      requires driver.live.Keys == before.Keys + e.subs.Values && before.Keys !! e.subs.Values
      requires forall x :: x in before ==> driver.live[x] == before[x]
      requires Wrong(driver.live, e.subs.Values, e.enabled) == {}
      requires Sited(entries, driver.sites) && SubsSited(e, driver.sites)
      modifies this
      ensures Valid() && stale == old(stale) && adds == old(adds) + 1 && handle == HANDLE_TAG + adds % TWO_32
      ensures entries == if handle in old(entries) then old(entries) else old(entries)[handle := e]
      ensures leaked == if handle in old(entries) then old(leaked) + e.subs.Values else old(leaked)
      ensures adds < TWO_32 ==> handle !in old(entries)
    {
      hide Inverts, Accounted, Switched, Grown, Wrong, SubsSited, Sited, OneToOne, FailuresApart,
        Claimed;
      handle := NextHandle();
      if handle in entries {
        LeakKeeps(entries, before, driver.live, owner, leaked, stale, e.subs.Values);
        leaked := leaked + e.subs.Values;
        return;
      }
      GrownNew(entries, handle, e);
      GrowKeeps(entries, before, driver.live, owner, leaked, stale, handle, e, e.subs);
      SitedNew(entries, handle, e, driver.sites);
      FailuresNew(entries, handle, e);
      assert stale + Wrong(driver.live, e.subs.Values, e.enabled) == stale;
      owner := Claimed(owner, handle, e.subs);
      entries := entries[handle := e];
    }

    /** The first pass of a rescan: follow new threads. */
    method AttachNew(h: nat, tids: seq<Tid>) returns (ghost answers: map<Tid, Handle>)
      requires Valid() && h in entries && Distinct(tids)
      modifies this, driver
      ensures Valid() && leaked == old(leaked) && adds == old(adds) && driver.withheld == old(driver.withheld)
      ensures answers.Keys == Scanned(tids) - old(entries)[h].subs.Keys
      ensures driver.generous ==> Granted(answers) == answers
      ensures var e := old(entries)[h]; entries == old(entries)[h := e.(
        subs := e.subs + Granted(answers), failures := (e.failures - Granted(answers).Keys) + Refused(answers))]
      ensures driver.live.Keys == old(driver.live).Keys + Granted(answers).Values
      ensures old(driver.live).Keys !! Granted(answers).Values
      ensures forall x :: x in old(driver.live) ==> driver.live[x] == old(driver.live)[x]
      ensures stale == old(stale) + Wrong(driver.live, Granted(answers).Values, old(entries)[h].enabled)
      ensures driver.temper.Obliging? || old(entries)[h].enabled ==> stale == old(stale)
      ensures driver.temper.Stubborn? ==> forall x :: x in Granted(answers).Values ==> driver.live[x]
      ensures AskedFor(old(entries)[h], answers, old(driver.asked), driver.asked)
    {
      hide Inverts, Accounted, Switched, Grown, Granted, Refused, Wrong, Sited, GrantedSited, SitesStay, AskedFor;
      var e := entries[h];
      var given := InstallMissing(e, tids);
      answers := given;
      var e' := e.(subs := e.subs + Granted(given), failures := (e.failures - Granted(given).Keys) + Refused(given));
      GrownKnown(entries, h, e', given);
      GrowKeeps(entries, old(driver.live), driver.live, owner, leaked, stale, h, e', Granted(given));
      FailuresStayApart(e, given);
      SitedLater(entries, old(driver.live), owner, leaked, old(driver.sites), driver.sites);
      SitedGrown(entries, h, e', given, driver.sites);
      owner := Claimed(owner, h, Granted(given));
      stale := stale + Wrong(driver.live, Granted(given).Values, e.enabled);
      entries := entries[h := e'];
    }

    /** The last passes of a rescan: give up the slots and the failure marks of unscanned threads. */
    method DetachGone(h: nat, tids: seq<Tid>) returns (ghost refused: set<Handle>)
      requires Valid() && h in entries
      modifies this, driver
      ensures Valid() && adds == old(adds) && driver.asked == old(driver.asked)
      ensures leaked == old(leaked) + refused && driver.withheld == old(driver.withheld) + refused
      ensures var e := old(entries)[h]; entries == old(entries)[h :=
        e.(subs := Kept(e.subs, Scanned(tids)), failures := e.failures * Scanned(tids))]
      ensures var gone := Dropped(old(entries)[h].subs, Scanned(tids)).Values;
        && refused <= gone && driver.live == old(driver.live) - (gone - refused) && stale == old(stale) - gone
      ensures driver.temper.Obliging? ==> refused == {}
    {
      hide Inverts, Accounted, Switched, Sited, Kept, Dropped, Scanned;
      var e := entries[h];
      var gone := Dropped(e.subs, Scanned(tids));
      OwnedAreLive(entries, driver.live, owner, leaked, h);
      DroppedWithin(e.subs, Scanned(tids));
      refused := RemoveSubs(gone);
      var e' := e.(subs := Kept(e.subs, Scanned(tids)), failures := e.failures * Scanned(tids));
      FailuresStayApartKept(e, Scanned(tids));
      ShrinkKeeps(entries, old(driver.live), owner, leaked, stale, h, Scanned(tids), e', refused);
      SitedShrunk(entries, h, e', Scanned(tids), driver.sites);
      owner := owner - gone.Values;
      leaked := leaked + refused;
      stale := stale - gone.Values;
      entries := entries[h := e'];
    }

    /** The passes of a rescan that saw threads, one after the other. */
    method RescanSeen(h: nat, tids: seq<Tid>) returns (ghost answers: map<Tid, Handle>, ghost refused: set<Handle>)
      requires Valid() && h in entries && Distinct(tids)
      modifies this, driver
      ensures Valid() && adds == old(adds)
      ensures answers.Keys == Scanned(tids) - old(entries)[h].subs.Keys
      ensures entries == old(entries)[h := Rescanned(old(entries)[h], Scanned(tids), answers)]
      ensures leaked == old(leaked) + refused && driver.withheld == old(driver.withheld) + refused
      ensures old(driver.live).Keys !! Granted(answers).Values
      ensures var e, gone := old(entries)[h], Dropped(old(entries)[h].subs, Scanned(tids)).Values;
        && SlotsScanned(old(driver.live), driver.live, gone, refused, Granted(answers).Values)
        && stale == (old(stale) - gone) + Wrong(driver.live, Granted(answers).Values, e.enabled)
      ensures driver.temper.Obliging? ==> refused == {} && stale <= old(stale)
      ensures driver.generous ==> Granted(answers) == answers
      ensures AskedFor(old(entries)[h], answers, old(driver.asked), driver.asked)
    {
      ghost var e, before, gone := entries[h], driver.live, Dropped(entries[h].subs, Scanned(tids)).Values;
      assert e.subs.Keys !! e.failures;
      OwnedAreLive(entries, before, owner, leaked, h);
      DroppedWithin(e.subs, Scanned(tids));
      hide Inverts, Accounted, Switched, FailuresApart, Rescanned, SettledOn, Granted, Refused, Kept, Dropped, Wrong,
        OneToOne, Numbered, Valid, Scanned, SlotsScanned, AskedFor;
      answers := AttachNew(h, tids);
      ghost var between := driver.live;
      DroppedAfterAttach(e, Scanned(tids), answers);
      refused := DetachGone(h, tids);
      RescanInThreePasses(e, Scanned(tids), answers);
      SlotsAfterRescan(before, between, driver.live, Granted(answers).Values, gone, refused);
      WrongAmong(between, Granted(answers).Values, e.enabled, old(stale), gone);
      WrongStays(between, driver.live, Granted(answers).Values, e.enabled);
    }

    /**
     Rescan one entry; an empty scan is taken for a transient failure and changes nothing.  Scanning a settled
     entry again, when no install is granted, changes nothing at all.
     */
    method RescanEntry(h: nat, tids: seq<Tid>) returns (ghost answers: map<Tid, Handle>, ghost refused: set<Handle>)
      requires Valid() && h in entries && Distinct(tids)
      modifies this, driver
      ensures Valid() && adds == old(adds) && EntryScanned(old(Standing()), Standing(), h, tids, answers, refused)
      ensures driver.temper.Obliging? ==> refused == {} && stale <= old(stale)
      ensures driver.generous ==> Granted(answers) == answers
      ensures AskedFor(old(entries)[h], answers, old(driver.asked), driver.asked)
      ensures tids == [] || (SettledOn(old(entries)[h], tids) && Granted(answers) == map[]) ==>
        Standing() == old(Standing())
    {
      answers, refused := map[], {};
      GrantedNone();
      hide Inverts, Accounted, Switched, FailuresApart, Rescanned, SettledOn, Granted, Refused, Kept, Dropped, Wrong,
        OneToOne, Numbered, Valid, Scanned, SlotsScanned, AskedFor;
      ghost var before := Standing();
      if |tids| == 0 {
        NothingSeen(before, h);
        NothingSited(entries[h], driver.live, driver.sites, driver.asked);
        return;
      }
      answers, refused := RescanSeen(h, tids);
      assert EntryScanned(before, Standing(), h, tids, answers, refused);
      if SettledOn(before.entries[h], tids) && Granted(answers) == map[] {
        EntryScannedStays(before, Standing(), h, tids, answers, refused);
      }
    }

    /**
     One round of `RescanAllLocked`: the next entry against the threads its process has now; `start` is the
     state before the first round.
     */
    method RescanNext(h: nat, scan: map<nat, seq<Tid>>, ghost start: Books, ghost owned: map<Handle, (nat, Tid)>,
                      ghost done: set<nat>, ghost before: map<nat, map<Tid, Handle>>, ghost kept: set<Handle>,
                      ghost asked: seq<Request>)
        returns (ghost answers: map<nat, map<Tid, Handle>>, ghost refused: set<Handle>)
      requires Valid() && h in start.entries && h !in done && h in scan && Distinct(scan[h])
      requires Inverts(start.entries, owned)
      requires ScannedAndAsked(start, Standing(), scan, done, before, kept, asked, driver.asked)
      modifies this, driver
      ensures Valid() && adds == old(adds)
      ensures ScannedAndAsked(start, Standing(), scan, done + {h}, answers, refused, asked, driver.asked)
      ensures driver.temper.Obliging? && kept == {} ==> refused == {} && stale <= old(stale)
      ensures driver.generous && AllAnswered(before) ==> AllAnswered(answers)
    {
      hide Inverts, Accounted, Switched, Valid, Scanning, EntryScanned, Granted, Gone, Leaving, AllGranted, AllAnswered,
        AskedFor, AllAskedFor;
      ghost var askedBetween := driver.asked;
      ghost var between := Standing();
      NextApart(h, scan, start, owned, done, before, kept);
      ghost var a, r := RescanEntry(h, scan[h]);
      ScanningOneMore(start, between, Standing(), scan, done, before, kept, h, a, r);
      answers, refused := before[h := a], kept + r;
      AnsweredOneMore(before, h, a);
      AskOneEntryMore(start.entries, before, h, a, asked, askedBetween, driver.asked);
    }

    /** The slots the next entry gives up are live, nobody else gave them up, and none of them is new. */
    lemma NextApart(h: nat, scan: map<nat, seq<Tid>>, start: Books, owned: map<Handle, (nat, Tid)>, done: set<nat>,
                    before: map<nat, map<Tid, Handle>>, kept: set<Handle>)
      requires Valid() && h in start.entries && h !in done && h in scan
      requires Inverts(start.entries, owned) && Scanning(start, Standing(), scan, done, before, kept)
      ensures h in entries && entries[h] == start.entries[h] && h !in before
      ensures Gone(start.entries[h], scan[h]) !! Leaving(start.entries, scan, done)
      ensures Gone(start.entries[h], scan[h]) !! AllGranted(before)
      ensures Gone(start.entries[h], scan[h]) <= driver.live.Keys
    {
      assert h in entries && entries[h] == start.entries[h];
      GoneApart(start, Standing(), owned, owner, scan, done, before, kept, h);
      OwnedAreLive(entries, driver.live, owner, leaked, h);
      DroppedWithin(entries[h].subs, Scanned(scan[h]));
    }

    lemma OwnerInverts()
      requires Valid()
      ensures Inverts(entries, owner)
    {
    }

    /**
     `RescanAllLocked`: every entry, each with the threads its process has at that moment.  The driver's
     answers to the installs and the removals it refused fix entries, slots and both exception sets.
     */
    method RescanAll(scan: map<nat, seq<Tid>>)
        returns (ghost answers: map<nat, map<Tid, Handle>>, ghost refused: set<Handle>)
      requires Valid()
      requires forall h :: h in entries ==> h in scan && Distinct(scan[h])
      modifies this, driver
      ensures Valid() && adds == old(adds)
      ensures Scanning(old(Standing()), Standing(), scan, old(entries).Keys, answers, refused)
      ensures forall h :: h in entries ==> Settled(old(entries)[h], entries[h], scan[h])
      ensures driver.temper.Obliging? ==> refused == {} && stale <= old(stale)
      ensures driver.generous ==> AllAnswered(answers)
      ensures AllAskedFor(old(entries), answers, old(driver.asked), driver.asked)
    {
      ghost var start, owned, done, asked := Standing(), owner, {}, driver.asked;
      var todo := entries.Keys;
      answers, refused := map[], {};
      hide Valid, Inverts, Scanning, Settled, AllAnswered, AllAskedFor, ScannedAndAsked;
      OwnerInverts();
      NothingScannedOrAsked(start, scan, asked);
      while |todo| > 0
        invariant Valid() && adds == old(adds) && done == start.entries.Keys - todo && todo <= start.entries.Keys
        invariant ScannedAndAsked(start, Standing(), scan, done, answers, refused, asked, driver.asked)
        invariant driver.temper.Obliging? ==> refused == {} && stale <= start.stale
        invariant driver.generous ==> AllAnswered(answers)
        decreases todo
      {
        var h: nat :| h in todo;
        OneLess(start.entries.Keys, done, todo, h);
        todo := todo - {h};
        answers, refused := RescanNext(h, scan, start, owned, done, answers, refused, asked);
        done := done + {h};
      }
      NothingLeft(start.entries.Keys, done, todo);
      BothDone(start, Standing(), scan, done, answers, refused, asked, driver.asked);
      PassSettles(start, Standing(), scan, answers, refused);
    }

    lemma EntryIsOwned(h: nat)
      requires Valid() && h in entries
      ensures entries[h].subs.Values <= owner.Keys
    {
      MineAreOwned(entries, owner, h);
    }

    lemma AllAreLeaked()
      requires Valid() && |entries| == 0
      ensures entries == map[] && owner == map[] && driver.live.Keys == leaked
      ensures driver.temper.Obliging? && adds < TWO_32 ==> driver.live == map[]
    {
      NothingOwned(entries, owner);
    }

    /**
     Shutdown asks the driver to remove every entry's slots; those it refuses are leaked, with those it refused
     before.
     */
    method Shutdown() returns (ghost refused: set<Handle>)
      requires Valid()
      modifies this, driver
      ensures Valid() && entries == map[] && adds == old(adds)
      ensures refused <= old(owner).Keys && driver.live == old(driver.live) - (old(owner).Keys - refused)
      ensures leaked == old(leaked) + refused && driver.withheld == old(driver.withheld) + refused
      ensures driver.live.Keys == leaked
      ensures driver.temper.Obliging? ==> refused == {}
      ensures driver.temper.Stubborn? ==> refused == old(owner).Keys
      ensures driver.temper.Obliging? && adds < TWO_32 ==> driver.live == map[]
    {
      refused := {};
      ghost var taken: set<Handle> := {};
      ghost var start, owned := Standing(), owner;
      NothingGivenUp(start, owned);
      hide Valid, Inverts, GivenUp;
      while |entries| > 0
        invariant Valid() && adds == old(adds)
        invariant GivenUp(start, Standing(), owned, owner, taken, refused)
        invariant driver.temper.Obliging? ==> refused == {}
        invariant driver.temper.Stubborn? ==> refused == taken
        decreases |entries|
      {
        var h: nat :| h in entries;
        ghost var before, between, rest, mine := entries.Keys, Standing(), owner, entries[h].subs.Values;
        EntryIsOwned(h);
        ghost var kept;
        var found;
        found, kept := DelProcessHwBp(h);
        assert entries.Keys == before - {h};
        GiveUpMore(start, between, Standing(), owned, rest, owner, taken, refused, mine, kept);
        taken, refused := taken + mine, refused + kept;
      }
      AllAreLeaked();
      AllGivenUp(start, Standing(), owned, taken, refused);
    }
  }

  /**
   Convergence.  The second pass over the same threads asks just for the installs that the first was refused,
   and it changes nothing exactly when it is refused them again; `between` is the state between the two.
   */
  method RescanTwice(k: KernelHwBreakpoint, scan: map<nat, seq<Tid>>)
      returns (ghost between: Books, ghost first: map<nat, map<Tid, Handle>>,
               ghost second: map<nat, map<Tid, Handle>>)
    requires k.Valid() && forall h :: h in k.entries ==> h in scan && Distinct(scan[h])
    modifies k, k.driver
    ensures k.Valid() && first.Keys == second.Keys == between.entries.Keys == old(k.entries).Keys
    ensures exists refused :: Scanning(old(k.Standing()), between, scan, first.Keys, first, refused)
    ensures exists refused :: Scanning(between, k.Standing(), scan, second.Keys, second, refused)
    ensures forall h :: h in first ==> second[h].Keys == Refused(first[h])
    ensures k.Standing() == between <==> forall h :: h in first ==> Refused(second[h]) == Refused(first[h])
    ensures k.driver.generous ==> k.Standing() == between
  {
    ghost var start := k.Standing();
    hide Inverts, Accounted, Switched, FailuresApart, Scanning, Settled, Granted, Refused;
    ghost var kept, kept';
    first, kept := k.RescanAll(scan);
    between := k.Standing();
    PassSettles(start, between, scan, first, kept);
    second, kept' := k.RescanAll(scan);
    PassTwice(start, between, k.Standing(), scan, first, kept, second, kept');
  }

  // ---- What goes wrong, and how ----

  /** A removal the driver refuses leaves a live slot that no entry owns. */
  method RefusedRemoval() returns (k: KernelHwBreakpoint)
    ensures fresh(k) && k.Valid() && k.entries == map[] && k.leaked != {} && k.driver.live.Keys == k.leaked
  {
    var driver := new Driver(Stubborn, true);
    k := new KernelHwBreakpoint(driver);
    ghost var answers;
    var h;
    h, answers := k.AddProcessHwBp(true, 1, 4096, 4, 3, false, [7]);
    assert h in k.entries && k.leaked == {};
    SomeValue(k.entries[h].subs);
    ghost var found, refused := k.DelProcessHwBp(h);
    NothingOwned(k.entries, k.owner);
  }

  /** A switch the driver refuses leaves an entry that is suspended with a slot that is on. */
  method RefusedSwitch() returns (k: KernelHwBreakpoint, h: nat)
    ensures fresh(k) && k.Valid() && h in k.entries && !k.entries[h].enabled && k.leaked == {}
    ensures k.stale != {} && forall x :: x in k.stale ==> x in k.driver.live && k.driver.live[x]
  {
    hide AskedFor, Sited, Inverts, Accounted, Switched, FailuresApart;
    var driver := new Driver(Stubborn, true);
    k := new KernelHwBreakpoint(driver);
    ghost var answers;
    h, answers := k.AddProcessHwBp(true, 1, 4096, 4, 3, false, [7]);
    ghost var mine := k.entries[h].subs.Values;
    SomeValue(k.entries[h].subs);
    OwnedAreOn(k, h);
    ghost var found, refused := k.SetEnabled(h, false);
    assert refused == mine;
  }

  lemma OwnedAreOn(k: KernelHwBreakpoint, h: nat)
    requires k.Valid() && k.stale == {} && h in k.entries && k.entries[h].enabled
    ensures Wrong(k.driver.live, k.entries[h].subs.Values, false) == k.entries[h].subs.Values
  {
    forall x | x in k.entries[h].subs.Values ensures x in k.driver.live && k.driver.live[x] {
      var t: Tid :| t in k.entries[h].subs && k.entries[h].subs[t] == x;
      assert k.owner[x] == (h, t);
    }
  }

  /** With a driver that always complies, the add whose number comes round to a live handle leaks its slots. */
  method NumberComesRound() returns (k: KernelHwBreakpoint, h: nat)
    ensures fresh(k) && k.Valid() && k.driver.temper.Obliging? && k.adds == TWO_32 + 1
    ensures h in k.entries && k.leaked != {}
  {
    hide Inverts, Accounted, Switched, FailuresApart, AskedFor, Sited, Granted;
    var driver := new Driver(Obliging, true);
    k := new KernelHwBreakpoint(driver);
    ghost var answers;
    h, answers := k.AddProcessHwBp(true, 1, 4096, 4, 3, false, [7]);
    var adds := 1;
    while adds < TWO_32
      invariant fresh(k) && fresh(driver) && k.driver == driver && driver.temper.Obliging? && driver.generous
      invariant k.Valid() && k.adds == adds <= TWO_32 && h == HANDLE_TAG + 1 && k.entries.Keys == {h}
    {
      var other;
      other, answers := k.AddProcessHwBp(true, 1, 4096, 4, 3, false, [7]);
      adds := adds + 1;
      if other != h {
        ghost var found, refused := k.DelProcessHwBp(other);
      }
    }
    ghost var before := driver.live.Keys;
    var again;
    again, answers := k.AddProcessHwBp(true, 1, 4096, 4, 3, false, [7]);
    assert again == h;
    ghost var extra: Handle :| extra in driver.live && extra !in before;
    assert extra in k.leaked;
  }
}
