/**
 The books of process-wide breakpoints (engine/android/KernelHwBreakpoint.hpp) as values: which entry and
 thread owns which driver slot, which live slots nobody owns, which owned ones are switched otherwise than
 their entry says, and how each operation of the engine carries them forward.
 */
module BreakpointBooks {
  import opened Basics

  type Handle = nat          // driver handle; 0 means that the install failed
  type Tid = nat

  const HANDLE_TAG: nat := 0x2000_0000_0000_0000

  datatype Entry = Entry(pid: int, address: nat, len: nat, kind: nat, enabled: bool, forceReclaim: bool,
                         subs: map<Tid, Handle>, failures: set<Tid>)

  /** What a driver slot watches. */
  datatype Site = Site(tid: Tid, address: nat, len: nat, kind: nat)

  /** One install asked of the driver. */
  datatype Request = Request(site: Site, forced: bool)

  /** The slot that an entry wants on a thread. */
  function SiteOf(e: Entry, t: Tid): Site {
    Site(t, e.address, e.len, e.kind)
  }

  lemma UnusedHandleExists(used: set<Handle>)
    ensures exists h: Handle :: h != 0 && h !in used
  {
    var bound := Above(used);
    assert bound + 1 !in used;
  }

  lemma {:induction false} Above(used: set<Handle>) returns (bound: nat)
    ensures forall h :: h in used ==> h <= bound
    decreases used
  {
    if used == {} {
      bound := 0;
    } else {
      var x :| x in used;
      var rest := Above(used - {x});
      bound := if x > rest then x else rest;
      forall h | h in used ensures h <= bound {
        if h != x { assert h in used - {x}; }
      }
    }
  }

  /** The handles of those threads of `subs` that are no longer in `todo`. */
  ghost function Visited(subs: map<Tid, Handle>, todo: set<Tid>): set<Handle> {
    set t | t in subs && t !in todo :: subs[t]
  }

  lemma VisitOne(subs: map<Tid, Handle>, todo: set<Tid>, t: Tid)
    requires t in subs
    ensures Visited(subs, todo - {t}) == Visited(subs, todo) + {subs[t]}
  {
    assert subs[t] in Visited(subs, todo - {t});
    forall h | h in Visited(subs, todo) ensures h in Visited(subs, todo - {t}) {
      var u :| u in subs && u !in todo && subs[u] == h;
      assert u !in todo - {t};
    }
  }

  lemma VisitAll(subs: map<Tid, Handle>)
    ensures Visited(subs, {}) == subs.Values && Visited(subs, subs.Keys) == {}
  {
    forall h | h in subs.Values ensures h in Visited(subs, {}) {
      var u: Tid :| u in subs && subs[u] == h;
      assert u !in {};
    }
  }

  /** `owner` inverts the `subs` of all entries: every sub-handle has exactly one entry and thread. */
  ghost predicate Inverts(entries: map<nat, Entry>, owner: map<Handle, (nat, Tid)>) {
    && (forall k, t :: k in entries && t in entries[k].subs ==>
          entries[k].subs[t] in owner && owner[entries[k].subs[t]] == (k, t))
    && (forall h :: h in owner ==>
          owner[h].0 in entries && owner[h].1 in entries[owner[h].0].subs
          && entries[owner[h].0].subs[owner[h].1] == h)
  }

  /** Live slots are the owned ones plus the leaked ones, and nothing is both. */
  ghost predicate Accounted(live: map<Handle, bool>, owner: map<Handle, (nat, Tid)>, leaked: set<Handle>) {
    && live.Keys == owner.Keys + leaked
    && owner.Keys !! leaked
  }

  /** The stale slots are exactly the owned ones that are not switched as their entry says. */
  ghost predicate Switched(live: map<Handle, bool>, entries: map<nat, Entry>, owner: map<Handle, (nat, Tid)>,
                           stale: set<Handle>)
  {
    && stale <= owner.Keys
    && forall x :: x in owner && x in live && owner[x].0 in entries ==>
      (x in stale <==> live[x] != entries[owner[x].0].enabled)
  }

  /** The slots among these that are not switched as wanted. */
  ghost function Wrong(live: map<Handle, bool>, slots: set<Handle>, on: bool): set<Handle> {
    set x | x in slots && x in live && live[x] != on
  }

  ghost predicate FailuresApart(entries: map<nat, Entry>) {
    forall k :: k in entries ==> entries[k].subs.Keys !! entries[k].failures
  }

  /** What a rescan makes of an entry, given the driver's answer (0 = refused) for each new thread. */
  ghost function Rescanned(e: Entry, tids: set<Tid>, answers: map<Tid, Handle>): Entry
    requires forall t :: t in tids && t !in e.subs ==> t in answers
  {
    e.(subs := map t | t in tids && (t in e.subs || answers[t] != 0) :: if t in e.subs then e.subs[t] else answers[t],
       failures := set t | t in tids && t !in e.subs && answers[t] == 0)
  }

  /** After a rescan, every scanned thread has a slot or a logged failure, never both. */
  lemma RescanPartitions(e: Entry, tids: set<Tid>, answers: map<Tid, Handle>)
    requires forall t :: t in tids && t !in e.subs ==> t in answers
    ensures var r := Rescanned(e, tids, answers);
      r.subs.Keys + r.failures == tids && r.subs.Keys !! r.failures && r == e.(subs := r.subs, failures := r.failures)
  {
  }

  /** Slots and logged failures partition the scanned threads; a scan that saw none is ignored. */
  ghost predicate SettledOn(e: Entry, tids: seq<Tid>) {
    tids == [] || (e.subs.Keys + e.failures == Scanned(tids) && e.subs.Keys !! e.failures)
  }

  /** What a rescan that saw `tids` makes of an entry: it is settled, and threads that stay keep their slots. */
  ghost predicate Settled(before: Entry, after: Entry, tids: seq<Tid>) {
    && (tids == [] ==> after == before)
    && SettledOn(after, tids)
    && after == before.(subs := after.subs, failures := after.failures)
    && forall t :: t in before.subs && t in Scanned(tids) ==> t in after.subs && after.subs[t] == before.subs[t]
  }

  lemma RescanSettles(e: Entry, tids: seq<Tid>, answers: map<Tid, Handle>)
    requires tids != [] ==> forall t :: t in Scanned(tids) && t !in e.subs ==> t in answers
    ensures Settled(e, if tids == [] then e else Rescanned(e, Scanned(tids), answers), tids)
  {
    if tids != [] { RescanPartitions(e, Scanned(tids), answers); }
  }

  /** Scanning a settled entry again, with every new install refused, leaves it as it is. */
  lemma SettledStays(e: Entry, tids: seq<Tid>, answers: map<Tid, Handle>)
    requires SettledOn(e, tids) && tids != []
    requires answers.Keys == Scanned(tids) - e.subs.Keys && Granted(answers) == map[]
    ensures Rescanned(e, Scanned(tids), answers) == e
    ensures Dropped(e.subs, Scanned(tids)) == map[]
  {
    var r := Rescanned(e, Scanned(tids), answers);
    forall t | t in answers ensures answers[t] == 0 {
      assert t in Granted(answers) <==> answers[t] != 0;
    }
    assert r.subs == e.subs && r.failures == e.failures;
  }

  /** A second rescan that sees the same threads and is refused the same installs changes nothing. */
  lemma RescanConverges(e: Entry, tids: set<Tid>, first: map<Tid, Handle>, second: map<Tid, Handle>)
    requires forall t :: t in tids && t !in e.subs ==> t in first
    requires forall t :: t in tids && t !in e.subs && first[t] == 0 ==> t in second && second[t] == 0
    ensures var r := Rescanned(e, tids, first); Rescanned(r, tids, second) == r
  {
    var r := Rescanned(e, tids, first);
    assert forall t :: t in tids && t !in r.subs ==> t !in e.subs && first[t] == 0;
    var r2 := Rescanned(r, tids, second);
    forall t | t in tids ensures t in r2.subs <==> t in r.subs {
      if t !in r.subs { assert t !in e.subs && first[t] == 0 && second[t] == 0; }
    }
    assert r2.subs.Keys == r.subs.Keys;
    assert r2.subs == r.subs;
    forall t | t in tids ensures t in r2.failures <==> t in r.failures {
      if t !in r.subs { assert t !in e.subs && first[t] == 0 && second[t] == 0; }
    }
    assert r2.failures == r.failures;
  }

  /** Dropping an entry, and the slots the driver really gave up, keeps all books balanced. */
  lemma DeleteKeeps(entries: map<nat, Entry>, live: map<Handle, bool>, owner: map<Handle, (nat, Tid)>,
                    leaked: set<Handle>, stale: set<Handle>, h: nat, refused: set<Handle>)
    requires Inverts(entries, owner) && Accounted(live, owner, leaked) && Switched(live, entries, owner, stale)
    requires h in entries && refused <= entries[h].subs.Values
    ensures var mine := entries[h].subs.Values;
      && Inverts(entries - {h}, owner - mine)
      && Accounted(live - (mine - refused), owner - mine, leaked + refused)
      && Switched(live - (mine - refused), entries - {h}, owner - mine, stale - mine)
  {
    var mine := entries[h].subs.Values;
    var entries', owner' := entries - {h}, owner - mine;
    forall x | x in mine ensures x in owner && owner[x].0 == h {
      var t: Tid :| t in entries[h].subs && entries[h].subs[t] == x;
    }
    forall x | x in owner && owner[x].0 == h ensures x in mine {
      assert entries[h].subs[owner[x].1] == x;
    }
    forall k, t | k in entries' && t in entries'[k].subs
      ensures entries'[k].subs[t] in owner' && owner'[entries'[k].subs[t]] == (k, t)
    {
      assert entries[k].subs[t] in owner && owner[entries[k].subs[t]] == (k, t);
    }
  }

  /** Switching an entry keeps the books; of its slots, the stale ones are now those that stand otherwise. */
  lemma SwitchKeeps(entries: map<nat, Entry>, live: map<Handle, bool>, live': map<Handle, bool>,
                    owner: map<Handle, (nat, Tid)>, leaked: set<Handle>, stale: set<Handle>, h: nat, on: bool)
    requires Inverts(entries, owner) && Accounted(live, owner, leaked) && Switched(live, entries, owner, stale)
    requires h in entries && live'.Keys == live.Keys
    requires forall x :: x in live' && x !in entries[h].subs.Values ==> live'[x] == live[x]
    ensures var entries' := entries[h := entries[h].(enabled := on)];
      && Inverts(entries', owner)
      && Switched(live', entries', owner, (stale - entries[h].subs.Values) + Wrong(live', entries[h].subs.Values, on))
  {
    var mine, entries' := entries[h].subs.Values, entries[h := entries[h].(enabled := on)];
    var stale' := (stale - mine) + Wrong(live', mine, on);
    forall y | y in mine ensures y in owner && owner[y].0 == h {
      var t: Tid :| t in entries[h].subs && entries[h].subs[t] == y;
    }
    forall x | x in owner && x in live' && owner[x].0 in entries'
      ensures x in stale' <==> live'[x] != entries'[owner[x].0].enabled
    {
      if owner[x].0 == h { assert entries[h].subs[owner[x].1] == x; }
    }
  }

  ghost function ThreadOf(subs: map<Tid, Handle>, x: Handle): (t: Tid)
    requires x in subs.Values
    ensures t in subs && subs[t] == x
  {
    var t: Tid :| t in subs && subs[t] == x;
    t
  }

  ghost predicate OneToOne(subs: map<Tid, Handle>) {
    forall s, t :: s in subs && t in subs && s != t ==> subs[s] != subs[t]
  }

  /** The owner table after the slots in `subs` join the entry `h`. */
  ghost function Claimed(owner: map<Handle, (nat, Tid)>, h: nat, subs: map<Tid, Handle>): (r: map<Handle, (nat, Tid)>)
    requires owner.Keys !! subs.Values
    ensures r.Keys == owner.Keys + subs.Values
    ensures forall x :: x in owner ==> r[x] == owner[x]
    ensures forall x :: x in subs.Values ==> r[x] == (h, ThreadOf(subs, x))
  {
    owner + map x | x in subs.Values :: (h, ThreadOf(subs, x))
  }

  ghost function SubsOf(entries: map<nat, Entry>, h: nat): map<Tid, Handle> {
    if h in entries then entries[h].subs else map[]
  }

  /** `e` is entry `h` with the slots in `extra` added. */
  ghost predicate Grown(entries: map<nat, Entry>, h: nat, e: Entry, extra: map<Tid, Handle>) {
    && extra.Keys !! SubsOf(entries, h).Keys
    && e.subs == SubsOf(entries, h) + extra
    && (h in entries ==> e.enabled == entries[h].enabled)
    && OneToOne(extra)
  }

  lemma GrowInverts(entries: map<nat, Entry>, owner: map<Handle, (nat, Tid)>, h: nat, e: Entry, extra: map<Tid, Handle>)
    requires Inverts(entries, owner) && Grown(entries, h, e, extra) && owner.Keys !! extra.Values
    ensures Inverts(entries[h := e], Claimed(owner, h, extra))
  {
    var entries', owner' := entries[h := e], Claimed(owner, h, extra);
    forall k, t | k in entries' && t in entries'[k].subs
      ensures entries'[k].subs[t] in owner' && owner'[entries'[k].subs[t]] == (k, t)
    {
      if k == h && t in extra {
        assert extra[t] in extra.Values;
      } else {
        assert k in entries && t in entries[k].subs && entries[k].subs[t] in owner;
      }
    }
    forall x | x in owner'
      ensures owner'[x].0 in entries' && owner'[x].1 in entries'[owner'[x].0].subs
      ensures entries'[owner'[x].0].subs[owner'[x].1] == x
    {
      if x in owner { assert owner[x].0 in entries; }
    }
  }

  lemma GrowSwitched(entries: map<nat, Entry>, live: map<Handle, bool>, live': map<Handle, bool>,
                     owner: map<Handle, (nat, Tid)>, stale: set<Handle>, h: nat, e: Entry, extra: map<Tid, Handle>)
    requires Inverts(entries, owner) && Switched(live, entries, owner, stale) && owner.Keys <= live.Keys
    requires Grown(entries, h, e, extra) && owner.Keys !! extra.Values && live.Keys !! extra.Values
    requires live'.Keys == live.Keys + extra.Values && forall x :: x in live ==> live'[x] == live[x]
    ensures Switched(live', entries[h := e], Claimed(owner, h, extra), stale + Wrong(live', extra.Values, e.enabled))
  {
  }

  /** Slots installed for an entry, new or known, are owned by it and by nothing else. */
  lemma GrowKeeps(entries: map<nat, Entry>, live: map<Handle, bool>, live': map<Handle, bool>,
                  owner: map<Handle, (nat, Tid)>, leaked: set<Handle>, stale: set<Handle>, h: nat, e: Entry,
                  extra: map<Tid, Handle>)
    requires Inverts(entries, owner) && Accounted(live, owner, leaked) && Switched(live, entries, owner, stale)
    requires Grown(entries, h, e, extra)
    requires live'.Keys == live.Keys + extra.Values && live.Keys !! extra.Values
    requires forall x :: x in live ==> live'[x] == live[x]
    ensures owner.Keys !! extra.Values
    ensures Inverts(entries[h := e], Claimed(owner, h, extra))
    ensures Accounted(live', Claimed(owner, h, extra), leaked)
    ensures Switched(live', entries[h := e], Claimed(owner, h, extra), stale + Wrong(live', extra.Values, e.enabled))
  {
    assert owner.Keys <= live.Keys && owner.Keys !! extra.Values;
    GrowAccounts(live, live', owner, leaked, h, extra);
    hide Inverts, Switched, Wrong, Accounted, Claimed, Grown;
    GrowInverts(entries, owner, h, e, extra);
    GrowSwitched(entries, live, live', owner, stale, h, e, extra);
  }

  lemma GrowAccounts(live: map<Handle, bool>, live': map<Handle, bool>, owner: map<Handle, (nat, Tid)>,
                     leaked: set<Handle>, h: nat, extra: map<Tid, Handle>)
    requires Accounted(live, owner, leaked) && live'.Keys == live.Keys + extra.Values && live.Keys !! extra.Values
    ensures owner.Keys !! extra.Values && Accounted(live', Claimed(owner, h, extra), leaked)
  {
  }

  lemma GrownNew(entries: map<nat, Entry>, h: nat, e: Entry)
    requires h !in entries && OneToOne(e.subs)
    ensures Grown(entries, h, e, e.subs)
  {
    assert map[] + e.subs == e.subs;
  }

  lemma GrownKnown(entries: map<nat, Entry>, h: nat, e: Entry, answers: map<Tid, Handle>)
    requires h in entries && answers.Keys !! entries[h].subs.Keys && OneToOne(Granted(answers))
    requires e.subs == entries[h].subs + Granted(answers) && e.enabled == entries[h].enabled
    ensures Grown(entries, h, e, Granted(answers))
  {
  }

  lemma FailuresStayApart(e: Entry, answers: map<Tid, Handle>)
    requires e.subs.Keys !! e.failures && answers.Keys !! e.subs.Keys
    ensures (e.subs + Granted(answers)).Keys !! (e.failures - Granted(answers).Keys) + Refused(answers)
  {
  }

  lemma FailuresNew(entries: map<nat, Entry>, h: nat, e: Entry)
    requires FailuresApart(entries) && e.subs.Keys !! e.failures
    ensures FailuresApart(entries[h := e])
  {
  }

  lemma FailuresStayApartKept(e: Entry, tids: set<Tid>)
    requires e.subs.Keys !! e.failures
    ensures Kept(e.subs, tids).Keys !! e.failures * tids
  {
  }

  lemma OwnedAreLive(entries: map<nat, Entry>, live: map<Handle, bool>, owner: map<Handle, (nat, Tid)>,
                     leaked: set<Handle>, h: nat)
    requires Inverts(entries, owner) && Accounted(live, owner, leaked) && h in entries
    ensures entries[h].subs.Values <= live.Keys
  {
    forall x | x in entries[h].subs.Values ensures x in live {
      var t: Tid :| t in entries[h].subs && entries[h].subs[t] == x;
    }
  }

  lemma NothingOwned(entries: map<nat, Entry>, owner: map<Handle, (nat, Tid)>)
    requires Inverts(entries, owner) && |entries| == 0
    ensures entries == map[] && owner == map[]
  {
    assert entries.Keys == {};
    assert owner.Keys == {};
  }

  /** Slots that no entry takes up are leaked. */
  lemma LeakKeeps(entries: map<nat, Entry>, live: map<Handle, bool>, live': map<Handle, bool>,
                  owner: map<Handle, (nat, Tid)>, leaked: set<Handle>, stale: set<Handle>, slots: set<Handle>)
    requires Accounted(live, owner, leaked) && Switched(live, entries, owner, stale)
    requires live'.Keys == live.Keys + slots && live.Keys !! slots
    requires forall x :: x in live' && x in live ==> live'[x] == live[x]
    ensures Accounted(live', owner, leaked + slots) && Switched(live', entries, owner, stale)
  {
  }

  /** The part of `subs` whose threads satisfy membership in `tids`, and the part that does not. */
  function Kept(subs: map<Tid, Handle>, tids: set<Tid>): map<Tid, Handle> {
    map t | t in subs && t in tids :: subs[t]
  }

  function Dropped(subs: map<Tid, Handle>, tids: set<Tid>): map<Tid, Handle> {
    map t | t in subs && t !in tids :: subs[t]
  }

  lemma DroppedWithin(subs: map<Tid, Handle>, tids: set<Tid>)
    ensures Dropped(subs, tids).Values <= subs.Values
  {
    var d := Dropped(subs, tids);
    forall x | x in d.Values ensures x in subs.Values {
      var t: Tid :| t in d && d[t] == x;
      assert subs[t] == x;
    }
  }

  lemma DroppedOwned(entries: map<nat, Entry>, owner: map<Handle, (nat, Tid)>, h: nat, tids: set<Tid>)
    requires Inverts(entries, owner) && h in entries
    ensures forall x :: x in Dropped(entries[h].subs, tids).Values <==>
      x in owner && owner[x].0 == h && owner[x].1 !in tids
  {
    var d := Dropped(entries[h].subs, tids);
    forall x | x in d.Values ensures x in owner && owner[x].0 == h && owner[x].1 !in tids {
      var t: Tid :| t in d && d[t] == x;
      assert entries[h].subs[t] == x;
    }
    forall x | x in owner && owner[x].0 == h && owner[x].1 !in tids ensures x in d.Values {
      assert entries[h].subs[owner[x].1] == x;
      assert d[owner[x].1] == x;
    }
  }

  lemma ShrinkInverts(entries: map<nat, Entry>, owner: map<Handle, (nat, Tid)>, h: nat, tids: set<Tid>, e: Entry)
    requires Inverts(entries, owner) && h in entries && e.subs == Kept(entries[h].subs, tids)
    ensures Inverts(entries[h := e], owner - Dropped(entries[h].subs, tids).Values)
  {
    DroppedOwned(entries, owner, h, tids);
    var entries', owner' := entries[h := e], owner - Dropped(entries[h].subs, tids).Values;
    forall k, t | k in entries' && t in entries'[k].subs
      ensures entries'[k].subs[t] in owner' && owner'[entries'[k].subs[t]] == (k, t)
    {
      assert entries[k].subs[t] in owner;
    }
  }

  /** Threads of an entry gone; slots the driver refused to give up are leaked. */
  lemma ShrinkKeeps(entries: map<nat, Entry>, live: map<Handle, bool>, owner: map<Handle, (nat, Tid)>,
                    leaked: set<Handle>, stale: set<Handle>, h: nat, tids: set<Tid>, e: Entry, refused: set<Handle>)
    requires Inverts(entries, owner) && Accounted(live, owner, leaked) && Switched(live, entries, owner, stale)
    requires h in entries && e.subs == Kept(entries[h].subs, tids) && e.enabled == entries[h].enabled
    requires refused <= Dropped(entries[h].subs, tids).Values
    ensures var gone := Dropped(entries[h].subs, tids).Values;
      && Inverts(entries[h := e], owner - gone)
      && Accounted(live - (gone - refused), owner - gone, leaked + refused)
      && Switched(live - (gone - refused), entries[h := e], owner - gone, stale - gone)
  {
    ShrinkInverts(entries, owner, h, tids, e);
    DroppedOwned(entries, owner, h, tids);
  }

  ghost predicate Distinct(tids: seq<Tid>) {
    forall i, j :: 0 <= i < j < |tids| ==> tids[i] != tids[j]
  }

  function Scanned(tids: seq<Tid>): set<Tid> {
    set t | t in tids
  }

  lemma ScannedOneMore(tids: seq<Tid>, i: nat)
    requires i < |tids| && Distinct(tids)
    ensures Scanned(tids[..i + 1]) == Scanned(tids[..i]) + {tids[i]}
    ensures tids[i] !in Scanned(tids[..i])
  {
    assert tids[..i + 1] == tids[..i] + [tids[i]];
  }

  /** The installs that succeeded. */
  function Granted(answers: map<Tid, Handle>): map<Tid, Handle> {
    map t | t in answers && answers[t] != 0 :: answers[t]
  }

  function Refused(answers: map<Tid, Handle>): set<Tid> {
    set t | t in answers && answers[t] == 0
  }

  /** The driver gained these slots, and all others are as they were. */
  ghost predicate Gained(before: map<Handle, bool>, after: map<Handle, bool>, added: set<Handle>) {
    && after.Keys == before.Keys + added && before.Keys !! added
    && forall x :: x in before ==> after[x] == before[x]
  }

  ghost predicate AllStand(live: map<Handle, bool>, slots: set<Handle>, on: bool) {
    forall x :: x in slots ==> x in live && live[x] == on
  }

  lemma NothingGained(live: map<Handle, bool>)
    ensures Gained(live, live, {}) && AllStand(live, {}, true) && AllStand(live, {}, false)
  {
  }

  lemma GainOne(before: map<Handle, bool>, between: map<Handle, bool>, after: map<Handle, bool>, added: set<Handle>,
                x: Handle)
    requires Gained(before, between, added)
    requires if x == 0 then after == between else x !in between && x in after && after == between[x := after[x]]
    ensures Gained(before, after, added + if x != 0 then {x} else {})
    ensures x != 0 ==> x !in added
    ensures forall on :: AllStand(between, added, on) && (x != 0 ==> after[x] == on) ==>
      AllStand(after, added + if x != 0 then {x} else {}, on)
  {
  }

  lemma GainMeans(before: map<Handle, bool>, after: map<Handle, bool>, added: set<Handle>, on: bool)
    requires Gained(before, after, added)
    ensures after.Keys == before.Keys + added && before.Keys !! added
    ensures forall x :: x in before ==> after[x] == before[x]
    ensures added == {} ==> after == before
    ensures AllStand(after, added, on) ==> Wrong(after, added, on) == {}
    ensures AllStand(after, added, true) ==> forall x :: x in added ==> after[x]
  {
    if added == {} { assert after.Keys == before.Keys; }
  }

  lemma NothingScannedYet(tids: seq<Tid>)
    ensures Scanned(tids[..0]) == {}
  {
  }

  lemma GrantedNone()
    ensures Granted(map[]) == map[] && OneToOne(Granted(map[])) && Granted(map[]).Values == {}
  {
  }

  lemma GrantedOneMore(answers: map<Tid, Handle>, t: Tid, dh: Handle)
    requires t !in answers && OneToOne(Granted(answers)) && (dh == 0 || dh !in Granted(answers).Values)
    ensures OneToOne(Granted(answers[t := dh]))
    ensures Granted(answers[t := dh]).Values == Granted(answers).Values + if dh != 0 then {dh} else {}
    ensures Granted(answers[t := dh]) == if dh != 0 then Granted(answers)[t := dh] else Granted(answers)
  {
    var g, g' := Granted(answers), Granted(answers[t := dh]);
    assert forall u :: u in g ==> u in g' && g'[u] == g[u] && g[u] in g.Values;
    assert forall u :: u in g' ==> g'[u] in g'.Values && (u == t || (u in g && g[u] == g'[u]));
    if dh != 0 { assert g'[t] == dh; }
  }

  /** Follow, reclaim and prune, one after the other, amount to the rescan of an entry. */
  lemma RescanInThreePasses(e: Entry, tids: set<Tid>, answers: map<Tid, Handle>)
    requires e.subs.Keys !! e.failures && answers.Keys == tids - e.subs.Keys
    ensures var grown := e.(
        subs := e.subs + Granted(answers), failures := (e.failures - Granted(answers).Keys) + Refused(answers));
      Rescanned(e, tids, answers) == grown.(subs := Kept(grown.subs, tids), failures := grown.failures * tids)
  {
    var r := Rescanned(e, tids, answers);
    assert r.subs == Kept(e.subs + Granted(answers), tids);
    assert r.failures == ((e.failures - Granted(answers).Keys) + Refused(answers)) * tids;
  }

  lemma SomeValue(subs: map<Tid, Handle>)
    requires subs != map[]
    ensures subs.Values != {}
  {
    assert subs.Keys == {} ==> subs == map[];
    var t: Tid :| t in subs;
    assert subs[t] in subs.Values;
  }

  lemma SomeAnswer(tids: seq<Tid>, answers: map<Tid, Handle>)
    requires tids != [] && answers.Keys == Scanned(tids)
    ensures answers != map[]
  {
    assert tids[0] in Scanned(tids);
  }

  /** Following new threads adds none of those that are then dropped. */
  lemma DroppedAfterAttach(e: Entry, tids: set<Tid>, answers: map<Tid, Handle>)
    requires answers.Keys == tids - e.subs.Keys
    ensures Dropped(e.subs + Granted(answers), tids) == Dropped(e.subs, tids)
  {
  }

  /** The driver's slots: `leaving` were given up but for the refused ones, `added` are new, no other changed. */
  ghost predicate SlotsScanned(before: map<Handle, bool>, after: map<Handle, bool>, leaving: set<Handle>,
                               refused: set<Handle>, added: set<Handle>)
  {
    var left := before.Keys - (leaving - refused);
    && refused <= leaving && added !! left && after.Keys == left + added
    && forall x :: x in left ==> after[x] == before[x]
  }

  /** The slots after granting some and giving up others. */
  lemma SlotsAfterRescan(before: map<Handle, bool>, between: map<Handle, bool>, after: map<Handle, bool>,
                         added: set<Handle>, gone: set<Handle>, refused: set<Handle>)
    requires between.Keys == before.Keys + added && before.Keys !! added && gone <= before.Keys && refused <= gone
    requires after == between - (gone - refused)
    requires forall x :: x in before ==> between[x] == before[x]
    ensures SlotsScanned(before, after, gone, refused, added) && added <= after.Keys <= between.Keys
    ensures forall x :: x in after ==> after[x] == between[x]
  {
    assert after.Keys == (before.Keys - (gone - refused)) + added;
  }

  lemma WrongAmong(live: map<Handle, bool>, slots: set<Handle>, on: bool, stale: set<Handle>, gone: set<Handle>)
    requires slots !! gone
    ensures (stale + Wrong(live, slots, on)) - gone == (stale - gone) + Wrong(live, slots, on)
  {
  }

  lemma WrongAreRefused(before: map<Handle, bool>, after: map<Handle, bool>, mine: set<Handle>,
                        refused: set<Handle>, on: bool)
    requires after.Keys == before.Keys && refused <= mine
    requires forall x :: x in after ==> after[x] == if x in mine && x !in refused then on else before[x]
    ensures Wrong(after, mine, on) == Wrong(before, refused, on)
  {
  }

  lemma WrongOfNone(live: map<Handle, bool>, on: bool)
    ensures Wrong(live, {}, on) == {}
  {
  }

  lemma WrongStays(live: map<Handle, bool>, live': map<Handle, bool>, slots: set<Handle>, on: bool)
    requires slots <= live'.Keys <= live.Keys && forall x :: x in live' ==> live'[x] == live[x]
    ensures Wrong(live', slots, on) == Wrong(live, slots, on)
  {
  }

  // ---- What the slots watch, and what was asked of the driver ----

  ghost predicate SubsSited(e: Entry, sites: map<Handle, Site>) {
    forall t :: t in e.subs ==> e.subs[t] in sites && sites[e.subs[t]] == SiteOf(e, t)
  }

  /** Each thread's slot watches that very thread, at the entry's address, with its length and kind. */
  ghost predicate Sited(entries: map<nat, Entry>, sites: map<Handle, Site>) {
    forall k :: k in entries ==> SubsSited(entries[k], sites)
  }

  ghost predicate SitesStay(live: map<Handle, bool>, sites: map<Handle, Site>, sites': map<Handle, Site>) {
    forall x :: x in live && x in sites ==> x in sites' && sites'[x] == sites[x]
  }

  ghost predicate GrantedSited(e: Entry, answers: map<Tid, Handle>, sites: map<Handle, Site>) {
    forall t :: t in answers && answers[t] != 0 ==> answers[t] in sites && sites[answers[t]] == SiteOf(e, t)
  }

  lemma SitedLater(entries: map<nat, Entry>, live: map<Handle, bool>, owner: map<Handle, (nat, Tid)>,
                   leaked: set<Handle>, sites: map<Handle, Site>, sites': map<Handle, Site>)
    requires Inverts(entries, owner) && Accounted(live, owner, leaked)
    requires Sited(entries, sites) && SitesStay(live, sites, sites')
    ensures Sited(entries, sites')
  {
    forall k | k in entries ensures SubsSited(entries[k], sites') {
      assert SubsSited(entries[k], sites);
      OwnedAreLive(entries, live, owner, leaked, k);
      forall t | t in entries[k].subs
        ensures entries[k].subs[t] in sites' && sites'[entries[k].subs[t]] == SiteOf(entries[k], t)
      {
        assert entries[k].subs[t] in entries[k].subs.Values;
      }
    }
  }

  lemma SitedGrown(entries: map<nat, Entry>, h: nat, e: Entry, answers: map<Tid, Handle>, sites: map<Handle, Site>)
    requires Sited(entries, sites) && h in entries && GrantedSited(entries[h], answers, sites)
    requires e == entries[h].(subs := entries[h].subs + Granted(answers), failures := e.failures)
    ensures Sited(entries[h := e], sites)
  {
    assert SubsSited(entries[h], sites);
  }

  lemma GrantedAreSited(e: Entry, e': Entry, answers: map<Tid, Handle>, sites: map<Handle, Site>)
    requires GrantedSited(e, answers, sites) && e' == e.(subs := Granted(answers), failures := e'.failures)
    ensures SubsSited(e', sites)
  {
  }

  lemma SitedNew(entries: map<nat, Entry>, h: nat, e: Entry, sites: map<Handle, Site>)
    requires Sited(entries, sites) && SubsSited(e, sites)
    ensures Sited(entries[h := e], sites)
  {
  }

  lemma SitedShrunk(entries: map<nat, Entry>, h: nat, e: Entry, tids: set<Tid>, sites: map<Handle, Site>)
    requires Sited(entries, sites) && h in entries
    requires e == entries[h].(subs := Kept(entries[h].subs, tids), failures := e.failures)
    ensures Sited(entries[h := e], sites)
  {
    assert SubsSited(entries[h], sites);
  }

  lemma SitedSwitched(entries: map<nat, Entry>, h: nat, on: bool, sites: map<Handle, Site>)
    requires Sited(entries, sites) && h in entries
    ensures Sited(entries[h := entries[h].(enabled := on)], sites)
  {
    assert SubsSited(entries[h], sites);
  }

  lemma NothingSited(e: Entry, live: map<Handle, bool>, sites: map<Handle, Site>, asked: seq<Request>)
    ensures GrantedSited(e, map[], sites) && SitesStay(live, sites, sites) && AskedFor(e, map[], asked, asked)
  {
  }

  lemma SiteOneMore(e: Entry, before: map<Handle, bool>, live: map<Handle, bool>, answers: map<Tid, Handle>, t: Tid,
                    dh: Handle, sites0: map<Handle, Site>, sites: map<Handle, Site>, sites': map<Handle, Site>)
    requires GrantedSited(e, answers, sites) && SitesStay(before, sites0, sites)
    requires Gained(before, live, Granted(answers).Values) && (dh == 0 || dh !in live)
    requires sites' == if dh == 0 then sites else sites[dh := SiteOf(e, t)]
    ensures GrantedSited(e, answers[t := dh], sites') && SitesStay(before, sites0, sites')
  {
    forall u | u in answers && answers[u] != 0 ensures answers[u] in live {
      assert Granted(answers)[u] in Granted(answers).Values;
    }
  }

  /** The requests of one thread's install: plain, and forced after it if need be. */
  function Asks(site: Site, forcedToo: bool): seq<Request> {
    [Request(site, false)] + if forcedToo then [Request(site, true)] else []
  }

  /**
   For each of these threads, and for no other, an install was asked at the entry's address, with its length and
   kind; the refused ones of an entry that may force were asked for by force as well.
   */
  ghost predicate AskedFor(e: Entry, answers: map<Tid, Handle>, before: seq<Request>, after: seq<Request>) {
    && before <= after
    && (forall t :: t in answers ==> Request(SiteOf(e, t), false) in after[|before|..])
    && (forall t :: t in answers && answers[t] == 0 && e.forceReclaim ==>
          Request(SiteOf(e, t), true) in after[|before|..])
    && (forall r :: r in after[|before|..] ==>
          r.site.tid in answers && r.site == SiteOf(e, r.site.tid) && (r.forced ==> e.forceReclaim))
  }

  lemma AskOneMore(e: Entry, answers: map<Tid, Handle>, t: Tid, dh: Handle, forcedToo: bool, before: seq<Request>,
                   between: seq<Request>, after: seq<Request>)
    requires AskedFor(e, answers, before, between) && after == between + Asks(SiteOf(e, t), forcedToo)
    requires t !in answers && (dh == 0 && e.forceReclaim ==> forcedToo) && (forcedToo ==> e.forceReclaim)
    ensures AskedFor(e, answers[t := dh], before, after)
  {
    var more := Asks(SiteOf(e, t), forcedToo);
    assert after[|before|..] == between[|before|..] + more;
    assert more[0] == Request(SiteOf(e, t), false);
    assert forcedToo ==> more[1] == Request(SiteOf(e, t), true);
    assert before <= after by { assert between[..|before|] == after[..|before|]; }
  }

  /** The same for a whole pass. */
  ghost predicate AllAskedFor(entries: map<nat, Entry>, answers: map<nat, map<Tid, Handle>>, before: seq<Request>,
                              after: seq<Request>)
  {
    && before <= after && answers.Keys <= entries.Keys
    && (forall h, t :: h in answers && t in answers[h] ==>
          Request(SiteOf(entries[h], t), false) in after[|before|..])
    && (forall h, t :: h in answers && t in answers[h] && answers[h][t] == 0 && entries[h].forceReclaim ==>
          Request(SiteOf(entries[h], t), true) in after[|before|..])
  }

  lemma AskOneEntryMore(entries: map<nat, Entry>, answers: map<nat, map<Tid, Handle>>, h: nat, a: map<Tid, Handle>,
                        before: seq<Request>, between: seq<Request>, after: seq<Request>)
    requires AllAskedFor(entries, answers, before, between) && h in entries && h !in answers
    requires AskedFor(entries[h], a, between, after)
    ensures AllAskedFor(entries, answers[h := a], before, after)
  {
    var early, late := between[|before|..], after[|between|..];
    assert after == between + late;
    assert after[|before|..] == early + late;
    assert before <= after by { assert between[..|before|] == after[..|before|]; }
  }

  // ---- One entry in a rescan ----

  datatype Books = Books(entries: map<nat, Entry>, live: map<Handle, bool>, leaked: set<Handle>, stale: set<Handle>,
                         withheld: set<Handle>)

  /** The threads a scan finds without a slot; a scan that saw none asks for nothing. */
  ghost function Missing(e: Entry, tids: seq<Tid>): set<Tid> {
    if tids == [] then {} else Scanned(tids) - e.subs.Keys
  }

  /** The slots of threads a scan no longer finds. */
  ghost function Gone(e: Entry, tids: seq<Tid>): set<Handle> {
    if tids == [] then {} else Dropped(e.subs, Scanned(tids)).Values
  }

  ghost function AfterScan(e: Entry, tids: seq<Tid>, answers: map<Tid, Handle>): Entry
    requires answers.Keys == Missing(e, tids)
  {
    if tids == [] then e else Rescanned(e, Scanned(tids), answers)
  }

  /**
   One entry against one scan, given the driver's answers to the installs and the removals it refused.  The
   driver gains the granted slots and loses those of vanished threads it does not refuse to give up; no other
   slot is touched.
   */
  ghost predicate EntryScanned(b: Books, b': Books, h: nat, tids: seq<Tid>, answers: map<Tid, Handle>,
                               refused: set<Handle>)
    requires h in b.entries
  {
    var e := b.entries[h];
    var gone, added := Gone(e, tids), Granted(answers).Values;
    && answers.Keys == Missing(e, tids)
    && b'.entries == b.entries[h := AfterScan(e, tids, answers)]
    && b'.leaked == b.leaked + refused && b'.withheld == b.withheld + refused
    && b.live.Keys !! added && SlotsScanned(b.live, b'.live, gone, refused, added)
    && b'.stale == (b.stale - gone) + Wrong(b'.live, added, e.enabled)
  }

  // ---- A whole pass ----

  /** The slots of vanished threads, of the entries in `done`. */
  ghost function Leaving(entries: map<nat, Entry>, scan: map<nat, seq<Tid>>, done: set<nat>): set<Handle> {
    set h, x | h in done && h in entries && h in scan && x in Gone(entries[h], scan[h]) :: x
  }

  ghost function AllGranted(answers: map<nat, map<Tid, Handle>>): set<Handle> {
    set h, x | h in answers && x in Granted(answers[h]).Values :: x
  }

  /** No install was refused. */
  ghost predicate AllAnswered(answers: map<nat, map<Tid, Handle>>) {
    forall h :: h in answers ==> Granted(answers[h]) == answers[h]
  }

  /** The granted slots that are not switched as their entry says. */
  ghost function AllWrong(live: map<Handle, bool>, answers: map<nat, map<Tid, Handle>>, entries: map<nat, Entry>)
      : set<Handle>
  {
    set h, x | h in answers && h in entries && x in Wrong(live, Granted(answers[h]).Values, entries[h].enabled) :: x
  }

  /** The entries in `done` were scanned, with these answers; the others are as they were. */
  ghost predicate EntriesScanned(before: map<nat, Entry>, after: map<nat, Entry>, scan: map<nat, seq<Tid>>,
                                 done: set<nat>, answers: map<nat, map<Tid, Handle>>)
  {
    && answers.Keys == done <= before.Keys <= scan.Keys && after.Keys == before.Keys
    && (forall h :: h in done ==> answers[h].Keys == Missing(before[h], scan[h]))
    && (forall h :: h in done ==> after[h] == AfterScan(before[h], scan[h], answers[h]))
    && (forall h :: h in before && h !in done ==> after[h] == before[h])
  }

  /**
   The entries in `done` were scanned, one after the other.  The answers and the refused removals fix
   everything: the entries, the driver's slots and both exception sets.
   */
  ghost predicate Scanning(b: Books, b': Books, scan: map<nat, seq<Tid>>, done: set<nat>,
                           answers: map<nat, map<Tid, Handle>>, refused: set<Handle>)
  {
    && EntriesScanned(b.entries, b'.entries, scan, done, answers)
    && SlotsScanned(b.live, b'.live, Leaving(b.entries, scan, done), refused, AllGranted(answers))
    && b'.leaked == b.leaked + refused && b'.withheld == b.withheld + refused
    && b'.stale == (b.stale - Leaving(b.entries, scan, done)) + AllWrong(b'.live, answers, b.entries)
  }

  lemma AfterScanOwns(e: Entry, tids: seq<Tid>, answers: map<Tid, Handle>, t: Tid)
    requires answers.Keys == Missing(e, tids) && t in Granted(answers)
    ensures var e' := AfterScan(e, tids, answers);
      t in Scanned(tids) && t !in e.subs && t in e'.subs && e'.subs[t] == answers[t]
  {
  }

  lemma GoneIsOwned(entries: map<nat, Entry>, owner: map<Handle, (nat, Tid)>, h: nat, tids: seq<Tid>)
    requires Inverts(entries, owner) && h in entries
    ensures forall x :: x in Gone(entries[h], tids) ==> x in owner && owner[x].0 == h
  {
    DroppedOwned(entries, owner, h, Scanned(tids));
  }

  /** The slots an entry gives up are given up by no other entry, and none of them is new in this pass. */
  lemma GoneApart(b: Books, b': Books, owner: map<Handle, (nat, Tid)>, owner': map<Handle, (nat, Tid)>,
                  scan: map<nat, seq<Tid>>, done: set<nat>, answers: map<nat, map<Tid, Handle>>,
                  refused: set<Handle>, h: nat)
    requires Inverts(b.entries, owner) && Inverts(b'.entries, owner')
    requires Scanning(b, b', scan, done, answers, refused) && h in b.entries && h !in done
    ensures Gone(b.entries[h], scan[h]) !! Leaving(b.entries, scan, done)
    ensures Gone(b.entries[h], scan[h]) !! AllGranted(answers)
  {
    GoneIsOwned(b.entries, owner, h, scan[h]);
    GoneIsOwned(b'.entries, owner', h, scan[h]);
    var gone := Gone(b.entries[h], scan[h]);
    forall x | x in Leaving(b.entries, scan, done) ensures x !in gone {
      var k :| k in done && k in b.entries && k in scan && x in Gone(b.entries[k], scan[k]);
      GoneIsOwned(b.entries, owner, k, scan[k]);
    }
    forall x | x in AllGranted(answers) ensures x !in gone {
      var k :| k in answers && x in Granted(answers[k]).Values;
      var t: Tid :| t in Granted(answers[k]) && answers[k][t] == x;
      AfterScanOwns(b.entries[k], scan[k], answers[k], t);
      assert b'.entries[k].subs[t] == x;
    }
  }

  lemma LeavingOneMore(entries: map<nat, Entry>, scan: map<nat, seq<Tid>>, done: set<nat>, h: nat)
    requires h in entries && h in scan
    ensures Leaving(entries, scan, done + {h}) == Leaving(entries, scan, done) + Gone(entries[h], scan[h])
  {
  }

  lemma GrantedOneEntryMore(answers: map<nat, map<Tid, Handle>>, h: nat, a: map<Tid, Handle>)
    requires h !in answers
    ensures AllGranted(answers[h := a]) == AllGranted(answers) + Granted(a).Values
  {
    var answers' := answers[h := a];
    forall x | x in AllGranted(answers) + Granted(a).Values ensures x in AllGranted(answers') {
      if x in Granted(a).Values {
        assert x in Granted(answers'[h]).Values;
      } else {
        var k :| k in answers && x in Granted(answers[k]).Values;
        assert x in Granted(answers'[k]).Values;
      }
    }
  }

  lemma WrongOneEntryMore(live: map<Handle, bool>, live': map<Handle, bool>, answers: map<nat, map<Tid, Handle>>,
                          entries: map<nat, Entry>, h: nat, a: map<Tid, Handle>)
    requires h !in answers && h in entries && AllGranted(answers) <= live.Keys && AllGranted(answers) <= live'.Keys
    requires forall x :: x in AllGranted(answers) ==> live'[x] == live[x]
    ensures AllWrong(live', answers[h := a], entries) ==
      AllWrong(live, answers, entries) + Wrong(live', Granted(a).Values, entries[h].enabled)
  {
    var answers' := answers[h := a];
    forall k, x | k in answers && x in Granted(answers[k]).Values ensures x in AllGranted(answers) {
    }
    forall x | x in AllWrong(live', answers', entries)
      ensures x in AllWrong(live, answers, entries) + Wrong(live', Granted(a).Values, entries[h].enabled)
    {
      var k :| k in answers' && k in entries && x in Wrong(live', Granted(answers'[k]).Values, entries[k].enabled);
      if k != h { assert x in Wrong(live, Granted(answers[k]).Values, entries[k].enabled); }
    }
    forall x | x in AllWrong(live, answers, entries) + Wrong(live', Granted(a).Values, entries[h].enabled)
      ensures x in AllWrong(live', answers', entries)
    {
      if x in AllWrong(live, answers, entries) {
        var k :| k in answers && k in entries && x in Wrong(live, Granted(answers[k]).Values, entries[k].enabled);
        assert x in Wrong(live', Granted(answers'[k]).Values, entries[k].enabled);
      } else {
        assert x in Wrong(live', Granted(answers'[h]).Values, entries[h].enabled);
      }
    }
  }

  lemma EntriesOneMore(before: map<nat, Entry>, between: map<nat, Entry>, after: map<nat, Entry>,
                       scan: map<nat, seq<Tid>>, done: set<nat>, answers: map<nat, map<Tid, Handle>>, h: nat,
                       a: map<Tid, Handle>)
    requires EntriesScanned(before, between, scan, done, answers) && h in before && h !in done
    requires a.Keys == Missing(before[h], scan[h])
    requires after == between[h := AfterScan(before[h], scan[h], a)]
    ensures EntriesScanned(before, after, scan, done + {h}, answers[h := a])
  {
  }

  lemma EntriesUndone(before: map<nat, Entry>, after: map<nat, Entry>, scan: map<nat, seq<Tid>>,
                      done: set<nat>, answers: map<nat, map<Tid, Handle>>, h: nat)
    requires EntriesScanned(before, after, scan, done, answers) && h in before && h !in done
    ensures h in after && after[h] == before[h] && h !in answers
  {
  }

  lemma SlotsOneMore(before: map<Handle, bool>, between: map<Handle, bool>, after: map<Handle, bool>,
                     leaving: set<Handle>, refused: set<Handle>, added: set<Handle>, gone: set<Handle>,
                     kept: set<Handle>, more: set<Handle>)
    requires SlotsScanned(before, between, leaving, refused, added)
    requires SlotsScanned(between, after, gone, kept, more) && between.Keys !! more
    requires gone <= between.Keys && gone !! leaving && gone !! added
    ensures added <= between.Keys && added <= after.Keys
    ensures forall x :: x in added ==> after[x] == between[x]
    ensures SlotsScanned(before, after, leaving + gone, refused + kept, added + more)
  {
    var left, left' := before.Keys - (leaving - refused), before.Keys - ((leaving + gone) - (refused + kept));
    assert left' == left - (gone - kept);
    assert after.Keys == left' + (added + more);
  }

  /** One entry more. */
  lemma ScanningOneMore(b: Books, b': Books, b'': Books, scan: map<nat, seq<Tid>>, done: set<nat>,
                        answers: map<nat, map<Tid, Handle>>, refused: set<Handle>, h: nat, a: map<Tid, Handle>,
                        kept: set<Handle>)
    requires Scanning(b, b', scan, done, answers, refused) && h in b.entries && h !in done
    requires EntryScanned(b', b'', h, scan[h], a, kept)
    requires Gone(b.entries[h], scan[h]) !! Leaving(b.entries, scan, done)
    requires Gone(b.entries[h], scan[h]) !! AllGranted(answers) && Gone(b.entries[h], scan[h]) <= b'.live.Keys
    ensures Scanning(b, b'', scan, done + {h}, answers[h := a], refused + kept)
  {
    assert h in scan;
    hide Gone, Leaving, AllGranted, AllWrong, Wrong, Granted, Missing, AfterScan, EntriesScanned, SlotsScanned;
    var gone, leaving, added := Gone(b.entries[h], scan[h]), Leaving(b.entries, scan, done), AllGranted(answers);
    var more, answers' := Granted(a).Values, answers[h := a];
    EntriesUndone(b.entries, b'.entries, scan, done, answers, h);
    EntriesOneMore(b.entries, b'.entries, b''.entries, scan, done, answers, h, a);
    SlotsOneMore(b.live, b'.live, b''.live, leaving, refused, added, gone, kept, more);
    LeavingOneMore(b.entries, scan, done, h);
    GrantedOneEntryMore(answers, h, a);
    StaleOneMore(b, b', b'', leaving, gone, added, answers, h, a);
    hide EntryScanned;
    assert b''.leaked == b.leaked + (refused + kept) && b''.withheld == b.withheld + (refused + kept);
    assert Scanning(b, b'', scan, done + {h}, answers', refused + kept);
  }

  lemma StaleOneMore(b: Books, b': Books, b'': Books, leaving: set<Handle>, gone: set<Handle>, added: set<Handle>,
                     answers: map<nat, map<Tid, Handle>>, h: nat, a: map<Tid, Handle>)
    requires h !in answers && h in b.entries && added == AllGranted(answers) && gone !! added
    requires added <= b'.live.Keys && added <= b''.live.Keys
    requires forall x :: x in added ==> b''.live[x] == b'.live[x]
    requires b'.stale == (b.stale - leaving) + AllWrong(b'.live, answers, b.entries)
    requires b''.stale == (b'.stale - gone) + Wrong(b''.live, Granted(a).Values, b.entries[h].enabled)
    ensures b''.stale == (b.stale - (leaving + gone)) + AllWrong(b''.live, answers[h := a], b.entries)
  {
    WrongOneEntryMore(b'.live, b''.live, answers, b.entries, h, a);
    WrongAreGranted(b'.live, answers, b.entries);
    hide AllGranted, AllWrong, Wrong, Granted;
  }

  lemma WrongAreGranted(live: map<Handle, bool>, answers: map<nat, map<Tid, Handle>>, entries: map<nat, Entry>)
    ensures AllWrong(live, answers, entries) <= AllGranted(answers)
  {
    forall x | x in AllWrong(live, answers, entries) ensures x in AllGranted(answers) {
      var k :| k in answers && k in entries && x in Wrong(live, Granted(answers[k]).Values, entries[k].enabled);
      assert x in Granted(answers[k]).Values;
    }
  }

  /** Scanning a settled entry again, when nothing is granted, changes no book. */
  lemma EntryScannedStays(b: Books, b': Books, h: nat, tids: seq<Tid>, answers: map<Tid, Handle>,
                          refused: set<Handle>)
    requires h in b.entries && EntryScanned(b, b', h, tids, answers, refused)
    requires SettledOn(b.entries[h], tids) && Granted(answers) == map[]
    ensures b' == b && refused == {}
  {
    EntryStays(b.entries[h], tids, answers);
    assert b'.live.Keys == b.live.Keys;
    assert b'.live == b.live;
    assert b'.entries == b.entries;
  }

  lemma NothingSeen(b: Books, h: nat)
    requires h in b.entries
    ensures EntryScanned(b, b, h, [], map[], {})
  {
    assert b.live.Keys - ({} - {}) + {} == b.live.Keys;
    assert b.entries[h := b.entries[h]] == b.entries;
    assert Granted(map[]).Values == {};
  }

  lemma AnsweredOneMore(answers: map<nat, map<Tid, Handle>>, h: nat, a: map<Tid, Handle>)
    ensures AllAnswered(answers) && Granted(a) == a ==> AllAnswered(answers[h := a])
  {
  }

  lemma NothingScanned(b: Books, scan: map<nat, seq<Tid>>)
    requires b.entries.Keys <= scan.Keys
    ensures Scanning(b, b, scan, {}, map[], {}) && AllAnswered(map[])
  {
    assert b.live.Keys - ({} - {}) == b.live.Keys;
  }

  /**
   What a pass adds and loses, in the caller's terms.  A slot newly leaked belonged to a thread that vanished;
   a slot granted belongs to a scanned thread that had none; when nobody vanished nothing leaks, and when nobody
   is missing a slot nothing is granted.
   */
  lemma PassExact(b: Books, b': Books, owner: map<Handle, (nat, Tid)>, scan: map<nat, seq<Tid>>,
                  answers: map<nat, map<Tid, Handle>>, refused: set<Handle>)
    requires Inverts(b.entries, owner) && Scanning(b, b', scan, b.entries.Keys, answers, refused)
    ensures forall x :: x in refused ==>
      x in owner && owner[x].0 in b.entries && scan[owner[x].0] != [] && owner[x].1 !in scan[owner[x].0]
    ensures forall x :: x in AllGranted(answers) ==> exists h, t ::
      h in b.entries && t in scan[h] && t !in b.entries[h].subs && t in b'.entries[h].subs && b'.entries[h].subs[t] == x
    ensures (forall h :: h in b.entries ==> Gone(b.entries[h], scan[h]) == {}) ==> refused == {}
    ensures (forall h :: h in b.entries ==> Missing(b.entries[h], scan[h]) == {}) ==> AllGranted(answers) == {}
  {
    forall x | x in refused
      ensures x in owner && owner[x].0 in b.entries && scan[owner[x].0] != [] && owner[x].1 !in scan[owner[x].0]
    {
      var h :| h in b.entries && x in Gone(b.entries[h], scan[h]);
      DroppedOwned(b.entries, owner, h, Scanned(scan[h]));
      assert owner[x].1 !in Scanned(scan[h]);
    }
    forall x | x in AllGranted(answers) ensures exists h, t ::
      h in b.entries && t in scan[h] && t !in b.entries[h].subs && t in b'.entries[h].subs && b'.entries[h].subs[t] == x
    {
      var h :| h in answers && x in Granted(answers[h]).Values;
      var t: Tid :| t in Granted(answers[h]) && answers[h][t] == x;
      AfterScanOwns(b.entries[h], scan[h], answers[h], t);
    }
  }

  /** After a scan, just the refused installs are asked for again. */
  lemma AskedAgain(e: Entry, tids: seq<Tid>, answers: map<Tid, Handle>)
    requires answers.Keys == Missing(e, tids)
    ensures Missing(AfterScan(e, tids, answers), tids) == Refused(answers)
    ensures Settled(e, AfterScan(e, tids, answers), tids)
  {
    RescanSettles(e, tids, answers);
  }

  /** A settled entry that is scanned again, and granted nothing, stays and gives up nothing. */
  lemma EntryStays(e: Entry, tids: seq<Tid>, answers: map<Tid, Handle>)
    requires SettledOn(e, tids) && answers.Keys == Missing(e, tids) && Granted(answers) == map[]
    ensures AfterScan(e, tids, answers) == e && Gone(e, tids) == {}
  {
    if tids != [] { SettledStays(e, tids, answers); }
  }

  lemma SettledGivesNothingUp(e: Entry, tids: seq<Tid>)
    requires SettledOn(e, tids)
    ensures Gone(e, tids) == {}
  {
    assert tids != [] ==> Dropped(e.subs, Scanned(tids)) == map[];
  }

  /** Scanning settled entries again changes no book exactly when nothing is granted. */
  lemma PassStays(b: Books, b': Books, scan: map<nat, seq<Tid>>, answers: map<nat, map<Tid, Handle>>,
                  refused: set<Handle>)
    requires Scanning(b, b', scan, b.entries.Keys, answers, refused)
    requires forall h :: h in b.entries ==> SettledOn(b.entries[h], scan[h])
    ensures refused == {} && (b' == b <==> forall h :: h in b.entries ==> Granted(answers[h]) == map[])
  {
    hide SettledOn, Granted, Missing, AfterScan, Gone, Wrong, AllWrong;
    forall h | h in b.entries ensures Gone(b.entries[h], scan[h]) == {} {
      SettledGivesNothingUp(b.entries[h], scan[h]);
    }
    assert Leaving(b.entries, scan, b.entries.Keys) == {};
    if h :| h in b.entries && Granted(answers[h]) != map[] {
      SomeValue(Granted(answers[h]));
      var x :| x in Granted(answers[h]).Values;
      assert x in AllGranted(answers) && x !in b.live && x in b'.live;
    } else {
      hide *;
      NothingGranted(b, b', scan, answers);
    }
  }

  lemma NothingGranted(b: Books, b': Books, scan: map<nat, seq<Tid>>, answers: map<nat, map<Tid, Handle>>)
    requires Scanning(b, b', scan, b.entries.Keys, answers, {}) && Leaving(b.entries, scan, b.entries.Keys) == {}
    requires forall h :: h in b.entries ==> SettledOn(b.entries[h], scan[h]) && Granted(answers[h]) == map[]
    ensures b' == b
  {
    forall h | h in b.entries ensures b'.entries[h] == b.entries[h] && Granted(answers[h]).Values == {} {
      EntryStays(b.entries[h], scan[h], answers[h]);
    }
    assert AllGranted(answers) == {};
    WrongAreGranted(b'.live, answers, b.entries);
    assert b'.entries == b.entries;
    assert b'.live.Keys == b.live.Keys;
    assert b'.live == b.live;
  }

  lemma OneLess(all: set<nat>, done: set<nat>, todo: set<nat>, h: nat)
    requires done == all - todo && todo <= all && h in todo
    ensures h in all && h !in done && done + {h} == all - (todo - {h}) && todo - {h} <= all
  {
  }

  lemma NothingLeft(all: set<nat>, done: set<nat>, todo: set<nat>)
    requires |todo| == 0 && done == all - todo
    ensures done == all
  {
    assert todo == {};
  }

  /** The entries in `done` were scanned, and the driver was asked for what they lacked. */
  ghost predicate ScannedAndAsked(b: Books, b': Books, scan: map<nat, seq<Tid>>, done: set<nat>,
                                  answers: map<nat, map<Tid, Handle>>, refused: set<Handle>, asked: seq<Request>,
                                  asked': seq<Request>)
  {
    Scanning(b, b', scan, done, answers, refused) && AllAskedFor(b.entries, answers, asked, asked')
  }

  lemma NothingScannedOrAsked(b: Books, scan: map<nat, seq<Tid>>, asked: seq<Request>)
    requires b.entries.Keys <= scan.Keys
    ensures ScannedAndAsked(b, b, scan, {}, map[], {}, asked, asked) && AllAnswered(map[])
  {
    NothingScanned(b, scan);
  }

  lemma BothDone(b: Books, b': Books, scan: map<nat, seq<Tid>>, done: set<nat>, answers: map<nat, map<Tid, Handle>>,
                 refused: set<Handle>, asked: seq<Request>, asked': seq<Request>)
    requires ScannedAndAsked(b, b', scan, done, answers, refused, asked, asked')
    ensures Scanning(b, b', scan, done, answers, refused) && AllAskedFor(b.entries, answers, asked, asked')
  {
  }

  lemma PassSettles(b: Books, b': Books, scan: map<nat, seq<Tid>>, answers: map<nat, map<Tid, Handle>>,
                    refused: set<Handle>)
    requires Scanning(b, b', scan, b.entries.Keys, answers, refused)
    ensures b'.entries.Keys == b.entries.Keys == answers.Keys
    ensures forall h :: h in b'.entries ==> Settled(b.entries[h], b'.entries[h], scan[h])
  {
    forall h | h in b'.entries ensures Settled(b.entries[h], b'.entries[h], scan[h]) {
      AskedAgain(b.entries[h], scan[h], answers[h]);
    }
  }

  lemma AllRefused(answers: map<Tid, Handle>)
    ensures Granted(answers) == map[] <==> Refused(answers) == answers.Keys
    ensures Granted(answers) == answers <==> Refused(answers) == {}
  {
    forall t | t in answers ensures t in Granted(answers) <==> t !in Refused(answers) {
    }
    if Granted(answers) == answers {
      assert Refused(answers) == {};
    }
    if Refused(answers) == {} {
      assert Granted(answers).Keys == answers.Keys;
    }
    if Refused(answers) == answers.Keys {
      assert Granted(answers).Keys == {};
    }
  }

  /** Two passes over the same threads. */
  lemma PassTwice(b: Books, b': Books, b'': Books, scan: map<nat, seq<Tid>>, first: map<nat, map<Tid, Handle>>,
                  kept: set<Handle>, second: map<nat, map<Tid, Handle>>, kept': set<Handle>)
    requires Scanning(b, b', scan, b.entries.Keys, first, kept)
    requires Scanning(b', b'', scan, b'.entries.Keys, second, kept')
    ensures first.Keys == second.Keys == b'.entries.Keys
    ensures forall h :: h in first ==> second[h].Keys == Refused(first[h])
    ensures kept' == {} && (b'' == b' <==> forall h :: h in first ==> Refused(second[h]) == Refused(first[h]))
    ensures AllAnswered(first) ==> b'' == b'
  {
    PassSettles(b, b', scan, first, kept);
    forall h | h in first
      ensures second[h].Keys == Refused(first[h]) && SettledOn(b'.entries[h], scan[h])
      ensures Granted(second[h]) == map[] <==> Refused(second[h]) == Refused(first[h])
      ensures Granted(first[h]) == first[h] ==> Granted(second[h]) == map[]
    {
      AskedAgain(b.entries[h], scan[h], first[h]);
      AllRefused(first[h]);
      AllRefused(second[h]);
    }
    PassStays(b', b'', scan, second, kept');
  }

  /** The owned slots in `taken` lost their entries and were given up, but for the refused ones, which leaked. */
  ghost predicate GivenUp(b: Books, b': Books, owner: map<Handle, (nat, Tid)>, owner': map<Handle, (nat, Tid)>,
                          taken: set<Handle>, refused: set<Handle>)
  {
    && refused <= taken <= owner.Keys && owner' == owner - taken
    && b'.live == b.live - (taken - refused)
    && b'.leaked == b.leaked + refused && b'.withheld == b.withheld + refused
  }

  lemma NothingGivenUp(b: Books, owner: map<Handle, (nat, Tid)>)
    ensures GivenUp(b, b, owner, owner, {}, {})
  {
    assert b.live == b.live - ({} - {}) && owner == owner - {};
  }

  lemma GiveUpMore(b: Books, b': Books, b'': Books, owner: map<Handle, (nat, Tid)>, owner': map<Handle, (nat, Tid)>,
                   owner'': map<Handle, (nat, Tid)>, taken: set<Handle>, refused: set<Handle>, mine: set<Handle>,
                   kept: set<Handle>)
    requires GivenUp(b, b', owner, owner', taken, refused) && kept <= mine <= owner'.Keys
    requires owner'' == owner' - mine && b''.live == b'.live - (mine - kept)
    requires b''.leaked == b'.leaked + kept && b''.withheld == b'.withheld + kept
    ensures GivenUp(b, b'', owner, owner'', taken + mine, refused + kept)
  {
    assert (taken - refused) + (mine - kept) == (taken + mine) - (refused + kept);
    assert owner'' == owner - (taken + mine);
    assert b''.live == b.live - ((taken + mine) - (refused + kept));
  }

  lemma AllGivenUp(b: Books, b': Books, owner: map<Handle, (nat, Tid)>, taken: set<Handle>, refused: set<Handle>)
    requires GivenUp(b, b', owner, map[], taken, refused)
    ensures taken == owner.Keys && refused <= owner.Keys && b'.live == b.live - (owner.Keys - refused)
    ensures b'.leaked == b.leaked + refused && b'.withheld == b.withheld + refused
  {
    forall x | x in owner ensures x in taken {
      assert x in owner - taken || x in taken;
    }
  }

  lemma MineAreOwned(entries: map<nat, Entry>, owner: map<Handle, (nat, Tid)>, h: nat)
    requires Inverts(entries, owner) && h in entries
    ensures entries[h].subs.Values <= owner.Keys
  {
    forall x | x in entries[h].subs.Values ensures x in owner {
      var t: Tid :| t in entries[h].subs && entries[h].subs[t] == x;
    }
  }
}
