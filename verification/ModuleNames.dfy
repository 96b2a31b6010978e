/**
 Module lists and how a name or a base picks one module (gui/mem/MemService.cpp).  A module is mapped in
 several pieces with one name; the pieces are grouped by their lower-cased name and the lowest stands for
 the group.
 */
module ModuleNames {
  import opened Basics
  import opened Text
  import opened ServiceContext

  datatype Module = Module(base: nat, size: nat, name: string)
  datatype Group = Group(key: string, rep: Module)

  const MAX_TEXT_BYTES: nat := 4096
  const MAX_NAME_BYTES: nat := 65536
  const MAX_MODULE_COUNT: nat := 65536
  const MAX_NAME_BYTES_TOTAL: nat := 64 * 1024 * 1024

  // ---- The reply as a whole ----

  function NameBytes(ms: seq<Module>): nat {
    if ms == [] then 0 else NameBytes(ms[..|ms| - 1]) + |ms[|ms| - 1].name|
  }

  lemma {:induction false} NameBytesGrow(ms: seq<Module>, i: nat)
    requires i <= |ms|
    ensures NameBytes(ms[..i]) <= NameBytes(ms)
    decreases |ms|
  {
    if i < |ms| {
      NameBytesGrow(ms[..|ms| - 1], i);
      assert ms[..|ms| - 1][..i] == ms[..i];
    } else {
      assert ms[..i] == ms;
    }
  }

  predicate ValidModule(m: Module) {
    0 < m.base && 0 < m.size && m.base + m.size <= U64_MAX && |m.name| <= MAX_NAME_BYTES
  }

  predicate ValidList(ms: seq<Module>) {
    && |ms| <= MAX_MODULE_COUNT
    && (forall i :: 0 <= i < |ms| ==> ValidModule(ms[i]))
    && NameBytes(ms) <= MAX_NAME_BYTES_TOTAL
  }

  /** `validateModules`: the running total refuses exactly the lists whose names are too long together. */
  method ValidateModules(ms: seq<Module>) returns (error: Option<Error>)
    ensures error.None? <==> ValidList(ms)
    ensures error.Some? ==> error.value == Error(ProtocolError, false, None)
  {
    if |ms| > MAX_MODULE_COUNT { return Some(Error(ProtocolError, false, None)); }
    var total := 0;
    for i := 0 to |ms|
      invariant total == NameBytes(ms[..i]) <= MAX_NAME_BYTES_TOTAL
      invariant forall j :: 0 <= j < i ==> ValidModule(ms[j])
    {
      var m := ms[i];
      assert ms[..i + 1][..i] == ms[..i];
      NameBytesGrow(ms, i + 1);
      if m.base == 0 || m.size == 0 || m.base > U64_MAX - m.size || |m.name| > MAX_NAME_BYTES
        || total > MAX_NAME_BYTES_TOTAL - |m.name|
      {
        return Some(Error(ProtocolError, false, None));
      }
      total := total + |m.name|;
    }
    assert ms[..|ms|] == ms;
    return None;
  }

  // ---- Groups ----

  function Key(m: Module): string { Lower(m.name) }

  /** Module `i` stands for its key: nothing of that key is lower, and of equals it comes first. */
  ghost predicate StandsFor(ms: seq<Module>, key: string, i: int) {
    && 0 <= i < |ms| && Key(ms[i]) == key
    && forall j :: 0 <= j < |ms| && Key(ms[j]) == key ==>
      ms[i].base <= ms[j].base && (j < i ==> ms[i].base < ms[j].base)
  }

  lemma StandsForUnique(ms: seq<Module>, key: string, i: int, j: int)
    requires StandsFor(ms, key, i) && StandsFor(ms, key, j)
    ensures i == j
  {
  }

  /** `m` is the module that stands for `key`. */
  ghost predicate IsRep(ms: seq<Module>, key: string, m: Module)
    ensures IsRep(ms, key, m) ==> Key(m) == key
  {
    exists i :: StandsFor(ms, key, i) && ms[i] == m
  }

  lemma RepUnique(ms: seq<Module>, key: string, m: Module, n: Module)
    requires IsRep(ms, key, m) && IsRep(ms, key, n)
    ensures m == n
  {
    var i :| StandsFor(ms, key, i) && ms[i] == m;
    var j :| StandsFor(ms, key, j) && ms[j] == n;
    StandsForUnique(ms, key, i, j);
  }

  ghost predicate Grouped(ms: seq<Module>, groups: seq<Group>) {
    && (forall g, h :: 0 <= g < h < |groups| ==> groups[g].key != groups[h].key)
    && (forall g :: 0 <= g < |groups| ==> IsRep(ms, groups[g].key, groups[g].rep))
    && forall i :: 0 <= i < |ms| ==> HasGroup(groups, Key(ms[i]))
  }

  ghost predicate HasGroup(groups: seq<Group>, key: string) {
    exists g :: 0 <= g < |groups| && groups[g].key == key
  }

  lemma RepOfOther(ms: seq<Module>, m: Module, key: string, rep: Module)
    requires IsRep(ms, key, rep) && (Key(m) == key ==> rep.base <= m.base)
    ensures IsRep(ms + [m], key, rep)
  {
    var i :| StandsFor(ms, key, i) && ms[i] == rep;
    assert StandsFor(ms + [m], key, i);
  }

  lemma RepIsNew(ms: seq<Module>, m: Module)
    requires forall j :: 0 <= j < |ms| && Key(ms[j]) == Key(m) ==> m.base < ms[j].base
    ensures IsRep(ms + [m], Key(m), m)
  {
    assert StandsFor(ms + [m], Key(m), |ms|);
  }

  /** `groupModules`. */
  method GroupModules(ms: seq<Module>) returns (groups: seq<Group>)
    ensures Grouped(ms, groups)
  {
    groups := [];
    for i := 0 to |ms|
      invariant Grouped(ms[..i], groups)
    {
      hide Grouped, Key;
      var found := FindGroup(groups, Key(ms[i]));
      assert ms[..i + 1] == ms[..i] + [ms[i]];
      if found == |groups| {
        AddGroup(ms[..i], groups, ms[i]);
        groups := groups + [Group(Key(ms[i]), ms[i])];
      } else {
        MeetGroup(ms[..i], groups, ms[i], found);
        if ms[i].base < groups[found].rep.base { groups := groups[found := Group(Key(ms[i]), ms[i])]; }
      }
    }
    assert ms[..|ms|] == ms;
  }

  method FindGroup(groups: seq<Group>, key: string) returns (g: nat)
    ensures g <= |groups| && (g < |groups| ==> groups[g].key == key)
    ensures g == |groups| ==> !HasGroup(groups, key)
  {
    g := 0;
    while g < |groups| && groups[g].key != key
      invariant g <= |groups| && forall h :: 0 <= h < g ==> groups[h].key != key
    {
      g := g + 1;
    }
  }

  /** A name seen for the first time opens a group. */
  lemma AddGroup(ms: seq<Module>, groups: seq<Group>, m: Module)
    requires Grouped(ms, groups) && !HasGroup(groups, Key(m))
    ensures Grouped(ms + [m], groups + [Group(Key(m), m)])
  {
    hide StandsFor, Key;
    var r := groups + [Group(Key(m), m)];
    assert r[|groups|].key == Key(m);
    forall g | 0 <= g < |r| ensures IsRep(ms + [m], r[g].key, r[g].rep) {
      if g < |groups| {
        RepOfOther(ms, m, groups[g].key, groups[g].rep);
      } else {
        NobodyElse(ms, groups, Key(m));
        RepIsNew(ms, m);
      }
    }
    KeysCovered(ms, groups, m, r);
  }

  lemma NobodyElse(ms: seq<Module>, groups: seq<Group>, key: string)
    requires Grouped(ms, groups) && !HasGroup(groups, key)
    ensures forall i :: 0 <= i < |ms| ==> Key(ms[i]) != key
  {
  }

  lemma KeysCovered(ms: seq<Module>, groups: seq<Group>, m: Module, r: seq<Group>)
    requires Grouped(ms, groups) && HasGroup(r, Key(m))
    requires |groups| <= |r| && forall g :: 0 <= g < |groups| ==> r[g].key == groups[g].key
    ensures forall i :: 0 <= i < |ms + [m]| ==> HasGroup(r, Key((ms + [m])[i]))
  {
    forall i | 0 <= i < |ms + [m]| ensures HasGroup(r, Key((ms + [m])[i])) {
      if i < |ms| {
        assert HasGroup(groups, Key(ms[i]));
        var g :| 0 <= g < |groups| && groups[g].key == Key(ms[i]);
        assert r[g].key == Key(ms[i]);
      }
    }
  }

  /** A lower piece of a known name takes over its group. */
  lemma MeetGroup(ms: seq<Module>, groups: seq<Group>, m: Module, found: nat)
    requires Grouped(ms, groups) && found < |groups| && groups[found].key == Key(m)
    ensures m.base < groups[found].rep.base ==> Grouped(ms + [m], groups[found := Group(Key(m), m)])
    ensures m.base >= groups[found].rep.base ==> Grouped(ms + [m], groups)
  {
    hide StandsFor, Key;
    var r := if m.base < groups[found].rep.base then groups[found := Group(Key(m), m)] else groups;
    forall g | 0 <= g < |r| ensures IsRep(ms + [m], r[g].key, r[g].rep) {
      if g == found && m.base < groups[found].rep.base {
        RepIsLowest(ms, Key(m), groups[found].rep);
        RepIsNew(ms, m);
      } else {
        RepOfOther(ms, m, groups[g].key, groups[g].rep);
      }
    }
    assert r[found].key == Key(m);
    KeysCovered(ms, groups, m, r);
  }

  lemma RepIsLowest(ms: seq<Module>, key: string, rep: Module)
    requires IsRep(ms, key, rep)
    ensures forall j :: 0 <= j < |ms| && Key(ms[j]) == key ==> rep.base <= ms[j].base
  {
  }

  // ---- By name ----

  predicate IsSpace(c: char) {
    c == ' ' || ('\t' <= c <= '\r')
  }

  /** `trimAscii`. */
  function TrimAscii(s: string): (r: string)
    ensures r == "" || (!IsSpace(r[0]) && !IsSpace(r[|r| - 1]))
    decreases |s|
  {
    if s == "" then ""
    else if IsSpace(s[0]) then TrimAscii(s[1..])
    else if IsSpace(s[|s| - 1]) then TrimAscii(s[..|s| - 1])
    else s
  }

  predicate AllSpace(s: string) { forall i :: 0 <= i < |s| ==> IsSpace(s[i]) }

  lemma TrimFirst(c: char, s: string)
    requires IsSpace(c)
    ensures TrimAscii([c] + s) == TrimAscii(s)
  {
    assert ([c] + s)[1..] == s;
  }

  lemma TrimLast(s: string, c: char)
    requires IsSpace(c) && (s == "" || !IsSpace(s[0]))
    ensures TrimAscii(s + [c]) == TrimAscii(s)
  {
    var t := s + [c];
    assert t[..|t| - 1] == s;
    if s == "" { assert t[1..] == ""; }
  }

  lemma {:induction false} TrimAfter(text: string, after: string)
    requires AllSpace(after) && (text == "" || (!IsSpace(text[0]) && !IsSpace(text[|text| - 1])))
    ensures TrimAscii(text + after) == text
    decreases |after|
  {
    if after == "" {
      assert text + after == text;
    } else if text == "" {
      assert text + after == [after[0]] + after[1..] && text + after[1..] == after[1..];
      TrimFirst(after[0], after[1..]);
      TrimAfter(text, after[1..]);
    } else {
      var n := |after| - 1;
      assert text + after == (text + after[..n]) + [after[n]];
      TrimLast(text + after[..n], after[n]);
      TrimAfter(text, after[..n]);
    }
  }

  /** Trimming takes away the blanks around a text, and nothing else. */
  lemma {:induction false} TrimAsciiPadded(before: string, text: string, after: string)
    requires AllSpace(before) && AllSpace(after)
    requires text == "" || (!IsSpace(text[0]) && !IsSpace(text[|text| - 1]))
    ensures TrimAscii(before + text + after) == text
    decreases |before|
  {
    if before == "" {
      assert before + text + after == text + after;
      TrimAfter(text, after);
    } else {
      assert before + text + after == [before[0]] + (before[1..] + text + after);
      TrimFirst(before[0], before[1..] + text + after);
      TrimAsciiPadded(before[1..], text, after);
    }
  }

  predicate IsSeparator(c: char) {
    c == '/' || c == '\\'
  }

  /** `moduleBaseName`: what follows the last separator. */
  function BaseName(path: string): (r: string)
    ensures forall i :: 0 <= i < |r| ==> !IsSeparator(r[i])
  {
    if path == "" || IsSeparator(path[|path| - 1]) then ""
    else BaseName(path[..|path| - 1]) + [path[|path| - 1]]
  }

  /** The directory of a path: nothing, or everything up to a separator. */
  predicate IsDirectory(s: string) { s == "" || IsSeparator(s[|s| - 1]) }

  /** The last part of a directory and a name is the name. */
  lemma {:induction false} BaseNameOf(directory: string, name: string)
    requires IsDirectory(directory) && forall i :: 0 <= i < |name| ==> !IsSeparator(name[i])
    ensures BaseName(directory + name) == name
    decreases |name|
  {
    var path := directory + name;
    if name == "" {
      assert path == directory;
    } else {
      var n := |name| - 1;
      assert path[..|path| - 1] == directory + name[..n] && path[|path| - 1] == name[n];
      BaseNameOf(directory, name[..n]);
    }
  }

  lemma {:induction false} PathSplits(path: string) returns (directory: string)
    ensures IsDirectory(directory) && path == directory + BaseName(path)
  {
    if path == "" || IsSeparator(path[|path| - 1]) {
      directory := path;
    } else {
      directory := PathSplits(path[..|path| - 1]);
      assert path == path[..|path| - 1] + [path[|path| - 1]];
    }
  }

  lemma {:induction false} BaseNameLowers(path: string)
    ensures Lower(BaseName(path)) == BaseName(Lower(path))
  {
    if path != "" && !IsSeparator(path[|path| - 1]) {
      BaseNameLowers(path[..|path| - 1]);
      assert Lower(path)[..|path| - 1] == Lower(path[..|path| - 1]);
    }
  }

  datatype Tier = FullName | LastPart | Substring

  ghost predicate EndsWithPart(key: string, query: string) {
    && (forall i :: 0 <= i < |query| ==> !IsSeparator(query[i]))
    && exists directory :: IsDirectory(directory) && key == directory + query
  }

  ghost predicate Contains(key: string, query: string) {
    exists k :: 0 <= k && MatchAt(key, query, k)
  }

  /** How well a key answers the query: it is the query, the query is its last part, or it contains the query. */
  ghost predicate Answers(key: string, tier: Tier, query: string) {
    match tier
    case FullName => key == query
    case LastPart => EndsWithPart(key, query)
    case Substring => Contains(key, query)
  }

  lemma LastPartIff(key: string, query: string)
    ensures EndsWithPart(key, query) <==> BaseName(key) == query
  {
    var d := PathSplits(key);
    if directory :| EndsWithPart(key, query) && IsDirectory(directory) && key == directory + query {
      BaseNameOf(directory, query);
    }
  }

  ghost predicate AnyAnswers(ms: seq<Module>, tier: Tier, query: string) {
    exists i :: 0 <= i < |ms| && Answers(Key(ms[i]), tier, query)
  }

  /** The best tier with an answer, or the last. */
  ghost function BestTier(ms: seq<Module>, query: string): Tier {
    if AnyAnswers(ms, FullName, query) then FullName
    else if AnyAnswers(ms, LastPart, query) then LastPart
    else Substring
  }

  /** `m` stands for the only name that answers the query in the best tier that has an answer. */
  ghost predicate Resolves(ms: seq<Module>, query: string, m: Module) {
    exists key ::
      && Answers(key, BestTier(ms, query), query) && IsRep(ms, key, m)
      && forall i :: 0 <= i < |ms| && Answers(Key(ms[i]), BestTier(ms, query), query) ==> Key(ms[i]) == key
  }

  /** `hits` are the indices of the groups that answer, in order. */
  ghost predicate AreHits(groups: seq<Group>, tier: Tier, query: string, hits: seq<nat>) {
    && (forall k :: 0 <= k < |hits| ==> hits[k] < |groups| && Answers(groups[hits[k]].key, tier, query))
    && (forall j, k :: 0 <= j < k < |hits| ==> hits[j] < hits[k])
    && forall g :: 0 <= g < |groups| && Answers(groups[g].key, tier, query) ==> g in hits
  }

  /** The tests of the loop; the last part is taken from the name of the group's module. */
  predicate GroupAnswers(g: Group, tier: Tier, query: string) {
    match tier
    case FullName => g.key == query
    case LastPart => Lower(BaseName(g.rep.name)) == query
    case Substring => FindFrom(g.key, query, 0).Some?
  }

  lemma SameAnswer(g: Group, tier: Tier, query: string)
    requires Key(g.rep) == g.key
    ensures GroupAnswers(g, tier, query) <==> Answers(g.key, tier, query)
  {
    BaseNameLowers(g.rep.name);
    LastPartIff(g.key, query);
  }

  method Answering(groups: seq<Group>, tier: Tier, query: string) returns (hits: seq<nat>)
    requires forall g :: 0 <= g < |groups| ==> Key(groups[g].rep) == groups[g].key
    ensures AreHits(groups, tier, query, hits)
  {
    hits := [];
    for g := 0 to |groups|
      invariant forall k :: 0 <= k < |hits| ==> hits[k] < g && Answers(groups[hits[k]].key, tier, query)
      invariant forall j, k :: 0 <= j < k < |hits| ==> hits[j] < hits[k]
      invariant forall h :: 0 <= h < g && Answers(groups[h].key, tier, query) ==> h in hits
    {
      SameAnswer(groups[g], tier, query);
      hide GroupAnswers, Answers;
      if GroupAnswers(groups[g], tier, query) { hits := hits + [g]; }
    }
  }

  lemma AnyHits(ms: seq<Module>, groups: seq<Group>, tier: Tier, query: string, hits: seq<nat>)
    requires Grouped(ms, groups) && AreHits(groups, tier, query, hits)
    ensures AnyAnswers(ms, tier, query) <==> hits != []
  {
    if AnyAnswers(ms, tier, query) {
      var i :| 0 <= i < |ms| && Answers(Key(ms[i]), tier, query);
      assert HasGroup(groups, Key(ms[i]));
      var g :| 0 <= g < |groups| && groups[g].key == Key(ms[i]);
    }
    if hits != [] {
      assert IsRep(ms, groups[hits[0]].key, groups[hits[0]].rep);
    }
  }

  lemma OneHitResolves(ms: seq<Module>, groups: seq<Group>, query: string, hits: seq<nat>)
    requires Grouped(ms, groups) && AreHits(groups, BestTier(ms, query), query, hits) && |hits| == 1
    ensures Resolves(ms, query, groups[hits[0]].rep)
  {
    var key := groups[hits[0]].key;
    forall i | 0 <= i < |ms| && Answers(Key(ms[i]), BestTier(ms, query), query) ensures Key(ms[i]) == key {
      assert HasGroup(groups, Key(ms[i]));
      var g :| 0 <= g < |groups| && groups[g].key == Key(ms[i]);
      assert g in hits;
    }
    assert Answers(key, BestTier(ms, query), query) && IsRep(ms, key, groups[hits[0]].rep);
  }

  lemma TwoHitsDiffer(ms: seq<Module>, groups: seq<Group>, tier: Tier, query: string, hits: seq<nat>)
    requires Grouped(ms, groups) && AreHits(groups, tier, query, hits)
    ensures |hits| >= 2 ==> groups[hits[0]].key != groups[hits[1]].key
  {
  }

  lemma ResolvedHasOneHit(ms: seq<Module>, groups: seq<Group>, query: string, hits: seq<nat>, m: Module)
    requires Grouped(ms, groups) && AreHits(groups, BestTier(ms, query), query, hits)
    requires Resolves(ms, query, m)
    ensures |hits| == 1
  {
    var tier := BestTier(ms, query);
    TwoHitsDiffer(ms, groups, tier, query, hits);
    var key :|
      && Answers(key, tier, query) && IsRep(ms, key, m)
      && forall i :: 0 <= i < |ms| && Answers(Key(ms[i]), tier, query) ==> Key(ms[i]) == key;
    var i :| StandsFor(ms, key, i) && ms[i] == m;
    var g :| 0 <= g < |groups| && groups[g].key == Key(ms[i]);
    assert g in hits;
    forall k | 0 <= k < |hits| ensures groups[hits[k]].key == key {
      assert IsRep(ms, groups[hits[k]].key, groups[hits[k]].rep);
    }
  }

  /**
   `resolveModuleByName`.  A query resolves exactly when one name answers it in the best tier that has an
   answer -- a full name can never be ambiguous -- and then to the lowest module of that name.
   */
  method ResolveByName(ms: seq<Module>, rawQuery: string) returns (r: Result<Module>)
    ensures r.Success? ==> Resolves(ms, Lower(TrimAscii(rawQuery)), r.value)
    ensures Lower(TrimAscii(rawQuery)) == "" ==> r.Failure?
    ensures r.Failure? ==> r.error == Error(InvalidArgument, false, None)
    ensures r.Failure? && Lower(TrimAscii(rawQuery)) != "" ==> forall m :: !Resolves(ms, Lower(TrimAscii(rawQuery)), m)
  {
    var query := Lower(TrimAscii(rawQuery));
    if query == "" { return Fail(InvalidArgument, false); }
    var groups := GroupModules(ms);
    hide *;
    var r' := PickGroup(ms, groups, query);
    return r';
  }

  method PickGroup(ghost ms: seq<Module>, groups: seq<Group>, query: string) returns (r: Result<Module>)
    requires Grouped(ms, groups)
    ensures r.Success? ==> Resolves(ms, query, r.value)
    ensures r.Failure? ==> r.error == Error(InvalidArgument, false, None) && forall m :: !Resolves(ms, query, m)
  {
    hide Resolves, Answers, StandsFor, Lower, BaseName, AnyAnswers;
    var full := Answering(groups, FullName, query);
    var base := Answering(groups, LastPart, query);
    var substring := Answering(groups, Substring, query);
    AnyHits(ms, groups, FullName, query, full);
    AnyHits(ms, groups, LastPart, query, base);
    hide Grouped, AreHits;
    var hits := if full != [] then full else if base != [] then base else substring;
    if |hits| != 1 {
      forall m ensures !Resolves(ms, query, m) {
        if Resolves(ms, query, m) { ResolvedHasOneHit(ms, groups, query, hits, m); }
      }
      return Fail(InvalidArgument, false);
    }
    OneHitResolves(ms, groups, query, hits);
    return Success(groups[hits[0]].rep);
  }

  /** A query resolves to at most one module. */
  lemma ResolvesUnique(ms: seq<Module>, query: string, m: Module, n: Module)
    requires Resolves(ms, query, m) && Resolves(ms, query, n)
    ensures m == n
  {
    var tier := BestTier(ms, query);
    var k :| && Answers(k, tier, query) && IsRep(ms, k, m)
             && forall i :: 0 <= i < |ms| && Answers(Key(ms[i]), tier, query) ==> Key(ms[i]) == k;
    var l :| && Answers(l, tier, query) && IsRep(ms, l, n)
             && forall i :: 0 <= i < |ms| && Answers(Key(ms[i]), tier, query) ==> Key(ms[i]) == l;
    var i :| StandsFor(ms, k, i) && ms[i] == m;
    var j :| StandsFor(ms, l, j) && ms[j] == n;
    StandsForUnique(ms, k, i, j);
  }

  // ---- By base ----

  /** The first module of the list with this base. */
  ghost predicate IsFirstAt(ms: seq<Module>, base: nat, i: nat) {
    i < |ms| && ms[i].base == base && forall j :: 0 <= j < i ==> ms[j].base != base
  }

  /** `resolveModuleByBase`: any piece's base leads to the module that stands for its name. */
  method ResolveByBase(ms: seq<Module>, base: nat) returns (r: Result<Module>)
    ensures r.Success? <==> exists i :: 0 <= i < |ms| && ms[i].base == base
    ensures r.Success? ==> exists i: nat :: IsFirstAt(ms, base, i) && IsRep(ms, Key(ms[i]), r.value)
    ensures r.Failure? ==> r.error == Error(InvalidArgument, false, None)
  {
    var exact := 0;
    while exact < |ms| && ms[exact].base != base
      invariant exact <= |ms| && forall j :: 0 <= j < exact ==> ms[j].base != base
    {
      exact := exact + 1;
    }
    if exact == |ms| { return Fail(InvalidArgument, false); }
    var key := Key(ms[exact]);
    var resolved := ms[exact];
    ghost var at := exact;
    for i := 0 to |ms|
      invariant 0 <= at < |ms| && resolved == ms[at] && Key(resolved) == key && (at == exact || at < i)
      invariant resolved.base <= base
      invariant forall j :: 0 <= j < i && Key(ms[j]) == key ==>
        resolved.base <= ms[j].base && (j < at ==> resolved.base < ms[j].base)
      invariant at == exact || resolved.base < base
    {
      if Key(ms[i]) == key && ms[i].base < resolved.base {
        resolved := ms[i];
        at := i;
      }
    }
    assert StandsFor(ms, key, at) && IsFirstAt(ms, base, exact);
    return Success(resolved);
  }

  /**
   Asking by any piece's full name, if it is not blank and has no blanks around it, resolves to the module
   that asking by its base gives.
   */
  lemma NameAndBaseAgree(ms: seq<Module>, i: nat, byBase: Module)
    requires i < |ms| && ms[i].name != "" && TrimAscii(ms[i].name) == ms[i].name
    requires IsRep(ms, Key(ms[i]), byBase)
    ensures Lower(TrimAscii(ms[i].name)) != "" && Resolves(ms, Lower(TrimAscii(ms[i].name)), byBase)
    ensures forall m :: Resolves(ms, Lower(TrimAscii(ms[i].name)), m) ==> m == byBase
  {
    var query := Key(ms[i]);
    assert Answers(query, FullName, query) && AnyAnswers(ms, FullName, query);
    assert Resolves(ms, query, byBase);
    forall m | Resolves(ms, query, m) ensures m == byBase { ResolvesUnique(ms, query, m, byBase); }
  }
}
