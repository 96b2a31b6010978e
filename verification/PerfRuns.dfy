/**
 Whole runs of the perf engine for one logical breakpoint: threads come and go, each with a ring of its own,
 the kernel appends records to any open ring, the worker drains any open ring, a client reads.  The concrete
 machine works on circular buffers, the reference machine on lists of records; every run of the first is matched
 by the second.
 */
module PerfRuns {
  import opened Basics
  import opened LittleEndian
  import opened Modular
  import opened PerfRing

  // ---------------------------------------------------------------- the kernel side of a ring

  /** The kernel stores bytes round the ring, from stream position `head` on. */
  function Deposit(ring: seq<Byte>, head: nat, bytes: seq<Byte>): (ring': seq<Byte>)
    requires |ring| > 0
    ensures |ring'| == |ring|
    decreases bytes
  {
    if bytes == [] then ring else Deposit(ring[head % |ring| := bytes[0]], head + 1, bytes[1..])
  }

  /** A producer that leaves unread bytes alone extends what the ring holds. */
  lemma {:induction false} DepositHolds(ring: seq<Byte>, stream: seq<Byte>, tail: nat, bytes: seq<Byte>)
    requires Holds(ring, stream, tail) && |stream| + |bytes| <= tail + |ring|
    ensures Holds(Deposit(ring, |stream|, bytes), stream + bytes, tail)
    decreases bytes
  {
    if bytes == [] {
      assert stream + bytes == stream;
    } else {
      var ring1, stream1 := ring[|stream| % |ring| := bytes[0]], stream + [bytes[0]];
      forall p | tail <= p < |stream1| ensures ring1[p % |ring1|] == stream1[p] {
        if p < |stream| { NearbyRemaindersDiffer(p, |stream|, |ring|); }
      }
      DepositHolds(ring1, stream1, tail, bytes[1..]);
      assert stream1 + bytes[1..] == stream + bytes;
    }
  }

  lemma {:induction false} EncodeAllAppend(rs: seq<Record>, r: Record)
    ensures EncodeAll(rs + [r]) == EncodeAll(rs) + Encode(r)
  {
    hide Encode;
    if rs == [] {
      assert [r][1..] == [] && EncodeAll([r]) == Encode(r) + [];
      assert rs + [r] == [r] && EncodeAll(rs) + Encode(r) == Encode(r);
    } else {
      EncodeAllAppend(rs[1..], r);
      assert (rs + [r])[1..] == rs[1..] + [r] && (rs + [r])[0] == rs[0];
      assert Encode(rs[0]) + (EncodeAll(rs[1..]) + Encode(r)) == (Encode(rs[0]) + EncodeAll(rs[1..])) + Encode(r);
    }
  }

  // ---------------------------------------------------------------- the bounded queue

  function Last<T>(s: seq<T>, n: nat): seq<T> {
    if |s| <= n then s else s[|s| - n..]
  }

  /** The samples in a list of records, in order. */
  function SamplesOf(rs: seq<Record>): seq<Record> {
    if rs == [] then [] else (if rs[0].Sample? then [rs[0]] else []) + SamplesOf(rs[1..])
  }

  /** One per sample, plus what the kernel says it lost. */
  function Counted(rs: seq<Record>): nat {
    if rs == [] then 0
    else
      (match rs[0] case Sample(_, _, _, _, _, _) => 1 case Lost(_, _, n, _) => n case Other(_, _, _) => 0)
      + Counted(rs[1..])
  }

  lemma PushReports(hits: seq<Hit>, since: seq<Record>, h: Hit, r: Record, address: nat)
    requires AreReports(hits, Last(since, MAX_PENDING_HITS), address) && Reports(h, r, address)
    ensures AreReports(Push(hits, h), Last(since + [r], MAX_PENDING_HITS), address)
  {
  }

  /**
   Accounting for records keeps reports of the newest samples and adds everything up, modulo the 64-bit
   counter.
   */
  lemma {:induction false} AccountAllIsLast(p: Pending, since: seq<Record>, before: nat, rs: seq<Record>, address: nat)
    requires ValidRecords(rs)
    requires AreReports(p.hits, Last(since, MAX_PENDING_HITS), address) && p.total == before % TWO_64
    ensures var p' := AccountAll(p, rs, address);
      && AreReports(p'.hits, Last(since + SamplesOf(rs), MAX_PENDING_HITS), address)
      && p'.total == (before + Counted(rs)) % TWO_64
    decreases rs
  {
    hide AreReports, Reports, Last, Push;
    if rs == [] {
      assert since + [] == since;
    } else {
      assert ValidRecord(rs[0]);
      var p1 := Account(p, rs[0], address);
      match rs[0] {
        case Sample(_, _, tid, _, user, _) =>
          ReportOfSample(rs[0], address);
          PushReports(p.hits, since, Hit(tid, address, user.general, user.sp, user.pc), rs[0], address);
          ModThenAdd(before, 1, TWO_64);
          AccountAllIsLast(p1, since + [rs[0]], before + 1, rs[1..], address);
          assert since + [rs[0]] + SamplesOf(rs[1..]) == since + SamplesOf(rs);
        case Lost(_, _, count, _) =>
          ModThenAdd(before, count, TWO_64);
          AccountAllIsLast(p1, since, before + count, rs[1..], address);
          assert SamplesOf(rs) == SamplesOf(rs[1..]);
        case Other(_, _, _) =>
          AccountAllIsLast(p1, since, before, rs[1..], address);
          assert SamplesOf(rs) == SamplesOf(rs[1..]);
      }
    }
  }

  lemma ReportOfSample(r: Record, address: nat)
    requires r.Sample?
    ensures Reports(Hit(r.tid, address, r.user.general, r.user.sp, r.user.pc), r, address)
  {
  }

  // ---------------------------------------------------------------- concrete and reference machines

  datatype Ring = Ring(bytes: seq<Byte>, head: nat, tail: nat, open: bool)
  datatype Engine = Engine(rings: seq<Ring>, pending: Pending)

  datatype Event =
    | Open(size: nat)                         // a thread is followed: a new ring
    | Close(ring: nat)                        // a thread is gone: its ring is unmapped as it stands
    | Produce(ring: nat, record: Record)
    | Consume(ring: nat)
    | Read

  predicate HasRoom(g: Ring, r: Record) {
    g.head + RecordSize(r) <= g.tail + |g.bytes|
  }

  /** The kernel drops a record that would overrun the cursor handed back in `data_tail`. */
  function Produced(g: Ring, r: Record): Ring
    requires |g.bytes| > 0
  {
    if HasRoom(g, r) then g.(bytes := Deposit(g.bytes, g.head, Encode(r)), head := g.head + RecordSize(r)) else g
  }

  predicate Sized(g: Engine) {
    forall i :: 0 <= i < |g.rings| ==> |g.rings[i].bytes| > 0
  }

  ghost predicate Enabled(g: Engine, e: Event) {
    match e
    case Open(size) => size > 0
    case Close(i) => i < |g.rings| && g.rings[i].open
    case Produce(i, r) => i < |g.rings| && g.rings[i].open && ValidRecord(r)
    case Consume(i) => i < |g.rings| && g.rings[i].open
    case Read => true
  }

  ghost function EngineStep(g: Engine, e: Event, address: nat): (g': Engine)
    requires Sized(g) && Enabled(g, e)
    ensures Sized(g') && |g'.rings| >= |g.rings|
  {
    match e
    case Open(size) => g.(rings := g.rings + [Ring(seq(size, _ => 0), 0, 0, true)])
    case Close(i) => g.(rings := g.rings[i := g.rings[i].(open := false)])
    case Produce(i, r) => g.(rings := g.rings[i := Produced(g.rings[i], r)])
    case Consume(i) =>
      var parsed := ParseRing(g.rings[i].bytes, g.rings[i].head, g.rings[i].tail, g.pending, address);
      Engine(g.rings[i := g.rings[i].(tail := parsed.tail)], parsed.pending)
    case Read => g.(pending := Pending([], g.pending.total))
  }

  /** The records of one ring: all that the kernel stored, those consumed, those waiting, those lost. */
  datatype Track = Track(fed: seq<Record>, taken: seq<Record>, waiting: seq<Record>, lost: seq<Record>)

  /** Reference state: the rings' records, the count of those consumed, the samples since the last read. */
  datatype Journal = Journal(tracks: seq<Track>, consumed: nat, since: seq<Record>)

  ghost predicate ValidJournal(j: Journal) {
    forall i :: 0 <= i < |j.tracks| ==> ValidRecords(j.tracks[i].waiting)
  }

  ghost function JournalStep(j: Journal, e: Event, g: Engine): (j': Journal)
    requires ValidJournal(j) && |g.rings| == |j.tracks| && Enabled(g, e)
    ensures ValidJournal(j')
  {
    match e
    case Open(_) => j.(tracks := j.tracks + [Track([], [], [], [])])
    case Close(i) =>
      var t := j.tracks[i];
      j.(tracks := j.tracks[i := t.(waiting := [], lost := t.waiting)])
    case Produce(i, r) =>
      var t := j.tracks[i];
      if HasRoom(g.rings[i], r)
      then j.(tracks := j.tracks[i := t.(fed := t.fed + [r], waiting := t.waiting + [r])]) else j
    case Consume(i) =>
      var t := j.tracks[i];
      Journal(j.tracks[i := t.(taken := t.taken + t.waiting, waiting := [])],
              j.consumed + Counted(t.waiting), j.since + SamplesOf(t.waiting))
    case Read => j.(since := [])
  }

  /** A ring in agreement with its list of waiting records, witnessed by the stream so far. */
  ghost predicate RingAgrees(g: Ring, stream: seq<Byte>, waiting: seq<Record>) {
    && ValidRecords(waiting)
    && |stream| == g.head
    && Holds(g.bytes, stream, g.tail)
    && stream[g.tail..] == EncodeAll(waiting)
  }

  /** The pending hits report, field by field, the newest samples consumed since the last read. */
  ghost predicate Agrees(g: Engine, streams: seq<seq<Byte>>, j: Journal, address: nat) {
    && |g.rings| == |streams| == |j.tracks|
    && (forall i :: 0 <= i < |g.rings| && g.rings[i].open ==> RingAgrees(g.rings[i], streams[i], j.tracks[i].waiting))
    && AreReports(g.pending.hits, Last(j.since, MAX_PENDING_HITS), address)
    && g.pending.total == j.consumed % TWO_64
  }

  function TakenTotal(tracks: seq<Track>): nat {
    if tracks == [] then 0 else TakenTotal(tracks[..|tracks| - 1]) + Counted(tracks[|tracks| - 1].taken)
  }

  /**
   Where the records are: each one the kernel stored was consumed, waits, or was lost, in this order, and
   nothing is lost of an open ring.  The count is that of the records consumed.
   */
  ghost predicate Balanced(g: Engine, j: Journal) {
    && |g.rings| == |j.tracks|
    && (forall i :: 0 <= i < |j.tracks| ==>
      && j.tracks[i].fed == j.tracks[i].taken + j.tracks[i].waiting + j.tracks[i].lost
      && (if g.rings[i].open then j.tracks[i].lost == [] else j.tracks[i].waiting == []))
    && j.consumed == TakenTotal(j.tracks)
  }

  lemma DropOfAppend(s: seq<Byte>, t: seq<Byte>, k: nat)
    requires k <= |s|
    ensures (s + t)[k..] == s[k..] + t
  {
  }

  lemma ProduceAgrees(g: Ring, stream: seq<Byte>, waiting: seq<Record>, r: Record)
      returns (stream': seq<Byte>)
    requires RingAgrees(g, stream, waiting) && ValidRecord(r)
    ensures RingAgrees(Produced(g, r), stream', if HasRoom(g, r) then waiting + [r] else waiting)
  {
    if HasRoom(g, r) {
      DepositHolds(g.bytes, stream, g.tail, Encode(r));
      EncodeAllAppend(waiting, r);
      stream' := stream + Encode(r);
      DropOfAppend(stream, Encode(r), g.tail);
    } else {
      stream' := stream;
    }
  }

  lemma ConsumeAgrees(g: Ring, stream: seq<Byte>, waiting: seq<Record>, p: Pending, since: seq<Record>, before: nat,
                      address: nat)
    requires RingAgrees(g, stream, waiting)
    requires AreReports(p.hits, Last(since, MAX_PENDING_HITS), address) && p.total == before % TWO_64
    ensures var parsed := ParseRing(g.bytes, g.head, g.tail, p, address);
      && parsed.tail == g.head && parsed.pending.total == (before + Counted(waiting)) % TWO_64
      && AreReports(parsed.pending.hits, Last(since + SamplesOf(waiting), MAX_PENDING_HITS), address)
    ensures RingAgrees(g.(tail := g.head), stream, [])
  {
    ParseRefinesStream(g.bytes, stream, g.tail, waiting, p, address);
    AccountAllIsLast(p, since, before, waiting, address);
  }

  lemma OpenAgrees(size: nat)
    requires size > 0
    ensures RingAgrees(Ring(seq(size, _ => 0), 0, 0, true), [], [])
  {
  }

  lemma StepAgrees(g: Engine, streams: seq<seq<Byte>>, j: Journal, e: Event, address: nat)
      returns (streams': seq<seq<Byte>>)
    requires Sized(g) && Enabled(g, e) && Agrees(g, streams, j, address) && ValidJournal(j)
    ensures Agrees(EngineStep(g, e, address), streams', JournalStep(j, e, g), address)
  {
    hide RingAgrees, SamplesOf, AreReports, Counted, ParseRing, Produced, HasRoom;
    streams' := streams;
    match e {
      case Open(size) =>
        OpenAgrees(size);
        streams' := streams + [[]];
      case Close(i) =>
      case Produce(i, r) =>
        var stream' := ProduceAgrees(g.rings[i], streams[i], j.tracks[i].waiting, r);
        streams' := streams[i := stream'];
      case Consume(i) =>
        ConsumeAgrees(g.rings[i], streams[i], j.tracks[i].waiting, g.pending, j.since, j.consumed, address);
      case Read => NothingReported(address);
    }
  }

  lemma NothingReported(address: nat)
    ensures AreReports([], Last([], MAX_PENDING_HITS), address)
  {
  }

  lemma {:induction false} CountedAppend(rs: seq<Record>, ss: seq<Record>)
    ensures Counted(rs + ss) == Counted(rs) + Counted(ss)
  {
    if rs == [] {
      assert rs + ss == ss;
    } else {
      CountedAppend(rs[1..], ss);
      assert (rs + ss)[1..] == rs[1..] + ss;
    }
  }

  lemma {:induction false} TakenTotalUpdate(tracks: seq<Track>, i: nat, t: Track)
    requires i < |tracks|
    ensures TakenTotal(tracks[i := t]) + Counted(tracks[i].taken) == TakenTotal(tracks) + Counted(t.taken)
    decreases |tracks|
  {
    var n := |tracks| - 1;
    if i < n {
      TakenTotalUpdate(tracks[..n], i, t);
      assert tracks[i := t][..n] == tracks[..n][i := t];
    } else {
      assert tracks[i := t][..n] == tracks[..n];
    }
  }

  lemma StepBalances(g: Engine, j: Journal, e: Event, address: nat)
    requires Sized(g) && Enabled(g, e) && ValidJournal(j) && Balanced(g, j)
    ensures Balanced(EngineStep(g, e, address), JournalStep(j, e, g))
  {
    hide SamplesOf, Counted, ParseRing, HasRoom, Deposit, Encode, TakenTotal, ValidRecord;
    match e {
      case Open(_) => TakenTotalOpen(j.tracks);
      case Close(i) => TakenTotalUpdate(j.tracks, i, j.tracks[i].(waiting := [], lost := j.tracks[i].waiting));
      case Produce(i, r) =>
        var t := j.tracks[i];
        TakenTotalUpdate(j.tracks, i, t.(fed := t.fed + [r], waiting := t.waiting + [r]));
      case Consume(i) =>
        var t := j.tracks[i];
        CountedAppend(t.taken, t.waiting);
        TakenTotalUpdate(j.tracks, i, t.(taken := t.taken + t.waiting, waiting := []));
      case Read =>
    }
  }

  lemma TakenTotalOpen(tracks: seq<Track>)
    ensures TakenTotal(tracks + [Track([], [], [], [])]) == TakenTotal(tracks)
  {
    assert (tracks + [Track([], [], [], [])])[..|tracks|] == tracks;
  }

  ghost predicate EnabledRun(g: Engine, es: seq<Event>, address: nat)
    requires Sized(g)
    decreases es
  {
    es == [] || (Enabled(g, es[0]) && EnabledRun(EngineStep(g, es[0], address), es[1..], address))
  }

  ghost function EngineRun(g: Engine, es: seq<Event>, address: nat): Engine
    requires Sized(g) && EnabledRun(g, es, address)
    decreases es
  {
    if es == [] then g else EngineRun(EngineStep(g, es[0], address), es[1..], address)
  }

  ghost function JournalRun(j: Journal, es: seq<Event>, g: Engine, address: nat): Journal
    requires Sized(g) && EnabledRun(g, es, address) && ValidJournal(j) && |g.rings| == |j.tracks|
    decreases es
  {
    if es == [] then j
    else JournalRun(JournalStep(j, es[0], g), es[1..], EngineStep(g, es[0], address), address)
  }

  /**
   Every run: whatever was opened, produced, drained, read and closed, in whatever order and wherever the
   rings wrapped, the pending hits are the newest 100000 samples consumed since the last read, each with its own
   thread and registers, and the total is samples plus losses of all records consumed.  Every record the kernel
   stored was consumed, still waits in an open ring, or was lost: the records waiting in a ring when it is closed,
   and no others.
   */
  lemma {:induction false} RunAgrees(g: Engine, streams: seq<seq<Byte>>, j: Journal, es: seq<Event>, address: nat)
      returns (streams': seq<seq<Byte>>)
    requires Sized(g) && EnabledRun(g, es, address)
    requires Agrees(g, streams, j, address) && Balanced(g, j) && ValidJournal(j)
    ensures Agrees(EngineRun(g, es, address), streams', JournalRun(j, es, g, address), address)
    ensures Balanced(EngineRun(g, es, address), JournalRun(j, es, g, address))
    decreases es
  {
    if es == [] {
      streams' := streams;
    } else {
      hide Agrees, Balanced, Enabled, EngineStep, JournalStep;
      var streams1 := StepAgrees(g, streams, j, es[0], address);
      StepBalances(g, j, es[0], address);
      TracksFollow(g, streams, j, address);
      TracksFollow(EngineStep(g, es[0], address), streams1, JournalStep(j, es[0], g), address);
      streams' := RunAgrees(
        EngineStep(g, es[0], address), streams1, JournalStep(j, es[0], g), es[1..], address);
    }
  }

  lemma TracksFollow(g: Engine, streams: seq<seq<Byte>>, j: Journal, address: nat)
    requires Agrees(g, streams, j, address)
    ensures |g.rings| == |j.tracks|
  {
  }

  /** Before anything is opened, the engine agrees with the empty journal. */
  lemma InitialAgrees(address: nat)
    ensures Agrees(Engine([], Pending([], 0)), [], Journal([], 0, []), address)
    ensures Balanced(Engine([], Pending([], 0)), Journal([], 0, []))
  {
  }

  /** A record that waits when its thread's ring is closed is never consumed: it is neither queued nor counted. */
  lemma CloseLoses(r: Record, size: nat, address: nat)
    requires r.Sample? && ValidRecord(r) && RecordSize(r) <= size
    ensures var es := [Open(size), Produce(0, r), Close(0)]; var g := Engine([], Pending([], 0));
      && EnabledRun(g, es, address)
      && JournalRun(Journal([], 0, []), es, g, address).tracks == [Track([r], [], [], [r])]
      && EngineRun(g, es, address).pending == Pending([], 0)
  {
    var g0, j0 := Engine([], Pending([], 0)), Journal([], 0, []);
    var e1, e2, e3 := Open(size), Produce(0, r), Close(0);
    var es := [e1, e2, e3];
    assert es[1..] == [e2, e3] && [e2, e3][1..] == [e3] && [e3][1..] == [];
    var g1, j1 := EngineStep(g0, e1, address), JournalStep(j0, e1, g0);
    assert HasRoom(g1.rings[0], r) && Enabled(g1, e2) && j1.tracks == [Track([], [], [], [])];
    var g2, j2 := EngineStep(g1, e2, address), JournalStep(j1, e2, g1);
    var none: seq<Record> := [];
    assert none + [r] == [r];
    assert Enabled(g2, e3) && j2.tracks == [Track([r], [], [r], [])];
    var g3, j3 := EngineStep(g2, e3, address), JournalStep(j2, e3, g2);
    assert j3.tracks == [Track([r], [], [], [r])];
    assert EnabledRun(g3, [], address) && EnabledRun(g2, [e3], address) && EnabledRun(g1, [e2, e3], address);
    assert EngineRun(g2, [e3], address) == g3 && JournalRun(j2, [e3], g2, address) == j3;
    assert EngineRun(g1, [e2, e3], address) == g3 && JournalRun(j1, [e2, e3], g1, address) == j3;
  }
}
