/**
 The perf ring consumer of engine/android/PerfHwBreakpoint.hpp.

 The kernel appends variable-size records to a byte stream and stores byte number `p` of that
 stream at offset `p % size` of a circular buffer.  The consumer parses records straight out of the
 circular buffer; every field may straddle the wrap.  The specification side knows nothing of
 circular buffers: it encodes a list of records into a linear stream and says what the pending queue
 and the running total must be.
 */
module PerfRing {
  import opened Basics
  import opened LittleEndian
  import opened Modular

  const HEADER_BYTES: nat := 8
  const GENERAL_COUNT: nat := 31
  const REGISTER_COUNT: nat := 33
  const SAMPLE_BYTES: nat := 288     // header, pid/tid, abi, 33 registers
  const LOST_BYTES: nat := 24        // header, id, lost
  const PERF_RECORD_LOST: nat := 2
  const PERF_RECORD_SAMPLE: nat := 9
  const MAX_PENDING_HITS: nat := 100000

  // ---------------------------------------------------------------- records and what they mean

  /** The user registers of a sample: x0 to x29 and the link register, stack pointer, program counter. */
  datatype Registers = Registers(general: seq<nat>, sp: nat, pc: nat)

  datatype Record =
    | Sample(misc: nat, pid: nat, tid: nat, abi: nat, user: Registers, trailer: seq<Byte>)
    | Lost(misc: nat, id: nat, count: nat, trailer: seq<Byte>)
    | Other(kind: nat, misc: nat, payload: seq<Byte>)

  datatype Hit = Hit(taskId: nat, address: nat, general: seq<nat>, sp: nat, pc: nat)

  /** What one logical breakpoint accumulates: hits not yet read, and the cumulative counter. */
  datatype Pending = Pending(hits: seq<Hit>, total: nat)

  ghost predicate ValidRecord(r: Record) {
    && r.misc < Pow256(2)
    && RecordSize(r) < Pow256(2)
    && match r
       case Sample(_, pid, tid, abi, user, _) =>
         pid < Pow256(4) && tid < Pow256(4) && abi < Pow256(8) && |user.general| == GENERAL_COUNT
         && user.sp < Pow256(8) && user.pc < Pow256(8)
         && forall i :: 0 <= i < |user.general| ==> user.general[i] < Pow256(8)
       case Lost(_, id, count, _) => id < Pow256(8) && count < Pow256(8)
       case Other(kind, _, _) => kind < Pow256(4) && kind != PERF_RECORD_SAMPLE && kind != PERF_RECORD_LOST
  }

  function RecordSize(r: Record): nat {
    match r
    case Sample(_, _, _, _, user, trailer) => 24 + 8 * (|user.general| + 2) + |trailer|
    case Lost(_, _, _, trailer) => LOST_BYTES + |trailer|
    case Other(_, _, payload) => HEADER_BYTES + |payload|
  }

  function Header(kind: nat, misc: nat, size: nat): (s: seq<Byte>)
    ensures |s| == HEADER_BYTES
  {
    WordBytes(kind, 4) + WordBytes(misc, 2) + WordBytes(size, 2)
  }

  function EncodeWords(ws: seq<nat>): (s: seq<Byte>)
    ensures |s| == 8 * |ws|
  {
    if ws == [] then [] else WordBytes(ws[0], 8) + EncodeWords(ws[1..])
  }

  function Encode(r: Record): (s: seq<Byte>)
    ensures |s| == RecordSize(r)
  {
    match r
    case Sample(misc, pid, tid, abi, user, trailer) =>
      Header(PERF_RECORD_SAMPLE, misc, RecordSize(r))
      + WordBytes(pid, 4) + WordBytes(tid, 4) + WordBytes(abi, 8) + EncodeWords(user.general + [user.sp, user.pc])
      + trailer
    case Lost(misc, id, count, trailer) =>
      Header(PERF_RECORD_LOST, misc, RecordSize(r)) + WordBytes(id, 8) + WordBytes(count, 8) + trailer
    case Other(kind, misc, payload) => Header(kind, misc, RecordSize(r)) + payload
  }

  function EncodeAll(rs: seq<Record>): seq<Byte> {
    if rs == [] then [] else Encode(rs[0]) + EncodeAll(rs[1..])
  }

  /** The hit that a sample at this breakpoint is to be reported as, field by field. */
  ghost predicate Reports(h: Hit, r: Record, address: nat) {
    && r.Sample?
    && h.taskId == r.tid && h.address == address
    && |h.general| == |r.user.general|
    && (forall i :: 0 <= i < |h.general| ==> h.general[i] == r.user.general[i])
    && h.sp == r.user.sp && h.pc == r.user.pc
  }

  /** The hits report these samples, one for one and in order. */
  ghost predicate AreReports(hits: seq<Hit>, samples: seq<Record>, address: nat) {
    |hits| == |samples| && forall k :: 0 <= k < |hits| ==> Reports(hits[k], samples[k], address)
  }

  /** Append one hit, forgetting the oldest pending one when the queue is full. */
  function Push(hits: seq<Hit>, h: Hit): seq<Hit> {
    (if |hits| >= MAX_PENDING_HITS then hits[1..] else hits) + [h]
  }

  function Account(p: Pending, r: Record, address: nat): (p': Pending)
    ensures r.Sample? ==> |p'.hits| > 0 && Reports(p'.hits[|p'.hits| - 1], r, address)
  {
    match r
    case Sample(_, _, tid, _, user, _) =>
      Pending(Push(p.hits, Hit(tid, address, user.general, user.sp, user.pc)), (p.total + 1) % TWO_64)
    case Lost(_, _, count, _) => Pending(p.hits, (p.total + count) % TWO_64)
    case Other(_, _, _) => p
  }

  ghost predicate ValidRecords(rs: seq<Record>) {
    forall i :: 0 <= i < |rs| ==> ValidRecord(rs[i])
  }

  /** The linear reference: account for the records one after another. */
  ghost function AccountAll(p: Pending, rs: seq<Record>, address: nat): Pending
    requires ValidRecords(rs)
    decreases rs
  {
    if rs == [] then p else
      assert ValidRecord(rs[0]);
      AccountAll(Account(p, rs[0], address), rs[1..], address)
  }

  // ---------------------------------------------------------------- reading the circular buffer

  /** The `n` bytes found from offset `off` on, going round the end of the buffer. */
  function Window(ring: seq<Byte>, off: nat, n: nat): (s: seq<Byte>)
    requires |ring| > 0
    ensures |s| == n
  {
    seq(n, i requires 0 <= i < n => ring[(off + i) % |ring|])
  }

  function Words(s: seq<Byte>): (ws: seq<nat>)
    requires |s| % 8 == 0
    ensures |ws| == |s| / 8
  {
    if s == [] then [] else [Word(s[..8])] + Words(s[8..])
  }

  /** How the consumer fills a hit from the register block. */
  function HitOf(tid: nat, address: nat, regs: seq<nat>): Hit
    requires |regs| == REGISTER_COUNT
  {
    Hit(tid, address, regs[..31], regs[31], regs[32])
  }

  /** Result of one pass over the buffer: the queue and the new read cursor. */
  datatype Parsed = Parsed(pending: Pending, tail: nat)

  function KindAt(ring: seq<Byte>, tail: nat): nat
    requires |ring| > 0
  {
    Word(Window(ring, tail % |ring|, HEADER_BYTES)[..4])
  }

  function SizeAt(ring: seq<Byte>, tail: nat): nat
    requires |ring| > 0
  {
    Word(Window(ring, tail % |ring|, HEADER_BYTES)[6..])
  }

  /** What the loop body makes of the bytes at `tail`, whatever they are. */
  function Digest(ring: seq<Byte>, tail: nat, p: Pending, address: nat): Pending
    requires |ring| > 0
  {
    var off := tail % |ring|;
    var kind := KindAt(ring, tail);
    if kind == PERF_RECORD_SAMPLE then
      var regs := Words(Window(ring, off + 24, 8 * REGISTER_COUNT));
      Pending(Push(p.hits, HitOf(Word(Window(ring, off + 8, 8)[4..]), address, regs)), (p.total + 1) % TWO_64)
    else if kind == PERF_RECORD_LOST then
      Pending(p.hits, (p.total + Word(Window(ring, off + 8, 16)[8..])) % TWO_64)
    else p
  }

  /** The parse of arbitrary buffer contents between `tail` and `head`. */
  function ParseRing(ring: seq<Byte>, head: nat, tail: nat, p: Pending, address: nat): Parsed
    requires |ring| > 0
    decreases head - tail
  {
    if tail >= head || SizeAt(ring, tail) == 0 then Parsed(p, tail)
    else ParseRing(ring, head, tail + SizeAt(ring, tail), Digest(ring, tail, p, address), address)
  }

  // ---------------------------------------------------------------- the imperative consumer

  /** `CopyRing`: copy `n` bytes from offset `off`, in one piece or in two pieces around the end. */
  method CopyRing(dst: array<Byte>, ring: array<Byte>, off: nat, n: nat)
    requires dst != ring && off < ring.Length && n <= ring.Length && n <= dst.Length
    modifies dst
    ensures dst[..n] == Window(ring[..], off, n)
  {
    if off + n <= ring.Length {
      forall i | 0 <= i < n { dst[i] := ring[off + i]; }
    } else {
      var first := ring.Length - off;
      forall i | 0 <= i < first { dst[i] := ring[off + i]; }
      forall i | 0 <= i < n - first { dst[first + i] := ring[i]; }
      assert forall i :: first <= i < n ==> dst[i] == ring[i - first];
    }
    forall i | 0 <= i < n ensures dst[i] == ring[(off + i) % ring.Length] {
      WrapOnce(off + i, ring.Length);
    }
  }

  lemma WindowIndex(ring: seq<Byte>, off: nat, n: nat, i: nat)
    requires |ring| > 0 && i < n
    ensures Window(ring, off, n)[i] == ring[(off + i) % |ring|]
  {
  }

  lemma WindowFromReduced(ring: seq<Byte>, x: nat, n: nat)
    requires |ring| > 0
    ensures Window(ring, x % |ring|, n) == Window(ring, x, n)
  {
    forall i | 0 <= i < n ensures Window(ring, x % |ring|, n)[i] == Window(ring, x, n)[i] {
      WindowIndex(ring, x % |ring|, n, i);
      WindowIndex(ring, x, n, i);
      ModThenAdd(x, i, |ring|);
    }
  }

  /** One thread's ring: `dataHead` is written by the kernel, `dataTail` hands space back to it. */
  class PerfSub {
    const data: array<Byte>
    var tail: nat
    var dataHead: nat
    var dataTail: nat

    constructor (data: array<Byte>)
      ensures this.data == data && tail == 0 && dataHead == 0 && dataTail == 0
    {
      this.data := data;
      tail, dataHead, dataTail := 0, 0, 0;
    }
  }

  /** The process-wide logical breakpoint fed by all rings of its threads. */
  class PerfEntry {
    const address: nat
    var hits: seq<Hit>
    var totalHits: nat

    constructor (address: nat)
      ensures this.address == address && Queue() == Pending([], 0)
    {
      this.address := address;
      hits, totalHits := [], 0;
    }

    function Queue(): Pending
      reads this
    {
      Pending(hits, totalHits)
    }

    /** Hand over the pending hits and the cumulative count, keeping only the count. */
    method ReadHwBpInfo(output: seq<Hit>) returns (total: nat, output': seq<Hit>)
      modifies this
      ensures output' == output + old(hits) && total == old(totalHits)
      ensures Queue() == Pending([], old(totalHits))
    {
      output' := output + hits;
      hits := [];
      total := totalHits;
    }
  }

  /** The four field reads of a sample record, each stepping `cur` round the ring as the source does. */
  method ReadSample(ring: array<Byte>, off: nat) returns (tid: nat, regs: seq<nat>)
    requires off < ring.Length && ring.Length >= SAMPLE_BYTES
    ensures tid == Word(Window(ring[..], off + 8, 8)[4..])
    ensures regs == Words(Window(ring[..], off + 24, 8 * REGISTER_COUNT))
  {
    var size := ring.Length;
    var cur := (off + HEADER_BYTES) % size;
    WindowFromReduced(ring[..], off + 8, 8);
    var pidtid := new Byte[8];
    CopyRing(pidtid, ring, cur, 8);
    ModThenAdd(off + 8, 8, size);
    cur := (cur + 8) % size;
    var abi := new Byte[8];
    CopyRing(abi, ring, cur, 8);
    ModThenAdd(off + 16, 8, size);
    cur := (cur + 8) % size;
    WindowFromReduced(ring[..], off + 24, 8 * REGISTER_COUNT);
    var block := new Byte[8 * REGISTER_COUNT];
    CopyRing(block, ring, cur, 8 * REGISTER_COUNT);
    tid := Word(pidtid[..8][4..]);
    regs := Words(block[..8 * REGISTER_COUNT]);
  }

  method ReadLostCount(ring: array<Byte>, off: nat) returns (count: nat)
    requires off < ring.Length && ring.Length >= SAMPLE_BYTES
    ensures count == Word(Window(ring[..], off + 8, 16)[8..])
  {
    WindowFromReduced(ring[..], off + 8, 16);
    var lost := new Byte[16];
    CopyRing(lost, ring, (off + HEADER_BYTES) % ring.Length, 16);
    count := Word(lost[..16][8..]);
  }

  method ReadHeader(ring: array<Byte>, tail: nat) returns (kind: nat, size: nat)
    requires ring.Length >= SAMPLE_BYTES
    ensures kind == KindAt(ring[..], tail) && size == SizeAt(ring[..], tail)
  {
    var hdr := new Byte[HEADER_BYTES];
    CopyRing(hdr, ring, tail % ring.Length, HEADER_BYTES);
    kind := Word(hdr[..HEADER_BYTES][..4]);
    size := Word(hdr[..HEADER_BYTES][6..]);
  }

  /**
   `ConsumeRingLocked`: parse until the cursor reaches the head seen on entry or a zero-sized
   record is met, then publish the cursor.  The result is fixed for every buffer content.
   */
  method ConsumeRingLocked(s: PerfSub, e: PerfEntry)
    requires s.data.Length >= SAMPLE_BYTES
    modifies s, e
    ensures s.data[..] == old(s.data[..]) && s.dataHead == old(s.dataHead)
    ensures Parsed(e.Queue(), s.tail)
         == ParseRing(s.data[..], old(s.dataHead), old(s.tail), old(e.Queue()), e.address)
    ensures s.dataTail == s.tail
  {
    hide Window, Word, Words, KindAt, SizeAt;
    var head := s.dataHead;
    var tail := s.tail;
    ghost var ring := s.data[..];
    ghost var result := ParseRing(ring, head, tail, e.Queue(), e.address);
    while tail < head
      invariant s.data[..] == ring && s.dataHead == head
      invariant ParseRing(ring, head, tail, e.Queue(), e.address) == result
      decreases head - tail
    {
      var kind, size := ReadHeader(s.data, tail);
      if size == 0 { break; }
      ghost var before := e.Queue();
      var off := tail % s.data.Length;
      if kind == PERF_RECORD_SAMPLE {
        var tid, regs := ReadSample(s.data, off);
        if |e.hits| >= MAX_PENDING_HITS { e.hits := e.hits[1..]; }
        e.hits := e.hits + [HitOf(tid, e.address, regs)];
        e.totalHits := (e.totalHits + 1) % TWO_64;
      } else if kind == PERF_RECORD_LOST {
        var count := ReadLostCount(s.data, off);
        e.totalHits := (e.totalHits + count) % TWO_64;
      }
      assert e.Queue() == Digest(ring, tail, before, e.address);
      tail := tail + size;
    }
    s.tail := tail;
    s.dataTail := tail;
  }

  // ---------------------------------------------------------------- refinement of the linear stream

  /** The ring holds the unread part of the stream, and the writer has not lapped the reader. */
  ghost predicate Holds(ring: seq<Byte>, stream: seq<Byte>, tail: nat) {
    && 0 < |ring|
    && tail <= |stream| <= tail + |ring|
    && forall p :: tail <= p < |stream| ==> ring[p % |ring|] == stream[p]
  }

  lemma WindowIsSlice(ring: seq<Byte>, stream: seq<Byte>, tail: nat, p: nat, n: nat)
    requires Holds(ring, stream, tail) && tail <= p && p + n <= |stream|
    ensures Window(ring, p, n) == stream[p..p + n]
  {
  }

  lemma {:induction false} WordsOfEncodeWords(ws: seq<nat>)
    requires forall i :: 0 <= i < |ws| ==> ws[i] < Pow256(8)
    ensures Words(EncodeWords(ws)) == ws
  {
    if ws != [] {
      WordOfWordBytes(ws[0], 8);
      WordsOfEncodeWords(ws[1..]);
      assert EncodeWords(ws)[..8] == WordBytes(ws[0], 8);
      assert EncodeWords(ws)[8..] == EncodeWords(ws[1..]);
    }
  }

  /** Offsets relative to the reduced tail see the same bytes as stream positions. */
  lemma WindowAt(ring: seq<Byte>, stream: seq<Byte>, tail: nat, d: nat, n: nat)
    requires Holds(ring, stream, tail) && tail + d + n <= |stream|
    ensures Window(ring, tail % |ring| + d, n) == stream[tail + d..tail + d + n]
  {
    WindowIsSlice(ring, stream, tail, tail + d, n);
    var a, b := Window(ring, tail % |ring| + d, n), Window(ring, tail + d, n);
    forall i | 0 <= i < n ensures a[i] == b[i] {
      ModThenAdd(tail, d + i, |ring|);
    }
  }

  lemma HeaderFields(kind: nat, misc: nat, size: nat)
    requires kind < Pow256(4) && misc < Pow256(2) && size < Pow256(2)
    ensures Word(Header(kind, misc, size)[..4]) == kind
    ensures Word(Header(kind, misc, size)[6..]) == size
  {
    WordOfWordBytes(kind, 4);
    WordOfWordBytes(size, 2);
    assert Header(kind, misc, size)[..4] == WordBytes(kind, 4);
    assert Header(kind, misc, size)[6..] == WordBytes(size, 2);
  }

  ghost function KindOf(r: Record): nat {
    match r
    case Sample(_, _, _, _, _, _) => PERF_RECORD_SAMPLE
    case Lost(_, _, _, _) => PERF_RECORD_LOST
    case Other(kind, _, _) => kind
  }

  /** The stream carries record `r` at position `tail`. */
  ghost predicate CarriesRecord(stream: seq<Byte>, tail: nat, r: Record) {
    && ValidRecord(r)
    && tail + RecordSize(r) <= |stream|
    && stream[tail..tail + RecordSize(r)] == Encode(r)
  }

  lemma FieldAt(ring: seq<Byte>, stream: seq<Byte>, tail: nat, r: Record, d: nat, n: nat)
    requires Holds(ring, stream, tail) && CarriesRecord(stream, tail, r) && d + n <= RecordSize(r)
    ensures Window(ring, tail % |ring| + d, n) == Encode(r)[d..d + n]
  {
    WindowAt(ring, stream, tail, d, n);
    SliceOfSlice(stream, tail, tail + RecordSize(r), d, n);
  }

  lemma SliceOfSlice(s: seq<Byte>, a: nat, b: nat, d: nat, n: nat)
    requires a <= b <= |s| && d + n <= b - a
    ensures s[a..b][d..d + n] == s[a + d..a + d + n]
  {
    var t, u := s[a..b][d..d + n], s[a + d..a + d + n];
    assert forall i :: 0 <= i < n ==> t[i] == s[a..b][d + i] == s[a + (d + i)] == u[i];
  }

  lemma HeaderOfRecord(ring: seq<Byte>, stream: seq<Byte>, tail: nat, r: Record)
    requires Holds(ring, stream, tail) && CarriesRecord(stream, tail, r)
    ensures KindAt(ring, tail) == KindOf(r) && SizeAt(ring, tail) == RecordSize(r)
  {
    FieldAt(ring, stream, tail, r, 0, 8);
    assert Encode(r)[0..8] == Header(KindOf(r), r.misc, RecordSize(r));
    HeaderFields(KindOf(r), r.misc, RecordSize(r));
  }

  lemma SampleFields(r: Record)
    requires r.Sample? && ValidRecord(r)
    ensures Word(Encode(r)[8..16][4..]) == r.tid
    ensures Words(Encode(r)[24..SAMPLE_BYTES]) == r.user.general + [r.user.sp, r.user.pc]
  {
    assert Encode(r)[8..16][4..] == WordBytes(r.tid, 4);
    WordOfWordBytes(r.tid, 4);
    var words := r.user.general + [r.user.sp, r.user.pc];
    assert Encode(r)[24..SAMPLE_BYTES] == EncodeWords(words);
    WordsOfEncodeWords(words);
  }

  lemma LostField(r: Record)
    requires r.Lost? && ValidRecord(r)
    ensures Word(Encode(r)[8..24][8..]) == r.count
  {
    assert Encode(r)[8..24][8..] == WordBytes(r.count, 8);
    WordOfWordBytes(r.count, 8);
  }

  lemma HitOfRegisters(tid: nat, address: nat, user: Registers)
    requires |user.general| == GENERAL_COUNT
    ensures HitOf(tid, address, user.general + [user.sp, user.pc])
         == Hit(tid, address, user.general, user.sp, user.pc)
  {
    assert (user.general + [user.sp, user.pc])[..31] == user.general;
  }

  /** Every field of a record, read round the ring, is the field that was encoded. */
  lemma DigestOfRecord(ring: seq<Byte>, stream: seq<Byte>, tail: nat, r: Record, p: Pending, address: nat)
    requires Holds(ring, stream, tail) && CarriesRecord(stream, tail, r)
    ensures Digest(ring, tail, p, address) == Account(p, r, address)
  {
    hide Window, Word, Words, KindAt, SizeAt, Encode, Pow256, Holds;
    HeaderOfRecord(ring, stream, tail, r);
    if r.Sample? {
      FieldAt(ring, stream, tail, r, 8, 8);
      FieldAt(ring, stream, tail, r, 24, 8 * REGISTER_COUNT);
      SampleFields(r);
      HitOfRegisters(r.tid, address, r.user);
    } else if r.Lost? {
      FieldAt(ring, stream, tail, r, 8, 16);
      LostField(r);
    }
  }

  /** So the hit queued for a sample, wherever the ring wraps, has the sample's own thread and registers. */
  lemma SampleIsReported(ring: seq<Byte>, stream: seq<Byte>, tail: nat, r: Record, p: Pending, address: nat)
    requires Holds(ring, stream, tail) && CarriesRecord(stream, tail, r) && r.Sample?
    ensures var hits := Digest(ring, tail, p, address).hits;
      && hits != [] && Reports(hits[|hits| - 1], r, address)
      && hits[..|hits| - 1] == if |p.hits| < MAX_PENDING_HITS then p.hits else p.hits[1..]
  {
    DigestOfRecord(ring, stream, tail, r, p, address);
  }

  lemma FirstRecordOf(stream: seq<Byte>, tail: nat, rs: seq<Record>)
    requires rs != [] && ValidRecords(rs) && tail <= |stream| && stream[tail..] == EncodeAll(rs)
    ensures CarriesRecord(stream, tail, rs[0])
    ensures stream[tail + RecordSize(rs[0])..] == EncodeAll(rs[1..])
  {
    var n := RecordSize(rs[0]);
    assert ValidRecord(rs[0]);
    assert stream[tail..] == Encode(rs[0]) + EncodeAll(rs[1..]);
    assert stream[tail..tail + n] == stream[tail..][..n] == Encode(rs[0]);
    assert stream[tail + n..] == stream[tail..][n..] == EncodeAll(rs[1..]);
  }

  lemma HoldsLater(ring: seq<Byte>, stream: seq<Byte>, tail: nat, later: nat)
    requires Holds(ring, stream, tail) && tail <= later <= |stream|
    ensures Holds(ring, stream, later)
  {
  }

  /** One turn of the loop accounts for one record. */
  lemma ParseStep(ring: seq<Byte>, stream: seq<Byte>, tail: nat, r: Record, p: Pending, address: nat)
    requires Holds(ring, stream, tail) && CarriesRecord(stream, tail, r)
    ensures ParseRing(ring, |stream|, tail, p, address)
         == ParseRing(ring, |stream|, tail + RecordSize(r), Account(p, r, address), address)
  {
    HeaderOfRecord(ring, stream, tail, r);
    DigestOfRecord(ring, stream, tail, r, p, address);
    hide Holds, Digest, KindAt, SizeAt, Encode, Account;
  }

  /** Parsing the circular buffer yields exactly what the linear stream means, and drains it. */
  lemma {:induction false} ParseRefinesStream(ring: seq<Byte>, stream: seq<Byte>, tail: nat,
                                              rs: seq<Record>, p: Pending, address: nat)
    requires Holds(ring, stream, tail) && ValidRecords(rs)
    requires stream[tail..] == EncodeAll(rs)
    ensures ParseRing(ring, |stream|, tail, p, address) == Parsed(AccountAll(p, rs, address), |stream|)
    decreases |rs|
  {
    if rs != [] {
      var next := tail + RecordSize(rs[0]);
      FirstRecordOf(stream, tail, rs);
      ParseStep(ring, stream, tail, rs[0], p, address);
      HoldsLater(ring, stream, tail, next);
      hide ParseRing, Holds, Encode, EncodeAll, Account;
      assert ValidRecords(rs[1..]);
      ParseRefinesStream(ring, stream, next, rs[1..], Account(p, rs[0], address), address);
    }
  }
}
