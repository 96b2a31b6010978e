/**
 Symbol counting in engine/android/AndroidElfScanner.hpp: `GetGnuHashSymCount` walks only the chain of
 the largest bucket of a DT_GNU_HASH table.
 */
module GnuHash {
  import opened Basics
  import opened LittleEndian
  import opened PrefixRead

  type Word = w: int | 0 <= w < 0x1_0000_0000

  function ByteAt(mem: Memory, a: nat): (b: int)
    ensures 0 <= b < 256
  {
    match At(mem, a) case Some(b) => b case None => 0
  }

  /** Four bytes, least significant first. */
  function WordAt(mem: Memory, a: nat): Word {
    ByteAt(mem, a) + 0x100 * ByteAt(mem, a + 1) + 0x1_0000 * ByteAt(mem, a + 2) + 0x100_0000 * ByteAt(mem, a + 3)
  }

  /** `ReadFull` of `n` words: all the bytes or failure.  Nothing is read at address 0. */
  function ReadWords(mem: Memory, a: nat, n: nat): (r: Option<seq<Word>>)
    ensures r.Some? ==> |r.value| == n
  {
    if a != 0 && ReadablePrefix(mem, a, 4 * n) == 4 * n
    then Some(seq(n, i requires 0 <= i < n => WordAt(mem, a + 4 * i)))
    else None
  }

  /** The chain word of one symbol: 32-bit subtraction of `symoffset`, 64-bit address. */
  function ChainWord(mem: Memory, chains: nat, symoffset: Word, idx: Word): Option<Word> {
    ChainAt(mem, chains, (idx - symoffset) % TWO_32)
  }

  function ChainAt(mem: Memory, chains: nat, position: nat): Option<Word> {
    var r := ReadWords(mem, (chains + 4 * position) % TWO_64, 1);
    if r.Some? then Some(r.value[0]) else None
  }

  /** `idx++` on a `uint32_t`. */
  function Next(idx: Word): Word {
    (idx + 1) % TWO_32
  }

  predicate EndsChain(w: Word) {
    w % 2 == 1
  }

  /** A `uint32_t` symbol count, or a walk that never ends. */
  datatype Outcome = Count(n: nat) | Diverges

  /** The chain walk from `idx`, cut off after `fuel` words without an end. */
  function Walk(mem: Memory, chains: nat, symoffset: Word, idx: Word, fuel: nat): Outcome
    decreases fuel
  {
    if fuel == 0 then Diverges
    else match ChainWord(mem, chains, symoffset, idx)
      case None => Count(0)
      case Some(w) =>
        if EndsChain(w) then Count(Next(idx))
        else Walk(mem, chains, symoffset, Next(idx), fuel - 1)
  }

  function Max(s: seq<Word>): (m: Word)
    ensures forall i :: 0 <= i < |s| ==> s[i] <= m
    ensures m == 0 || m in s
  {
    if s == [] then 0
    else var m := Max(s[..|s| - 1]); if s[|s| - 1] > m then s[|s| - 1] else m
  }

  function BucketsAddress(table: nat, bloomSize: Word): nat {
    (table + 16 + 8 * bloomSize) % TWO_64
  }

  function ChainsAddress(buckets: nat, count: Word): nat {
    (buckets + 4 * count) % TWO_64
  }

  /** What `GetGnuHashSymCount` answers for a table at `table`. */
  function SymbolCount(mem: Memory, table: nat): Outcome {
    var header := ReadWords(mem, table, 4);
    if header.None? || header.value[0] == 0 then Count(0)
    else
      var count, symoffset := header.value[0], header.value[1];
      var buckets := ReadWords(mem, BucketsAddress(table, header.value[2]), count);
      if buckets.None? then Count(0)
      else if Max(buckets.value) == 0 then Count(symoffset)
      else
        Walk(mem, ChainsAddress(BucketsAddress(table, header.value[2]), count), symoffset, Max(buckets.value), TWO_32)
  }

  /**
   `GetGnuHashSymCount`.  Its second loop has no bound of its own; this one stops when every index has
   been tried once, at which point the original is back where it began and goes round for ever.
   */
  method GetGnuHashSymCount(mem: Memory, table: nat) returns (r: Outcome)
    ensures r == SymbolCount(mem, table)
  {
    var header := ReadWords(mem, table, 4);
    if header.None? { return Count(0); }
    var count, symoffset, bloomSize := header.value[0], header.value[1], header.value[2];
    if count == 0 { return Count(0); }
    var bucketsAddress := BucketsAddress(table, bloomSize);
    var buckets := ReadWords(mem, bucketsAddress, count);
    if buckets.None? { return Count(0); }
    var maxBucket: Word := 0;
    hide ReadWords, ChainWord, ChainsAddress, BucketsAddress, EndsChain, Next;
    for i := 0 to |buckets.value|
      invariant maxBucket == Max(buckets.value[..i])
    {
      assert buckets.value[..i + 1][..i] == buckets.value[..i];
      if buckets.value[i] > maxBucket { maxBucket := buckets.value[i]; }
    }
    assert buckets.value[..|buckets.value|] == buckets.value;
    if maxBucket == 0 { return Count(symoffset); }
    var chains, idx, steps := ChainsAddress(bucketsAddress, count), maxBucket, 0;
    while steps < TWO_32
      invariant steps <= TWO_32
      invariant Walk(mem, chains, symoffset, maxBucket, TWO_32) == Walk(mem, chains, symoffset, idx, TWO_32 - steps)
    {
      var w := ChainWord(mem, chains, symoffset, idx);
      if w.None? { return Count(0); }
      if EndsChain(w.value) { return Count(Next(idx)); }
      idx, steps := Next(idx), steps + 1;
    }
    return Diverges;
  }

  // ---- Termination ----

  /** The walk passes over the word at this chain position. */
  predicate GoesOn(mem: Memory, chains: nat, position: nat) {
    var w := ChainAt(mem, chains, position);
    w.Some? && !EndsChain(w.value)
  }

  /** Where the walk from `idx` looks after `k` steps. */
  function Position(symoffset: Word, idx: Word, k: nat): nat {
    (idx + k - symoffset) % TWO_32
  }

  lemma PositionSteps(symoffset: Word, idx: Word)
    ensures Position(symoffset, idx, 0) == (idx - symoffset) % TWO_32
    ensures forall j: nat :: Position(symoffset, Next(idx), j) == Position(symoffset, idx, j + 1)
  {
  }

  lemma NextAdds(idx: Word, k: nat)
    requires k > 0
    ensures (Next(idx) + (k - 1) + 1) % TWO_32 == (idx + k + 1) % TWO_32
  {
  }

  lemma PositionReaches(symoffset: Word, idx: Word, d: nat) returns (j: nat)
    requires d < TWO_32
    ensures j < TWO_32 && Position(symoffset, idx, j) == d
  {
    j := (d - (idx - symoffset)) % TWO_32;
  }

  lemma {:induction false} WalkStops(mem: Memory, chains: nat, symoffset: Word, idx: Word, fuel: nat, k: nat)
    requires k < fuel && !GoesOn(mem, chains, Position(symoffset, idx, k))
    requires forall j :: 0 <= j < k ==> GoesOn(mem, chains, Position(symoffset, idx, j))
    ensures Walk(mem, chains, symoffset, idx, fuel)
      == if ChainAt(mem, chains, Position(symoffset, idx, k)).None? then Count(0) else Count((idx + k + 1) % TWO_32)
    decreases k
  {
    PositionSteps(symoffset, idx);
    hide Position, ChainAt, EndsChain;
    assert k == 0 ==> Next(idx) == (idx + k + 1) % TWO_32;
    hide Next;
    if k > 0 {
      assert GoesOn(mem, chains, Position(symoffset, idx, 0));
      forall j | 0 <= j < k - 1 ensures GoesOn(mem, chains, Position(symoffset, Next(idx), j)) {
        assert GoesOn(mem, chains, Position(symoffset, idx, j + 1));
      }
      WalkStops(mem, chains, symoffset, Next(idx), fuel - 1, k - 1);
      NextAdds(idx, k);
    }
  }

  lemma {:induction false} WalkRunsOut(mem: Memory, chains: nat, symoffset: Word, idx: Word, fuel: nat)
    requires forall j :: 0 <= j < fuel ==> GoesOn(mem, chains, Position(symoffset, idx, j))
    ensures Walk(mem, chains, symoffset, idx, fuel) == Diverges
    decreases fuel
  {
    PositionSteps(symoffset, idx);
    hide Position, ChainAt, EndsChain;
    if fuel > 0 {
      assert GoesOn(mem, chains, Position(symoffset, idx, 0));
      forall j | 0 <= j < fuel - 1 ensures GoesOn(mem, chains, Position(symoffset, Next(idx), j)) {
        assert GoesOn(mem, chains, Position(symoffset, idx, j + 1));
      }
      WalkRunsOut(mem, chains, symoffset, Next(idx), fuel - 1);
    }
  }

  /** The smallest number of steps after which the walk stops, if there is one below `n`. */
  lemma FirstStop(mem: Memory, chains: nat, symoffset: Word, idx: Word, n: nat) returns (k: nat)
    ensures k <= n && (k < n ==> !GoesOn(mem, chains, Position(symoffset, idx, k)))
    ensures forall j :: 0 <= j < k ==> GoesOn(mem, chains, Position(symoffset, idx, j))
  {
    k := 0;
    while k < n && GoesOn(mem, chains, Position(symoffset, idx, k))
      invariant k <= n && forall j :: 0 <= j < k ==> GoesOn(mem, chains, Position(symoffset, idx, j))
    {
      k := k + 1;
    }
  }

  /**
   The walk never ends exactly when every one of the 2^32 chain positions can be read and none has its
   low bit set, wherever it starts.
   */
  lemma WalkDivergesIff(mem: Memory, chains: nat, symoffset: Word, idx: Word)
    ensures Walk(mem, chains, symoffset, idx, TWO_32) == Diverges
      <==> forall d :: 0 <= d < TWO_32 ==> GoesOn(mem, chains, d)
  {
    hide ChainAt, EndsChain;
    var k := FirstStop(mem, chains, symoffset, idx, TWO_32);
    if k < TWO_32 {
      WalkStops(mem, chains, symoffset, idx, TWO_32, k);
      assert 0 <= Position(symoffset, idx, k) < TWO_32;
    } else {
      WalkRunsOut(mem, chains, symoffset, idx, TWO_32);
      forall d | 0 <= d < TWO_32 ensures GoesOn(mem, chains, d) {
        var j := PositionReaches(symoffset, idx, d);
      }
    }
  }

  // ---- Well-formed tables ----

  /** Symbols in the first `i` buckets. */
  function Before(counts: seq<nat>, i: nat): nat
    requires i <= |counts|
  {
    if i == 0 then 0 else Before(counts, i - 1) + counts[i - 1]
  }

  lemma {:induction false} BeforeGrows(counts: seq<nat>, i: nat, j: nat)
    requires i <= j <= |counts|
    ensures Before(counts, i) <= Before(counts, j)
    decreases j
  {
    if i < j { BeforeGrows(counts, i, j - 1); }
  }

  /** Chain position `p` is the last of some bucket. */
  ghost predicate EndsBucket(counts: seq<nat>, p: nat) {
    exists i :: 0 <= i < |counts| && counts[i] > 0 && Before(counts, i + 1) == p + 1
  }

  function BucketWord(counts: seq<nat>, symoffset: Word, i: nat): nat
    requires i < |counts|
  {
    if counts[i] == 0 then 0 else symoffset + Before(counts, i)
  }

  /**
   A readable table of `|counts|` buckets whose symbols, from index `symoffset` on, are sorted by bucket:
   each bucket word is the index of its first symbol, and exactly the last symbol of each bucket has the
   low bit of its chain word set.
   */
  ghost predicate WellFormed(mem: Memory, table: nat, symoffset: Word, counts: seq<nat>) {
    var header := ReadWords(mem, table, 4);
    && header.Some? && 0 < |counts| == header.value[0] && symoffset == header.value[1]
    && var buckets := ReadWords(mem, BucketsAddress(table, header.value[2]), |counts|);
    && var chains := ChainsAddress(BucketsAddress(table, header.value[2]), |counts|);
    && buckets.Some?
    && symoffset + Before(counts, |counts|) <= TWO_32
    && (forall i :: 0 <= i < |counts| ==> buckets.value[i] == BucketWord(counts, symoffset, i))
    && forall p :: 0 <= p < Before(counts, |counts|) ==>
      ChainAt(mem, chains, p).Some? && (EndsChain(ChainAt(mem, chains, p).value) <==> EndsBucket(counts, p))
  }

  /** The last bucket that holds a symbol, or -1. */
  function LastBucket(counts: seq<nat>, n: nat): (k: int)
    requires n <= |counts|
    ensures -1 <= k < n && (k >= 0 ==> counts[k] > 0)
    ensures forall i :: k < i < n ==> counts[i] == 0
    ensures Before(counts, n) == if k >= 0 then Before(counts, k + 1) else 0
  {
    if n == 0 then -1 else if counts[n - 1] > 0 then n - 1 else LastBucket(counts, n - 1)
  }

  /** The largest bucket word is the start of the last bucket that holds a symbol. */
  lemma LargestIsLast(counts: seq<nat>, symoffset: Word, words: seq<Word>)
    requires |words| == |counts|
    requires forall i :: 0 <= i < |counts| ==> words[i] == BucketWord(counts, symoffset, i)
    ensures var k := LastBucket(counts, |counts|);
      Max(words) == if k >= 0 then symoffset + Before(counts, k) else 0
  {
    var k := LastBucket(counts, |counts|);
    forall i | 0 <= i < |words| && words[i] != 0 ensures k >= 0 && words[i] <= words[k] {
      assert i <= k;
      BeforeGrows(counts, i, k);
    }
    if k >= 0 { assert words[k] <= Max(words); }
  }

  /** No chain ends strictly inside a bucket. */
  lemma InsideBucket(counts: seq<nat>, k: nat, p: nat)
    requires k < |counts| && Before(counts, k) <= p && p + 1 < Before(counts, k + 1)
    ensures !EndsBucket(counts, p)
  {
    forall i | 0 <= i < |counts| && counts[i] > 0 ensures Before(counts, i + 1) != p + 1 {
      if i < k {
        BeforeGrows(counts, i + 1, k);
      } else {
        BeforeGrows(counts, k + 1, i + 1);
      }
    }
  }

  /**
   On every well-formed table the walk ends and the answer, a 32-bit number, is `symoffset` plus all the
   symbols in the buckets -- unless the last bucket with symbols starts at index 0, which the code takes
   for "all buckets are empty".
   */
  lemma CountsEverySymbol(mem: Memory, table: nat, symoffset: Word, counts: seq<nat>)
    requires WellFormed(mem, table, symoffset, counts)
    ensures var k := LastBucket(counts, |counts|);
      SymbolCount(mem, table) == Count(
        if k >= 0 && symoffset + Before(counts, k) == 0 then 0
        else (symoffset + Before(counts, |counts|)) % TWO_32)
  {
    hide ReadWords, ChainAt, ChainsAddress, BucketsAddress, EndsChain, EndsBucket, Walk, Before;
    var header := ReadWords(mem, table, 4).value;
    var buckets := ReadWords(mem, BucketsAddress(table, header[2]), |counts|).value;
    var chains := ChainsAddress(BucketsAddress(table, header[2]), |counts|);
    var k := LastBucket(counts, |counts|);
    LargestIsLast(counts, symoffset, buckets);
    if k >= 0 && Max(buckets) != 0 {
      LastChainCounts(mem, chains, symoffset, counts, k);
    }
  }

  lemma LastChainCounts(mem: Memory, chains: nat, symoffset: Word, counts: seq<nat>, k: nat)
    requires k < |counts| && counts[k] > 0 && symoffset + Before(counts, k + 1) <= TWO_32
    requires forall p :: 0 <= p < Before(counts, k + 1) ==>
      ChainAt(mem, chains, p).Some? && (EndsChain(ChainAt(mem, chains, p).value) <==> EndsBucket(counts, p))
    ensures Walk(mem, chains, symoffset, symoffset + Before(counts, k), TWO_32)
      == Count((symoffset + Before(counts, k + 1)) % TWO_32)
  {
    hide ChainAt, EndsChain;
    var start: Word := symoffset + Before(counts, k);
    var last := counts[k] - 1;
    forall j | 0 <= j < last ensures GoesOn(mem, chains, Position(symoffset, start, j)) {
      assert Position(symoffset, start, j) == Before(counts, k) + j;
      InsideBucket(counts, k, Before(counts, k) + j);
    }
    assert Position(symoffset, start, last) == Before(counts, k) + last;
    assert EndsBucket(counts, Before(counts, k) + last);
    WalkStops(mem, chains, symoffset, start, TWO_32, last);
  }

  // ---- Tables byte by byte ----

  /** The four bytes of `w`, least significant first, lie at `a`. */
  ghost predicate HoldsWord(mem: Memory, a: nat, w: Word) {
    forall i :: 0 <= i < 4 ==> At(mem, a + i) == Some(WordBytes(w, 4)[i])
  }

  lemma FourBytes(s: seq<Byte>)
    requires |s| == 4
    ensures Pow256(4) == TWO_32
    ensures LittleEndian.Word(s) ==
      s[0] as int + 0x100 * (s[1] as int) + 0x1_0000 * (s[2] as int) + 0x100_0000 * (s[3] as int)
  {
    assert Pow256(1) == 256 && Pow256(2) == 65536 && Pow256(3) == 0x100_0000;
    assert s[1..][0] == s[1] && s[1..][1..] == s[2..] && s[2..][0] == s[2];
    assert s[2..][1..] == s[3..] && s[3..] == [s[3]];
    assert LittleEndian.Word(s[3..]) == s[3];
    assert LittleEndian.Word(s[2..]) == s[2] as int + 256 * (s[3] as int);
    assert LittleEndian.Word(s[1..]) == s[1] as int + 256 * LittleEndian.Word(s[2..]);
  }

  lemma HeldWord(mem: Memory, a: nat, w: Word)
    requires HoldsWord(mem, a, w)
    ensures WordAt(mem, a) == w
  {
    WordOfWordBytes(w, 4);
    FourBytes(WordBytes(w, 4));
    assert At(mem, a + 0) == Some(WordBytes(w, 4)[0]);
    assert At(mem, a + 1) == Some(WordBytes(w, 4)[1]) && At(mem, a + 2) == Some(WordBytes(w, 4)[2]);
    assert At(mem, a + 3) == Some(WordBytes(w, 4)[3]);
  }

  /** Words laid out one after the other are what is read. */
  lemma WordsRead(mem: Memory, a: nat, ws: seq<Word>)
    requires a > 0 && forall i :: 0 <= i < |ws| ==> HoldsWord(mem, a + 4 * i, ws[i])
    ensures ReadWords(mem, a, |ws|) == Some(ws)
  {
    var n := |ws|;
    forall x | a <= x < a + 4 * n ensures At(mem, x).Some? {
      var i := (x - a) / 4;
      var k := (x - a) % 4;
      assert HoldsWord(mem, a + 4 * i, ws[i]);
      assert At(mem, (a + 4 * i) + k) == Some(WordBytes(ws[i], 4)[k]);
    }
    PrefixIsLongest(mem, a, 4 * n, 4 * n);
    var r := ReadWords(mem, a, n).value;
    forall i | 0 <= i < n ensures r[i] == ws[i] { HeldWord(mem, a + 4 * i, ws[i]); }
    assert r == ws;
  }

  /**
   A DT_GNU_HASH table in memory: number of buckets, index of the first symbol, number of 64-bit bloom words,
   shift; the bloom words; the buckets; the chain words, with the low bit set for the last symbol of each bucket.
   */
  ghost predicate LaidOut(mem: Memory, table: nat, symoffset: Word, bloomSize: Word, shift: Word, counts: seq<nat>,
                          chain: seq<Word>)
  {
    var buckets := table + 16 + 8 * bloomSize;
    var chains := buckets + 4 * |counts|;
    && 0 < table && 0 < |counts| < TWO_32 && |chain| == Before(counts, |counts|)
    && chains + 4 * |chain| < TWO_64 && symoffset + |chain| <= TWO_32
    && HoldsWord(mem, table, |counts|) && HoldsWord(mem, table + 4, symoffset)
    && HoldsWord(mem, table + 8, bloomSize) && HoldsWord(mem, table + 12, shift)
    && (forall i :: 0 <= i < |counts| ==>
          BucketWord(counts, symoffset, i) < TWO_32
          && HoldsWord(mem, buckets + 4 * i, BucketWord(counts, symoffset, i)))
    && forall p :: 0 <= p < |chain| ==>
      HoldsWord(mem, chains + 4 * p, chain[p]) && (chain[p] % 2 == 1 <==> EndsBucket(counts, p))
  }

  lemma HeaderReads(mem: Memory, table: nat, a: Word, b: Word, c: Word, d: Word)
    requires table > 0 && HoldsWord(mem, table, a) && HoldsWord(mem, table + 4, b)
    requires HoldsWord(mem, table + 8, c) && HoldsWord(mem, table + 12, d)
    ensures ReadWords(mem, table, 4) == Some([a, b, c, d])
  {
    var ws := [a, b, c, d];
    forall i | 0 <= i < 4 ensures HoldsWord(mem, table + 4 * i, ws[i]) {
      assert i == 0 || i == 1 || i == 2 || i == 3;
    }
    WordsRead(mem, table, ws);
  }

  lemma ChainReads(mem: Memory, chains: nat, p: nat, w: Word)
    requires 0 < chains && chains + 4 * p < TWO_64 && HoldsWord(mem, chains + 4 * p, w)
    ensures ChainAt(mem, chains, p) == Some(w)
  {
    WordsRead(mem, chains + 4 * p, [w]);
  }

  lemma BucketsRead(mem: Memory, buckets: nat, counts: seq<nat>, symoffset: Word)
    requires 0 < buckets
    requires forall i :: 0 <= i < |counts| ==>
      BucketWord(counts, symoffset, i) < TWO_32 && HoldsWord(mem, buckets + 4 * i, BucketWord(counts, symoffset, i))
    ensures var r := ReadWords(mem, buckets, |counts|);
      r.Some? && forall i :: 0 <= i < |counts| ==> r.value[i] == BucketWord(counts, symoffset, i)
  {
    hide HoldsWord, BucketWord;
    var ws: seq<Word> := seq(|counts|, i requires 0 <= i < |counts| => BucketWord(counts, symoffset, i));
    WordsRead(mem, buckets, ws);
  }

  lemma LaidOutIsWellFormed(mem: Memory, table: nat, symoffset: Word, bloomSize: Word, shift: Word,
                            counts: seq<nat>, chain: seq<Word>)
    requires LaidOut(mem, table, symoffset, bloomSize, shift, counts, chain)
    ensures WellFormed(mem, table, symoffset, counts)
  {
    var buckets := table + 16 + 8 * bloomSize;
    var chains := buckets + 4 * |counts|;
    assert BucketsAddress(table, bloomSize) == buckets && ChainsAddress(buckets, |counts|) == chains;
    hide HoldsWord, BucketWord, EndsBucket, Before, ReadWords, ChainAt, BucketsAddress, ChainsAddress;
    HeaderReads(mem, table, |counts|, symoffset, bloomSize, shift);
    BucketsRead(mem, buckets, counts, symoffset);
    forall p | 0 <= p < |chain|
      ensures ChainAt(mem, chains, p).Some? && (EndsChain(ChainAt(mem, chains, p).value) <==> EndsBucket(counts, p))
    {
      ChainReads(mem, chains, p, chain[p]);
    }
  }

  /** So the code counts the symbols of every table laid out in this way, but for the one exception. */
  lemma CountsLaidOutTable(mem: Memory, table: nat, symoffset: Word, bloomSize: Word, shift: Word, counts: seq<nat>,
                           chain: seq<Word>)
    requires LaidOut(mem, table, symoffset, bloomSize, shift, counts, chain)
    ensures var k := LastBucket(counts, |counts|);
      SymbolCount(mem, table) == Count(
        if k >= 0 && symoffset + Before(counts, k) == 0 then 0
        else (symoffset + Before(counts, |counts|)) % TWO_32)
  {
    hide *;
    LaidOutIsWellFormed(mem, table, symoffset, bloomSize, shift, counts, chain);
    CountsEverySymbol(mem, table, symoffset, counts);
  }

  /** Where the header or a bucket cannot be read the answer is 0. */
  lemma UnreadableIsZero(mem: Memory, table: nat, count: Word, symoffset: Word, bloomSize: Word, shift: Word, x: nat)
    requires At(mem, x).None?
    ensures table == 0 || table <= x < table + 16 ==> SymbolCount(mem, table) == Count(0)
    ensures
      && 0 < table && table + 16 + 8 * bloomSize + 4 * count < TWO_64
      && HoldsWord(mem, table, count) && HoldsWord(mem, table + 4, symoffset)
      && HoldsWord(mem, table + 8, bloomSize) && HoldsWord(mem, table + 12, shift)
      && table + 16 + 8 * bloomSize <= x < table + 16 + 8 * bloomSize + 4 * count
      ==> SymbolCount(mem, table) == Count(0)
  {
    if table == 0 || table <= x < table + 16 {
      assert ReadWords(mem, table, 4).None?;
    }
    var buckets := table + 16 + 8 * bloomSize;
    if && 0 < table && buckets + 4 * count < TWO_64
       && HoldsWord(mem, table, count) && HoldsWord(mem, table + 4, symoffset)
       && HoldsWord(mem, table + 8, bloomSize) && HoldsWord(mem, table + 12, shift)
       && buckets <= x < buckets + 4 * count
    {
      HeaderReads(mem, table, count, symoffset, bloomSize, shift);
      assert BucketsAddress(table, bloomSize) == buckets;
      assert ReadWords(mem, buckets, count).None?;
    }
  }

  // ---- A table that is miscounted ----

  /** One bucket, `symoffset` 0, one symbol: header 1, 0, 0, 0; bucket 0; chain word 1. */
  function OneSymbol(a: nat): Option<Byte> {
    if a == 4096 || a == 4116 then Some(1) else if 4096 < a < 4120 then Some(0) else None
  }

  /** Its word `i`, from the start of the table: all are 0 but the first and the last. */
  lemma OneSymbolWord(i: nat)
    requires i <= 5
    ensures WordAt(OneSymbol, 4096 + 4 * i) == if i == 0 || i == 5 then 1 else 0
  {
  }

  lemma OneSymbolReads(k: nat, n: nat)
    requires k + n <= 6
    ensures var r := ReadWords(OneSymbol, 4096 + 4 * k, n);
      r.Some? && forall i :: 0 <= i < n ==> r.value[i] == if k + i == 0 || k + i == 5 then 1 else 0
  {
    var a := 4096 + 4 * k;
    PrefixIsLongest(OneSymbol, a, 4 * n, 4 * n);
    var r := ReadWords(OneSymbol, a, n);
    forall i | 0 <= i < n ensures r.value[i] == if k + i == 0 || k + i == 5 then 1 else 0 {
      OneSymbolWord(k + i);
      assert a + 4 * i == 4096 + 4 * (k + i);
    }
  }

  lemma OneSymbolWords()
    ensures ReadWords(OneSymbol, 4096, 4) == Some([1, 0, 0, 0])
    ensures ReadWords(OneSymbol, 4112, 1) == Some([0])
    ensures ReadWords(OneSymbol, 4116, 1) == Some([1])
  {
    hide *;
    OneSymbolReads(0, 4);
    OneSymbolReads(4, 1);
    OneSymbolReads(5, 1);
    assert ReadWords(OneSymbol, 4096, 4).value == [1, 0, 0, 0];
    assert ReadWords(OneSymbol, 4112, 1).value == [0];
    assert ReadWords(OneSymbol, 4116, 1).value == [1];
  }

  lemma OneSymbolWellFormed()
    ensures WellFormed(OneSymbol, 4096, 0, [1])
  {
    OneSymbolWords();
    hide ReadWords, WordAt, OneSymbol;
    assert BucketsAddress(4096, 0) == 4112 && ChainsAddress(4112, 1) == 4116;
    assert Before([1], 1) == Before([1], 0) + 1 == 1;
    assert ChainAt(OneSymbol, 4116, 0) == Some(1) && EndsBucket([1], 0);
  }

  /** Its symbol is at index 0, so its bucket word is 0, and the code answers 0 instead of 1. */
  lemma FirstSymbolIsMissed()
    ensures WellFormed(OneSymbol, 4096, 0, [1]) && Before([1], 1) == 1
    ensures SymbolCount(OneSymbol, 4096) == Count(0)
  {
    OneSymbolWellFormed();
    hide WellFormed, SymbolCount;
    CountsEverySymbol(OneSymbol, 4096, 0, [1]);
    assert Before([1], 1) == Before([1], 0) + 1 == 1;
  }
}
