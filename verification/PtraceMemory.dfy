/**
 Word-wise memory access of engine/android/AndroidTracer.hpp: `ReadMemory` and `WriteMemory` over
 PTRACE_PEEKTEXT and PTRACE_POKETEXT, which move eight bytes at a time.
 */
module PtraceMemory {
  import opened Basics
  import opened LittleEndian

  /** What -1 looks like as the bytes of a `long`. */
  const ALL_ONES: seq<Byte> := [255, 255, 255, 255, 255, 255, 255, 255]

  /** `cells` with `data` written at `a`. */
  function Overlay(cells: seq<Byte>, a: nat, data: seq<Byte>): (r: seq<Byte>)
    requires a + |data| <= |cells|
    ensures |r| == |cells|
  {
    cells[..a] + data + cells[a + |data|..]
  }

  lemma OverlayAt(cells: seq<Byte>, a: nat, data: seq<Byte>, x: nat)
    requires a + |data| <= |cells| && x < |cells|
    ensures Overlay(cells, a, data)[x] == if a <= x < a + |data| then data[x - a] else cells[x]
  {
  }

  lemma OverlayNothing(cells: seq<Byte>, a: nat)
    requires a <= |cells|
    ensures Overlay(cells, a, []) == cells
  {
  }

  /** Two writes side by side are one. */
  lemma OverlayJoins(cells: seq<Byte>, a: nat, first: seq<Byte>, second: seq<Byte>)
    requires a + |first| + |second| <= |cells|
    ensures Overlay(Overlay(cells, a, first), a + |first|, second) == Overlay(cells, a, first + second)
  {
    var l, r := Overlay(Overlay(cells, a, first), a + |first|, second), Overlay(cells, a, first + second);
    forall x | 0 <= x < |cells| ensures l[x] == r[x] {
      OverlayAt(cells, a, first, x);
      OverlayAt(Overlay(cells, a, first), a + |first|, second, x);
      OverlayAt(cells, a, first + second, x);
    }
  }

  function WordAt(cells: seq<Byte>, a: nat): (word: seq<Byte>)
    requires a + 8 <= |cells|
    ensures |word| == 8
  {
    cells[a..a + 8]
  }

  /**
   A stopped process.  Which words the kernel lets through is arbitrary, except that nothing is mapped at
   address 0 or beyond the last cell.
   */
  class Tracee {
    var cells: seq<Byte>
    const peekable: nat -> bool
    const pokeable: nat -> bool

    constructor (cells: seq<Byte>, peekable: nat -> bool, pokeable: nat -> bool)
      requires |cells| <= TWO_64
      requires Mapped(|cells|, peekable) && Mapped(|cells|, pokeable)
      ensures Valid() && this.cells == cells && this.peekable == peekable && this.pokeable == pokeable
    {
      this.cells, this.peekable, this.pokeable := cells, peekable, pokeable;
    }

    ghost predicate Valid()
      reads this
    {
      |cells| <= TWO_64 && Mapped(|cells|, peekable) && Mapped(|cells|, pokeable)
    }

    /** PTRACE_PEEKTEXT: the word, or -1 and an error. */
    method Peek(a: nat) returns (ok: bool, word: seq<Byte>)
      requires Valid() && a < TWO_64
      ensures ok == peekable(a)
      ensures word == if ok then WordAt(cells, a) else ALL_ONES
    {
      ok := peekable(a);
      word := if ok then WordAt(cells, a) else ALL_ONES;
    }

    /** PTRACE_POKETEXT. */
    method Poke(a: nat, word: seq<Byte>) returns (ok: bool)
      requires Valid() && a < TWO_64 && |word| == 8
      modifies this
      ensures Valid() && ok == pokeable(a)
      ensures cells == if ok then Overlay(old(cells), a, word) else old(cells)
    {
      ok := pokeable(a);
      if ok { cells := Overlay(cells, a, word); }
    }
  }

  ghost predicate Mapped(top: nat, can: nat -> bool) {
    forall a: nat :: can(a) ==> 0 < a && a + 8 <= top
  }

  /** Whole words in `n` bytes. */
  function Whole(n: nat): (w: nat)
    ensures n == 8 * w + Rest(n)
  {
    n / 8
  }

  /** Bytes after the whole words. */
  function Rest(n: nat): (r: nat)
    ensures r < 8
  {
    n % 8
  }

  /** Words it takes to hold `n` bytes. */
  function WordsFor(n: nat): (w: nat)
    ensures w == Whole(n) + if Rest(n) > 0 then 1 else 0
  {
    (n + 8 - 1) / 8
  }

  /** How many of `n` words from `a` on the kernel lets through before the first it refuses. */
  function Leading(can: nat -> bool, a: nat, n: nat): (m: nat)
    ensures m <= n && (m < n ==> !can(a + 8 * m))
    decreases n
  {
    if n == 0 || !can(a) then 0 else 1 + Leading(can, a + 8, n - 1)
  }

  lemma {:induction false} LeadingExtends(can: nat -> bool, a: nat, n: nat, i: nat)
    requires i < n && Leading(can, a, i) == i
    ensures Leading(can, a, i + 1) == if can(a + 8 * i) then i + 1 else i
    ensures !can(a + 8 * i) ==> Leading(can, a, n) == i
    decreases i
  {
    if i > 0 {
      LeadingExtends(can, a + 8, n - 1, i - 1);
      assert a + 8 + 8 * (i - 1) == a + 8 * i;
    }
  }

  /** A refusal among the first words decides. */
  lemma {:induction false} LeadingPrefix(can: nat -> bool, a: nat, n: nat, k: nat)
    requires k <= n
    ensures var m := Leading(can, a, k);
      if m < k then Leading(can, a, n) == m else Leading(can, a, n) >= k
    decreases k
  {
    if k > 0 && can(a) { LeadingPrefix(can, a + 8, n - 1, k - 1); }
  }

  /** Words that are let through lie inside the mapped cells. */
  lemma {:induction false} LeadingFits(can: nat -> bool, top: nat, a: nat, n: nat)
    requires Mapped(top, can)
    ensures var m := Leading(can, a, n); m > 0 ==> 0 < a && a + 8 * m <= top
    decreases n
  {
    if Leading(can, a, n) > 0 { LeadingFits(can, top, a + 8, n - 1); }
  }

  /** The pointer of the word loops: it wraps at 64 bits. */
  function Pointer(a: nat): (p: nat)
    ensures p < TWO_64 && (a < TWO_64 ==> p == a) && (a == TWO_64 ==> p == 0)
  {
    a % TWO_64
  }

  lemma SameAnswerWrapped(can: nat -> bool, top: nat, a: nat)
    requires Mapped(top, can) && top <= TWO_64 && a <= TWO_64
    ensures can(Pointer(a)) <==> can(a)
    ensures can(a) ==> Pointer(a) == a
  {
  }

  /** Wrapped or not, the next word after mapped ones is let through or refused alike. */
  lemma PointerAsked(can: nat -> bool, top: nat, a: nat, i: nat)
    requires Mapped(top, can) && top <= TWO_64 && a < TWO_64 && Leading(can, a, i) == i
    ensures can(Pointer(a + 8 * i)) <==> can(a + 8 * i)
    ensures can(a + 8 * i) ==> a + 8 * (i + 1) <= top && Pointer(a + 8 * i) == a + 8 * i
  {
    LeadingFits(can, top, a, i);
  }

  /** `n` bytes from `a` on; nothing where none are asked for. */
  function Bytes(cells: seq<Byte>, a: nat, n: nat): (r: seq<Byte>)
    requires n > 0 ==> a + n <= |cells|
    ensures |r| == n
  {
    if n == 0 then [] else cells[a..a + n]
  }

  lemma BytesJoin(cells: seq<Byte>, a: nat, n: nat, k: nat)
    requires a + n + k <= |cells|
    ensures Bytes(cells, a, n) + Bytes(cells, a + n, k) == Bytes(cells, a, n + k)
  {
  }

  // ---- Reading ----

  /** How many bytes a read of `size` brings in: all, or the words before the first refused one. */
  function Fetched(can: nat -> bool, a: nat, size: nat): (n: nat)
    ensures n <= size
  {
    var m := Leading(can, a, WordsFor(size));
    if m == WordsFor(size) then size else 8 * m
  }

  /** `s` is `before` with the first `n` bytes from `address` on copied to its start. */
  ghost predicate Filled(s: seq<Byte>, before: seq<Byte>, cells: seq<Byte>, address: nat, n: nat) {
    && n <= |before|
    && (n > 0 ==> address + n <= |cells|)
    && s == Overlay(before, 0, Bytes(cells, address, n))
  }

  lemma FilledMore(s: seq<Byte>, before: seq<Byte>, cells: seq<Byte>, address: nat, n: nat, take: nat)
    requires Filled(s, before, cells, address, n) && n + take <= |before| && take <= 8 && address + n + 8 <= |cells|
    ensures |s| == |before|
    ensures Filled(Overlay(s, n, WordAt(cells, address + n)[..take]), before, cells, address, n + take)
  {
    var got := Bytes(cells, address, n);
    assert WordAt(cells, address + n)[..take] == Bytes(cells, address + n, take);
    BytesJoin(cells, address, n, take);
    OverlayJoins(before, 0, got, Bytes(cells, address + n, take));
  }

  /** `memcpy` into the buffer. */
  method CopyWord(buffer: array<Byte>, off: nat, bytes: seq<Byte>)
    requires off + |bytes| <= buffer.Length
    modifies buffer
    ensures buffer[..] == Overlay(old(buffer[..]), off, bytes)
  {
    forall j | 0 <= j < |bytes| { buffer[off + j] := bytes[j]; }
  }

  /** Reads word `i` of the range and keeps its first `take` bytes, after those of the words before. */
  method ReadWord(t: Tracee, address: nat, buffer: array<Byte>, i: nat, take: nat, ghost before: seq<Byte>)
      returns (ok: bool)
    requires t.Valid() && address < TWO_64 && 0 < take <= 8 && 8 * i + take <= buffer.Length == |before|
    requires Leading(t.peekable, address, i) == i && Filled(buffer[..], before, t.cells, address, 8 * i)
    modifies buffer
    ensures ok == t.peekable(address + 8 * i)
    ensures ok ==> Filled(buffer[..], before, t.cells, address, 8 * i + take)
    ensures !ok ==> Filled(buffer[..], before, t.cells, address, 8 * i)
  {
    PointerAsked(t.peekable, |t.cells|, address, i);
    hide *;
    var word;
    ok, word := t.Peek(Pointer(address + 8 * i));
    if ok {
      ghost var n := 8 * i;
      assert Pointer(address + n) == address + n && address + n + 8 <= |t.cells|;
      FilledMore(buffer[..], before, t.cells, address, n, take);
      CopyWord(buffer, 8 * i, word[..take]);
    }
  }

  /** The loop over whole words: how many were read before one was refused. */
  method ReadWords(t: Tracee, address: nat, buffer: array<Byte>, words: nat) returns (i: nat)
    requires t.Valid() && address < TWO_64 && 8 * words <= buffer.Length
    modifies buffer
    ensures i == Leading(t.peekable, address, words)
    ensures Filled(buffer[..], old(buffer[..]), t.cells, address, 8 * i)
  {
    ghost var before := buffer[..];
    assert Filled(buffer[..], before, t.cells, address, 8 * 0);
    hide *;
    i := 0;
    while i < words
      invariant i <= words && Leading(t.peekable, address, i) == i
      invariant Filled(buffer[..], before, t.cells, address, 8 * i)
    {
      LeadingExtends(t.peekable, address, words, i);
      var peeked := ReadWord(t, address, buffer, i, 8, before);
      if !peeked { return; }
      assert 8 * i + 8 == 8 * (i + 1);
      i := i + 1;
    }
  }

  /**
   `ReadMemory`.  It succeeds when every word of the range can be read; the last word is read whole even
   where the range ends inside it.  After a failure the words before the refused one are in the buffer.
   */
  method ReadMemory(t: Tracee, attached: bool, address: nat, buffer: array<Byte>, size: nat) returns (ok: bool)
    requires t.Valid() && address < TWO_64 && size <= buffer.Length
    modifies buffer
    ensures ok <==> attached && size > 0 && Leading(t.peekable, address, WordsFor(size)) == WordsFor(size)
    ensures Filled(
      buffer[..], old(buffer[..]), t.cells, address, if attached then Fetched(t.peekable, address, size) else 0)
  {
    if !attached || size == 0 { return false; }
    var words, rest := Whole(size), Rest(size);
    ghost var before := buffer[..];
    hide Filled, Leading;
    var i := ReadWords(t, address, buffer, words);
    LeadingPrefix(t.peekable, address, WordsFor(size), words);
    if i < words { return false; }
    if rest > 0 {
      LeadingExtends(t.peekable, address, WordsFor(size), words);
      ok := ReadWord(t, address, buffer, words, rest, before);
    } else {
      ok := true;
    }
  }

  // ---- Writing ----

  /** What a write puts after the data to fill its last word. */
  function Filler(cells: seq<Byte>, peekable: nat -> bool, address: nat, n: nat): (r: seq<Byte>)
    requires Mapped(|cells|, peekable)
    ensures |r| == 8 * WordsFor(n) - n
  {
    var rest := Rest(n);
    if rest == 0 then []
    else if peekable(address + n - rest) then cells[address + n..address + n - rest + 8]
    else ALL_ONES[rest..]
  }

  /** Every word of the range was let through. */
  ghost predicate WritesAll(pokeable: nat -> bool, address: nat, data: seq<Byte>) {
    data != [] && Leading(pokeable, address, WordsFor(|data|)) == WordsFor(|data|)
  }

  /** The cells after a write: everything, or the whole words before the first refused one. */
  function WrittenCells(cells: seq<Byte>, peekable: nat -> bool, pokeable: nat -> bool, address: nat,
                        data: seq<Byte>): seq<Byte>
    requires Mapped(|cells|, peekable) && Mapped(|cells|, pokeable)
  {
    var total := WordsFor(|data|);
    var m := Leading(pokeable, address, total);
    LeadingFits(pokeable, |cells|, address, total);
    if m == 0 then cells
    else if m < total then Overlay(cells, address, data[..8 * m])
    else Overlay(cells, address, data + Filler(cells, peekable, address, |data|))
  }

  lemma WordBeyond(before: seq<Byte>, a: nat, data: seq<Byte>, k: nat)
    requires a + |data| <= k && k + 8 <= |before|
    ensures WordAt(Overlay(before, a, data), k) == WordAt(before, k)
  {
    forall j | 0 <= j < 8 ensures WordAt(Overlay(before, a, data), k)[j] == WordAt(before, k)[j] {
      OverlayAt(before, a, data, k + j);
    }
  }

  lemma FillerIs(cells: seq<Byte>, peekable: nat -> bool, address: nat, n: nat, k: nat)
    requires Mapped(|cells|, peekable) && Rest(n) > 0 && k == address + 8 * Whole(n)
    ensures Filler(cells, peekable, address, n) == (if peekable(k) then WordAt(cells, k) else ALL_ONES)[Rest(n)..]
  {
    hide Whole, Rest, WordsFor;
    assert address + n - Rest(n) == k;
  }

  lemma JoinAtCut(data: seq<Byte>, k: nat, filler: seq<Byte>)
    requires k <= |data|
    ensures data[..k] + (data[k..] + filler) == data + filler
  {
  }

  /** `cells` is `before` with the first `i` words of the data written. */
  ghost predicate Written(cells: seq<Byte>, before: seq<Byte>, address: nat, data: seq<Byte>, i: nat) {
    && |cells| == |before| && 8 * i <= |data|
    && (i > 0 ==> address + 8 * i <= |before|)
    && cells == if i == 0 then before else Overlay(before, address, data[..8 * i])
  }

  lemma WrittenMore(cells: seq<Byte>, before: seq<Byte>, address: nat, data: seq<Byte>, i: nat)
    requires Written(cells, before, address, data, i) && 8 * i + 8 <= |data| && address + 8 * (i + 1) <= |before|
    ensures Written(Overlay(cells, address + 8 * i, WordAt(data, 8 * i)), before, address, data, i + 1)
  {
    assert data[..8 * i] + WordAt(data, 8 * i) == data[..8 * (i + 1)];
    OverlayJoins(before, address, data[..8 * i], WordAt(data, 8 * i));
    OverlayNothing(before, address);
  }

  /** The last word: what is left of the data, and behind it what was peeked. */
  function LastWord(data: seq<Byte>, peeked: seq<Byte>): (word: seq<Byte>)
    requires |peeked| == 8
    ensures |word| == 8
  {
    data[8 * Whole(|data|)..] + peeked[Rest(|data|)..]
  }

  lemma TailIsFilled(cells: seq<Byte>, before: seq<Byte>, peekable: nat -> bool, address: nat, data: seq<Byte>,
                     a: nat, peeked: seq<Byte>)
    requires Mapped(|before|, peekable) && Rest(|data|) > 0 && Written(cells, before, address, data, Whole(|data|))
    requires a == address + 8 * Whole(|data|) && a + 8 <= |before|
    requires peeked == if peekable(a) then WordAt(cells, a) else ALL_ONES
    ensures Overlay(cells, a, LastWord(data, peeked))
      == Overlay(before, address, data + Filler(before, peekable, address, |data|))
  {
    var w := Whole(|data|);
    var word := LastWord(data, peeked);
    assert word == data[8 * w..] + peeked[Rest(|data|)..];
    hide Whole, Rest, WordsFor, Overlay, Filler, WordAt;
    FillerIs(before, peekable, address, |data|, a);
    if w > 0 && peekable(a) {
      WordBeyond(before, address, data[..8 * w], a);
    }
    JoinAtCut(data, 8 * w, peeked[Rest(|data|)..]);
    OverlayJoins(before, address, data[..8 * w], word);
    OverlayNothing(before, address);
  }

  lemma NothingToFill(cells: seq<Byte>, before: seq<Byte>, peekable: nat -> bool, address: nat, data: seq<Byte>)
    requires Mapped(|before|, peekable) && data != [] && Rest(|data|) == 0
    requires Written(cells, before, address, data, Whole(|data|))
    ensures address + |data| <= |before|
    ensures cells == Overlay(before, address, data + Filler(before, peekable, address, |data|))
  {
    assert data[..8 * Whole(|data|)] == data && data + Filler(before, peekable, address, |data|) == data;
  }

  /** Writes one word at a distance from `address` behind words that were let through. */
  method WriteWord(t: Tracee, address: nat, i: nat, word: seq<Byte>) returns (ok: bool)
    requires t.Valid() && address < TWO_64 && |word| == 8 && Leading(t.pokeable, address, i) == i
    modifies t
    ensures t.Valid() && |t.cells| == |old(t.cells)| && ok == t.pokeable(address + 8 * i)
    ensures ok ==> address + 8 * (i + 1) <= |t.cells| && t.cells == Overlay(old(t.cells), address + 8 * i, word)
    ensures !ok ==> t.cells == old(t.cells)
  {
    PointerAsked(t.pokeable, |t.cells|, address, i);
    hide Overlay, Pointer, Leading;
    ok := t.Poke(Pointer(address + 8 * i), word);
  }

  /** The bytes after the last whole word, read, overlaid and written back. */
  method WriteTail(t: Tracee, address: nat, data: seq<Byte>, ghost before: seq<Byte>) returns (ok: bool)
    requires t.Valid() && address < TWO_64 && Rest(|data|) > 0
    requires Leading(t.pokeable, address, Whole(|data|)) == Whole(|data|)
    requires Written(t.cells, before, address, data, Whole(|data|))
    modifies t
    ensures t.Valid() && ok == t.pokeable(address + 8 * Whole(|data|))
    ensures ok ==>
      && address + 8 * WordsFor(|data|) <= |before|
      && t.cells == Overlay(before, address, data + Filler(before, t.peekable, address, |data|))
    ensures !ok ==> t.cells == old(t.cells)
  {
    var words := Whole(|data|);
    ghost var a, cells := address + 8 * words, t.cells;
    LeadingFits(t.pokeable, |t.cells|, address, words);
    SameAnswerWrapped(t.peekable, |t.cells|, a);
    assert |cells| == |before|;
    hide *;
    var _, peeked := t.Peek(Pointer(address + 8 * words));
    assert peeked == if t.peekable(a) then WordAt(cells, a) else ALL_ONES;
    ok := WriteWord(t, address, words, LastWord(data, peeked));
    if ok { TailIsFilled(cells, before, t.peekable, address, data, a, peeked); }
  }

  /** The loop over whole words: how many were written before one was refused. */
  method WriteWords(t: Tracee, address: nat, data: seq<Byte>, words: nat) returns (i: nat)
    requires t.Valid() && address < TWO_64 && 8 * words <= |data|
    modifies t
    ensures t.Valid()
    ensures i == Leading(t.pokeable, address, words) && Written(t.cells, old(t.cells), address, data, i)
  {
    ghost var before := t.cells;
    assert Written(t.cells, before, address, data, 0) && |t.cells| == |before|;
    hide Overlay, Leading, Written;
    i := 0;
    while i < words
      invariant t.Valid() && |t.cells| == |before|
      invariant i <= words && Leading(t.pokeable, address, i) == i
      invariant Written(t.cells, before, address, data, i)
    {
      LeadingExtends(t.pokeable, address, words, i);
      ghost var cells := t.cells;
      assert 8 * i + 8 == 8 * (i + 1) <= |data|;
      var poked := WriteWord(t, address, i, WordAt(data, 8 * i));
      if !poked { return; }
      WrittenMore(cells, before, address, data, i);
      i := i + 1;
    }
  }

  /**
   `WriteMemory`.  The last word is read, overlaid with the remaining bytes and written back; whether that
   read worked is not looked at, so a refused one fills the word with the bytes of -1.
   */
  method WriteMemory(t: Tracee, attached: bool, address: nat, data: seq<Byte>) returns (ok: bool)
    requires t.Valid() && address < TWO_64
    modifies t
    ensures t.Valid()
    ensures ok <==> attached && WritesAll(t.pokeable, address, data)
    ensures t.cells ==
      if attached then WrittenCells(old(t.cells), t.peekable, t.pokeable, address, data) else old(t.cells)
  {
    if !attached || data == [] { return false; }
    var words, rest := Whole(|data|), Rest(|data|);
    ghost var before := t.cells;
    var i := WriteWords(t, address, data, words);
    LeadingPrefix(t.pokeable, address, WordsFor(|data|), words);
    hide Overlay, Leading, Filler, Whole, Rest;
    if i < words { return false; }
    if rest > 0 {
      LeadingExtends(t.pokeable, address, WordsFor(|data|), words);
      ok := WriteTail(t, address, data, before);
    } else {
      NothingToFill(t.cells, before, t.peekable, address, data);
      ok := true;
    }
  }

  // ---- What a write leaves behind ----

  lemma WrittenAll(cells: seq<Byte>, peekable: nat -> bool, pokeable: nat -> bool, address: nat, data: seq<Byte>)
    requires Mapped(|cells|, peekable) && Mapped(|cells|, pokeable) && WritesAll(pokeable, address, data)
    ensures var filler := Filler(cells, peekable, address, |data|);
      && address + |data| + |filler| <= |cells|
      && WrittenCells(cells, peekable, pokeable, address, data) == Overlay(cells, address, data + filler)
  {
    LeadingFits(pokeable, |cells|, address, WordsFor(|data|));
  }

  /** Byte by byte what a successful write leaves. */
  lemma WrittenAt(cells: seq<Byte>, peekable: nat -> bool, pokeable: nat -> bool, address: nat, data: seq<Byte>, x: nat)
    requires Mapped(|cells|, peekable) && Mapped(|cells|, pokeable) && WritesAll(pokeable, address, data)
    requires x < |cells|
    ensures var n := |data|; var w := address + 8 * Whole(n);
      WrittenCells(cells, peekable, pokeable, address, data)[x] ==
        if address <= x < address + n then data[x - address]
        else if Rest(n) > 0 && address + n <= x < w + 8 && !peekable(w) then 255
        else cells[x]
  {
    hide WrittenCells, WritesAll, Overlay, Filler, Leading, Whole, Rest, WordsFor;
    var n := |data|;
    var filler, w := Filler(cells, peekable, address, n), address + 8 * Whole(n);
    WrittenAll(cells, peekable, pokeable, address, data);
    OverlayAt(cells, address, data + filler, x);
    if Rest(n) > 0 {
      FillerIs(cells, peekable, address, n, w);
    }
  }

  /**
   After a successful write the range holds the data.  All other cells are as before exactly when the data
   fill whole words, or the last word could be read, or its remaining bytes were 0xFF already.
   */
  lemma WriteFrame(cells: seq<Byte>, peekable: nat -> bool, pokeable: nat -> bool, address: nat, data: seq<Byte>)
    requires Mapped(|cells|, peekable) && Mapped(|cells|, pokeable) && WritesAll(pokeable, address, data)
    ensures var after := WrittenCells(cells, peekable, pokeable, address, data);
      && |after| == |cells| && address + 8 * WordsFor(|data|) <= |cells|
      && after[address..address + |data|] == data
    ensures var n := |data|; var w := address + 8 * Whole(n);
      (forall x :: 0 <= x < |cells| && !(address <= x < address + n) ==>
        WrittenCells(cells, peekable, pokeable, address, data)[x] == cells[x])
      <==> (Rest(n) == 0 || peekable(w) || forall x :: address + n <= x < w + 8 ==> cells[x] == 255)
  {
    hide WrittenCells, WritesAll, Filler, Leading, WordsFor, Overlay, Whole, Rest;
    var n := |data|;
    var w := address + 8 * Whole(n);
    WrittenAll(cells, peekable, pokeable, address, data);
    var after := WrittenCells(cells, peekable, pokeable, address, data);
    forall x | 0 <= x < |cells|
      ensures after[x] == if address <= x < address + n then data[x - address]
        else if Rest(n) > 0 && address + n <= x < w + 8 && !peekable(w) then 255 else cells[x]
    {
      WrittenAt(cells, peekable, pokeable, address, data, x);
    }
    FrameIff(cells, after, data, address, w + 8, Rest(n) > 0 && !peekable(w));
  }

  /** With the bytes from the data to `end` overwritten by 0xFF, or not: when is the rest as before? */
  lemma FrameIff(cells: seq<Byte>, after: seq<Byte>, data: seq<Byte>, address: nat, end: nat, overwritten: bool)
    requires |after| == |cells| && address + |data| <= |cells| && (overwritten ==> end <= |cells|)
    requires forall x :: 0 <= x < |cells| ==>
      after[x] == if address <= x < address + |data| then data[x - address]
        else if overwritten && address + |data| <= x < end then 255 else cells[x]
    ensures after[address..address + |data|] == data
    ensures (forall x :: 0 <= x < |cells| && !(address <= x < address + |data|) ==> after[x] == cells[x])
      <==> (!overwritten || forall x :: address + |data| <= x < end ==> cells[x] == 255)
  {
    if overwritten && (forall x :: 0 <= x < |cells| && !(address <= x < address + |data|) ==> after[x] == cells[x]) {
      forall x | address + |data| <= x < end ensures cells[x] == 255 {
        assert after[x] == cells[x];
      }
    }
  }

  /** A failed write has written the whole words before the one that was refused, and nothing else. */
  lemma FailedWrite(cells: seq<Byte>, peekable: nat -> bool, pokeable: nat -> bool, address: nat, data: seq<Byte>)
    requires Mapped(|cells|, peekable) && Mapped(|cells|, pokeable)
    requires data != [] && !WritesAll(pokeable, address, data)
    ensures var after := WrittenCells(cells, peekable, pokeable, address, data);
      var m := Leading(pokeable, address, WordsFor(|data|));
      && |after| == |cells| && 8 * m < |data| && !pokeable(address + 8 * m)
      && forall x :: 0 <= x < |cells| ==>
        after[x] == if address <= x < address + 8 * m then data[x - address] else cells[x]
  {
    var m := Leading(pokeable, address, WordsFor(|data|));
    LeadingFits(pokeable, |cells|, address, WordsFor(|data|));
    if m > 0 {
      forall x | 0 <= x < |cells|
        ensures Overlay(cells, address, data[..8 * m])[x] ==
          if address <= x < address + 8 * m then data[x - address] else cells[x]
      {
        OverlayAt(cells, address, data[..8 * m], x);
      }
    }
  }

  /** What was written is what a successful read of the same range brings back. */
  lemma WrittenIsRead(cells: seq<Byte>, peekable: nat -> bool, pokeable: nat -> bool, address: nat, data: seq<Byte>,
                      before: seq<Byte>, buffer: seq<Byte>)
    requires Mapped(|cells|, peekable) && Mapped(|cells|, pokeable) && WritesAll(pokeable, address, data)
    requires Leading(peekable, address, WordsFor(|data|)) == WordsFor(|data|)
    requires Filled(buffer, before, WrittenCells(cells, peekable, pokeable, address, data), address,
                    Fetched(peekable, address, |data|))
    ensures |data| <= |buffer| && buffer[..|data|] == data
  {
    WriteFrame(cells, peekable, pokeable, address, data);
    hide WrittenCells, Leading;
  }

  /** The kernel refuses to show the last word of a write but takes it: the byte behind the data becomes 0xFF. */
  lemma RefusedPeekOverwrites()
    ensures var cells: seq<Byte> := seq(16, _ => 0); var peekable, pokeable := (a: nat) => false, (a: nat) => a == 8;
      && Mapped(|cells|, peekable) && Mapped(|cells|, pokeable) && WritesAll(pokeable, 8, [1])
      && WrittenCells(cells, peekable, pokeable, 8, [1])[9] == 255 && cells[9] == 0
  {
    var cells: seq<Byte> := seq(16, _ => 0);
    var peekable, pokeable := (a: nat) => false, (a: nat) => a == 8;
    assert WordsFor(1) == 1 && Leading(pokeable, 8, 1) == 1;
    WrittenAt(cells, peekable, pokeable, 8, [1], 9);
  }
}
