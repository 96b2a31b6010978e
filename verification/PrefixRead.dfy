/**
 The page-chunked read of engine/android/AndroidMemKernel.hpp and its contiguous-prefix contract
 (engine/common/IMemoryOp.hpp): one driver read per page, stop at the first byte that cannot be
 read, zero the rest of the buffer.
 */
module PrefixRead {
  import opened Basics
  import opened LittleEndian
  import Modular

  /** Target memory: a byte where the address can be read.  Nothing lies beyond 64 bits. */
  type Memory = nat -> Option<Byte>

  function At(mem: Memory, a: nat): Option<Byte> {
    if a < TWO_64 then mem(a) else None
  }

  /** How many bytes can be read in a row from `a` on, up to `n`. */
  function ReadablePrefix(mem: Memory, a: nat, n: nat): (r: nat)
    ensures r <= n
    ensures forall x :: a <= x < a + r ==> At(mem, x).Some?
    ensures r < n ==> At(mem, a + r).None?
    decreases n
  {
    if n == 0 || At(mem, a).None? then 0 else 1 + ReadablePrefix(mem, a + 1, n - 1)
  }

  /** It is the only length with that property: all readable before it, unreadable at it. */
  lemma PrefixIsLongest(mem: Memory, a: nat, n: nat, r: nat)
    requires r <= n && (forall x :: a <= x < a + r ==> At(mem, x).Some?)
    requires r < n ==> At(mem, a + r).None?
    ensures r == ReadablePrefix(mem, a, n)
  {
    var p := ReadablePrefix(mem, a, n);
    assert !(r < p);
    assert !(p < r);
  }

  /** Nothing can be read past the end of the address space. */
  lemma PrefixStaysInSpace(mem: Memory, a: nat, n: nat)
    requires a <= TWO_64
    ensures a + ReadablePrefix(mem, a, n) <= TWO_64
  {
    var r := ReadablePrefix(mem, a, n);
    if r > 0 { assert At(mem, a + r - 1).Some?; }
  }

  /** A prefix may be found piece by piece. */
  lemma PrefixSplits(mem: Memory, a: nat, n: nat, k: nat)
    requires k <= n
    ensures var r := ReadablePrefix(mem, a, k);
      ReadablePrefix(mem, a, n) == if r < k then r else k + ReadablePrefix(mem, a + k, n - k)
  {
    var r := ReadablePrefix(mem, a, k);
    if r < k {
      PrefixIsLongest(mem, a, n, r);
    } else {
      var q := ReadablePrefix(mem, a + k, n - k);
      PrefixIsLongest(mem, a, n, k + q);
    }
  }

  /** The `n` bytes of `s` from `off` on are the memory at `a`. */
  ghost predicate HoldsFrom(s: seq<Byte>, off: nat, n: nat, mem: Memory, a: nat)
    requires off + n <= |s|
  {
    forall i :: off <= i < off + n ==> At(mem, a + (i - off)) == Some(s[i])
  }

  lemma HoldsJoins(s: seq<Byte>, t: seq<Byte>, n: nat, k: nat, mem: Memory, a: nat)
    requires n + k <= |s| == |t| && t[..n] == s[..n]
    requires HoldsFrom(s, 0, n, mem, a) && HoldsFrom(t, n, k, mem, a + n)
    ensures HoldsFrom(t, 0, n + k, mem, a)
  {
    forall i | 0 <= i < n + k ensures At(mem, a + i) == Some(t[i]) {
      if i < n {
        assert t[i] == t[..n][i] == s[..n][i] == s[i];
        assert At(mem, a + (i - 0)) == Some(s[i]);
      } else {
        assert a + n + (i - n) == a + i;
      }
    }
  }

  lemma HoldsAfter(s: seq<Byte>, t: seq<Byte>, n: nat, mem: Memory, a: nat)
    requires n <= |s| == |t| && t[..n] == s[..n] && HoldsFrom(s, 0, n, mem, a)
    ensures HoldsFrom(t, 0, n, mem, a)
  {
    assert HoldsFrom(t, n, 0, mem, a + n);
    HoldsJoins(s, t, n, 0, mem, a);
  }

  lemma SuffixOfSuffix(s: seq<Byte>, t: seq<Byte>, k: nat, l: nat)
    requires k <= l <= |s| == |t| && s[k..] == t[k..]
    ensures s[l..] == t[l..]
  {
    assert s[l..] == s[k..][l - k..] && t[l..] == t[k..][l - k..];
  }

  ghost predicate ZeroFrom(s: seq<Byte>, from: nat) {
    forall i :: from <= i < |s| ==> s[i] == 0
  }

  /** The bytes `a` up to `a + n` lie in one page. */
  predicate WithinPage(a: nat, n: nat, pageSize: nat)
    requires 0 < pageSize
  {
    a % pageSize + n <= pageSize
  }

  /**
   The driver's read.  It is only ever asked for bytes of one page.  Nothing is said about the part of
   the chunk it could not fill.
   */
  class MemoryDriver {
    const mem: Memory
    const pageSize: nat

    constructor (mem: Memory, pageSize: nat)
      ensures this.mem == mem && this.pageSize == pageSize
    {
      this.mem := mem;
      this.pageSize := pageSize;
    }

    method ReadMemory(address: nat, buffer: array<Byte>, off: nat, n: nat) returns (bytesRead: int)
      requires 0 < pageSize && address < TWO_64
      requires 0 < n && off + n <= buffer.Length
      requires WithinPage(address, n, pageSize)
      modifies buffer
      ensures address == 0 ==> bytesRead <= 0
      ensures address != 0 ==>
        var r := ReadablePrefix(mem, address, n);
        && (if r == 0 then bytesRead <= 0 else bytesRead == r)
        && HoldsFrom(buffer[..], off, r, mem, address)
      ensures buffer[..][..off] == old(buffer[..])[..off] && buffer[..][off + n..] == old(buffer[..])[off + n..]
    {
      if address == 0 { return -22; }
      var k := 0;
      ghost var r := ReadablePrefix(mem, address, n);
      while k < n && At(mem, address + k).Some?
        invariant k <= r
        invariant HoldsFrom(buffer[..], off, k, mem, address)
        invariant forall i :: 0 <= i < buffer.Length && !(off <= i < off + n) ==> buffer[i] == old(buffer[i])
      {
        buffer[off + k] := At(mem, address + k).value;
        k := k + 1;
      }
      assert k == r;
      bytesRead := if k == 0 then -14 else k;
    }
  }

  /** `uintptr_t` arithmetic: the address after the last one is 0. */
  function Wrapped(a: nat): (w: nat)
    ensures w < TWO_64
    ensures a <= TWO_64 ==> w == if a < TWO_64 then a else 0
  {
    a % TWO_64
  }

  /** As much as is wanted and the page of `a` still holds. */
  function ChunkSize(a: nat, pageSize: nat, remaining: nat): (n: nat)
    requires 0 < pageSize && 0 < remaining
    ensures 0 < n <= remaining && WithinPage(a, n, pageSize)
    ensures n < remaining ==> (a + n) % pageSize == 0
  {
    var toBoundary := pageSize - a % pageSize;
    assert (a + toBoundary) % pageSize == 0 by {
      Modular.ModThenAdd(a, toBoundary, pageSize);
    }
    if remaining < toBoundary then remaining else toBoundary
  }

  /**
   One turn of the page loop: the bytes from `done` on that lie in the page of the next address.
   `more` says that the whole chunk arrived.
   */
  method ReadChunk(driver: MemoryDriver, address: nat, buffer: array<Byte>, done: nat, len: nat)
      returns (got: nat, more: bool)
    requires 0 < driver.pageSize && 0 < address && address + done <= TWO_64 && done < len <= buffer.Length
    requires HoldsFrom(buffer[..], 0, done, driver.mem, address)
    modifies buffer
    ensures address + done + got <= TWO_64 && done + got <= len && (more ==> 0 < got)
    ensures HoldsFrom(buffer[..], 0, done + got, driver.mem, address)
    ensures buffer[..][len..] == old(buffer[..])[len..]
    ensures ReadablePrefix(driver.mem, address + done, len - done)
      == got + if more then ReadablePrefix(driver.mem, address + done + got, len - done - got) else 0
  {
    hide HoldsFrom;
    ghost var before, start := buffer[..], address + done;
    var currentAddr := Wrapped(address + done);
    var chunk := ChunkSize(currentAddr, driver.pageSize, len - done);
    PrefixSplits(driver.mem, start, len - done, chunk);
    PrefixStaysInSpace(driver.mem, start, chunk);
    hide ReadablePrefix, At, ChunkSize, Wrapped, WithinPage;
    var bytesRead := driver.ReadMemory(currentAddr, buffer, done, chunk);
    SuffixOfSuffix(before, buffer[..], done + chunk, len);
    if bytesRead > 0 {
      got := bytesRead;
      more := got == chunk;
      assert currentAddr == start && got == ReadablePrefix(driver.mem, start, chunk);
      HoldsJoins(before, buffer[..], done, got, driver.mem, address);
    } else {
      got, more := 0, false;
      assert ReadablePrefix(driver.mem, start, chunk) == 0;
      HoldsAfter(before, buffer[..], done, driver.mem, address);
    }
  }

  /**
   `AndroidMemKernel::Read`.  With a process open and a non-zero address the contract holds: the
   result is the longest readable prefix, the buffer holds it, and the rest is zero.  Otherwise the
   result is 0 and the buffer is left as it was, so the promise of a zeroed rest fails exactly when
   the caller's buffer was not zero already.
   */
  method Read(driver: MemoryDriver, processHandle: nat, address: nat, buffer: array<Byte>, len: nat)
      returns (total: nat)
    requires 0 < driver.pageSize && address < TWO_64 && len <= buffer.Length
    modifies buffer
    ensures address != 0 && processHandle != 0 ==> total == ReadablePrefix(driver.mem, address, len)
    ensures address == 0 || processHandle == 0 ==> total == 0 && buffer[..] == old(buffer[..])
    ensures total <= len && HoldsFrom(buffer[..], 0, total, driver.mem, address)
    ensures buffer[..][len..] == old(buffer[..])[len..]
    ensures ZeroFrom(buffer[..len], total) <==>
      (address != 0 && processHandle != 0) || ZeroFrom(old(buffer[..len]), 0)
  {
    total := 0;
    if address == 0 || len == 0 { return; }
    if processHandle == 0 { return; }
    var reading := true;
    while reading && total < len
      invariant total <= len && address + total <= TWO_64
      invariant ReadablePrefix(driver.mem, address, len)
        == total + if reading then ReadablePrefix(driver.mem, address + total, len - total) else 0
      invariant HoldsFrom(buffer[..], 0, total, driver.mem, address)
      invariant buffer[..][len..] == old(buffer[..])[len..]
      decreases reading, len - total
    {
      hide HoldsFrom;
      var got, more := ReadChunk(driver, address, buffer, total, len);
      total, reading := total + got, more;
    }
    ClearRest(driver.mem, address, buffer, total, len);
  }

  /** The final `memset`. */
  method ClearRest(ghost mem: Memory, ghost address: nat, buffer: array<Byte>, total: nat, len: nat)
    requires total <= len <= buffer.Length && HoldsFrom(buffer[..], 0, total, mem, address)
    modifies buffer
    ensures HoldsFrom(buffer[..], 0, total, mem, address) && ZeroFrom(buffer[..len], total)
    ensures buffer[..][len..] == old(buffer[..])[len..]
  {
    forall i | total <= i < len { buffer[i] := 0; }
  }

  /** The promise fails for a null address: nothing is read, and what the buffer held stays. */
  method NullAddressKeepsTheBuffer() returns (buffer: array<Byte>, total: nat)
    ensures buffer.Length == 1 && total == 0 && !ZeroFrom(buffer[..1], total)
  {
    var driver := new MemoryDriver(_ => None, 4096);
    buffer := new Byte[1](_ => 7);
    total := Read(driver, 1, 0, buffer, 1);
    assert buffer[..][0] == 7;
  }
}
