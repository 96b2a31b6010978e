/** Small vocabulary shared by every module: optional values and machine-word limits. */
module Basics {
  datatype Option<+T> = None | Some(value: T)

  const U64_MAX: nat := 0xFFFF_FFFF_FFFF_FFFF
  const TWO_32: nat := 0x1_0000_0000
  const TWO_64: nat := 0x1_0000_0000_0000_0000
}

/** Bytes and the little-endian words made of them. */
module LittleEndian {
  type Byte = b: int | 0 <= b < 256

  function Pow256(k: nat): (r: nat)
    ensures r > 0
  {
    if k == 0 then 1 else 256 * Pow256(k - 1)
  }

  function Word(s: seq<Byte>): (w: nat)
    ensures w < Pow256(|s|)
  {
    if s == [] then 0 else s[0] + 256 * Word(s[1..])
  }

  function WordBytes(w: nat, k: nat): (s: seq<Byte>)
    ensures |s| == k
  {
    if k == 0 then [] else [w % 256] + WordBytes(w / 256, k - 1)
  }

  lemma {:induction false} WordOfWordBytes(w: nat, k: nat)
    requires w < Pow256(k)
    ensures Word(WordBytes(w, k)) == w
  {
    if k > 0 {
      WordOfWordBytes(w / 256, k - 1);
      assert WordBytes(w, k)[1..] == WordBytes(w / 256, k - 1);
    }
  }
}

/** Remainders of non-negative numbers, for circular buffers and pages of any size. */
module Modular {
  lemma WrapOnce(x: nat, size: nat)
    requires 0 < size && x < 2 * size
    ensures x % size == if x < size then x else x - size
  {
    if x >= size { assert x == size + (x - size); }
  }

  lemma {:induction false} ProductMonotone(a: nat, b: nat, n: nat)
    requires a <= b
    ensures a * n <= b * n
    decreases b - a
  {
    if a < b {
      ProductMonotone(a + 1, b, n);
      assert (a + 1) * n == a * n + n;
    }
  }

  /** Quotient and remainder are determined by the number they compose. */
  lemma RemainderUnique(n: nat, q1: nat, r1: nat, q2: nat, r2: nat)
    requires r1 < n && r2 < n
    requires q1 * n + r1 == q2 * n + r2
    ensures r1 == r2
  {
    assert (q1 + 1) * n == q1 * n + n && (q2 + 1) * n == q2 * n + n;
    if q1 < q2 {
      ProductMonotone(q1 + 1, q2, n);
    } else if q2 < q1 {
      ProductMonotone(q2 + 1, q1, n);
    }
  }

  lemma ModPlusDivisor(a: nat, n: nat)
    requires n > 0
    ensures (a + n) % n == a % n
  {
    var q, r := a / n, a % n;
    var q', r' := (a + n) / n, (a + n) % n;
    assert a == q * n + r && a + n == q' * n + r';
    assert (q + 1) * n == q * n + n;
    RemainderUnique(n, q + 1, r, q', r');
  }

  lemma {:induction false} ModPlusMultiple(a: nat, k: nat, n: nat)
    requires n > 0
    ensures (a + k * n) % n == a % n
  {
    if k > 0 {
      ModPlusMultiple(a, k - 1, n);
      ModPlusDivisor(a + (k - 1) * n, n);
      assert a + (k - 1) * n + n == a + k * n;
    }
  }

  /** Reducing a position before stepping on from it does not change where one lands. */
  lemma ModThenAdd(x: nat, i: nat, n: nat)
    requires n > 0
    ensures (x % n + i) % n == (x + i) % n
  {
    assert x + i == x % n + i + (x / n) * n;
    ModPlusMultiple(x % n + i, x / n, n);
  }

  /** Fewer than `n` apart, two different numbers have different remainders. */
  lemma NearbyRemaindersDiffer(p: nat, q: nat, n: nat)
    requires p < q < p + n
    ensures p % n != q % n
  {
    var a, b := p / n, q / n;
    assert p == a * n + p % n && q == b * n + q % n;
    if p % n == q % n {
      assert b * n - a * n == q - p && (a + 1) * n == a * n + n;
      if b <= a {
        ProductMonotone(b, a, n);
      } else {
        ProductMonotone(a + 1, b, n);
      }
    }
  }
}
