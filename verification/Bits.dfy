/** Bitwise arithmetic on natural numbers, defined bit by bit. The library masks tickets
    (src/spmc.c), rounds addresses (src/pool.c) and keeps a bitmap (src/include/a3/cache.h)
    with these operators; the lemmas give their arithmetic meaning. */
module Bits {
  function Pow2(k: nat): (r: nat)
    ensures r > 0
  {
    if k == 0 then 1 else 2 * Pow2(k - 1)
  }

  function And(a: nat, b: nat): nat {
    if a == 0 || b == 0 then 0
    else (if a % 2 == 1 && b % 2 == 1 then 1 else 0) + 2 * And(a / 2, b / 2)
  }

  function Or(a: nat, b: nat): nat {
    if a == 0 then b
    else if b == 0 then a
    else (if a % 2 == 1 || b % 2 == 1 then 1 else 0) + 2 * Or(a / 2, b / 2)
  }

  /** Bit k of w. */
  predicate Bit(w: nat, k: nat) {
    if k == 0 then w % 2 == 1 else Bit(w / 2, k - 1)
  }

  /** Splitting off the low bit of a remainder by a power of two. */
  lemma ModPow2Step(t: nat, k: nat)
    requires k > 0
    ensures t % Pow2(k) == t % 2 + 2 * (t / 2 % Pow2(k - 1))
  {
    var m := Pow2(k - 1);
    var q, r := t / 2 / m, t / 2 % m;
    assert t == 2 * (q * m + r) + t % 2;
    assert t == q * (2 * m) + (2 * r + t % 2) by {
      assert 2 * (q * m) == q * (2 * m);
    }
    ModUnique(t, 2 * m, q, 2 * r + t % 2);
  }

  lemma ModUnique(x: int, m: int, q: int, r: int)
    requires m > 0 && 0 <= r < m && x == q * m + r
    ensures x % m == r && x / m == q
  {
    var d := x / m - q;
    assert d * m == (x / m) * m - q * m;
    SmallMultiple(d, m);
  }

  lemma SmallMultiple(d: int, m: int)
    requires -m < d * m < m
    ensures d == 0
  {
  }

  /** Masking with 2^k - 1 is the remainder by 2^k. */
  lemma {:induction false} MaskIsMod(t: nat, k: nat)
    ensures And(t, Pow2(k) - 1) == t % Pow2(k)
  {
    if k == 0 {
    } else {
      MaskIsMod(t / 2, k - 1);
      ModPow2Step(t, k);
      assert (Pow2(k) - 1) / 2 == Pow2(k - 1) - 1;
    }
  }

  lemma {:induction false} AndBound(a: nat, b: nat)
    ensures And(a, b) <= b
  {
    if a == 0 || b == 0 {
    } else {
      AndBound(a / 2, b / 2);
    }
  }

  /** Masking with the complement of 2^k - 1 in a word of n bits clears the low k bits. */
  lemma {:induction false} ClearLow(v: nat, n: nat, k: nat)
    requires v < Pow2(n) && k <= n
    ensures Pow2(n) >= Pow2(k)
    ensures And(v, Pow2(n) - Pow2(k)) == v - v % Pow2(k)
  {
    Pow2Monotone(k, n);
    if k == 0 {
      MaskIsMod(v, n);
      ModUnique(v, Pow2(n), 0, v);
    } else {
      ClearLow(v / 2, n - 1, k - 1);
      AndDouble(v, Pow2(n - 1) - Pow2(k - 1));
      var low := v / 2 % Pow2(k - 1);
      assert v % Pow2(k) == v % 2 + 2 * low by {
        ModPow2Step(v, k);
      }
      assert v == v % 2 + 2 * (v / 2);
    }
  }

  lemma AndDouble(v: nat, m: nat)
    ensures And(v, 2 * m) == 2 * And(v / 2, m)
  {
  }

  lemma Pow2Monotone(j: nat, k: nat)
    requires j <= k
    ensures Pow2(j) <= Pow2(k)
  {
    if j == k {
    } else {
      Pow2Monotone(j, k - 1);
    }
  }

  lemma {:induction false} Pow2Add(j: nat, k: nat)
    ensures Pow2(j + k) == Pow2(j) * Pow2(k)
  {
    if j == 0 {
    } else {
      Pow2Add(j - 1, k);
    }
  }

  const WORD_BITS: nat := 64
  const WORD: nat := 0x1_0000_0000_0000_0000  // one more than the largest size_t

  lemma WordIsPow2()
    ensures WORD == Pow2(WORD_BITS)
  {
    assert Pow2(1) == 2 && Pow2(2) == 4;
    Pow2Add(2, 2);
    Pow2Add(4, 4);
    Pow2Add(8, 8);
    Pow2Add(16, 16);
    Pow2Add(32, 32);
  }

  lemma {:induction false} OrBit(a: nat, b: nat, k: nat)
    ensures Bit(Or(a, b), k) <==> Bit(a, k) || Bit(b, k)
  {
    if a == 0 {
      ZeroBit(k);
    } else if b == 0 {
      ZeroBit(k);
    } else if k == 0 {
    } else {
      OrBit(a / 2, b / 2, k - 1);
    }
  }

  lemma ZeroBit(k: nat)
    ensures !Bit(0, k)
  {
  }

  /** A power of two is the word with one bit. */
  lemma {:induction false} Pow2Bit(j: nat, k: nat)
    ensures Bit(Pow2(j), k) <==> j == k
  {
    if k == 0 {
    } else if j == 0 {
      ZeroBit(k - 1);
    } else {
      Pow2Bit(j - 1, k - 1);
    }
  }

  /** Masking a word with a single bit tests that bit. */
  lemma {:induction false} TestBit(w: nat, k: nat)
    ensures And(w, Pow2(k)) != 0 <==> Bit(w, k)
  {
    if w == 0 {
      ZeroBit(k);
    } else if k == 0 {
    } else {
      TestBit(w / 2, k - 1);
    }
  }

  lemma {:induction false} OrBound(a: nat, b: nat, n: nat)
    requires a < Pow2(n) && b < Pow2(n)
    ensures Or(a, b) < Pow2(n)
  {
    if a == 0 || b == 0 {
    } else {
      OrBound(a / 2, b / 2, n - 1);
    }
  }

  lemma {:induction false} OnesBit(n: nat, k: nat)
    requires k < n
    ensures Bit(Pow2(n) - 1, k)
  {
    if k == 0 {
    } else {
      assert (Pow2(n) - 1) / 2 == Pow2(n - 1) - 1;
      OnesBit(n - 1, k - 1);
    }
  }

  lemma {:induction false} MissingBit(w: nat, n: nat) returns (k: nat)
    requires w < Pow2(n) - 1
    ensures k < n && !Bit(w, k)
  {
    if w % 2 == 0 {
      k := 0;
    } else {
      k := MissingBit(w / 2, n - 1);
      k := k + 1;
    }
  }
}
