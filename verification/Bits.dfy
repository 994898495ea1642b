/**
 Bitwise operations of the EVM on natural numbers, and the three identities that the
 contracts' masks and packed words rest on.
 */
module Bits {
  import opened Basics

  function Pow2(k: nat): (p: nat)
    ensures p > 0
  {
    if k == 0 then 1 else 2 * Pow2(k - 1)
  }

  function Or(a: nat, b: nat): nat {
    if a == 0 then b
    else if b == 0 then a
    else 2 * Or(a / 2, b / 2) + if a % 2 == 1 || b % 2 == 1 then 1 else 0
  }

  function And(a: nat, b: nat): nat {
    if a == 0 || b == 0 then 0
    else 2 * And(a / 2, b / 2) + if a % 2 == 1 && b % 2 == 1 then 1 else 0
  }

  /** `not` on words of `n` bytes. */
  function Not(a: nat, n: nat): nat
    requires a < Pow256(n)
  {
    Pow256(n) - 1 - a
  }

  lemma {:induction false} Pow2Monotone(j: nat, k: nat)
    requires j <= k
    ensures Pow2(j) <= Pow2(k)
  {
    if j == k {
    } else {
      Pow2Monotone(j, k - 1);
    }
  }

  lemma {:induction false} Pow256IsPow2(n: nat)
    ensures Pow256(n) == Pow2(8 * n)
  {
    if n == 0 {
    } else {
      Pow256IsPow2(n - 1);
      var k := 8 * (n - 1);
      assert Pow2(k + 2) == 2 * Pow2(k + 1);
      assert Pow2(k + 4) == 2 * Pow2(k + 3) && Pow2(k + 3) == 2 * Pow2(k + 2);
      assert Pow2(k + 6) == 2 * Pow2(k + 5) && Pow2(k + 5) == 2 * Pow2(k + 4);
      assert Pow2(k + 8) == 2 * Pow2(k + 7) && Pow2(k + 7) == 2 * Pow2(k + 6);
    }
  }

  /** Or-ing a low part with a shifted high part adds them. */
  lemma {:induction false} OrDisjoint(lo: nat, hi: nat, k: nat)
    requires lo < Pow2(k)
    ensures Or(lo, hi * Pow2(k)) == lo + hi * Pow2(k)
  {
    if k == 0 {
    } else {
      var shifted := hi * Pow2(k - 1);
      assert hi * Pow2(k) == 2 * shifted;
      OrDisjoint(lo / 2, hi, k - 1);
      if lo > 0 && shifted > 0 {
        assert (2 * shifted) / 2 == shifted && (2 * shifted) % 2 == 0;
      }
    }
  }

  lemma {:induction false} OrCommutes(a: nat, b: nat)
    ensures Or(a, b) == Or(b, a)
  {
    if a == 0 || b == 0 {
    } else {
      OrCommutes(a / 2, b / 2);
    }
  }

  lemma HalfMod(a: nat, p: nat)
    requires p > 0
    ensures a % (2 * p) == 2 * (a / 2 % p) + a % 2
  {
    var q, r := a / 2 / p, a / 2 % p;
    assert a / 2 == p * q + r;
    assert a == q * (2 * p) + (2 * r + a % 2);
    SplitNumber(q, 2 * r + a % 2, 2 * p);
  }

  /** And-ing with the mask of the low `k` bits is the remainder by 2^k. */
  lemma {:induction false} AndLowMask(a: nat, k: nat)
    ensures And(a, Pow2(k) - 1) == a % Pow2(k)
  {
    if k == 0 {
    } else {
      AndLowMask(a / 2, k - 1);
      HalfMod(a, Pow2(k - 1));
      var mask := Pow2(k) - 1;
      assert mask / 2 == Pow2(k - 1) - 1 && mask % 2 == 1;
    }
  }

  /** And-ing with the complement of that mask clears the low `k` bits. */
  lemma {:induction false} AndHighMask(a: nat, k: nat, n: nat)
    requires k <= n && a < Pow2(n)
    ensures Pow2(k) <= Pow2(n)
    ensures And(a, Pow2(n) - Pow2(k)) == a - a % Pow2(k)
  {
    Pow2Monotone(k, n);
    if k == 0 {
      AndLowMask(a, n);
      ModSmall(a, Pow2(n));
    } else {
      AndHighMask(a / 2, k - 1, n - 1);
      HalfMod(a, Pow2(k - 1));
      AndEven(a, Pow2(n - 1) - Pow2(k - 1));
    }
  }

  /** The two mask identities on words of `n` bytes, masking the low `k` bytes. */
  lemma ByteMasks(a: nat, k: nat, n: nat)
    requires k <= n && a < Pow256(n)
    ensures Pow256(k) <= Pow256(n)
    ensures And(a, Pow256(k) - 1) == a % Pow256(k)
    ensures And(a, Not(Pow256(k) - 1, n)) == a - a % Pow256(k)
  {
    Pow256IsPow2(k);
    Pow256IsPow2(n);
    AndLowMask(a, 8 * k);
    AndHighMask(a, 8 * k, 8 * n);
  }

  lemma AndEven(a: nat, half: nat)
    ensures And(a, 2 * half) == 2 * And(a / 2, half)
  {
    assert (2 * half) / 2 == half && (2 * half) % 2 == 0;
  }

  lemma ModSmall(a: nat, m: nat)
    requires a < m
    ensures a % m == a
  {}

  // ---------------------------------------------------------------- packed pointers

  lemma {:induction false} Pow2Add(j: nat, k: nat)
    ensures Pow2(j + k) == Pow2(j) * Pow2(k)
  {
    if j == 0 {
    } else {
      Pow2Add(j - 1, k);
      assert 2 * (Pow2(j - 1) * Pow2(k)) == (2 * Pow2(j - 1)) * Pow2(k);
    }
  }

  /** `a << k` on words of `bits` bits. */
  function Shl(a: nat, k: nat, bits: nat): nat { a * Pow2(k) % Pow2(bits) }

  /** Three numbers in one word: `a | b << w | c << 2 * w`. */
  function Pack3(a: nat, b: nat, c: nat, w: nat, bits: nat): nat {
    Or(Or(a, Shl(b, w, bits)), Shl(c, 2 * w, bits))
  }

  /** `uintW(word >> shift)`. */
  function Field(word: nat, shift: nat, w: nat): nat {
    word / Pow2(shift) % Pow2(w)
  }

  lemma MulLess(a: nat, p: nat, q: nat)
    requires a < p && q > 0
    ensures a * q < p * q
  {}

  lemma ShlExact(a: nat, w: nat, k: nat, bits: nat)
    requires a < Pow2(w) && w + k <= bits
    ensures Shl(a, k, bits) == a * Pow2(k)
  {
    Pow2Add(w, k);
    Pow2Monotone(w + k, bits);
    MulLess(a, Pow2(w), Pow2(k));
    ModSmall(a * Pow2(k), Pow2(bits));
  }

  lemma TwoDigits(a: nat, b: nat, p: nat)
    requires a < p && b < p
    ensures a + b * p < p * p
  {
    BelowProduct(b, p, p);
  }

  lemma BelowProduct(b: nat, p: nat, q: nat)
    requires b < p
    ensures (b + 1) * q <= p * q && (b + 1) * q == b * q + q
  {}

  lemma OrShl(lo: nat, hi: nat, w: nat, k: nat, bits: nat)
    requires lo < Pow2(k) && hi < Pow2(w) && w + k <= bits
    ensures Or(lo, Shl(hi, k, bits)) == lo + Shl(hi, k, bits)
  {
    ShlExact(hi, w, k, bits);
    OrDisjoint(lo, hi, k);
  }

  /** A packed word is the base-2^w number with digits `a`, `b`, `c`. */
  lemma Pack3IsSum(a: nat, b: nat, c: nat, w: nat, bits: nat)
    requires 3 * w <= bits && a < Pow2(w) && b < Pow2(w) && c < Pow2(w)
    ensures Pack3(a, b, c, w, bits) == (a + b * Pow2(w)) + c * Pow2(2 * w)
  {
    var low := a + Shl(b, w, bits);
    assert low == a + b * Pow2(w) && low < Pow2(2 * w) by {
      ShlExact(b, w, w, bits);
      LowFieldsFit(a, b, w);
    }
    OrShl(a, b, w, w, bits);
    OrShl(low, c, w, 2 * w, bits);
    ShlExact(c, w, 2 * w, bits);
  }

  lemma LowFieldsFit(a: nat, b: nat, w: nat)
    requires a < Pow2(w) && b < Pow2(w)
    ensures a + b * Pow2(w) < Pow2(2 * w) == Pow2(w) * Pow2(w)
  {
    hide Pow2;
    Pow2Add(w, w);
    TwoDigits(a, b, Pow2(w));
  }

  lemma Regroup(a: nat, b: nat, c: nat, p: nat)
    ensures (a + b * p) + c * (p * p) == (b + c * p) * p + a
  {
    assert c * (p * p) == (c * p) * p;
  }

  lemma ThreeDigits(a: nat, b: nat, c: nat, p: nat)
    requires a < p && b < p && c < p
    ensures p * p > 0
    ensures var word := (a + b * p) + c * (p * p);
            word % p == a && word / p % p == b && word / (p * p) % p == c
  {
    ThreeDigitsLow(a, b, c, p);
    ThreeDigitsHigh(a, b, c, p);
  }

  lemma ThreeDigitsLow(a: nat, b: nat, c: nat, p: nat)
    requires a < p && b < p && c < p
    ensures var word := (a + b * p) + c * (p * p);
            word % p == a && word / p % p == b
  {
    var upper := b + c * p;
    Regroup(a, b, c, p);
    SplitNumber(upper, a, p);
    SplitNumber(c, b, p);
  }

  lemma ThreeDigitsHigh(a: nat, b: nat, c: nat, p: nat)
    requires a < p && b < p && c < p
    ensures p * p > 0
    ensures ((a + b * p) + c * (p * p)) / (p * p) % p == c
  {
    TwoDigits(a, b, p);
    SplitNumber(c, a + b * p, p * p);
    ModSmall(c, p);
  }

  /** Packing loses nothing: each field of the word is the number packed there. */
  lemma Pack3Fields(a: nat, b: nat, c: nat, w: nat, bits: nat)
    requires 3 * w <= bits && a < Pow2(w) && b < Pow2(w) && c < Pow2(w)
    ensures Field(Pack3(a, b, c, w, bits), 0, w) == a
    ensures Field(Pack3(a, b, c, w, bits), w, w) == b
    ensures Field(Pack3(a, b, c, w, bits), 2 * w, w) == c
  {
    Pack3IsSum(a, b, c, w, bits);
    LowFieldsFit(a, b, w);
    ThreeDigits(a, b, c, Pow2(w));
    assert Pack3(a, b, c, w, bits) / Pow2(0) == Pack3(a, b, c, w, bits);
  }

  lemma PowersOfTwo()
    ensures Pow2(80) == 65536 * TWO_64 && Pow2(64) == TWO_64 && Pow2(160) == Pow2(80) * Pow2(80)
  {
    SmallPowers();
    DoubledPower(80, 160);
  }

  lemma SmallPowers()
    ensures Pow2(80) == 65536 * TWO_64 && Pow2(64) == TWO_64
  {
    hide Pow2;
    Pow256IsPow2(10);
    Pow256IsPow2(8);
    assert Pow256(10) == 65536 * TWO_64 && Pow256(8) == TWO_64;
  }

  lemma DoubledPower(j: nat, k: nat)
    requires k == j + j
    ensures Pow2(k) == Pow2(j) * Pow2(j)
  {
    Pow2Add(j, j);
  }
}
