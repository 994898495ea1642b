/** Results of contract calls, byte strings, and big-endian numbers. */
module Basics {

  /** A call returns a value or reverts; a revert leaves every piece of state as it was. */
  datatype Result<+T> = Ok(value: T) | Revert {
    predicate IsFailure() { Revert? }
    function PropagateFailure<U>(): Result<U>
      requires Revert?
    {
      Revert
    }
    function Extract(): T
      requires Ok?
    {
      value
    }
  }

  /** The outcome of a `require`: `:- Require(c);` reverts unless `c` holds. */
  datatype Outcome = Pass | Fail {
    predicate IsFailure() { Fail? }
    function PropagateFailure<U>(): Result<U>
      requires Fail?
    {
      Revert
    }
  }

  function Require(condition: bool): Outcome {
    if condition then Pass else Fail
  }

  datatype Option<+T> = None | Some(value: T)

  type byte = b: int | 0 <= b < 256
  type bytes = seq<byte>
  type Bytes32 = b: bytes | |b| == 32 witness seq(32, _ => 0)

  const TWO_64: int := 0x1_0000_0000_0000_0000
  const TWO_63: int := 0x8000_0000_0000_0000

  /** The bytes of an ASCII string. */
  function Ascii(s: string): (r: bytes)
    requires forall i {:trigger s[i]} :: 0 <= i < |s| ==> s[i] < 128 as char
    ensures |r| == |s|
  {
    seq(|s|, i requires 0 <= i < |s| => s[i] as int)
  }

  function Min(a: int, b: int): int { if a <= b then a else b }

  /** `self[ix]` with its bounds check. */
  function ByteAt(self: bytes, ix: nat): Result<byte> {
    if ix < |self| then Ok(self[ix]) else Revert
  }

  /** `t` stands in `s` at position `i`. */
  ghost predicate At(s: bytes, i: nat, t: bytes) {
    i + |t| <= |s| && s[i..i + |t|] == t
  }

  lemma AtSplit(s: bytes, i: nat, a: bytes, b: bytes)
    ensures At(s, i, a + b) <==> At(s, i, a) && At(s, i + |a|, b)
  {
    var n, m := |a|, |b|;
    if At(s, i, a + b) {
      assert s[i..i + n] == s[i..i + n + m][..n] == (a + b)[..n] == a;
      assert s[i + n..i + n + m] == s[i..i + n + m][n..] == (a + b)[n..] == b;
    }
  }

  lemma SliceOfSlice(s: bytes, a: nat, n: nat, i: nat, k: nat)
    requires a + n <= |s| && i + k <= n
    ensures s[a..a + n][i..i + k] == s[a + i..a + i + k]
  {
    var l, r := s[a..a + n][i..i + k], s[a + i..a + i + k];
    assert forall j :: 0 <= j < k ==> l[j] == s[a + (i + j)] && r[j] == s[a + (i + j)];
  }

  lemma AtSub(s: bytes, i: nat, t: bytes, off: nat, len: nat)
    requires At(s, i, t) && off + len <= |t|
    ensures At(s, i + off, t[off..off + len])
  {
    var a, b, c := t[..off], t[off..off + len], t[off + len..];
    assert t == a + (b + c);
    AtSplit(s, i, a, b + c);
    AtSplit(s, i + off, b, c);
  }

  /** What stands below `n` stays when everything below `n` stays. */
  lemma AtKept(s: bytes, s': bytes, n: nat, i: nat, t: bytes)
    requires At(s, i, t) && i + |t| <= n <= |s| && n <= |s'| && s[..n] == s'[..n]
    ensures At(s', i, t)
  {
    assert s[i..i + |t|] == s[..n][i..i + |t|];
    assert s'[i..i + |t|] == s'[..n][i..i + |t|];
  }

  lemma AtByte(s: bytes, i: nat, t: bytes, k: nat)
    requires At(s, i, t) && k < |t|
    ensures s[i + k] == t[k]
  {
    assert s[i..i + |t|][k] == s[i + k];
  }

  // ---------------------------------------------------------------- big-endian numbers

  function Pow256(n: nat): (p: nat)
    ensures p > 0
  {
    if n == 0 then 1 else 256 * Pow256(n - 1)
  }

  lemma {:induction false} Pow256Add(m: nat, n: nat)
    ensures Pow256(m + n) == Pow256(m) * Pow256(n)
  {
    if m == 0 {
    } else {
      Pow256Add(m - 1, n);
      assert 256 * (Pow256(m - 1) * Pow256(n)) == (256 * Pow256(m - 1)) * Pow256(n);
    }
  }

  lemma {:induction false} Pow256Monotone(m: nat, n: nat)
    requires m <= n
    ensures Pow256(m) <= Pow256(n)
  {
    if m == n {
    } else {
      Pow256Monotone(m, n - 1);
    }
  }

  /** The value of a big-endian byte string. */
  function FromBE(s: bytes): (v: nat)
    ensures v < Pow256(|s|)
  {
    if |s| == 0 then 0 else FromBE(s[..|s| - 1]) * 256 + s[|s| - 1]
  }

  /** The low `n` bytes of `v`, most significant first. */
  function ToBE(v: nat, n: nat): (s: bytes)
    ensures |s| == n
  {
    if n == 0 then [] else ToBE(v / 256, n - 1) + [v % 256]
  }

  lemma {:induction false} FromToBE(v: nat, n: nat)
    requires v < Pow256(n)
    ensures FromBE(ToBE(v, n)) == v
  {
    if n == 0 {
    } else {
      FromToBE(v / 256, n - 1);
      assert ToBE(v, n)[..n - 1] == ToBE(v / 256, n - 1);
    }
  }

  lemma {:induction false} ToFromBE(s: bytes)
    ensures ToBE(FromBE(s), |s|) == s
  {
    if |s| == 0 {
    } else {
      ToFromBE(s[..|s| - 1]);
    }
  }

  lemma NoOctets()
    ensures FromBE([]) == 0 && Pow256(0) == 1
  {}

  lemma {:induction false} FromBEConcat(a: bytes, b: bytes)
    ensures FromBE(a + b) == FromBE(a) * Pow256(|b|) + FromBE(b)
  {
    hide FromBE, Pow256;
    if |b| == 0 {
      assert a + b == a && b == [];
      NoOctets();
    } else {
      var b' := b[..|b| - 1];
      FromBEConcat(a, b');
      LastOctet(a + b);
      LastOctet(b);
      assert (a + b)[..|a + b| - 1] == a + b';
      ShiftedSum(FromBE(a), Pow256(|b'|), FromBE(b'), b[|b| - 1]);
    }
  }

  lemma LastOctet(s: bytes)
    requires |s| > 0
    ensures FromBE(s) == FromBE(s[..|s| - 1]) * 256 + s[|s| - 1] && Pow256(|s|) == 256 * Pow256(|s| - 1)
  {}

  lemma ShiftedSum(x: nat, p: nat, y: nat, z: nat)
    ensures (x * p + y) * 256 + z == x * (256 * p) + (y * 256 + z)
  {
    assert (x * p) * 256 == x * (256 * p);
  }

  lemma {:induction false} FromBEInjective(a: bytes, b: bytes)
    requires |a| == |b| && FromBE(a) == FromBE(b)
    ensures a == b
  {
    ToFromBE(a);
    ToFromBE(b);
  }

  lemma FromBEOne(s: bytes)
    requires |s| == 1
    ensures FromBE(s) == s[0]
  {
    assert FromBE(s[..0]) == 0;
  }

  /** Quotient and remainder recover the two halves of a split number. */
  lemma SplitNumber(hi: nat, lo: nat, base: nat)
    requires lo < base
    ensures (hi * base + lo) / base == hi
    ensures (hi * base + lo) % base == lo
  {
    var n := hi * base + lo;
    assert n == base * (n / base) + n % base;
    var d := n / base - hi;
    assert base * d == lo - n % base;
    assert d >= 1 ==> base * d >= base;
    assert d <= -1 ==> base * d + base <= 0;
  }
}
