/**
 What the specification of SHA-384 and SHA-512 amounts to, in numbers: sections 5.1.2, 5.2.2, 6.4.2 and 6.5 of FIPS
 180-4, with additions of numbers modulo 2^64 and bytes as they are written.
 */
module Sha2Standard {
  import opened Basics
  import opened Sha2Functions
  import opened Sha2Constants
  import opened Sha2Ext

  // ---------------------------------------------------------------- sums of several words

  lemma SumOfThree(x: bv64, y: bv64, z: bv64)
    ensures Number(Add(Add(x, y), z)) == (Number(x) + Number(y) + Number(z)) % TWO_64
  {
    hide Add, Number;
    AddIsModular(Add(x, y), z);
    AddIsModular(x, y);
    ModOfSum(Number(x) + Number(y), Number(z));
  }

  lemma ModOfSum(a: nat, b: nat)
    ensures (a % TWO_64 + b) % TWO_64 == (a + b) % TWO_64
  {}

  lemma SumOfFour(x: bv64, y: bv64, z: bv64, u: bv64)
    ensures Number(Add(Add(Add(x, y), z), u)) == (Number(x) + Number(y) + Number(z) + Number(u)) % TWO_64
  {
    hide Add, Number;
    AddIsModular(Add(Add(x, y), z), u);
    SumOfThree(x, y, z);
    ModOfSum(Number(x) + Number(y) + Number(z), Number(u));
  }

  lemma SumOfFive(x: bv64, y: bv64, z: bv64, u: bv64, v: bv64)
    ensures Number(Add(Add(Add(Add(x, y), z), u), v))
         == (Number(x) + Number(y) + Number(z) + Number(u) + Number(v)) % TWO_64
  {
    hide Add, Number;
    AddIsModular(Add(Add(Add(x, y), z), u), v);
    SumOfFour(x, y, z, u);
    ModOfSum(Number(x) + Number(y) + Number(z) + Number(u), Number(v));
  }

  // ---------------------------------------------------------------- one block

  /** One further word of the schedule is a sum of four. */
  ghost predicate ExtendedAt(w: Words, t: nat)
    requires 16 <= t < |w|
  {
    Number(w[t])
    == (Number(Gamma1(w[t - 2])) + Number(w[t - 7]) + Number(Gamma0(w[t - 15])) + Number(w[t - 16])) % TWO_64
  }

  /** Step 1: the first sixteen words are the block's, and all others follow from the ones before. */
  ghost predicate IsSchedule(w: Words, block: Words) {
    |w| == 80 && |block| == 16 && w[..16] == block && forall t: nat | 16 <= t < 80 :: ExtendedAt(w, t)
  }

  lemma {:induction false} SchedulePrefix(block: Words, n: nat, m: nat)
    requires |block| == 16 && m <= n <= 80
    ensures Schedule(block, n)[..m] == Schedule(block, m)
    decreases n
  {
    hide NextWord;
    if m < n {
      if n > 16 {
        var before := Schedule(block, n - 1);
        SchedulePrefix(block, n - 1, m);
        assert Schedule(block, n)[..m] == before[..m];
      }
    }
  }

  lemma NextWordNumber(w: Words, t: nat)
    requires 16 <= t <= |w|
    ensures Number(NextWord(w, t))
         == (Number(Gamma1(w[t - 2])) + Number(w[t - 7]) + Number(Gamma0(w[t - 15])) + Number(w[t - 16])) % TWO_64
  {
    hide Number, Gamma0, Gamma1, Add;
    SumOfFour(Gamma1(w[t - 2]), w[t - 7], Gamma0(w[t - 15]), w[t - 16]);
  }

  lemma {:induction false} ScheduleExtends(block: Words, t: nat)
    requires |block| == 16 && 16 <= t < 80
    ensures ExtendedAt(Schedule(block, 80), t)
  {
    hide Number, Gamma0, Gamma1, NextWord;
    var w, before := Schedule(block, 80), Schedule(block, t);
    SchedulePrefix(block, 80, t);
    SchedulePrefix(block, 80, t + 1);
    assert w[t] == w[..t + 1][t] == NextWord(before, t);
    NextWordNumber(before, t);
    assert forall i :: 0 <= i < t ==> before[i] == w[..t][i] == w[i];
  }

  lemma {:induction false} BlockSchedule(block: Words)
    requires |block| == 16
    ensures IsSchedule(Schedule(block, 80), block)
  {
    hide Schedule, ExtendedAt;
    var w := Schedule(block, 80);
    SchedulePrefix(block, 80, 16);
    FirstWords(block);
    assert w[..16] == block;
    forall t: nat | 16 <= t < 80 ensures ExtendedAt(w, t) { ScheduleExtends(block, t); }
  }

  lemma FirstWords(block: Words)
    requires |block| == 16
    ensures Schedule(block, 16) == block
  {}

  /** Step 3: the working variables a to h before and after one round, with T1 and T2. */
  ghost predicate IsRound(v: Words, k: bv64, w: bv64, v': Words) {
    && |v| == |v'| == 8
    && var (a, b, c, d, e, f, g, h) := (v[0], v[1], v[2], v[3], v[4], v[5], v[6], v[7]);
       var t1 := Number(h) + Number(Sigma1(e)) + Number(Ch(e, f, g)) + Number(k) + Number(w);
       var t2 := Number(Sigma0(a)) + Number(Maj(a, b, c));
       && v'[7] == g && v'[6] == f && v'[5] == e && Number(v'[4]) == (Number(d) + t1) % TWO_64
       && v'[3] == c && v'[2] == b && v'[1] == a && Number(v'[0]) == (t1 + t2) % TWO_64
  }

  /** The two sums of a round, with `x` for Sigma1(e), `y` for Ch, `s` for Sigma0(a) and `m` for Maj. */
  lemma RoundSums(h: bv64, x: bv64, y: bv64, k: bv64, w: bv64, s: bv64, m: bv64, d: bv64)
    ensures var t1, t2 := Add(Add(Add(Add(h, x), y), k), w), Add(s, m);
      var n1, n2 := Number(h) + Number(x) + Number(y) + Number(k) + Number(w), Number(s) + Number(m);
      Number(Add(d, t1)) == (Number(d) + n1) % TWO_64 && Number(Add(t1, t2)) == (n1 + n2) % TWO_64
  {
    hide Number, Add;
    SumOfFive(h, x, y, k, w);
    AddIsModular(s, m);
    RestNumber(d);
    var t1, n1 := Add(Add(Add(Add(h, x), y), k), w), Number(h) + Number(x) + Number(y) + Number(k) + Number(w);
    SumOfRests(d, t1, Number(d), n1);
    SumOfRests(t1, Add(s, m), n1, Number(s) + Number(m));
  }

  lemma RestNumber(x: bv64)
    ensures Number(x) == Number(x) % TWO_64
  {
    hide Number;
    NumberBound(x);
  }

  /** The sum of two words that are known modulo 2^64. */
  lemma SumOfRests(x: bv64, y: bv64, a: nat, b: nat)
    requires Number(x) == a % TWO_64 && Number(y) == b % TWO_64
    ensures Number(Add(x, y)) == (a + b) % TWO_64
  {
    hide Number, Add;
    AddIsModular(x, y);
    ModOfSum(a, b % TWO_64);
    ModOfSum(b, a);
  }

  lemma RoundSteps(v: Words, k: bv64, w: bv64)
    requires |v| == 8
    ensures IsRound(v, k, w, Round(v, k, w))
  {
    hide Number, Add, Sigma0, Sigma1, Ch, Maj;
    RoundSums(v[7], Sigma1(v[4]), Ch(v[4], v[5], v[6]), k, w, Sigma0(v[0]), Maj(v[0], v[1], v[2]), v[3]);
  }

  /** Steps 2 and 3: the working variables from the hash value on, round by round. */
  ghost predicate AreRounds(vs: seq<Words>, h: Words, k: Words, w: Words) {
    |vs| == 81 && |k| == |w| == 80 && vs[0] == h && forall t: nat | t < 80 :: IsRound(vs[t], k[t], w[t], vs[t + 1])
  }

  /**
   Section 6.4.2: the compression is a message schedule, eighty rounds of the working variables, and the sums of these
   with the hash value.
   */
  lemma {:induction false} CompressionSteps(h: Words, k: Words, block: Words) returns (w: Words, vs: seq<Words>)
    requires |h| == 8 && |k| == 80 && |block| == 16
    ensures IsSchedule(w, block) && AreRounds(vs, h, k, w) && |vs[80]| == 8
    ensures forall j {:trigger h[j]} :: 0 <= j < 8 ==>
      Number(Compress(h, k, block)[j]) == (Number(h[j]) + Number(vs[80][j])) % TWO_64
  {
    hide Number, Rounds, Schedule, IsSchedule, AddWords, AreRounds, Add;
    w := Schedule(block, 80);
    BlockSchedule(block);
    vs := RoundChain(h, k, w);
    forall j {:trigger h[j]} | 0 <= j < 8
      ensures Number(Compress(h, k, block)[j]) == (Number(h[j]) + Number(vs[80][j])) % TWO_64
    {
      FinalSum(h, vs[80], j);
    }
  }

  lemma {:induction false} RoundChain(h: Words, k: Words, w: Words) returns (vs: seq<Words>)
    requires |h| == 8 && |k| == |w| == 80
    ensures AreRounds(vs, h, k, w) && |vs| == 81 && vs[80] == Rounds(h, k, w, 80)
  {
    hide Rounds, IsRound;
    vs := seq(81, t requires 0 <= t < 81 => Rounds(h, k, w, t));
    NoRounds(h, k, w);
    forall t: nat | t < 80 ensures IsRound(vs[t], k[t], w[t], vs[t + 1]) {
      NextRound(h, k, w, t);
    }
  }

  lemma NoRounds(h: Words, k: Words, w: Words)
    requires |h| == 8
    ensures Rounds(h, k, w, 0) == h
  {}

  lemma {:induction false} NextRound(h: Words, k: Words, w: Words, t: nat)
    requires |h| == 8 && t < |k| && t < |w|
    ensures IsRound(Rounds(h, k, w, t), k[t], w[t], Rounds(h, k, w, t + 1))
  {
    hide Round, IsRound;
    RoundSteps(Rounds(h, k, w, t), k[t], w[t]);
  }

  lemma FinalSum(h: Words, v: Words, j: nat)
    requires |h| == |v| == 8 && j < 8
    ensures Number(AddWords(h, v, 8)[j]) == (Number(h[j]) + Number(v[j])) % TWO_64
  {
    hide Number, Add, AddWords;
    SumWords(h, v, 8, j);
    AddIsModular(h[j], v[j]);
  }

  lemma {:induction false} SumWords(a: Words, b: Words, n: nat, j: nat)
    requires |a| == |b| && n <= |a| && j < |a|
    ensures AddWords(a, b, n)[j] == if j < n then Add(a[j], b[j]) else a[j]
  {
    hide Add;
    if n > 0 { SumWords(a, b, n - 1, j); }
    if 0 < n && j == n - 1 { SumWords(a, b, n - 1, n - 1); }
  }

  // ---------------------------------------------------------------- the blocks of a message

  lemma {:induction false} BlockBytes(b: bytes, i: nat, n: nat, j: nat)
    requires i + 8 * n <= |b| && j < n
    ensures ToBE(Number(BlockWords(b, i, n)[j]), 8) == b[i + 8 * j..i + 8 * j + 8]
  {
    hide ToBE, Number, WordAt;
    if j < n - 1 {
      BlockBytes(b, i, n - 1, j);
    } else {
      BytesOfWordAt(b, i + 8 * j);
    }
  }

  /** Section 6.4: the hash values, one block after the other. */
  lemma {:induction false} HashChain(h: Words, k: Words, padded: bytes) returns (hs: seq<Words>)
    requires |h| == 8 && |k| == 80 && |padded| % 128 == 0
    ensures |hs| == |padded| / 128 + 1 && hs[0] == h && hs[|hs| - 1] == HashFrom(h, k, padded, 0)
    ensures forall i {:trigger hs[i]} :: 0 <= i < |hs| - 1 ==>
      |hs[i]| == 8 && 128 * i + 128 <= |padded| && hs[i + 1] == Compress(hs[i], k, BlockWords(padded, 128 * i, 16))
  {
    hs := HashChainFrom(h, k, padded, 0);
  }

  lemma {:induction false} HashChainFrom(h: Words, k: Words, padded: bytes, n: nat) returns (hs: seq<Words>)
    requires |h| == 8 && |k| == 80 && |padded| % 128 == 0 && 128 * n <= |padded|
    ensures |hs| == |padded| / 128 - n + 1 && hs[0] == h && hs[|hs| - 1] == HashFrom(h, k, padded, 128 * n)
    ensures forall i {:trigger hs[i]} :: 0 <= i < |hs| - 1 ==>
      && |hs[i]| == 8 && 128 * (n + i) + 128 <= |padded|
      && hs[i + 1] == Compress(hs[i], k, BlockWords(padded, 128 * (n + i), 16))
    decreases |padded| - 128 * n
  {
    hide Compress, BlockWords;
    if 128 * n + 128 > |padded| {
      hs := [h];
    } else {
      var next := Compress(h, k, BlockWords(padded, 128 * n, 16));
      var rest := HashChainFrom(next, k, padded, n + 1);
      hs := [h] + rest;
      assert forall i {:trigger hs[i]} :: 1 <= i < |hs| ==> hs[i] == rest[i - 1];
    }
  }

  /** Section 5.1.2: the message, a one bit, as few zeros as will do, and the length in bits. */
  lemma PaddedBytes(m: bytes)
    ensures var p, n := Padded(m), |Padded(m)|;
      && |m| + 17 <= n < |m| + 17 + 128 && n % 128 == 0 && p[..|m|] == m && p[|m|] == 0x80
      && (forall i :: |m| < i < n - 16 ==> p[i] == 0) && p[n - 16..] == ToBE(8 * |m|, 16)
  {
    hide ToBE;
    PaddedLength(m);
    PaddedEnds(m);
  }

  /** Section 6.5: the digest is the bytes of its words. */
  lemma {:induction false} DigestBytes(h: Words, n: nat, j: nat)
    requires n <= |h| && j < n
    ensures |Digest(h, n)| == 8 * n && Digest(h, n)[8 * j..8 * j + 8] == ToBE(Number(h[j]), 8)
  {
    hide ToBE, Number;
    if j < n - 1 {
      DigestBytes(h, n - 1, j);
      assert Digest(h, n)[8 * j..8 * j + 8] == Digest(h, n - 1)[8 * j..8 * j + 8];
    } else {
      DigestLength(h, n - 1);
    }
  }

  lemma {:induction false} DigestLength(h: Words, n: nat)
    requires n <= |h|
    ensures |Digest(h, n)| == 8 * n
  {
    hide ToBE, Number;
    if n > 0 { DigestLength(h, n - 1); }
  }

  /** SHA-384 and SHA-512 are the first six and all eight words of the hash of the padded message. */
  lemma DigestLengths(m: bytes)
    ensures |Sha384Of(m)| == 48 && |Sha512Of(m)| == 64
  {
    hide Digest, Hash, ToWords;
    RoundConstants();
    ConstantsAreWords();
    DigestLength(Hash(ToWords(SHA384_INITIAL), ToWords(K), m), 6);
    DigestLength(Hash(ToWords(SHA512_INITIAL), ToWords(K), m), 8);
  }
}
