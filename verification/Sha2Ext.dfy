/** SHA-384 and SHA-512 (Sha2Ext.sol) against FIPS 180-4, over any eighty round constants and eight initial words. */
module Sha2Ext {
  import opened Basics
  import opened LibBytes
  import opened Sha2Functions
  import opened Sha2Constants

  // ---------------------------------------------------------------- section 6.4.2: one block

  /** The word that extends a schedule. */
  function NextWord(w: Words, j: nat): bv64
    requires 16 <= j <= |w|
  {
    Add(Add(Add(Gamma1(w[j - 2]), w[j - 7]), Gamma0(w[j - 15])), w[j - 16])
  }

  /** The first `n` words of the message schedule. */
  function Schedule(block: Words, n: nat): (w: Words)
    requires |block| == 16 && n <= 80
    ensures |w| == n
  {
    if n <= 16 then block[..n]
    else
      var w := Schedule(block, n - 1);
      w + [NextWord(w, n - 1)]
  }

  /** The working variables a..h after one round. */
  function Round(s: Words, k: bv64, w: bv64): (r: Words)
    requires |s| == 8
    ensures |r| == 8
  {
    var t1 := Add(Add(Add(Add(s[7], Sigma1(s[4])), Ch(s[4], s[5], s[6])), k), w);
    var t2 := Add(Sigma0(s[0]), Maj(s[0], s[1], s[2]));
    [Add(t1, t2), s[0], s[1], s[2], Add(s[3], t1), s[4], s[5], s[6]]
  }

  function Rounds(s: Words, k: Words, w: Words, n: nat): (r: Words)
    requires |s| == 8 && n <= |k| && n <= |w|
    ensures |r| == 8
  {
    if n == 0 then s else Round(Rounds(s, k, w, n - 1), k[n - 1], w[n - 1])
  }

  function AddWords(a: Words, b: Words, n: nat): (r: Words)
    requires |a| == |b| && n <= |a|
    ensures |r| == |a|
  {
    if n == 0 then a else var p := AddWords(a, b, n - 1); p[n - 1 := Add(p[n - 1], b[n - 1])]
  }

  /** The hash value after one more block. */
  function Compress(h: Words, k: Words, block: Words): (r: Words)
    requires |h| == 8 && |k| == 80 && |block| == 16
    ensures |r| == 8
  {
    AddWords(h, Rounds(h, k, Schedule(block, 80), 80), 8)
  }

  // ---------------------------------------------------------------- sections 5.1.2 and 5.2.2: padding and parsing

  /** The first `n` words of the 128-byte block at `i`. */
  function BlockWords(b: bytes, i: nat, n: nat): (w: Words)
    requires i + 8 * n <= |b|
    ensures |w| == n
  {
    if n == 0 then [] else BlockWords(b, i, n - 1) + [WordAt(b, i + 8 * (n - 1))]
  }

  /** The hash computation over the whole blocks of `padded` from position `i` on. */
  function HashFrom(h: Words, k: Words, padded: bytes, i: nat): (r: Words)
    requires |h| == 8 && |k| == 80
    ensures |r| == 8
    decreases |padded| - i
  {
    if i + 128 > |padded| then h
    else HashFrom(Compress(h, k, BlockWords(padded, i, 16)), k, padded, i + 128)
  }

  /** The number of zero bytes between the one bit and the 128-bit length. */
  function ZeroBytes(length: nat): nat { (239 - length % 128) % 128 }

  /** The padded message of section 5.1.2, in bytes. */
  function Padded(m: bytes): bytes {
    m + [0x80] + Zeros(ZeroBytes(|m|)) + ToBE(8 * |m|, 16)
  }

  function Hash(h: Words, k: Words, m: bytes): (r: Words)
    requires |h| == 8 && |k| == 80
    ensures |r| == 8
  {
    HashFrom(h, k, Padded(m), 0)
  }

  // ---------------------------------------------------------------- the contract's loops

  method GetBlock(message: bytes, blocks: array<bv64>, index: nat)
    requires blocks.Length == 16 && index + 128 <= |message|
    modifies blocks
    ensures blocks[..] == BlockWords(message, index, 16)
  {
    hide WordAt;
    for i := 0 to 16
      invariant blocks[..i] == BlockWords(message, index, i)
    {
      blocks[i] := WordAt(message, index + i * 8);
      assert blocks[..i + 1] == blocks[..i] + [blocks[i]];
    }
    assert blocks[..] == blocks[..16];
  }

  method CopyBlock(w: array<bv64>, blocks: array<bv64>)
    requires w.Length == 80 && blocks.Length == 16 && w != blocks
    modifies w
    ensures w[..16] == blocks[..]
  {
    for j := 0 to 16
      invariant w[..j] == blocks[..j]
    {
      w[j] := blocks[j];
    }
  }

  method ExtendSchedule(w: array<bv64>, ghost block: Words)
    requires w.Length == 80 && |block| == 16 && w[..16] == block
    modifies w
    ensures w[..] == Schedule(block, 80)
  {
    hide Gamma0, Gamma1, Add;
    for j := 16 to 80
      invariant w[..j] == Schedule(block, j)
    {
      ghost var before := w[..j];
      w[j] := Add(Add(Add(Gamma1(w[j - 2]), w[j - 7]), Gamma0(w[j - 15])), w[j - 16]);
      assert w[j] == NextWord(before, j);
      assert w[..j + 1] == before + [NextWord(before, j)];
    }
    assert w[..] == w[..80];
  }

  /** h, g, f take over g, f, e, and e becomes d + t1. */
  method ShiftUpper(temp: array<bv64>, t1: bv64)
    requires temp.Length == 8
    modifies temp
    ensures temp[..] == old(temp[..4]) + [Add(old(temp[3]), t1)] + old(temp[4..7])
  {
    hide Add;
    temp[7] := temp[6];
    temp[6] := temp[5];
    temp[5] := temp[4];
    temp[4] := Add(temp[3], t1);
  }

  /** d, c, b take over c, b, a, and a becomes `first`. */
  method ShiftLower(temp: array<bv64>, first: bv64)
    requires temp.Length == 8
    modifies temp
    ensures temp[..] == [first] + old(temp[..3]) + old(temp[4..])
  {
    temp[3] := temp[2];
    temp[2] := temp[1];
    temp[1] := temp[0];
    temp[0] := first;
  }

  /** The two shifts of the working variables make up a round. */
  lemma ShiftsAreRound(v: Words, k: bv64, w: bv64, t1: bv64, first: bv64, mid: Words)
    requires |v| == 8 && t1 == Add(Add(Add(Add(v[7], Sigma1(v[4])), Ch(v[4], v[5], v[6])), k), w)
    requires first == Add(t1, Add(Sigma0(v[0]), Maj(v[0], v[1], v[2])))
    requires mid == v[..4] + [Add(v[3], t1)] + v[4..7]
    ensures [first] + mid[..3] + mid[4..] == Round(v, k, w)
  {
    hide Sigma0, Sigma1, Ch, Maj, Add;
  }

  /** One pass of the round loop, variable by variable. */
  method RunRound(temp: array<bv64>, k: bv64, w: bv64)
    requires temp.Length == 8
    modifies temp
    ensures temp[..] == Round(old(temp[..]), k, w)
  {
    hide Sigma0, Sigma1, Ch, Maj, Add, Round;
    ghost var v := temp[..];
    var t1 := Add(Add(Add(Add(temp[7], Sigma1(temp[4])), Ch(temp[4], temp[5], temp[6])), k), w);
    var t2 := Add(Sigma0(temp[0]), Maj(temp[0], temp[1], temp[2]));
    ShiftUpper(temp, t1);
    ghost var mid := temp[..];
    ShiftLower(temp, Add(t1, t2));
    ShiftsAreRound(v, k, w, t1, Add(t1, t2), mid);
  }

  method RunRounds(temp: array<bv64>, k: Words, w: array<bv64>)
    requires temp.Length == 8 && |k| == 80 && w.Length == 80 && temp != w
    modifies temp
    ensures temp[..] == Rounds(old(temp[..]), k, w[..], 80)
  {
    hide Round;
    ghost var words := w[..];
    for j := 0 to 80
      invariant w[..] == words
      invariant temp[..] == Rounds(old(temp[..]), k, words, j)
    {
      RunRound(temp, k[j], w[j]);
    }
  }

  method AddState(h: array<bv64>, temp: array<bv64>)
    requires h.Length == 8 && temp.Length == 8 && h != temp
    modifies h
    ensures h[..] == AddWords(old(h[..]), temp[..], 8)
  {
    hide Add;
    for j := 0 to 8
      invariant h[..] == AddWords(old(h[..]), temp[..], j)
    {
      h[j] := Add(h[j], temp[j]);
    }
  }

  /** One pass of the outer loop, once the block is in `blocks`. */
  method CompressBlock(h: array<bv64>, k: Words, blocks: array<bv64>, w: array<bv64>, temp: array<bv64>)
    requires h.Length == 8 && |k| == 80 && blocks.Length == 16 && w.Length == 80 && temp.Length == 8
    requires h != temp && h != blocks && h != w && temp != w && temp != blocks && w != blocks
    modifies h, w, temp
    ensures h[..] == Compress(old(h[..]), k, blocks[..])
  {
    hide Schedule, Rounds, AddWords;
    CopyBlock(w, blocks);
    ExtendSchedule(w, blocks[..]);
    for j := 0 to 8
      invariant h[..] == old(h[..]) && temp[..j] == h[..j]
      invariant w[..] == Schedule(blocks[..], 80)
    {
      temp[j] := h[j];
    }
    assert temp[..] == h[..];
    RunRounds(temp, k, w);
    AddState(h, temp);
  }

  // ---------------------------------------------------------------- the contract's padding

  /** What `padMessage` appends after the last whole block: the rest of the message, then its padding. */
  function PadMessage(message: bytes, offset: nat, length: nat): bytes
    requires offset + length <= |message|
  {
    var mdi := length % 128;
    var paddingLength := if mdi < 112 then 119 - mdi else 247 - mdi;
    var tail := message[offset + length - mdi..offset + length];
    tail + [0x80] + Zeros(paddingLength) + ToBE(length * 8 % TWO_64, 8)
  }

  /** The bytes the loop consumes: the whole blocks of the message region, then the padding. */
  function Stream(message: bytes, offset: nat, length: nat): bytes
    requires offset + length <= |message|
  {
    message[offset..offset + length / 128 * 128] + PadMessage(message, offset, length)
  }

  lemma WholeBlocks(length: nat)
    ensures length == length / 128 * 128 + length % 128
    ensures length / 128 * 128 % 128 == 0
  {}

  /** The contract's PADDING_ERROR check never fails. */
  lemma PadMessageLength(message: bytes, offset: nat, length: nat)
    requires offset + length <= |message|
    ensures |PadMessage(message, offset, length)| == if length % 128 < 112 then 128 else 256
    ensures |Stream(message, offset, length)| == length / 128 * 128 + |PadMessage(message, offset, length)|
  {
    WholeBlocks(length);
  }

  lemma {:induction false} BlockWordsOf(a: bytes, i: nat, block: bytes, n: nat)
    requires At(a, i, block) && 8 * n <= |block|
    ensures BlockWords(a, i, n) == BlockWords(block, 0, n)
  {
    if n == 0 {
    } else {
      hide WordAt;
      BlockWordsOf(a, i, block, n - 1);
      WordOf(a, i, block, 8 * (n - 1));
    }
  }

  lemma WordOf(a: bytes, i: nat, block: bytes, m: nat)
    requires At(a, i, block) && m + 8 <= |block|
    ensures WordAt(a, i + m) == WordAt(block, m)
  {
    AtSub(a, i, block, m, 8);
  }

  lemma SameBlock(a: bytes, i: nat, b: bytes, j: nat)
    requires i + 128 <= |a| && j + 128 <= |b| && a[i..i + 128] == b[j..j + 128]
    ensures BlockWords(a, i, 16) == BlockWords(b, j, 16)
  {
    hide BlockWords;
    BlockWordsOf(a, i, a[i..i + 128], 16);
    BlockWordsOf(b, j, a[i..i + 128], 16);
  }

  lemma ConcatSlice(a: bytes, b: bytes, i: nat, n: nat)
    ensures i + n <= |a| ==> (a + b)[i..i + n] == a[i..i + n]
    ensures |a| <= i && i + n <= |a| + |b| ==> (a + b)[i..i + n] == b[i - |a|..i - |a| + n]
  {}

  lemma NextMultiple(i: nat, n: nat)
    requires i % 128 == 0 && n % 128 == 0 && i < n
    ensures i + 128 <= n
  {}

  /** The block at `i`: from the message while whole blocks last, then from the padding. */
  lemma StreamBlock(message: bytes, offset: nat, length: nat, i: nat)
    requires offset + length <= |message| && i % 128 == 0 && i < |Stream(message, offset, length)|
    ensures i + 128 <= |Stream(message, offset, length)|
    ensures var whole, padding, stream := length / 128 * 128, PadMessage(message, offset, length),
              Stream(message, offset, length);
      if i < whole
      then i + 128 <= whole <= length && BlockWords(stream, i, 16) == BlockWords(message, offset + i, 16)
      else i - whole + 128 <= |padding| && BlockWords(stream, i, 16) == BlockWords(padding, i - whole, 16)
  {
    hide BlockWords, PadMessage;
    var whole, padding, stream := length / 128 * 128, PadMessage(message, offset, length),
      Stream(message, offset, length);
    WholeBlocks(length);
    PadMessageLength(message, offset, length);
    NextMultiple(i, |stream|);
    ConcatSlice(message[offset..offset + whole], padding, i, 128);
    if i < whole {
      NextMultiple(i, whole);
      SliceOfSlice(message, offset, whole, i, 128);
      SameBlock(stream, i, message, offset + i);
    } else {
      SameBlock(stream, i, padding, i - whole);
    }
  }

  // ---------------------------------------------------------------- the padding is that of FIPS 180-4

  lemma {:induction false} ZerosAreZero(n: nat)
    ensures FromBE(Zeros(n)) == 0
  {
    if n == 0 {
    } else {
      ZerosAreZero(n - 1);
      assert Zeros(n)[..n - 1] == Zeros(n - 1);
    }
  }

  /** Eight zero bytes and a 64-bit length make the 128-bit length exactly when it fits 64 bits. */
  lemma LengthField(v: nat)
    requires v < Pow256(16)
    ensures Zeros(8) + ToBE(v % TWO_64, 8) == ToBE(v, 16) <==> v < TWO_64
  {
    hide FromBE, ToBE, Pow256, Zeros;
    ShortField(v % TWO_64);
    FromToBE(v, 16);
    if v < TWO_64 {
      FromBEInjective(Zeros(8) + ToBE(v % TWO_64, 8), ToBE(v, 16));
    }
  }

  lemma ShortField(low: nat)
    requires low < TWO_64
    ensures FromBE(Zeros(8) + ToBE(low, 8)) == low
  {
    hide FromBE, ToBE, Zeros;
    FromBEConcat(Zeros(8), ToBE(low, 8));
    ZerosAreZero(8);
    assert Pow256(8) == TWO_64;
    FromToBE(low, 8);
  }

  lemma ZeroCount(length: nat)
    ensures var mdi := length % 128;
      (if mdi < 112 then 119 - mdi else 247 - mdi) == ZeroBytes(length) + 8
    ensures (length + 1 + ZeroBytes(length) + 16) % 128 == 0
  {}

  lemma {:induction false} ZerosSplit(a: nat, b: nat)
    ensures Zeros(a + b) == Zeros(a) + Zeros(b)
  {}

  lemma StreamParts(message: bytes, offset: nat, length: nat)
    requires offset + length <= |message|
    ensures var zeros := Zeros(if length % 128 < 112 then 119 - length % 128 else 247 - length % 128);
      Stream(message, offset, length)
      == message[offset..offset + length] + [0x80] + zeros + ToBE(8 * length % TWO_64, 8)
  {
    hide ToBE;
    WholeBlocks(length);
    var split := offset + length / 128 * 128;
    assert message[offset..offset + length] == message[offset..split] + message[split..offset + length];
  }

  /**
   The loop's stream is the padded message of FIPS 180-4 exactly for messages shorter than 2^61
   bytes: the contract keeps only 64 bits of the bit length.
   */
  lemma StreamIsPadded(message: bytes, offset: nat, length: nat)
    requires offset + length <= |message| && 8 * length < Pow256(16)
    ensures Stream(message, offset, length) == Padded(message[offset..offset + length]) <==>
      length < 0x2000_0000_0000_0000
  {
    hide ToBE, Pow256;
    var m := message[offset..offset + length];
    var whole, mdi := length / 128 * 128, length % 128;
    var z := ZeroBytes(length);
    WholeBlocks(length);
    ZeroCount(length);
    ZerosSplit(z, 8);
    LengthField(8 * length);
    var field := Zeros(8) + ToBE(8 * length % TWO_64, 8);
    var common := m + [0x80] + Zeros(z);
    StreamParts(message, offset, length);
    assert Stream(message, offset, length) == common + field;
    assert Padded(m) == common + ToBE(8 * length, 16);
    SameSuffix(common, field, ToBE(8 * length, 16));
  }

  lemma SameSuffix(a: bytes, b: bytes, c: bytes)
    ensures a + b == a + c <==> b == c
  {
    if a + b == a + c {
      assert b == (a + b)[|a|..] == (a + c)[|a|..] == c;
    }
  }

  /** Padding gives whole blocks. */
  lemma PaddedLength(m: bytes)
    ensures |Padded(m)| % 128 == 0 && |Padded(m)| > |m|
  {
    ZeroCount(|m|);
  }

  /** Padding is injective on messages of up to 2^128 bits. */
  lemma PaddedInjective(m: bytes, m': bytes)
    requires 8 * |m| < Pow256(16) && 8 * |m'| < Pow256(16)
    requires Padded(m) == Padded(m')
    ensures m == m'
  {
    hide FromBE, ToBE, Pow256, Padded;
    PaddedEnds(m);
    PaddedEnds(m');
    FromToBE(8 * |m|, 16);
    FromToBE(8 * |m'|, 16);
  }

  /** The padded message starts with the message and ends with its bit length. */
  lemma PaddedEnds(m: bytes)
    ensures var n := |Padded(m)|;
      && n >= 16 && n >= |m| && Padded(m)[..|m|] == m && Padded(m)[n - 16..] == ToBE(8 * |m|, 16)
  {
    hide ToBE;
  }

  // ---------------------------------------------------------------- the main loop

  /** `sha2`: the blocks are taken from the message in place, then from the padding, and fold into `h`. */
  method Sha2(message: bytes, offset: nat, length: nat, h: array<bv64>, k: Words) returns (r: Result<()>)
    requires h.Length == 8 && |k| == 80
    modifies h
    ensures r.Ok? <==> offset + length <= |message|
    ensures r.Ok? ==> h[..] == HashFrom(old(h[..]), k, Stream(message, offset, length), 0)
    ensures r.Revert? ==> h[..] == old(h[..])
  {
    hide Compress, BlockWords, PadMessage;
    if offset + length > |message| {
      return Revert;
    }
    ghost var stream := Stream(message, offset, length);
    ghost var h0 := h[..];
    PadMessageLength(message, offset, length);
    var padding := PadMessage(message, offset, length);
    var w, temp, blocks := new bv64[80], new bv64[8], new bv64[16];
    var messageLength := length / 128 * 128;
    var i := 0;
    while i < messageLength + |padding|
      invariant i % 128 == 0 && i <= |stream|
      invariant HashFrom(h0, k, stream, 0) == HashFrom(h[..], k, stream, i)
    {
      StreamBlock(message, offset, length, i);
      if i < messageLength {
        GetBlock(message, blocks, offset + i);
      } else {
        GetBlock(padding, blocks, i - messageLength);
      }
      CompressBlock(h, k, blocks, w, temp);
      i := i + 128;
    }
    r := Ok(());
  }

  /** The first `n` words of a hash value as bytes. */
  function Digest(h: Words, n: nat): bytes
    requires n <= |h|
  {
    if n == 0 then [] else Digest(h, n - 1) + ToBE(Number(h[n - 1]), 8)
  }

  /** A message region, from any initial values: the digest has the first `words` words. */
  method HashRegion(message: bytes, offset: nat, length: nat, initial: Words, k: Words, words: nat)
    returns (r: Result<bytes>)
    requires |initial| == 8 && |k| == 80 && words <= 8
    ensures r.Ok? <==> offset + length <= |message|
    ensures r.Ok? && length < 0x2000_0000_0000_0000 ==>
      r == Ok(Digest(Hash(initial, k, message[offset..offset + length]), words))
  {
    var h := new bv64[8](i requires 0 <= i < 8 => initial[i]);
    assert h[..] == initial;
    var done := Sha2(message, offset, length, h, k);
    if done.Revert? {
      return Revert;
    }
    if length < 0x2000_0000_0000_0000 {
      assert Pow256(16) > 0x1_0000_0000_0000_0000;
      StreamIsPadded(message, offset, length);
    }
    r := Ok(Digest(h[..], words));
  }

  /** `sha384`. */
  method Sha384(message: bytes, offset: nat, length: nat) returns (r: Result<bytes>)
    ensures r.Ok? <==> offset + length <= |message|
    ensures r.Ok? && length < 0x2000_0000_0000_0000 ==> r == Ok(Sha384Of(message[offset..offset + length]))
  {
    hide Hash, Digest, ToWords;
    RoundConstants();
    ConstantsAreWords();
    r := HashRegion(message, offset, length, ToWords(SHA384_INITIAL), ToWords(K), 6);
  }

  /** `sha512`. */
  method Sha512(message: bytes, offset: nat, length: nat) returns (r: Result<bytes>)
    ensures r.Ok? <==> offset + length <= |message|
    ensures r.Ok? && length < 0x2000_0000_0000_0000 ==> r == Ok(Sha512Of(message[offset..offset + length]))
  {
    hide Hash, Digest, ToWords;
    RoundConstants();
    ConstantsAreWords();
    r := HashRegion(message, offset, length, ToWords(SHA512_INITIAL), ToWords(K), 8);
  }

  /** SHA-384 of a message: six words from the initial values of section 5.3.4. */
  ghost function Sha384Of(m: bytes): bytes {
    RoundConstants();
    ConstantsAreWords();
    Digest(Hash(ToWords(SHA384_INITIAL), ToWords(K), m), 6)
  }

  /** SHA-512 of a message: all eight words from the initial values of section 5.3.5. */
  ghost function Sha512Of(m: bytes): bytes {
    RoundConstants();
    ConstantsAreWords();
    Digest(Hash(ToWords(SHA512_INITIAL), ToWords(K), m), 8)
  }
}
