/**
 Stored verification results and their two byte forms: `abi.encodePacked` read back by word loads
 (CertManager.sol:296-323), and `abi.encode` read back by `abi.decode` (CertStorage.sol:12-30).
 */
module VerifiedCerts {
  import opened Basics
  import opened LibBytes
  import opened CertParser

  datatype VerifiedCert = VerifiedCert(ca: bool, notAfter: nat, maxPathLen: int, subjectHash: Bytes32, pubKey: bytes)

  /** The values the Solidity struct can hold (a bytes length is far below 2^64). */
  predicate Storable(c: VerifiedCert) {
    c.notAfter < TWO_64 && Int64(c.maxPathLen) && |c.pubKey| < TWO_64
  }

  const ZERO32: Bytes32 := Zeros(32)

  /** What a load returns for a hash that was never stored. */
  const EMPTY := VerifiedCert(false, 0, 0, ZERO32, [])

  /** Two's complement in 64 bits, and back. */
  function ToUint64(n: int): nat
    requires Int64(n)
  {
    if n >= 0 then n else n + TWO_64
  }

  function FromUint64(n: nat): int { if n < TWO_63 then n else n - TWO_64 }

  // ---------------------------------------------------------------- packed form

  function PackVerified(c: VerifiedCert): bytes
    requires Storable(c)
  {
    [if c.ca then 1 else 0] + ToBE(c.notAfter, 8) + ToBE(ToUint64(c.maxPathLen), 8) + c.subjectHash + c.pubKey
  }

  /** The low `n` bytes of the word loaded at offset `p` of the value's memory, length word included. */
  function LowBytes(packed: bytes, p: nat, n: nat): nat
    requires p <= |packed| && n <= 32
  {
    MLoad(ToBE(|packed|, 32) + packed, p) % Pow256(n)
  }

  /** `_loadVerified` on the stored bytes; a short value underflows `packed.length - 0x31`. */
  function UnpackVerified(packed: bytes): Result<VerifiedCert> {
    if |packed| == 0 then Ok(EMPTY)
    else
      :- Require(|packed| >= 0x31);
      var ca := LowBytes(packed, 0x1, 1);
      var notAfter := LowBytes(packed, 0x9, 8);
      var maxPathLen := LowBytes(packed, 0x11, 8);
      var subjectHash := ToBE(LowBytes(packed, 0x31, 32), 32);
      var pubKey :- Slice(packed, 0x31, |packed| - 0x31);
      Ok(VerifiedCert(ca != 0, notAfter, FromUint64(maxPathLen), subjectHash, pubKey))
  }

  /** A word load that ends at offset `p` reads the bytes before `p` into its low end. */
  lemma LowBytesAre(packed: bytes, p: nat, s: bytes)
    requires |s| <= p <= |packed| && |s| <= 32 && At(packed, p - |s|, s)
    ensures LowBytes(packed, p, |s|) == FromBE(s)
  {
    hide ToBE, FromBE, Pow256;
    var m := ToBE(|packed|, 32) + packed;
    assert m[32..32 + |packed|] == packed;
    AtSub(m, 32, packed, p - |s|, |s|);
    assert packed[p - |s|..p - |s| + |s|] == s;
    WordEnd(m, p, s);
  }

  lemma WordEnd(m: bytes, p: nat, s: bytes)
    requires p + 32 <= |m| && |s| <= 32 && At(m, 32 + (p - |s|), s)
    ensures MLoad(m, p) % Pow256(|s|) == FromBE(s)
  {
    var word := m[p..p + 32];
    WordSplit(word, 32 - |s|);
    assert word[32 - |s|..] == m[p + 32 - |s|..p + 32];
  }

  lemma PackedFieldsStand(c: VerifiedCert)
    requires Storable(c)
    ensures var p := PackVerified(c);
      && |p| == 0x31 + |c.pubKey| && At(p, 0, [if c.ca then 1 else 0])
      && At(p, 1, ToBE(c.notAfter, 8)) && At(p, 9, ToBE(ToUint64(c.maxPathLen), 8))
      && At(p, 17, c.subjectHash) && At(p, 49, c.pubKey)
  {
    var a, b, d: bytes := [if c.ca then 1 else 0], ToBE(c.notAfter, 8), ToBE(ToUint64(c.maxPathLen), 8);
    var p := PackVerified(c);
    AtSplit(p, 0, a + b + d + c.subjectHash, c.pubKey);
    AtSplit(p, 0, a + b + d, c.subjectHash);
    AtSplit(p, 0, a + b, d);
    AtSplit(p, 0, a, b);
  }

  /** Each word load finds its field. */
  lemma PackedFieldsLoad(c: VerifiedCert)
    requires Storable(c)
    ensures var p := PackVerified(c);
      && |p| == 0x31 + |c.pubKey| && LowBytes(p, 0x1, 1) == (if c.ca then 1 else 0)
      && LowBytes(p, 0x9, 8) == c.notAfter && LowBytes(p, 0x11, 8) == ToUint64(c.maxPathLen)
      && ToBE(LowBytes(p, 0x31, 32), 32) == c.subjectHash
  {
    hide LowBytes, FromBE, ToBE, PackVerified, At;
    var p := PackVerified(c);
    PackedFieldsStand(c);
    LowBytesAre(p, 0x1, [if c.ca then 1 else 0]);
    FromBEOne([if c.ca then 1 else 0]);
    LowBytesAre(p, 0x9, ToBE(c.notAfter, 8));
    LowBytesAre(p, 0x11, ToBE(ToUint64(c.maxPathLen), 8));
    LowBytesAre(p, 0x31, c.subjectHash);
    assert Pow256(8) == TWO_64;
    FromToBE(c.notAfter, 8);
    FromToBE(ToUint64(c.maxPathLen), 8);
    ToFromBE(c.subjectHash);
  }

  /** `_loadVerified` undoes `_saveVerified` for every storable value. */
  lemma UnpackPacked(c: VerifiedCert)
    requires Storable(c)
    ensures UnpackVerified(PackVerified(c)) == Ok(c)
  {
    hide LowBytes, FromBE, ToBE, PackVerified, Pow256;
    PackedFieldsStand(c);
    PackedFieldsLoad(c);
  }

  // ---------------------------------------------------------------- ABI form

  function Ones(n: nat): (r: bytes)
    ensures |r| == n
  {
    seq(n, _ => 255)
  }

  function RoundUp32(n: nat): nat { (n + 31) / 32 * 32 }

  /** The head word of a signed number: sign extended to 32 bytes. */
  function SignedWord(n: int): bytes
    requires Int64(n)
  {
    (if n < 0 then Ones(24) else Zeros(24)) + ToBE(ToUint64(n), 8)
  }

  /**
   `abi.encode` of the struct: an offset to the tuple, its five head words, then the key's length and padded bytes.
   */
  function AbiEncode(c: VerifiedCert): bytes
    requires Storable(c)
  {
    ToBE(0x20, 32) + ToBE(if c.ca then 1 else 0, 32) + ToBE(c.notAfter, 32) + SignedWord(c.maxPathLen)
    + c.subjectHash + ToBE(0xa0, 32) + ToBE(|c.pubKey|, 32) + c.pubKey + Zeros(RoundUp32(|c.pubKey|) - |c.pubKey|)
  }

  function ReadBool(data: bytes, i: nat): Result<bool> {
    var n :- ReadUint(data, i, 32);
    :- Require(n <= 1);
    Ok(n == 1)
  }

  function ReadUint64Word(data: bytes, i: nat): Result<nat> {
    var n :- ReadUint(data, i, 32);
    :- Require(n < TWO_64);
    Ok(n)
  }

  function ReadInt64Word(data: bytes, i: nat): Result<int> {
    var low :- ReadUint(data, i + 24, 8);
    var n := FromUint64(low);
    :- Require(Int64(n) && data[i..i + 32] == SignedWord(n));
    Ok(n)
  }

  /** `abi.decode`, with the range checks it makes on each word. */
  function AbiDecode(data: bytes): Result<VerifiedCert> {
    var base :- ReadUint64Word(data, 0);
    var ca :- ReadBool(data, base);
    var notAfter :- ReadUint64Word(data, base + 32);
    var maxPathLen :- ReadInt64Word(data, base + 64);
    var subjectHash :- Slice(data, base + 96, 32);
    var offset :- ReadUint64Word(data, base + 128);
    var length :- ReadUint64Word(data, base + offset);
    var pubKey :- Slice(data, base + offset + 32, length);
    Ok(VerifiedCert(ca, notAfter, maxPathLen, subjectHash, pubKey))
  }

  lemma AbiFieldsStand(c: VerifiedCert)
    requires Storable(c)
    ensures var d := AbiEncode(c);
      && At(d, 0, ToBE(0x20, 32)) && At(d, 32, ToBE(if c.ca then 1 else 0, 32)) && At(d, 64, ToBE(c.notAfter, 32))
      && At(d, 96, SignedWord(c.maxPathLen)) && At(d, 128, c.subjectHash) && At(d, 160, ToBE(0xa0, 32))
      && At(d, 192, ToBE(|c.pubKey|, 32)) && At(d, 224, c.pubKey)
  {
    var d := AbiEncode(c);
    var w0, w1, w2, w3 := ToBE(0x20, 32), ToBE(if c.ca then 1 else 0, 32), ToBE(c.notAfter, 32),
                          SignedWord(c.maxPathLen);
    var w5, w6, pad := ToBE(0xa0, 32), ToBE(|c.pubKey|, 32), Zeros(RoundUp32(|c.pubKey|) - |c.pubKey|);
    AtSplit(d, 0, w0 + w1 + w2 + w3 + c.subjectHash + w5 + w6 + c.pubKey, pad);
    AtSplit(d, 0, w0 + w1 + w2 + w3 + c.subjectHash + w5 + w6, c.pubKey);
    AtSplit(d, 0, w0 + w1 + w2 + w3 + c.subjectHash + w5, w6);
    AtSplit(d, 0, w0 + w1 + w2 + w3 + c.subjectHash, w5);
    AtSplit(d, 0, w0 + w1 + w2 + w3, c.subjectHash);
    AtSplit(d, 0, w0 + w1 + w2, w3);
    AtSplit(d, 0, w0 + w1, w2);
    AtSplit(d, 0, w0, w1);
  }

  lemma WordReads(d: bytes, i: nat, n: nat)
    requires At(d, i, ToBE(n, 32)) && n < TWO_64
    ensures ReadUint64Word(d, i) == Ok(n)
    ensures n <= 1 ==> ReadBool(d, i) == Ok(n == 1)
  {
    SmallWord(n);
  }

  lemma SignedWordReads(d: bytes, i: nat, n: int)
    requires Int64(n) && At(d, i, SignedWord(n))
    ensures ReadInt64Word(d, i) == Ok(n)
  {
    var sign := if n < 0 then Ones(24) else Zeros(24);
    AtSplit(d, i, sign, ToBE(ToUint64(n), 8));
    assert Pow256(8) == TWO_64;
    FromToBE(ToUint64(n), 8);
  }

  /** `loadVerified` undoes `saveVerified` for every storable value. */
  lemma AbiDecodeEncoded(c: VerifiedCert)
    requires Storable(c)
    ensures AbiEncode(c) != [] && AbiDecode(AbiEncode(c)) == Ok(c)
  {
    var d := AbiEncode(c);
    AbiFieldsStand(c);
    WordReads(d, 0, 0x20);
    WordReads(d, 32, if c.ca then 1 else 0);
    WordReads(d, 64, c.notAfter);
    SignedWordReads(d, 96, c.maxPathLen);
    WordReads(d, 160, 0xa0);
    WordReads(d, 192, |c.pubKey|);
  }

  /** The ABI form fills whole words, with fewer than 32 bytes of padding behind the key's 224th byte. */
  lemma AbiLength(c: VerifiedCert)
    requires Storable(c)
    ensures var n := |AbiEncode(c)|;
      && n % 32 == 0 && 224 + |c.pubKey| <= n < 256 + |c.pubKey|
      && AbiEncode(c)[224 + |c.pubKey|..] == Zeros(n - 224 - |c.pubKey|)
  {
    hide ToBE;
  }

  /** The decoder's words are exact: no other word reads as this number or flag. */
  lemma AbiWordsExact(data: bytes, i: nat)
    ensures ReadUint64Word(data, i).Ok? ==>
      ReadUint64Word(data, i).value < TWO_64 && At(data, i, ToBE(ReadUint64Word(data, i).value, 32))
    ensures ReadBool(data, i).Ok? ==> At(data, i, ToBE(if ReadBool(data, i).value then 1 else 0, 32))
    ensures ReadInt64Word(data, i).Ok? ==>
      Int64(ReadInt64Word(data, i).value) && At(data, i, SignedWord(ReadInt64Word(data, i).value))
  {
    hide ToBE, FromBE, SignedWord;
    if i + 32 <= |data| { ToFromBE(data[i..i + 32]); }
  }

  /** What is not stored reads as all zeros. */
  lemma NothingStored()
    ensures UnpackVerified([]) == Ok(VerifiedCert(false, 0, 0, Zeros(32), []))
  {}
}
