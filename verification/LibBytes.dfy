/**
 Byte strings in EVM memory (LibBytes.sol): word-wise copies with a masked tail, slices, and
 the masked reads behind `readBytesN` and `readUint16/32/64`.
 */
module LibBytes {
  import opened Basics
  import opened Bits

  /** `mload(p)`. */
  function MLoad(m: bytes, p: nat): (word: nat)
    requires p + 32 <= |m|
  {
    FromBE(m[p..p + 32])
  }

  /** `mstore(p, word)`. */
  method MStore(mem: array<byte>, p: nat, word: nat)
    requires p + 32 <= mem.Length
    modifies mem
    ensures forall i {:trigger mem[i]} :: 0 <= i < mem.Length ==>
      mem[i] == if p <= i < p + 32 then ToBE(word, 32)[i - p] else old(mem[i])
  {
    var word32 := ToBE(word, 32);
    forall i | p <= i < p + 32 {
      mem[i] := word32[i - p];
    }
  }

  /** `256 ** (32 - len) - 1`: ones in every byte after the first `len`. */
  function TailMask(len: nat): nat
    requires len <= 32
  {
    Pow256(32 - len) - 1
  }

  lemma WordSplit(word: bytes, len: nat)
    requires |word| == 32 && len <= 32
    ensures FromBE(word) / Pow256(32 - len) == FromBE(word[..len])
    ensures FromBE(word) % Pow256(32 - len) == FromBE(word[len..])
    ensures FromBE(word) == FromBE(word[..len]) * Pow256(32 - len) + FromBE(word[len..])
  {
    assert word == word[..len] + word[len..];
    FromBEConcat(word[..len], word[len..]);
    SplitNumber(FromBE(word[..len]), FromBE(word[len..]), Pow256(32 - len));
  }

  lemma MaskedParts(word: bytes, len: nat)
    requires |word| == 32 && len <= 32
    ensures TailMask(len) < Pow256(32)
    ensures And(FromBE(word), TailMask(len)) == FromBE(word[len..])
    ensures And(FromBE(word), Not(TailMask(len), 32)) == FromBE(word[..len]) * Pow256(32 - len)
  {
    hide FromBE, And, Not, Pow256;
    WordSplit(word, len);
    ByteMasks(FromBE(word), 32 - len, 32);
  }

  /** The merged tail word holds `len` source bytes and then the destination's own bytes. */
  lemma MaskedMerge(src: bytes, dest: bytes, len: nat)
    requires |src| == |dest| == 32 && len <= 32
    ensures TailMask(len) < Pow256(32)
    ensures Or(And(FromBE(dest), TailMask(len)), And(FromBE(src), Not(TailMask(len), 32)))
         == FromBE(src[..len] + dest[len..])
  {
    MaskedParts(src, len);
    MaskedParts(dest, len);
    Pow256IsPow2(32 - len);
    OrDisjoint(FromBE(dest[len..]), FromBE(src[..len]), 8 * (32 - len));
    FromBEConcat(src[..len], dest[len..]);
  }

  // ---------------------------------------------------------------- memcpy

  /** Regions on which the forward word-wise copy is a copy: the target starts no later, or clear of the source. */
  predicate Copyable(dest: nat, src: nat, len: nat) {
    dest <= src || src + len <= dest
  }

  /** `m` is `m0` with the `n` bytes from `src` copied to `dest`, and no other byte changed. */
  ghost predicate Copied(m0: bytes, m: bytes, dest: nat, src: nat, n: nat) {
    && |m| == |m0| && dest + n <= |m0| && src + n <= |m0|
    && forall i {:trigger m[i]} :: 0 <= i < |m| ==> m[i] == if dest <= i < dest + n then m0[src + (i - dest)] else m0[i]
  }

  /** Copying `n` more bytes from a partly copied memory still copies original source bytes. */
  lemma CopyStep(m0: bytes, m: bytes, m': bytes, dest: nat, src: nat, done: nat, n: nat)
    requires Copied(m0, m, dest, src, done) && Copied(m, m', dest + done, src + done, n)
    requires Copyable(dest, src, done + n)
    ensures Copied(m0, m', dest, src, done + n)
  {}

  /** The word stored last: `len` source bytes merged into the destination's own word. */
  function MergedWord(m: bytes, dest: nat, src: nat, len: nat): nat
    requires dest + 32 <= |m| && src + 32 <= |m| && len <= 32
  {
    MaskedMerge(m[src..src + 32], m[dest..dest + 32], len);
    var srcPart := And(MLoad(m, src), Not(TailMask(len), 32));
    var destPart := And(MLoad(m, dest), TailMask(len));
    Or(destPart, srcPart)
  }

  lemma MergedWordBytes(m: bytes, dest: nat, src: nat, len: nat)
    requires dest + 32 <= |m| && src + 32 <= |m| && len <= 32
    ensures ToBE(MergedWord(m, dest, src, len), 32) == m[src..src + len] + m[dest + len..dest + 32]
  {
    hide FromBE, ToBE, And, Or, Not, Pow256;
    var merged := m[src..src + 32][..len] + m[dest..dest + 32][len..];
    MaskedMerge(m[src..src + 32], m[dest..dest + 32], len);
    ToFromBE(merged);
    assert merged == m[src..src + len] + m[dest + len..dest + 32];
  }

  lemma MergedWordCopies(m: bytes, m': bytes, dest: nat, src: nat, len: nat)
    requires dest + 32 <= |m| && src + 32 <= |m| == |m'| && len <= 32
    requires forall i {:trigger m'[i]} :: 0 <= i < |m| ==>
      m'[i] == if dest <= i < dest + 32 then ToBE(MergedWord(m, dest, src, len), 32)[i - dest] else m[i]
    ensures Copied(m, m', dest, src, len)
  {
    MergedWordBytes(m, dest, src, len);
  }

  /** The last, partial word: one masked store, or nothing. */
  method CopyTail(mem: array<byte>, dest: nat, src: nat, len: nat)
    requires dest + 32 <= mem.Length && src + 32 <= mem.Length && len < 32
    modifies mem
    ensures Copied(old(mem[..]), mem[..], dest, src, len)
  {
    if len > 0 {
      ghost var m := mem[..];
      MStore(mem, dest, MergedWord(mem[..], dest, src, len));
      MergedWordCopies(m, mem[..], dest, src, len);
    }
  }

  /** `mstore(dest, mload(src))`. */
  method CopyWord(mem: array<byte>, dest: nat, src: nat)
    requires dest + 32 <= mem.Length && src + 32 <= mem.Length
    modifies mem
    ensures Copied(old(mem[..]), mem[..], dest, src, 32)
  {
    ToFromBE(mem[..][src..src + 32]);
    MStore(mem, dest, MLoad(mem[..], src));
  }

  /** Exactly `len0` bytes are copied and no other byte changes. */
  method MemCpy(mem: array<byte>, dest0: nat, src0: nat, len0: nat)
    requires dest0 + len0 + 32 <= mem.Length && src0 + len0 + 32 <= mem.Length
    requires Copyable(dest0, src0, len0)
    modifies mem
    ensures Copied(old(mem[..]), mem[..], dest0, src0, len0)
  {
    var dest, src, len := dest0, src0, len0;
    ghost var m0 := mem[..];
    while len >= 32
      invariant src - src0 == dest - dest0 == len0 - len >= 0
      invariant Copied(m0, mem[..], dest0, src0, len0 - len)
    {
      ghost var m := mem[..];
      CopyWord(mem, dest, src);
      CopyStep(m0, m, mem[..], dest0, src0, len0 - len, 32);
      dest, src, len := dest + 32, src + 32, len - 32;
    }
    ghost var m := mem[..];
    CopyTail(mem, dest, src, len);
    CopyStep(m0, m, mem[..], dest0, src0, len0 - len, len);
  }

  // ---------------------------------------------------------------- allocation and slices

  /** The Solidity `bytes` value `v` lies at address `p`: its length word, then its contents. */
  ghost predicate IsBytes(m: bytes, p: nat, v: bytes) {
    p + 32 <= |m| && MLoad(m, p) == |v| && At(m, p + 32, v)
  }

  /** `slice` as a value. */
  function Slice(b: bytes, offset: nat, length: nat): Result<bytes> {
    if offset + length <= |b| then Ok(b[offset..offset + length]) else Revert
  }

  function Zeros(n: nat): (z: bytes)
    ensures |z| == n
  {
    seq(n, _ => 0)
  }

  /** `new bytes(n)` at the next free address. */
  method NewBytes(mem: array<byte>, free: nat, n: nat) returns (p: nat, free': nat)
    requires free + n + 32 <= mem.Length && n < TWO_64
    modifies mem
    ensures p == free && free' == free + 32 + (n + 31) / 32 * 32
    ensures IsBytes(mem[..], p, Zeros(n))
    ensures mem[..][..free] == old(mem[..])[..free]
  {
    p, free' := free, free + 32 + (n + 31) / 32 * 32;
    forall i | p + 32 <= i < p + 32 + n {
      mem[i] := 0;
    }
    MStore(mem, p, n);
    StoredLength(mem[..], p, n);
  }

  lemma SmallWord(n: nat)
    requires n < TWO_64
    ensures FromBE(ToBE(n, 32)) == n
  {
    assert Pow256(8) == TWO_64;
    Pow256Monotone(8, 32);
    FromToBE(n, 32);
  }

  lemma StoredLength(m: bytes, p: nat, n: nat)
    requires p + 32 + n <= |m| && n < TWO_64
    requires forall i :: p <= i < p + 32 ==> m[i] == ToBE(n, 32)[i - p]
    requires forall i :: p + 32 <= i < p + 32 + n ==> m[i] == 0
    ensures IsBytes(m, p, Zeros(n))
  {
    SmallWord(n);
    assert m[p..p + 32] == ToBE(n, 32);
    assert m[p + 32..p + 32 + n] == Zeros(n);
  }

  /** A copy over all the contents of a `bytes` value leaves its length word and everything below it alone. */
  lemma FilledBytes(m: bytes, m': bytes, p: nat, z: bytes, s: bytes, src: nat, len: nat)
    requires IsBytes(m, p, z) && |s| == |z| == len && At(m, src, s)
    requires Copied(m, m', p + 32, src, len)
    ensures IsBytes(m', p, s) && m'[..p] == m[..p]
  {
    assert m'[p..p + 32] == m[p..p + 32];
    assert m'[p + 32..p + 32 + len] == m[src..src + len];
    assert m'[..p] == m[..p];
  }

  /** Fills a `bytes` value of length `len` from the bytes `s` below it. */
  method FillBytes(mem: array<byte>, p: nat, src: nat, len: nat, ghost z: bytes, ghost s: bytes)
    requires IsBytes(mem[..], p, z) && |s| == |z| == len && At(mem[..], src, s)
    requires src + len <= p && p + len + 64 <= mem.Length
    modifies mem
    ensures IsBytes(mem[..], p, s) && mem[..][..p] == old(mem[..])[..p]
  {
    ghost var m := mem[..];
    MemCpy(mem, p + 32, src, len);
    FilledBytes(m, mem[..], p, z, s, src, len);
  }

  /** `v` with the bytes from `i` on replaced by `s`. */
  function Patch(v: bytes, i: nat, s: bytes): (r: bytes)
    requires i + |s| <= |v|
    ensures |r| == |v|
  {
    v[..i] + s + v[i + |s|..]
  }

  /** A copy into the contents of a `bytes` value patches it and leaves everything below it alone. */
  lemma PatchedBytes(m: bytes, m': bytes, p: nat, v: bytes, i: nat, src: nat, len: nat, s: bytes)
    requires IsBytes(m, p, v) && At(m, src, s) && |s| == len && i + len <= |v|
    requires Copied(m, m', p + 32 + i, src, len)
    ensures IsBytes(m', p, Patch(v, i, s)) && m'[..p] == m[..p]
  {
    hide FromBE;
    assert m'[p..p + 32] == m[p..p + 32];
    assert forall k :: 0 <= k < |v| ==> m[p + 32 + k] == m[p + 32..p + 32 + |v|][k] == v[k];
    assert forall k :: 0 <= k < len ==> m[src + k] == m[src..src + len][k] == s[k];
    var r := Patch(v, i, s);
    assert forall k :: 0 <= k < |v| ==> m'[p + 32 + k] == r[k];
    assert m'[p + 32..p + 32 + |v|] == r;
    assert m'[..p] == m[..p];
  }

  /** The length word of a `bytes` value. */
  function LengthAt(mem: array<byte>, b: nat, ghost v: bytes): (n: nat)
    requires IsBytes(mem[..], b, v)
    reads mem
    ensures n == |v|
  {
    MLoad(mem[..], b)
  }

  lemma SliceStands(m: bytes, b: nat, v: bytes, offset: nat, length: nat)
    requires IsBytes(m, b, v) && offset + length <= |v|
    ensures At(m, b + 32 + offset, v[offset..offset + length])
  {
    hide FromBE;
    AtSub(m, b + 32, v, offset, length);
  }

  /** A fresh `bytes` value with the contents found at `src`. */
  method NewSlice(mem: array<byte>, free: nat, src: nat, length: nat, ghost s: bytes) returns (p: nat, free': nat)
    requires At(mem[..], src, s) && |s| == length && src + length <= free
    requires free + length + 64 <= mem.Length && length < TWO_64
    modifies mem
    ensures p == free <= free' && IsBytes(mem[..], p, s)
    ensures mem[..][..free] == old(mem[..])[..free]
  {
    hide FromBE, Zeros, At, IsBytes;
    ghost var m0 := mem[..];
    p, free' := NewBytes(mem, free, length);
    AtKept(m0, mem[..], free, src, s);
    FillBytes(mem, p, src, length, Zeros(length), s);
  }

  /**
   `slice` in memory: a fresh `bytes` value holding exactly the requested part; everything
   allocated before is untouched.
   */
  method SliceInMemory(mem: array<byte>, free: nat, b: nat, ghost v: bytes, offset: nat, length: nat)
    returns (r: Result<nat>, free': nat)
    requires IsBytes(mem[..], b, v) && b + 32 + |v| <= free
    requires free + |v| + 64 <= mem.Length && |v| < TWO_64
    modifies mem
    ensures r.Ok? == Slice(v, offset, length).Ok?
    ensures r.Ok? ==> IsBytes(mem[..], r.value, Slice(v, offset, length).value) && r.value == free <= free'
    ensures mem[..][..free] == old(mem[..])[..free]
  {
    hide FromBE, IsBytes;
    if offset + length > LengthAt(mem, b, v) {
      return Revert, free;
    }
    SliceStands(mem[..], b, v, offset, length);
    var p;
    p, free' := NewSlice(mem, free, b + 32 + offset, length, v[offset..offset + length]);
    r := Ok(p);
  }

  // ---------------------------------------------------------------- reads

  /** `len` bytes at `index` as a big-endian number, bounds checked. */
  function ReadUint(b: bytes, index: nat, len: nat): Result<nat> {
    if index + len <= |b| then Ok(FromBE(b[index..index + len])) else Revert
  }

  /** `not(sub(exp(256, sub(32, len)), 1))` with the EVM's wrap-around: for `len == 0` the power is 0. */
  function ReadMask(len: nat): nat
    requires len <= 32
  {
    var modulus := Pow256(32);
    var power := Pow256(32 - len) % modulus;
    Not((power + modulus - 1) % modulus, 32)
  }

  lemma WrappingDecrement(power: nat, modulus: nat)
    requires 1 <= power <= modulus
    ensures (power % modulus + modulus - 1) % modulus == power - 1
  {
    if power == modulus {
      SplitNumber(1, 0, modulus);
      ModSmall(modulus - 1, modulus);
    } else {
      ModSmall(power, modulus);
      SplitNumber(1, power - 1, modulus);
    }
  }

  lemma ReadMaskIsTail(len: nat)
    requires len <= 32
    ensures TailMask(len) < Pow256(32) && ReadMask(len) == Not(TailMask(len), 32)
  {
    hide Pow256, Not;
    Pow256Monotone(32 - len, 32);
    WrappingDecrement(Pow256(32 - len), Pow256(32));
  }

  /** The assembly of `readBytesN`: `and(mload(p), mask)`. */
  function MaskedRead(m: bytes, p: nat, len: nat): nat
    requires p + 32 <= |m| && len <= 32
  {
    And(MLoad(m, p), ReadMask(len))
  }

  lemma MaskedReadIsShifted(m: bytes, p: nat, s: bytes)
    requires p + 32 <= |m| && |s| <= 32 && At(m, p, s)
    ensures MaskedRead(m, p, |s|) == FromBE(s) * Pow256(32 - |s|)
  {
    ReadMaskIsTail(|s|);
    assert m[p..p + 32][..|s|] == s by { WordPrefix(m, p, s); }
    HighPart(m[p..p + 32], |s|);
  }

  lemma HighPart(word: bytes, len: nat)
    requires |word| == 32 && len <= 32
    ensures TailMask(len) < Pow256(32)
    ensures And(FromBE(word), Not(TailMask(len), 32)) == FromBE(word[..len]) * Pow256(32 - len)
  {
    MaskedParts(word, len);
  }

  /**
   Whatever bytes follow in memory, masking one word and shifting it right yields the big-endian
   value of the bytes asked for, also for 0 and for 32 of them.
   */
  lemma MaskedReadIsBigEndian(m: bytes, p: nat, s: bytes)
    requires p + 32 <= |m| && |s| <= 32 && At(m, p, s)
    ensures MaskedRead(m, p, |s|) / Pow256(32 - |s|) == FromBE(s)
  {
    hide FromBE, Pow256, MaskedRead, At;
    MaskedReadIsShifted(m, p, s);
    SplitNumber(FromBE(s), 0, Pow256(32 - |s|));
  }

  lemma WordPrefix(m: bytes, p: nat, s: bytes)
    requires p + 32 <= |m| && |s| <= 32 && At(m, p, s)
    ensures m[p..p + 32][..|s|] == s
  {
    assert m[p..p + 32][..|s|] == m[p..p + |s|];
  }

  /** `uint16/32/64(bytesN(mload(p)))`: the leading bytes of the word. */
  lemma LeadingBytesAreBigEndian(m: bytes, p: nat, s: bytes)
    requires p + 32 <= |m| && |s| <= 32 && At(m, p, s)
    ensures MLoad(m, p) / Pow256(32 - |s|) == FromBE(s)
  {
    WordSplit(m[p..p + 32], |s|);
    WordPrefix(m, p, s);
  }
}
