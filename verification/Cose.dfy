/**
 The COSE_Sign1 envelope (DKIMOracle.sol:49-71, 124-150; sections 4.2 and 4.4 of RFC 9052): rebuilding
 the signed bytes in memory, decoding the envelope, and where the payload comes to lie.
 */
module Cose {
  import opened Basics
  import opened LibBytes
  import opened CborDecode

  /** "Signature1". */
  const SIGNATURE1: bytes := [0x53, 0x69, 0x67, 0x6e, 0x61, 0x74, 0x75, 0x72, 0x65, 0x31]

  /**
   The Sig_structure: an array of four with the context text string, the protected headers as encoded,
   an empty byte string of external data, and the payload as encoded.
   */
  function SigStructure(rawProtected: bytes, rawPayload: bytes): bytes {
    [0x84, 0x6a] + SIGNATURE1 + rawProtected + [0x40] + rawPayload
  }

  // ---------------------------------------------------------------- built in memory

  /** A Solidity string literal, allocated at the next free address. */
  method NewLiteral(mem: array<byte>, free: nat, s: bytes) returns (p: nat, free': nat)
    requires free + |s| + 32 <= mem.Length && |s| < TWO_64
    modifies mem
    ensures p == free && free' == free + 32 + (|s| + 31) / 32 * 32
    ensures IsBytes(mem[..], p, s)
    ensures mem[..][..free] == old(mem[..])[..free]
  {
    p, free' := NewBytes(mem, free, |s|);
    ghost var m := mem[..];
    forall i | p + 32 <= i < p + 32 + |s| {
      mem[i] := s[i - p - 32];
    }
    LiteralWritten(m, mem[..], p, s);
  }

  lemma LiteralWritten(m: bytes, m': bytes, p: nat, s: bytes)
    requires IsBytes(m, p, Zeros(|s|)) && |m'| == |m|
    requires forall i {:trigger m'[i]} :: 0 <= i < |m| ==>
      m'[i] == if p + 32 <= i < p + 32 + |s| then s[i - p - 32] else m[i]
    ensures IsBytes(m', p, s) && m'[..p] == m[..p]
  {
    hide FromBE;
    assert m'[p..p + 32] == m[p..p + 32];
    assert m'[p + 32..p + 32 + |s|] == s;
  }

  /** The frame: the two array and string heads and the empty byte string's head. */
  function Frame(a: nat, b: nat): (v: bytes)
    ensures |v| == 13 + a + b
  {
    Zeros(13 + a + b)[0 := 0x84][1 := 0x6a][12 + a := 0x40]
  }

  method NewFrame(mem: array<byte>, free: nat, a: nat, b: nat) returns (p: nat, free': nat)
    requires free + 13 + a + b + 32 <= mem.Length && 13 + a + b < TWO_64
    modifies mem
    ensures p == free && free' == free + 32 + (13 + a + b + 31) / 32 * 32
    ensures IsBytes(mem[..], p, Frame(a, b))
    ensures mem[..][..free] == old(mem[..])[..free]
  {
    hide FromBE, Frame;
    p, free' := NewBytes(mem, free, 13 + a + b);
    ghost var m := mem[..];
    WriteHeads(mem, p, a);
    FrameWritten(m, mem[..], p, a, b);
  }

  method WriteHeads(mem: array<byte>, p: nat, a: nat)
    requires p + 45 + a <= mem.Length
    modifies mem
    ensures mem[..] == old(mem[..])[p + 32 := 0x84][p + 33 := 0x6a][p + 44 + a := 0x40]
  {
    mem[p + 32] := 0x84;
    mem[p + 32 + 1] := 0x6a;
    mem[p + 32 + 12 + a] := 0x40;
  }

  lemma FrameWritten(m: bytes, m': bytes, p: nat, a: nat, b: nat)
    requires IsBytes(m, p, Zeros(13 + a + b))
    requires m' == m[p + 32 := 0x84][p + 33 := 0x6a][p + 44 + a := 0x40]
    ensures IsBytes(m', p, Frame(a, b)) && m'[..p] == m[..p]
  {
    hide FromBE;
    var n := 13 + a + b;
    assert m'[p..p + 32] == m[p..p + 32];
    assert m'[p + 32..p + 32 + n] == m[p + 32..p + 32 + n][0 := 0x84][1 := 0x6a][12 + a := 0x40];
  }

  lemma FrameFilled(rawProtected: bytes, rawPayload: bytes)
    ensures var a, b := |rawProtected|, |rawPayload|;
      Patch(Patch(Patch(Frame(a, b), 2, SIGNATURE1), 12, rawProtected), 13 + a, rawPayload)
      == SigStructure(rawProtected, rawPayload)
  {}

  /** What stands in a `bytes` value stays when everything below the next allocation stays. */
  lemma KeptBytes(m: bytes, m': bytes, n: nat, p: nat, v: bytes)
    requires IsBytes(m, p, v) && p + 32 + |v| <= n <= |m| && n <= |m'| && m[..n] == m'[..n]
    ensures IsBytes(m', p, v)
  {
    hide FromBE;
    AtKept(m, m', n, p, m[p..p + 32]);
    AtKept(m, m', n, p + 32, v);
  }

  /** Copies `s` over part of the `bytes` value at `p`. */
  method PatchInMemory(mem: array<byte>, p: nat, i: nat, src: nat, len: nat, ghost v: bytes, ghost s: bytes)
    requires IsBytes(mem[..], p, v) && At(mem[..], src, s) && |s| == len && i + len <= |v|
    requires Copyable(p + 32 + i, src, len)
    requires p + 32 + i + len + 32 <= mem.Length && src + len + 32 <= mem.Length
    modifies mem
    ensures IsBytes(mem[..], p, Patch(v, i, s)) && mem[..][..p] == old(mem[..])[..p]
  {
    hide FromBE, Patch;
    ghost var m := mem[..];
    MemCpy(mem, p + 32 + i, src, len);
    PatchedBytes(m, mem[..], p, v, i, src, len, s);
  }

  /**
   `_constructAttestationTbs`, with its three masked copies: for all lengths the new `bytes` value is
   the Sig_structure, and everything allocated before is untouched.
   */
  method ConstructAttestationTbs(mem: array<byte>, free: nat, protectedAt: nat, protectedLength: nat,
                                 payloadAt: nat, payloadLength: nat, ghost rawProtected: bytes, ghost rawPayload: bytes)
    returns (tbs: nat, free': nat)
    requires IsBytes(mem[..], protectedAt, rawProtected) && |rawProtected| == protectedLength
    requires IsBytes(mem[..], payloadAt, rawPayload) && |rawPayload| == payloadLength
    requires protectedAt + 32 + protectedLength <= free && payloadAt + 32 + payloadLength <= free
    requires free + protectedLength + payloadLength + 256 <= mem.Length && 13 + protectedLength + payloadLength < TWO_64
    modifies mem
    ensures tbs == free <= free' && IsBytes(mem[..], tbs, SigStructure(rawProtected, rawPayload))
    ensures mem[..][..free] == old(mem[..])[..free]
  {
    hide *;
    ghost var m0 := mem[..];
    var sig;
    tbs, sig, free' := NewParts(mem, free, protectedLength, payloadLength);
    SourceKept(m0, mem[..], free, protectedAt, rawProtected);
    SourceKept(m0, mem[..], free, payloadAt, rawPayload);
    CopyParts(mem, tbs, sig + 32, protectedAt + 32, protectedLength, payloadAt + 32, payloadLength, rawProtected,
              rawPayload);
    FrameFilled(rawProtected, rawPayload);
  }

  lemma SourceKept(m: bytes, m': bytes, n: nat, p: nat, v: bytes)
    requires IsBytes(m, p, v) && p + 32 + |v| <= n <= |m| && n <= |m'| && m[..n] == m'[..n]
    ensures At(m', p + 32, v)
  {
    hide FromBE;
    AtKept(m, m', n, p + 32, v);
  }

  /** The frame and, above it, the context string. */
  method NewParts(mem: array<byte>, free: nat, a: nat, b: nat) returns (tbs: nat, sig: nat, free': nat)
    requires free + a + b + 256 <= mem.Length && 13 + a + b < TWO_64
    modifies mem
    ensures tbs == free && free + 32 + 13 + a + b <= sig && sig + 74 <= mem.Length && free <= free'
    ensures IsBytes(mem[..], tbs, Frame(a, b)) && At(mem[..], sig + 32, SIGNATURE1)
    ensures mem[..][..free] == old(mem[..])[..free]
  {
    hide FromBE, Frame, At;
    tbs, free' := NewFrame(mem, free, a, b);
    ghost var m := mem[..];
    sig, free' := NewLiteral(mem, free', SIGNATURE1);
    KeptBytes(m, mem[..], sig, tbs, Frame(a, b));
    assert mem[..][..free] == mem[..][..sig][..free] && m[..free] == m[..sig][..free];
  }

  method CopyParts(mem: array<byte>, tbs: nat, sigSrc: nat, protectedSrc: nat, protectedLength: nat,
                   payloadSrc: nat, payloadLength: nat, ghost rawProtected: bytes, ghost rawPayload: bytes)
    requires IsBytes(mem[..], tbs, Frame(protectedLength, payloadLength))
    requires At(mem[..], sigSrc, SIGNATURE1) && sigSrc >= tbs + 32 + 13 + protectedLength + payloadLength
    requires At(mem[..], protectedSrc, rawProtected) && |rawProtected| == protectedLength
    requires protectedSrc + protectedLength <= tbs
    requires At(mem[..], payloadSrc, rawPayload) && |rawPayload| == payloadLength && payloadSrc + payloadLength <= tbs
    requires sigSrc + 10 + 32 <= mem.Length && tbs + 45 + protectedLength + payloadLength + 32 <= mem.Length
    modifies mem
    ensures IsBytes(mem[..], tbs,
                    Patch(Patch(Patch(Frame(protectedLength, payloadLength), 2, SIGNATURE1), 12, rawProtected),
                          13 + protectedLength, rawPayload))
    ensures mem[..][..tbs] == old(mem[..])[..tbs]
  {
    hide FromBE, Frame, Patch, IsBytes, At;
    ghost var m0 := mem[..];
    ghost var v := Frame(protectedLength, payloadLength);
    PatchInMemory(mem, tbs, 2, sigSrc, 10, v, SIGNATURE1);
    AtKept(m0, mem[..], tbs, protectedSrc, rawProtected);
    ghost var v1 := Patch(v, 2, SIGNATURE1);
    PatchInMemory(mem, tbs, 12, protectedSrc, protectedLength, v1, rawProtected);
    AtKept(m0, mem[..], tbs, payloadSrc, rawPayload);
    PatchInMemory(mem, tbs, 13 + protectedLength, payloadSrc, payloadLength, Patch(v1, 12, rawProtected), rawPayload);
  }

  // ---------------------------------------------------------------- the envelope

  /** A definite byte string whose length is written in width `w`. */
  function ByteString(content: bytes, w: Width): bytes
    requires w.Fits(|content|)
  {
    Head(2, |content|, w) + content
  }

  /** COSE_Sign1 with `entries` announced for the unprotected header map, which the contract takes to be empty. */
  datatype CoseSign1 = CoseSign1(tagged: bool, protected: bytes, protectedWidth: Width, entries: nat, mapWidth: Width,
                                 payload: bytes, payloadWidth: Width, signature: bytes, signatureWidth: Width)
  {
    predicate Valid() {
      && protectedWidth.Fits(|protected|) && mapWidth.Fits(entries)
      && payloadWidth.Fits(|payload|) && signatureWidth.Fits(|signature|)
    }

    function RawProtected(): bytes
      requires Valid()
    {
      ByteString(protected, protectedWidth)
    }

    function RawPayload(): bytes
      requires Valid()
    {
      ByteString(payload, payloadWidth)
    }

    function MapHead(): bytes
      requires Valid()
    {
      Head(5, entries, mapWidth)
    }

    function Parts(): bytes
      requires Valid()
    {
      RawProtected() + (MapHead() + (RawPayload() + ByteString(signature, signatureWidth)))
    }

    /** The optional tag 18 and the head of the array of four. */
    function Opening(): bytes { if tagged then [TAG_18, 0x84] else [0x84] }

    function Encode(): bytes
      requires Valid()
    {
      Opening() + Parts()
    }
  }

  /** The first byte that is taken for tag 18 (section 2 of RFC 9052). */
  const TAG_18: byte := 0xd2

  function Offset(attestation: bytes): nat
    requires |attestation| > 0
  {
    if attestation[0] == TAG_18 then 2 else 1
  }

  /** The parts of `c` stand right behind the skipped bytes of `s`, whatever these are and whatever comes after. */
  ghost predicate Holds(s: bytes, c: CoseSign1) {
    c.Valid() && |s| > 0 && At(s, Offset(s), c.Parts())
  }

  /** `decodeAttestationTbs`: the bytes that were signed, and the signature. */
  function DecodeAttestationTbs(attestation: bytes): Result<(bytes, bytes)> {
    var _ :- ByteAt(attestation, 0);
    var offset := Offset(attestation);
    var protected :- ByteStringAt(attestation, offset);
    var unprotected :- NextMap(attestation, protected);
    var payload :- NextByteString(attestation, unprotected);
    var signaturePtr :- NextByteString(attestation, payload);
    var rawProtected :- Slice(attestation, offset, protected.End() - offset);
    var rawPayload :- Slice(attestation, unprotected.End(), payload.End() - unprotected.End());
    var signature :- SliceOf(attestation, signaturePtr);
    Ok((SigStructure(rawProtected, rawPayload), signature))
  }

  /** A byte string in place decodes to its length and slices to its content and to its whole encoding. */
  lemma ByteStringDecodes(s: bytes, i: nat, content: bytes, w: Width)
    requires w.Fits(|content|) && At(s, i, ByteString(content, w))
    ensures var e := CborElement(0x40, i + 1 + w.Bytes(), |content|);
      && ByteStringAt(s, i) == Ok(e) && e.End() == i + |ByteString(content, w)|
      && SliceOf(s, e) == Ok(content) && Slice(s, i, e.End() - i) == Ok(ByteString(content, w))
  {
    hide Head, FromBE, ToBE, ElementAt;
    AtSplit(s, i, Head(2, |content|, w), content);
    HeadDecodes(s, i, 2, |content|, w, true);
  }

  /** The array head is not looked at: only its one byte is skipped. */
  lemma PartsDecode(attestation: bytes, c: CoseSign1)
    requires Holds(attestation, c)
    ensures DecodeAttestationTbs(attestation) == Ok((SigStructure(c.RawProtected(), c.RawPayload()), c.signature))
  {
    hide Head, FromBE, ToBE, ElementAt, SigStructure, ByteString, At, Slice;
    var i0 := Offset(attestation);
    var i1 := i0 + |c.RawProtected()|;
    var i2 := i1 + |c.MapHead()|;
    var i3 := i2 + |c.RawPayload()|;
    AtSplit(attestation, i0, c.RawProtected(),
            c.MapHead() + (c.RawPayload() + ByteString(c.signature, c.signatureWidth)));
    AtSplit(attestation, i1, c.MapHead(), c.RawPayload() + ByteString(c.signature, c.signatureWidth));
    AtSplit(attestation, i2, c.RawPayload(), ByteString(c.signature, c.signatureWidth));
    ByteStringDecodes(attestation, i0, c.protected, c.protectedWidth);
    HeadDecodes(attestation, i1, 5, c.entries, c.mapWidth, true);
    ByteStringDecodes(attestation, i2, c.payload, c.payloadWidth);
    ByteStringDecodes(attestation, i3, c.signature, c.signatureWidth);
  }

  /** Round trip: an encoded envelope, tagged or not, decodes to its Sig_structure and its signature. */
  lemma EnvelopeDecodes(c: CoseSign1)
    requires c.Valid()
    ensures DecodeAttestationTbs(c.Encode()) == Ok((SigStructure(c.RawProtected(), c.RawPayload()), c.signature))
  {
    hide Head, FromBE, ToBE, ElementAt, SigStructure, ByteString, DecodeAttestationTbs;
    EnvelopeParts(c);
    PartsDecode(c.Encode(), c);
  }

  lemma EnvelopeParts(c: CoseSign1)
    requires c.Valid()
    ensures Holds(c.Encode(), c) && Offset(c.Encode()) == |c.Opening()|
    ensures c.Encode()[0] == TAG_18 <==> c.tagged
  {
    hide Head, ByteString;
    var parts := c.Parts();
    assert c.Encode()[|c.Opening()|..|c.Opening()| + |parts|] == parts;
  }

  /**
   Conversely, whatever decodes holds the parts of an envelope right after its first one or two bytes
   (with any announced number of unprotected entries, none of which is read).
   */
  lemma DecodedIsEnvelope(attestation: bytes) returns (c: CoseSign1)
    requires DecodeAttestationTbs(attestation).Ok?
    ensures Holds(attestation, c)
    ensures DecodeAttestationTbs(attestation).value == (SigStructure(c.RawProtected(), c.RawPayload()), c.signature)
  {
    hide Head, FromBE, ToBE, ElementAt, SigStructure, ByteString, At;
    var i0 := Offset(attestation);
    var protected := ByteStringAt(attestation, i0).value;
    var unprotected := NextMap(attestation, protected).value;
    var payload := NextByteString(attestation, unprotected).value;
    var signature := NextByteString(attestation, payload).value;
    ElementNotNull(attestation, i0, 0x40);
    ElementNotNull(attestation, protected.End(), 0xa0);
    ElementNotNull(attestation, unprotected.End(), 0x40);
    ElementNotNull(attestation, payload.End(), 0x40);
    var s, sw := DecodedIsByteString(attestation, payload.End());
    var p, pw := DecodedIsByteString(attestation, i0);
    var d, dw := DecodedIsByteString(attestation, unprotected.End());
    var mw := DecodedElementIsHead(attestation, protected.End(), 5, true);
    HeadDecodes(attestation, protected.End(), 5, unprotected.value, mw, true);
    c := CoseSign1(false, p, pw, unprotected.value, mw, d, dw, s, sw);
    AtSplit(attestation, unprotected.End(), c.RawPayload(), ByteString(s, sw));
    AtSplit(attestation, protected.End(), c.MapHead(), c.RawPayload() + ByteString(s, sw));
    AtSplit(attestation, i0, c.RawProtected(), c.MapHead() + (c.RawPayload() + ByteString(s, sw)));
    PartsDecode(attestation, c);
  }

  lemma ElementNotNull(s: bytes, i: nat, t: nat)
    requires ElementAt(s, i, t, true).Ok?
    ensures !ElementAt(s, i, t, true).value.IsNull() && ElementAt(s, i, t, true).value.cborType == t
    ensures ElementAt(s, i, t, true).value.start > i
  {}

  lemma DecodedIsByteString(s: bytes, i: nat) returns (content: bytes, w: Width)
    requires ByteStringAt(s, i).Ok? && !ByteStringAt(s, i).value.IsNull() && ByteStringAt(s, i).value.End() <= |s|
    ensures w.Fits(|content|) && At(s, i, ByteString(content, w))
    ensures ByteStringAt(s, i).value.End() == i + |ByteString(content, w)|
  {
    hide Head, FromBE, ToBE, ElementAt;
    var e := ByteStringAt(s, i).value;
    w := DecodedElementIsHead(s, i, 2, true);
    HeadDecodes(s, i, 2, e.value, w, true);
    content := s[e.start..e.End()];
    AtSplit(s, i, Head(2, |content|, w), content);
  }

  // ---------------------------------------------------------------- where the payload comes to lie

  /** How much further on a payload byte lies in the Sig_structure than in the attestation. */
  function Shift(s: bytes, c: CoseSign1): int
    requires |s| > 0 && c.Valid()
  {
    13 - Offset(s) - |c.MapHead()|
  }

  /** Exactly attestations without a tag and with a one-byte map head are shifted by eleven. */
  lemma ShiftIsEleven(s: bytes, c: CoseSign1)
    requires |s| > 0 && c.Valid()
    ensures Shift(s, c) == 11 <==> s[0] != TAG_18 && c.mapWidth == Inline
    ensures s[0] == TAG_18 && c.mapWidth == Inline ==> Shift(s, c) == 10
    ensures 2 <= Shift(s, c) <= 11
  {}

  /** Where the signed payload ends in the attestation: behind it come the signature and anything else. */
  function SignedEnd(s: bytes, c: CoseSign1): nat
    requires |s| > 0 && c.Valid()
  {
    Offset(s) + |c.RawProtected()| + |c.MapHead()| + |c.RawPayload()|
  }

  /** The raw payload stands as a whole at its place, and bytes of the signature follow it. */
  lemma PayloadStands(s: bytes, c: CoseSign1)
    requires Holds(s, c)
    ensures At(s, SignedEnd(s, c) - |c.RawPayload()|, c.RawPayload())
    ensures At(s, SignedEnd(s, c), ByteString(c.signature, c.signatureWidth)) && SignedEnd(s, c) < |s|
    ensures SignedEnd(s, c) == |SigStructure(c.RawProtected(), c.RawPayload())| - Shift(s, c)
  {
    hide Head, FromBE, ToBE, ByteString, At, Offset;
    var i, signature := Offset(s), ByteString(c.signature, c.signatureWidth);
    AtSplit(s, i, c.RawProtected(), c.MapHead() + (c.RawPayload() + signature));
    AtSplit(s, i + |c.RawProtected()|, c.MapHead(), c.RawPayload() + signature);
    AtSplit(s, i + |c.RawProtected()| + |c.MapHead()|, c.RawPayload(), signature);
    SignatureFollows(s, c);
  }

  lemma SignatureFollows(s: bytes, c: CoseSign1)
    requires |s| > 0 && c.Valid() && At(s, SignedEnd(s, c), ByteString(c.signature, c.signatureWidth))
    ensures SignedEnd(s, c) < |s|
  {
    hide ToBE;
  }

  /** Every part of the raw payload lies `Shift` bytes earlier in the attestation. */
  lemma PayloadShifted(s: bytes, c: CoseSign1, p: nat, data: bytes)
    requires Holds(s, c)
    requires At(SigStructure(c.RawProtected(), c.RawPayload()), p, data) && p >= 13 + |c.RawProtected()|
    ensures p >= Shift(s, c) && At(s, p - Shift(s, c), data)
    ensures p - Shift(s, c) + |data| <= SignedEnd(s, c) < |s|
  {
    hide Head, FromBE, ToBE, ByteString, At, SigStructure, Offset;
    var k := p - 13 - |c.RawProtected()|;
    PayloadInTbs(c, k, data);
    PayloadStands(s, c);
    AtSub(s, SignedEnd(s, c) - |c.RawPayload()|, c.RawPayload(), k, |data|);
    ShiftIsEleven(s, c);
  }

  lemma PayloadInTbs(c: CoseSign1, k: nat, data: bytes)
    requires c.Valid() && At(SigStructure(c.RawProtected(), c.RawPayload()), 13 + |c.RawProtected()| + k, data)
    ensures k + |data| <= |c.RawPayload()| && c.RawPayload()[k..k + |data|] == data
  {
    hide ByteString;
    var tbs, n := SigStructure(c.RawProtected(), c.RawPayload()), 13 + |c.RawProtected()|;
    assert tbs[n + k..n + k + |data|] == c.RawPayload()[k..k + |data|];
  }

  // ---------------------------------------------------------------- the bytes themselves

  /**
   The framing bytes are an array of four, the text string "Signature1", an empty byte string and tag 18 (sections 2 and
   4.4 of RFC 9052; section 3 of RFC 8949).
   */
  lemma FramingBytes()
    ensures SIGNATURE1 == Ascii("Signature1") && Head(3, |SIGNATURE1|, Inline) == [0x6a]
    ensures Head(4, 4, Inline) == [0x84] && Head(2, 0, Inline) == [0x40] && Head(6, 18, Inline) == [TAG_18] == [0xd2]
  {}

  /** And an envelope opens with that array, behind tag 18 if it has one. */
  lemma OpeningBytes(c: CoseSign1)
    ensures c.Opening() == (if c.tagged then Head(6, 18, Inline) else []) + Head(4, 4, Inline)
  {}

  /** So the Sig_structure starts with its array head and the context, whatever follows. */
  lemma SigStructureBegins(rawProtected: bytes, rawPayload: bytes)
    ensures SigStructure(rawProtected, rawPayload)
         == Head(4, 4, Inline) + (Head(3, 10, Inline) + Ascii("Signature1"))
            + rawProtected + Head(2, 0, Inline) + rawPayload
  {
    hide Head, Ascii;
    FramingBytes();
  }
}
