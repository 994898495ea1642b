/**
 Documents whose last entry, the user data, announces more bytes than the payload still has. The entry loop
 (DKIMOracle.sol:163-207) accepts them, and no user data are ever cut out of the signed bytes.
 */
module Overruns {
  import opened Basics
  import opened CborDecode
  import opened CertParser
  import opened CertChain
  import opened CertBundle
  import opened Cose
  import opened UserData
  import opened Attestation
  import opened AttestationCoding
  import opened Validation
  import opened EndToEnd
  import opened Documents
  import R = Registry

  /** A "user_data" entry of `len` announced bytes, cut off after `part`. */
  datatype Cut = Cut(keyWidth: Width, len: nat, lenWidth: Width, part: bytes) {
    predicate Valid() {
      keyWidth.Fits(|KeyText(Name.UserData)|) && lenWidth.Fits(len) && |part| < len
    }

    function Encode(): (r: bytes)
      requires Valid()
    {
      TextString(Str(KeyText(Name.UserData), keyWidth)) + (Head(2, len, lenWidth) + part)
    }
  }

  /** The envelope of a document with such an entry at its end, and no user data before. */
  predicate CutEnvelope(c: CoseSign1, entries: seq<Entry>, count: nat, w: Width, cut: Cut) {
    && AllValid(entries) && w.Fits(count) && cut.Valid() && Es384(c)
    && c.payload == EncodePayload(entries, count, w) + cut.Encode()
    && Lookup(entries, Name.UserData) == None
  }

  /** The loop reads the entry as if it were whole, and ends there. */
  lemma {:induction false} CutReads(keccak: Hash, tbs: bytes, current: CborElement, ptrs: Ptrs, cut: Cut)
    returns (e: CborElement)
    requires KeysDistinct(keccak) && cut.Valid()
    requires At(tbs, current.End(), cut.Encode()) && current.End() + |cut.Encode()| == |tbs|
    ensures ReadEntries(keccak, tbs, current, |tbs|, ptrs) == Ok(ptrs.(userData := e))
    ensures e.Length() == cut.len && e.start + |cut.part| == |tbs| && SignedPart(tbs, e) == cut.part
  {
    hide Head, ElementAt, TextString, KeysDistinct, NameOf, KeyText, SliceOf, At;
    var key := Str(KeyText(Name.UserData), cut.keyWidth);
    AtSplit(tbs, current.End(), TextString(key), Head(2, cut.len, cut.lenWidth) + cut.part);
    TextStringReads(tbs, current, key);
    var k := NextTextString(tbs, current).value;
    AtSplit(tbs, k.End(), Head(2, cut.len, cut.lenWidth), cut.part);
    HeadDecodes(tbs, k.End(), 2, cut.len, cut.lenWidth, false);
    e := ElementAt(tbs, k.End(), 0x40, false).value;
    NameOfKey(keccak, Name.UserData);
    assert ReadEntry(keccak, tbs, current, ptrs) == Ok((e, ptrs.(userData := e)));
    NothingLeft(keccak, tbs, e, |tbs|, ptrs.(userData := e));
    LastPart(tbs, e, cut.part);
  }

  lemma LastPart(tbs: bytes, e: CborElement, part: bytes)
    requires At(tbs, e.start, part) && e.start + |part| == |tbs| && e.Length() >= |part|
    ensures SignedPart(tbs, e) == part
  {}

  /**
   A document with a cut-off entry parses: to the pointers of the document, and user data that end past the signed
   bytes.
   */
  lemma {:induction false} CutParses(keccak: Hash, c: CoseSign1, entries: seq<Entry>, count: nat, w: Width, cut: Cut)
    returns (p: Ptrs, document: Ptrs)
    requires KeysDistinct(keccak) && CutEnvelope(c, entries, count, w, cut)
    ensures Holds(c.Encode(), c)
    ensures var tbs := SignedBytes(Str(c.payload, c.payloadWidth));
      && Parsed(keccak, c.Encode(), tbs, c.signature, p) && PrefixIntact(keccak, tbs)
      && Describes(tbs, NO_PTRS, document, entries) && p == document.(userData := p.userData)
      && p.userData.Length() == cut.len && p.userData.End() == |tbs| + cut.len - |cut.part|
      && SignedPart(tbs, p.userData) == cut.part
  {
    hide KeysDistinct, DecodeAttestationTbs, ParseAttestation, EncodePayload, AllValid, Describes, PrefixIntact, Holds,
      SignedBytes, CoseSign1.Encode, Lookup, ReadEntries, Cut.Encode, At, SignedPart;
    var tbs := SignedBytes(Str(c.payload, c.payloadWidth));
    var last;
    last, document := PayloadReads(keccak, entries, count, w, cut.Encode(), c.payloadWidth);
    var e := CutReads(keccak, tbs, last, document, cut);
    EnvelopeSigns(c);
    DocumentPrefix(keccak, Str(c.payload, c.payloadWidth));
    EnvelopeParts(c);
    p := document.(userData := e);
  }

  /** It validates exactly when the document without the entry does and at most 2048 bytes are announced. */
  lemma {:induction false} CutValidates(chain: Chain, s: CertChain.Store, tbs: bytes, signature: bytes, p: Ptrs,
                                        document: Ptrs, entries: seq<Entry>, now: nat)
    requires ParseAttestation(chain.keccak, tbs) == Ok(p) && AllValid(entries)
    requires Describes(tbs, NO_PTRS, document, entries)
    requires p == document.(userData := p.userData) && p.userData.Length() > 0 && Lookup(entries, Name.UserData) == None
    ensures var validated := ValidateAttestation(chain, s, tbs, signature, now);
      var expected := ValidateDocument(chain, s, entries, tbs, signature, now);
      && (validated.Ok? <==> p.userData.Length() <= 2048 && expected.Ok?)
      && (validated.Ok? ==> validated.value.1 == expected.value)
  {
    hide ParseAttestation, AllValid, Describes, DocumentAccepted, VerifyBundle, Content, Bundle, AreCerts, SliceOf,
      Lookup, ShapeAccepted;
    NoUserData(tbs, document, entries);
    ShapeOfDocument(chain.keccak, tbs, document, entries);
    ShapeWithUserData(chain.keccak, tbs, document, p.userData);
    StringPointer(tbs, document, entries, Name.Certificate);
    NeverNull(entries, Name.Certificate);
    ArrayPointers(tbs, document, entries);
    CertsSliced(tbs, document.cabundle, Bundle(entries));
  }

  lemma {:induction false} NoUserData(tbs: bytes, p: Ptrs, entries: seq<Entry>)
    requires Describes(tbs, NO_PTRS, p, entries) && Lookup(entries, Name.UserData) == None
    ensures p.userData == UNSET
  {
    assert Get(p, Name.UserData) == Single(p.userData);
  }

  lemma ShapeWithUserData(keccak: Hash, tbs: bytes, p: Ptrs, e: CborElement)
    requires p.userData == UNSET && e.Length() > 0
    ensures ShapeAccepted(keccak, tbs, p.(userData := e)) <==> ShapeAccepted(keccak, tbs, p) && e.Length() <= 2048
  {
    hide RegisterLength, CertLength, SliceOf;
  }

  /**
   What is stored then. For an untagged envelope with a one-byte map head and a cut-off entry that starts as a
   one-entry map, the missing bytes are taken from the signature string, as far as that goes: storing is validating
   the document without the entry, as long as at most 2048 bytes are announced, and storing the bytes so completed.
   */
  lemma {:induction false} CutStored(chain: Chain, s: CertChain.Store, storage: R.Storage, c: CoseSign1,
                                     entries: seq<Entry>, count: nat, w: Width, cut: Cut, now: nat)
    requires KeysDistinct(chain.keccak) && CutEnvelope(c, entries, count, w, cut) && !c.tagged && c.mapWidth == Inline
    requires |cut.part| > 0 && cut.part[0] == ONE_ENTRY
    ensures var tbs := SignedBytes(Str(c.payload, c.payloadWidth));
      var signature := ByteString(c.signature, c.signatureWidth);
      var missing := signature[..Min(cut.len - |cut.part|, |signature|)];
      var validated := ValidateDocument(chain, s, entries, tbs, c.signature, now);
      var stored := R.ParseAndStore(cut.part + missing, storage);
      StoreFromAttestation(chain, s, storage, c.Encode(), now)
      == if cut.len <= 2048 && validated.Ok? && stored.Ok? then Ok((validated.value, stored.value)) else Revert
  {
    hide KeysDistinct, Parsed, ValidateDocument, ValidateAttestation, R.ParseAndStore, SignedBytes,
      StoreFromAttestation, CoseSign1.Encode, AllValid, EncodePayload, Cut.Encode, Holds, PrefixIntact, Shift, At,
      ByteString, SignedPart, SignedEnd, Lookup, Describes;
    var p, document := CutParses(chain.keccak, c, entries, count, w, cut);
    var tbs := SignedBytes(Str(c.payload, c.payloadWidth));
    PartMarked(chain.keccak, c, tbs, p, cut.part);
    var unsigned := OverrunStored(chain, s, storage, c.Encode(), c, tbs, c.signature, p, now);
    FromSignature(c, unsigned, cut.len - |cut.part|);
    ParsedParses(chain.keccak, c.Encode(), tbs, c.signature, p);
    CutValidates(chain, s, tbs, c.signature, p, document, entries, now);
  }

  lemma ParsedParses(keccak: Hash, attestation: bytes, tbs: bytes, signature: bytes, p: Ptrs)
    requires Parsed(keccak, attestation, tbs, signature, p)
    ensures ParseAttestation(keccak, tbs) == Ok(p)
  {
    hide DecodeAttestationTbs, ParseAttestation;
  }

  /** What stands behind the payload is the signature string, and nothing else. */
  lemma FromSignature(c: CoseSign1, unsigned: bytes, n: nat)
    requires c.Valid() && Holds(c.Encode(), c)
    requires At(c.Encode(), SignedEnd(c.Encode(), c), unsigned)
    requires |unsigned| == Min(n, |c.Encode()| - SignedEnd(c.Encode(), c))
    ensures var signature := ByteString(c.signature, c.signatureWidth); unsigned == signature[..Min(n, |signature|)]
  {
    hide CoseSign1.Encode, Holds, ByteString, SignedEnd;
    PayloadStands(c.Encode(), c);
    SignatureLast(c);
    var signature, i := ByteString(c.signature, c.signatureWidth), SignedEnd(c.Encode(), c);
    assert c.Encode()[i..i + |unsigned|] == c.Encode()[i..i + |signature|][..|unsigned|];
  }

  lemma SignatureLast(c: CoseSign1)
    requires c.Valid() && |c.Encode()| > 0
    ensures |c.Encode()| == SignedEnd(c.Encode(), c) + |ByteString(c.signature, c.signatureWidth)|
  {
    hide ByteString, Head;
    EnvelopeParts(c);
  }
}
