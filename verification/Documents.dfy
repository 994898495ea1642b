/** Storing from envelopes over encoded documents, up to a single key of the producer (attestation.go:80-93). */
module Documents {
  import opened Basics
  import opened CborDecode
  import opened CertParser
  import opened CertChain
  import VerifiedCerts
  import opened CertBundle
  import opened Cose
  import opened UserData
  import opened Attestation
  import opened AttestationCoding
  import opened Validation
  import opened TextMaps
  import opened EndToEnd
  import R = Registry
  import P = RegistryProperties
  import F = Flattening

  /** The protected header {1: -35}: the algorithm ES384. */
  const ES384_HEADER: bytes := [0xa1, 0x01, 0x38, 0x22]

  /** An envelope with that protected header, written in the one form whose hash the contract knows. */
  predicate Es384(c: CoseSign1) {
    c.Valid() && c.protected == ES384_HEADER && c.protectedWidth == Inline
  }

  /** The envelope of a document. */
  predicate Envelope(c: CoseSign1, entries: seq<Entry>, count: nat, w: Width) {
    AllValid(entries) && w.Fits(count) && Es384(c) && c.payload == EncodePayload(entries, count, w)
  }

  /** Such an envelope decodes to the signed bytes that the document parser expects, around whatever payload. */
  lemma {:induction false} EnvelopeSigns(c: CoseSign1)
    requires Es384(c)
    ensures |c.RawProtected()| == 5
    ensures SigStructure(c.RawProtected(), c.RawPayload()) == SignedBytes(Str(c.payload, c.payloadWidth))
    ensures DecodeAttestationTbs(c.Encode()) == Ok((SignedBytes(Str(c.payload, c.payloadWidth)), c.signature))
  {
    hide DecodeAttestationTbs;
    EnvelopeDecodes(c);
    ProtectedHeader(c);
    assert SigStructure(c.RawProtected(), c.RawPayload()) == SignedBytes(Str(c.payload, c.payloadWidth)) by {
      hide Head;
      assert TBS_PREFIX == [0x84, 0x6a] + SIGNATURE1 + c.RawProtected() + [0x40];
    }
  }

  lemma ProtectedHeader(c: CoseSign1)
    requires Es384(c)
    ensures c.RawProtected() == [0x44, 0xa1, 0x01, 0x38, 0x22]
  {}

  /** The signed bytes of a document begin with the expected prefix itself. */
  lemma DocumentPrefix(keccak: Hash, payload: Str)
    requires payload.Valid()
    ensures PrefixIntact(keccak, SignedBytes(payload))
  {
    hide ByteString;
    assert SignedBytes(payload)[..18] == TBS_PREFIX;
  }

  /** Decoding and parsing the envelope of a document. */
  lemma {:induction false} DocumentParsed(keccak: Hash, c: CoseSign1, entries: seq<Entry>, count: nat, w: Width)
    returns (p: Ptrs)
    requires KeysDistinct(keccak) && Envelope(c, entries, count, w)
    ensures c.Valid() && AllValid(entries) && Holds(c.Encode(), c)
    ensures var tbs := SignedBytes(Str(c.payload, c.payloadWidth));
      Parsed(keccak, c.Encode(), tbs, c.signature, p) && PrefixIntact(keccak, tbs)
      && Describes(tbs, NO_PTRS, p, entries)
  {
    hide KeysDistinct, DecodeAttestationTbs, ParseAttestation, EncodePayload, AllValid, Describes, PrefixIntact, Holds,
      SignedBytes, CoseSign1.Encode;
    EnvelopeFits(c, entries, count, w);
    EnvelopeSigns(c);
    DocumentParses(keccak, entries, count, w, c.payloadWidth);
    DocumentPrefix(keccak, Str(c.payload, c.payloadWidth));
    EnvelopeParts(c);
    p := ParseAttestation(keccak, SignedBytes(Str(c.payload, c.payloadWidth))).value;
  }

  /** In particular, its user data. */
  lemma {:induction false} DocumentUserData(keccak: Hash, c: CoseSign1, entries: seq<Entry>, count: nat, w: Width,
                                            data: Str)
    returns (p: Ptrs)
    requires KeysDistinct(keccak) && Envelope(c, entries, count, w)
    requires Lookup(entries, Name.UserData) == Some(Value.Bytes(data))
    ensures c.Valid() && Holds(c.Encode(), c)
    ensures var tbs := SignedBytes(Str(c.payload, c.payloadWidth));
      && Parsed(keccak, c.Encode(), tbs, c.signature, p) && PrefixIntact(keccak, tbs)
      && !p.userData.IsNull() && p.userData.Length() == |data.content| && SliceOf(tbs, p.userData) == Ok(data.content)
  {
    hide KeysDistinct, Envelope, Parsed, AllValid, PrefixIntact, Holds, SignedBytes, CoseSign1.Encode, Lookup;
    p := DocumentParsed(keccak, c, entries, count, w);
    assert Get(p, Name.UserData) == Single(p.userData);
    assert Recorded(SignedBytes(Str(c.payload, c.payloadWidth)), Get(p, Name.UserData), Value.Bytes(data));
  }

  /**
   For an untagged envelope with the one-byte empty map and user data that start as a one-entry map, it is
   the user data that are stored.
   */
  lemma {:induction false} OneEntryStored(chain: Chain, s: CertChain.Store, storage: R.Storage, c: CoseSign1,
                                          entries: seq<Entry>, count: nat, w: Width, data: Str, now: nat)
    requires KeysDistinct(chain.keccak) && Envelope(c, entries, count, w) && !c.tagged && c.mapWidth == Inline
    requires Lookup(entries, Name.UserData) == Some(Value.Bytes(data)) && |data.content| > 0
    requires data.content[0] == ONE_ENTRY
    ensures var tbs := SignedBytes(Str(c.payload, c.payloadWidth));
      var validated := ValidateDocument(chain, s, entries, tbs, c.signature, now);
      var stored := R.ParseAndStore(data.content, storage);
      StoreFromAttestation(chain, s, storage, c.Encode(), now)
      == if validated.Ok? && stored.Ok? then Ok((validated.value, stored.value)) else Revert
  {
    hide KeysDistinct, Envelope, Parsed, ValidateDocument, ValidateAttestation, R.ParseAndStore, SignedBytes, Lookup,
      StoreFromAttestation, CoseSign1.Encode, AllValid, EncodePayload, Holds, PrefixIntact, SliceOf, Shift, At;
    EnvelopeFits(c, entries, count, w);
    var p := DocumentUserData(chain.keccak, c, entries, count, w, data);
    var tbs := SignedBytes(Str(c.payload, c.payloadWidth));
    UserDataIsMap(tbs, p.userData, data.content);
    PartMarked(chain.keccak, c, tbs, p, data.content);
    var unsigned := OverrunStored(chain, s, storage, c.Encode(), c, tbs, c.signature, p, now);
    assert data.content + unsigned == data.content;
    ValidationOfDocument(chain, s, entries, count, w, c.payloadWidth, c.signature, now);
  }

  /** In such envelopes the workaround finds what it looks for. */
  lemma PartMarked(keccak: Hash, c: CoseSign1, tbs: bytes, p: Ptrs, part: bytes)
    requires c.Valid() && !c.tagged && c.mapWidth == Inline && Holds(c.Encode(), c) && PrefixIntact(keccak, tbs)
    requires Parsed(keccak, c.Encode(), tbs, c.signature, p) && p.userData.Length() > 0
    requires p.userData.start <= |tbs| && SignedPart(tbs, p.userData) == part && |part| > 0 && part[0] == ONE_ENTRY
    ensures Shift(c.Encode(), c) == 11 && MarkedBefore(c.Encode(), p.userData)
  {
    hide Parsed, PrefixIntact, Holds, CoseSign1.Encode, SliceOf, Shift, At, SigStructure, ByteString, SignedPart;
    EnvelopeParts(c);
    HoldsValid(c.Encode(), c);
    ShiftIsEleven(c.Encode(), c);
    UserDataStarts(keccak, c.Encode(), c, tbs, c.signature, p);
    SignedPartStands(c.Encode(), c, p.userData);
    MarkOfEleven(c.Encode(), p.userData, part, 11);
  }

  /** A document with null user data validates as ever and stores nothing. */
  lemma {:induction false} NullUserDataStoresNothing(chain: Chain, s: CertChain.Store, storage: R.Storage, c: CoseSign1,
                                                     entries: seq<Entry>, count: nat, w: Width, now: nat)
    requires KeysDistinct(chain.keccak) && Envelope(c, entries, count, w) && IsNull(entries, Name.UserData)
    ensures var validated :=
        ValidateDocument(chain, s, entries, SignedBytes(Str(c.payload, c.payloadWidth)), c.signature, now);
      StoreFromAttestation(chain, s, storage, c.Encode(), now)
      == if validated.Ok? then Ok((validated.value, storage)) else Revert
  {
    hide KeysDistinct, Envelope, Parsed, ValidateDocument, SignedBytes, Lookup, Describes, ParseAttestation,
      DecodeAttestationTbs, ExtractBytes, ShapeAccepted, VerifyBundle, SliceOf, SliceAll, CoseSign1.Encode, AllValid,
      EncodePayload, IsNull, PrefixIntact;
    EnvelopeFits(c, entries, count, w);
    var p := DocumentParsed(chain.keccak, c, entries, count, w);
    var tbs := SignedBytes(Str(c.payload, c.payloadWidth));
    StringPointer(tbs, p, entries, Name.UserData);
    NullStored(chain, s, storage, c.Encode(), tbs, c.signature, p, now);
    ValidationOfDocument(chain, s, entries, count, w, c.payloadWidth, c.signature, now);
  }

  lemma NullStored(chain: Chain, s: CertChain.Store, storage: R.Storage, attestation: bytes, tbs: bytes,
                   signature: bytes, p: Ptrs, now: nat)
    requires Parsed(chain.keccak, attestation, tbs, signature, p) && p.userData.IsNull()
    ensures var validated := ValidateAttestation(chain, s, tbs, signature, now);
      StoreFromAttestation(chain, s, storage, attestation, now)
      == if validated.Ok? then Ok((validated.value.1, storage)) else Revert
  {
    hide DecodeAttestationTbs, ParseAttestation, ShapeAccepted, VerifyBundle, SliceOf, SliceAll;
  }

  /**
   Without a user data entry the store always reverts: the unset element reads as the empty string, which is no map.
   */
  lemma {:induction false} AbsentUserDataReverts(chain: Chain, s: CertChain.Store, storage: R.Storage, c: CoseSign1,
                                                 entries: seq<Entry>, count: nat, w: Width, now: nat)
    requires KeysDistinct(chain.keccak) && Envelope(c, entries, count, w) && Lookup(entries, Name.UserData) == None
    ensures StoreFromAttestation(chain, s, storage, c.Encode(), now).Revert?
  {
    hide KeysDistinct, Envelope, Parsed, SignedBytes, Lookup, CoseSign1.Encode, AllValid, StoreFromAttestation,
      PrefixIntact;
    var p := DocumentParsed(chain.keccak, c, entries, count, w);
    assert Get(p, Name.UserData) == Single(UNSET);
    EmptyUserDataReverts(chain, s, storage, c.Encode(), SignedBytes(Str(c.payload, c.payloadWidth)), c.signature, p,
                         now);
  }

  lemma EnvelopeFits(c: CoseSign1, entries: seq<Entry>, count: nat, w: Width)
    requires Envelope(c, entries, count, w)
    ensures AllValid(entries) && w.Fits(count) && c.payload == EncodePayload(entries, count, w)
    ensures c.Valid() && c.payloadWidth.Fits(|EncodePayload(entries, count, w)|)
  {
    hide AllValid, EncodePayload;
  }

  /**
   A single DKIM key, all the way: for a domain without ';' whose pair has no key yet, the registry holds
   exactly the producer's key after the store.
   */
  lemma {:induction false} OneKeyDelivered(chain: Chain, s: CertChain.Store, storage: R.Storage, c: CoseSign1,
                                           entries: seq<Entry>, count: nat, w: Width, dw: Width, pair: TextPair,
                                           domain: bytes, selector: bytes, now: nat)
    requires KeysDistinct(chain.keccak) && Envelope(c, entries, count, w) && !c.tagged && c.mapWidth == Inline
    requires pair.Valid() && pair.key.content == F.FlatKey(domain, selector)
    requires |domain| > 0 && R.SEMICOLON !in domain && |selector| > 0
    requires dw.Fits(|EncodeMap([pair], 1, Inline)|)
    requires Lookup(entries, Name.UserData) == Some(Value.Bytes(Str(EncodeMap([pair], 1, Inline), dw)))
    requires ValidateDocument(chain, s, entries, SignedBytes(Str(c.payload, c.payloadWidth)), c.signature, now).Ok?
    ensures StoreFromAttestation(chain, s, storage, c.Encode(), now).Ok?
    ensures var storage' := StoreFromAttestation(chain, s, storage, c.Encode(), now).value.1;
      storage'.Key((domain, selector)) ==
      if |storage.Key((domain, selector))| > 0 then storage.Key((domain, selector)) else pair.value.content
  {
    hide KeysDistinct, Envelope, ValidateDocument, R.ParseAndStore, SignedBytes, Lookup, StoreFromAttestation,
      EncodePairs, F.FlatKey, R.Split, P.Apply, P.OffersOf, TextPair.Encode;
    var data := EncodeMap([pair], 1, Inline);
    MapHeadByte([pair], 1, Inline);
    OneEntryStored(chain, s, storage, c, entries, count, w, Str(data, dw), now);
    MapOffers([pair], 1, Inline);
    P.StoreIsFold(data, storage);
    assert Offers([pair], 1) == [pair.Offer()];
    P.ApplyOne(storage, pair.Offer());
    F.SplitUndoesFlatten(domain, selector);
  }

  /**
   Nothing is stored from a document without its chain: if storing succeeds, its own bundle starts at the root and is
   stored as CAs, its own certificate as a non-CA; none has expired, and all but the root have begun.
   */
  lemma {:induction false} DocumentUnderChain(chain: Chain, calls: seq<Call>, storage: R.Storage, c: CoseSign1,
                                              entries: seq<Entry>, count: nat, w: Width, now: nat, answer: Answer,
                                              storage': R.Storage)
    requires chain.Valid() && chain.rootHash != VerifiedCerts.ZERO32
    requires KeysDistinct(chain.keccak) && Envelope(c, entries, count, w)
    requires forall k :: 0 <= k < |calls| ==> calls[k].now <= now && chain.keccak(calls[k].cert) != VerifiedCerts.ZERO32
    requires var cert, cabundle := Content(entries, Name.Certificate), Contents(Bundle(entries));
      CollisionFree(chain, calls + BundleCalls(chain, cert, cabundle, VerifiedCerts.ZERO32, now))
    requires c.Valid()
    requires StoreFromAttestation(chain, Run(chain, calls), storage, c.Encode(), now) == Ok((answer, storage'))
    ensures UnderChain(chain, answer.store, Content(entries, Name.Certificate), Contents(Bundle(entries)), now)
  {
    hide KeysDistinct, Envelope, Parsed, StoreFromAttestation, Run, BundleCalls, CollisionFree, Content, Bundle,
      SignedBytes, CoseSign1.Encode, UnderChain, Describes, AllValid, AreCerts, SliceOf, SliceAll;
    var p := DocumentParsed(chain.keccak, c, entries, count, w);
    var tbs := SignedBytes(Str(c.payload, c.payloadWidth));
    StringPointer(tbs, p, entries, Name.Certificate);
    NeverNull(entries, Name.Certificate);
    ArrayPointers(tbs, p, entries);
    CertsSliced(tbs, p.cabundle, Bundle(entries));
    StoredUnderChain(chain, calls, storage, c.Encode(), tbs, c.signature, p, Content(entries, Name.Certificate),
                     Contents(Bundle(entries)), now, answer, storage');
  }
}
