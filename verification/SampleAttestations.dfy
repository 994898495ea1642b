/**
 Attestations of the sample world: documents that validate, and what becomes of their user data.
 */
module SampleAttestations {
  import opened Basics
  import opened LibBytes
  import opened CborDecode
  import opened CertChain
  import opened CertProperties
  import opened CertBundle
  import opened Cose
  import opened Attestation
  import opened AttestationCoding
  import opened AttestationFacts
  import opened Validation
  import opened SampleCertificates
  import opened TextMaps
  import opened EndToEnd
  import opened Documents
  import opened Overruns
  import VerifiedCerts
  import R = Registry
  import P = RegistryProperties
  import F = Flattening

  lemma KeyTextInjective(a: Name, b: Name)
    requires KeyText(a) == KeyText(b)
    ensures a == b
  {
    assert |KeyText(a)| == |KeyText(b)| && KeyText(a)[0] == KeyText(b)[0];
  }

  lemma SampleKeysDistinct()
    ensures KeysDistinct(SampleHash)
  {
    hide SampleHash, KeyText;
    forall a: Name, b: Name | KeyHash(SampleHash, a) == KeyHash(SampleHash, b) ensures a == b {
      ShortHash(KeyText(a), KeyText(b));
      KeyTextInjective(a, b);
    }
  }

  // ---------------------------------------------------------------- documents

  /** One register of each length. */
  function SampleRegisters(): seq<Pcr> {
    [Pcr(0, Inline, Str(Zeros(32), Two)), Pcr(1, Inline, Str(Zeros(48), Two)), Pcr(2, Inline, Str(Zeros(64), Two))]
  }

  /** A document that asks for the sample client certificate under the root. */
  function BaseDocument(): seq<Entry> {
    [Entry(ModuleId, Inline, Value.Text(Str([0x6d], Inline))),
     Entry(Timestamp, Inline, Value.Uint(1, Inline)),
     Entry(Digest, Inline, Value.Text(Str(SHA384_NAME, Inline))),
     Entry(Name.Certificate, Inline, Value.Bytes(Str(ClientCert(), Two))),
     Entry(PublicKey, Inline, Value.Null(0xf6)),
     Entry(Cabundle, Inline, Value.Certs([Str(ROOT, Inline)], Inline)),
     Entry(Pcrs, Inline, Value.PcrMap(SampleRegisters(), Inline))]
  }

  function SampleDocument(userData: Option<bytes>): seq<Entry> {
    match userData
    case None => BaseDocument()
    case Some(data) => BaseDocument() + [Entry(Name.UserData, Inline, Value.Bytes(Str(data, Two)))]
  }

  lemma {:induction false} TwoFits(n: nat)
    requires n < 65536
    ensures Two.Fits(n) && Four.Fits(n)
  {
    assert Pow256(2) == 65536;
    Pow256Monotone(2, 4);
  }

  lemma {:induction false} ClientLength()
    ensures 31 <= |ClientCert()| < 1024
  {
    hide SampleBytes;
    SampleStands(2, CLIENT_NAME, false, Zeros(97));
  }

  lemma {:induction false} DocumentValid(userData: Option<bytes>)
    requires userData.Some? ==> |userData.value| < 1024
    ensures AllValid(SampleDocument(userData)) && NamesDistinct(SampleDocument(userData))
  {
    hide SampleBytes, Pow256, SampleRegisters, ValidPcrs, IndicesFit;
    ClientLength();
    TwoFits(|ClientCert()|);
    TwoFits(32);
    TwoFits(48);
    TwoFits(64);
    RegistersValid();
    if userData.Some? { TwoFits(|userData.value|); }
    EntryValidities();
  }

  lemma {:induction false} EntryValidities()
    requires Two.Fits(|ClientCert()|) && ValidPcrs(SampleRegisters()) && IndicesFit(SampleRegisters(), 3)
    ensures forall i {:trigger BaseDocument()[i]} :: 0 <= i < 7 ==> BaseDocument()[i].Valid()
  {
    hide SampleBytes, Pow256, KeyText, ValidPcrs, IndicesFit;
    var d := BaseDocument();
    assert d[0].Valid() && d[1].Valid() && d[2].Valid() && d[3].Valid() && d[4].Valid() && d[5].Valid() && d[6].Valid();
  }

  lemma {:induction false} HeadLength(major: nat, value: nat, w: Width)
    requires major < 8 && w.Fits(value)
    ensures |Head(major, value, w)| <= 9
  {
    hide ToBE;
  }

  /** No entry of the sample documents is longer than 2000 bytes. */
  lemma {:induction false} EntryLength(e: Entry)
    requires e.Valid() && (e.value.Text? || e.value.Bytes? ==> |e.value.s.content| < 1024)
    requires e.value.Certs? ==> e.value.certs == [Str(ROOT, Inline)]
    requires e.value.PcrMap? ==> e.value.pcrs == SampleRegisters()
    ensures |EncodeEntry(e)| <= 2000
  {
    hide Head, ToBE, Pow256, Zeros, EncodeCerts, EncodePcrs, SampleRegisters, ValidPcrs, KeyText;
    HeadLength(3, |KeyText(e.name)|, e.keyWidth);
    match e.value
    case Text(s) => HeadLength(3, |s.content|, s.w);
    case Bytes(s) => HeadLength(2, |s.content|, s.w);
    case Null(_) =>
    case Uint(n, w) => HeadLength(0, n, w);
    case Certs(certs, w) =>
      HeadLength(4, |certs|, w);
      OneCertLength(certs);
    case PcrMap(pcrs, w) =>
      HeadLength(5, |pcrs|, w);
      TwoFits(32);
      TwoFits(48);
      TwoFits(64);
      RegistersValid();
      RegistersLength(pcrs);
  }

  lemma {:induction false} OneCertLength(certs: seq<Str>)
    requires certs == [Str(ROOT, Inline)] && ValidCerts(certs)
    ensures |EncodeCerts(certs)| <= 10
  {
    hide Head;
    HeadLength(2, 1, Inline);
    assert certs[1..] == [];
  }

  lemma {:induction false} RegistersLength(pcrs: seq<Pcr>)
    requires ValidPcrs(pcrs) && forall i {:trigger pcrs[i]} :: 0 <= i < |pcrs| ==> |pcrs[i].value.content| <= 64
    ensures |EncodePcrs(pcrs)| <= 100 * |pcrs|
    decreases |pcrs|
  {
    hide Head, Pow256;
    if |pcrs| > 0 {
      var p := pcrs[0];
      assert p.Valid();
      HeadLength(0, p.index, p.indexWidth);
      HeadLength(2, |p.value.content|, p.value.w);
      RegistersLength(pcrs[1..]);
    }
  }

  lemma {:induction false} RegistersValid()
    requires Two.Fits(32) && Two.Fits(48) && Two.Fits(64)
    ensures |SampleRegisters()| == 3 && ValidPcrs(SampleRegisters()) && IndicesFit(SampleRegisters(), 3)
    ensures forall i {:trigger SampleRegisters()[i]} :: 0 <= i < 3 ==> |SampleRegisters()[i].value.content| <= 64
  {
    hide Pow256;
  }

  lemma {:induction false} EntriesLength(entries: seq<Entry>)
    requires AllValid(entries) && forall i {:trigger entries[i]} :: 0 <= i < |entries| ==>
      |EncodeEntry(entries[i])| <= 2000
    ensures |EncodeEntries(entries)| <= 2000 * |entries|
    decreases |entries|
  {
    hide EncodeEntry, Entry.Valid;
    if |entries| == 0 {
    } else {
      EntriesLength(entries[1..]);
    }
  }

  lemma {:induction false} PayloadFits(userData: Option<bytes>)
    requires userData.Some? ==> |userData.value| < 1024
    ensures AllValid(SampleDocument(userData)) && Four.Fits(|EncodePayload(SampleDocument(userData), 0, Inline)|)
    ensures |EncodePayload(SampleDocument(userData), 0, Inline)| < 20000
  {
    hide EncodeEntry, EncodeEntries, Head, SampleBytes, Pow256, Entry.Valid, Zeros;
    DocumentValid(userData);
    ClientLength();
    var entries := SampleDocument(userData);
    forall i {:trigger entries[i]} | 0 <= i < |entries| ensures |EncodeEntry(entries[i])| <= 2000 {
      EntryLength(entries[i]);
    }
    EntriesLength(entries);
    HeadLength(5, 0, Inline);
    TwoFits(|EncodePayload(entries, 0, Inline)|);
  }

  /** The sample documents meet the demands on documents. */
  lemma {:induction false} SampleLookups(userData: Option<bytes>)
    requires userData.Some? ==> |userData.value| < 1024
    ensures var d := SampleDocument(userData);
      && Lookup(d, ModuleId) == Some(Value.Text(Str([0x6d], Inline)))
      && Lookup(d, Timestamp) == Some(Value.Uint(1, Inline))
      && Lookup(d, Digest) == Some(Value.Text(Str(SHA384_NAME, Inline)))
      && Lookup(d, Name.Certificate) == Some(Value.Bytes(Str(ClientCert(), Two)))
      && Lookup(d, PublicKey) == Some(Value.Null(0xf6))
      && Lookup(d, Cabundle) == Some(Value.Certs([Str(ROOT, Inline)], Inline))
      && Lookup(d, Pcrs) == Some(Value.PcrMap(SampleRegisters(), Inline))
      && Lookup(d, Nonce) == None
      && Lookup(d, Name.UserData) == if userData.Some? then Some(Value.Bytes(Str(userData.value, Two))) else None
  {
    hide Lookup, SampleBytes, Zeros, AllValid;
    DocumentValid(userData);
    var d := SampleDocument(userData);
    LookupAt(d, 0);
    LookupAt(d, 1);
    LookupAt(d, 2);
    LookupAt(d, 3);
    LookupAt(d, 4);
    LookupAt(d, 5);
    LookupAt(d, 6);
    NotLookedUp(d, Nonce);
    if userData.Some? { LookupAt(d, 7); } else { NotLookedUp(d, Name.UserData); }
  }

  lemma {:induction false} LookupAt(entries: seq<Entry>, i: nat)
    requires i < |entries| && NamesDistinct(entries)
    ensures Lookup(entries, entries[i].name) == Some(entries[i].value)
  {
    LookupIsMembership(entries, entries[i].name, entries[i].value);
  }

  lemma {:induction false} NotLookedUp(entries: seq<Entry>, name: Name)
    requires NamesDistinct(entries) && forall i {:trigger entries[i]} :: 0 <= i < |entries| ==> entries[i].name != name
    ensures Lookup(entries, name) == None
  {
    hide Lookup;
    if Lookup(entries, name).Some? { LookupIsMembership(entries, name, Lookup(entries, name).value); }
  }

  lemma {:induction false} SampleDemands(userData: Option<bytes>)
    requires userData.Some? ==> |userData.value| < 1024
    ensures var d := SampleDocument(userData);
      && DocumentAccepted(SampleHash, d) && Content(d, Name.Certificate) == ClientCert()
      && Contents(Bundle(d)) == [ROOT]
  {
    hide Lookup, SampleBytes, SampleHash, SampleDocument;
    SampleLookups(userData);
    DigestName();
  }

  // ---------------------------------------------------------------- validation

  /** The store of the sample run. */
  function SampleStore(): CertChain.Store { Run(SampleChain(), SampleCalls()) }

  lemma {:induction false} SampleEntries()
    ensures var s := SampleStore();
      && Load(s, SampleHash(ROOT)) == SampleChain().RootCert()
      && StoredFor(Load(s, SampleHash(ClientCert())), CLIENT_NAME, false, Zeros(97))
  {
    hide SampleBytes, SampleHash, StoredFor, Serve, SampleCalls, Run, EntryOf;
    SampleRun();
    SampleCallsAre();
    RootStays(SampleChain(), SampleCalls());
    StoredFacts(SampleChain(), SampleCalls(), 1);
  }

  lemma {:induction false} SampleBundleVerifies()
    ensures VerifyBundle(SampleChain(), SampleStore(), ClientCert(), [ROOT], NOW).Ok?
  {
    hide SampleBytes, SampleHash, VerifyFresh, SampleCalls, Run, SampleStore, StoredFor;
    SampleEntries();
    StoredFields(Load(SampleStore(), SampleHash(ClientCert())), CLIENT_NAME, false, Zeros(97));
    assert [ROOT][1..] == [];
    var call := Call(ROOT, true, VerifiedCerts.ZERO32, NOW);
    assert Serve(SampleChain(), SampleStore(), call) == Ok(Answer(SampleStore(), SampleChain().RootCert()));
    assert Serve(SampleChain(), SampleStore(), Call(ClientCert(), false, SampleHash(ROOT), NOW)).Ok?;
    assert VerifyBundleFrom(SampleChain(), SampleStore(), ClientCert(), [], SampleHash(ROOT), NOW).Ok?;
    assert SampleChain().keccak(ROOT) == SampleHash(ROOT);
  }

  function SampleEnvelope(tagged: bool, userData: Option<bytes>): CoseSign1
    requires AllValid(SampleDocument(userData))
  {
    CoseSign1(tagged, ES384_HEADER, Inline, 0, Inline, EncodePayload(SampleDocument(userData), 0, Inline),
              Four, [], Inline)
  }

  /** The sample attestations, whatever their user data of less than 1024 bytes, validate. */
  lemma {:induction false} SampleValidates(tagged: bool, userData: Option<bytes>)
    requires userData.Some? ==> |userData.value| < 1024
    ensures AllValid(SampleDocument(userData)) && KeysDistinct(SampleHash)
    ensures var c, d := SampleEnvelope(tagged, userData), SampleDocument(userData);
      && Envelope(c, d, 0, Inline)
      && ValidateDocument(SampleChain(), SampleStore(), d, SignedBytes(Str(c.payload, c.payloadWidth)),
                          c.signature, NOW).Ok?
  {
    hide SampleHash, SampleDocument, EncodePayload, AllValid, VerifyBundle, SampleStore, DocumentAccepted,
      KeysDistinct, SampleBytes, SignedBytes, Pow256;
    SampleKeysDistinct();
    PayloadFits(userData);
    SampleDemands(userData);
    SampleBundleVerifies();
  }

  // ---------------------------------------------------------------- what becomes of user data

  /** A document without user data validates, but storing from it reverts. */
  lemma {:induction false} NoUserDataInstance(storage: R.Storage)
    ensures AllValid(SampleDocument(None))
    ensures var c := SampleEnvelope(false, None);
      && c.Valid()
      && ValidateDocument(SampleChain(), SampleStore(), SampleDocument(None),
                          SignedBytes(Str(c.payload, c.payloadWidth)), c.signature, NOW).Ok?
      && StoreFromAttestation(SampleChain(), SampleStore(), storage, c.Encode(), NOW).Revert?
  {
    hide SampleHash, SampleDocument, ValidateDocument, StoreFromAttestation, AllValid, KeysDistinct, SignedBytes,
      CoseSign1.Encode, EncodePayload, SampleStore, Lookup;
    SampleValidates(false, None);
    SampleLookups(None);
    EnvelopeFits(SampleEnvelope(false, None), SampleDocument(None), 0, Inline);
    AbsentUserDataReverts(SampleChain(), SampleStore(), storage, SampleEnvelope(false, None), SampleDocument(None), 0,
                          Inline, NOW);
  }

  /** {"a;b": "k", "c;d": "k"} */
  const TWO_KEYS: bytes := [0xa2, 0x63, 0x61, 0x3b, 0x62, 0x61, 0x6b, 0x63, 0x63, 0x3b, 0x64, 0x61, 0x6b]

  /** {"a;b": "kkkkkk"} */
  const ONE_KEY: bytes := [0xa1, 0x63, 0x61, 0x3b, 0x62, 0x66, 0x6b, 0x6b, 0x6b, 0x6b, 0x6b, 0x6b]

  function Pair(key: bytes, value: bytes): TextPair { TextPair(Str(key, Inline), Str(value, Inline)) }

  lemma {:induction false} PairEncodes(p: TextPair)
    requires p.Valid() && p.key.w == Inline && p.value.w == Inline
    ensures p.Encode() == [0x60 + |p.key.content|] + p.key.content + ([0x60 + |p.value.content|] + p.value.content)
  {}

  lemma {:induction false} TwoKeysEncode()
    ensures var pairs := [Pair([0x61, 0x3b, 0x62], [0x6b]), Pair([0x63, 0x3b, 0x64], [0x6b])];
      ValidPairs(pairs) && EncodeMap(pairs, 2, Inline) == TWO_KEYS
  {
    var p, q := Pair([0x61, 0x3b, 0x62], [0x6b]), Pair([0x63, 0x3b, 0x64], [0x6b]);
    hide TextPair.Encode;
    PairEncodes(p);
    PairEncodes(q);
    TwoPairsEncode(p, q);
  }

  lemma {:induction false} TwoPairsEncode(p: TextPair, q: TextPair)
    requires p.Valid() && q.Valid()
    ensures ValidPairs([p, q]) && EncodePairs([p, q]) == p.Encode() + q.Encode()
  {
    hide TextPair.Encode;
    assert [p, q][1..] == [q] && [q][1..] == [];
    assert EncodePairs([q]) == q.Encode() + [] == q.Encode();
    assert EncodePairs([p, q]) == p.Encode() + EncodePairs([q]);
  }

  lemma {:induction false} OneKeyEncodes()
    ensures var pairs := [Pair([0x61, 0x3b, 0x62], [0x6b, 0x6b, 0x6b, 0x6b, 0x6b, 0x6b])];
      ValidPairs(pairs) && EncodeMap(pairs, 1, Inline) == ONE_KEY
  {
    var p := Pair([0x61, 0x3b, 0x62], [0x6b, 0x6b, 0x6b, 0x6b, 0x6b, 0x6b]);
    hide TextPair.Encode;
    PairEncodes(p);
    assert [p][1..] == [];
    assert EncodePairs([p]) == p.Encode() + [];
  }

  /** Both maps store by themselves. */
  lemma {:induction false} MapsStore(storage: R.Storage)
    ensures R.ParseAndStore(TWO_KEYS, storage).Ok? && R.ParseAndStore(ONE_KEY, storage).Ok?
  {
    hide EncodeMap, R.ParseAndStore, P.OffersOf, Pair;
    TwoKeysEncode();
    OneKeyEncodes();
    MapOffers([Pair([0x61, 0x3b, 0x62], [0x6b]), Pair([0x63, 0x3b, 0x64], [0x6b])], 2, Inline);
    MapOffers([Pair([0x61, 0x3b, 0x62], [0x6b, 0x6b, 0x6b, 0x6b, 0x6b, 0x6b])], 1, Inline);
    P.StoreIsFold(TWO_KEYS, storage);
    P.StoreIsFold(ONE_KEY, storage);
  }

  /**
   Two keys in an untagged envelope, and one key in a tagged one: both attestations validate and both maps could be
   stored, but storing from the attestations reverts.
   */
  lemma {:induction false} MisreadInstances(storage: R.Storage, tagged: bool)
    ensures var data := if tagged then ONE_KEY else TWO_KEYS;
      AllValid(SampleDocument(Some(data)))
    ensures var data := if tagged then ONE_KEY else TWO_KEYS;
      var c, d := SampleEnvelope(tagged, Some(data)), SampleDocument(Some(data));
      && c.Valid() && R.ParseAndStore(data, storage).Ok?
      && ValidateDocument(SampleChain(), SampleStore(), d, SignedBytes(Str(c.payload, c.payloadWidth)),
                          c.signature, NOW).Ok?
      && StoreFromAttestation(SampleChain(), SampleStore(), storage, c.Encode(), NOW).Revert?
  {
    hide SampleHash, SampleDocument, ValidateDocument, StoreFromAttestation, AllValid, KeysDistinct, SignedBytes,
      CoseSign1.Encode, EncodePayload, SampleStore, Lookup, R.ParseAndStore;
    var data := if tagged then ONE_KEY else TWO_KEYS;
    MapsStore(storage);
    SampleValidates(tagged, Some(data));
    SampleLookups(Some(data));
    var c, d := SampleEnvelope(tagged, Some(data)), SampleDocument(Some(data));
    EnvelopeFits(c, d, 0, Inline);
    OneByteHead(c);
    var p := DocumentUserData(SampleHash, c, d, 0, Inline, Str(data, Two));
    SampleMapReverts(storage, c, SignedBytes(Str(c.payload, c.payloadWidth)), p, tagged);
  }

  lemma OneByteHead(c: CoseSign1)
    requires c.Valid() && c.mapWidth == Inline
    ensures Holds(c.Encode(), c) && Shift(c.Encode(), c) == if c.tagged then 10 else 11
  {
    hide Shift, CoseSign1.Encode;
    EnvelopeParts(c);
    HoldsValid(c.Encode(), c);
    ShiftIsEleven(c.Encode(), c);
  }

  /** Both maps are ASCII, and reach the byte that is read first. */
  lemma {:induction false} SampleMapReverts(storage: R.Storage, c: CoseSign1, tbs: bytes, p: Ptrs, tagged: bool)
    requires c.Valid() && Holds(c.Encode(), c) && Shift(c.Encode(), c) == if tagged then 10 else 11
    requires Parsed(SampleHash, c.Encode(), tbs, c.signature, p) && PrefixIntact(SampleHash, tbs)
    requires SliceOf(tbs, p.userData) == Ok(if tagged then ONE_KEY else TWO_KEYS)
    ensures StoreFromAttestation(SampleChain(), SampleStore(), storage, c.Encode(), NOW).Revert?
  {
    hide SampleHash, StoreFromAttestation, CoseSign1.Encode, SampleStore, Holds, Parsed, PrefixIntact, SliceOf, Shift,
      EncodeMap, EncodePairs, Head, AsciiPairs;
    var pairs := if tagged then [Pair([0x61, 0x3b, 0x62], [0x6b, 0x6b, 0x6b, 0x6b, 0x6b, 0x6b])]
                 else [Pair([0x61, 0x3b, 0x62], [0x6b]), Pair([0x63, 0x3b, 0x64], [0x6b])];
    OneKeyEncodes();
    TwoKeysEncode();
    SampleAscii(pairs);
    MapSplits(pairs, |pairs|, Inline);
    assert pairs[..|pairs|] == pairs;
    LateMapReverts(SampleChain(), SampleStore(), storage, c.Encode(), c, tbs, c.signature, p, pairs, |pairs|, Inline,
                   |pairs|, NOW);
  }

  lemma {:induction false} SampleAscii(pairs: seq<TextPair>)
    requires forall i {:trigger pairs[i]} :: 0 <= i < |pairs| ==>
      pairs[i].key.w == pairs[i].value.w == Inline && pairs[i].Valid()
    requires forall i {:trigger pairs[i]} :: 0 <= i < |pairs| ==>
      (forall b :: b in pairs[i].key.content || b in pairs[i].value.content ==> b < 128)
    ensures AsciiPairs(pairs)
  {
    forall i {:trigger pairs[i]} | 0 <= i < |pairs| ensures AsciiText(pairs[i].key) && AsciiText(pairs[i].value) {
      AsciiInline(pairs[i].key);
      AsciiInline(pairs[i].value);
    }
  }

  lemma {:induction false} AsciiInline(s: Str)
    requires s.Valid() && s.w == Inline && forall b :: b in s.content ==> b < 128
    ensures AsciiText(s)
  {
    ShortLength(|s.content|, 0);
    assert forall k {:trigger s.content[k]} :: 0 <= k < |s.content| ==> s.content[k] in s.content;
  }

  lemma {:induction false} MapSplits(pairs: seq<TextPair>, count: nat, w: Width)
    requires ValidPairs(pairs) && w.Fits(count)
    ensures |EncodeMap(pairs, count, w)| == |Head(5, count, w)| + |EncodePairs(pairs)|
    ensures |Head(5, count, w)| == 1 + w.Bytes()
  {
    hide EncodePairs, ValidPairs;
  }

  // ---------------------------------------------------------------- unsigned bytes as a key

  /** {"a;b": ... with a value of six announced bytes that are not there. */
  const CUT_MAP: bytes := [0xa1, 0x63, 0x61, 0x3b, 0x62, 0x66]

  const SAMPLE_CUT := Cut(Inline, 12, Inline, CUT_MAP)

  /** The signature string that follows the payload is what is stored as the key. */
  const UNSIGNED_KEY: bytes := [0x45, 1, 2, 3, 4, 5]

  /** An attestation of the sample document with that entry at its end. */
  predicate CutSample(c: CoseSign1) {
    && CutEnvelope(c, BaseDocument(), 0, Inline, SAMPLE_CUT)
    && !c.tagged && c.mapWidth == Inline && c.signature == [1, 2, 3, 4, 5] && c.signatureWidth == Inline
  }

  lemma {:induction false} CutSampleExists() returns (c: CoseSign1)
    ensures c.Valid() && CutSample(c)
  {
    hide BaseDocument, SampleHash, EncodePayload, AllValid, Lookup, Pow256, Cut.Encode, KeyText, Head;
    assert SampleDocument(None) == BaseDocument();
    PayloadFits(None);
    SampleLookups(None);
    CutLength();
    var payload := EncodePayload(BaseDocument(), 0, Inline) + SAMPLE_CUT.Encode();
    TwoFits(|payload|);
    c := CoseSign1(false, ES384_HEADER, Inline, 0, Inline, payload, Four, [1, 2, 3, 4, 5], Inline);
  }

  lemma SampleSignature()
    ensures ByteString([1, 2, 3, 4, 5], Inline) == UNSIGNED_KEY
  {}

  lemma CutLength()
    ensures SAMPLE_CUT.Valid() && |SAMPLE_CUT.Encode()| < 100
  {}

  /** The cut-off map, with the signature string behind it, is a whole map. */
  lemma {:induction false} CompletedMap()
    ensures var pairs := [Pair([0x61, 0x3b, 0x62], UNSIGNED_KEY)];
      ValidPairs(pairs) && EncodeMap(pairs, 1, Inline) == CUT_MAP + UNSIGNED_KEY
  {
    var p := Pair([0x61, 0x3b, 0x62], UNSIGNED_KEY);
    hide TextPair.Encode;
    PairEncodes(p);
    assert [p][1..] == [];
    assert EncodePairs([p]) == p.Encode() + [];
  }

  lemma {:induction false} CompletedStores(storage: R.Storage)
    ensures R.ParseAndStore(CUT_MAP + UNSIGNED_KEY, storage).Ok?
    ensures var storage' := R.ParseAndStore(CUT_MAP + UNSIGNED_KEY, storage).value;
      |storage.Key(([0x61], [0x62]))| == 0 ==> storage'.Key(([0x61], [0x62])) == UNSIGNED_KEY
  {
    hide EncodeMap, R.ParseAndStore, P.OffersOf, R.Split, P.Apply;
    var p := Pair([0x61, 0x3b, 0x62], UNSIGNED_KEY);
    CompletedMap();
    MapOffers([p], 1, Inline);
    P.StoreIsFold(CUT_MAP + UNSIGNED_KEY, storage);
    assert Offers([p], 1) == [p.Offer()];
    P.ApplyOne(storage, p.Offer());
    assert F.FlatKey([0x61], [0x62]) == [0x61, 0x3b, 0x62];
    F.SplitUndoesFlatten([0x61], [0x62]);
  }

  /** Storing succeeds, and leaves the pair with this key if it had none. */
  predicate StoresKey(chain: Chain, s: CertChain.Store, storage: R.Storage, attestation: bytes, now: nat, pair: R.Pair,
                      key: bytes) {
    var stored := StoreFromAttestation(chain, s, storage, attestation, now);
    stored.Ok? && (|storage.Key(pair)| == 0 ==> stored.value.1.Key(pair) == key)
  }

  /**
   An attestation that validates, and from which a key is stored that consists of unsigned bytes only: the signature
   string behind the payload, whatever that is.
   */
  lemma {:induction false} UnsignedKeyStored(storage: R.Storage) returns (c: CoseSign1)
    ensures c.Valid() && CutSample(c) && ByteString(c.signature, c.signatureWidth) == UNSIGNED_KEY
    ensures StoresKey(SampleChain(), SampleStore(), storage, c.Encode(), NOW, ([0x61], [0x62]), UNSIGNED_KEY)
  {
    hide BaseDocument, SampleHash, ValidateDocument, StoreFromAttestation, KeysDistinct, SignedBytes, CoseSign1.Encode,
      SampleStore, R.ParseAndStore, CutEnvelope;
    c := CutSampleExists();
    SampleKeysDistinct();
    SampleSignature();
    CutSampleValidates(c.payload, c.payloadWidth, c.signature);
    CompletedStores(storage);
    CutStored(SampleChain(), SampleStore(), storage, c, BaseDocument(), 0, Inline, SAMPLE_CUT, NOW);
    assert UNSIGNED_KEY[..6] == UNSIGNED_KEY;
  }

  lemma {:induction false} CutSampleValidates(payload: bytes, w: Width, signature: bytes)
    requires w.Fits(|payload|)
    ensures ValidateDocument(SampleChain(), SampleStore(), BaseDocument(), SignedBytes(Str(payload, w)),
                             signature, NOW).Ok?
  {
    hide SampleHash, BaseDocument, VerifyBundle, SampleStore, DocumentAccepted, SampleBytes, SignedBytes;
    assert SampleDocument(None) == BaseDocument();
    SampleDemands(None);
    SampleBundleVerifies();
  }

  // ---------------------------------------------------------------- listing

  /** {"a;b": ""} and {"a;b": "k"} */
  const EMPTY_KEY: TextPair := TextPair(Str([0x61, 0x3b, 0x62], Inline), Str([], Inline))
  const REAL_KEY: TextPair := TextPair(Str([0x61, 0x3b, 0x62], Inline), Str([0x6b], Inline))

  lemma {:induction false} OnePairOffers(p: TextPair)
    requires p.Valid()
    ensures ValidPairs([p]) && P.OffersOf(EncodeMap([p], 1, Inline)) == Ok([p.Offer()])
  {
    hide EncodeMap, P.OffersOf;
    assert forall i {:trigger [p][i]} :: 0 <= i < 1 ==> [p][i].Valid();
    MapOffers([p], 1, Inline);
    assert Offers([p][1..], 0) == [];
    assert Offers([p], 1) == [p.Offer()] + Offers([p][1..], 0) == [p.Offer()];
    assert P.OffersOf(EncodeMap([p], 1, Inline)) == Ok(Offers([p], 1));
  }

  /** Storing an empty key and then a real one lists the pair twice. */
  lemma {:induction false} ListedTwice()
    ensures ValidPairs([EMPTY_KEY]) && ValidPairs([REAL_KEY])
    ensures var s := P.Run([EncodeMap([EMPTY_KEY], 1, Inline), EncodeMap([REAL_KEY], 1, Inline)]);
      && s.Key(([0x61], [0x62])) == [0x6b]
      && |s.domains| == |s.selectors| && P.Listed(s.domains, s.selectors, ([0x61], [0x62])) == 2
  {
    hide EncodeMap, P.OffersOf, R.Store, R.ParseAndStore, P.Listed, R.Split, R.Storage.Key;
    var first, second := EncodeMap([EMPTY_KEY], 1, Inline), EncodeMap([REAL_KEY], 1, Inline);
    OnePairOffers(EMPTY_KEY);
    OnePairOffers(REAL_KEY);
    var s0 := R.NOTHING_STORED;
    P.StoreIsFold(first, s0);
    P.ApplyOne(s0, EMPTY_KEY.Offer());
    var s1 := R.Store(s0, EMPTY_KEY.Offer());
    P.StoreIsFold(second, s1);
    P.ApplyOne(s1, REAL_KEY.Offer());
    var datas: seq<bytes> := [first];
    assert [first, second][..1] == datas && datas[..0] == [];
    assert P.Run([first]) == s1;
    assert P.Run([first, second]) == R.Store(s1, REAL_KEY.Offer());
    SamplePair();
    NothingListed();
    P.StoreStep(s0, EMPTY_KEY.Offer(), ([0x61], [0x62]));
    P.StoreStep(s1, REAL_KEY.Offer(), ([0x61], [0x62]));
  }

  lemma NothingListed()
    ensures P.Listed([], [], ([0x61], [0x62])) == 0 && R.NOTHING_STORED.Key(([0x61], [0x62])) == []
  {}

  lemma {:induction false} SamplePair()
    ensures R.PairOf(EMPTY_KEY.Offer()) == ([0x61], [0x62]) && R.PairOf(REAL_KEY.Offer()) == ([0x61], [0x62])
  {
    assert F.FlatKey([0x61], [0x62]) == [0x61, 0x3b, 0x62];
    F.SplitUndoesFlatten([0x61], [0x62]);
  }
}
