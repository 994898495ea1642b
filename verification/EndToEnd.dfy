/**
 From an attestation, of whatever bytes, through decoding, validation and extraction into the registry
 (DKIMRegistry.sol:36-46, DKIMOracle.sol:49-111).
 */
module EndToEnd {
  import opened Basics
  import opened LibBytes
  import opened CborDecode
  import opened CertParser
  import opened CertChain
  import VerifiedCerts
  import opened CertBundle
  import opened CertManagers
  import opened Cose
  import opened UserData
  import opened Attestation
  import opened Validation
  import opened TextMaps
  import R = Registry

  // ---------------------------------------------------------------- storing from an attestation

  /** `decodeAndValidateAttestation`. */
  function DecodeAndValidate(chain: Chain, s: CertChain.Store, attestation: bytes, now: nat): Result<(Ptrs, Answer)> {
    var (tbs, signature) :- DecodeAttestationTbs(attestation);
    ValidateAttestation(chain, s, tbs, signature, now)
  }

  /** `storeDKIMKeysFromAttestation`: the new certificate store and the new registry storage. */
  function StoreFromAttestation(chain: Chain, s: CertChain.Store, storage: R.Storage, attestation: bytes,
                                now: nat): Result<(Answer, R.Storage)> {
    var (ptrs, answer) :- DecodeAndValidate(chain, s, attestation, now);
    if ptrs.userData.IsNull() then Ok((answer, storage))
    else
      var data :- ExtractBytes(attestation, ptrs.userData);
      var storage' :- R.ParseAndStore(data, storage);
      Ok((answer, storage'))
  }

  /** `storeDKIMKeysFromAttestation` over both contracts; a revert at any point undoes everything. */
  method StoreDKIMKeysFromAttestation(registry: R.DKIMRegistry, manager: CertManager, attestation: bytes, now: nat)
    returns (r: Result<()>)
    requires manager.Valid()
    modifies registry, manager
    ensures manager.Valid()
    ensures match StoreFromAttestation(manager.chain, old(manager.store), old(registry.Stored()), attestation, now)
            case Ok((answer, storage)) => r.Ok? && manager.store == answer.store && registry.Stored() == storage
            case Revert =>
              r.Revert? && manager.store == old(manager.store) && registry.Stored() == old(registry.Stored())
  {
    hide DecodeAttestationTbs, ValidateAttestation, ExtractBytes, R.ParseAndStore;
    var decoded := DecodeAttestationTbs(attestation);
    if decoded.Revert? { return Revert; }
    var before := manager.verified;
    ghost var storeBefore := manager.store;
    var ptrs := RunValidateAttestation(manager, decoded.value.0, decoded.value.1, now);
    if ptrs.Revert? { return Revert; }
    if !ptrs.value.userData.IsNull() {
      var data := ExtractBytes(attestation, ptrs.value.userData);
      if data.Revert? {
        manager.verified, manager.store := before, storeBefore;
        return Revert;
      }
      r := registry.ParseAndStoreDKIMKeys(data.value);
      if r.Revert? {
        manager.verified, manager.store := before, storeBefore;
        return Revert;
      }
    }
    r := Ok(());
  }

  /** Every user data element starts past the point where reading began, and no later than where the bytes end. */
  lemma EntryUserDataAfter(keccak: Hash, tbs: bytes, current: CborElement, ptrs: Ptrs, n: nat)
    requires ReadEntry(keccak, tbs, current, ptrs).Ok? && n <= current.End()
    requires ptrs.userData == UNSET || n < ptrs.userData.start <= |tbs|
    ensures var (next, ptrs') := ReadEntry(keccak, tbs, current, ptrs).value;
      n <= next.End() && (ptrs'.userData == UNSET || n < ptrs'.userData.start <= |tbs|)
  {
    hide ElementAt, KeyHash, ReadPcrs, ReadCabundle;
    var key := NextTextString(tbs, current).value;
    if NextByteStringOrNull(tbs, key).Ok? { Advances(tbs, key.End(), 0x40, false); }
    Advances(tbs, current.End(), 0x60, true);
  }

  lemma Advances(tbs: bytes, i: nat, t: nat, required: bool)
    requires ElementAt(tbs, i, t, required).Ok?
    ensures i < ElementAt(tbs, i, t, required).value.start <= |tbs|
  {}

  lemma {:induction false} UserDataAfter(keccak: Hash, tbs: bytes, current: CborElement, end: nat, ptrs: Ptrs, n: nat)
    requires ReadEntries(keccak, tbs, current, end, ptrs).Ok? && n <= current.End()
    requires ptrs.userData == UNSET || n < ptrs.userData.start <= |tbs|
    ensures var p := ReadEntries(keccak, tbs, current, end, ptrs).value;
      p.userData == UNSET || n < p.userData.start <= |tbs|
    decreases if current.End() < end then end - current.End() else 0
  {
    hide ReadEntry;
    if current.End() >= end {
    } else {
      EntryUserDataAfter(keccak, tbs, current, ptrs, n);
      var (next, ptrs') := ReadEntry(keccak, tbs, current, ptrs).value;
      UserDataAfter(keccak, tbs, next, end, ptrs', n);
    }
  }

  lemma ParsedUserDataAfter(keccak: Hash, tbs: bytes)
    requires ParseAttestation(keccak, tbs).Ok?
    ensures var e := ParseAttestation(keccak, tbs).value.userData; e == UNSET || 18 < e.start <= |tbs|
  {
    hide ReadEntries, ElementAt, Slice;
    var payload := ByteStringAt(tbs, 18).value;
    Advances(tbs, 18, 0x40, true);
    Advances(tbs, payload.start, 0xa0, true);
    UserDataAfter(keccak, tbs, MapAt(tbs, payload.start).value, payload.End(), NO_PTRS, 18);
  }

  /** What decoding and parsing an attestation gives. */
  predicate Parsed(keccak: Hash, attestation: bytes, tbs: bytes, signature: bytes, p: Ptrs) {
    DecodeAttestationTbs(attestation) == Ok((tbs, signature)) && ParseAttestation(keccak, tbs) == Ok(p)
  }

  /** The first 18 bytes do not merely hash like the expected ones. */
  predicate PrefixIntact(keccak: Hash, tbs: bytes) {
    |tbs| >= 18 && keccak(tbs[..18]) == keccak(TBS_PREFIX) ==> tbs[..18] == TBS_PREFIX
  }

  /** The protected part of an attestation that parses is the five bytes of the expected prefix. */
  lemma PrefixFixesProtected(keccak: Hash, c: CoseSign1, tbs: bytes)
    requires c.Valid() && tbs == SigStructure(c.RawProtected(), c.RawPayload())
    requires ParseAttestation(keccak, tbs).Ok? && PrefixIntact(keccak, tbs)
    ensures |c.RawProtected()| == 5
  {
    hide ReadEntries, ElementAt, Head, ByteString, PrefixIntact;
    assert tbs[0..18] == tbs[..18] == TBS_PREFIX by { PrefixStands(keccak, tbs); }
    var raw := c.RawProtected();
    ByteStringFirst(c.protected, c.protectedWidth);
    assert raw[0] == tbs[12] == TBS_PREFIX[12] == 0x44;
  }

  lemma PrefixStands(keccak: Hash, tbs: bytes)
    requires ParseAttestation(keccak, tbs).Ok? && PrefixIntact(keccak, tbs)
    ensures |tbs| >= 18 && tbs[..18] == TBS_PREFIX
  {
    hide ReadEntries, ElementAt;
    assert tbs[0..18] == tbs[..18];
  }

  /** A byte string that begins with 0x44 holds four bytes. */
  lemma ByteStringFirst(content: bytes, w: Width)
    requires w.Fits(|content|)
    ensures |ByteString(content, w)| > 0
    ensures ByteString(content, w)[0] == 0x44 ==> |ByteString(content, w)| == 5
  {
    hide ToBE;
  }

  /** The user data of whatever parses start in the payload. */
  lemma UserDataStarts(keccak: Hash, attestation: bytes, c: CoseSign1, tbs: bytes, signature: bytes, p: Ptrs)
    requires Parsed(keccak, attestation, tbs, signature, p) && PrefixIntact(keccak, tbs) && Holds(attestation, c)
    ensures tbs == SigStructure(c.RawProtected(), c.RawPayload()) && signature == c.signature
    ensures p.userData.Length() > 0 ==> StartsInPayload(c, p.userData)
  {
    hide DecodeAttestationTbs, ParseAttestation, SigStructure, ByteString, PrefixIntact, At;
    PartsDecode(attestation, c);
    PrefixFixesProtected(keccak, c, tbs);
    ParsedUserDataAfter(keccak, tbs);
    TbsLength(c);
  }

  lemma HoldsValid(s: bytes, c: CoseSign1)
    requires Holds(s, c)
    ensures c.Valid() && |s| > 0
  {}

  /**
   The store theorem, for every attestation that decodes, to an envelope `c` with anything around it, and parses: with
   user data that are not empty, storing from it is validating it and storing the bytes that `Misread` names around
   the place where the signed part of the user data stands, and reverts exactly when one of these does.
   */
  lemma {:induction false} UserDataStored(chain: Chain, s: CertChain.Store, storage: R.Storage, attestation: bytes,
                                          c: CoseSign1, tbs: bytes, signature: bytes, p: Ptrs, now: nat)
    requires Parsed(chain.keccak, attestation, tbs, signature, p) && PrefixIntact(chain.keccak, tbs)
    requires Holds(attestation, c)
    requires p.userData.Length() > 0
    ensures tbs == SigStructure(c.RawProtected(), c.RawPayload())
    ensures StartsInPayload(c, p.userData) && p.userData.start <= |tbs|
    ensures var n, start := Shift(attestation, c), p.userData.start;
      && 2 <= n <= 11 <= start && start - 11 < |attestation|
      && At(attestation, start - n, SignedPart(tbs, p.userData))
      && start - n + |SignedPart(tbs, p.userData)| <= SignedEnd(attestation, c) < |attestation|
    ensures var n := Shift(attestation, c);
      var validated := ValidateAttestation(chain, s, tbs, signature, now);
      var misread := Misread(attestation, p.userData.start - n, n, p.userData.Length());
      StoreFromAttestation(chain, s, storage, attestation, now)
      == if validated.Ok? && misread.Ok? && R.ParseAndStore(misread.value, storage).Ok?
         then Ok((validated.value.1, R.ParseAndStore(misread.value, storage).value)) else Revert
  {
    hide DecodeAttestationTbs, ParseAttestation, Holds, SigStructure, ByteString, PrefixIntact, R.ParseAndStore,
      ExtractBytes, ShapeAccepted, VerifyBundle, SliceOf, Misread, SliceAll, At, SignedEnd, Shift;
    HoldsValid(attestation, c);
    UserDataStarts(chain.keccak, attestation, c, tbs, signature, p);
    var e := p.userData;
    SignedPartStands(attestation, c, e);
    ShiftIsEleven(attestation, c);
    SignedPartEnds(tbs, e, c, attestation);
    ExtractionReads(attestation, e, e.start - Shift(attestation, c), Shift(attestation, c));
  }

  lemma SignedPartEnds(tbs: bytes, e: CborElement, c: CoseSign1, s: bytes)
    requires |s| > 0 && c.Valid() && e.start <= |tbs| && SignedEnd(s, c) == |tbs| - Shift(s, c)
    ensures e.start - Shift(s, c) + |SignedPart(tbs, e)| <= SignedEnd(s, c)
  {}

  /**
   Where the workaround takes effect as intended, eleven bytes back onto a 0xa1, what is stored are the signed user
   data and, if the element runs past the signed bytes, bytes behind them in the attestation that nobody signed: at
   least one of those exactly if it does.
   */
  lemma {:induction false} OverrunStored(chain: Chain, s: CertChain.Store, storage: R.Storage, attestation: bytes,
                                         c: CoseSign1, tbs: bytes, signature: bytes, p: Ptrs, now: nat)
    returns (unsigned: bytes)
    requires Parsed(chain.keccak, attestation, tbs, signature, p) && PrefixIntact(chain.keccak, tbs)
    requires Holds(attestation, c)
    requires p.userData.Length() > 0 && Shift(attestation, c) == 11 && MarkedBefore(attestation, p.userData)
    ensures p.userData.start <= |tbs| && At(attestation, SignedEnd(attestation, c), unsigned)
    ensures var overrun := p.userData.End() - |tbs|;
      && |attestation| > SignedEnd(attestation, c)
      && |unsigned| == if overrun <= 0 then 0 else Min(overrun, |attestation| - SignedEnd(attestation, c))
    ensures var validated := ValidateAttestation(chain, s, tbs, signature, now);
      var stored := R.ParseAndStore(SignedPart(tbs, p.userData) + unsigned, storage);
      StoreFromAttestation(chain, s, storage, attestation, now)
      == if validated.Ok? && stored.Ok? then Ok((validated.value.1, stored.value)) else Revert
  {
    hide DecodeAttestationTbs, ParseAttestation, Holds, SigStructure, ByteString, PrefixIntact, R.ParseAndStore,
      ExtractBytes, ShapeAccepted, VerifyBundle, SliceOf, SliceAll, SignedEnd, Shift, SignedPart;
    HoldsValid(attestation, c);
    var e := p.userData;
    UserDataStarts(chain.keccak, attestation, c, tbs, signature, p);
    SignedPartStands(attestation, c, e);
    OverrunExtracted(attestation, c, e);
    var behind, end := SignedEnd(attestation, c), Min(e.End() - 11, |attestation|);
    unsigned := if end > behind then attestation[behind..end] else [];
  }

  /** What a successful store went through. */
  lemma StoreParts(chain: Chain, s: CertChain.Store, storage: R.Storage, attestation: bytes, now: nat)
    returns (tbs: bytes, signature: bytes, p: Ptrs, cert: bytes, cabundle: seq<bytes>)
    requires StoreFromAttestation(chain, s, storage, attestation, now).Ok?
    ensures Parsed(chain.keccak, attestation, tbs, signature, p) && ShapeAccepted(chain.keccak, tbs, p)
    ensures SliceOf(tbs, p.cert) == Ok(cert) && SliceAll(tbs, p.cabundle) == Ok(cabundle) && |cabundle| > 0
    ensures var answer := StoreFromAttestation(chain, s, storage, attestation, now).value.0;
      VerifyBundle(chain, s, cert, cabundle, now) == Ok(answer)
  {
    hide DecodeAttestationTbs, ParseAttestation, ShapeAccepted, VerifyBundle, SliceOf, SliceAll, ExtractBytes,
      R.ParseAndStore;
    var decoded := DecodeAttestationTbs(attestation).value;
    tbs, signature := decoded.0, decoded.1;
    p := ParseAttestation(chain.keccak, tbs).value;
    cert, cabundle := SliceOf(tbs, p.cert).value, SliceAll(tbs, p.cabundle).value;
    SlicedLength(tbs, p.cabundle);
    ShapeHasBundle(chain.keccak, tbs, p);
  }

  lemma ShapeHasBundle(keccak: Hash, tbs: bytes, p: Ptrs)
    requires ShapeAccepted(keccak, tbs, p)
    ensures |p.cabundle| > 0
  {}

  lemma {:induction false} SlicedLength(tbs: bytes, ptrs: seq<CborElement>)
    requires SliceAll(tbs, ptrs).Ok?
    ensures |SliceAll(tbs, ptrs).value| == |ptrs|
    decreases |ptrs|
  {
    hide SliceOf;
    if |ptrs| > 0 { SlicedLength(tbs, ptrs[1..]); }
  }

  /**
   Nothing is stored without a chain. After any run of certificate calls, if storing from an attestation of
   whatever bytes succeeds, then the first certificate of the bundle it parses to is the root; the whole bundle is
   stored as CAs and the certificate as a non-CA; none has expired, and all but the root have begun.
   */
  lemma {:induction false} StoredUnderChain(chain: Chain, calls: seq<Call>, storage: R.Storage, attestation: bytes,
                                            tbs: bytes, signature: bytes, p: Ptrs, cert: bytes, cabundle: seq<bytes>,
                                            now: nat, answer: Answer, storage': R.Storage)
    requires chain.Valid() && chain.rootHash != VerifiedCerts.ZERO32
    requires forall k :: 0 <= k < |calls| ==> calls[k].now <= now && chain.keccak(calls[k].cert) != VerifiedCerts.ZERO32
    requires Parsed(chain.keccak, attestation, tbs, signature, p)
    requires SliceOf(tbs, p.cert) == Ok(cert) && SliceAll(tbs, p.cabundle) == Ok(cabundle)
    requires CollisionFree(chain, calls + BundleCalls(chain, cert, cabundle, VerifiedCerts.ZERO32, now))
    requires StoreFromAttestation(chain, Run(chain, calls), storage, attestation, now) == Ok((answer, storage'))
    ensures UnderChain(chain, answer.store, cert, cabundle, now)
  {
    hide DecodeAttestationTbs, ParseAttestation, ShapeAccepted, VerifyBundle, SliceOf, SliceAll, ExtractBytes,
      R.ParseAndStore, Run, StoredInRole, Begun, BundleCalls, CollisionFree;
    var tbs', signature', p', cert', cabundle' := StoreParts(chain, Run(chain, calls), storage, attestation, now);
    BundleTheorem(chain, calls, cert, cabundle, now, answer);
  }

  /**
   A bundle from the root on, and a client certificate under it, all stored in their roles, none expired, all but the
   root begun.
   */
  ghost predicate UnderChain(chain: Chain, s: CertChain.Store, cert: bytes, cabundle: seq<bytes>, now: nat) {
    && |cabundle| > 0 && chain.keccak(cabundle[0]) == chain.rootHash
    && (forall k :: 0 <= k < |cabundle| ==> StoredInRole(chain, s, cabundle[k], true, now))
    && (forall k :: 0 <= k < |cabundle| && chain.keccak(cabundle[k]) != chain.rootHash ==>
          Begun(chain, cabundle[k], now))
    && StoredInRole(chain, s, cert, false, now) && Begun(chain, cert, now)
  }

  // ---------------------------------------------------------------- reading too late

  /** No map starts with a byte of another major type. */
  lemma NoMapNoStore(data: bytes, storage: R.Storage)
    requires |data| > 0 && data[0] / 32 != 5
    ensures R.ParseAndStore(data, storage).Revert?
  {}

  /** A one-entry map head needs a text string after it. */
  lemma {:induction false} NoTextNoStore(data: bytes, storage: R.Storage)
    requires |data| > 1 && data[0] == ONE_ENTRY && data[1] / 32 != 3
    ensures R.ParseAndStore(data, storage).Revert?
  {
    hide R.Store;
  }

  /**
   On bytes: what is read around `at` cannot be stored when it is read too late and the byte there is no map head, or
   when it is read one byte too early, from a 0xa1 in front of a byte that starts no text string.
   */
  lemma {:induction false} LateBytes(s: bytes, at: nat, n: nat, data: bytes, storage: R.Storage)
    requires 2 <= n <= 11 <= at + n && n < |data| && At(s, at, data) && at + n - 11 < |s|
    requires data[n] / 32 != 5
    requires s[at + n - 11] == ONE_ENTRY ==> n == 10 && data[0] / 32 != 3
    ensures var misread := Misread(s, at, n, |data|); misread.Ok? ==> R.ParseAndStore(misread.value, storage).Revert?
  {
    hide R.ParseAndStore, At;
    AtByte(s, at, data, 0);
    AtByte(s, at, data, n);
    AtFits(s, at, data);
    var misread := Misread(s, at, n, |data|);
    if misread.Ok? {
      if s[at + n - 11] == ONE_ENTRY {
        NoTextNoStore(misread.value, storage);
      } else {
        NoMapNoStore(misread.value, storage);
      }
    }
  }

  /**
   Maps that are read too late never store. For every attestation whose user data are a text map, when the byte that
   is `Shift` bytes into the map stands in its first ASCII pairs, storing reverts: without a tag and with a one-byte
   map head for every map but those with a short one-entry head; with a tag and a one-byte map head for every map; and
   with longer map heads for every map that has no 0xa1 eleven bytes before the place its element names.
   */
  lemma {:induction false} LateMapReverts(chain: Chain, s: CertChain.Store, storage: R.Storage, attestation: bytes,
                                          c: CoseSign1, tbs: bytes, signature: bytes, p: Ptrs, pairs: seq<TextPair>,
                                          count: nat, w: Width, m: nat, now: nat)
    requires Parsed(chain.keccak, attestation, tbs, signature, p) && PrefixIntact(chain.keccak, tbs)
    requires Holds(attestation, c)
    requires ValidPairs(pairs) && w.Fits(count) && SliceOf(tbs, p.userData) == Ok(EncodeMap(pairs, count, w))
    requires m <= |pairs| && AsciiPairs(pairs[..m])
    requires |Head(5, count, w)| <= Shift(attestation, c) < |Head(5, count, w)| + |EncodePairs(pairs[..m])|
    requires match Shift(attestation, c)
             case 11 => !(count == 1 && w == Inline)
             case 10 => true
             case _ => !MarkedBefore(attestation, p.userData)
    ensures StoreFromAttestation(chain, s, storage, attestation, now).Revert?
  {
    hide DecodeAttestationTbs, ParseAttestation, ValidateAttestation, R.ParseAndStore, StoreFromAttestation, Holds,
      SigStructure, ByteString, PrefixIntact, At, Misread, EncodeMap, EncodePairs, ValidPairs, AsciiPairs, Head, Shift,
      SignedEnd;
    HoldsValid(attestation, c);
    MapFirst(pairs, count, w);
    UserDataIsMap(tbs, p.userData, EncodeMap(pairs, count, w));
    UserDataStored(chain, s, storage, attestation, c, tbs, signature, p, now);
    var n := Shift(attestation, c);
    AsciiMapByte(pairs, count, w, m, n);
    MapHeadByte(pairs, count, w);
    var data := EncodeMap(pairs, count, w);
    MarkOfEleven(attestation, p.userData, data, n);
    LateBytes(attestation, p.userData.start - n, n, data, storage);
  }

  lemma UserDataIsMap(tbs: bytes, e: CborElement, data: bytes)
    requires SliceOf(tbs, e) == Ok(data) && |data| > 0
    ensures e.Length() == |data| > 0 && e.End() <= |tbs| && SignedPart(tbs, e) == data
  {}

  lemma MapFirst(pairs: seq<TextPair>, count: nat, w: Width)
    requires ValidPairs(pairs) && w.Fits(count)
    ensures |EncodeMap(pairs, count, w)| > 0 && EncodeMap(pairs, count, w)[0] / 32 == 5
  {
    hide EncodePairs, ValidPairs, ToBE;
  }

  lemma MarkOfEleven(s: bytes, e: CborElement, data: bytes, n: nat)
    requires n <= 11 <= e.start && e.start - 11 < |s| && At(s, e.start - n, data) && |data| > 0
    ensures MarkedBefore(s, e) <==> s[e.start - 11] == ONE_ENTRY
    ensures n == 11 ==> s[e.start - 11] == data[0]
  {
    AtByte(s, e.start - n, data, 0);
  }

  /**
   A marshalled text map is cut out of an attestation exactly when it announces one entry in the short form, and the
   attestation has no tag and a one-byte map head; any other, and so every map of two or more keys, only by chance.
   */
  lemma {:induction false} OnlyOneKeyExtracted(attestation: bytes, c: CoseSign1, e: CborElement, pairs: seq<TextPair>,
                                               count: nat, w: Width)
    requires ValidPairs(pairs) && w.Fits(count) && Holds(attestation, c) && StartsInPayload(c, e)
    requires SliceOf(SigStructure(c.RawProtected(), c.RawPayload()), e) == Ok(EncodeMap(pairs, count, w))
    ensures e.start >= 11 && e.start - 11 < |attestation|
    ensures ExtractBytes(attestation, e) == Ok(EncodeMap(pairs, count, w)) <==>
      || (attestation[0] != TAG_18 && c.mapWidth == Inline && count == 1 && w == Inline)
      || ByChance(attestation, c, e.start, |EncodeMap(pairs, count, w)|)
  {
    hide EncodePairs, EncodeMap, ExtractBytes, ByChance, SigStructure, ByteString, ValidPairs, Shift, Head, Offset, At,
      Repeats;
    var tbs, data := SigStructure(c.RawProtected(), c.RawPayload()), EncodeMap(pairs, count, w);
    MapHeadByte(pairs, count, w);
    UserDataIsMap(tbs, e, data);
    ExtractionExact(attestation, c, e);
    FirstOfPart(tbs, e, data);
  }

  lemma FirstOfPart(tbs: bytes, e: CborElement, data: bytes)
    requires SliceOf(tbs, e) == Ok(data) && |data| > 0
    ensures e.start < |tbs| && tbs[e.start] == data[0]
  {}

  // ---------------------------------------------------------------- no user data

  /** Empty user data never store, be they a string of no bytes or missing altogether: they are no map. */
  lemma {:induction false} EmptyUserDataReverts(chain: Chain, s: CertChain.Store, storage: R.Storage,
                                                attestation: bytes, tbs: bytes, signature: bytes, p: Ptrs, now: nat)
    requires Parsed(chain.keccak, attestation, tbs, signature, p) && p.userData.Length() == 0 && !p.userData.IsNull()
    ensures StoreFromAttestation(chain, s, storage, attestation, now).Revert?
  {
    hide DecodeAttestationTbs, ParseAttestation, R.ParseAndStore, ExtractBytes, ShapeAccepted, VerifyBundle, SliceOf,
      SliceAll;
    EmptyExtracted(attestation, p.userData);
    NothingToStore(storage);
  }

  lemma EmptyExtracted(attestation: bytes, element: CborElement)
    requires element.Length() == 0
    ensures ExtractBytes(attestation, element) == Ok([]) || ExtractBytes(attestation, element).Revert?
  {
    if 11 <= element.start && element.start - 11 <= |attestation| {
      assert attestation[element.start - 11..element.start - 11] == [];
    }
    if element.start <= |attestation| {
      assert attestation[element.start..element.start] == [];
    }
  }

  lemma NothingToStore(storage: R.Storage)
    ensures R.ParseAndStore([], storage).Revert?
  {}
}
