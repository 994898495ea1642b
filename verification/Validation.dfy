/**
 Validating a parsed attestation (DKIMOracle.sol:73-122): the shape checks, the certificate bundle, and
 what they say about the document that was encoded.
 */
module Validation {
  import opened Basics
  import opened CborDecode
  import opened CertParser
  import opened CertChain
  import opened CertBundle
  import opened CertManagers
  import opened Attestation
  import opened AttestationCoding
  import opened AttestationFacts

  /** "SHA384" */
  const SHA384_NAME: bytes := [0x53, 0x48, 0x41, 0x33, 0x38, 0x34]

  predicate RegisterLength(n: nat) { n == 32 || n == 48 || n == 64 }

  predicate CertLength(n: nat) { 1 <= n <= 1024 }

  /** Every `require` of `validateAttestation` on lengths and numbers, and the digest's hash. */
  predicate ShapeAccepted(keccak: Hash, tbs: bytes, p: Ptrs) {
    && p.moduleID.Length() > 0 && p.timestamp > 0 && |p.cabundle| > 0
    && SliceOf(tbs, p.digest).Ok? && keccak(SliceOf(tbs, p.digest).value) == keccak(SHA384_NAME)
    && 1 <= |p.pcrs| <= 32
    && (p.publicKey.IsNull() || 1 <= p.publicKey.Length() <= 1024)
    && (p.userData.IsNull() || p.userData.Length() <= 2048)
    && (p.nonce.IsNull() || p.nonce.Length() <= 512)
    && (forall i {:trigger p.pcrs[i]} :: 0 <= i < |p.pcrs| ==> RegisterLength(p.pcrs[i].Length()))
    && (forall i {:trigger p.cabundle[i]} :: 0 <= i < |p.cabundle| ==> CertLength(p.cabundle[i].Length()))
  }

  function SliceAll(tbs: bytes, ptrs: seq<CborElement>): Result<seq<bytes>> {
    if |ptrs| == 0 then Ok([])
    else
      var first :- SliceOf(tbs, ptrs[0]);
      var rest :- SliceAll(tbs, ptrs[1..]);
      Ok([first] + rest)
  }

  /** `validateAttestation`: the pointers, and the certificate store with the client certificate's entry. */
  function ValidateAttestation(chain: Chain, s: Store, tbs: bytes, signature: bytes, now: nat): Result<(Ptrs, Answer)> {
    var ptrs :- ParseAttestation(chain.keccak, tbs);
    :- Require(ShapeAccepted(chain.keccak, tbs, ptrs));
    var cert :- SliceOf(tbs, ptrs.cert);
    var cabundle :- SliceAll(tbs, ptrs.cabundle);
    var answer :- VerifyBundle(chain, s, cert, cabundle, now);
    :- Require(chain.ecdsaReturns(chain.sha384(tbs), signature, answer.cert.pubKey));
    Ok((ptrs, answer))
  }

  // ---------------------------------------------------------------- the loops

  lemma {:induction false} AllSliced(tbs: bytes, ptrs: seq<CborElement>, slices: seq<bytes>)
    requires |slices| == |ptrs| && forall k {:trigger slices[k]} :: 0 <= k < |ptrs| ==>
      SliceOf(tbs, ptrs[k]) == Ok(slices[k])
    ensures SliceAll(tbs, ptrs) == Ok(slices)
    decreases |ptrs|
  {
    hide SliceOf;
    if |ptrs| > 0 {
      AllSliced(tbs, ptrs[1..], slices[1..]);
      assert slices == [slices[0]] + slices[1..];
    } else {
      assert slices == [];
    }
  }

  lemma {:induction false} NotAllSliced(tbs: bytes, ptrs: seq<CborElement>, k: nat)
    requires k < |ptrs| && SliceOf(tbs, ptrs[k]).Revert?
    ensures SliceAll(tbs, ptrs).Revert?
    decreases k
  {
    hide SliceOf;
    if k == 0 {
    } else {
      NotAllSliced(tbs, ptrs[1..], k - 1);
    }
  }

  /** The loop that checks and slices the bundle certificate by certificate. */
  method SliceCabundle(tbs: bytes, ptrs: seq<CborElement>) returns (r: Result<seq<bytes>>)
    ensures r == if forall i {:trigger ptrs[i]} :: 0 <= i < |ptrs| ==>
      CertLength(ptrs[i].Length()) then SliceAll(tbs, ptrs) else Revert
  {
    hide SliceOf, SliceAll;
    var cabundle := new bytes[|ptrs|](_ => []);
    for i := 0 to |ptrs|
      invariant forall k {:trigger ptrs[k]} :: 0 <= k < i ==> CertLength(ptrs[k].Length())
      invariant forall k {:trigger cabundle[k]} :: 0 <= k < i ==> SliceOf(tbs, ptrs[k]) == Ok(cabundle[k])
    {
      if !CertLength(ptrs[i].Length()) { return Revert; }
      var slice := SliceOf(tbs, ptrs[i]);
      if slice.Revert? {
        NotAllSliced(tbs, ptrs, i);
        return Revert;
      }
      cabundle[i] := slice.value;
    }
    AllSliced(tbs, ptrs, cabundle[..]);
    r := Ok(cabundle[..]);
  }

  /** The loop over the registers. */
  method CheckRegisters(pcrs: seq<CborElement>) returns (ok: bool)
    ensures ok <==> forall i {:trigger pcrs[i]} :: 0 <= i < |pcrs| ==> RegisterLength(pcrs[i].Length())
  {
    for i := 0 to |pcrs|
      invariant forall k {:trigger pcrs[k]} :: 0 <= k < i ==> RegisterLength(pcrs[k].Length())
    {
      if !RegisterLength(pcrs[i].Length()) { return false; }
    }
    ok := true;
  }

  /** `validateAttestation` over the certificate manager; a revert leaves the manager as it was. */
  method RunValidateAttestation(manager: CertManager, tbs: bytes, signature: bytes, now: nat) returns (r: Result<Ptrs>)
    requires manager.Valid()
    modifies manager
    ensures manager.Valid()
    ensures match ValidateAttestation(manager.chain, old(manager.store), tbs, signature, now)
            case Ok((ptrs, answer)) => r == Ok(ptrs) && manager.store == answer.store
            case Revert => r.Revert? && manager.verified == old(manager.verified) && manager.store == old(manager.store)
  {
    hide SliceOf, SliceAll, VerifyBundle, ParseAttestation, RegisterLength, CertLength;
    var keccak := manager.chain.keccak;
    var parsed := RunParseAttestation(keccak, tbs);
    if parsed.Revert? { return Revert; }
    var p := parsed.value;
    var digest := SliceOf(tbs, p.digest);
    if p.moduleID.Length() == 0 || p.timestamp == 0 || |p.cabundle| == 0 { return Revert; }
    if digest.Revert? || keccak(digest.value) != keccak(SHA384_NAME) || !(1 <= |p.pcrs| <= 32) { return Revert; }
    if !(p.publicKey.IsNull() || 1 <= p.publicKey.Length() <= 1024) { return Revert; }
    if !(p.userData.IsNull() || p.userData.Length() <= 2048) || !(p.nonce.IsNull() || p.nonce.Length() <= 512) {
      return Revert;
    }
    var registers := CheckRegisters(p.pcrs);
    if !registers { return Revert; }
    var cert := SliceOf(tbs, p.cert);
    if cert.Revert? { return Revert; }
    var cabundle := SliceCabundle(tbs, p.cabundle);
    if cabundle.Revert? { return Revert; }
    var before := manager.verified;
    ghost var storeBefore := manager.store;
    var parent := RunVerifyBundle(manager, cert.value, cabundle.value, now);
    if parent.Revert? { return Revert; }
    if !manager.chain.ecdsaReturns(manager.chain.sha384(tbs), signature, parent.value.pubKey) {
      manager.verified, manager.store := before, storeBefore;
      return Revert;
    }
    r := Ok(p);
  }

  // ---------------------------------------------------------------- on encoded documents

  /** The string a document gives a name; the empty one if it gives none. */
  function Content(entries: seq<Entry>, name: Name): bytes {
    match Lookup(entries, name)
    case Some(Text(s)) => s.content
    case Some(Bytes(s)) => s.content
    case _ => []
  }

  predicate IsNull(entries: seq<Entry>, name: Name) {
    Lookup(entries, name).Some? && Lookup(entries, name).value.Null?
  }

  function Number(entries: seq<Entry>): nat {
    match Lookup(entries, Timestamp) case Some(Uint(n, _)) => n case _ => 0
  }

  function Bundle(entries: seq<Entry>): seq<Str> {
    match Lookup(entries, Cabundle) case Some(Certs(certs, _)) => certs case _ => []
  }

  function Registers(entries: seq<Entry>): seq<Pcr> {
    match Lookup(entries, Pcrs) case Some(PcrMap(pcrs, _)) => pcrs case _ => []
  }

  /**
   What the shape checks demand of a document. An absent public key is refused where a null one is
   accepted, while user data and nonce may be absent or null.
   */
  predicate DocumentAccepted(keccak: Hash, entries: seq<Entry>) {
    && |Content(entries, ModuleId)| > 0 && Number(entries) > 0 && |Bundle(entries)| > 0
    && keccak(Content(entries, Digest)) == keccak(Ascii("SHA384"))
    && 1 <= |Registers(entries)| <= 32
    && (IsNull(entries, PublicKey) || 1 <= |Content(entries, PublicKey)| <= 1024)
    && |Content(entries, UserData)| <= 2048
    && |Content(entries, Nonce)| <= 512
    && RegistersOfShaLength(entries)
    && (forall i {:trigger Bundle(entries)[i]} :: 0 <= i < |Bundle(entries)| ==>
          1 <= |Bundle(entries)[i].content| <= 1024)
  }

  /** Every register is a SHA-256, SHA-384 or SHA-512 digest: 32, 48 or 64 bytes. */
  predicate RegistersOfShaLength(entries: seq<Entry>) {
    forall i {:trigger Registers(entries)[i]} :: 0 <= i < |Registers(entries)| ==>
      |Registers(entries)[i].value.content| in {32, 48, 64}
  }

  /** A string pointer has the length of the document's string, and is null exactly when that is null. */
  lemma {:induction false} StringPointer(tbs: bytes, p: Ptrs, entries: seq<Entry>, name: Name)
    requires AllValid(entries) && Describes(tbs, NO_PTRS, p, entries)
    requires name != Timestamp && name != Cabundle && name != Pcrs
    ensures var ptr := Get(p, name).ptr;
      && (ptr.IsNull() <==> IsNull(entries, name))
      && (!ptr.IsNull() ==> SliceOf(tbs, ptr) == Ok(Content(entries, name)) && ptr.Length() == |Content(entries, name)|)
  {
    hide KeyText;
    assert Get(p, name) == Get(p, name);
    if Lookup(entries, name).Some? {
      LookupValid(entries, name);
    } else {
      assert tbs[0..0] == [];
    }
  }

  lemma {:induction false} ArrayPointers(tbs: bytes, p: Ptrs, entries: seq<Entry>)
    requires AllValid(entries) && Describes(tbs, NO_PTRS, p, entries)
    ensures p.timestamp == Number(entries)
    ensures AreCerts(tbs, p.cabundle, Bundle(entries))
    ensures |p.pcrs| == |Registers(entries)| && HoldsPcrs(tbs, p.pcrs, Registers(entries))
    ensures IndicesFit(Registers(entries), |Registers(entries)|)
  {
    hide KeyText, PointsAt;
    assert Get(p, Timestamp) == Get(p, Timestamp) && Get(p, Cabundle) == Get(p, Cabundle)
      && Get(p, Pcrs) == Get(p, Pcrs);
    if Lookup(entries, Timestamp).Some? { LookupValid(entries, Timestamp); }
    if Lookup(entries, Cabundle).Some? { LookupValid(entries, Cabundle); }
    if Lookup(entries, Pcrs).Some? { LookupValid(entries, Pcrs); }
  }

  /** Register lengths by slot are register lengths by pair, since the indices are a permutation. */
  lemma {:induction false} RegisterLengths(tbs: bytes, slots: seq<CborElement>, pcrs: seq<Pcr>)
    requires HoldsPcrs(tbs, slots, pcrs) && IndicesFit(pcrs, |pcrs|) && |slots| == |pcrs|
    ensures (forall k {:trigger slots[k]} :: 0 <= k < |slots| ==> RegisterLength(slots[k].Length()))
       <==> (forall i {:trigger pcrs[i]} :: 0 <= i < |pcrs| ==> |pcrs[i].value.content| in {32, 48, 64})
  {
    hide SliceOf;
    if forall k {:trigger slots[k]} :: 0 <= k < |slots| ==> RegisterLength(slots[k].Length()) {
      forall i {:trigger pcrs[i]} | 0 <= i < |pcrs| ensures |pcrs[i].value.content| in {32, 48, 64} {
        assert slots[pcrs[i].index].Length() == |pcrs[i].value.content|;
      }
    }
    if forall i {:trigger pcrs[i]} :: 0 <= i < |pcrs| ==> |pcrs[i].value.content| in {32, 48, 64} {
      forall k {:trigger slots[k]} | 0 <= k < |slots| ensures RegisterLength(slots[k].Length()) {
        IndicesAreAll(pcrs, k);
        var i :| 0 <= i < |pcrs| && pcrs[i].index == k;
      }
    }
  }

  lemma {:induction false} CertLengths(tbs: bytes, ptrs: seq<CborElement>, certs: seq<Str>)
    requires AreCerts(tbs, ptrs, certs)
    ensures (forall k {:trigger ptrs[k]} :: 0 <= k < |ptrs| ==> CertLength(ptrs[k].Length()))
       <==> (forall i {:trigger certs[i]} :: 0 <= i < |certs| ==> 1 <= |certs[i].content| <= 1024)
  {
    hide SliceOf;
    if forall k {:trigger ptrs[k]} :: 0 <= k < |ptrs| ==> CertLength(ptrs[k].Length()) {
      assert forall i {:trigger certs[i]} :: 0 <= i < |certs| ==> ptrs[i].Length() == |certs[i].content|;
    }
  }

  lemma DigestName()
    ensures SHA384_NAME == Ascii("SHA384")
  {}

  /** The contract's checks on pointers are exactly the demands on the document. */
  lemma {:induction false} ShapeOfDocument(keccak: Hash, tbs: bytes, p: Ptrs, entries: seq<Entry>)
    requires AllValid(entries) && Describes(tbs, NO_PTRS, p, entries)
    ensures ShapeAccepted(keccak, tbs, p) <==> DocumentAccepted(keccak, entries)
  {
    hide Describes, AllValid, RegisterLength, CertLength, Content, IsNull, Number, Bundle, Registers, HoldsPcrs,
      AreCerts, SliceOf, IndicesFit;
    StringPointer(tbs, p, entries, ModuleId);
    StringPointer(tbs, p, entries, Digest);
    StringPointer(tbs, p, entries, PublicKey);
    StringPointer(tbs, p, entries, UserData);
    StringPointer(tbs, p, entries, Nonce);
    NullIsEmpty(entries, UserData);
    NullIsEmpty(entries, Nonce);
    NeverNull(entries, ModuleId);
    NeverNull(entries, Digest);
    ArrayPointers(tbs, p, entries);
    SameLength(tbs, p.cabundle, Bundle(entries));
    RegisterLengths(tbs, p.pcrs, Registers(entries));
    CertLengths(tbs, p.cabundle, Bundle(entries));
    DigestName();
  }

  lemma SameLength(tbs: bytes, ptrs: seq<CborElement>, certs: seq<Str>)
    requires AreCerts(tbs, ptrs, certs)
    ensures |ptrs| == |certs|
  {}

  lemma NullIsEmpty(entries: seq<Entry>, name: Name)
    ensures IsNull(entries, name) ==> Content(entries, name) == []
  {
    hide Lookup;
  }

  lemma {:induction false} NeverNull(entries: seq<Entry>, name: Name)
    requires AllValid(entries) && (name == ModuleId || name == Digest || name == Certificate)
    ensures !IsNull(entries, name)
  {
    hide KeyText, Lookup;
    if Lookup(entries, name).Some? { LookupValid(entries, name); }
  }

  function Contents(certs: seq<Str>): (r: seq<bytes>)
    ensures |r| == |certs| && forall i {:trigger r[i]} :: 0 <= i < |r| ==> r[i] == certs[i].content
  {
    seq(|certs|, i requires 0 <= i < |certs| => certs[i].content)
  }

  lemma {:induction false} CertsSliced(tbs: bytes, ptrs: seq<CborElement>, certs: seq<Str>)
    requires AreCerts(tbs, ptrs, certs)
    ensures SliceAll(tbs, ptrs) == Ok(Contents(certs))
    decreases |ptrs|
  {
    hide SliceOf;
    if |ptrs| > 0 {
      CertsSliced(tbs, ptrs[1..], certs[1..]);
      assert Contents(certs) == [certs[0].content] + Contents(certs[1..]);
    } else {
      assert Contents(certs) == [];
    }
  }

  /** What validation comes to on a document, in the document's own terms. */
  function ValidateDocument(chain: Chain, s: Store, entries: seq<Entry>, tbs: bytes, signature: bytes,
                            now: nat): Result<Answer> {
    if DocumentAccepted(chain.keccak, entries) then
      var answer :- VerifyBundle(chain, s, Content(entries, Certificate), Contents(Bundle(entries)), now);
      :- Require(chain.ecdsaReturns(chain.sha384(tbs), signature, answer.cert.pubKey));
      Ok(answer)
    else Revert
  }

  /**
   On every encoded document validation makes the demands of `DocumentAccepted` and verifies exactly the
   document's own certificate under exactly its own bundle, in order: it succeeds when that does, with the same store.
   */
  lemma {:induction false} ValidationOfDocument(chain: Chain, s: Store, entries: seq<Entry>, count: nat, w: Width,
                                                pw: Width, signature: bytes, now: nat)
    requires KeysDistinct(chain.keccak) && AllValid(entries) && w.Fits(count)
    requires pw.Fits(|EncodePayload(entries, count, w)|)
    ensures var tbs := SignedBytes(Str(EncodePayload(entries, count, w), pw));
      var validated := ValidateAttestation(chain, s, tbs, signature, now);
      && (validated.Ok? <==> ValidateDocument(chain, s, entries, tbs, signature, now).Ok?)
      && (validated.Ok? ==> validated.value.1 == ValidateDocument(chain, s, entries, tbs, signature, now).value)
  {
    hide KeysDistinct, AllValid, Describes, ShapeAccepted, DocumentAccepted, VerifyBundle, SignedBytes, EncodePayload,
      Content, Bundle, AreCerts, ParseAttestation, SliceOf;
    var tbs := SignedBytes(Str(EncodePayload(entries, count, w), pw));
    DocumentParses(chain.keccak, entries, count, w, pw);
    var p := ParseAttestation(chain.keccak, tbs).value;
    ShapeOfDocument(chain.keccak, tbs, p, entries);
    StringPointer(tbs, p, entries, Certificate);
    NeverNull(entries, Certificate);
    ArrayPointers(tbs, p, entries);
    CertsSliced(tbs, p.cabundle, Bundle(entries));
  }

  /** Among documents that meet all other demands, those validate whose registers have such lengths. */
  lemma {:induction false} RegistersDecide(chain: Chain, s: Store, entries: seq<Entry>, count: nat, w: Width, pw: Width,
                                           signature: bytes, now: nat)
    requires KeysDistinct(chain.keccak) && AllValid(entries) && w.Fits(count)
    requires pw.Fits(|EncodePayload(entries, count, w)|)
    requires RegistersOfShaLength(entries) ==> DocumentAccepted(chain.keccak, entries)
    requires VerifyBundle(chain, s, Content(entries, Certificate), Contents(Bundle(entries)), now).Ok?
    requires chain.ecdsaReturns(chain.sha384(SignedBytes(Str(EncodePayload(entries, count, w), pw))), signature,
               VerifyBundle(chain, s, Content(entries, Certificate), Contents(Bundle(entries)), now).value.cert.pubKey)
    ensures var tbs := SignedBytes(Str(EncodePayload(entries, count, w), pw));
      ValidateAttestation(chain, s, tbs, signature, now).Ok? <==>
      forall i {:trigger Registers(entries)[i]} :: 0 <= i < |Registers(entries)| ==>
        var n := |Registers(entries)[i].value.content|; n == 32 || n == 48 || n == 64
  {
    hide KeysDistinct, AllValid, VerifyBundle, SignedBytes, EncodePayload, Content, Bundle, ValidateAttestation;
    ValidationOfDocument(chain, s, entries, count, w, pw, signature, now);
  }
}
