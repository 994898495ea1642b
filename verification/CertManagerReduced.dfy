/** The split deployment (CertManagerReduced.sol, CertStorage.sol), and its lockstep with the monolith. */
module CertManagersReduced {
  import opened Basics
  import opened Asn1Decode
  import opened CertParser
  import opened VerifiedCerts
  import opened CertChain
  import opened CertManagers

  /** CertStorage: ABI-encoded certificates by hash. */
  class CertStorage {
    var verified: map<Bytes32, bytes>
    ghost var store: Store

    ghost predicate Valid()
      reads this
    {
      && verified.Keys == store.Keys
      && forall h :: h in store ==> Storable(store[h]) && verified[h] == AbiEncode(store[h])
    }

    constructor ()
      ensures Valid() && store == map[]
    {
      verified := map[];
      store := map[];
    }

    method SaveVerified(certHash: Bytes32, cert: VerifiedCert)
      requires Valid() && Storable(cert)
      modifies this
      ensures Valid() && store == old(store)[certHash := cert]
    {
      verified := verified[certHash := AbiEncode(cert)];
      store := store[certHash := cert];
    }

    method LoadVerified(certHash: Bytes32) returns (cert: VerifiedCert)
      requires Valid()
      ensures cert == Load(store, certHash)
    {
      var data := if certHash in verified then verified[certHash] else [];
      if certHash in store {
        AbiDecodeEncoded(store[certHash]);
      }
      if |data| == 0 {
        return EMPTY;
      }
      var r := AbiDecode(data);
      cert := r.Extract();
    }
  }

  /** The manager of the split deployment; it alone writes its storage. */
  class CertManagerReduced {
    const chain: Chain
    const certStorage: CertStorage

    ghost predicate Valid()
      reads this, certStorage
    {
      chain.Valid() && certStorage.Valid()
    }

    constructor (chain: Chain, certStorage: CertStorage)
      requires chain.Valid() && certStorage.Valid() && certStorage.store == map[]
      modifies certStorage
      ensures Valid() && this.chain == chain && this.certStorage == certStorage
      ensures certStorage.store == InitialStore(chain)
    {
      this.chain := chain;
      this.certStorage := certStorage;
      new;
      certStorage.SaveVerified(chain.rootHash, chain.RootCert());
    }

    /** The part that the cache skips: parse, constrain, check the signature's form, save. */
    method VerifyAndSave(certificate: bytes, certHash: Bytes32, ca: bool, parent: VerifiedCert, now: nat)
      returns (r: Result<VerifiedCert>)
      requires Valid() && Int64(parent.maxPathLen)
      modifies certStorage
      ensures Valid() && r == VerifyFresh(chain, certificate, ca, parent, now)
      ensures r.Ok? ==> certStorage.store == old(certStorage.store)[certHash := r.value]
      ensures r.Revert? ==> unchanged(certStorage)
    {
      hide ParseTbs, VerifySignature, Root, FirstChildOf, Int64, AbiEncode;
      FreshIsStorable(chain, certificate, ca, parent, now);
      var root :- Root(certificate);
      var tbsCertPtr :- FirstChildOf(certificate, root);
      ChildInside(certificate, root);
      var t :- ParseTbs(chain.keccak, certificate, tbsCertPtr, ca, now);
      :- Require(parent.subjectHash == t.issuerHash);
      var maxPathLen := t.maxPathLen;
      if parent.maxPathLen > 0 && (maxPathLen < 0 || maxPathLen >= parent.maxPathLen) {
        maxPathLen := parent.maxPathLen - 1;
      }
      var _ :- VerifySignature(chain, certificate, tbsCertPtr, parent.pubKey);
      var cert := VerifiedCert(ca, t.notAfter, maxPathLen, t.subjectHash, t.pubKey);
      certStorage.SaveVerified(certHash, cert);
      r := Ok(cert);
    }

    method VerifyCert(certificate: bytes, certHash: Bytes32, ca: bool, parent: VerifiedCert, now: nat)
      returns (r: Result<VerifiedCert>)
      requires Valid() && Int64(parent.maxPathLen)
      modifies certStorage
      ensures Valid()
      ensures match CertChain.VerifyCert(chain, old(certStorage.store), certificate, certHash, ca, parent, now)
              case Ok(answer) => certStorage.store == answer.store && r == Ok(answer.cert)
              case Revert => r.Revert? && unchanged(certStorage)
      ensures r.Ok? && certHash != chain.rootHash ==>
        |parent.pubKey| > 0 && parent.ca && now <= parent.notAfter && (ca ==> parent.maxPathLen != 0)
    {
      hide VerifyFresh, AbiEncode, AbiDecode;
      if certHash != chain.rootHash {
        :- Require(|parent.pubKey| > 0);
        :- Require(parent.notAfter >= now);
        :- Require(parent.ca);
        :- Require(!ca || parent.maxPathLen != 0);
      }
      var cert := certStorage.LoadVerified(certHash);
      if |cert.pubKey| != 0 {
        :- Require(cert.notAfter >= now);
        :- Require(cert.ca == ca);
        return Ok(cert);
      }
      r := VerifyAndSave(certificate, certHash, ca, parent, now);
    }

    /** `verifyCACert`. */
    method VerifyCACert(cert: bytes, parentHash: Bytes32, now: nat) returns (r: Result<Bytes32>)
      requires Valid()
      modifies certStorage
      ensures Valid()
      ensures match Serve(chain, old(certStorage.store), Call(cert, true, parentHash, now))
              case Ok(answer) => certStorage.store == answer.store && r == Ok(chain.keccak(cert))
              case Revert => r.Revert? && unchanged(certStorage)
    {
      hide CertChain.VerifyCert, VerifyFresh;
      var certHash := chain.keccak(cert);
      var parent := certStorage.LoadVerified(parentHash);
      LoadedInRange(certStorage.store, parentHash);
      var verified := VerifyCert(cert, certHash, true, parent, now);
      if verified.Revert? { return Revert; }
      r := Ok(certHash);
    }

    /** `verifyClientCert`. */
    method VerifyClientCert(cert: bytes, parentHash: Bytes32, now: nat) returns (r: Result<VerifiedCert>)
      requires Valid()
      modifies certStorage
      ensures Valid()
      ensures match Serve(chain, old(certStorage.store), Call(cert, false, parentHash, now))
              case Ok(answer) => certStorage.store == answer.store && r == Ok(answer.cert)
              case Revert => r.Revert? && unchanged(certStorage)
    {
      hide CertChain.VerifyCert, VerifyFresh;
      var parent := certStorage.LoadVerified(parentHash);
      LoadedInRange(certStorage.store, parentHash);
      r := VerifyCert(cert, chain.keccak(cert), false, parent, now);
    }

    /** Either external call. */
    method Verify(call: Call) returns (r: Result<Reply>)
      requires Valid()
      modifies certStorage
      ensures Valid()
      ensures match Serve(chain, old(certStorage.store), call)
              case Ok(answer) => certStorage.store == answer.store && r == Ok(ReplyTo(chain, call, answer))
              case Revert => r.Revert? && unchanged(certStorage)
    {
      hide Serve;
      if call.ca {
        var hash := VerifyCACert(call.cert, call.parentHash, call.now);
        if hash.Revert? { return Revert; }
        r := Ok(CertHash(hash.value));
      } else {
        var cert := VerifyClientCert(call.cert, call.parentHash, call.now);
        if cert.Revert? { return Revert; }
        r := Ok(Verified(cert.value));
      }
    }
  }

  /**
   Deployed side by side and fed the same calls, the two forms give the same results, and every
   hash loads the same certificate from both afterwards.
   */
  method Lockstep(chain: Chain, calls: seq<Call>)
    returns (mono: CertManager, split: CertManagerReduced,
             monoResults: seq<Result<Reply>>, splitResults: seq<Result<Reply>>)
    requires chain.Valid()
    ensures monoResults == splitResults && |monoResults| == |calls|
    ensures mono.Valid() && split.Valid() && mono.store == split.certStorage.store == Run(chain, calls)
    ensures mono.verified.Keys == split.certStorage.verified.Keys
    ensures forall h :: h in mono.verified ==>
      UnpackVerified(mono.verified[h]) == AbiDecode(split.certStorage.verified[h])
  {
    hide Serve, UnpackVerified, AbiDecode, AbiEncode, PackVerified;
    var storage := new CertStorage();
    mono := new CertManager(chain);
    split := new CertManagerReduced(chain, storage);
    monoResults, splitResults := [], [];
    for i := 0 to |calls|
      invariant fresh(mono) && fresh(split) && fresh(split.certStorage) && mono.chain == split.chain == chain
      invariant mono.Valid() && split.Valid()
      invariant mono.store == split.certStorage.store == Run(chain, calls[..i])
      invariant monoResults == splitResults && |monoResults| == i
    {
      var a := mono.Verify(calls[i]);
      var b := split.Verify(calls[i]);
      monoResults, splitResults := monoResults + [a], splitResults + [b];
      assert calls[..i + 1][..i] == calls[..i];
    }
    assert calls[..|calls|] == calls;
    forall h | h in mono.verified
      ensures UnpackVerified(mono.verified[h]) == AbiDecode(split.certStorage.verified[h])
    {
      UnpackPacked(mono.store[h]);
      AbiDecodeEncoded(mono.store[h]);
    }
  }
}
