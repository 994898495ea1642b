/** The monolithic certificate manager (CertManager.sol) over packed storage. */
module CertManagers {
  import opened Basics
  import opened Asn1Decode
  import opened CertParser
  import opened VerifiedCerts
  import opened CertChain

  /** Every stored value is the packed form of a storable certificate. */
  ghost predicate Represents(verified: map<Bytes32, bytes>, store: Store) {
    && verified.Keys == store.Keys
    && forall h :: h in store ==> Storable(store[h]) && verified[h] == PackVerified(store[h])
  }

  lemma FreshIsStorable(chain: Chain, cert: bytes, ca: bool, parent: VerifiedCert, now: nat)
    requires Int64(parent.maxPathLen)
    ensures var r := VerifyFresh(chain, cert, ca, parent, now); r.Ok? ==> Storable(r.value) && |r.value.pubKey| == 96
  {
    if VerifyFresh(chain, cert, ca, parent, now).Ok? {
      var tbs := TbsOf(cert).value;
      ParsedInRange(chain.keccak, cert, tbs, ca, now, ParseTbs(chain.keccak, cert, tbs, ca, now).value);
    }
  }

  /** Every path length a load returns fits an int64. */
  lemma LoadedInRange(store: Store, h: Bytes32)
    requires forall h :: h in store ==> Storable(store[h])
    ensures Int64(Load(store, h).maxPathLen)
  {}

  class CertManager {
    const chain: Chain
    var verified: map<Bytes32, bytes>
    ghost var store: Store

    ghost predicate Valid()
      reads this
    {
      chain.Valid() && Represents(verified, store)
    }

    constructor (chain: Chain)
      requires chain.Valid()
      ensures Valid() && this.chain == chain && store == InitialStore(chain)
    {
      this.chain := chain;
      verified := map[chain.rootHash := PackVerified(chain.RootCert())];
      store := InitialStore(chain);
    }

    method SaveVerified(certHash: Bytes32, cert: VerifiedCert)
      requires Valid() && Storable(cert)
      modifies this
      ensures Valid() && store == old(store)[certHash := cert]
    {
      verified := verified[certHash := PackVerified(cert)];
      store := store[certHash := cert];
    }

    method LoadVerified(certHash: Bytes32) returns (cert: VerifiedCert)
      requires Valid()
      ensures cert == Load(store, certHash)
    {
      var packed := if certHash in verified then verified[certHash] else [];
      if certHash in store {
        UnpackPacked(store[certHash]);
      }
      var r := UnpackVerified(packed);
      cert := r.Extract();
    }

    /** The part that the cache skips: parse, constrain, check the signature's form, save. */
    method VerifyAndSave(certificate: bytes, certHash: Bytes32, ca: bool, parent: VerifiedCert, now: nat)
      returns (r: Result<VerifiedCert>)
      requires Valid() && Int64(parent.maxPathLen)
      modifies this
      ensures Valid() && r == VerifyFresh(chain, certificate, ca, parent, now)
      ensures r.Ok? ==> store == old(store)[certHash := r.value]
      ensures r.Revert? ==> unchanged(this)
    {
      hide ParseTbs, VerifySignature, Root, FirstChildOf, Represents, Int64, PackVerified;
      FreshIsStorable(chain, certificate, ca, parent, now);
      var root :- Root(certificate);
      var tbsCertPtr :- FirstChildOf(certificate, root);
      ChildInside(certificate, root);
      var t :- ParseTbs(chain.keccak, certificate, tbsCertPtr, ca, now);
      :- Require(parent.subjectHash == t.issuerHash);
      var maxPathLen := t.maxPathLen;
      if parent.maxPathLen > 0 && (maxPathLen < 0 || maxPathLen >= parent.maxPathLen) {
        maxPathLen := parent.maxPathLen - 1;
      }
      var _ :- VerifySignature(chain, certificate, tbsCertPtr, parent.pubKey);
      var cert := VerifiedCert(ca, t.notAfter, maxPathLen, t.subjectHash, t.pubKey);
      SaveVerified(certHash, cert);
      r := Ok(cert);
    }

    /** `_verifyCert`: the new store and the answer are those of the state machine, and a revert changes nothing. */
    method VerifyCert(certificate: bytes, certHash: Bytes32, ca: bool, parent: VerifiedCert, now: nat)
      returns (r: Result<VerifiedCert>)
      requires Valid() && Int64(parent.maxPathLen)
      modifies this
      ensures Valid()
      ensures match CertChain.VerifyCert(chain, old(store), certificate, certHash, ca, parent, now)
              case Ok(answer) => store == answer.store && r == Ok(answer.cert)
              case Revert => r.Revert? && unchanged(this)
      ensures r.Ok? && certHash != chain.rootHash ==>
        |parent.pubKey| > 0 && parent.ca && now <= parent.notAfter && (ca ==> parent.maxPathLen != 0)
    {
      if certHash != chain.rootHash {
        :- Require(|parent.pubKey| > 0);
        :- Require(parent.notAfter >= now);
        :- Require(parent.ca);
        :- Require(!ca || parent.maxPathLen != 0);
      }
      var cert := LoadVerified(certHash);
      if |cert.pubKey| != 0 {
        :- Require(cert.notAfter >= now);
        :- Require(cert.ca == ca);
        return Ok(cert);
      }
      r := VerifyAndSave(certificate, certHash, ca, parent, now);
    }

    /** `verifyCACert`. */
    method VerifyCACert(cert: bytes, parentHash: Bytes32, now: nat) returns (r: Result<Bytes32>)
      requires Valid()
      modifies this
      ensures Valid()
      ensures match Serve(chain, old(store), Call(cert, true, parentHash, now))
              case Ok(answer) => store == answer.store && r == Ok(chain.keccak(cert))
              case Revert => r.Revert? && unchanged(this)
    {
      hide CertChain.VerifyCert, VerifyFresh;
      var certHash := chain.keccak(cert);
      var parent := LoadVerified(parentHash);
      LoadedInRange(store, parentHash);
      var verified := VerifyCert(cert, certHash, true, parent, now);
      if verified.Revert? { return Revert; }
      r := Ok(certHash);
    }

    /** `verifyClientCert`. */
    method VerifyClientCert(cert: bytes, parentHash: Bytes32, now: nat) returns (r: Result<VerifiedCert>)
      requires Valid()
      modifies this
      ensures Valid()
      ensures match Serve(chain, old(store), Call(cert, false, parentHash, now))
              case Ok(answer) => store == answer.store && r == Ok(answer.cert)
              case Revert => r.Revert? && unchanged(this)
    {
      hide CertChain.VerifyCert, VerifyFresh;
      var parent := LoadVerified(parentHash);
      LoadedInRange(store, parentHash);
      r := VerifyCert(cert, chain.keccak(cert), false, parent, now);
    }

    /** Either external call. */
    method Verify(call: Call) returns (r: Result<Reply>)
      requires Valid()
      modifies this
      ensures Valid()
      ensures match Serve(chain, old(store), call)
              case Ok(answer) => store == answer.store && r == Ok(ReplyTo(chain, call, answer))
              case Revert => r.Revert? && unchanged(this)
    {
      hide Serve;
      if call.ca {
        var hash := VerifyCACert(call.cert, call.parentHash, call.now);
        if hash.Revert? { return Revert; }
        r := Ok(CertHash(hash.value));
      } else {
        var cert := VerifyClientCert(call.cert, call.parentHash, call.now);
        if cert.Revert? { return Revert; }
        r := Ok(Verified(cert.value));
      }
    }
  }
}
