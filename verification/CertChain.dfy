/**
 The certificate store as a state machine (CertManager.sol:64-114, CertManagerReduced.sol:55-105):
 one verification call, and runs of calls.
 */
module CertChain {
  import opened Basics
  import opened LibBytes
  import opened Asn1Decode
  import opened CertParser
  import opened VerifiedCerts

  /**
   The fixed surroundings of the contracts: the hash functions, whether the external ECDSA call
   returns (its boolean result is ignored), and the root certificate's constants.
   */
  datatype Chain = Chain(keccak: Hash, sha384: bytes -> bytes, ecdsaReturns: (bytes, bytes, bytes) -> bool,
                         rootHash: Bytes32, rootSubjectHash: Bytes32, rootPubKey: bytes) {
    function RootCert(): VerifiedCert {
      VerifiedCert(true, 2519044085, -1, rootSubjectHash, rootPubKey)
    }

    /** The root's public key is 96 bytes long. */
    predicate Valid() { |rootPubKey| == 96 }
  }

  type Store = map<Bytes32, VerifiedCert>

  function Load(s: Store, h: Bytes32): VerifiedCert {
    if h in s then s[h] else EMPTY
  }

  function InitialStore(chain: Chain): Store { map[chain.rootHash := chain.RootCert()] }

  /** The TBS node of a certificate. */
  function TbsOf(cert: bytes): Result<Asn1Ptr> {
    var root :- Root(cert);
    FirstChildOf(cert, root)
  }

  /** `_verifyCertSignature`: every step can revert, but the outcome of the signature check is ignored. */
  function VerifySignature(chain: Chain, cert: bytes, tbs: Asn1Ptr, pubKey: bytes): Result<()>
    requires tbs.header <= tbs.content
  {
    var sigAlgoPtr :- NextSiblingOf(cert, tbs);
    var algo :- ContentHash(chain.keccak, cert, sigAlgoPtr);
    :- Require(algo == chain.keccak(SHA384_WITH_ECDSA));
    var signed :- Slice(cert, tbs.header, tbs.TotalLength());
    var sigPtr :- NextSiblingOf(cert, sigAlgoPtr);
    var sigBPtr :- BitString(cert, sigPtr);
    var sigRoot :- RootOf(cert, sigBPtr);
    var rPtr :- FirstChildOf(cert, sigRoot);
    var sPtr :- NextSiblingOf(cert, rPtr);
    var r :- Uint384At(cert, rPtr);
    var s :- Uint384At(cert, sPtr);
    :- Require(chain.ecdsaReturns(chain.sha384(signed), Packed384(r) + Packed384(s), pubKey));
    Ok(())
  }

  /** A child's path length is at most one less than its parent's. */
  function Constrain(maxPathLen: int, parentMax: int): int {
    if parentMax > 0 && (maxPathLen < 0 || maxPathLen >= parentMax) then parentMax - 1 else maxPathLen
  }

  /** The checks on the parent, which only the root is exempt from. */
  predicate ParentAccepted(chain: Chain, certHash: Bytes32, ca: bool, parent: VerifiedCert, now: nat) {
    certHash == chain.rootHash ||
    (|parent.pubKey| > 0 && parent.notAfter >= now && parent.ca && (!ca || parent.maxPathLen != 0))
  }

  /** The verification that the cache skips. */
  function VerifyFresh(chain: Chain, cert: bytes, ca: bool, parent: VerifiedCert, now: nat): Result<VerifiedCert> {
    var tbs :- TbsOf(cert);
    var t :- ParseTbs(chain.keccak, cert, tbs, ca, now);
    :- Require(parent.subjectHash == t.issuerHash);
    var _ :- VerifySignature(chain, cert, tbs, parent.pubKey);
    Ok(VerifiedCert(ca, t.notAfter, Constrain(t.maxPathLen, parent.maxPathLen), t.subjectHash, t.pubKey))
  }

  /** What the contract would answer without its cache. */
  function VerifyUncached(chain: Chain, cert: bytes, certHash: Bytes32, ca: bool, parent: VerifiedCert,
                          now: nat): Result<VerifiedCert> {
    var accepted := ParentAccepted(chain, certHash, ca, parent, now);
    :- Require(accepted);
    VerifyFresh(chain, cert, ca, parent, now)
  }

  /** The new store and the answer of one `_verifyCert`. */
  datatype Answer = Answer(store: Store, cert: VerifiedCert)

  function VerifyCert(chain: Chain, s: Store, cert: bytes, certHash: Bytes32, ca: bool, parent: VerifiedCert,
                      now: nat): Result<Answer> {
    var accepted := ParentAccepted(chain, certHash, ca, parent, now);
    :- Require(accepted);
    var cached := Load(s, certHash);
    if |cached.pubKey| != 0 then
      :- Require(cached.notAfter >= now);
      :- Require(cached.ca == ca);
      Ok(Answer(s, cached))
    else
      var verified :- VerifyFresh(chain, cert, ca, parent, now);
      Ok(Answer(s[certHash := verified], verified))
  }

  // ---------------------------------------------------------------- runs

  /** One external call: `verifyCACert` or `verifyClientCert` at block time `now`. */
  datatype Call = Call(cert: bytes, ca: bool, parentHash: Bytes32, now: nat)

  function Serve(chain: Chain, s: Store, call: Call): Result<Answer> {
    VerifyCert(chain, s, call.cert, chain.keccak(call.cert), call.ca, Load(s, call.parentHash), call.now)
  }

  /** What a call returns to its caller: the certificate's hash for a CA, and the verified certificate for a client. */
  datatype Reply = CertHash(hash: Bytes32) | Verified(cert: VerifiedCert)

  function ReplyTo(chain: Chain, call: Call, answer: Answer): Reply {
    if call.ca then CertHash(chain.keccak(call.cert)) else Verified(answer.cert)
  }

  /** A reverted call leaves the store alone. */
  function Step(chain: Chain, s: Store, call: Call): Store {
    match Serve(chain, s, call)
    case Ok(answer) => answer.store
    case Revert => s
  }

  /** The store after a run of calls since deployment. */
  function Run(chain: Chain, calls: seq<Call>): Store {
    if |calls| == 0 then InitialStore(chain)
    else Step(chain, Run(chain, calls[..|calls| - 1]), calls[|calls| - 1])
  }

  /** Call `i` of the run is the one that put its certificate into the store. */
  ghost predicate Stored(chain: Chain, calls: seq<Call>, i: nat) {
    && i < |calls|
    && chain.keccak(calls[i].cert) !in Run(chain, calls[..i])
    && Serve(chain, Run(chain, calls[..i]), calls[i]).Ok?
  }

  /** The entry that call `i` stored. */
  function EntryOf(chain: Chain, calls: seq<Call>, i: nat): VerifiedCert
    requires i < |calls| && Serve(chain, Run(chain, calls[..i]), calls[i]).Ok?
  {
    Serve(chain, Run(chain, calls[..i]), calls[i]).value.cert
  }
}
