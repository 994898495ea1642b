/**
 `verifyCertBundle` (DKIMOracle.sol:113-122): a chain of CA certificates and a client certificate in one transaction.
 */
module CertBundle {
  import opened Basics
  import opened CertParser
  import opened VerifiedCerts
  import opened CertChain
  import opened CertManagers
  import opened CertProperties

  function VerifyBundleFrom(chain: Chain, s: Store, cert: bytes, cabundle: seq<bytes>, parentHash: Bytes32,
                            now: nat): Result<Answer>
    decreases |cabundle|
  {
    if |cabundle| == 0 then
      Serve(chain, s, Call(cert, false, parentHash, now))
    else
      var answer :- Serve(chain, s, Call(cabundle[0], true, parentHash, now));
      VerifyBundleFrom(chain, answer.store, cert, cabundle[1..], chain.keccak(cabundle[0]), now)
  }

  function VerifyBundle(chain: Chain, s: Store, cert: bytes, cabundle: seq<bytes>, now: nat): Result<Answer> {
    VerifyBundleFrom(chain, s, cert, cabundle, ZERO32, now)
  }

  /** The loop over the bundle with its running `parentHash`; a revert undoes the whole transaction. */
  method RunVerifyBundle(manager: CertManager, cert: bytes, cabundle: seq<bytes>, now: nat)
    returns (r: Result<VerifiedCert>)
    requires manager.Valid()
    modifies manager
    ensures manager.Valid()
    ensures match VerifyBundle(manager.chain, old(manager.store), cert, cabundle, now)
            case Ok(answer) => manager.store == answer.store && r == Ok(answer.cert)
            case Revert => r.Revert? && manager.verified == old(manager.verified) && manager.store == old(manager.store)
  {
    var before, parentHash := manager.verified, ZERO32;
    ghost var storeBefore := manager.store;
    ghost var expected := VerifyBundle(manager.chain, manager.store, cert, cabundle, now);
    for i := 0 to |cabundle|
      invariant manager.Valid()
      invariant expected == VerifyBundleFrom(manager.chain, manager.store, cert, cabundle[i..], parentHash, now)
    {
      var hash := manager.VerifyCACert(cabundle[i], parentHash, now);
      if hash.Revert? {
        manager.verified, manager.store := before, storeBefore;
        return Revert;
      }
      parentHash := hash.value;
      assert cabundle[i..][1..] == cabundle[i + 1..];
    }
    r := manager.VerifyClientCert(cert, parentHash, now);
    if r.Revert? {
      manager.verified, manager.store := before, storeBefore;
    }
  }

  // ---------------------------------------------------------------- a bundle is a run of calls

  function BundleCalls(chain: Chain, cert: bytes, cabundle: seq<bytes>, parentHash: Bytes32,
                       now: nat): (calls: seq<Call>)
    decreases |cabundle|
    ensures |calls| == |cabundle| + 1
    ensures calls[0].parentHash == parentHash
    ensures forall k :: 0 <= k < |cabundle| ==> calls[k].cert == cabundle[k] && calls[k].ca
    ensures calls[|cabundle|].cert == cert && !calls[|cabundle|].ca
    ensures forall k :: 0 <= k <= |cabundle| ==> calls[k].now == now
  {
    if |cabundle| == 0 then [Call(cert, false, parentHash, now)]
    else [Call(cabundle[0], true, parentHash, now)]
         + BundleCalls(chain, cert, cabundle[1..], chain.keccak(cabundle[0]), now)
  }

  /** Every call of the list succeeds when served in turn after `calls`. */
  ghost predicate AllServed(chain: Chain, calls: seq<Call>, from: nat)
    requires from <= |calls|
  {
    forall k :: from <= k < |calls| ==> Serve(chain, Run(chain, calls[..k]), calls[k]).Ok?
  }

  lemma {:induction false} RunNext(chain: Chain, calls: seq<Call>, call: Call)
    ensures Run(chain, calls + [call]) == Step(chain, Run(chain, calls), call)
  {
    assert (calls + [call])[..|calls|] == calls;
  }

  lemma AppendFirst<T>(a: seq<T>, x: T, b: seq<T>)
    ensures a + ([x] + b) == (a + [x]) + b
  {}

  /** A successful bundle has served its calls one after the other, the client's last. */
  lemma {:induction false} BundleIsRun(chain: Chain, calls: seq<Call>, cert: bytes, cabundle: seq<bytes>,
                                       parentHash: Bytes32, now: nat, answer: Answer)
    returns (before: seq<Call>, last: Call)
    requires VerifyBundleFrom(chain, Run(chain, calls), cert, cabundle, parentHash, now) == Ok(answer)
    ensures calls + BundleCalls(chain, cert, cabundle, parentHash, now) == before + [last]
    ensures last.cert == cert && !last.ca && Serve(chain, Run(chain, before), last) == Ok(answer)
    ensures AllServed(chain, before + [last], |calls|)
    decreases |cabundle|
  {
    var bundle := BundleCalls(chain, cert, cabundle, parentHash, now);
    RunNext(chain, calls, bundle[0]);
    if |cabundle| == 0 {
      before, last := calls, bundle[0];
    } else {
      var rest := BundleCalls(chain, cert, cabundle[1..], chain.keccak(cabundle[0]), now);
      AppendFirst(calls, bundle[0], rest);
      before, last := BundleIsRun(chain, calls + [bundle[0]], cert, cabundle[1..], chain.keccak(cabundle[0]),
                                  now, answer);
    }
    ServedFrom(chain, calls, bundle[0], before + [last]);
  }

  lemma {:induction false} ServedFrom(chain: Chain, calls: seq<Call>, call: Call, all: seq<Call>)
    requires |all| > |calls| && all[..|calls|] == calls && all[|calls|] == call
    requires Serve(chain, Run(chain, calls), call).Ok? && AllServed(chain, all, |calls| + 1)
    ensures AllServed(chain, all, |calls|)
  {}

  // ---------------------------------------------------------------- what a served call guarantees

  /** The start of a certificate's validity. */
  function NotBefore(chain: Chain, cert: bytes): Result<nat> {
    var tbs :- TbsOf(cert);
    var nodes :- FindTbsNodes(chain.keccak, cert, tbs);
    var v :- ReadValidity(cert, nodes.validity);
    Ok(v.notBefore)
  }

  /** A served certificate is in the store, in its role, and not expired. */
  ghost predicate StoredInRole(chain: Chain, s: Store, cert: bytes, ca: bool, now: nat) {
    var h := chain.keccak(cert);
    h in s && s[h].ca == ca && s[h].notAfter >= now
  }

  lemma ServedIsStored(chain: Chain, s: Store, call: Call)
    requires KeysPresent(s) && Serve(chain, s, call).Ok?
    ensures var answer := Serve(chain, s, call).value;
      && StoredInRole(chain, answer.store, call.cert, call.ca, call.now)
      && answer.store[chain.keccak(call.cert)] == answer.cert
  {
    var parent := Load(s, call.parentHash);
    FreshKey(chain, call.cert, call.ca, parent, call.now);
    if VerifyFresh(chain, call.cert, call.ca, parent, call.now).Ok? {
      ParseAtOtherTime(chain.keccak, call.cert, TbsOf(call.cert).value, call.ca, call.now, call.now);
    }
  }

  /** ... and stays so to the end of the run. */
  lemma {:induction false} ServedStays(chain: Chain, calls: seq<Call>, k: nat)
    requires chain.Valid() && k < |calls| && Serve(chain, Run(chain, calls[..k]), calls[k]).Ok?
    ensures StoredInRole(chain, Run(chain, calls), calls[k].cert, calls[k].ca, calls[k].now)
  {
    RunKeeps(chain, calls[..k], 0);
    ServedIsStored(chain, Run(chain, calls[..k]), calls[k]);
    RunPrefix(chain, calls, k);
    RunKeeps(chain, calls, k + 1);
  }

  /** Every non-root entry belongs to a certificate of the run whose validity had begun. */
  lemma {:induction false} EntryHadBegun(chain: Chain, calls: seq<Call>, h: Bytes32, now: nat) returns (i: nat)
    requires chain.Valid() && h in Run(chain, calls) && h != chain.rootHash
    requires forall k :: 0 <= k < |calls| ==> calls[k].now <= now
    ensures i < |calls| && chain.keccak(calls[i].cert) == h
    ensures NotBefore(chain, calls[i].cert).Ok? && NotBefore(chain, calls[i].cert).value <= now
  {
    i := EntryWasStored(chain, calls, h);
    StoredFacts(chain, calls, i);
    var c := calls[i];
    ParseAtOtherTime(chain.keccak, c.cert, TbsOf(c.cert).value, c.ca, c.now, c.now);
  }

  /** Nothing is ever stored under the zero hash, as long as no certificate hashes to it. */
  lemma {:induction false} ZeroIsAbsent(chain: Chain, calls: seq<Call>)
    requires chain.Valid() && chain.rootHash != ZERO32
    requires forall k :: 0 <= k < |calls| ==> chain.keccak(calls[k].cert) != ZERO32
    ensures ZERO32 !in Run(chain, calls)
  {
    if ZERO32 in Run(chain, calls) {
      var i := EntryWasStored(chain, calls, ZERO32);
    }
  }

  /** Among these certificates there is no hash collision. */
  ghost predicate CollisionFree(chain: Chain, calls: seq<Call>) {
    forall i, j | 0 <= i < |calls| && 0 <= j < |calls| ::
      chain.keccak(calls[i].cert) == chain.keccak(calls[j].cert) ==> calls[i].cert == calls[j].cert
  }

  /** The certificate's validity has begun. */
  ghost predicate Begun(chain: Chain, cert: bytes, now: nat) {
    NotBefore(chain, cert).Ok? && NotBefore(chain, cert).value <= now
  }

  /** A call served in a run: its certificate is stored in its role, current, and the root or begun. */
  lemma {:induction false} ServedInRun(chain: Chain, all: seq<Call>, k: nat, now: nat)
    requires chain.Valid() && k < |all| && Serve(chain, Run(chain, all[..k]), all[k]).Ok? && CollisionFree(chain, all)
    requires all[k].now == now && forall i :: 0 <= i < |all| ==> all[i].now <= now
    ensures StoredInRole(chain, Run(chain, all), all[k].cert, all[k].ca, now)
    ensures chain.keccak(all[k].cert) != chain.rootHash ==> Begun(chain, all[k].cert, now)
  {
    ServedStays(chain, all, k);
    if chain.keccak(all[k].cert) != chain.rootHash {
      var i := EntryHadBegun(chain, all, chain.keccak(all[k].cert), now);
    }
  }

  lemma {:induction false} BundleMember(chain: Chain, calls: seq<Call>, bundle: seq<Call>, k: nat, now: nat)
    requires chain.Valid() && k < |bundle| && AllServed(chain, calls + bundle, |calls|)
    requires CollisionFree(chain, calls + bundle)
    requires forall i :: 0 <= i < |calls| ==> calls[i].now <= now
    requires forall i :: 0 <= i < |bundle| ==> bundle[i].now == now
    ensures StoredInRole(chain, Run(chain, calls + bundle), bundle[k].cert, bundle[k].ca, now)
    ensures chain.keccak(bundle[k].cert) != chain.rootHash ==> Begun(chain, bundle[k].cert, now)
  {
    var all := calls + bundle;
    assert all[|calls| + k] == bundle[k];
    ServedInRun(chain, all, |calls| + k, now);
  }

  /** A call without a parent can only be for the root. */
  lemma {:induction false} FirstIsRoot(chain: Chain, calls: seq<Call>, call: Call)
    requires chain.Valid() && chain.rootHash != ZERO32 && call.parentHash == ZERO32
    requires forall k :: 0 <= k < |calls| ==> chain.keccak(calls[k].cert) != ZERO32
    requires Serve(chain, Run(chain, calls), call).Ok?
    ensures chain.keccak(call.cert) == chain.rootHash
  {
    ZeroIsAbsent(chain, calls);
  }

  /**
   The bundle theorem. After any run of calls, if a non-empty bundle verifies at `now`, then it starts
   at the root; every bundle certificate is stored as a CA and the client certificate as a non-CA; none
   has expired; and every one but the root is already valid.
   */
  lemma {:induction false} BundleTheorem(chain: Chain, calls: seq<Call>, cert: bytes, cabundle: seq<bytes>, now: nat,
                                         answer: Answer)
    requires chain.Valid() && |cabundle| > 0 && chain.rootHash != ZERO32
    requires forall k :: 0 <= k < |calls| ==> calls[k].now <= now
    requires forall k :: 0 <= k < |calls| ==> chain.keccak(calls[k].cert) != ZERO32
    requires CollisionFree(chain, calls + BundleCalls(chain, cert, cabundle, ZERO32, now))
    requires VerifyBundle(chain, Run(chain, calls), cert, cabundle, now) == Ok(answer)
    ensures chain.keccak(cabundle[0]) == chain.rootHash
    ensures forall k :: 0 <= k < |cabundle| ==> StoredInRole(chain, answer.store, cabundle[k], true, now)
    ensures forall k :: 0 <= k < |cabundle| && chain.keccak(cabundle[k]) != chain.rootHash ==>
      Begun(chain, cabundle[k], now)
    ensures StoredInRole(chain, answer.store, cert, false, now) && Begun(chain, cert, now)
    ensures answer.cert == answer.store[chain.keccak(cert)]
  {
    hide Serve, Run, StoredInRole, Begun;
    var bundle := BundleCalls(chain, cert, cabundle, ZERO32, now);
    var before, last := BundleIsRun(chain, calls, cert, cabundle, ZERO32, now, answer);
    ClientIsLast(chain, before, last, answer);
    assert answer.store == Run(chain, calls + bundle);
    FirstIsRoot(chain, calls, bundle[0]);
    forall k | 0 <= k < |bundle|
      ensures StoredInRole(chain, answer.store, bundle[k].cert, bundle[k].ca, now)
      ensures chain.keccak(bundle[k].cert) != chain.rootHash ==> Begun(chain, bundle[k].cert, now)
    {
      BundleMember(chain, calls, bundle, k, now);
    }
  }

  /** The client's answer is its entry, and it is not the root, which is a CA. */
  lemma {:induction false} ClientIsLast(chain: Chain, before: seq<Call>, last: Call, answer: Answer)
    requires chain.Valid() && !last.ca && Serve(chain, Run(chain, before), last) == Ok(answer)
    ensures answer.store == Run(chain, before + [last])
    ensures chain.keccak(last.cert) in answer.store && answer.cert == answer.store[chain.keccak(last.cert)]
    ensures chain.keccak(last.cert) != chain.rootHash
  {
    RunKeeps(chain, before, 0);
    ServedIsStored(chain, Run(chain, before), last);
    RunNext(chain, before, last);
    RootStays(chain, before + [last]);
  }
}
