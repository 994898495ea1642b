/**
 Runs over both contracts: certificate calls, validations and stores from attestations in any order, each one
 transaction (CertManager.sol:60-77, DKIMOracle.sol:73-111, DKIMRegistry.sol:36-46).
 */
module Interleaving {
  import opened Basics
  import opened CborDecode
  import opened CertParser
  import opened CertChain
  import opened CertProperties
  import opened CertBundle
  import VerifiedCerts
  import opened Cose
  import opened UserData
  import opened Attestation
  import opened Validation
  import opened EndToEnd
  import R = Registry
  import P = RegistryProperties

  datatype Event =
    | CertCall(call: Call)
    | Validate(tbs: bytes, signature: bytes, at: nat)
    | StoreKeys(attestation: bytes, at: nat)
  {
    /** The block time. */
    function Time(): nat { if CertCall? then call.now else at }
  }

  /** The storage of both contracts. */
  datatype World = World(certs: CertChain.Store, registry: R.Storage)

  function StepWorld(chain: Chain, world: World, event: Event): World {
    match event
    case CertCall(call) => world.(certs := Step(chain, world.certs, call))
    case Validate(tbs, signature, at) =>
      (match ValidateAttestation(chain, world.certs, tbs, signature, at)
       case Ok((_, answer)) => world.(certs := answer.store)
       case Revert => world)
    case StoreKeys(attestation, at) =>
      (match StoreFromAttestation(chain, world.certs, world.registry, attestation, at)
       case Ok((answer, registry)) => World(answer.store, registry)
       case Revert => world)
  }

  /** The storage after a run of transactions since deployment. */
  function RunWorld(chain: Chain, events: seq<Event>): World {
    if |events| == 0 then World(InitialStore(chain), R.NOTHING_STORED)
    else StepWorld(chain, RunWorld(chain, events[..|events| - 1]), events[|events| - 1])
  }

  // ---------------------------------------------------------------- the certificate store

  /** The certificate and the bundle that signed bytes parse to. */
  function BundleOf(keccak: Hash, tbs: bytes): Result<(bytes, seq<bytes>)> {
    var p :- ParseAttestation(keccak, tbs);
    var cert :- SliceOf(tbs, p.cert);
    var cabundle :- SliceAll(tbs, p.cabundle);
    Ok((cert, cabundle))
  }

  /** The certificate calls that verifying that bundle makes. */
  function CallsOfBundle(chain: Chain, tbs: bytes, now: nat): seq<Call> {
    match BundleOf(chain.keccak, tbs)
    case Ok((cert, cabundle)) => BundleCalls(chain, cert, cabundle, VerifiedCerts.ZERO32, now)
    case Revert => []
  }

  /** The certificate calls of one transaction; one that reverts, as a whole, makes none that last. */
  function EventCalls(chain: Chain, world: World, event: Event): seq<Call> {
    match event
    case CertCall(call) => [call]
    case Validate(tbs, signature, at) =>
      if ValidateAttestation(chain, world.certs, tbs, signature, at).Ok? then CallsOfBundle(chain, tbs, at) else []
    case StoreKeys(attestation, at) =>
      if StoreFromAttestation(chain, world.certs, world.registry, attestation, at).Ok?
      then CallsOfBundle(chain, DecodeAttestationTbs(attestation).value.0, at) else []
  }

  function AllCalls(chain: Chain, events: seq<Event>): seq<Call> {
    if |events| == 0 then []
    else
      var n := |events| - 1;
      AllCalls(chain, events[..n]) + EventCalls(chain, RunWorld(chain, events[..n]), events[n])
  }

  /** A verified bundle extends the run by its calls. */
  lemma {:induction false} BundleExtends(chain: Chain, calls: seq<Call>, tbs: bytes, cert: bytes, cabundle: seq<bytes>,
                                         now: nat, answer: Answer)
    requires BundleOf(chain.keccak, tbs) == Ok((cert, cabundle))
    requires VerifyBundle(chain, Run(chain, calls), cert, cabundle, now) == Ok(answer)
    ensures Run(chain, calls + CallsOfBundle(chain, tbs, now)) == answer.store
  {
    hide Run, Serve, VerifyBundleFrom, BundleCalls, BundleOf;
    var before, last := BundleIsRun(chain, calls, cert, cabundle, VerifiedCerts.ZERO32, now, answer);
    RunNext(chain, before, last);
  }

  lemma ValidatedParts(chain: Chain, s: CertChain.Store, tbs: bytes, signature: bytes, now: nat)
    returns (cert: bytes, cabundle: seq<bytes>)
    requires ValidateAttestation(chain, s, tbs, signature, now).Ok?
    ensures BundleOf(chain.keccak, tbs) == Ok((cert, cabundle))
    ensures VerifyBundle(chain, s, cert, cabundle, now)
            == Ok(ValidateAttestation(chain, s, tbs, signature, now).value.1)
  {
    hide ParseAttestation, ShapeAccepted, VerifyBundle, SliceOf, SliceAll;
    var p := ParseAttestation(chain.keccak, tbs).value;
    cert, cabundle := SliceOf(tbs, p.cert).value, SliceAll(tbs, p.cabundle).value;
  }

  lemma {:induction false} StepExtends(chain: Chain, calls: seq<Call>, world: World, event: Event)
    requires world.certs == Run(chain, calls)
    ensures StepWorld(chain, world, event).certs == Run(chain, calls + EventCalls(chain, world, event))
  {
    hide Run, Step, ValidateAttestation, StoreFromAttestation, CallsOfBundle, BundleOf, VerifyBundle;
    assert calls + [] == calls;
    match event
    case CertCall(call) => RunNext(chain, calls, call);
    case Validate(tbs, signature, at) =>
      if ValidateAttestation(chain, world.certs, tbs, signature, at).Ok? {
        var cert, cabundle := ValidatedParts(chain, world.certs, tbs, signature, at);
        BundleExtends(chain, calls, tbs, cert, cabundle, at,
                      ValidateAttestation(chain, world.certs, tbs, signature, at).value.1);
      }
    case StoreKeys(attestation, at) =>
      var stored := StoreFromAttestation(chain, world.certs, world.registry, attestation, at);
      if stored.Ok? {
        var tbs, signature, p, cert, cabundle := StoreParts(chain, world.certs, world.registry, attestation, at);
        PartsAreBundle(chain.keccak, attestation, tbs, signature, p, cert, cabundle);
        BundleExtends(chain, calls, tbs, cert, cabundle, at, stored.value.0);
      }
  }

  lemma PartsAreBundle(keccak: Hash, attestation: bytes, tbs: bytes, signature: bytes, p: Ptrs, cert: bytes,
                       cabundle: seq<bytes>)
    requires Parsed(keccak, attestation, tbs, signature, p)
    requires SliceOf(tbs, p.cert) == Ok(cert) && SliceAll(tbs, p.cabundle) == Ok(cabundle)
    ensures DecodeAttestationTbs(attestation).Ok? && DecodeAttestationTbs(attestation).value.0 == tbs
    ensures BundleOf(keccak, tbs) == Ok((cert, cabundle))
  {
    hide DecodeAttestationTbs, ParseAttestation, SliceOf, SliceAll;
  }

  /** Whatever is done with attestations, the certificate store is one of a run of certificate calls. */
  lemma {:induction false} CertsAreRun(chain: Chain, events: seq<Event>)
    ensures RunWorld(chain, events).certs == Run(chain, AllCalls(chain, events))
  {
    hide StepWorld, EventCalls;
    if |events| == 0 {
    } else {
      var n := |events| - 1;
      CertsAreRun(chain, events[..n]);
      StepExtends(chain, AllCalls(chain, events[..n]), RunWorld(chain, events[..n]), events[n]);
    }
  }

  // ---------------------------------------------------------------- time and prefixes

  /** Block time does not run backwards. */
  ghost predicate Ordered(events: seq<Event>) {
    forall i, j :: 0 <= i < j < |events| ==> events[i].Time() <= events[j].Time()
  }

  ghost predicate CallsBy(calls: seq<Call>, now: nat) {
    forall k {:trigger calls[k]} :: 0 <= k < |calls| ==> calls[k].now <= now
  }

  lemma BundleCallsBy(chain: Chain, world: World, event: Event)
    ensures CallsBy(EventCalls(chain, world, event), event.Time())
  {
    hide ValidateAttestation, StoreFromAttestation, DecodeAttestationTbs, BundleOf, BundleCalls;
  }

  lemma {:induction false} AllCallsBy(chain: Chain, events: seq<Event>, now: nat)
    requires forall i {:trigger events[i]} :: 0 <= i < |events| ==> events[i].Time() <= now
    ensures CallsBy(AllCalls(chain, events), now)
  {
    hide StepWorld, EventCalls;
    if |events| == 0 {
    } else {
      var n := |events| - 1;
      AllCallsBy(chain, events[..n], now);
      BundleCallsBy(chain, RunWorld(chain, events[..n]), events[n]);
    }
  }

  lemma {:induction false} CallsPrefix(chain: Chain, events: seq<Event>, i: nat)
    requires i <= |events|
    ensures AllCalls(chain, events[..i]) <= AllCalls(chain, events)
    decreases |events|
  {
    hide StepWorld, EventCalls;
    if i == |events| {
      assert events[..i] == events;
    } else {
      var n := |events| - 1;
      CallsPrefix(chain, events[..n], i);
      assert events[..n][..i] == events[..i];
    }
  }

  /** No two certificates of the run collide under the hash, and none hashes to zero. */
  ghost predicate HashesApart(chain: Chain, calls: seq<Call>) {
    && CollisionFree(chain, calls)
    && forall k {:trigger calls[k]} :: 0 <= k < |calls| ==> chain.keccak(calls[k].cert) != VerifiedCerts.ZERO32
  }

  lemma ApartPrefix(chain: Chain, calls: seq<Call>, all: seq<Call>)
    requires HashesApart(chain, all) && calls <= all
    ensures HashesApart(chain, calls)
  {
    assert forall k :: 0 <= k < |calls| ==> calls[k] == all[k];
  }

  // ---------------------------------------------------------------- the registry

  /** A key that offers bring to a pair without one is one of theirs. */
  lemma {:induction false} KeyWasOffered(s: R.Storage, offers: seq<R.Offer>, pair: R.Pair) returns (j: nat)
    requires |s.Key(pair)| == 0 && |P.Apply(s, offers).Key(pair)| > 0
    ensures j < |offers| && R.PairOf(offers[j]) == pair && offers[j].publicKey == P.Apply(s, offers).Key(pair)
    decreases |offers|
  {
    hide R.PairOf;
    var n := |offers| - 1;
    if |P.Apply(s, offers[..n]).Key(pair)| > 0 {
      j := KeyWasOffered(s, offers[..n], pair);
    } else {
      j := n;
    }
  }

  /** The transaction stores from an attestation whose user data, as extracted, offer this key for the pair. */
  ghost predicate OffersKey(event: Event, p: Ptrs, pair: R.Pair, key: bytes) {
    && event.StoreKeys? && ExtractBytes(event.attestation, p.userData).Ok?
    && var offers := P.OffersOf(ExtractBytes(event.attestation, p.userData).value);
      offers.Ok? && exists j {:trigger offers.value[j]} ::
        0 <= j < |offers.value| && R.PairOf(offers.value[j]) == pair && offers.value[j].publicKey == key
  }

  /** A step that brings a key to a pair is a store from an attestation that offers it. */
  lemma {:induction false} KeyStep(chain: Chain, world: World, event: Event, pair: R.Pair) returns (p: Ptrs)
    requires |world.registry.Key(pair)| == 0 && |StepWorld(chain, world, event).registry.Key(pair)| > 0
    ensures event.StoreKeys?
    ensures StoreFromAttestation(chain, world.certs, world.registry, event.attestation, event.at).Ok?
    ensures DecodeAttestationTbs(event.attestation).Ok?
    ensures ParseAttestation(chain.keccak, DecodeAttestationTbs(event.attestation).value.0) == Ok(p)
    ensures OffersKey(event, p, pair, StepWorld(chain, world, event).registry.Key(pair))
  {
    hide Step, DecodeAttestationTbs, ParseAttestation, ShapeAccepted, VerifyBundle, SliceOf, SliceAll, ExtractBytes,
      R.ParseAndStore, P.OffersOf, P.Apply, R.PairOf;
    p := ParseAttestation(chain.keccak, DecodeAttestationTbs(event.attestation).value.0).value;
    var data := ExtractBytes(event.attestation, p.userData).value;
    P.StoreIsFold(data, world.registry);
    var j := KeyWasOffered(world.registry, P.OffersOf(data).value, pair);
  }

  /** A key once stored is never changed, by whatever transaction. */
  lemma {:induction false} KeyStays(chain: Chain, world: World, event: Event, pair: R.Pair)
    requires |world.registry.Key(pair)| > 0
    ensures StepWorld(chain, world, event).registry.Key(pair) == world.registry.Key(pair)
  {
    hide Step, DecodeAttestationTbs, ValidateAttestation, ExtractBytes, R.ParseAndStore, P.OffersOf, P.Apply,
      R.Storage.Key;
    if event.StoreKeys? && StoreFromAttestation(chain, world.certs, world.registry, event.attestation, event.at).Ok? {
      var (ptrs, answer) := DecodeAndValidate(chain, world.certs, event.attestation, event.at).value;
      if !ptrs.userData.IsNull() {
        var data := ExtractBytes(event.attestation, ptrs.userData).value;
        P.StoreIsFold(data, world.registry);
        P.KeyKept(world.registry, P.OffersOf(data).value, pair);
      }
    }
  }

  // ---------------------------------------------------------------- every key has a chain

  /**
   What stands behind a key: the transaction offers it, extracted by the user data of what its attestation parses to,
   and the bundle and certificate it parses to are stored under the root.
   */
  ghost predicate Attested(chain: Chain, event: Event, p: Ptrs, pair: R.Pair, key: bytes, certs: CertChain.Store) {
    && event.StoreKeys? && DecodeAttestationTbs(event.attestation).Ok?
    && var tbs := DecodeAttestationTbs(event.attestation).value.0;
    && ParseAttestation(chain.keccak, tbs) == Ok(p) && OffersKey(event, p, pair, key)
    && BundleOf(chain.keccak, tbs).Ok?
    && UnderChain(chain, certs, BundleOf(chain.keccak, tbs).value.0, BundleOf(chain.keccak, tbs).value.1, event.at)
  }

  /** The first transaction after which the pair has a key. */
  lemma {:induction false} KeyHasFirst(chain: Chain, events: seq<Event>, pair: R.Pair) returns (i: nat)
    requires |RunWorld(chain, events).registry.Key(pair)| > 0
    ensures i < |events| && |RunWorld(chain, events[..i]).registry.Key(pair)| == 0
    ensures RunWorld(chain, events[..i + 1]) == StepWorld(chain, RunWorld(chain, events[..i]), events[i])
    ensures RunWorld(chain, events[..i + 1]).registry.Key(pair) == RunWorld(chain, events).registry.Key(pair)
    decreases |events|
  {
    hide StepWorld, R.Storage.Key;
    if |events| == 0 {
      NoKeyAtFirst(pair);
    } else {
      var n := |events| - 1;
      if |RunWorld(chain, events[..n]).registry.Key(pair)| > 0 {
        i := KeyHasFirst(chain, events[..n], pair);
        assert events[..n][..i] == events[..i] && events[..n][..i + 1] == events[..i + 1];
        KeyStays(chain, RunWorld(chain, events[..n]), events[n], pair);
      } else {
        i := n;
        assert events[..n + 1] == events;
      }
    }
  }

  lemma NoKeyAtFirst(pair: R.Pair)
    ensures R.NOTHING_STORED.Key(pair) == []
  {}

  /** The chain behind one successful store of a run. */
  lemma {:induction false} StoreUnderChain(chain: Chain, events: seq<Event>, i: nat)
    requires chain.Valid() && chain.rootHash != VerifiedCerts.ZERO32 && Ordered(events) && i < |events|
    requires events[i].StoreKeys?
    requires HashesApart(chain, AllCalls(chain, events[..i + 1]))
    requires RunWorld(chain, events[..i + 1]) == StepWorld(chain, RunWorld(chain, events[..i]), events[i])
    requires var before := RunWorld(chain, events[..i]);
      StoreFromAttestation(chain, before.certs, before.registry, events[i].attestation, events[i].at).Ok?
    ensures DecodeAttestationTbs(events[i].attestation).Ok?
    ensures var tbs := DecodeAttestationTbs(events[i].attestation).value.0;
      && BundleOf(chain.keccak, tbs).Ok?
      && UnderChain(chain, RunWorld(chain, events[..i + 1]).certs, BundleOf(chain.keccak, tbs).value.0,
                    BundleOf(chain.keccak, tbs).value.1, events[i].at)
  {
    hide RunWorld, Run, StoreFromAttestation, DecodeAttestationTbs, BundleOf, UnderChain, SliceOf, SliceAll,
      BundleCalls, CollisionFree, Ordered;
    var before, calls := RunWorld(chain, events[..i]), AllCalls(chain, events[..i]);
    var attestation, at := events[i].attestation, events[i].at;
    var tbs, signature, p, cert, cabundle := StoreParts(chain, before.certs, before.registry, attestation, at);
    PartsAreBundle(chain.keccak, attestation, tbs, signature, p, cert, cabundle);
    CertsAreRun(chain, events[..i]);
    assert events[..i + 1][..i] == events[..i];
    assert AllCalls(chain, events[..i + 1]) == calls + BundleCalls(chain, cert, cabundle, VerifiedCerts.ZERO32, at);
    ApartPrefix(chain, calls, AllCalls(chain, events[..i + 1]));
    EarlierBy(events, i);
    AllCallsBy(chain, events[..i], at);
    var stored := StoreFromAttestation(chain, before.certs, before.registry, attestation, at).value;
    StoredUnderChain(chain, calls, before.registry, attestation, tbs, signature, p, cert, cabundle, at, stored.0,
                     stored.1);
  }

  lemma EarlierBy(events: seq<Event>, i: nat)
    requires Ordered(events) && i < |events|
    ensures forall k {:trigger events[..i][k]} :: 0 <= k < i ==> events[..i][k].Time() <= events[i].Time()
  {}

  /** Entries stay, so what is under a chain stays so. */
  lemma {:induction false} ChainStays(chain: Chain, events: seq<Event>, i: nat, cert: bytes, cabundle: seq<bytes>,
                                      now: nat)
    requires chain.Valid() && i <= |events|
    requires UnderChain(chain, RunWorld(chain, events[..i]).certs, cert, cabundle, now)
    ensures UnderChain(chain, RunWorld(chain, events).certs, cert, cabundle, now)
  {
    hide RunWorld, Run, Begun;
    var all, calls := AllCalls(chain, events), AllCalls(chain, events[..i]);
    CertsAreRun(chain, events);
    CertsAreRun(chain, events[..i]);
    CallsPrefix(chain, events, i);
    assert all[..|calls|] == calls;
    RunKeeps(chain, all, |calls|);
  }

  /**
   Every key in the registry stands under a chain. In every state that certificate calls, validations and stores reach
   in any order, a pair with a key got it from the first store whose attestation offered it one while it had none; and
   the bundle and the certificate of that attestation started at the root and are stored in their roles, valid when
   the key was stored.
   */
  lemma {:induction false} KeysUnderChains(chain: Chain, events: seq<Event>, pair: R.Pair) returns (i: nat, p: Ptrs)
    requires chain.Valid() && chain.rootHash != VerifiedCerts.ZERO32 && Ordered(events)
    requires HashesApart(chain, AllCalls(chain, events))
    requires |RunWorld(chain, events).registry.Key(pair)| > 0
    ensures i < |events| && |RunWorld(chain, events[..i]).registry.Key(pair)| == 0
    ensures var key := RunWorld(chain, events).registry.Key(pair);
      && Attested(chain, events[i], p, pair, key, RunWorld(chain, events[..i + 1]).certs)
      && Attested(chain, events[i], p, pair, key, RunWorld(chain, events).certs)
  {
    hide RunWorld, AllCalls, StepWorld, R.Storage.Key, OffersKey, UnderChain, BundleOf, DecodeAttestationTbs,
      StoreFromAttestation, HashesApart, Ordered, ParseAttestation;
    i := KeyHasFirst(chain, events, pair);
    p := KeyStep(chain, RunWorld(chain, events[..i]), events[i], pair);
    CallsPrefix(chain, events, i + 1);
    ApartPrefix(chain, AllCalls(chain, events[..i + 1]), AllCalls(chain, events));
    StoreUnderChain(chain, events, i);
    var bundle := BundleOf(chain.keccak, DecodeAttestationTbs(events[i].attestation).value.0).value;
    ChainStays(chain, events, i + 1, bundle.0, bundle.1, events[i].at);
  }
}
