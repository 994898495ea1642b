/**
 What every reachable certificate store keeps: entries never change, cached answers agree with fresh
 ones, issuing chains descend from the root, and path lengths bound the CAs below them.
 */
module CertProperties {
  import opened Basics
  import opened Asn1Decode
  import opened CertParser
  import opened VerifiedCerts
  import opened CertChain

  // ---------------------------------------------------------------- entries

  /** Every stored entry has a 96-byte key, so being stored and being a cache hit are the same thing. */
  ghost predicate KeysPresent(s: Store) {
    forall h :: h in s ==> |s[h].pubKey| == 96
  }

  lemma FreshKey(chain: Chain, cert: bytes, ca: bool, parent: VerifiedCert, now: nat)
    ensures var r := VerifyFresh(chain, cert, ca, parent, now); r.Ok? ==> |r.value.pubKey| == 96 && r.value.ca == ca
  {
    if VerifyFresh(chain, cert, ca, parent, now).Ok? {
      var tbs := TbsOf(cert).value;
      ParsedInRange(chain.keccak, cert, tbs, ca, now, ParseTbs(chain.keccak, cert, tbs, ca, now).value);
    }
  }

  lemma StepKeeps(chain: Chain, s: Store, call: Call)
    requires KeysPresent(s)
    ensures KeysPresent(Step(chain, s, call))
    ensures forall h :: h in s ==> h in Step(chain, s, call) && Step(chain, s, call)[h] == s[h]
  {
    FreshKey(chain, call.cert, call.ca, Load(s, call.parentHash), call.now);
  }

  /** Along a run no entry is ever changed or removed. */
  lemma {:induction false} RunKeeps(chain: Chain, calls: seq<Call>, i: nat)
    requires chain.Valid() && i <= |calls|
    ensures KeysPresent(Run(chain, calls))
    ensures forall h :: h in Run(chain, calls[..i]) ==>
      h in Run(chain, calls) && Run(chain, calls)[h] == Run(chain, calls[..i])[h]
    decreases |calls|
  {
    if |calls| == 0 {
      assert calls[..i] == calls;
    } else if i == |calls| {
      RunKeeps(chain, calls[..|calls| - 1], 0);
      StepKeeps(chain, Run(chain, calls[..|calls| - 1]), calls[|calls| - 1]);
      assert calls[..i] == calls;
    } else {
      var before := calls[..|calls| - 1];
      RunKeeps(chain, before, i);
      assert before[..i] == calls[..i];
      StepKeeps(chain, Run(chain, before), calls[|calls| - 1]);
    }
  }

  lemma {:induction false} RootStays(chain: Chain, calls: seq<Call>)
    requires chain.Valid()
    ensures chain.rootHash in Run(chain, calls) && Run(chain, calls)[chain.rootHash] == chain.RootCert()
  {
    RunKeeps(chain, calls, 0);
    assert calls[..0] == [];
  }

  lemma RunPrefix(chain: Chain, calls: seq<Call>, i: nat)
    requires i < |calls|
    ensures Run(chain, calls[..i + 1]) == Step(chain, Run(chain, calls[..i]), calls[i])
  {
    assert calls[..i + 1][..i] == calls[..i];
  }

  // ---------------------------------------------------------------- what it takes to be served

  /** A CA that has not expired and, for a child that is a CA too, has path length left. */
  predicate MayIssue(parent: VerifiedCert, ca: bool, now: nat) {
    parent.ca && now <= parent.notAfter && (ca ==> parent.maxPathLen != 0)
  }

  /** Whatever is served, but for the root: its parent is stored, and may issue it now. */
  lemma {:induction false} ServedUnderParent(chain: Chain, calls: seq<Call>, call: Call)
    requires chain.Valid() && Serve(chain, Run(chain, calls), call).Ok? && chain.keccak(call.cert) != chain.rootHash
    ensures call.parentHash in Run(chain, calls)
    ensures MayIssue(Run(chain, calls)[call.parentHash], call.ca, call.now)
  {
    hide VerifyFresh;
  }

  /**
   A stored certificate is served exactly when its entry has not expired and is of the role asked for, and, but for the
   root, its parent is stored and may issue it now; the answer is its entry, and the store stays as it is.
   */
  lemma {:induction false} StoredIsServed(chain: Chain, calls: seq<Call>, call: Call)
    requires chain.Valid() && chain.keccak(call.cert) in Run(chain, calls)
    ensures var s, h := Run(chain, calls), chain.keccak(call.cert);
      && (Serve(chain, s, call).Ok? <==>
            && call.now <= s[h].notAfter && s[h].ca == call.ca
            && (h == chain.rootHash || (call.parentHash in s && MayIssue(s[call.parentHash], call.ca, call.now))))
      && (Serve(chain, s, call).Ok? ==> Serve(chain, s, call).value == Answer(s, s[h]))
  {
    hide VerifyFresh;
    RunKeeps(chain, calls, 0);
  }

  /** And one that is not stored exactly when it verifies under such a parent; its entry is then added. */
  lemma {:induction false} UnstoredIsServed(chain: Chain, calls: seq<Call>, call: Call)
    requires chain.Valid() && chain.keccak(call.cert) !in Run(chain, calls)
    ensures var s, h := Run(chain, calls), chain.keccak(call.cert);
      if call.parentHash in s && MayIssue(s[call.parentHash], call.ca, call.now)
      then Serve(chain, s, call) == match VerifyFresh(chain, call.cert, call.ca, s[call.parentHash], call.now)
                                    case Ok(entry) => Ok(Answer(s[h := entry], entry))
                                    case Revert => Revert
      else Serve(chain, s, call).Revert?
  {
    hide VerifyFresh;
    RunKeeps(chain, calls, 0);
    RootStays(chain, calls);
  }

  /** Everything about the call that stored an entry: its parent was stored before, could issue it, and did. */
  lemma {:induction false} StoredFacts(chain: Chain, calls: seq<Call>, i: nat)
    requires chain.Valid() && Stored(chain, calls, i)
    ensures var s, c := Run(chain, calls[..i]), calls[i];
      var parent := Load(s, c.parentHash);
      && c.parentHash in s && MayIssue(parent, c.ca, c.now)
      && chain.keccak(c.cert) != chain.rootHash
      && VerifyFresh(chain, c.cert, c.ca, parent, c.now) == Ok(EntryOf(chain, calls, i))
      && EntryOf(chain, calls, i).ca == c.ca
    ensures var h := chain.keccak(calls[i].cert);
      h in Run(chain, calls) && Run(chain, calls)[h] == EntryOf(chain, calls, i)
    ensures calls[i].parentHash in Run(chain, calls)
         && Run(chain, calls)[calls[i].parentHash] == Run(chain, calls[..i])[calls[i].parentHash]
  {
    var s := Run(chain, calls[..i]);
    RootStays(chain, calls[..i]);
    FreshKey(chain, calls[i].cert, calls[i].ca, Load(s, calls[i].parentHash), calls[i].now);
    RunPrefix(chain, calls, i);
    RunKeeps(chain, calls, i);
    RunKeeps(chain, calls, i + 1);
  }

  /** Every entry but the root's was stored by exactly such a call. */
  lemma {:induction false} EntryWasStored(chain: Chain, calls: seq<Call>, h: Bytes32) returns (i: nat)
    requires chain.Valid() && h in Run(chain, calls) && h != chain.rootHash
    ensures Stored(chain, calls, i) && chain.keccak(calls[i].cert) == h
    decreases |calls|
  {
    hide VerifyFresh;
    var before := calls[..|calls| - 1];
    if h in Run(chain, before) {
      i := EntryWasStored(chain, before, h);
      assert before[..i] == calls[..i];
    } else {
      i := |calls| - 1;
    }
  }

  // ---------------------------------------------------------------- cache agreement

  /** The TBS part, as parsed when the certificate was first verified. */
  ghost predicate ParsedAs(chain: Chain, cert: bytes, ca: bool, now: nat, t: Tbs) {
    TbsOf(cert).Ok? && ParseTbs(chain.keccak, cert, TbsOf(cert).value, ca, now) == Ok(t)
  }

  /** `other` could have issued the certificate with the very same entry. */
  ghost predicate IssuesAlike(chain: Chain, cert: bytes, t: Tbs, entry: VerifiedCert, other: VerifiedCert)
    requires TbsOf(cert).Ok?
  {
    && other.subjectHash == t.issuerHash
    && VerifySignature(chain, cert, TbsOf(cert).value, other.pubKey).Ok?
    && Constrain(t.maxPathLen, other.maxPathLen) == entry.maxPathLen
  }

  lemma TbsInside(cert: bytes)
    ensures TbsOf(cert).Ok? ==> TbsOf(cert).value.header <= TbsOf(cert).value.content
  {
    hide FirstChildOf;
    if TbsOf(cert).Ok? { ChildInside(cert, Root(cert).value); }
  }

  lemma WasParsed(chain: Chain, cert: bytes, ca: bool, parent: VerifiedCert, now: nat, entry: VerifiedCert)
    returns (t: Tbs)
    requires VerifyFresh(chain, cert, ca, parent, now) == Ok(entry)
    ensures ParsedAs(chain, cert, ca, now, t) && IssuesAlike(chain, cert, t, entry, parent)
    ensures entry.ca == ca && entry.notAfter == t.notAfter && entry.subjectHash == t.subjectHash
    ensures entry.pubKey == t.pubKey
  {
    hide ParseTbs, VerifySignature, TbsOf, Constrain;
    t := ParseTbs(chain.keccak, cert, TbsOf(cert).value, ca, now).value;
  }

  /** The parse at a later time, in either role. */
  lemma ParsedAgain(chain: Chain, cert: bytes, ca0: bool, earlier: nat, t: Tbs, ca: bool, now: nat)
    requires ParsedAs(chain, cert, ca0, earlier, t) && earlier <= now
    ensures ParseTbs(chain.keccak, cert, TbsOf(cert).value, ca, now)
      == if ca == ca0 && t.notAfter >= now then Ok(t) else Revert
  {
    hide ParseTbs, TbsOf, FindTbsNodes, ReadValidity;
    if ca == ca0 {
      ParseAtOtherTime(chain.keccak, cert, TbsOf(cert).value, ca, earlier, now);
    } else {
      ParseFixesRole(chain.keccak, cert, TbsOf(cert).value, ca0, earlier, now);
    }
  }

  /** The fresh verification at a later time, in either role and under any parent, of a certificate verified before. */
  lemma FreshUnder(chain: Chain, cert: bytes, ca0: bool, earlier: nat, t: Tbs, entry: VerifiedCert, other: VerifiedCert,
                   ca: bool, now: nat)
    requires ParsedAs(chain, cert, ca0, earlier, t) && earlier <= now
    requires entry.ca == ca0 && entry.notAfter == t.notAfter && entry.subjectHash == t.subjectHash
    requires entry.pubKey == t.pubKey
    ensures VerifyFresh(chain, cert, ca, other, now) == Ok(entry) <==>
      ca == ca0 && entry.notAfter >= now && IssuesAlike(chain, cert, t, entry, other)
    ensures VerifyFresh(chain, cert, ca, other, now).Ok? ==>
      ca == ca0 && entry.notAfter >= now
  {
    hide ParseTbs, VerifySignature, TbsOf, Constrain;
    ParsedAgain(chain, cert, ca0, earlier, t, ca, now);
    TbsInside(cert);
  }

  /**
   Cache agreement, exactly. After any run and at any later time, whatever parent a call names, the cache answers what
   a verification without it would, if and only if the parent is refused, the role is another one, the entry has
   expired, or the parent could have issued the very same entry: it is the issuer, the signature step returns under
   its key, and it constrains the path length alike. The store stays as it is in every case.
   */
  lemma {:induction false} CacheExact(chain: Chain, calls: seq<Call>, i: nat, other: VerifiedCert, ca: bool, now: nat)
    returns (t: Tbs)
    requires chain.Valid() && Stored(chain, calls, i) && calls[i].now <= now
    ensures ParsedAs(chain, calls[i].cert, calls[i].ca, calls[i].now, t)
    ensures var s, c, h, entry := Run(chain, calls), calls[i], chain.keccak(calls[i].cert), EntryOf(chain, calls, i);
      var cached := VerifyCert(chain, s, c.cert, h, ca, other, now);
      var uncached := VerifyUncached(chain, c.cert, h, ca, other, now);
      && (cached.Ok? ==> cached.value.store == s)
      && (cached == (if uncached.Ok? then Ok(Answer(s, uncached.value)) else Revert) <==>
            || |other.pubKey| == 0 || !MayIssue(other, ca, now) || ca != entry.ca || entry.notAfter < now
            || IssuesAlike(chain, c.cert, t, entry, other))
  {
    hide VerifyFresh, IssuesAlike, ParsedAs, Serve;
    StoredFacts(chain, calls, i);
    RunKeeps(chain, calls, 0);
    var c, entry := calls[i], EntryOf(chain, calls, i);
    t := WasParsed(chain, c.cert, c.ca, Load(Run(chain, calls[..i]), c.parentHash), c.now, entry);
    FreshUnder(chain, c.cert, c.ca, c.now, t, entry, other, ca, now);
  }

  /**
   In particular, verifying a stored certificate again, in either role, under the parent it was stored under succeeds
   exactly when a verification without the cache would, with the same result.
   */
  lemma {:induction false} CacheAgrees(chain: Chain, calls: seq<Call>, i: nat, ca: bool, now: nat)
    requires chain.Valid() && Stored(chain, calls, i) && calls[i].now <= now
    ensures var s, c, h := Run(chain, calls), calls[i], chain.keccak(calls[i].cert);
      var cached := VerifyCert(chain, s, c.cert, h, ca, Load(s, c.parentHash), now);
      var uncached := VerifyUncached(chain, c.cert, h, ca, Load(s, c.parentHash), now);
      cached == if uncached.Ok? then Ok(Answer(s, uncached.value)) else Revert
  {
    hide VerifyFresh, IssuesAlike, ParsedAs, Serve, VerifyCert, VerifyUncached, MayIssue;
    StoredFacts(chain, calls, i);
    var c, entry, parent := calls[i], EntryOf(chain, calls, i), Load(Run(chain, calls), calls[i].parentHash);
    var t0 := WasParsed(chain, c.cert, c.ca, parent, c.now, entry);
    var t := CacheExact(chain, calls, i, parent, ca, now);
    SameParse(chain, c.cert, c.ca, c.now, t, t0);
  }

  lemma SameParse(chain: Chain, cert: bytes, ca: bool, now: nat, t: Tbs, t': Tbs)
    requires ParsedAs(chain, cert, ca, now, t) && ParsedAs(chain, cert, ca, now, t')
    ensures t == t' && TbsOf(cert).Ok?
  {
    hide ParseTbs, TbsOf;
  }

  // ---------------------------------------------------------------- issuing chains

  /**
   Each non-root entry has a stored CA parent, whose subject hash equals the issuer hash of the
   certificate, and which is the root or was stored by an earlier call.
   */
  lemma {:induction false} ParentIsEarlierCa(chain: Chain, calls: seq<Call>, i: nat)
    requires chain.Valid() && Stored(chain, calls, i)
    ensures var parentHash := calls[i].parentHash;
      && parentHash in Run(chain, calls) && Run(chain, calls)[parentHash].ca
      && (parentHash == chain.rootHash
          || exists j :: 0 <= j < i && Stored(chain, calls, j) && chain.keccak(calls[j].cert) == parentHash)
    ensures TbsOf(calls[i].cert).Ok?
    ensures var t := ParseTbs(chain.keccak, calls[i].cert, TbsOf(calls[i].cert).value, calls[i].ca, calls[i].now);
      t.Ok? && t.value.issuerHash == Run(chain, calls)[calls[i].parentHash].subjectHash
  {
    StoredFacts(chain, calls, i);
    if calls[i].parentHash != chain.rootHash {
      var j := EntryWasStored(chain, calls[..i], calls[i].parentHash);
      assert calls[..i][..j] == calls[..j];
      assert Stored(chain, calls, j);
    }
  }

  /** A CA below a parent with path length m >= 0 exists only for m > 0, and its own path length is below m. */
  lemma {:induction false} PathLenShrinks(chain: Chain, calls: seq<Call>, i: nat)
    requires chain.Valid() && Stored(chain, calls, i) && calls[i].ca
    requires Run(chain, calls)[ParentHash(chain, calls, i)].maxPathLen >= 0
    ensures 0 <= EntryOf(chain, calls, i).maxPathLen < Run(chain, calls)[ParentHash(chain, calls, i)].maxPathLen
  {
    StoredFacts(chain, calls, i);
  }

  /** The hash under which a stored certificate's parent is stored. */
  ghost function ParentHash(chain: Chain, calls: seq<Call>, i: nat): (h: Bytes32)
    requires chain.Valid() && Stored(chain, calls, i)
    ensures h in Run(chain, calls) && h == calls[i].parentHash
  {
    StoredFacts(chain, calls, i);
    calls[i].parentHash
  }

  /** A recorded issuing chain below `ancestor`: each certificate was stored under the one before it. */
  ghost predicate IssuedBelow(chain: Chain, calls: seq<Call>, ancestor: Bytes32, path: seq<nat>)
    decreases |path|
  {
    |path| > 0 ==>
      && Stored(chain, calls, path[0]) && calls[path[0]].parentHash == ancestor
      && IssuedBelow(chain, calls, chain.keccak(calls[path[0]].cert), path[1..])
  }

  /** Call `i` stored its certificate under a CA that had not expired then, with path length left for another CA. */
  ghost predicate LinkedWhileValid(chain: Chain, calls: seq<Call>, parentHash: Bytes32, i: nat) {
    && i < |calls| && calls[i].parentHash == parentHash && parentHash in Run(chain, calls)
    && MayIssue(Run(chain, calls)[parentHash], calls[i].ca, calls[i].now)
  }

  ghost predicate AllLinkedWhileValid(chain: Chain, calls: seq<Call>, ancestor: Bytes32, path: seq<nat>)
    decreases |path|
  {
    |path| > 0 ==>
      && LinkedWhileValid(chain, calls, ancestor, path[0])
      && AllLinkedWhileValid(chain, calls, chain.keccak(calls[path[0]].cert), path[1..])
  }

  /** So it is at every link of a recorded issuing chain. */
  lemma {:induction false} IssuedWhileValid(chain: Chain, calls: seq<Call>, ancestor: Bytes32, path: seq<nat>)
    requires chain.Valid() && IssuedBelow(chain, calls, ancestor, path)
    ensures AllLinkedWhileValid(chain, calls, ancestor, path)
    decreases |path|
  {
    if |path| > 0 {
      StoredFacts(chain, calls, path[0]);
      IssuedWhileValid(chain, calls, chain.keccak(calls[path[0]].cert), path[1..]);
    }
  }

  /** The hash under which a recorded chain ends. */
  function EndOf(chain: Chain, calls: seq<Call>, ancestor: Bytes32, path: seq<nat>): Bytes32
    decreases |path|
  {
    if |path| == 0 || path[0] >= |calls| then ancestor
    else EndOf(chain, calls, chain.keccak(calls[path[0]].cert), path[1..])
  }

  lemma {:induction false} IssuedFurther(chain: Chain, calls: seq<Call>, ancestor: Bytes32, path: seq<nat>, i: nat)
    requires chain.Valid() && IssuedBelow(chain, calls, ancestor, path) && Stored(chain, calls, i)
    requires calls[i].parentHash == EndOf(chain, calls, ancestor, path)
    ensures IssuedBelow(chain, calls, ancestor, path + [i])
    ensures EndOf(chain, calls, ancestor, path + [i]) == chain.keccak(calls[i].cert)
    decreases |path|
  {
    hide Stored;
    StoredIndex(chain, calls, i);
    if |path| == 0 {
      assert (path + [i])[1..] == [];
    } else {
      StoredIndex(chain, calls, path[0]);
      IssuedFurther(chain, calls, chain.keccak(calls[path[0]].cert), path[1..], i);
      assert (path + [i])[1..] == path[1..] + [i];
    }
  }

  lemma StoredIndex(chain: Chain, calls: seq<Call>, i: nat)
    requires Stored(chain, calls, i)
    ensures i < |calls|
  {}

  /** Every entry of a reachable store ends a recorded chain that starts at the root. */
  lemma {:induction false} ChainFromRoot(chain: Chain, calls: seq<Call>, h: Bytes32) returns (path: seq<nat>)
    requires chain.Valid() && h in Run(chain, calls)
    ensures IssuedBelow(chain, calls, chain.rootHash, path) && EndOf(chain, calls, chain.rootHash, path) == h
  {
    if h == chain.rootHash {
      path := [];
    } else {
      var i := EntryWasStored(chain, calls, h);
      path := ChainOfCall(chain, calls, i);
    }
  }

  lemma {:induction false} ChainOfCall(chain: Chain, calls: seq<Call>, i: nat) returns (path: seq<nat>)
    requires chain.Valid() && Stored(chain, calls, i)
    ensures IssuedBelow(chain, calls, chain.rootHash, path)
    ensures EndOf(chain, calls, chain.rootHash, path) == chain.keccak(calls[i].cert)
    decreases i
  {
    hide IssuedBelow, EndOf, Run;
    ParentIsEarlierCa(chain, calls, i);
    var parentHash := calls[i].parentHash;
    path := [];
    NoChain(chain, calls, chain.rootHash);
    if parentHash != chain.rootHash {
      var j :| 0 <= j < i && Stored(chain, calls, j) && chain.keccak(calls[j].cert) == parentHash;
      path := ChainOfCall(chain, calls, j);
    }
    IssuedFurther(chain, calls, chain.rootHash, path, i);
    path := path + [i];
  }

  lemma {:induction false} NoChain(chain: Chain, calls: seq<Call>, ancestor: Bytes32)
    ensures IssuedBelow(chain, calls, ancestor, []) && EndOf(chain, calls, ancestor, []) == ancestor
  {}

  function CountCas(calls: seq<Call>, path: seq<nat>): nat {
    if |path| == 0 then 0
    else (if path[0] < |calls| && calls[path[0]].ca then 1 else 0) + CountCas(calls, path[1..])
  }

  /** A client certificate issues nothing. */
  lemma {:induction false} ClientEndsPath(chain: Chain, calls: seq<Call>, i: nat, path: seq<nat>)
    requires chain.Valid() && Stored(chain, calls, i) && !calls[i].ca
    requires IssuedBelow(chain, calls, chain.keccak(calls[i].cert), path)
    ensures path == []
  {
    StoredFacts(chain, calls, i);
    if |path| > 0 {
      StoredFacts(chain, calls, path[0]);
    }
  }

  /**
   Path-length descent: if an entry of a reachable store holds path length m >= 0, at most m CA
   certificates lie below it on any recorded issuing chain (section 4.2.1.9 of RFC 5280).
   */
  lemma {:induction false} PathLenBoundsCas(chain: Chain, calls: seq<Call>, ancestor: Bytes32, path: seq<nat>)
    requires chain.Valid() && IssuedBelow(chain, calls, ancestor, path)
    requires ancestor in Run(chain, calls) && Run(chain, calls)[ancestor].maxPathLen >= 0
    ensures CountCas(calls, path) <= Run(chain, calls)[ancestor].maxPathLen
    decreases |path|
  {
    if |path| == 0 {
    } else {
      var i := path[0];
      StoredFacts(chain, calls, i);
      if calls[i].ca {
        PathLenShrinks(chain, calls, i);
        PathLenBoundsCas(chain, calls, chain.keccak(calls[i].cert), path[1..]);
      } else {
        ClientEndsPath(chain, calls, i, path[1..]);
      }
    }
  }

  /** The stored path length also respects the one the certificate itself states. */
  lemma {:induction false} StoredPathLenIsTightest(chain: Chain, calls: seq<Call>, i: nat)
    requires chain.Valid() && Stored(chain, calls, i)
    ensures TbsOf(calls[i].cert).Ok?
    ensures var t := ParseTbs(chain.keccak, calls[i].cert, TbsOf(calls[i].cert).value, calls[i].ca, calls[i].now);
      var parentMax := Run(chain, calls)[ParentHash(chain, calls, i)].maxPathLen;
      var stored := EntryOf(chain, calls, i).maxPathLen;
      && t.Ok?
      && (parentMax <= 0 ==> stored == t.value.maxPathLen)
      && (parentMax > 0 && t.value.maxPathLen < 0 ==> stored == parentMax - 1)
      && (parentMax > 0 && t.value.maxPathLen >= 0 ==> stored == Min(t.value.maxPathLen, parentMax - 1))
  {
    hide VerifyFresh, Serve, Run, ParseTbs, TbsOf, VerifySignature;
    StoredFacts(chain, calls, i);
    var c := calls[i];
    var t := WasParsed(chain, c.cert, c.ca, Run(chain, calls)[c.parentHash], c.now, EntryOf(chain, calls, i));
  }
}
