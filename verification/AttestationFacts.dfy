/** What every parsed attestation satisfies: full register arrays, and no influence of the order of keys. */
module AttestationFacts {
  import opened Basics
  import opened LibBytes
  import opened CborDecode
  import opened CertParser
  import opened Attestation
  import opened AttestationCoding

  // ---------------------------------------------------------------- registers

  function UnsetCount(slots: seq<CborElement>): nat {
    if |slots| == 0 then 0 else (if slots[0] == UNSET then 1 else 0) + UnsetCount(slots[1..])
  }

  /** Filling a free slot leaves one fewer. */
  lemma {:induction false} FillOne(slots: seq<CborElement>, k: nat, e: CborElement)
    requires k < |slots| && slots[k] == UNSET && e != UNSET
    ensures UnsetCount(slots[k := e]) == UnsetCount(slots) - 1
    decreases |slots|
  {
    if k == 0 {
      assert slots[0 := e][1..] == slots[1..];
    } else {
      FillOne(slots[1..], k - 1, e);
      assert slots[k := e][1..] == slots[1..][k - 1 := e];
    }
  }

  lemma {:induction false} CountUnset(n: nat)
    ensures UnsetCount(Unset(n)) == n
  {
    if n == 0 {
    } else {
      CountUnset(n - 1);
      assert Unset(n)[1..] == Unset(n - 1);
    }
  }

  lemma {:induction false} NoneUnset(slots: seq<CborElement>, k: nat)
    requires UnsetCount(slots) == 0 && k < |slots|
    ensures slots[k] != UNSET
    decreases |slots|
  {
    if k == 0 {
    } else {
      NoneUnset(slots[1..], k - 1);
    }
  }

  /** On any input, every accepted pair takes exactly one free slot. */
  lemma {:induction false} PcrsFill(tbs: bytes, current: CborElement, n: nat, slots: seq<CborElement>)
    requires ReadPcrs(tbs, current, n, slots).Ok?
    ensures UnsetCount(ReadPcrs(tbs, current, n, slots).value.1) == UnsetCount(slots) - n
    decreases n
  {
    hide ElementAt, UnsetCount;
    if n == 0 {
    } else {
      var key := NextPositiveInt(tbs, current).value;
      var pcr := NextByteString(tbs, key).value;
      ByteStringIsSet(tbs, key);
      FillOne(slots, key.value, pcr);
      PcrsFill(tbs, pcr, n - 1, slots[key.value := pcr]);
    }
  }

  lemma ByteStringIsSet(tbs: bytes, ptr: CborElement)
    requires NextByteString(tbs, ptr).Ok?
    ensures NextByteString(tbs, ptr).value != UNSET
  {}

  predicate Filled(slots: seq<CborElement>) {
    forall k {:trigger slots[k]} :: 0 <= k < |slots| ==> slots[k] != UNSET
  }

  /** Pigeonhole: `n` accepted pairs fill all of `n` slots. */
  lemma PcrsFilled(tbs: bytes, current: CborElement, n: nat)
    requires ReadPcrs(tbs, current, n, Unset(n)).Ok?
    ensures Filled(ReadPcrs(tbs, current, n, Unset(n)).value.1)
  {
    hide UnsetCount, ElementAt, ReadPcrs;
    PcrsFill(tbs, current, n, Unset(n));
    CountUnset(n);
    var slots := ReadPcrs(tbs, current, n, Unset(n)).value.1;
    forall k | 0 <= k < |slots| ensures slots[k] != UNSET { NoneUnset(slots, k); }
  }

  /** One round keeps the register array full, whatever the bytes. */
  lemma EntryKeepsFilled(keccak: Hash, tbs: bytes, current: CborElement, ptrs: Ptrs)
    requires ReadEntry(keccak, tbs, current, ptrs).Ok? && Filled(ptrs.pcrs)
    ensures Filled(ReadEntry(keccak, tbs, current, ptrs).value.1.pcrs)
  {
    hide ElementAt, KeyHash, ReadPcrs, Filled, ReadCabundle;
    var key := NextTextString(tbs, current).value;
    if NameOf(keccak, keccak(SliceOf(tbs, key).value)) == Ok(Pcrs) {
      var pairs := NextMap(tbs, key).value;
      PcrsFilled(tbs, pairs, pairs.value);
    }
  }

  lemma {:induction false} EntriesKeepFilled(keccak: Hash, tbs: bytes, current: CborElement, end: nat, ptrs: Ptrs)
    requires ReadEntries(keccak, tbs, current, end, ptrs).Ok? && Filled(ptrs.pcrs)
    ensures Filled(ReadEntries(keccak, tbs, current, end, ptrs).value.pcrs)
    decreases if current.End() < end then end - current.End() else 0
  {
    hide ReadEntry, Filled;
    if current.End() >= end {
    } else {
      EntryKeepsFilled(keccak, tbs, current, ptrs);
      var (next, ptrs') := ReadEntry(keccak, tbs, current, ptrs).value;
      EntriesKeepFilled(keccak, tbs, next, end, ptrs');
    }
  }

  /** Every attestation that parses at all has a value in every register slot. */
  lemma ParsedPcrsFilled(keccak: Hash, tbs: bytes)
    requires ParseAttestation(keccak, tbs).Ok?
    ensures Filled(ParseAttestation(keccak, tbs).value.pcrs)
  {
    hide ReadEntries, ElementAt, Slice;
    var payload := ByteStringAt(tbs, 18).value;
    EntriesKeepFilled(keccak, tbs, MapAt(tbs, payload.start).value, payload.End(), NO_PTRS);
  }

  /** `n` distinct numbers below `n` are all of them. */
  lemma {:induction false} Pigeonhole(s: seq<nat>, n: nat)
    requires |s| == n && (forall i, j :: 0 <= i < j < n ==> s[i] != s[j]) && (forall i :: 0 <= i < n ==> s[i] < n)
    ensures forall k: nat {:trigger k in s} :: k < n ==> k in s
    decreases n
  {
    if n == 0 {
    } else {
      if n - 1 in s {
        var i :| 0 <= i < n && s[i] == n - 1;
        var t := s[..i] + s[i + 1..];
        assert forall a {:trigger t[a]} :: 0 <= a < n - 1 ==> t[a] == s[if a < i then a else a + 1];
        Pigeonhole(t, n - 1);
        assert forall k: nat {:trigger k in s} :: k < n - 1 ==> k in t;
      } else {
        var t := s[..n - 1];
        assert s[n - 1] !in t;
        Pigeonhole(t, n - 1);
      }
    }
  }

  /** Indices that are distinct and below their count are a permutation: each number below it comes exactly once. */
  lemma {:induction false} IndicesAreAll(pcrs: seq<Pcr>, k: nat)
    requires IndicesFit(pcrs, |pcrs|) && k < |pcrs|
    ensures IsIndex(pcrs, k)
  {
    var s := seq(|pcrs|, i requires 0 <= i < |pcrs| => pcrs[i].index);
    Pigeonhole(s, |pcrs|);
    assert k in s;
    var i :| 0 <= i < |s| && s[i] == k;
    assert pcrs[i].index == k;
  }

  /** Both lists give the same content to every index. */
  predicate SameRegisters(pcrs1: seq<Pcr>, pcrs2: seq<Pcr>) {
    && |pcrs1| == |pcrs2|
    && forall i {:trigger pcrs1[i]} :: 0 <= i < |pcrs1| ==>
      exists j {:trigger pcrs2[j]} :: 0 <= j < |pcrs2| && pcrs2[j].index == pcrs1[i].index
                                      && pcrs2[j].value.content == pcrs1[i].value.content
  }

  /** The array of register contents does not depend on the order of the pairs, nor on their widths. */
  lemma {:induction false} PcrOrderIrrelevant(tbs1: bytes, cur1: CborElement, pcrs1: seq<Pcr>,
                                              tbs2: bytes, cur2: CborElement, pcrs2: seq<Pcr>, k: nat)
    requires ValidPcrs(pcrs1) && At(tbs1, cur1.End(), EncodePcrs(pcrs1))
    requires ValidPcrs(pcrs2) && At(tbs2, cur2.End(), EncodePcrs(pcrs2))
    requires SameRegisters(pcrs1, pcrs2) && k < |pcrs1|
    requires ReadPcrs(tbs1, cur1, |pcrs1|, Unset(|pcrs1|)).Ok? && ReadPcrs(tbs2, cur2, |pcrs2|, Unset(|pcrs2|)).Ok?
    ensures SliceOf(tbs1, ReadPcrs(tbs1, cur1, |pcrs1|, Unset(|pcrs1|)).value.1[k])
         == SliceOf(tbs2, ReadPcrs(tbs2, cur2, |pcrs2|, Unset(|pcrs2|)).value.1[k])
  {
    hide At, EncodePcrs, ReadPcrs, ElementAt, SliceOf, OthersKept;
    PcrsRead(tbs1, cur1, pcrs1, Unset(|pcrs1|));
    FreeFits(pcrs1, Unset(|pcrs1|));
    IndicesAreAll(pcrs1, k);
    PcrsRead(tbs2, cur2, pcrs2, Unset(|pcrs2|));
    var i :| 0 <= i < |pcrs1| && pcrs1[i].index == k;
    var j :| 0 <= j < |pcrs2| && pcrs2[j].index == k && pcrs2[j].value.content == pcrs1[i].value.content;
  }

  // ---------------------------------------------------------------- order of keys

  predicate NamesDistinct(entries: seq<Entry>) {
    forall i, j :: 0 <= i < j < |entries| ==> entries[i].name != entries[j].name
  }

  /** With distinct names, a document gives a name a value exactly when it has that entry. */
  lemma {:induction false} LookupIsMembership(entries: seq<Entry>, name: Name, v: Value)
    requires NamesDistinct(entries)
    ensures Lookup(entries, name) == Some(v) <==>
      exists i {:trigger entries[i]} :: 0 <= i < |entries| && entries[i].name == name && entries[i].value == v
    decreases |entries|
  {
    if |entries| == 0 {
    } else {
      var rest := entries[1..];
      LookupIsMembership(rest, name, v);
      assert forall i {:trigger rest[i]} :: 0 <= i < |rest| ==> rest[i] == entries[i + 1];
      assert forall i {:trigger entries[i]} :: 0 < i < |entries| ==> entries[i] == rest[i - 1];
      if Lookup(rest, name).Some? {
        LookupIsMembership(rest, name, Lookup(rest, name).value);
      }
    }
  }

  /** Every entry of the one has an entry of the same name and value in the other, wherever it stands. */
  ghost predicate Covers(entries1: seq<Entry>, entries2: seq<Entry>) {
    forall i {:trigger entries1[i]} :: 0 <= i < |entries1| ==>
      exists j {:trigger entries2[j]} ::
        0 <= j < |entries2| && entries2[j].name == entries1[i].name && entries2[j].value == entries1[i].value
  }

  /** Permuting the entries, or rewriting their keys in other widths, changes no field. */
  lemma {:induction false} OrderIrrelevant(entries1: seq<Entry>, entries2: seq<Entry>)
    requires NamesDistinct(entries1) && NamesDistinct(entries2) && Covers(entries1, entries2)
    requires Covers(entries2, entries1)
    ensures SameDocument(entries1, entries2)
  {
    hide Lookup;
    forall name ensures Lookup(entries1, name) == Lookup(entries2, name) {
      if Lookup(entries1, name).Some? {
        LookupIsMembership(entries1, name, Lookup(entries1, name).value);
        LookupIsMembership(entries2, name, Lookup(entries1, name).value);
      } else if Lookup(entries2, name).Some? {
        LookupIsMembership(entries1, name, Lookup(entries2, name).value);
        LookupIsMembership(entries2, name, Lookup(entries2, name).value);
      }
    }
  }

  /** Looking a name up finds a valid value of its type. */
  lemma {:induction false} LookupValid(entries: seq<Entry>, name: Name)
    requires AllValid(entries) && Lookup(entries, name).Some?
    ensures exists w :: Entry(name, w, Lookup(entries, name).value).Valid()
    decreases |entries|
  {
    hide KeyText;
    var rest := entries[1..];
    if Lookup(rest, name).Some? {
      assert forall i {:trigger rest[i]} :: 0 <= i < |rest| ==> rest[i] == entries[i + 1];
      LookupValid(rest, name);
    } else {
      assert entries[0] == Entry(name, entries[0].keyWidth, entries[0].value);
    }
  }

  /** What was kept in two parses reads as the same null, number or bytes. */
  predicate ReadAlike(tbs1: bytes, slot1: Slot, tbs2: bytes, slot2: Slot) {
    match slot1
    case Single(p) =>
      && slot2.Single? && (p.IsNull() <==> slot2.ptr.IsNull())
      && (!p.IsNull() ==> SliceOf(tbs1, p) == SliceOf(tbs2, slot2.ptr))
    case Number(n) => slot2 == Number(n)
    case Many(ptrs) =>
      && slot2.Many? && |slot2.ptrs| == |ptrs|
      && forall k {:trigger ptrs[k]} :: 0 <= k < |ptrs| ==> SliceOf(tbs1, ptrs[k]) == SliceOf(tbs2, slot2.ptrs[k])
  }

  lemma {:induction false} RecordedAlike(tbs1: bytes, slot1: Slot, tbs2: bytes, slot2: Slot, v: Value)
    requires Recorded(tbs1, slot1, v) && Recorded(tbs2, slot2, v) && (v.PcrMap? ==> IndicesFit(v.pcrs, |v.pcrs|))
    ensures ReadAlike(tbs1, slot1, tbs2, slot2)
  {
    hide SliceOf;
    match v
    case Certs(certs, _) =>
      forall k {:trigger slot1.ptrs[k]} | 0 <= k < |slot1.ptrs|
        ensures SliceOf(tbs1, slot1.ptrs[k]) == SliceOf(tbs2, slot2.ptrs[k]) {
        assert PointsAt(tbs1, slot1.ptrs[k], certs[k].content) && PointsAt(tbs2, slot2.ptrs[k], certs[k].content);
      }
    case PcrMap(pcrs, _) =>
      forall k {:trigger slot1.ptrs[k]} | 0 <= k < |slot1.ptrs|
        ensures SliceOf(tbs1, slot1.ptrs[k]) == SliceOf(tbs2, slot2.ptrs[k]) {
        IndicesAreAll(pcrs, k);
        var i :| 0 <= i < |pcrs| && pcrs[i].index == k;
      }
    case _ =>
  }

  /** Both documents give every name the same value. */
  ghost predicate SameDocument(entries1: seq<Entry>, entries2: seq<Entry>) {
    forall name {:trigger Lookup(entries1, name)} :: Lookup(entries1, name) == Lookup(entries2, name)
  }

  lemma {:induction false} DescribedAlike(tbs1: bytes, p1: Ptrs, entries1: seq<Entry>, tbs2: bytes, p2: Ptrs,
                                          entries2: seq<Entry>, name: Name)
    requires AllValid(entries1) && SameDocument(entries1, entries2)
    requires Describes(tbs1, NO_PTRS, p1, entries1) && Describes(tbs2, NO_PTRS, p2, entries2)
    ensures ReadAlike(tbs1, Get(p1, name), tbs2, Get(p2, name))
  {
    hide Lookup, KeyText, Recorded;
    assert Get(p1, name) == Get(p1, name) && Get(p2, name) == Get(p2, name);
    match Lookup(entries1, name)
    case Some(v) =>
      LookupValid(entries1, name);
      RecordedAlike(tbs1, Get(p1, name), tbs2, Get(p2, name), v);
    case None =>
      assert tbs1[0..0] == tbs2[0..0];
  }

  /**
   Documents with the same values, their entries in any order, with any widths of keys, map heads and payload heads:
   both parse, and every element of one slices to the same bytes as the other's.
   */
  lemma {:induction false} ParseIgnoresOrder(keccak: Hash, entries1: seq<Entry>, count1: nat, w1: Width, pw1: Width,
                                             entries2: seq<Entry>, count2: nat, w2: Width, pw2: Width)
    requires KeysDistinct(keccak) && AllValid(entries1) && AllValid(entries2) && SameDocument(entries1, entries2)
    requires w1.Fits(count1) && pw1.Fits(|EncodePayload(entries1, count1, w1)|)
    requires w2.Fits(count2) && pw2.Fits(|EncodePayload(entries2, count2, w2)|)
    ensures var tbs1, tbs2 :=
              SignedBytes(Str(EncodePayload(entries1, count1, w1), pw1)),
              SignedBytes(Str(EncodePayload(entries2, count2, w2), pw2));
      && ParseAttestation(keccak, tbs1).Ok? && ParseAttestation(keccak, tbs2).Ok?
      && forall name {:trigger Get(ParseAttestation(keccak, tbs1).value, name)} ::
           ReadAlike(tbs1, Get(ParseAttestation(keccak, tbs1).value, name),
                     tbs2, Get(ParseAttestation(keccak, tbs2).value, name))
  {
    hide ParseAttestation, SignedBytes, EncodePayload, KeysDistinct, Describes, ReadAlike, AllValid, Get, SameDocument;
    DocumentParses(keccak, entries1, count1, w1, pw1);
    DocumentParses(keccak, entries2, count2, w2, pw2);
    var tbs1, tbs2 :=
      SignedBytes(Str(EncodePayload(entries1, count1, w1), pw1)),
      SignedBytes(Str(EncodePayload(entries2, count2, w2), pw2));
    var p1, p2 := ParseAttestation(keccak, tbs1).value, ParseAttestation(keccak, tbs2).value;
    forall name ensures ReadAlike(tbs1, Get(p1, name), tbs2, Get(p2, name)) {
      DescribedAlike(tbs1, p1, entries1, tbs2, p2, entries2, name);
    }
  }
}
