/**
 What a successful parse means on arbitrary bytes (DKIMOracle.sol:152-208): the entries follow each other without
 gaps, and only the last one may run past the end of the payload.
 */
module AttestationTiles {
  import opened Basics
  import opened CborDecode
  import opened LibBytes
  import opened CertParser
  import opened Attestation

  /** One round of the loop: the key, its name, what is kept, and the last element read. */
  datatype Round = Round(key: CborElement, name: Name, slot: Slot, last: CborElement)

  ghost predicate RoundAt(keccak: Hash, tbs: bytes, current: CborElement, r: Round) {
    && NextTextString(tbs, current) == Ok(r.key) && SliceOf(tbs, r.key).Ok?
    && NameOf(keccak, keccak(SliceOf(tbs, r.key).value)) == Ok(r.name)
    && ReadValue(tbs, r.key, r.name) == Ok((r.last, r.slot))
  }

  /** The rounds follow each other, each from where the one before ended, as long as that is before `end`. */
  ghost predicate Tile(keccak: Hash, tbs: bytes, current: CborElement, end: nat, rounds: seq<Round>)
    decreases |rounds|
  {
    if |rounds| == 0 then current.End() >= end
    else
      && current.End() < end && RoundAt(keccak, tbs, current, rounds[0])
      && Tile(keccak, tbs, rounds[0].last, end, rounds[1..])
  }

  /** What the rounds leave in the fields, the last one for a name winning. */
  ghost function Keep(ptrs: Ptrs, rounds: seq<Round>): Ptrs
    decreases |rounds|
  {
    if |rounds| == 0 then ptrs
    else Keep(if Suits(rounds[0].name, rounds[0].slot) then Set(ptrs, rounds[0].name, rounds[0].slot)
              else ptrs, rounds[1..])
  }

  lemma RoundReads(keccak: Hash, tbs: bytes, current: CborElement, ptrs: Ptrs, r: Round)
    requires RoundAt(keccak, tbs, current, r)
    ensures Suits(r.name, r.slot) && ReadEntry(keccak, tbs, current, ptrs) == Ok((r.last, Set(ptrs, r.name, r.slot)))
    ensures r.last.End() > current.End()
  {
    hide ElementAt, NameOf, ReadValue, Set, Suits;
  }

  lemma EntryIsRound(keccak: Hash, tbs: bytes, current: CborElement, ptrs: Ptrs) returns (r: Round)
    requires ReadEntry(keccak, tbs, current, ptrs).Ok?
    ensures RoundAt(keccak, tbs, current, r)
  {
    hide ElementAt, NameOf, ReadValue, Set, Suits;
    var key := NextTextString(tbs, current).value;
    var name := NameOf(keccak, keccak(SliceOf(tbs, key).value)).value;
    var value := ReadValue(tbs, key, name).value;
    r := Round(key, name, value.1, value.0);
  }

  /** The loop returns only if rounds tile the payload, and then with what they leave. */
  lemma {:induction false} EntriesTile(keccak: Hash, tbs: bytes, current: CborElement, end: nat, ptrs: Ptrs)
    returns (rounds: seq<Round>)
    requires ReadEntries(keccak, tbs, current, end, ptrs).Ok?
    ensures Tile(keccak, tbs, current, end, rounds)
    ensures ReadEntries(keccak, tbs, current, end, ptrs) == Ok(Keep(ptrs, rounds))
    decreases if current.End() < end then end - current.End() else 0
  {
    hide ReadEntry, RoundAt, Set, Suits;
    if current.End() >= end {
      rounds := [];
    } else {
      var r := EntryIsRound(keccak, tbs, current, ptrs);
      RoundReads(keccak, tbs, current, ptrs, r);
      var rest := EntriesTile(keccak, tbs, r.last, end, Set(ptrs, r.name, r.slot));
      rounds := [r] + rest;
      assert rounds[1..] == rest;
    }
  }

  /** Conversely, over tiling rounds the loop returns just that. */
  lemma {:induction false} TiledReads(keccak: Hash, tbs: bytes, current: CborElement, end: nat, ptrs: Ptrs,
                                      rounds: seq<Round>)
    requires Tile(keccak, tbs, current, end, rounds)
    ensures ReadEntries(keccak, tbs, current, end, ptrs) == Ok(Keep(ptrs, rounds))
    decreases |rounds|
  {
    hide ReadEntry, RoundAt, Set, Suits;
    if |rounds| == 0 {
    } else {
      RoundReads(keccak, tbs, current, ptrs, rounds[0]);
      TiledReads(keccak, tbs, rounds[0].last, end, Set(ptrs, rounds[0].name, rounds[0].slot), rounds[1..]);
    }
  }

  // ---------------------------------------------------------------- elements inside the payload

  predicate SlotInside(slot: Slot, end: nat) {
    match slot
    case Single(p) => p.End() <= end
    case Number(_) => true
    case Many(ptrs) => AllInside(ptrs, end)
  }

  predicate AllInside(ptrs: seq<CborElement>, end: nat) {
    forall k {:trigger ptrs[k]} :: 0 <= k < |ptrs| ==> ptrs[k].End() <= end
  }

  ghost predicate PtrsInside(ptrs: Ptrs, end: nat) {
    forall name {:trigger Get(ptrs, name)} :: SlotInside(Get(ptrs, name), end)
  }

  /** A number, or an empty array: nothing that points anywhere. */
  predicate NoElement(slot: Slot) { slot.Number? || (slot.Many? && |slot.ptrs| == 0) }

  lemma {:induction false} CabundleEnds(tbs: bytes, current: CborElement, n: nat)
    requires ReadCabundle(tbs, current, n).Ok?
    ensures var (last, ptrs) := ReadCabundle(tbs, current, n).value;
      AllInside(ptrs, last.End()) && (if n == 0 then last == current else last in ptrs)
    decreases n
  {
    hide ElementAt;
    if n == 0 {
    } else {
      var next := NextByteString(tbs, current).value;
      CabundleEnds(tbs, next, n - 1);
      var (last, rest) := ReadCabundle(tbs, next, n - 1).value;
      assert ReadCabundle(tbs, current, n).value == (last, [next] + rest);
      assert ([next] + rest)[0] == next;
      assert forall x :: x in rest ==> x in [next] + rest;
    }
  }

  lemma {:induction false} PcrsEnd(tbs: bytes, current: CborElement, n: nat, slots: seq<CborElement>)
    requires ReadPcrs(tbs, current, n, slots).Ok? && AllInside(slots, current.End())
    ensures var (last, ptrs) := ReadPcrs(tbs, current, n, slots).value;
      AllInside(ptrs, last.End()) && (if n == 0 then last == current && ptrs == slots else last in ptrs)
    decreases n
  {
    hide ElementAt;
    if n == 0 {
    } else {
      var key := NextPositiveInt(tbs, current).value;
      var pcr := NextByteString(tbs, key).value;
      StringAdvances(tbs, current, key);
      var slots' := slots[key.value := pcr];
      assert slots'[key.value] == pcr;
      PcrsEnd(tbs, pcr, n - 1, slots');
    }
  }

  lemma StringAdvances(tbs: bytes, current: CborElement, key: CborElement)
    requires NextPositiveInt(tbs, current) == Ok(key) && NextByteString(tbs, key).Ok?
    ensures NextByteString(tbs, key).value.End() > key.End() > current.End()
  {}

  /** Nothing that a round keeps ends later than its last element, which is kept unless nothing is. */
  lemma RoundEnds(keccak: Hash, tbs: bytes, current: CborElement, r: Round, end: nat)
    requires RoundAt(keccak, tbs, current, r)
    ensures SlotInside(r.slot, end) <==> r.last.End() <= end || NoElement(r.slot)
  {
    hide ElementAt, NameOf, ReadCabundle, ReadPcrs, AllInside, SliceOf, KeyHash;
    match r.name
    case Cabundle =>
      var items := NextArray(tbs, r.key).value;
      CabundleEnds(tbs, items, items.value);
      ManyInside(r.slot.ptrs, r.last, end);
    case Pcrs =>
      var pairs := NextMap(tbs, r.key).value;
      UnsetInside(pairs.value, pairs.End());
      PcrsEnd(tbs, pairs, pairs.value, Unset(pairs.value));
      ManyInside(r.slot.ptrs, r.last, end);
    case _ =>
  }

  lemma UnsetInside(n: nat, end: nat)
    ensures AllInside(Unset(n), end)
  {}

  lemma ManyInside(ptrs: seq<CborElement>, last: CborElement, end: nat)
    requires AllInside(ptrs, last.End()) && (|ptrs| > 0 ==> last in ptrs)
    ensures AllInside(ptrs, end) <==> last.End() <= end || |ptrs| == 0
  {}

  lemma SetInside(ptrs: Ptrs, name: Name, slot: Slot, end: nat)
    requires PtrsInside(ptrs, end) && Suits(name, slot)
    ensures PtrsInside(Set(ptrs, name, slot), end) <==> SlotInside(slot, end)
  {
    hide Set, Get, SlotInside;
    var ptrs' := Set(ptrs, name, slot);
    SetGet(ptrs, name, slot, name);
    if SlotInside(slot, end) {
      forall n ensures SlotInside(Get(ptrs', n), end) { SetGet(ptrs, name, slot, n); }
    }
  }

  lemma {:induction false} KeptInside(keccak: Hash, tbs: bytes, current: CborElement, end: nat, ptrs: Ptrs,
                                      rounds: seq<Round>)
    requires Tile(keccak, tbs, current, end, rounds) && PtrsInside(ptrs, end) && |rounds| > 0
    ensures var r := rounds[|rounds| - 1];
      PtrsInside(Keep(ptrs, rounds), end) <==> r.last.End() <= end || NoElement(r.slot)
    decreases |rounds|
  {
    hide RoundAt, PtrsInside, Set, Suits;
    var r, rest := rounds[0], rounds[1..];
    RoundReads(keccak, tbs, current, ptrs, r);
    RoundEnds(keccak, tbs, current, r, end);
    SetInside(ptrs, r.name, r.slot, end);
    if |rounds| == 1 {
      assert Keep(ptrs, rounds) == Keep(Set(ptrs, r.name, r.slot), []);
    } else {
      KeptInside(keccak, tbs, r.last, end, Set(ptrs, r.name, r.slot), rest);
      assert rest[|rest| - 1] == rounds[|rounds| - 1];
    }
  }

  /**
   Every attestation that parses is its prefix, the head of a byte string, the head of a map, and entries that tile the
   payload up to its end or past it. All elements returned lie inside the payload if and only if the last entry does, or
   keeps no element.
   */
  lemma {:induction false} ParsedTiles(keccak: Hash, tbs: bytes)
    returns (payload: CborElement, head: CborElement, rounds: seq<Round>)
    requires ParseAttestation(keccak, tbs).Ok?
    ensures ByteStringAt(tbs, 18) == Ok(payload) && MapAt(tbs, payload.start) == Ok(head)
    ensures Tile(keccak, tbs, head, payload.End(), rounds)
    ensures ParseAttestation(keccak, tbs).value == Keep(NO_PTRS, rounds)
    ensures PtrsInside(ParseAttestation(keccak, tbs).value, payload.End()) <==>
      |rounds| == 0 || rounds[|rounds| - 1].last.End() <= payload.End() || NoElement(rounds[|rounds| - 1].slot)
  {
    hide ElementAt, ReadEntries, Slice, Tile, PtrsInside, NoElement;
    payload := ByteStringAt(tbs, 18).value;
    head := MapAt(tbs, payload.start).value;
    rounds := EntriesTile(keccak, tbs, head, payload.End(), NO_PTRS);
    NothingInside(payload.End());
    if |rounds| == 0 {
    } else {
      KeptInside(keccak, tbs, head, payload.End(), NO_PTRS, rounds);
    }
  }

  lemma NothingInside(end: nat)
    ensures PtrsInside(NO_PTRS, end)
  {
    forall name ensures SlotInside(Get(NO_PTRS, name), end) {}
  }

  /** Conversely, whatever is tiled parses. */
  lemma {:induction false} TiledParses(keccak: Hash, tbs: bytes, payload: CborElement, head: CborElement,
                                       rounds: seq<Round>)
    requires |tbs| >= 18 && keccak(tbs[0..18]) == keccak(TBS_PREFIX)
    requires ByteStringAt(tbs, 18) == Ok(payload) && MapAt(tbs, payload.start) == Ok(head)
    requires Tile(keccak, tbs, head, payload.End(), rounds)
    ensures ParseAttestation(keccak, tbs) == Ok(Keep(NO_PTRS, rounds))
  {
    hide ElementAt, ReadEntries, Tile;
    TiledReads(keccak, tbs, head, payload.End(), NO_PTRS, rounds);
  }

  /** "nonce" with a byte string of two announced right at the end: accepted, with an element past the signed bytes. */
  lemma {:induction false} OverrunParses(keccak: Hash)
    requires KeysDistinct(keccak)
    ensures var tbs := TBS_PREFIX + [0x48, 0xa1, 0x65, 0x6e, 0x6f, 0x6e, 0x63, 0x65, 0x42];
      ParseAttestation(keccak, tbs).Ok? && ParseAttestation(keccak, tbs).value.nonce.End() > |tbs|
  {
    hide KeysDistinct, NameOf, KeyHash;
    var tbs := TBS_PREFIX + [0x48, 0xa1, 0x65, 0x6e, 0x6f, 0x6e, 0x63, 0x65, 0x42];
    var payload, head := CborElement(0x40, 19, 8), CborElement(0xa0, 20, 1);
    var key, nonce := CborElement(0x60, 21, 5), CborElement(0x40, 27, 2);
    assert tbs[21..26] == KeyText(Nonce);
    assert keccak(KeyText(Nonce)) == KeyHash(keccak, Nonce) by { KeyHashOf(keccak, Nonce); }
    NameOfKey(keccak, Nonce);
    var r := Round(key, Nonce, Single(nonce), nonce);
    assert RoundAt(keccak, tbs, head, r);
    OneRound(keccak, tbs, head, payload.End(), r);
    assert tbs[0..18] == TBS_PREFIX;
    TiledParses(keccak, tbs, payload, head, [r]);
  }

  lemma KeyHashOf(keccak: Hash, name: Name)
    ensures KeyHash(keccak, name) == keccak(KeyText(name))
  {}

  lemma {:induction false} OneRound(keccak: Hash, tbs: bytes, current: CborElement, end: nat, r: Round)
    requires RoundAt(keccak, tbs, current, r) && current.End() < end <= r.last.End()
    ensures Tile(keccak, tbs, current, end, [r])
    ensures Suits(r.name, r.slot) && Keep(NO_PTRS, [r]) == Set(NO_PTRS, r.name, r.slot)
  {
    hide RoundAt, Suits, Set;
    RoundReads(keccak, tbs, current, NO_PTRS, r);
    assert [r][1..] == [];
  }
}
