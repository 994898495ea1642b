/**
 The attestation document (DKIMOracle.sol:152-208): a CBOR map whose keys are recognised by their hash,
 in whatever order they come.
 */
module Attestation {
  import opened Basics
  import opened LibBytes
  import opened CborDecode
  import opened CertParser
  import opened Cose

  // ---------------------------------------------------------------- keys and pointers

  datatype Name = ModuleId | Digest | Certificate | PublicKey | UserData | Nonce | Timestamp | Cabundle | Pcrs

  /** The key as it is written: "module_id", "digest", and so on. */
  function KeyText(name: Name): (text: bytes)
    ensures 0 < |text| < 24
  {
    match name
    case ModuleId => [0x6d, 0x6f, 0x64, 0x75, 0x6c, 0x65, 0x5f, 0x69, 0x64]
    case Digest => [0x64, 0x69, 0x67, 0x65, 0x73, 0x74]
    case Certificate => [0x63, 0x65, 0x72, 0x74, 0x69, 0x66, 0x69, 0x63, 0x61, 0x74, 0x65]
    case PublicKey => [0x70, 0x75, 0x62, 0x6c, 0x69, 0x63, 0x5f, 0x6b, 0x65, 0x79]
    case UserData => [0x75, 0x73, 0x65, 0x72, 0x5f, 0x64, 0x61, 0x74, 0x61]
    case Nonce => [0x6e, 0x6f, 0x6e, 0x63, 0x65]
    case Timestamp => [0x74, 0x69, 0x6d, 0x65, 0x73, 0x74, 0x61, 0x6d, 0x70]
    case Cabundle => [0x63, 0x61, 0x62, 0x75, 0x6e, 0x64, 0x6c, 0x65]
    case Pcrs => [0x70, 0x63, 0x72, 0x73]
  }

  /** The nine key constants are the hashes of the nine names. */
  function KeyHash(keccak: Hash, name: Name): Bytes32 { keccak(KeyText(name)) }

  predicate KeysDistinct(keccak: Hash) {
    forall a: Name, b: Name :: KeyHash(keccak, a) == KeyHash(keccak, b) ==> a == b
  }

  /** The name with this hash, in the order the contract compares them. */
  function NameOf(keccak: Hash, h: Bytes32): Result<Name> {
    if h == KeyHash(keccak, ModuleId) then Ok(ModuleId)
    else if h == KeyHash(keccak, Digest) then Ok(Digest)
    else if h == KeyHash(keccak, Certificate) then Ok(Certificate)
    else if h == KeyHash(keccak, PublicKey) then Ok(PublicKey)
    else if h == KeyHash(keccak, UserData) then Ok(UserData)
    else if h == KeyHash(keccak, Nonce) then Ok(Nonce)
    else if h == KeyHash(keccak, Timestamp) then Ok(Timestamp)
    else if h == KeyHash(keccak, Cabundle) then Ok(Cabundle)
    else if h == KeyHash(keccak, Pcrs) then Ok(Pcrs)
    else Revert
  }

  lemma NameOfKey(keccak: Hash, name: Name)
    requires KeysDistinct(keccak)
    ensures NameOf(keccak, KeyHash(keccak, name)) == Ok(name)
  {
    hide KeyText, KeyHash;
  }

  datatype Ptrs = Ptrs(moduleID: CborElement, timestamp: nat, digest: CborElement, pcrs: seq<CborElement>,
                       cert: CborElement, cabundle: seq<CborElement>, publicKey: CborElement, userData: CborElement,
                       nonce: CborElement)

  const NO_PTRS := Ptrs(UNSET, 0, UNSET, [], UNSET, [], UNSET, UNSET, UNSET)

  /** What is kept of one field. */
  datatype Slot = Single(ptr: CborElement) | Number(n: nat) | Many(ptrs: seq<CborElement>)

  function Get(p: Ptrs, name: Name): Slot {
    match name
    case ModuleId => Single(p.moduleID)
    case Digest => Single(p.digest)
    case Certificate => Single(p.cert)
    case PublicKey => Single(p.publicKey)
    case UserData => Single(p.userData)
    case Nonce => Single(p.nonce)
    case Timestamp => Number(p.timestamp)
    case Cabundle => Many(p.cabundle)
    case Pcrs => Many(p.pcrs)
  }

  predicate Suits(name: Name, s: Slot) {
    match name
    case Timestamp => s.Number?
    case Cabundle | Pcrs => s.Many?
    case _ => s.Single?
  }

  function Set(p: Ptrs, name: Name, s: Slot): Ptrs
    requires Suits(name, s)
  {
    match name
    case ModuleId => p.(moduleID := s.ptr)
    case Digest => p.(digest := s.ptr)
    case Certificate => p.(cert := s.ptr)
    case PublicKey => p.(publicKey := s.ptr)
    case UserData => p.(userData := s.ptr)
    case Nonce => p.(nonce := s.ptr)
    case Timestamp => p.(timestamp := s.n)
    case Cabundle => p.(cabundle := s.ptrs)
    case Pcrs => p.(pcrs := s.ptrs)
  }

  lemma SetGet(p: Ptrs, name: Name, s: Slot, other: Name)
    requires Suits(name, s)
    ensures Get(Set(p, name, s), other) == if other == name then s else Get(p, other)
  {}

  // ---------------------------------------------------------------- parsing

  /** `n` byte strings in a row, and the last element read. */
  function ReadCabundle(tbs: bytes, current: CborElement, n: nat): (r: Result<(CborElement, seq<CborElement>)>)
    ensures r.Ok? ==> |r.value.1| == n && r.value.0.End() >= current.End()
    decreases n
  {
    if n == 0 then Ok((current, []))
    else
      var next :- NextByteString(tbs, current);
      var (last, rest) :- ReadCabundle(tbs, next, n - 1);
      Ok((last, [next] + rest))
  }

  /** `n` pairs of an index and a byte string, each stored at its index, which must be free. */
  function ReadPcrs(tbs: bytes, current: CborElement, n: nat,
                    slots: seq<CborElement>): (r: Result<(CborElement, seq<CborElement>)>)
    ensures r.Ok? ==> |r.value.1| == |slots| && r.value.0.End() >= current.End()
    decreases n
  {
    if n == 0 then Ok((current, slots))
    else
      var key :- NextPositiveInt(tbs, current);
      :- Require(key.value < |slots|);
      :- Require(slots[key.value] == UNSET);
      var pcr :- NextByteString(tbs, key);
      ReadPcrs(tbs, pcr, n - 1, slots[key.value := pcr])
  }

  /** `new CborElement[](n)`. */
  function Unset(n: nat): (s: seq<CborElement>)
    ensures |s| == n && forall i {:trigger s[i]} :: 0 <= i < n ==> s[i] == UNSET
  {
    seq(n, _ => UNSET)
  }

  /** The value after the key at `key`: the last element read and what is kept. */
  function ReadValue(tbs: bytes, key: CborElement, name: Name): (r: Result<(CborElement, Slot)>)
    ensures r.Ok? ==> Suits(name, r.value.1) && r.value.0.End() >= key.End()
  {
    match name
    case ModuleId | Digest =>
      var v :- NextTextString(tbs, key);
      Ok((v, Single(v)))
    case Certificate =>
      var v :- NextByteString(tbs, key);
      Ok((v, Single(v)))
    case PublicKey | UserData | Nonce =>
      var v :- NextByteStringOrNull(tbs, key);
      Ok((v, Single(v)))
    case Timestamp =>
      var v :- NextPositiveInt(tbs, key);
      Ok((v, Number(v.value)))
    case Cabundle =>
      var items :- NextArray(tbs, key);
      var (last, ptrs) :- ReadCabundle(tbs, items, items.value);
      Ok((last, Many(ptrs)))
    case Pcrs =>
      var pairs :- NextMap(tbs, key);
      var (last, ptrs) :- ReadPcrs(tbs, pairs, pairs.value, Unset(pairs.value));
      Ok((last, Many(ptrs)))
  }

  /** One round of the loop. */
  function ReadEntry(keccak: Hash, tbs: bytes, current: CborElement, ptrs: Ptrs): (r: Result<(CborElement, Ptrs)>)
    ensures r.Ok? ==> r.value.0.End() > current.End()
  {
    var key :- NextTextString(tbs, current);
    var text :- SliceOf(tbs, key);
    var name :- NameOf(keccak, keccak(text));
    var (last, slot) :- ReadValue(tbs, key, name);
    Ok((last, Set(ptrs, name, slot)))
  }

  function ReadEntries(keccak: Hash, tbs: bytes, current: CborElement, end: nat, ptrs: Ptrs): Result<Ptrs>
    decreases if current.End() < end then end - current.End() else 0
  {
    if current.End() >= end then Ok(ptrs)
    else
      var (next, ptrs') :- ReadEntry(keccak, tbs, current, ptrs);
      ReadEntries(keccak, tbs, next, end, ptrs')
  }

  /** The first 18 bytes of a Sig_structure whose protected header is {1: -35}. */
  const TBS_PREFIX: bytes := [0x84, 0x6a] + SIGNATURE1 + [0x44, 0xa1, 0x01, 0x38, 0x22, 0x40]

  /** 846a5369676e61747572653144a101382240, as the contract's comment has it. */
  lemma PrefixBytes()
    ensures TBS_PREFIX == [0x84, 0x6a, 0x53, 0x69, 0x67, 0x6e, 0x61, 0x74, 0x75, 0x72, 0x65, 0x31,
                           0x44, 0xa1, 0x01, 0x38, 0x22, 0x40]
  {}

  /** `_parseAttestation`. The number of entries that the map announces is not looked at. */
  function ParseAttestation(keccak: Hash, tbs: bytes): Result<Ptrs> {
    var prefix :- Slice(tbs, 0, 18);
    :- Require(keccak(prefix) == keccak(TBS_PREFIX));
    var payload :- ByteStringAt(tbs, 18);
    var current :- MapAt(tbs, payload.start);
    ReadEntries(keccak, tbs, current, payload.End(), NO_PTRS)
  }

  // ---------------------------------------------------------------- the loops

  /** What is still to be read, behind the certificates already found. */
  function Behind(found: seq<CborElement>,
                  rest: Result<(CborElement, seq<CborElement>)>): Result<(CborElement, seq<CborElement>)> {
    match rest
    case Ok((last, ptrs)) => Ok((last, found + ptrs))
    case Revert => Revert
  }

  lemma {:induction false} BehindStep(tbs: bytes, current: CborElement, n: nat, found: seq<CborElement>)
    requires n > 0
    ensures Behind(found, ReadCabundle(tbs, current, n)) ==
      match NextByteString(tbs, current)
      case Ok(next) => Behind(found + [next], ReadCabundle(tbs, next, n - 1))
      case Revert => Revert
  {
    hide ElementAt;
    if NextByteString(tbs, current).Ok? {
      var next := NextByteString(tbs, current).value;
      match ReadCabundle(tbs, next, n - 1)
      case Ok((last, rest)) => assert found + ([next] + rest) == (found + [next]) + rest;
      case Revert =>
    }
  }

  /** The cabundle loop over its array. */
  method RunReadCabundle(tbs: bytes, items: CborElement, n: nat) returns (r: Result<(CborElement, seq<CborElement>)>)
    ensures r == ReadCabundle(tbs, items, n)
  {
    hide ElementAt, ReadCabundle;
    var current, cabundle := items, new CborElement[n](_ => UNSET);
    ghost var expected := ReadCabundle(tbs, items, n);
    NothingFound(expected);
    assert cabundle[..0] == [];
    for i := 0 to n
      invariant expected == Behind(cabundle[..i], ReadCabundle(tbs, current, n - i))
    {
      BehindStep(tbs, current, n - i, cabundle[..i]);
      ghost var found := cabundle[..i];
      current :- NextByteString(tbs, current);
      cabundle[i] := current;
      assert cabundle[..i + 1] == found + [current];
    }
    r := Ok((current, cabundle[..n]));
    NoneBehind(tbs, current, cabundle[..n]);
  }

  lemma NothingFound(r: Result<(CborElement, seq<CborElement>)>)
    ensures Behind([], r) == r
  {
    if r.Ok? { assert [] + r.value.1 == r.value.1; }
  }

  lemma NoneBehind(tbs: bytes, current: CborElement, found: seq<CborElement>)
    ensures Behind(found, ReadCabundle(tbs, current, 0)) == Ok((current, found))
  {
    assert found + [] == found;
  }

  /** The register loop over its array, with its two checks. */
  method RunReadPcrs(tbs: bytes, pairs: CborElement, n: nat) returns (r: Result<(CborElement, seq<CborElement>)>)
    ensures r == ReadPcrs(tbs, pairs, n, Unset(n))
  {
    hide ElementAt;
    var current, pcrs := pairs, new CborElement[n](_ => UNSET);
    ghost var expected := ReadPcrs(tbs, pairs, n, Unset(n));
    assert pcrs[..] == Unset(n);
    for i := 0 to n
      invariant expected == ReadPcrs(tbs, current, n - i, pcrs[..])
    {
      current :- NextPositiveInt(tbs, current);
      var key := current.value;
      :- Require(key < pcrs.Length);
      :- Require(pcrs[key] == UNSET);
      current :- NextByteString(tbs, current);
      ghost var before := pcrs[..];
      pcrs[key] := current;
      assert pcrs[..] == before[key := current];
    }
    r := Ok((current, pcrs[..]));
  }

  /** The nine branches of the loop body. */
  method RunReadEntry(keccak: Hash, tbs: bytes, current0: CborElement, ptrs0: Ptrs)
    returns (r: Result<(CborElement, Ptrs)>)
    ensures r == ReadEntry(keccak, tbs, current0, ptrs0)
  {
    hide ElementAt, KeyHash, ReadCabundle, ReadPcrs, KeyText;
    var current, ptrs := current0, ptrs0;
    current :- NextTextString(tbs, current);
    var text :- SliceOf(tbs, current);
    var keyHash := keccak(text);
    if keyHash == KeyHash(keccak, ModuleId) {
      current :- NextTextString(tbs, current);
      ptrs := ptrs.(moduleID := current);
    } else if keyHash == KeyHash(keccak, Digest) {
      current :- NextTextString(tbs, current);
      ptrs := ptrs.(digest := current);
    } else if keyHash == KeyHash(keccak, Certificate) {
      current :- NextByteString(tbs, current);
      ptrs := ptrs.(cert := current);
    } else if keyHash == KeyHash(keccak, PublicKey) {
      current :- NextByteStringOrNull(tbs, current);
      ptrs := ptrs.(publicKey := current);
    } else if keyHash == KeyHash(keccak, UserData) {
      current :- NextByteStringOrNull(tbs, current);
      ptrs := ptrs.(userData := current);
    } else if keyHash == KeyHash(keccak, Nonce) {
      current :- NextByteStringOrNull(tbs, current);
      ptrs := ptrs.(nonce := current);
    } else if keyHash == KeyHash(keccak, Timestamp) {
      current :- NextPositiveInt(tbs, current);
      ptrs := ptrs.(timestamp := current.value);
    } else if keyHash == KeyHash(keccak, Cabundle) {
      current :- NextArray(tbs, current);
      var read := RunReadCabundle(tbs, current, current.value);
      if read.Revert? { return Revert; }
      current, ptrs := read.value.0, ptrs.(cabundle := read.value.1);
    } else if keyHash == KeyHash(keccak, Pcrs) {
      current :- NextMap(tbs, current);
      var read := RunReadPcrs(tbs, current, current.value);
      if read.Revert? { return Revert; }
      current, ptrs := read.value.0, ptrs.(pcrs := read.value.1);
    } else {
      return Revert;
    }
    r := Ok((current, ptrs));
  }

  /** The entry loop, which ends because every round moves strictly forward. */
  method RunParseAttestation(keccak: Hash, tbs: bytes) returns (r: Result<Ptrs>)
    ensures r == ParseAttestation(keccak, tbs)
  {
    hide ElementAt, ReadEntry, KeyHash;
    var prefix :- Slice(tbs, 0, 18);
    :- Require(keccak(prefix) == keccak(TBS_PREFIX));
    var payload :- ByteStringAt(tbs, 18);
    var current :- MapAt(tbs, payload.start);
    var ptrs, end := NO_PTRS, payload.End();
    while current.End() < end
      invariant ParseAttestation(keccak, tbs) == ReadEntries(keccak, tbs, current, end, ptrs)
      decreases end - current.End()
    {
      var round := RunReadEntry(keccak, tbs, current, ptrs);
      if round.Revert? { return Revert; }
      current, ptrs := round.value.0, round.value.1;
    }
    r := Ok(ptrs);
  }
}
