/**
 Encoding attestation documents (section 3 of RFC 8949) and parsing them back: every order of the
 keys and every head width gives back exactly the fields' bytes.
 */
module AttestationCoding {
  import opened Basics
  import opened LibBytes
  import opened CborDecode
  import opened CertParser
  import opened Cose
  import opened Attestation

  // ---------------------------------------------------------------- encoding

  /** A byte or text string and the width of its length. */
  datatype Str = Str(content: bytes, w: Width) {
    predicate Valid() { w.Fits(|content|) }
  }

  function TextString(s: Str): bytes
    requires s.Valid()
  {
    Head(3, |s.content|, s.w) + s.content
  }

  datatype Pcr = Pcr(index: nat, indexWidth: Width, value: Str) {
    predicate Valid() { indexWidth.Fits(index) && value.Valid() }

    function Encode(): bytes
      requires Valid()
    {
      Head(0, index, indexWidth) + ByteString(value.content, value.w)
    }
  }

  datatype Value =
    | Text(s: Str)
    | Bytes(s: Str)
    | Null(b: byte)
    | Uint(n: nat, w: Width)
    | Certs(certs: seq<Str>, w: Width)
    | PcrMap(pcrs: seq<Pcr>, w: Width)

  predicate ValidCerts(certs: seq<Str>) {
    forall i {:trigger certs[i]} :: 0 <= i < |certs| ==> certs[i].Valid()
  }

  /** Indices below the count, and no index twice. */
  predicate IndicesFit(pcrs: seq<Pcr>, n: nat) {
    && (forall i {:trigger pcrs[i]} :: 0 <= i < |pcrs| ==> pcrs[i].index < n)
    && (forall i, j :: 0 <= i < j < |pcrs| ==> pcrs[i].index != pcrs[j].index)
  }

  predicate ValidPcrs(pcrs: seq<Pcr>) {
    forall i {:trigger pcrs[i]} :: 0 <= i < |pcrs| ==> pcrs[i].Valid()
  }

  datatype Entry = Entry(name: Name, keyWidth: Width, value: Value) {
    /** Each name has its type of value, and every number fits its width. */
    predicate Valid() {
      && keyWidth.Fits(|KeyText(name)|)
      && match name
         case ModuleId | Digest => value.Text? && value.s.Valid()
         case Certificate => value.Bytes? && value.s.Valid()
         case PublicKey | UserData | Nonce =>
           (value.Bytes? && value.s.Valid())
           || (value.Null? && (value.b == 0xf6 || value.b == 0xf7))
         case Timestamp => value.Uint? && value.w.Fits(value.n)
         case Cabundle => value.Certs? && value.w.Fits(|value.certs|) && ValidCerts(value.certs)
         case Pcrs =>
           value.PcrMap? && value.w.Fits(|value.pcrs|)
           && ValidPcrs(value.pcrs) && IndicesFit(value.pcrs, |value.pcrs|)
    }
  }

  function EncodeCerts(certs: seq<Str>): bytes
    requires ValidCerts(certs)
  {
    if |certs| == 0 then [] else ByteString(certs[0].content, certs[0].w) + EncodeCerts(certs[1..])
  }

  function EncodePcrs(pcrs: seq<Pcr>): bytes
    requires ValidPcrs(pcrs)
  {
    if |pcrs| == 0 then [] else pcrs[0].Encode() + EncodePcrs(pcrs[1..])
  }

  function EncodeValue(e: Entry): bytes
    requires e.Valid()
  {
    match e.value
    case Text(s) => TextString(s)
    case Bytes(s) => ByteString(s.content, s.w)
    case Null(b) => [b]
    case Uint(n, w) => Head(0, n, w)
    case Certs(certs, w) => Head(4, |certs|, w) + EncodeCerts(certs)
    case PcrMap(pcrs, w) => Head(5, |pcrs|, w) + EncodePcrs(pcrs)
  }

  function EncodeEntry(e: Entry): bytes
    requires e.Valid()
  {
    TextString(Str(KeyText(e.name), e.keyWidth)) + EncodeValue(e)
  }

  predicate AllValid(entries: seq<Entry>) {
    forall i {:trigger entries[i]} :: 0 <= i < |entries| ==> entries[i].Valid()
  }

  function EncodeEntries(entries: seq<Entry>): bytes
    requires AllValid(entries)
  {
    if |entries| == 0 then [] else EncodeEntry(entries[0]) + EncodeEntries(entries[1..])
  }

  // ---------------------------------------------------------------- what a pointer says

  /** `ptr` points at exactly this content, and is not null. */
  predicate PointsAt(tbs: bytes, ptr: CborElement, content: bytes) {
    !ptr.IsNull() && ptr != UNSET && SliceOf(tbs, ptr) == Ok(content) && ptr.Length() == |content|
  }

  /** Slicing the signed bytes by what was kept gives back the value. */
  predicate Recorded(tbs: bytes, slot: Slot, v: Value) {
    match v
    case Text(s) => slot.Single? && PointsAt(tbs, slot.ptr, s.content)
    case Bytes(s) => slot.Single? && PointsAt(tbs, slot.ptr, s.content)
    case Null(_) => slot.Single? && slot.ptr.IsNull()
    case Uint(n, _) => slot == Number(n)
    case Certs(certs, _) => slot.Many? && AreCerts(tbs, slot.ptrs, certs)
    case PcrMap(pcrs, _) => slot.Many? && |slot.ptrs| == |pcrs| && HoldsPcrs(tbs, slot.ptrs, pcrs)
  }

  /** The certificates in their order. */
  predicate AreCerts(tbs: bytes, ptrs: seq<CborElement>, certs: seq<Str>) {
    && |ptrs| == |certs|
    && forall i {:trigger ptrs[i]} :: 0 <= i < |ptrs| ==> PointsAt(tbs, ptrs[i], certs[i].content)
  }

  /** Every register at its index. */
  predicate HoldsPcrs(tbs: bytes, ptrs: seq<CborElement>, pcrs: seq<Pcr>) {
    forall i {:trigger pcrs[i]} :: 0 <= i < |pcrs| ==>
      pcrs[i].index < |ptrs| && PointsAt(tbs, ptrs[pcrs[i].index], pcrs[i].value.content)
  }

  // ---------------------------------------------------------------- one element

  lemma TextStringReads(tbs: bytes, ptr: CborElement, s: Str)
    requires s.Valid() && At(tbs, ptr.End(), TextString(s))
    ensures NextTextString(tbs, ptr).Ok?
    ensures var e := NextTextString(tbs, ptr).value;
      PointsAt(tbs, e, s.content) && e.End() == ptr.End() + |TextString(s)|
  {
    hide Head, FromBE, ToBE, ElementAt;
    AtSplit(tbs, ptr.End(), Head(3, |s.content|, s.w), s.content);
    HeadDecodes(tbs, ptr.End(), 3, |s.content|, s.w, true);
  }

  lemma ByteStringReads(tbs: bytes, ptr: CborElement, s: Str, required: bool)
    requires s.Valid() && At(tbs, ptr.End(), ByteString(s.content, s.w))
    ensures ElementAt(tbs, ptr.End(), 0x40, required).Ok?
    ensures var e := ElementAt(tbs, ptr.End(), 0x40, required).value;
      PointsAt(tbs, e, s.content) && e.End() == ptr.End() + |ByteString(s.content, s.w)|
  {
    hide Head, FromBE, ToBE, ElementAt;
    AtSplit(tbs, ptr.End(), Head(2, |s.content|, s.w), s.content);
    HeadDecodes(tbs, ptr.End(), 2, |s.content|, s.w, required);
  }

  // ---------------------------------------------------------------- certificates

  /** The bundle comes back complete and in order. */
  lemma {:induction false} CertsRead(tbs: bytes, current: CborElement, certs: seq<Str>)
    requires ValidCerts(certs) && At(tbs, current.End(), EncodeCerts(certs))
    ensures ReadCabundle(tbs, current, |certs|).Ok?
    ensures var (last, ptrs) := ReadCabundle(tbs, current, |certs|).value;
      AreCerts(tbs, ptrs, certs) && last.End() == current.End() + |EncodeCerts(certs)|
    decreases |certs|
  {
    hide ByteString, ElementAt, PointsAt, At;
    if |certs| == 0 {
    } else {
      AtSplit(tbs, current.End(), ByteString(certs[0].content, certs[0].w), EncodeCerts(certs[1..]));
      ByteStringReads(tbs, current, certs[0], true);
      CertsRead(tbs, NextByteString(tbs, current).value, certs[1..]);
      var (last, ptrs) := ReadCabundle(tbs, current, |certs|).value;
      assert forall i {:trigger ptrs[i]} :: 0 < i < |ptrs| ==>
        certs[i] == certs[1..][i - 1] && ptrs[i] == ptrs[1..][i - 1];
    }
  }

  // ---------------------------------------------------------------- registers

  /** Every index is one of a free slot, and none comes twice. */
  predicate Free(pcrs: seq<Pcr>, slots: seq<CborElement>) {
    && IndicesFit(pcrs, |slots|)
    && forall i {:trigger pcrs[i]} :: 0 <= i < |pcrs| ==> slots[pcrs[i].index] == UNSET
  }

  predicate IsIndex(pcrs: seq<Pcr>, k: nat) {
    exists i {:trigger pcrs[i]} :: 0 <= i < |pcrs| && pcrs[i].index == k
  }

  lemma {:induction false} FreeStep(pcrs: seq<Pcr>, slots: seq<CborElement>, e: CborElement)
    requires |pcrs| > 0 && e != UNSET
    ensures var k := pcrs[0].index;
      Free(pcrs, slots) <==> k < |slots| && slots[k] == UNSET && Free(pcrs[1..], slots[k := e])
  {
    var k, rest := pcrs[0].index, pcrs[1..];
    assert forall i {:trigger pcrs[i]} :: 0 < i < |pcrs| ==> pcrs[i] == rest[i - 1];
    if Free(pcrs, slots) {
      assert forall i {:trigger rest[i]} :: 0 <= i < |rest| ==> rest[i] == pcrs[i + 1];
    }
  }

  lemma {:induction false} HoldsStep(tbs: bytes, pcrs: seq<Pcr>, ptrs: seq<CborElement>)
    requires |pcrs| > 0 && HoldsPcrs(tbs, ptrs, pcrs[1..])
    requires pcrs[0].index < |ptrs| && PointsAt(tbs, ptrs[pcrs[0].index], pcrs[0].value.content)
    ensures HoldsPcrs(tbs, ptrs, pcrs)
  {
    hide PointsAt;
    assert forall i {:trigger pcrs[i]} :: 0 < i < |pcrs| ==> pcrs[i] == pcrs[1..][i - 1];
  }

  /** `ptrs` is `slots` but for the places that the pairs name. */
  predicate OthersKept(pcrs: seq<Pcr>, slots: seq<CborElement>, ptrs: seq<CborElement>) {
    && |ptrs| == |slots|
    && forall k {:trigger ptrs[k]} :: 0 <= k < |ptrs| ==> IsIndex(pcrs, k) || ptrs[k] == slots[k]
  }

  lemma {:induction false} OthersStep(pcrs: seq<Pcr>, slots: seq<CborElement>, e: CborElement, ptrs: seq<CborElement>)
    requires |pcrs| > 0 && pcrs[0].index < |slots| && IndicesFit(pcrs, |slots|)
    requires OthersKept(pcrs[1..], slots[pcrs[0].index := e], ptrs)
    ensures OthersKept(pcrs, slots, ptrs) && ptrs[pcrs[0].index] == e
  {
    var k0, rest := pcrs[0].index, pcrs[1..];
    assert forall i {:trigger rest[i]} :: 0 <= i < |rest| ==> rest[i] == pcrs[i + 1];
    assert !IsIndex(rest, k0);
    forall k | 0 <= k < |ptrs| && k != k0
      ensures IsIndex(pcrs, k) || ptrs[k] == slots[k]
    {
      if IsIndex(rest, k) {
        var i :| 0 <= i < |rest| && rest[i].index == k;
        assert pcrs[i + 1].index == k;
      }
    }
  }

  lemma PcrReads(tbs: bytes, current: CborElement, p: Pcr)
    requires p.Valid() && At(tbs, current.End(), p.Encode())
    ensures NextPositiveInt(tbs, current).Ok? && NextPositiveInt(tbs, current).value.value == p.index
    ensures var key := NextPositiveInt(tbs, current).value;
      && NextByteString(tbs, key).Ok?
      && PointsAt(tbs, NextByteString(tbs, key).value, p.value.content)
      && NextByteString(tbs, key).value.End() == current.End() + |p.Encode()|
  {
    hide Head, FromBE, ToBE, ElementAt, ByteString, PointsAt;
    AtSplit(tbs, current.End(), Head(0, p.index, p.indexWidth), ByteString(p.value.content, p.value.w));
    HeadDecodes(tbs, current.End(), 0, p.index, p.indexWidth, true);
    ByteStringReads(tbs, NextPositiveInt(tbs, current).value, p.value, true);
  }

  /**
   Encoded register pairs are accepted exactly when their indices are below the count, free, and
   distinct; then every register lies at its index, whatever the order, and nothing else changes.
   */
  lemma {:induction false} PcrsRead(tbs: bytes, current: CborElement, pcrs: seq<Pcr>, slots: seq<CborElement>)
    requires ValidPcrs(pcrs) && At(tbs, current.End(), EncodePcrs(pcrs))
    ensures ReadPcrs(tbs, current, |pcrs|, slots).Ok? <==> Free(pcrs, slots)
    ensures Free(pcrs, slots) ==>
      var (last, ptrs) := ReadPcrs(tbs, current, |pcrs|, slots).value;
      HoldsPcrs(tbs, ptrs, pcrs) && OthersKept(pcrs, slots, ptrs) && last.End() == current.End() + |EncodePcrs(pcrs)|
    decreases |pcrs|
  {
    hide ElementAt, At, Free, IsIndex, HoldsPcrs, OthersKept;
    if |pcrs| == 0 {
      NoPcrs(tbs, slots);
      assert pcrs == [];
    } else {
      var k := pcrs[0].index;
      AtSplit(tbs, current.End(), pcrs[0].Encode(), EncodePcrs(pcrs[1..]));
      PcrReads(tbs, current, pcrs[0]);
      var e := NextByteString(tbs, NextPositiveInt(tbs, current).value).value;
      FreeStep(pcrs, slots, e);
      if k < |slots| && slots[k] == UNSET {
        PcrsRead(tbs, e, pcrs[1..], slots[k := e]);
        if Free(pcrs, slots) {
          var (last, ptrs) := ReadPcrs(tbs, e, |pcrs| - 1, slots[k := e]).value;
          FreeFits(pcrs, slots);
          OthersStep(pcrs, slots, e, ptrs);
          HoldsStep(tbs, pcrs, ptrs);
        }
      }
    }
  }

  lemma {:induction false} FreeFits(pcrs: seq<Pcr>, slots: seq<CborElement>)
    requires Free(pcrs, slots)
    ensures IndicesFit(pcrs, |slots|)
  {}

  lemma {:induction false} NoPcrs(tbs: bytes, slots: seq<CborElement>)
    ensures Free([], slots) && HoldsPcrs(tbs, slots, []) && OthersKept([], slots, slots)
  {}

  // ---------------------------------------------------------------- whole documents

  /** The value of an entry reads back, and the next element starts right after it. */
  ghost predicate ValueReads(tbs: bytes, key: CborElement, e: Entry)
    requires e.Valid()
  {
    && ReadValue(tbs, key, e.name).Ok?
    && ReadValue(tbs, key, e.name).value.0.End() == key.End() + |EncodeValue(e)|
    && Recorded(tbs, ReadValue(tbs, key, e.name).value.1, e.value)
  }

  lemma StringReads(tbs: bytes, key: CborElement, e: Entry)
    requires e.Valid() && At(tbs, key.End(), EncodeValue(e)) && (e.value.Text? || e.value.Bytes? || e.value.Null?)
    ensures ValueReads(tbs, key, e)
  {
    hide Head, FromBE, ToBE, ElementAt, ByteString, TextString, KeyText, PointsAt;
    match e.value
    case Text(s) => TextStringReads(tbs, key, s);
    case Bytes(s) => ByteStringReads(tbs, key, s, e.name == Certificate);
    case Null(b) => NullDecodes(tbs, key.End(), b, 0x40);
  }

  lemma UintReads(tbs: bytes, key: CborElement, e: Entry)
    requires e.Valid() && At(tbs, key.End(), EncodeValue(e)) && e.value.Uint?
    ensures ValueReads(tbs, key, e)
  {
    hide Head, FromBE, ToBE, ElementAt, KeyText;
    HeadDecodes(tbs, key.End(), 0, e.value.n, e.value.w, true);
  }

  lemma {:induction false} CertsValueReads(tbs: bytes, key: CborElement, e: Entry)
    requires e.Valid() && At(tbs, key.End(), EncodeValue(e)) && e.value.Certs?
    ensures ValueReads(tbs, key, e)
  {
    hide Head, FromBE, ToBE, ElementAt, KeyText, AreCerts, EncodeCerts;
    var certs, w := e.value.certs, e.value.w;
    AtSplit(tbs, key.End(), Head(4, |certs|, w), EncodeCerts(certs));
    HeadDecodes(tbs, key.End(), 4, |certs|, w, true);
    CertsRead(tbs, NextArray(tbs, key).value, certs);
  }

  lemma {:induction false} PcrsValueReads(tbs: bytes, key: CborElement, e: Entry)
    requires e.Valid() && At(tbs, key.End(), EncodeValue(e)) && e.value.PcrMap?
    ensures ValueReads(tbs, key, e)
  {
    hide Head, FromBE, ToBE, ElementAt, KeyText, HoldsPcrs, EncodePcrs, OthersKept;
    var pcrs, w := e.value.pcrs, e.value.w;
    AtSplit(tbs, key.End(), Head(5, |pcrs|, w), EncodePcrs(pcrs));
    HeadDecodes(tbs, key.End(), 5, |pcrs|, w, true);
    PcrsRead(tbs, NextMap(tbs, key).value, pcrs, Unset(|pcrs|));
  }

  lemma {:induction false} ValueIsRead(tbs: bytes, key: CborElement, e: Entry)
    requires e.Valid() && At(tbs, key.End(), EncodeValue(e))
    ensures ValueReads(tbs, key, e)
  {
    hide ValueReads, EncodeValue;
    match e.value
    case Uint(_, _) => UintReads(tbs, key, e);
    case Certs(_, _) => CertsValueReads(tbs, key, e);
    case PcrMap(_, _) => PcrsValueReads(tbs, key, e);
    case _ => StringReads(tbs, key, e);
  }

  /** One round of the loop on an encoded entry records its value under its name and touches no other field. */
  lemma {:induction false} EntryReads(keccak: Hash, tbs: bytes, current: CborElement, e: Entry, ptrs: Ptrs)
    requires KeysDistinct(keccak) && e.Valid() && At(tbs, current.End(), EncodeEntry(e))
    ensures ReadEntry(keccak, tbs, current, ptrs).Ok?
    ensures var (next, ptrs') := ReadEntry(keccak, tbs, current, ptrs).value;
      && next.End() == current.End() + |EncodeEntry(e)|
      && Recorded(tbs, Get(ptrs', e.name), e.value)
      && forall n {:trigger Get(ptrs', n)} :: n != e.name ==> Get(ptrs', n) == Get(ptrs, n)
  {
    hide Head, ElementAt, KeyText, EncodeValue, Recorded, TextString, Get, Set, ReadValue, KeysDistinct, NameOf;
    var key := Str(KeyText(e.name), e.keyWidth);
    AtSplit(tbs, current.End(), TextString(key), EncodeValue(e));
    TextStringReads(tbs, current, key);
    NameOfKey(keccak, e.name);
    var k := NextTextString(tbs, current).value;
    ValueIsRead(tbs, k, e);
    forall n ensures Get(Set(ptrs, e.name, ReadValue(tbs, k, e.name).value.1), n)
                     == if n == e.name then ReadValue(tbs, k, e.name).value.1 else Get(ptrs, n)
    {
      SetGet(ptrs, e.name, ReadValue(tbs, k, e.name).value.1, n);
    }
  }

  /** The value a document gives to a name: that of its last entry with the name. */
  function Lookup(entries: seq<Entry>, name: Name): Option<Value> {
    if |entries| == 0 then None
    else
      var later := Lookup(entries[1..], name);
      if later.Some? then later else if entries[0].name == name then Some(entries[0].value) else None
  }

  /** `ptrs'` records the document, and keeps what `ptrs` had for every name the document lacks. */
  ghost predicate Describes(tbs: bytes, ptrs: Ptrs, ptrs': Ptrs, entries: seq<Entry>) {
    forall n {:trigger Get(ptrs', n)} ::
      match Lookup(entries, n)
      case None => Get(ptrs', n) == Get(ptrs, n)
      case Some(v) => Recorded(tbs, Get(ptrs', n), v)
  }

  lemma {:induction false} DescribesStep(tbs: bytes, p0: Ptrs, p1: Ptrs, p2: Ptrs, entries: seq<Entry>)
    requires |entries| > 0 && Describes(tbs, p1, p2, entries[1..])
    requires Recorded(tbs, Get(p1, entries[0].name), entries[0].value)
    requires forall n {:trigger Get(p1, n)} :: n != entries[0].name ==> Get(p1, n) == Get(p0, n)
    ensures Describes(tbs, p0, p2, entries)
  {
    hide Recorded, Get;
    forall n
      ensures match Lookup(entries, n)
              case None => Get(p2, n) == Get(p0, n)
              case Some(v) => Recorded(tbs, Get(p2, n), v)
    {
      assert Get(p2, n) == Get(p2, n) && Get(p1, n) == Get(p1, n);
    }
  }

  /** Over encoded entries, and whatever follows them, the loop records each of them and goes on behind the last. */
  lemma {:induction false} EntriesRead(keccak: Hash, tbs: bytes, current: CborElement, end: nat, entries: seq<Entry>,
                                       ptrs: Ptrs)
    returns (last: CborElement, ptrs': Ptrs)
    requires KeysDistinct(keccak) && AllValid(entries) && At(tbs, current.End(), EncodeEntries(entries))
    requires end >= current.End() + |EncodeEntries(entries)|
    ensures last.End() == current.End() + |EncodeEntries(entries)|
    ensures ReadEntries(keccak, tbs, current, end, ptrs) == ReadEntries(keccak, tbs, last, end, ptrs')
    ensures Describes(tbs, ptrs, ptrs', entries)
    decreases |entries|
  {
    hide EncodeEntry, Recorded, Get, ReadEntry, KeysDistinct, At, Describes;
    if |entries| == 0 {
      assert entries == [];
      NothingDescribed(tbs, ptrs);
      last, ptrs' := current, ptrs;
    } else {
      AtSplit(tbs, current.End(), EncodeEntry(entries[0]), EncodeEntries(entries[1..]));
      EntryReads(keccak, tbs, current, entries[0], ptrs);
      var (next, ptrs1) := ReadEntry(keccak, tbs, current, ptrs).value;
      last, ptrs' := EntriesRead(keccak, tbs, next, end, entries[1..], ptrs1);
      DescribesStep(tbs, ptrs, ptrs1, ptrs', entries);
    }
  }

  lemma {:induction false} NothingDescribed(tbs: bytes, ptrs: Ptrs)
    ensures Describes(tbs, ptrs, ptrs, [])
  {}

  /** The payload: a map head, whose announced count may be any number, and the entries. */
  function EncodePayload(entries: seq<Entry>, count: nat, w: Width): bytes
    requires AllValid(entries) && w.Fits(count)
  {
    Head(5, count, w) + EncodeEntries(entries)
  }

  /** The Sig_structure of a document under the protected header {1: -35}. */
  function SignedBytes(payload: Str): bytes
    requires payload.Valid()
  {
    TBS_PREFIX + ByteString(payload.content, payload.w)
  }

  /** Parsing a payload of encoded entries and anything behind them comes to reading what is behind them. */
  lemma {:induction false} PayloadReads(keccak: Hash, entries: seq<Entry>, count: nat, w: Width, rest: bytes, pw: Width)
    returns (last: CborElement, ptrs: Ptrs)
    requires KeysDistinct(keccak) && AllValid(entries) && w.Fits(count)
    requires pw.Fits(|EncodePayload(entries, count, w) + rest|)
    ensures var tbs := SignedBytes(Str(EncodePayload(entries, count, w) + rest, pw));
      && ParseAttestation(keccak, tbs) == ReadEntries(keccak, tbs, last, |tbs|, ptrs)
      && Describes(tbs, NO_PTRS, ptrs, entries)
      && At(tbs, last.End(), rest) && last.End() + |rest| == |tbs|
  {
    hide Head, ElementAt, KeysDistinct, At, Describes, ReadEntries, EncodeEntries, ByteString;
    var content := EncodePayload(entries, count, w) + rest;
    var tbs := SignedBytes(Str(content, pw));
    PrefixFirst(Str(content, pw));
    ByteStringInPlace(tbs, 18, content, pw);
    var payload := ByteStringAt(tbs, 18).value;
    AtSplit(tbs, payload.start, EncodePayload(entries, count, w), rest);
    AtSplit(tbs, payload.start, Head(5, count, w), EncodeEntries(entries));
    HeadDecodes(tbs, payload.start, 5, count, w, true);
    last, ptrs := EntriesRead(keccak, tbs, MapAt(tbs, payload.start).value, payload.End(), entries, NO_PTRS);
  }

  /**
   The document theorem. Whatever the order of the entries and the widths of all heads, the parse
   succeeds; every pointer slices to exactly its field's bytes, the certificates in order and every
   register at its index; and every absent field stays unset.
   */
  lemma {:induction false} DocumentParses(keccak: Hash, entries: seq<Entry>, count: nat, w: Width, pw: Width)
    requires KeysDistinct(keccak) && AllValid(entries) && w.Fits(count) && pw.Fits(|EncodePayload(entries, count, w)|)
    ensures var tbs := SignedBytes(Str(EncodePayload(entries, count, w), pw));
      && ParseAttestation(keccak, tbs).Ok?
      && Describes(tbs, NO_PTRS, ParseAttestation(keccak, tbs).value, entries)
  {
    hide ParseAttestation, KeysDistinct, AllValid, Describes, ReadEntries, EncodePayload, SignedBytes;
    assert EncodePayload(entries, count, w) + [] == EncodePayload(entries, count, w);
    var last, ptrs := PayloadReads(keccak, entries, count, w, [], pw);
    NothingLeft(keccak, SignedBytes(Str(EncodePayload(entries, count, w), pw)), last, last.End(), ptrs);
  }

  lemma NothingLeft(keccak: Hash, tbs: bytes, last: CborElement, end: nat, ptrs: Ptrs)
    requires last.End() >= end
    ensures ReadEntries(keccak, tbs, last, end, ptrs) == Ok(ptrs)
  {}

  lemma PrefixFirst(payload: Str)
    requires payload.Valid()
    ensures Slice(SignedBytes(payload), 0, 18) == Ok(TBS_PREFIX)
    ensures At(SignedBytes(payload), 18, ByteString(payload.content, payload.w))
  {
    hide ByteString;
    assert SignedBytes(payload)[0..18] == TBS_PREFIX;
    assert SignedBytes(payload)[18..] == ByteString(payload.content, payload.w);
  }

  lemma ByteStringInPlace(tbs: bytes, i: nat, content: bytes, w: Width)
    requires w.Fits(|content|) && At(tbs, i, ByteString(content, w))
    ensures ByteStringAt(tbs, i).Ok? && At(tbs, ByteStringAt(tbs, i).value.start, content)
    ensures ByteStringAt(tbs, i).value.End() == ByteStringAt(tbs, i).value.start + |content|
           == i + |ByteString(content, w)|
  {
    hide Head, ElementAt;
    AtSplit(tbs, i, Head(2, |content|, w), content);
    HeadDecodes(tbs, i, 2, |content|, w, true);
  }
}
