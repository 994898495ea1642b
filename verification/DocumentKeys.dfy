/**
 The keys of an attestation document as the texts they are (DKIMOracle.sol:22-30, 160-204), and the field that each of
 them fills, named by itself.
 */
module DocumentKeys {
  import opened Basics
  import opened CborDecode
  import opened CertParser
  import opened Attestation
  import opened AttestationCoding

  // ---------------------------------------------------------------- one round, on any bytes

  lemma KeyTexts()
    ensures KeyText(ModuleId) == Ascii("module_id") && KeyText(Digest) == Ascii("digest")
    ensures KeyText(Certificate) == Ascii("certificate") && KeyText(PublicKey) == Ascii("public_key")
    ensures KeyText(UserData) == Ascii("user_data") && KeyText(Nonce) == Ascii("nonce")
    ensures KeyText(Timestamp) == Ascii("timestamp") && KeyText(Cabundle) == Ascii("cabundle")
    ensures KeyText(Pcrs) == Ascii("pcrs")
  {}

  /** A key that is read at `key` and has this text. */
  ghost predicate KeyIs(tbs: bytes, current: CborElement, key: CborElement, text: bytes) {
    NextTextString(tbs, current) == Ok(key) && SliceOf(tbs, key) == Ok(text)
  }

  lemma RoundByName(keccak: Hash, tbs: bytes, current: CborElement, key: CborElement, ptrs: Ptrs, name: Name)
    requires KeysDistinct(keccak) && KeyIs(tbs, current, key, KeyText(name))
    ensures ReadEntry(keccak, tbs, current, ptrs) ==
      match ReadValue(tbs, key, name)
      case Ok((last, slot)) => Ok((last, Set(ptrs, name, slot)))
      case Revert => Revert
  {
    hide ElementAt, KeyText, NameOf, ReadValue, Set, KeysDistinct, SliceOf;
    NameOfKey(keccak, name);
  }

  /** "module_id" and "digest" take a text string, "certificate" a byte string. */
  lemma StringKeys(keccak: Hash, tbs: bytes, current: CborElement, key: CborElement, ptrs: Ptrs)
    requires KeysDistinct(keccak)
    ensures KeyIs(tbs, current, key, Ascii("module_id")) ==>
      ReadEntry(keccak, tbs, current, ptrs) ==
      match NextTextString(tbs, key) case Ok(v) => Ok((v, ptrs.(moduleID := v))) case Revert => Revert
    ensures KeyIs(tbs, current, key, Ascii("digest")) ==>
      ReadEntry(keccak, tbs, current, ptrs) ==
      match NextTextString(tbs, key) case Ok(v) => Ok((v, ptrs.(digest := v))) case Revert => Revert
    ensures KeyIs(tbs, current, key, Ascii("certificate")) ==>
      ReadEntry(keccak, tbs, current, ptrs) ==
      match NextByteString(tbs, key) case Ok(v) => Ok((v, ptrs.(cert := v))) case Revert => Revert
  {
    hide ElementAt, KeyText, ReadEntry, KeyIs, KeysDistinct;
    KeyTexts();
    if KeyIs(tbs, current, key, Ascii("module_id")) { RoundByName(keccak, tbs, current, key, ptrs, ModuleId); }
    if KeyIs(tbs, current, key, Ascii("digest")) { RoundByName(keccak, tbs, current, key, ptrs, Digest); }
    if KeyIs(tbs, current, key, Ascii("certificate")) { RoundByName(keccak, tbs, current, key, ptrs, Certificate); }
  }

  /** "public_key", "user_data" and "nonce" take a byte string or null. */
  lemma OptionalKeys(keccak: Hash, tbs: bytes, current: CborElement, key: CborElement, ptrs: Ptrs)
    requires KeysDistinct(keccak)
    ensures KeyIs(tbs, current, key, Ascii("public_key")) ==>
      ReadEntry(keccak, tbs, current, ptrs) ==
      match NextByteStringOrNull(tbs, key) case Ok(v) => Ok((v, ptrs.(publicKey := v))) case Revert => Revert
    ensures KeyIs(tbs, current, key, Ascii("user_data")) ==>
      ReadEntry(keccak, tbs, current, ptrs) ==
      match NextByteStringOrNull(tbs, key) case Ok(v) => Ok((v, ptrs.(userData := v))) case Revert => Revert
    ensures KeyIs(tbs, current, key, Ascii("nonce")) ==>
      ReadEntry(keccak, tbs, current, ptrs) ==
      match NextByteStringOrNull(tbs, key) case Ok(v) => Ok((v, ptrs.(nonce := v))) case Revert => Revert
  {
    hide ElementAt, KeyText, ReadEntry, KeyIs, KeysDistinct;
    KeyTexts();
    if KeyIs(tbs, current, key, Ascii("public_key")) { RoundByName(keccak, tbs, current, key, ptrs, PublicKey); }
    if KeyIs(tbs, current, key, Ascii("user_data")) { RoundByName(keccak, tbs, current, key, ptrs, UserData); }
    if KeyIs(tbs, current, key, Ascii("nonce")) { RoundByName(keccak, tbs, current, key, ptrs, Nonce); }
  }

  /** "timestamp" takes a number, "cabundle" an array of byte strings, and "pcrs" a map of indices to byte strings. */
  lemma StructuredKeys(keccak: Hash, tbs: bytes, current: CborElement, key: CborElement, ptrs: Ptrs)
    requires KeysDistinct(keccak)
    ensures KeyIs(tbs, current, key, Ascii("timestamp")) ==>
      ReadEntry(keccak, tbs, current, ptrs) ==
      match NextPositiveInt(tbs, key) case Ok(v) => Ok((v, ptrs.(timestamp := v.value))) case Revert => Revert
    ensures KeyIs(tbs, current, key, Ascii("cabundle")) ==>
      ReadEntry(keccak, tbs, current, ptrs) ==
      if NextArray(tbs, key).Revert? then Revert
      else match ReadCabundle(tbs, NextArray(tbs, key).value, NextArray(tbs, key).value.value)
           case Ok((last, certs)) => Ok((last, ptrs.(cabundle := certs)))
           case Revert => Revert
    ensures KeyIs(tbs, current, key, Ascii("pcrs")) ==>
      ReadEntry(keccak, tbs, current, ptrs) ==
      if NextMap(tbs, key).Revert? then Revert
      else var n := NextMap(tbs, key).value.value;
           match ReadPcrs(tbs, NextMap(tbs, key).value, n, seq(n, _ => CborElement(0, 0, 0)))
           case Ok((last, registers)) => Ok((last, ptrs.(pcrs := registers)))
           case Revert => Revert
  {
    hide ElementAt, KeyText, ReadEntry, KeyIs, KeysDistinct, ReadCabundle, ReadPcrs;
    KeyTexts();
    if KeyIs(tbs, current, key, Ascii("timestamp")) { RoundByName(keccak, tbs, current, key, ptrs, Timestamp); }
    if KeyIs(tbs, current, key, Ascii("cabundle")) { RoundByName(keccak, tbs, current, key, ptrs, Cabundle); }
    if KeyIs(tbs, current, key, Ascii("pcrs")) { RoundByName(keccak, tbs, current, key, ptrs, Pcrs); }
  }

  /** None of the nine texts hashes like this one. */
  ghost predicate UnknownKey(keccak: Hash, text: bytes) {
    var h := keccak(text);
    && h != keccak(Ascii("module_id")) && h != keccak(Ascii("digest")) && h != keccak(Ascii("certificate"))
    && h != keccak(Ascii("public_key")) && h != keccak(Ascii("user_data")) && h != keccak(Ascii("nonce"))
    && h != keccak(Ascii("timestamp")) && h != keccak(Ascii("cabundle")) && h != keccak(Ascii("pcrs"))
  }

  /** Any other key reverts. */
  lemma OtherKeys(keccak: Hash, tbs: bytes, current: CborElement, key: CborElement, text: bytes, ptrs: Ptrs)
    requires KeyIs(tbs, current, key, text) && UnknownKey(keccak, text)
    ensures ReadEntry(keccak, tbs, current, ptrs).Revert?
  {
    hide ElementAt, KeyText, ReadValue, SliceOf;
    KeyTexts();
  }

  // ---------------------------------------------------------------- types of values

  /** A head of any major type is read by exactly the reader for that type. */
  lemma ReadersByType(cbor: bytes, ptr: CborElement, major: nat, value: nat, w: Width)
    requires major < 7 && w.Fits(value) && At(cbor, ptr.End(), Head(major, value, w))
    ensures NextPositiveInt(cbor, ptr).Ok? <==> major == 0
    ensures NextByteString(cbor, ptr).Ok? <==> major == 2
    ensures NextByteStringOrNull(cbor, ptr).Ok? <==> major == 2
    ensures NextTextString(cbor, ptr).Ok? <==> major == 3
    ensures NextArray(cbor, ptr).Ok? <==> major == 4
    ensures NextMap(cbor, ptr).Ok? <==> major == 5
  {
    hide ToBE, FromBE, Pow256;
    HeadDecodes(cbor, ptr.End(), major, value, w, true);
    AtByte(cbor, ptr.End(), Head(major, value, w), 0);
    FirstOfHead(major, value, w);
  }

  lemma FirstOfHead(major: nat, value: nat, w: Width)
    requires major < 8 && w.Fits(value)
    ensures |Head(major, value, w)| > 0 && Head(major, value, w)[0] / 32 == major
  {
    hide ToBE;
  }

  /** Null and undefined are read by one of them only. */
  lemma ReadersOnNull(cbor: bytes, ptr: CborElement)
    requires At(cbor, ptr.End(), [0xf6]) || At(cbor, ptr.End(), [0xf7])
    ensures NextByteStringOrNull(cbor, ptr).Ok? && NextByteStringOrNull(cbor, ptr).value.IsNull()
    ensures NextPositiveInt(cbor, ptr).Revert? && NextByteString(cbor, ptr).Revert? && NextTextString(cbor, ptr).Revert?
    ensures NextArray(cbor, ptr).Revert? && NextMap(cbor, ptr).Revert?
  {}

  // ---------------------------------------------------------------- documents with their keys as texts

  datatype TextEntry = TextEntry(key: string, keyWidth: Width, value: Value) {
    /** One of the nine keys, with a value of its type. */
    predicate Valid() {
      && IsKey(key) && keyWidth.Fits(|key|)
      && if key == "module_id" || key == "digest" then value.Text? && value.s.Valid()
         else if key == "certificate" then value.Bytes? && value.s.Valid()
         else if key == "timestamp" then value.Uint? && value.w.Fits(value.n)
         else if key == "cabundle" then value.Certs? && value.w.Fits(|value.certs|) && ValidCerts(value.certs)
         else if key == "pcrs" then
           && value.PcrMap? && value.w.Fits(|value.pcrs|) && ValidPcrs(value.pcrs)
           && IndicesFit(value.pcrs, |value.pcrs|)
         else (value.Bytes? && value.s.Valid()) || (value.Null? && (value.b == 0xf6 || value.b == 0xf7))
    }

    function Named(): (e: Entry)
      requires Valid()
      ensures e.Valid() && e.value == value && KeyText(e.name) == Ascii(key) && e.name == NameFor(key)
    {
      KeyTexts();
      Entry(NameFor(key), keyWidth, value)
    }

    function Encode(): bytes
      requires Valid()
    {
      TextString(Str(Ascii(key), keyWidth)) + EncodeValue(Named())
    }
  }

  predicate IsKey(key: string) {
    key == "module_id" || key == "digest" || key == "certificate" || key == "public_key" || key == "user_data"
    || key == "nonce" || key == "timestamp" || key == "cabundle" || key == "pcrs"
  }

  function NameFor(key: string): Name
    requires IsKey(key)
  {
    if key == "module_id" then ModuleId else if key == "digest" then Digest
    else if key == "certificate" then Certificate else if key == "public_key" then PublicKey
    else if key == "user_data" then UserData else if key == "nonce" then Nonce
    else if key == "timestamp" then Timestamp else if key == "cabundle" then Cabundle else Pcrs
  }

  predicate ValidTexts(entries: seq<TextEntry>) {
    forall i {:trigger entries[i]} :: 0 <= i < |entries| ==> entries[i].Valid()
  }

  function EncodeTexts(entries: seq<TextEntry>): bytes
    requires ValidTexts(entries)
  {
    if |entries| == 0 then [] else entries[0].Encode() + EncodeTexts(entries[1..])
  }

  /** The value of the last entry with a key. */
  function LastValue(entries: seq<TextEntry>, key: string): Option<Value> {
    if |entries| == 0 then None
    else
      var later := LastValue(entries[1..], key);
      if later.Some? then later else if entries[0].key == key then Some(entries[0].value) else None
  }

  function NamedAll(entries: seq<TextEntry>): (r: seq<Entry>)
    requires ValidTexts(entries)
    ensures |r| == |entries| && AllValid(r)
  {
    if |entries| == 0 then [] else [entries[0].Named()] + NamedAll(entries[1..])
  }

  lemma {:induction false} TextsEncode(entries: seq<TextEntry>)
    requires ValidTexts(entries)
    ensures EncodeTexts(entries) == EncodeEntries(NamedAll(entries))
    decreases |entries|
  {
    hide EncodeValue, TextString, TextEntry.Valid, Entry.Valid, KeyText;
    if |entries| > 0 {
      TextsEncode(entries[1..]);
      var named := NamedAll(entries);
      assert named[0] == entries[0].Named() && named[1..] == NamedAll(entries[1..]);
    }
  }

  lemma NamesApart(key: string, other: string)
    requires IsKey(key) && IsKey(other)
    ensures NameFor(key) == NameFor(other) <==> key == other
  {}

  lemma {:induction false} TextsLookUp(entries: seq<TextEntry>, key: string)
    requires ValidTexts(entries) && IsKey(key)
    ensures Lookup(NamedAll(entries), NameFor(key)) == LastValue(entries, key)
    decreases |entries|
  {
    hide IsKey, NameFor, KeyText, Entry.Valid;
    if |entries| > 0 {
      TextsLookUp(entries[1..], key);
      var named := NamedAll(entries);
      assert named[0] == entries[0].Named() && named[1..] == NamedAll(entries[1..]);
      NamesApart(entries[0].key, key);
    }
  }

  /** What a field holds of the value given for it: nothing at all if there is none. */
  ghost predicate HoldsString(tbs: bytes, ptr: CborElement, v: Option<Value>) {
    match v
    case None => ptr == CborElement(0, 0, 0)
    case Some(Text(s)) => PointsAt(tbs, ptr, s.content)
    case Some(Bytes(s)) => PointsAt(tbs, ptr, s.content)
    case Some(Null(_)) => ptr.IsNull()
    case _ => false
  }

  predicate HoldsNumber(n: nat, v: Option<Value>) {
    match v case None => n == 0 case Some(Uint(m, _)) => n == m case _ => false
  }

  predicate HoldsBundle(tbs: bytes, ptrs: seq<CborElement>, v: Option<Value>) {
    match v case None => ptrs == [] case Some(Certs(certs, _)) => AreCerts(tbs, ptrs, certs) case _ => false
  }

  predicate HoldsRegisters(tbs: bytes, ptrs: seq<CborElement>, v: Option<Value>) {
    match v
    case None => ptrs == []
    case Some(PcrMap(pcrs, _)) => |ptrs| == |pcrs| && HoldsPcrs(tbs, ptrs, pcrs)
    case _ => false
  }

  ghost predicate HoldsDocument(tbs: bytes, p: Ptrs, entries: seq<TextEntry>) {
    && HoldsString(tbs, p.moduleID, LastValue(entries, "module_id"))
    && HoldsString(tbs, p.digest, LastValue(entries, "digest"))
    && HoldsString(tbs, p.cert, LastValue(entries, "certificate"))
    && HoldsString(tbs, p.publicKey, LastValue(entries, "public_key"))
    && HoldsString(tbs, p.userData, LastValue(entries, "user_data"))
    && HoldsString(tbs, p.nonce, LastValue(entries, "nonce"))
    && HoldsNumber(p.timestamp, LastValue(entries, "timestamp"))
    && HoldsBundle(tbs, p.cabundle, LastValue(entries, "cabundle"))
    && HoldsRegisters(tbs, p.pcrs, LastValue(entries, "pcrs"))
  }

  /**
   A document whose keys are these texts parses, in whatever order and widths, and every field holds just the value that
   comes under its own text, and nothing if there is none.
   */
  lemma {:induction false} TextDocumentParses(keccak: Hash, entries: seq<TextEntry>, count: nat, w: Width, pw: Width)
    requires KeysDistinct(keccak) && ValidTexts(entries) && w.Fits(count)
    requires pw.Fits(|Head(5, count, w) + EncodeTexts(entries)|)
    ensures var tbs := SignedBytes(Str(Head(5, count, w) + EncodeTexts(entries), pw));
      ParseAttestation(keccak, tbs).Ok? && HoldsDocument(tbs, ParseAttestation(keccak, tbs).value, entries)
  {
    hide KeysDistinct, ValidTexts, Head, EncodeTexts, EncodeEntries, ParseAttestation, SignedBytes, Describes,
      HoldsDocument, NamedAll;
    var named := NamedAll(entries);
    TextsEncode(entries);
    DocumentParses(keccak, named, count, w, pw);
    var tbs := SignedBytes(Str(Head(5, count, w) + EncodeTexts(entries), pw));
    DescribedDocument(tbs, ParseAttestation(keccak, tbs).value, entries);
  }

  lemma {:induction false} DescribedDocument(tbs: bytes, p: Ptrs, entries: seq<TextEntry>)
    requires ValidTexts(entries) && Describes(tbs, NO_PTRS, p, NamedAll(entries))
    ensures HoldsDocument(tbs, p, entries)
  {
    hide ValidTexts, Describes, NamedAll, LastValue, HoldsString, HoldsNumber, HoldsBundle, HoldsRegisters;
    DescribedString(tbs, p, entries, "module_id");
    DescribedString(tbs, p, entries, "digest");
    DescribedString(tbs, p, entries, "certificate");
    DescribedString(tbs, p, entries, "public_key");
    DescribedString(tbs, p, entries, "user_data");
    DescribedString(tbs, p, entries, "nonce");
    DescribedOthers(tbs, p, entries);
  }

  lemma {:induction false} LastValueValid(entries: seq<TextEntry>, key: string) returns (e: TextEntry)
    requires ValidTexts(entries) && LastValue(entries, key).Some?
    ensures e.Valid() && e.key == key && e.value == LastValue(entries, key).value
    decreases |entries|
  {
    hide TextEntry.Valid;
    if LastValue(entries[1..], key).Some? {
      e := LastValueValid(entries[1..], key);
    } else {
      e := entries[0];
    }
  }

  predicate IsStringKey(key: string) {
    key == "module_id" || key == "digest" || key == "certificate" || key == "public_key" || key == "user_data"
    || key == "nonce"
  }

  lemma {:induction false} DescribedString(tbs: bytes, p: Ptrs, entries: seq<TextEntry>, key: string)
    requires ValidTexts(entries) && Describes(tbs, NO_PTRS, p, NamedAll(entries)) && IsStringKey(key)
    ensures Get(p, NameFor(key)).Single? && HoldsString(tbs, Get(p, NameFor(key)).ptr, LastValue(entries, key))
  {
    hide ValidTexts, NamedAll, LastValue, PointsAt, Lookup;
    TextsLookUp(entries, key);
    var slot := Get(p, NameFor(key));
    if LastValue(entries, key).Some? { var e := LastValueValid(entries, key); }
  }

  lemma {:induction false} DescribedOthers(tbs: bytes, p: Ptrs, entries: seq<TextEntry>)
    requires ValidTexts(entries) && Describes(tbs, NO_PTRS, p, NamedAll(entries))
    ensures HoldsNumber(p.timestamp, LastValue(entries, "timestamp"))
    ensures HoldsBundle(tbs, p.cabundle, LastValue(entries, "cabundle"))
    ensures HoldsRegisters(tbs, p.pcrs, LastValue(entries, "pcrs"))
  {
    hide ValidTexts, NamedAll, LastValue, AreCerts, HoldsPcrs, Lookup;
    TextsLookUp(entries, "timestamp");
    TextsLookUp(entries, "cabundle");
    TextsLookUp(entries, "pcrs");
    assert Get(p, Timestamp) == Number(p.timestamp);
    assert Get(p, Cabundle) == Many(p.cabundle) && Get(p, Pcrs) == Many(p.pcrs);
    if LastValue(entries, "timestamp").Some? { var e := LastValueValid(entries, "timestamp"); }
    if LastValue(entries, "cabundle").Some? { var e := LastValueValid(entries, "cabundle"); }
    if LastValue(entries, "pcrs").Some? { var e := LastValueValid(entries, "pcrs"); }
  }

  /** An unknown key anywhere in a document makes its parse revert. */
  lemma {:induction false} UnknownKeyReverts(keccak: Hash, entries: seq<TextEntry>, count: nat, w: Width, key: Str,
                                             rest: bytes, pw: Width)
    requires KeysDistinct(keccak) && ValidTexts(entries) && w.Fits(count) && key.Valid()
    requires UnknownKey(keccak, key.content)
    requires pw.Fits(|Head(5, count, w) + EncodeTexts(entries) + (TextString(key) + rest)|)
    ensures var payload := Head(5, count, w) + EncodeTexts(entries) + (TextString(key) + rest);
      ParseAttestation(keccak, SignedBytes(Str(payload, pw))).Revert?
  {
    hide KeysDistinct, ValidTexts, EncodeTexts, EncodeEntries, ParseAttestation, SignedBytes, Describes, NamedAll,
      Head, At, UnknownKey, TextString;
    TextsEncode(entries);
    var last, ptrs := PayloadReads(keccak, NamedAll(entries), count, w, TextString(key) + rest, pw);
    var tbs := SignedBytes(Str(Head(5, count, w) + EncodeTexts(entries) + (TextString(key) + rest), pw));
    AtSplit(tbs, last.End(), TextString(key), rest);
    TextStringReads(tbs, last, key);
    SomeText(key);
    OtherKeys(keccak, tbs, last, NextTextString(tbs, last).value, key.content, ptrs);
  }

  lemma SomeText(key: Str)
    requires key.Valid()
    ensures |TextString(key)| > 0
  {}
}
