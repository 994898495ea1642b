/** CBOR element heads (CborDecode.sol) and their encoding (section 3 of RFC 8949). */
module CborDecode {
  import opened Basics
  import opened Bits
  import opened LibBytes

  /** A decoded head: type byte, first byte of the content, and the value (a length for strings). */
  datatype CborElement = CborElement(cborType: nat, start: nat, value: nat) {
    predicate IsString() { cborType == 0x40 || cborType == 0x60 }

    /** Content length, 0 for anything but strings. */
    function Length(): nat { if IsString() then value else 0 }

    /** First byte of the next element. */
    function End(): nat { start + Length() }

    predicate IsNull() { cborType == 0xf6 || cborType == 0xf7 }

    /** The packed form used by the contracts. */
    function Packed(): nat { Pack3(cborType, start, value, 80, 256) }
  }

  /** The zero word that fills unset pointers. */
  const UNSET := CborElement(0, 0, 0)

  /** The accessors (uint8, uint80 and uint64 casts) read back what was packed. */
  lemma PackedElementFields(e: CborElement)
    requires e.cborType < 256 && e.start < Pow2(80) && e.value < TWO_64
    ensures e.Packed() % 256 == e.cborType
    ensures Field(e.Packed(), 80, 80) == e.start
    ensures Field(e.Packed(), 160, 64) == e.value
    ensures e.Packed() == 0 <==> e == UNSET
  {
    hide Pow2, Pack3;
    PowersOfTwo();
    Pack3Fields(e.cborType, e.start, e.value, 80, 256);
    Pack3IsSum(e.cborType, e.start, e.value, 80, 256);
    NarrowFields(e.cborType, e.start, e.value, e.Packed());
  }

  lemma LowByte(t: nat, a: nat, q: nat, p: nat)
    requires t < 256 && p == 256 * q
    ensures (t + a * p) % 256 == t
  {
    assert a * p == (a * q) * 256;
    SplitNumber(a * q, t, 256);
  }

  /** The narrower casts see the same numbers as the 80-bit fields. */
  lemma NarrowFields(t: nat, start: nat, value: nat, word: nat)
    requires t < 256 && start < 65536 * TWO_64 && value < TWO_64
    requires Pow2(80) == 65536 * TWO_64 && Pow2(160) == Pow2(80) * Pow2(80) && Pow2(64) == TWO_64
    requires word == (t + start * Pow2(80)) + value * Pow2(160)
    ensures word % 256 == t && word / Pow2(160) % Pow2(64) == value
    ensures word == 0 <==> t == 0 && start == 0 && value == 0
  {
    hide Pow2;
    var p := Pow2(80);
    assert word == t + (start + value * p) * p by {
      assert value * (p * p) == (value * p) * p;
    }
    LowByte(t, start + value * p, 256 * TWO_64, p);
    TwoDigits(t, start, p);
    SplitNumber(value, t + start * p, p * p);
    ModSmall(value, Pow2(64));
  }

  // ---------------------------------------------------------------- decoding

  function ElementAt(cbor: bytes, ix: nat, expectedType: nat, required: bool): (r: Result<CborElement>)
    ensures r.Ok? ==> ix < |cbor| && r.value.start > ix && r.value.value < TWO_64
    ensures r.Ok? ==> (if r.value.IsNull() then !required else r.value.cborType == expectedType)
  {
    var initial :- ByteAt(cbor, ix);
    var majorType, ai: nat := initial / 32 * 32, initial % 32;
    if majorType == 0xe0 then
      :- Require(ai == 22 || ai == 23);
      :- Require(!required);
      Ok(CborElement(majorType + ai, ix + 1, 0))
    else
      :- Require(majorType == expectedType);
      :- Require(ai < 28);
      if ai < 24 then Ok(CborElement(majorType, ix + 1, ai))
      else
        var width := ArgumentBytes(ai);
        var value :- ReadUint(cbor, ix + 1, width);
        Pow256Monotone(width, 8);
        assert Pow256(8) == TWO_64;
        Ok(CborElement(majorType, ix + 1 + width, value))
  }

  /** The argument follows in 1, 2, 4 or 8 bytes. */
  function ArgumentBytes(ai: nat): nat {
    if ai == 24 then 1 else if ai == 25 then 2 else if ai == 26 then 4 else 8
  }

  function ByteStringAt(cbor: bytes, ix: nat): Result<CborElement> { ElementAt(cbor, ix, 0x40, true) }

  function MapAt(cbor: bytes, ix: nat): Result<CborElement> { ElementAt(cbor, ix, 0xa0, true) }

  function NextByteString(cbor: bytes, ptr: CborElement): Result<CborElement> { ElementAt(cbor, ptr.End(), 0x40, true) }

  function NextByteStringOrNull(cbor: bytes, ptr: CborElement): Result<CborElement> {
    ElementAt(cbor, ptr.End(), 0x40, false)
  }

  function NextTextString(cbor: bytes, ptr: CborElement): Result<CborElement> { ElementAt(cbor, ptr.End(), 0x60, true) }

  function NextPositiveInt(cbor: bytes, ptr: CborElement): Result<CborElement> {
    ElementAt(cbor, ptr.End(), 0x00, true)
  }

  function NextMap(cbor: bytes, ptr: CborElement): Result<CborElement> { MapAt(cbor, ptr.End()) }

  function NextArray(cbor: bytes, ptr: CborElement): Result<CborElement> { ElementAt(cbor, ptr.End(), 0x80, true) }

  function SliceOf(cbor: bytes, ptr: CborElement): Result<bytes> { Slice(cbor, ptr.start, ptr.Length()) }

  // ---------------------------------------------------------------- encoding

  /** How an argument is written: in the initial byte, or in 1, 2, 4 or 8 further bytes (not necessarily the fewest). */
  datatype Width = Inline | One | Two | Four | Eight {
    function Bytes(): nat {
      match this case Inline => 0 case One => 1 case Two => 2 case Four => 4 case Eight => 8
    }

    function AdditionalInfo(): nat {
      match this case Inline => 0 case One => 24 case Two => 25 case Four => 26 case Eight => 27
    }

    predicate Fits(value: nat) {
      match this case Inline => value < 24 case _ => value < Pow256(Bytes())
    }
  }

  /** The head of major type `major` with argument `value`. */
  function Head(major: nat, value: nat, w: Width): bytes
    requires major < 8 && w.Fits(value)
  {
    match w
    case Inline => [major * 32 + value]
    case _ => [major * 32 + w.AdditionalInfo()] + ToBE(value, w.Bytes())
  }

  /** Every head of a type other than 7 decodes to its type, value and next index. */
  lemma HeadDecodes(cbor: bytes, ix: nat, major: nat, value: nat, w: Width, required: bool)
    requires major < 7 && w.Fits(value) && At(cbor, ix, Head(major, value, w))
    ensures ElementAt(cbor, ix, major * 32, required) == Ok(CborElement(major * 32, ix + 1 + w.Bytes(), value))
    ensures |Head(major, value, w)| == 1 + w.Bytes()
  {
    hide ToBE, FromBE, Pow256;
    AtByte(cbor, ix, Head(major, value, w), 0);
    if w != Inline {
      AtSplit(cbor, ix, [major * 32 + w.AdditionalInfo()], ToBE(value, w.Bytes()));
      FromToBE(value, w.Bytes());
    }
  }

  /** null (0xf6) and undefined (0xf7) decode as null wherever null is allowed. */
  lemma NullDecodes(cbor: bytes, ix: nat, b: byte, expectedType: nat)
    requires (b == 0xf6 || b == 0xf7) && At(cbor, ix, [b])
    ensures ElementAt(cbor, ix, expectedType, false) == Ok(CborElement(b, ix + 1, 0))
  {
    AtByte(cbor, ix, [b], 0);
  }

  /** Conversely, a decoded non-null element is the head of its type and value in some permitted width. */
  lemma DecodedElementIsHead(cbor: bytes, ix: nat, major: nat, required: bool) returns (w: Width)
    requires major < 7 && ElementAt(cbor, ix, major * 32, required).Ok?
    requires !ElementAt(cbor, ix, major * 32, required).value.IsNull()
    ensures var e := ElementAt(cbor, ix, major * 32, required).value;
      && w.Fits(e.value) && e == CborElement(major * 32, ix + 1 + w.Bytes(), e.value)
      && At(cbor, ix, Head(major, e.value, w))
  {
    hide ToBE, FromBE, Pow256;
    var ai, value := cbor[ix] % 32, ElementAt(cbor, ix, major * 32, required).value.value;
    w := if ai < 24 then Inline else if ai == 24 then One
         else if ai == 25 then Two else if ai == 26 then Four else Eight;
    if ai < 24 {
      assert cbor[ix..ix + 1] == [cbor[ix]];
    } else {
      var argument := cbor[ix + 1..ix + 1 + w.Bytes()];
      ToFromBE(argument);
      assert At(cbor, ix, [cbor[ix]]);
      AtSplit(cbor, ix, [cbor[ix]], argument);
    }
  }

  /** Every successful step moves strictly forward, so every loop over elements ends. */
  lemma NextAdvances(cbor: bytes, ptr: CborElement, expectedType: nat, required: bool)
    ensures var r := ElementAt(cbor, ptr.End(), expectedType, required);
      r.Ok? ==> ptr.End() < |cbor| && ptr.End() < r.value.start <= r.value.End()
  {}
}
