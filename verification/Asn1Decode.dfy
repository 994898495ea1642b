/** The DER reader (Asn1Decode.sol): node pointers, navigation, and the primitive values. */
module Asn1Decode {
  import opened Basics
  import opened Bits
  import opened LibBytes
  import opened Calendar

  /** A node: first byte of its header, first byte of its content, content length. */
  datatype Asn1Ptr = Asn1Ptr(header: nat, content: nat, length: nat) {
    /** First byte after the node. */
    function End(): nat { content + length }

    function TotalLength(): nat
      requires header <= content
    {
      length + content - header
    }

    /** The packed form used by the contracts: three 80-bit fields of one 256-bit word. */
    function Packed(): nat { Pack3(header, content, length, 80, 256) }
  }

  /** The long-form length in `n` octets at `ix`, with the checked uint8 shift amount of the general case. */
  function LongFormLength(der: bytes, ix: nat, n: nat): Result<nat> {
    if n == 1 then ByteAt(der, ix)
    else if n == 2 then ReadUint(der, ix, 2)
    else
      :- Require(n <= 32);              // uint8: 32 - n
      :- Require((32 - n) * 8 <= 255);  // uint8: (32 - n) * 8
      var length :- ReadUint(der, ix, n);
      :- Require(length <= TWO_64 - 1);
      Ok(length)
  }

  /** All three branches read the same number: `n` octets, 1 to 32 of them, below 2^64. */
  lemma LongFormLengthIsBigEndian(der: bytes, ix: nat, n: nat)
    ensures LongFormLength(der, ix, n) ==
            if 1 <= n <= 32 && ix + n <= |der| && FromBE(der[ix..ix + n]) < TWO_64
            then Ok(FromBE(der[ix..ix + n])) else Revert
  {
    if n == 1 && ix < |der| {
      FromBEOne(der[ix..ix + 1]);
    } else if n == 2 && ix + 2 <= |der| {
      assert FromBE(der[ix..ix + 2]) < Pow256(2);
    }
  }

  function ReadNodeLength(der: bytes, ix: nat): (r: Result<Asn1Ptr>)
    ensures r.Ok? ==> r.value.header == ix && ix + 2 <= r.value.content <= ix + 34 && ix + 1 < |der|
    ensures r.Ok? ==> r.value.length < TWO_64
  {
    var tag :- ByteAt(der, ix);
    :- Require(tag % 32 != 31);
    var first :- ByteAt(der, ix + 1);
    if first < 128 then
      Ok(Asn1Ptr(ix, ix + 2, first))
    else
      var n := first % 128;
      LongFormLengthIsBigEndian(der, ix + 2, n);
      var length :- LongFormLength(der, ix + 2, n);
      Ok(Asn1Ptr(ix, ix + 2 + n, length))
  }

  /** The three accessors read back what was packed, for every node read from fewer than 2^61 bytes. */
  lemma PackedNodeFields(der: bytes, ix: nat)
    requires ReadNodeLength(der, ix).Ok? && |der| < 0x2000_0000_0000_0000
    ensures var ptr := ReadNodeLength(der, ix).value;
      Field(ptr.Packed(), 0, 80) == ptr.header && Field(ptr.Packed(), 80, 80) == ptr.content
      && Field(ptr.Packed(), 160, 80) == ptr.length
  {
    hide Pow2, Pack3, Field;
    var ptr := ReadNodeLength(der, ix).value;
    PowersOfTwo();
    Pack3Fields(ptr.header, ptr.content, ptr.length, 80, 256);
  }

  function Root(der: bytes): Result<Asn1Ptr> { ReadNodeLength(der, 0) }

  function RootOf(der: bytes, ptr: Asn1Ptr): Result<Asn1Ptr> { ReadNodeLength(der, ptr.content) }

  function NextSiblingOf(der: bytes, ptr: Asn1Ptr): Result<Asn1Ptr> { ReadNodeLength(der, ptr.End()) }

  predicate Constructed(tag: byte) { tag / 32 % 2 == 1 }

  function FirstChildOf(der: bytes, ptr: Asn1Ptr): Result<Asn1Ptr> {
    var tag :- ByteAt(der, ptr.header);
    :- Require(Constructed(tag));
    ReadNodeLength(der, ptr.content)
  }

  lemma ChildInside(der: bytes, ptr: Asn1Ptr)
    ensures FirstChildOf(der, ptr).Ok? ==> FirstChildOf(der, ptr).value.header <= FirstChildOf(der, ptr).value.content
  {}

  /** Skips the unused-bits octet of a BIT STRING, which must be 0. */
  function BitString(der: bytes, ptr: Asn1Ptr): Result<Asn1Ptr> {
    var tag :- ByteAt(der, ptr.header);
    :- Require(tag == 0x03);
    var unused :- ByteAt(der, ptr.content);
    :- Require(unused == 0);
    :- Require(ptr.length >= 1);
    Ok(Asn1Ptr(ptr.header, ptr.content + 1, ptr.length - 1))
  }

  function BitStringUintAt(der: bytes, ptr: Asn1Ptr): Result<nat> {
    var tag :- ByteAt(der, ptr.header);
    :- Require(tag == 0x03);
    :- Require(1 <= ptr.length <= 33);
    ReadUint(der, ptr.content + 1, ptr.length - 1)
  }

  function OctetString(der: bytes, ptr: Asn1Ptr): Result<Asn1Ptr> {
    var tag :- ByteAt(der, ptr.header);
    :- Require(tag == 0x04);
    ReadNodeLength(der, ptr.content)
  }

  /** The checks shared by the INTEGER readers: the tag, and a clear sign bit. */
  function PositiveInteger(der: bytes, ptr: Asn1Ptr): Result<byte> {
    var tag :- ByteAt(der, ptr.header);
    :- Require(tag == 0x02);
    var first :- ByteAt(der, ptr.content);
    :- Require(first < 128);
    Ok(first)
  }

  function UintAt(der: bytes, ptr: Asn1Ptr): Result<nat> {
    var _ :- PositiveInteger(der, ptr);
    :- Require(ptr.length <= 32);
    ReadUint(der, ptr.content, ptr.length)
  }

  datatype Uint384 = Uint384(hi: nat, lo: nat)

  function Uint384At(der: bytes, ptr: Asn1Ptr): Result<Uint384> {
    var first :- PositiveInteger(der, ptr);
    :- Require(first != 0 || ptr.length >= 1);
    var start := if first == 0 then ptr.content + 1 else ptr.content;
    var valueLength := if first == 0 then ptr.length - 1 else ptr.length;
    :- Require(16 <= valueLength <= 48);
    var hi :- ReadUint(der, start, 16);
    var lo :- ReadUint(der, start + 16, valueLength - 16);
    Ok(Uint384(hi, lo))
  }

  // ---------------------------------------------------------------- what the INTEGER readers return

  /** The magnitude octets of an INTEGER node: its content without one leading zero octet. */
  function Magnitude(der: bytes, ptr: Asn1Ptr): bytes
    requires ptr.End() <= |der| && ptr.length >= 1
  {
    if der[ptr.content] == 0 then der[ptr.content + 1..ptr.End()] else der[ptr.content..ptr.End()]
  }

  lemma Uint384AtParts(der: bytes, ptr: Asn1Ptr)
    requires ptr.header < |der| && ptr.End() <= |der| && ptr.length >= 1
    requires der[ptr.header] == 0x02 && der[ptr.content] < 128 && 16 <= |Magnitude(der, ptr)| <= 48
    ensures var m := Magnitude(der, ptr);
            Uint384At(der, ptr) == Ok(Uint384(FromBE(m[..16]), FromBE(m[16..])))
  {
    hide FromBE;
    var m := Magnitude(der, ptr);
    var start := ptr.End() - |m|;
    assert m[..16] == der[start..start + 16];
    assert m[16..] == der[start + 16..start + 16 + (|m| - 16)];
  }

  /** `uint384At` splits a 16..48 octet magnitude after 16 octets, and accepts no other positive INTEGER. */
  lemma Uint384AtSplitsMagnitude(der: bytes, ptr: Asn1Ptr)
    requires ptr.header < |der| && ptr.End() <= |der| && ptr.length >= 1
    ensures var m, r := Magnitude(der, ptr), Uint384At(der, ptr);
      (r.Ok? <==> der[ptr.header] == 0x02 && der[ptr.content] < 128 && 16 <= |m| <= 48) &&
      (r.Ok? ==> r.value.hi < Pow256(16) && r.value.lo < Pow256(|m| - 16) &&
                 r.value.hi * Pow256(|m| - 16) + r.value.lo == FromBE(m))
  {
    var m := Magnitude(der, ptr);
    if Uint384At(der, ptr).Ok? {
      Uint384AtParts(der, ptr);
      FromBEConcat(m[..16], m[16..]);
      assert m == m[..16] + m[16..];
    }
  }

  /** `abi.encodePacked(uint128 hi, uint256 lo)`. */
  function Packed384(v: Uint384): bytes { ToBE(v.hi, 16) + ToBE(v.lo, 32) }

  lemma PackedValue(v: Uint384)
    requires v.hi < Pow256(16) && v.lo < Pow256(32)
    ensures FromBE(Packed384(v)) == v.hi * Pow256(32) + v.lo
  {
    FromToBE(v.hi, 16);
    FromToBE(v.lo, 32);
    FromBEConcat(ToBE(v.hi, 16), ToBE(v.lo, 32));
  }

  lemma LessTimes(k: nat, a: nat, b: nat, lo: nat)
    requires a <= b
    ensures k * a + lo == k * b + lo <==> a == b || k == 0
  {
    assert k * (b - a) == k * b - k * a;
  }

  lemma SplitTooLate(n: nat)
    requires 16 <= n <= 48
    ensures Pow256(n - 16) <= Pow256(32)
    ensures Pow256(n - 16) == Pow256(32) <==> n == 48
  {
    Pow256Monotone(n - 16, 32);
    if n < 48 {
      Pow256Monotone(n - 15, 32);
    }
  }

  lemma {:induction false} ZeroExactly(s: bytes)
    ensures FromBE(s) == 0 <==> forall k {:trigger s[k]} :: 0 <= k < |s| ==> s[k] == 0
    decreases |s|
  {
    if |s| == 0 {
    } else {
      var front := s[..|s| - 1];
      ZeroExactly(front);
      assert forall k {:trigger front[k]} :: 0 <= k < |front| ==> front[k] == s[k];
      assert forall k {:trigger s[k]} :: 0 <= k < |front| ==> front[k] == s[k];
    }
  }

  /**
   The 48 packed octets of a signature half denote the INTEGER itself exactly when its magnitude
   has all 48 octets, or its leading 16 octets are zero: a shorter magnitude is split too late.
   */
  lemma Packed384IsExact(der: bytes, ptr: Asn1Ptr)
    requires ptr.header < |der| && ptr.End() <= |der| && ptr.length >= 1
    requires Uint384At(der, ptr).Ok?
    ensures var m, v := Magnitude(der, ptr), Uint384At(der, ptr).value;
            16 <= |m| && (FromBE(Packed384(v)) == FromBE(m) <==>
              |m| == 48 || forall k {:trigger m[k]} :: 0 <= k < 16 ==> m[k] == 0)
  {
    hide FromBE, Pow256, Packed384, Uint384At;
    var m, v := Magnitude(der, ptr), Uint384At(der, ptr).value;
    Uint384AtSplitsMagnitude(der, ptr);
    Uint384AtParts(der, ptr);
    PackedIsExact(v, |m|);
    var high := m[..16];
    ZeroExactly(high);
    assert forall k {:trigger m[k]} :: 0 <= k < 16 ==> high[k] == m[k];
    assert forall k {:trigger high[k]} :: 0 <= k < 16 ==> high[k] == m[k];
  }

  /** An INTEGER of 47 magnitude octets, such as about one signature half in 256 has, is passed on as another number. */
  lemma ShortMagnitudeMispacked(der: bytes)
    requires der == [0x02, 47, 1] + Zeros(46)
    ensures Uint384At(der, Asn1Ptr(0, 2, 47)).Ok?
    ensures FromBE(Packed384(Uint384At(der, Asn1Ptr(0, 2, 47)).value)) != FromBE(Magnitude(der, Asn1Ptr(0, 2, 47)))
  {
    hide FromBE, Pow256, Packed384, Uint384At;
    var ptr := Asn1Ptr(0, 2, 47);
    assert |Magnitude(der, ptr)| == 47 && Magnitude(der, ptr)[0] == 1;
    Uint384AtSplitsMagnitude(der, ptr);
    Packed384IsExact(der, ptr);
  }

  lemma PackedIsExact(v: Uint384, n: nat)
    requires 16 <= n <= 48 && v.hi < Pow256(16) && v.lo < Pow256(n - 16)
    ensures FromBE(Packed384(v)) == v.hi * Pow256(n - 16) + v.lo <==> n == 48 || v.hi == 0
  {
    hide FromBE, Pow256, Packed384;
    SplitTooLate(n);
    PackedValue(v);
    LessTimes(v.hi, Pow256(n - 16), Pow256(32), v.lo);
  }

  // ---------------------------------------------------------------- timestamps

  predicate Digit(c: byte) { 48 <= c <= 57 }

  /** Two decimal digits at `i`. */
  function TwoDigits(der: bytes, i: nat): nat
    requires i + 1 < |der| && Digit(der[i]) && Digit(der[i + 1])
  {
    (der[i] - 48) * 10 + der[i + 1] - 48
  }

  /** The century of a GeneralizedTime; the second product is a checked uint8. */
  function Century(der: bytes, i: nat): Result<nat>
    requires i + 1 < |der| && Digit(der[i]) && Digit(der[i + 1])
  {
    var thousands: nat, hundreds: nat := der[i] - 48, der[i + 1] - 48;
    :- Require(hundreds * 100 <= 255);
    Ok(thousands * 1000 + hundreds * 100)
  }

  predicate AllDigits(der: bytes, from: nat, to: nat)
    requires from <= to <= |der|
  {
    forall i :: from <= i < to ==> Digit(der[i])
  }

  function TimestampAt(der: bytes, ptr: Asn1Ptr): Result<nat> {
    var tag :- ByteAt(der, ptr.header);
    var offset, length := ptr.content, ptr.length;
    :- Require((tag == 0x17 && length == 13) || (tag == 0x18 && length == 15));
    var last :- ByteAt(der, offset + length - 1);
    :- Require(last == 0x5A);
    :- Require(AllDigits(der, offset, offset + length - 1));
    DigitsToTimestamp(der, offset, length)
  }

  function DigitsToTimestamp(der: bytes, offset: nat, length: nat): Result<nat>
    requires (length == 13 || length == 15) && offset + length <= |der|
    requires AllDigits(der, offset, offset + length - 1)
  {
    var century :- if length == 13 then Ok(if der[offset] - 48 < 5 then 2000 else 1900)
                   else Century(der, offset);
    var o := if length == 13 then offset else offset + 2;
    TimestampFromDigits(der, o, century)
  }

  /** Twelve digits from `o` on: year within the century, month, day, hour, minute, second. */
  function TimestampFromDigits(der: bytes, o: nat, century: nat): Result<nat>
    requires o + 12 <= |der| && AllDigits(der, o, o + 12)
  {
    TimestampFromDateTime(century + TwoDigits(der, o), TwoDigits(der, o + 2), TwoDigits(der, o + 4),
                          TwoDigits(der, o + 6), TwoDigits(der, o + 8), TwoDigits(der, o + 10))
  }

  /** `timestampAt` with its digit loop and its running `offset` and `_years`. */
  method ReadTimestamp(der: bytes, ptr: Asn1Ptr) returns (r: Result<nat>)
    ensures r == TimestampAt(der, ptr)
  {
    var tag :- ByteAt(der, ptr.header);
    var offset, length := ptr.content, ptr.length;
    :- Require((tag == 0x17 && length == 13) || (tag == 0x18 && length == 15));
    var last :- ByteAt(der, offset + length - 1);
    :- Require(last == 0x5A);
    var i := 0;
    while i < length - 1
      invariant 0 <= i <= length - 1
      invariant AllDigits(der, offset, offset + i)
    {
      if !Digit(der[offset + i]) {
        return Revert;
      }
      i := i + 1;
    }
    var years;
    if length == 13 {
      years := if der[offset] - 48 < 5 then 2000 else 1900;
    } else {
      years :- Century(der, offset);
      offset := offset + 2;
    }
    r := TimestampFromDigits(der, offset, years);
  }
}
