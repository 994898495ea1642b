/**
 The extension loop against the extensions it reads (sections 4.2, 4.2.1.3 and 4.2.1.9 of RFC 5280):
 what its success means on arbitrary bytes, and what it returns on encoded extensions.
 */
module Extensions {
  import opened Basics
  import opened LibBytes
  import opened Asn1Decode
  import opened Der
  import opened CertParser

  // ---------------------------------------------------------------- arbitrary bytes: exact tiling

  /** The nodes follow each other without gaps from `start` to `end`. */
  ghost predicate Tiles(cert: bytes, nodes: seq<Asn1Ptr>, start: nat, end: nat)
    decreases |nodes|
  {
    && |nodes| > 0
    && ReadNodeLength(cert, start) == Ok(nodes[0])
    && if |nodes| == 1 then nodes[0].End() == end
       else nodes[0].End() != end && Tiles(cert, nodes[1..], nodes[0].End(), end)
  }

  /** The loop body over each of several nodes in turn. */
  function OverNodes(keccak: Hash, cert: bytes, nodes: seq<Asn1Ptr>, ca: bool, found: Found): Result<Found>
    decreases |nodes|
  {
    if |nodes| == 0 then Ok(found)
    else
      var found' :- VerifyExtension(keccak, cert, nodes[0], ca, found);
      OverNodes(keccak, cert, nodes[1..], ca, found')
  }

  /** The loop returns only if extension nodes tile the list exactly, and then it has run its body over each of them. */
  lemma {:induction false} LoopTiles(keccak: Hash, cert: bytes, ptr: Asn1Ptr, end: nat, ca: bool, found: Found)
    returns (nodes: seq<Asn1Ptr>)
    requires ReadNodeLength(cert, ptr.header) == Ok(ptr)
    requires ExtensionLoop(keccak, cert, ptr, end, ca, found).Ok?
    ensures Tiles(cert, nodes, ptr.header, end)
    ensures ExtensionLoop(keccak, cert, ptr, end, ca, found) == OverNodes(keccak, cert, nodes, ca, found)
    decreases |cert| - ptr.header
  {
    if ptr.End() == end {
      nodes := [ptr];
    } else {
      var found' := VerifyExtension(keccak, cert, ptr, ca, found).value;
      var rest := LoopTiles(keccak, cert, NextSiblingOf(cert, ptr).value, end, ca, found');
      nodes := [ptr] + rest;
      assert nodes[1..] == rest;
    }
  }

  /** Conversely, over a tiled list the loop succeeds exactly when its body does on every node. */
  lemma {:induction false} LoopOverTiles(keccak: Hash, cert: bytes, nodes: seq<Asn1Ptr>, start: nat, end: nat, ca: bool,
                                         found: Found)
    requires Tiles(cert, nodes, start, end)
    ensures ExtensionLoop(keccak, cert, nodes[0], end, ca, found) == OverNodes(keccak, cert, nodes, ca, found)
    decreases |nodes|
  {
    var found' := VerifyExtension(keccak, cert, nodes[0], ca, found);
    if |nodes| > 1 && found'.Ok? {
      LoopOverTiles(keccak, cert, nodes[1..], nodes[0].End(), end, ca, found'.value);
    } else if found'.Ok? {
      assert OverNodes(keccak, cert, nodes[1..], ca, found'.value) == found';
    }
  }

  // ---------------------------------------------------------------- encoded extensions

  datatype BasicConstraintsValue = BasicConstraintsValue(form: LengthForm, cA: Option<(LengthForm, byte)>,
                                                         pathLen: Option<(LengthForm, bytes)>) {
    function CaTlv(): seq<Tlv> {
      if cA.Some? then [Primitive(0x01, cA.value.0, [cA.value.1])] else []
    }

    function PathLenTlv(): seq<Tlv> {
      if pathLen.Some? then [Primitive(0x02, pathLen.value.0, pathLen.value.1)] else []
    }

    function ToTlv(): Tlv { Tlv.Sequence(0x30, form, CaTlv() + PathLenTlv()) }

    predicate IsCA() { cA.Some? && cA.value.1 == 0xff }

    /** The path length as stored: -1 if absent, and what is left of it in an int64. */
    function StoredPathLen(): int {
      if pathLen.Some? then Int64OfUint(FromBE(pathLen.value.1)) else -1
    }

    /** A path length that `uintAt` reads: a non-negative INTEGER of up to 32 octets (none at all reads as 0). */
    predicate PathLenReadable() {
      pathLen.Some? ==> |pathLen.value.1| <= 32 && (|pathLen.value.1| > 0 ==> pathLen.value.1[0] < 128)
    }

    /** Accepted for the role, with a readable path length. */
    predicate Suits(ca: bool) { IsCA() == ca && PathLenReadable() }
  }

  datatype Meaning =
    | Basic(bc: BasicConstraintsValue)
    | Usage(form: LengthForm, unused: byte, bits: bytes)
    | Unrecognized

  datatype Extension = Extension(form: LengthForm, oidForm: LengthForm, oid: bytes,
                                 critical: Option<(LengthForm, byte)>,
                                 octetsForm: LengthForm, octets: bytes, meaning: Meaning) {
    function OidTlv(): Tlv { Primitive(0x06, oidForm, oid) }

    function OctetsTlv(): Tlv { Primitive(0x04, octetsForm, octets) }

    function CriticalTlv(): Tlv
      requires critical.Some?
    {
      Primitive(0x01, critical.value.0, [critical.value.1])
    }

    function Rest(): seq<Tlv> {
      if critical.Some? then [CriticalTlv(), OctetsTlv()] else [OctetsTlv()]
    }

    function ToTlv(): Tlv { Tlv.Sequence(0x30, form, [OidTlv()] + Rest()) }

    /**
     The encoding is valid, and the octets hold what the OID calls for. Hash collisions matter only
     between the OIDs at hand: an unrecognized OID must not hash like a recognized one.
     */
    ghost predicate WellFormed(keccak: Hash) {
      && Valid(ToTlv())
      && match meaning
         case Basic(bc) =>
           oid == BASIC_CONSTRAINTS && Valid(bc.ToTlv()) && octets == Encode(bc.ToTlv())
         case Usage(form, unused, bits) =>
           && oid == KEY_USAGE
           && Valid(Primitive(0x03, form, [unused] + bits)) && octets == Encode(Primitive(0x03, form, [unused] + bits))
         case Unrecognized =>
           keccak(oid) != keccak(BASIC_CONSTRAINTS) && keccak(oid) != keccak(KEY_USAGE)
    }
  }

  /** What stands right after a value: some readable node with the SEQUENCE tag. */
  ghost predicate SequenceFollows(cert: bytes, at: nat) {
    ReadNodeLength(cert, at).Ok? && cert[at] == 0x30
  }

  /** The nodes that a nested encoding starts with. */
  lemma {:induction false} FirstOfTwo(cert: bytes, ix: nat, t: Tlv, a: Tlv, rest: seq<Tlv>)
    requires Valid(t) && t.Sequence? && t.children == [a] + rest && At(cert, ix, Encode(t))
    ensures Valid(a) && ValidAll(rest)
    ensures ReadNodeLength(cert, ix) == Ok(NodeOf(ix, t))
    ensures var at := NodeOf(ix, t).content;
      && FirstChildOf(cert, NodeOf(ix, t)) == Ok(NodeOf(at, a)) && cert[at] == a.tag
      && At(cert, NodeOf(at, a).content, Contents(a))
      && At(cert, NodeOf(at, a).End(), EncodeAll(rest))
      && NodeOf(at, a).End() + |EncodeAll(rest)| == ix + |Encode(t)|
  {
    hide HeaderOctets, LengthOctets, ReadNodeLength;
    ElementDecodes(cert, ix, t);
    OnlyOne(cert, NodeOf(ix, t).content, a, rest);
  }

  lemma {:induction false} OnlyOne(cert: bytes, ix: nat, a: Tlv, rest: seq<Tlv>)
    requires ValidAll([a] + rest) && At(cert, ix, EncodeAll([a] + rest))
    ensures Valid(a) && ValidAll(rest)
    ensures ReadNodeLength(cert, ix) == Ok(NodeOf(ix, a)) && cert[ix] == a.tag
    ensures At(cert, NodeOf(ix, a).content, Contents(a))
    ensures At(cert, NodeOf(ix, a).End(), EncodeAll(rest))
    ensures NodeOf(ix, a).End() + |EncodeAll(rest)| == ix + |EncodeAll([a] + rest)|
  {
    hide HeaderOctets, LengthOctets, ReadNodeLength;
    EncodeAllFirst(a, rest);
    AtSplit(cert, ix, Encode(a), EncodeAll(rest));
    ElementDecodes(cert, ix, a);
  }

  // ---------------------------------------------------------------- basicConstraints

  lemma {:induction false} ReadUintAt(cert: bytes, i: nat, s: bytes, n: nat)
    requires At(cert, i, s) && n == |s|
    ensures ReadUint(cert, i, n) == Ok(FromBE(s))
  {}

  lemma {:induction false} UintDecodes(cert: bytes, ptr: Asn1Ptr, contents: bytes)
    requires ptr.header < |cert| && cert[ptr.header] == 0x02 && ptr.length == |contents|
    requires At(cert, ptr.content, contents) && 1 <= |contents| <= 32 && contents[0] < 128
    ensures UintAt(cert, ptr) == Ok(FromBE(contents))
  {
    AtByte(cert, ptr.content, contents, 0);
    ReadUintAt(cert, ptr.content, contents, ptr.length);
  }

  /** An INTEGER without contents reads as 0 if the byte after it has a clear sign bit. */
  lemma {:induction false} EmptyUintDecodes(cert: bytes, ptr: Asn1Ptr)
    requires ptr.header < |cert| && cert[ptr.header] == 0x02 && ptr.length == 0
    requires ptr.content < |cert| && cert[ptr.content] == 0x30
    ensures UintAt(cert, ptr) == Ok(FromBE([]))
  {
    assert cert[ptr.content..ptr.content] == [];
  }

  lemma {:induction false} NotUint(cert: bytes, ptr: Asn1Ptr, contents: bytes)
    requires ptr.header < |cert| && ptr.length == |contents| > 0 && At(cert, ptr.content, contents)
    requires |contents| > 32 || contents[0] >= 128
    ensures UintAt(cert, ptr).Revert?
  {
    AtByte(cert, ptr.content, contents, 0);
  }

  /** The INTEGER of a path length, followed by a SEQUENCE. */
  lemma {:induction false} PathLenReads(cert: bytes, ptr: Asn1Ptr, bc: BasicConstraintsValue)
    requires bc.pathLen.Some? && ptr.header < |cert| && cert[ptr.header] == 0x02
    requires ptr.length == |bc.pathLen.value.1| && At(cert, ptr.content, bc.pathLen.value.1)
    requires ptr.End() < |cert| && cert[ptr.End()] == 0x30
    ensures ReadPathLen(cert, ptr) == if bc.PathLenReadable() then Ok(bc.StoredPathLen()) else Revert
  {
    hide UintAt, FromBE;
    var contents := bc.pathLen.value.1;
    if |contents| == 0 {
      EmptyUintDecodes(cert, ptr);
      assert contents == [];
    } else if |contents| > 32 || contents[0] >= 128 {
      NotUint(cert, ptr, contents);
    } else {
      UintDecodes(cert, ptr, contents);
    }
  }

  /** After the cA flag comes the path length, or whatever follows the value; both are told apart by the tag. */
  lemma {:induction false} PathLenDecodes(cert: bytes, at: nat, bc: BasicConstraintsValue, end: nat)
    requires ValidAll(bc.PathLenTlv())
    requires At(cert, at, EncodeAll(bc.PathLenTlv())) && end == at + |EncodeAll(bc.PathLenTlv())|
    requires SequenceFollows(cert, end)
    ensures ReadNodeLength(cert, at).Ok? && cert[at] != 0x01
    ensures ReadPathLen(cert, ReadNodeLength(cert, at).value)
      == if bc.PathLenReadable() then Ok(bc.StoredPathLen()) else Revert
  {
    hide UintAt, FromBE;
    if bc.pathLen.Some? {
      var node := Primitive(0x02, bc.pathLen.value.0, bc.pathLen.value.1);
      assert bc.PathLenTlv() == [node] + [];
      OnlyOne(cert, at, node, []);
      EncodeNone();
      PathLenReads(cert, NodeOf(at, node), bc);
    }
  }

  lemma EncodeNone()
    ensures ValidAll([]) && EncodeAll([]) == []
  {}

  lemma {:induction false} FlagDecodes(cert: bytes, ptr: Asn1Ptr, flagPtr: Asn1Ptr, flag: byte, read: Result<int>,
                                       ca: bool)
    requires FirstChildOf(cert, ptr) == Ok(flagPtr) && flagPtr.header < |cert| && cert[flagPtr.header] == 0x01
    requires flagPtr.length == 1 && At(cert, flagPtr.content, [flag])
    requires ReadNodeLength(cert, flagPtr.End()).Ok?
    requires ReadPathLen(cert, ReadNodeLength(cert, flagPtr.End()).value) == read
    ensures VerifyBasicConstraints(cert, ptr, ca) == if (flag == 0xff) == ca then read else Revert
  {
    AtByte(cert, flagPtr.content, [flag], 0);
  }

  /** The path length part is encoded right after the flag, and the SEQUENCE after the value follows it. */
  lemma {:induction false} FlagStands(cert: bytes, at: nat, bc: BasicConstraintsValue, flag: Tlv, end: nat)
    requires Valid(bc.ToTlv()) && At(cert, at, Encode(bc.ToTlv())) && end == at + |Encode(bc.ToTlv())|
    requires bc.cA.Some? && flag == Primitive(0x01, bc.cA.value.0, [bc.cA.value.1])
    ensures Valid(flag) && ValidAll(bc.PathLenTlv())
    ensures var flagPtr := NodeOf(NodeOf(at, bc.ToTlv()).content, flag);
      && FirstChildOf(cert, NodeOf(at, bc.ToTlv())) == Ok(flagPtr) && flagPtr.header < |cert|
      && cert[flagPtr.header] == 0x01 && flagPtr.length == 1 && At(cert, flagPtr.content, [bc.cA.value.1])
      && At(cert, flagPtr.End(), EncodeAll(bc.PathLenTlv()))
      && flagPtr.End() + |EncodeAll(bc.PathLenTlv())| == end
  {
    FirstOfTwo(cert, at, bc.ToTlv(), flag, bc.PathLenTlv());
  }

  lemma {:induction false} NoFlagStands(cert: bytes, at: nat, bc: BasicConstraintsValue, end: nat)
    requires Valid(bc.ToTlv()) && At(cert, at, Encode(bc.ToTlv())) && end == at + |Encode(bc.ToTlv())|
    requires bc.cA.None?
    ensures ValidAll(bc.PathLenTlv())
    ensures var ptr := NodeOf(at, bc.ToTlv());
      && FirstChildOf(cert, ptr) == ReadNodeLength(cert, ptr.content)
      && At(cert, ptr.content, EncodeAll(bc.PathLenTlv()))
      && ptr.content + |EncodeAll(bc.PathLenTlv())| == end
  {
    assert bc.ToTlv().children == bc.PathLenTlv();
    ElementDecodes(cert, at, bc.ToTlv());
  }

  /**
   A basicConstraints value is accepted for the role it states, with its path length, wherever a SEQUENCE follows it.
   */
  lemma {:induction false} BasicConstraintsDecodes(cert: bytes, at: nat, bc: BasicConstraintsValue, end: nat, ca: bool)
    requires Valid(bc.ToTlv()) && At(cert, at, Encode(bc.ToTlv())) && end == at + |Encode(bc.ToTlv())|
    requires SequenceFollows(cert, end)
    ensures VerifyBasicConstraints(cert, NodeOf(at, bc.ToTlv()), ca)
         == if bc.Suits(ca) then Ok(bc.StoredPathLen()) else Revert
  {
    var ptr := NodeOf(at, bc.ToTlv());
    if bc.cA.Some? {
      var flag := Primitive(0x01, bc.cA.value.0, [bc.cA.value.1]);
      FlagStands(cert, at, bc, flag, end);
      var flagPtr := NodeOf(ptr.content, flag);
      PathLenDecodes(cert, flagPtr.End(), bc, end);
      FlagDecodes(cert, ptr, flagPtr, bc.cA.value.1, if bc.PathLenReadable() then Ok(bc.StoredPathLen()) else Revert,
                  ca);
    } else {
      NoFlagStands(cert, at, bc, end);
      PathLenDecodes(cert, ptr.content, bc, end);
    }
  }

  /** An accepted path length is kept as it is stated if and only if that is below 2^63. */
  lemma {:induction false} PathLenKept(cert: bytes, at: nat, bc: BasicConstraintsValue, end: nat, ca: bool)
    requires Valid(bc.ToTlv()) && At(cert, at, Encode(bc.ToTlv())) && end == at + |Encode(bc.ToTlv())|
    requires SequenceFollows(cert, end) && bc.Suits(ca) && bc.pathLen.Some?
    ensures var stated := FromBE(bc.pathLen.value.1);
      VerifyBasicConstraints(cert, NodeOf(at, bc.ToTlv()), ca) == Ok(stated) <==> stated < TWO_63
  {
    hide VerifyBasicConstraints, Encode, Valid, SequenceFollows, FromBE;
    BasicConstraintsDecodes(cert, at, bc, end, ca);
    Int64OfUintExact(FromBE(bc.pathLen.value.1));
  }

  /** A CA with the path length 2^63, 30 0e 01 01 ff 02 09 00 80 00 00 00 00 00 00 00: it is kept as -2^63. */
  lemma {:induction false} WidePathLenWraps(cert: bytes, at: nat)
    requires At(cert, at, [0x30, 0x0e, 0x01, 0x01, 0xff, 0x02, 0x09, 0x00, 0x80] + Zeros(7))
    requires SequenceFollows(cert, at + 16)
    ensures ReadNodeLength(cert, at).Ok?
    ensures VerifyBasicConstraints(cert, ReadNodeLength(cert, at).value, true) == Ok(-TWO_63)
  {
    hide VerifyBasicConstraints, SequenceFollows, ReadNodeLength, FromBE, At;
    var bc := BasicConstraintsValue(Short, Some((Short, 0xff)), Some((Short, [0x00, 0x80] + Zeros(7))));
    WideEncodes(bc);
    WideNumber();
    ElementDecodes(cert, at, bc.ToTlv());
    BasicConstraintsDecodes(cert, at, bc, at + 16, true);
    Int64OfUintExact(TWO_63);
  }

  lemma {:induction false} WideEncodes(bc: BasicConstraintsValue)
    requires bc == BasicConstraintsValue(Short, Some((Short, 0xff)), Some((Short, [0x00, 0x80] + Zeros(7))))
    ensures Valid(bc.ToTlv()) && Encode(bc.ToTlv()) == [0x30, 0x0e, 0x01, 0x01, 0xff, 0x02, 0x09, 0x00, 0x80] + Zeros(7)
  {
    var flag, pathLen := Primitive(0x01, Short, [0xff]), Primitive(0x02, Short, [0x00, 0x80] + Zeros(7));
    assert Encode(flag) == [0x01, 0x01, 0xff];
    assert Encode(pathLen) == [0x02, 0x09, 0x00, 0x80] + Zeros(7);
    assert bc.ToTlv().children == [flag] + [pathLen];
    assert [pathLen] == [pathLen] + [];
    EncodeNone();
    EncodeAllFirst(pathLen, []);
    EncodeAllFirst(flag, [pathLen]);
  }

  lemma {:induction false} WideNumber()
    ensures FromBE([0x00, 0x80] + Zeros(7)) == TWO_63
  {
    FromBEConcat([0x00, 0x80], Zeros(7));
    assert FromBE([0x00, 0x80]) == 0x80;
    assert Pow256(7) == 0x100_0000_0000_0000;
    ZeroExactly(Zeros(7));
  }

  // ---------------------------------------------------------------- keyUsage

  lemma {:induction false} BitsDecode(cert: bytes, ptr: Asn1Ptr, bits: bytes)
    requires ptr.header < |cert| && cert[ptr.header] == 0x03 && ptr.length == 1 + |bits|
    requires At(cert, ptr.content + 1, bits)
    ensures BitStringUintAt(cert, ptr) == if |bits| <= 32 then Ok(FromBE(bits)) else Revert
  {
    ReadUintAt(cert, ptr.content + 1, bits, ptr.length - 1);
  }

  /** Bit `n` of a BIT STRING, counted from the top of its first octet (section 8.6.2 of X.690). */
  predicate BitAt(bits: bytes, n: nat) {
    n < 8 * |bits| && bits[n / 8] / TopDown(n % 8) % 2 == 1
  }

  /** 128 for the top bit of an octet, and so on down to 1. */
  function TopDown(n: nat): (p: nat)
    ensures p > 0
  {
    if n == 0 then 128 else if n == 1 then 64 else if n == 2 then 32 else if n == 3 then 16
    else if n == 4 then 8 else if n == 5 then 4 else if n == 6 then 2 else 1
  }

  /** keyCertSign, bit 5, for a CA and digitalSignature, bit 0, for a client (section 4.2.1.3 of RFC 5280). */
  predicate NamedBit(bits: bytes, ca: bool) { BitAt(bits, if ca then 5 else 0) }

  /** What the contract tests of a KeyUsage string: bit 5 or bit 0, but of its LAST octet, if it fits a word. */
  predicate UsageSuits(bits: bytes, ca: bool) {
    1 <= |bits| <= 32 && BitAt(bits[|bits| - 1..], if ca then 5 else 0)
  }

  /** In numbers: the last octet has 4 among its lower three bits for a CA, and is at least 128 for a client. */
  lemma UsageOctet(bits: bytes)
    requires 1 <= |bits| <= 32
    ensures UsageSuits(bits, true) <==> bits[|bits| - 1] % 8 >= 4
    ensures UsageSuits(bits, false) <==> bits[|bits| - 1] >= 128
  {}

  lemma {:induction false} EvenShift(h: nat, n: nat)
    ensures (2 * h + n) % 2 == n % 2
  {}

  lemma {:induction false} LowOctetBits(high: nat, last: byte)
    ensures (high * 256 + last) / 4 % 2 == last / 4 % 2
    ensures (high * 256 + last) / 128 % 2 == last / 128 % 2
  {
    EvenShift(high * 32, last / 4);
    assert (high * 256 + last) / 4 == 2 * (high * 32) + last / 4;
    EvenShift(high, last / 128);
    assert (high * 256 + last) / 128 == 2 * high + last / 128;
  }

  /** The bit of the whole number that the contract tests is a bit of the last octet. */
  lemma {:induction false} UsageBitIsLast(bits: bytes, ca: bool)
    requires |bits| <= 32
    ensures UsageBit(FromBE(bits), ca) == UsageSuits(bits, ca)
  {
    if |bits| == 0 {
      NoOctets();
      assert bits == [];
    } else {
      var high, last := FromBE(bits[..|bits| - 1]), bits[|bits| - 1];
      assert FromBE(bits) == high * 256 + last;
      LowOctetBits(high, last);
      assert bits[|bits| - 1..] == [last];
    }
  }

  /** An encoded KeyUsage is accepted exactly when it has 1 to 32 octets and the bit for the role is set in the last. */
  lemma {:induction false} KeyUsageDecodes(cert: bytes, at: nat, t: Tlv, unused: byte, bits: bytes, ca: bool)
    requires Valid(t) && At(cert, at, Encode(t)) && t.Primitive? && t.tag == 0x03 && t.contents == [unused] + bits
    ensures VerifyKeyUsage(cert, NodeOf(at, t), ca) == Require(UsageSuits(bits, ca))
  {
    hide FromBE, UsageSuits, UsageBit;
    ElementDecodes(cert, at, t);
    AtSplit(cert, NodeOf(at, t).content, [unused], bits);
    BitsDecode(cert, NodeOf(at, t), bits);
    if |bits| <= 32 { UsageBitIsLast(bits, ca); } else { TooLong(bits, ca); }
  }

  lemma TooLong(bits: bytes, ca: bool)
    requires |bits| > 32
    ensures !UsageSuits(bits, ca)
  {}

  /**
   Bit by bit, on encoded strings of 1 to 32 octets with the last octet b: a CA needs bit 5 of b, which is 4 in
   numbers, and a client bit 0, which is 128.
   */
  lemma {:induction false} KeyUsageOctet(cert: bytes, at: nat, t: Tlv, unused: byte, bits: bytes)
    requires Valid(t) && At(cert, at, Encode(t)) && t.Primitive? && t.tag == 0x03 && t.contents == [unused] + bits
    requires 1 <= |bits| <= 32
    ensures VerifyKeyUsage(cert, NodeOf(at, t), true) == Pass <==> bits[|bits| - 1] % 8 >= 4
    ensures VerifyKeyUsage(cert, NodeOf(at, t), false) == Pass <==> bits[|bits| - 1] >= 128
  {
    hide VerifyKeyUsage, Encode, Valid, UsageSuits;
    KeyUsageDecodes(cert, at, t, unused, bits, true);
    KeyUsageDecodes(cert, at, t, unused, bits, false);
    UsageOctet(bits);
  }

  /**
   The contract tests the LAST octet of the string. It meets RFC 5280 exactly when that octet agrees
   with the first one on the tested bit, so for every one-octet string, but not for all of two octets.
   */
  lemma {:induction false} KeyUsageTestsLastOctet(bits: bytes, ca: bool)
    requires |bits| <= 32
    ensures (UsageSuits(bits, ca) == NamedBit(bits, ca)) <==>
      (|bits| >= 1 ==> BitAt(bits, 8 * (|bits| - 1) + if ca then 5 else 0) == BitAt(bits, if ca then 5 else 0))
  {
    if |bits| >= 1 {
      var n := if ca then 5 else 0;
      var m := 8 * (|bits| - 1) + n;
      assert m / 8 == |bits| - 1 && m % 8 == n;
    }
  }

  /** On encoded strings of up to 32 octets the verification is right exactly under that condition. */
  lemma {:induction false} KeyUsageIsNamed(cert: bytes, at: nat, t: Tlv, unused: byte, bits: bytes, ca: bool)
    requires Valid(t) && At(cert, at, Encode(t)) && t.Primitive? && t.tag == 0x03 && t.contents == [unused] + bits
    requires |bits| <= 32
    ensures (VerifyKeyUsage(cert, NodeOf(at, t), ca) == Pass <==> NamedBit(bits, ca)) <==>
      (|bits| >= 1 ==> BitAt(bits, 8 * (|bits| - 1) + if ca then 5 else 0) == BitAt(bits, if ca then 5 else 0))
  {
    hide VerifyKeyUsage, Encode, Valid, UsageSuits, NamedBit, BitAt;
    KeyUsageDecodes(cert, at, t, unused, bits, ca);
    KeyUsageTestsLastOctet(bits, ca);
  }

  /** keyCertSign with decipherOnly, 03 03 07 04 80: a CA's key usage that the contract refuses. */
  lemma {:induction false} TwoOctetKeyUsageFails(cert: bytes, at: nat)
    requires At(cert, at, [0x03, 0x03, 0x07, 0x04, 0x80])
    ensures ReadNodeLength(cert, at).Ok?
    ensures NamedBit([0x04, 0x80], true) && VerifyKeyUsage(cert, ReadNodeLength(cert, at).value, true) == Fail
  {
    var t := Primitive(0x03, Short, [0x07] + [0x04, 0x80]);
    assert Encode(t) == [0x03, 0x03, 0x07, 0x04, 0x80];
    TwoOctetsRefused(cert, at, t);
  }

  lemma {:induction false} TwoOctetsRefused(cert: bytes, at: nat, t: Tlv)
    requires t == Primitive(0x03, Short, [0x07] + [0x04, 0x80]) && At(cert, at, Encode(t))
    ensures Valid(t) && ReadNodeLength(cert, at).Ok?
    ensures NamedBit([0x04, 0x80], true) && VerifyKeyUsage(cert, ReadNodeLength(cert, at).value, true) == Fail
  {
    hide VerifyKeyUsage, Encode, FromBE;
    ElementDecodes(cert, at, t);
    KeyUsageIsNamed(cert, at, t, 0x07, [0x04, 0x80], true);
  }

  // ---------------------------------------------------------------- one extension

  /** The OID node of an encoded extension and everything after it. */
  lemma {:induction false} OidStands(keccak: Hash, cert: bytes, ix: nat, e: Extension, end: nat)
    requires Valid(e.ToTlv()) && At(cert, ix, Encode(e.ToTlv())) && end == ix + |Encode(e.ToTlv())|
    ensures Valid(e.OidTlv()) && ValidAll(e.Rest())
    ensures var oidPtr := NodeOf(NodeOf(ix, e.ToTlv()).content, e.OidTlv());
      && FirstChildOf(cert, NodeOf(ix, e.ToTlv())) == Ok(oidPtr)
      && ContentHash(keccak, cert, oidPtr) == Ok(keccak(e.oid))
      && At(cert, oidPtr.End(), EncodeAll(e.Rest()))
      && oidPtr.End() + |EncodeAll(e.Rest())| == end
  {
    hide FirstChildOf, ContentHash, Encode, EncodeAll, Valid, ValidAll, At;
    FirstOfTwo(cert, ix, e.ToTlv(), e.OidTlv(), e.Rest());
    OidHashed(keccak, cert, NodeOf(NodeOf(ix, e.ToTlv()).content, e.OidTlv()), e);
  }

  lemma OidHashed(keccak: Hash, cert: bytes, ptr: Asn1Ptr, e: Extension)
    requires Valid(e.OidTlv()) && At(cert, ptr.content, Contents(e.OidTlv())) && ptr.length == |Contents(e.OidTlv())|
    ensures ContentHash(keccak, cert, ptr) == Ok(keccak(e.oid))
  {}

  lemma {:induction false} OctetsStand(cert: bytes, ix: nat, e: Extension, end: nat)
    requires ValidAll([e.OctetsTlv()]) && At(cert, ix, EncodeAll([e.OctetsTlv()]))
    requires end == ix + |EncodeAll([e.OctetsTlv()])|
    ensures Valid(e.OctetsTlv()) && ReadNodeLength(cert, ix) == Ok(NodeOf(ix, e.OctetsTlv())) && cert[ix] == 0x04
    ensures At(cert, NodeOf(ix, e.OctetsTlv()).content, e.octets)
    ensures NodeOf(ix, e.OctetsTlv()).content + |e.octets| == end
  {
    assert [e.OctetsTlv()] == [e.OctetsTlv()] + [];
    OnlyOne(cert, ix, e.OctetsTlv(), []);
  }

  /**
   With or without a critical flag, the value node is read at the start of the octets, which end with the extension.
   */
  lemma {:induction false} ValueStands(cert: bytes, oidPtr: Asn1Ptr, e: Extension, end: nat) returns (at: nat)
    requires ValidAll(e.Rest()) && At(cert, oidPtr.End(), EncodeAll(e.Rest()))
    requires end == oidPtr.End() + |EncodeAll(e.Rest())|
    ensures ExtensionValue(cert, oidPtr) == ReadNodeLength(cert, at)
    ensures At(cert, at, e.octets) && at + |e.octets| == end
  {
    var ix := oidPtr.End();
    if e.critical.Some? {
      var flag := e.CriticalTlv();
      assert e.Rest() == [flag] + [e.OctetsTlv()];
      OnlyOne(cert, ix, flag, [e.OctetsTlv()]);
      ix := NodeOf(ix, flag).End();
    }
    OctetsStand(cert, ix, e, end);
    at := NodeOf(ix, e.OctetsTlv()).content;
  }

  /** What one extension contributes, in the terms of its meaning. */
  function Contribution(e: Extension, ca: bool, found: Found): Result<Found> {
    match e.meaning
    case Basic(bc) => if bc.Suits(ca) then Ok(Found(true, found.keyUsage, bc.StoredPathLen())) else Revert
    case Usage(_, _, bits) => if UsageSuits(bits, ca) then Ok(found.(keyUsage := true)) else Revert
    case Unrecognized => Ok(found)
  }

  lemma {:induction false} ValueDecodes(cert: bytes, at: nat, e: Extension, end: nat, ca: bool, keccak: Hash)
    requires e.WellFormed(keccak) && At(cert, at, e.octets) && end == at + |e.octets| && SequenceFollows(cert, end)
    ensures !e.meaning.Unrecognized? ==> ReadNodeLength(cert, at).Ok?
    ensures e.meaning.Basic? ==>
      VerifyBasicConstraints(cert, ReadNodeLength(cert, at).value, ca)
      == if e.meaning.bc.Suits(ca) then Ok(e.meaning.bc.StoredPathLen()) else Revert
    ensures e.meaning.Usage? ==>
      VerifyKeyUsage(cert, ReadNodeLength(cert, at).value, ca) == Require(UsageSuits(e.meaning.bits, ca))
  {
    match e.meaning {
      case Basic(bc) =>
        ElementDecodes(cert, at, bc.ToTlv());
        BasicConstraintsDecodes(cert, at, bc, end, ca);
      case Usage(form, unused, bits) =>
        var t := Primitive(0x03, form, [unused] + bits);
        ElementDecodes(cert, at, t);
        KeyUsageDecodes(cert, at, t, unused, bits, ca);
      case Unrecognized =>
    }
  }

  lemma {:induction false} ExtensionDecodes(keccak: Hash, cert: bytes, ix: nat, e: Extension, end: nat, ca: bool,
                                            found: Found)
    requires e.WellFormed(keccak) && keccak(BASIC_CONSTRAINTS) != keccak(KEY_USAGE)
    requires At(cert, ix, Encode(e.ToTlv())) && end == ix + |Encode(e.ToTlv())| && SequenceFollows(cert, end)
    ensures VerifyExtension(keccak, cert, NodeOf(ix, e.ToTlv()), ca, found) == Contribution(e, ca, found)
  {
    OidStands(keccak, cert, ix, e, end);
    var oidPtr := NodeOf(NodeOf(ix, e.ToTlv()).content, e.OidTlv());
    var at := ValueStands(cert, oidPtr, e, end);
    ValueDecodes(cert, at, e, end, ca, keccak);
  }

  // ---------------------------------------------------------------- the whole list

  function Tlvs(es: seq<Extension>): (ts: seq<Tlv>)
    ensures |ts| == |es|
  {
    if |es| == 0 then [] else [es[0].ToTlv()] + Tlvs(es[1..])
  }

  function Contributions(es: seq<Extension>, ca: bool, found: Found): Result<Found> {
    if |es| == 0 then Ok(found)
    else
      var found' :- Contribution(es[0], ca, found);
      Contributions(es[1..], ca, found')
  }

  ghost predicate AllWellFormed(keccak: Hash, es: seq<Extension>) {
    forall i :: 0 <= i < |es| ==> es[i].WellFormed(keccak)
  }

  lemma {:induction false} FirstStands(cert: bytes, ix: nat, es: seq<Extension>, end: nat)
    requires |es| > 0 && ValidAll(Tlvs(es)) && At(cert, ix, EncodeAll(Tlvs(es))) && SequenceFollows(cert, end)
    requires end == ix + |EncodeAll(Tlvs(es))|
    ensures Valid(es[0].ToTlv()) && ValidAll(Tlvs(es[1..])) && At(cert, ix, Encode(es[0].ToTlv()))
    ensures ReadNodeLength(cert, ix) == Ok(NodeOf(ix, es[0].ToTlv())) && cert[ix] == 0x30
    ensures var mid := NodeOf(ix, es[0].ToTlv()).End();
      && mid == ix + |Encode(es[0].ToTlv())| && At(cert, mid, EncodeAll(Tlvs(es[1..])))
      && end == mid + |EncodeAll(Tlvs(es[1..]))| && ix < mid
  {
    AtSplit(cert, ix, Encode(es[0].ToTlv()), EncodeAll(Tlvs(es[1..])));
    OnlyOne(cert, ix, es[0].ToTlv(), Tlvs(es[1..]));
  }

  lemma {:induction false} LoopDecodes(keccak: Hash, cert: bytes, ix: nat, es: seq<Extension>, end: nat, ca: bool,
                                       found: Found)
    requires |es| > 0 && AllWellFormed(keccak, es) && keccak(BASIC_CONSTRAINTS) != keccak(KEY_USAGE)
    requires ValidAll(Tlvs(es)) && At(cert, ix, EncodeAll(Tlvs(es))) && SequenceFollows(cert, end)
    requires end == ix + |EncodeAll(Tlvs(es))|
    ensures ReadNodeLength(cert, ix).Ok? && cert[ix] == 0x30
    ensures ExtensionLoop(keccak, cert, ReadNodeLength(cert, ix).value, end, ca, found) == Contributions(es, ca, found)
    decreases |es|
  {
    FirstStands(cert, ix, es, end);
    var mid := NodeOf(ix, es[0].ToTlv()).End();
    if |es| == 1 {
      assert Tlvs(es[1..]) == [];
      ExtensionDecodes(keccak, cert, ix, es[0], mid, ca, found);
    } else {
      var found' := Contribution(es[0], ca, found);
      LoopDecodes(keccak, cert, mid, es[1..], end, ca, if found'.Ok? then found'.value else found);
      FirstStands(cert, mid, es[1..], end);
      ExtensionDecodes(keccak, cert, ix, es[0], mid, ca, found);
    }
  }

  // ---------------------------------------------------------------- what the whole list amounts to

  predicate Acceptable(e: Extension, ca: bool) {
    match e.meaning
    case Basic(bc) => bc.Suits(ca)
    case Usage(_, _, bits) => UsageSuits(bits, ca)
    case Unrecognized => true
  }

  predicate AllAcceptable(es: seq<Extension>, ca: bool) { forall i :: 0 <= i < |es| ==> Acceptable(es[i], ca) }

  predicate HasBasic(es: seq<Extension>) { exists i :: 0 <= i < |es| && es[i].meaning.Basic? }

  predicate HasUsage(es: seq<Extension>) { exists i :: 0 <= i < |es| && es[i].meaning.Usage? }

  /** The path length of the last basicConstraints, or `default`. */
  function LastPathLen(es: seq<Extension>, default: int): int {
    if |es| == 0 then default
    else
      var last := es[|es| - 1];
      if last.meaning.Basic? then last.meaning.bc.StoredPathLen() else LastPathLen(es[..|es| - 1], default)
  }

  lemma {:induction false} LastPathLenFromFront(e: Extension, es: seq<Extension>, default: int)
    ensures LastPathLen([e] + es, default)
         == LastPathLen(es, if e.meaning.Basic? then e.meaning.bc.StoredPathLen() else default)
  {
    if |es| > 0 {
      LastPathLenFromFront(e, es[..|es| - 1], default);
      assert ([e] + es)[..|es|] == [e] + es[..|es| - 1];
    } else {
      assert ([e] + es)[..0] == [];
    }
  }

  lemma {:induction false} ContributionsMeaning(es: seq<Extension>, ca: bool, found: Found)
    ensures Contributions(es, ca, found).Ok? <==> AllAcceptable(es, ca)
    ensures AllAcceptable(es, ca) ==>
      Contributions(es, ca, found) == Ok(Found(found.basicConstraints || HasBasic(es), found.keyUsage || HasUsage(es),
                                               LastPathLen(es, found.maxPathLen)))
  {
    if |es| == 0 {
    } else {
      var e, rest := es[0], es[1..];
      assert es == [e] + rest;
      LastPathLenFromFront(e, rest, found.maxPathLen);
      assert AllAcceptable(es, ca) <==> Acceptable(e, ca) && AllAcceptable(rest, ca);
      assert HasBasic(es) <==> e.meaning.Basic? || HasBasic(rest);
      assert HasUsage(es) <==> e.meaning.Usage? || HasUsage(rest);
      if Acceptable(e, ca) {
        ContributionsMeaning(rest, ca, Contribution(e, ca, found).value);
      }
    }
  }

  /** The `[3]` element holding the list of extensions. */
  function ListTlv(form: LengthForm, es: seq<Extension>): Tlv { Tlv.Sequence(0x30, form, Tlvs(es)) }

  function WrapperTlv(outer: LengthForm, inner: LengthForm, es: seq<Extension>): Tlv {
    Tlv.Sequence(0xa3, outer, [ListTlv(inner, es)])
  }

  lemma {:induction false} ListStands(cert: bytes, ix: nat, outer: LengthForm, inner: LengthForm, es: seq<Extension>,
                                      end: nat)
    requires Valid(WrapperTlv(outer, inner, es)) && At(cert, ix, Encode(WrapperTlv(outer, inner, es)))
    requires end == ix + |Encode(WrapperTlv(outer, inner, es))|
    ensures Valid(ListTlv(inner, es)) && cert[ix] == 0xa3
    ensures var wrapper := NodeOf(ix, WrapperTlv(outer, inner, es));
      var list := NodeOf(wrapper.content, ListTlv(inner, es));
      && FirstChildOf(cert, wrapper) == Ok(list) && cert[list.header] == 0x30 && list.header < |cert|
      && At(cert, list.content, EncodeAll(Tlvs(es)))
      && list.End() == list.content + |EncodeAll(Tlvs(es))| == end
  {
    var t, list := WrapperTlv(outer, inner, es), ListTlv(inner, es);
    assert t.children == [list] + [];
    FirstOfTwo(cert, ix, t, list, []);
    ElementDecodes(cert, ix, t);
    assert list.children == Tlvs(es);
  }

  lemma {:induction false} TilesForward(cert: bytes, nodes: seq<Asn1Ptr>, start: nat, end: nat)
    requires Tiles(cert, nodes, start, end)
    ensures start < end
    decreases |nodes|
  {
    hide ReadNodeLength;
    if |nodes| == 1 {
    } else {
      TilesForward(cert, nodes[1..], nodes[0].End(), end);
    }
  }

  /** In an empty list the loop starts on what follows it, and never comes back to its end. */
  lemma {:induction false} EmptyListReverts(keccak: Hash, cert: bytes, list: Asn1Ptr, ca: bool)
    requires list.length == 0
    ensures var first := FirstChildOf(cert, list);
      first.Ok? ==> ExtensionLoop(keccak, cert, first.value, list.End(), ca, NOTHING_FOUND).Revert?
  {
    hide ReadNodeLength, VerifyExtension;
    var first := FirstChildOf(cert, list);
    if first.Ok? && ExtensionLoop(keccak, cert, first.value, list.End(), ca, NOTHING_FOUND).Ok? {
      var nodes := LoopTiles(keccak, cert, first.value, list.End(), ca, NOTHING_FOUND);
      TilesForward(cert, nodes, list.content, list.End());
    }
  }

  /**
   On encoded RFC 5280 extensions, followed as in every certificate by a SEQUENCE, the contract accepts
   exactly when every recognized extension suits the role, both recognized kinds are present, and a
   client has no path length; it returns the path length of the last basicConstraints, or -1.
   */
  lemma {:induction false} ExtensionsDecode(keccak: Hash, cert: bytes, ix: nat, outer: LengthForm, inner: LengthForm,
                                            es: seq<Extension>, ca: bool)
    requires AllWellFormed(keccak, es) && keccak(BASIC_CONSTRAINTS) != keccak(KEY_USAGE)
    requires Valid(WrapperTlv(outer, inner, es)) && At(cert, ix, Encode(WrapperTlv(outer, inner, es)))
    requires SequenceFollows(cert, ix + |Encode(WrapperTlv(outer, inner, es))|)
    ensures VerifyExtensions(keccak, cert, NodeOf(ix, WrapperTlv(outer, inner, es)), ca)
         == if AllAcceptable(es, ca) && HasBasic(es) && HasUsage(es) && (ca || LastPathLen(es, -1) == -1)
            then Ok(LastPathLen(es, -1)) else Revert
  {
    hide HeaderOctets, LengthOctets, ReadNodeLength, ExtensionLoop, Contributions, LastPathLen, HasUsage,
      AllAcceptable, At;
    var end := ix + |Encode(WrapperTlv(outer, inner, es))|;
    ListStands(cert, ix, outer, inner, es, end);
    var wrapper := NodeOf(ix, WrapperTlv(outer, inner, es));
    var list := NodeOf(wrapper.content, ListTlv(inner, es));
    if |es| == 0 {
      EmptyListReverts(keccak, cert, list, ca);
    } else {
      LoopDecodes(keccak, cert, list.content, es, end, ca, NOTHING_FOUND);
      ContributionsMeaning(es, ca, NOTHING_FOUND);
    }
  }

  /** Where the last basicConstraints states a path length below 2^63, that number itself is returned. */
  lemma {:induction false} LastPathLenIsStated(es: seq<Extension>, i: nat)
    requires i < |es| && es[i].meaning.Basic? && forall j :: i < j < |es| ==> !es[j].meaning.Basic?
    ensures LastPathLen(es, -1) == es[i].meaning.bc.StoredPathLen()
    ensures var p := es[i].meaning.bc.pathLen;
      (p.None? ==> LastPathLen(es, -1) == -1) &&
      (p.Some? ==> (LastPathLen(es, -1) == FromBE(p.value.1) <==> FromBE(p.value.1) < TWO_63))
    decreases |es|
  {
    if i < |es| - 1 {
      LastPathLenIsStated(es[..|es| - 1], i);
    } else if es[i].meaning.bc.pathLen.Some? {
      Int64OfUintExact(FromBE(es[i].meaning.bc.pathLen.value.1));
    }
  }

  // ---------------------------------------------------------------- what is refused

  /** A cA flag of other than one octet is refused. */
  lemma {:induction false} WideFlagReverts(cert: bytes, at: nat, t: Tlv, form: LengthForm, flag: bytes, rest: seq<Tlv>,
                                           ca: bool)
    requires Valid(t) && t.Sequence? && t.children == [Primitive(0x01, form, flag)] + rest && At(cert, at, Encode(t))
    requires |flag| != 1
    ensures VerifyBasicConstraints(cert, NodeOf(at, t), ca).Revert?
  {
    hide ReadNodeLength;
    FirstOfTwo(cert, at, t, Primitive(0x01, form, flag), rest);
  }

  /** So is a critical flag of other than one octet, in an extension that is recognized. */
  lemma {:induction false} WideCriticalReverts(keccak: Hash, cert: bytes, ix: nat, t: Tlv, oid: Tlv, form: LengthForm,
                                               flag: bytes, rest: seq<Tlv>, ca: bool, found: Found)
    requires Valid(t) && t.Sequence? && t.children == [oid] + ([Primitive(0x01, form, flag)] + rest)
    requires At(cert, ix, Encode(t)) && |flag| != 1
    requires Valid(oid) && (Contents(oid) == BASIC_CONSTRAINTS || Contents(oid) == KEY_USAGE)
    ensures VerifyExtension(keccak, cert, NodeOf(ix, t), ca, found).Revert?
  {
    hide ReadNodeLength, VerifyBasicConstraints, VerifyKeyUsage, Encode, Valid, ValidAll, EncodeAll, At, ContentHash;
    FirstOfTwo(cert, ix, t, oid, [Primitive(0x01, form, flag)] + rest);
    var oidPtr := NodeOf(NodeOf(ix, t).content, oid);
    OnlyOne(cert, oidPtr.End(), Primitive(0x01, form, flag), rest);
    ContentsHashed(keccak, cert, oidPtr, Contents(oid));
    FlagWide(cert, oidPtr, form, flag);
  }

  lemma ContentsHashed(keccak: Hash, cert: bytes, ptr: Asn1Ptr, contents: bytes)
    requires At(cert, ptr.content, contents) && ptr.length == |contents|
    ensures ContentHash(keccak, cert, ptr) == Ok(keccak(contents))
  {}

  lemma FlagWide(cert: bytes, oidPtr: Asn1Ptr, form: LengthForm, flag: bytes)
    requires Valid(Primitive(0x01, form, flag)) && |flag| != 1
    requires NextSiblingOf(cert, oidPtr) == Ok(NodeOf(oidPtr.End(), Primitive(0x01, form, flag)))
    requires oidPtr.End() < |cert| && cert[oidPtr.End()] == 0x01
    ensures ExtensionValue(cert, oidPtr).Revert?
  {
    hide ReadNodeLength;
  }

  /** What stands in the place of the extensions must have the tag [3]. */
  lemma {:induction false} OtherWrapperReverts(keccak: Hash, cert: bytes, ix: nat, t: Tlv, ca: bool)
    requires Valid(t) && At(cert, ix, Encode(t)) && t.tag != 0xa3
    ensures VerifyExtensions(keccak, cert, NodeOf(ix, t), ca).Revert?
  {
    hide ReadNodeLength, ExtensionLoop;
    ElementDecodes(cert, ix, t);
  }
}
