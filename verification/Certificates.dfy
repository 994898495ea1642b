/**
 Whole certificates (section 4.1 of RFC 5280): the parser and the signature step as inverses of an encoding.
 */
module Certificates {
  import opened Basics
  import opened LibBytes
  import opened Asn1Decode
  import opened Calendar
  import opened Timestamps
  import opened Der
  import opened CertParser
  import opened Extensions
  import opened VerifiedCerts
  import opened CertChain
  import opened CertProperties

  // ---------------------------------------------------------------- validity

  datatype Time = Utc(form: LengthForm, at: DateTime) | Generalized(form: LengthForm, at: DateTime) {
    /** Any digits; two of them for the year of a UTCTime stand for 1950 to 2049. */
    predicate Written() {
      at.Written() && (Utc? ==> 1950 <= at.year <= 2049)
    }

    function ToTlv(): Tlv
      requires Written()
    {
      match this
      case Utc(form, at) => Primitive(0x17, form, UtcTime(at))
      case Generalized(form, at) => Primitive(0x18, form, GeneralizedTime(at))
    }

    /** The Unix time that the date counts to, unless the contract cannot read it. */
    function Seconds(): Result<nat> {
      match this
      case Utc(_, at) => at.Read()
      case Generalized(_, at) => if at.year / 100 % 10 <= 2 then at.Read() else Revert
    }
  }

  lemma TimeDecodes(cert: bytes, ix: nat, time: Time)
    requires time.Written() && Valid(time.ToTlv()) && ReadNodeLength(cert, ix) == Ok(NodeOf(ix, time.ToTlv()))
    requires cert[ix] == time.ToTlv().tag && At(cert, NodeOf(ix, time.ToTlv()).content, Contents(time.ToTlv()))
    ensures TimestampAt(cert, NodeOf(ix, time.ToTlv())) == time.Seconds()
  {
    hide TimestampAt, ReadNodeLength, DateTime.Read, TwelveDigits, At;
    match time
    case Utc(_, t) => UtcTimeDecodes(cert, NodeOf(ix, time.ToTlv()), t);
    case Generalized(_, t) => GeneralizedTimeDecodes(cert, NodeOf(ix, time.ToTlv()), t);
  }

  datatype ValidityPeriod = ValidityPeriod(form: LengthForm, notBefore: Time, notAfter: Time) {
    predicate Written() { notBefore.Written() && notAfter.Written() }

    function ToTlv(): Tlv
      requires Written()
    {
      Tlv.Sequence(0x30, form, [notBefore.ToTlv()] + [notAfter.ToTlv()])
    }

    function Read(): Result<Validity> {
      var from :- notBefore.Seconds();
      var to :- notAfter.Seconds();
      Ok(Validity(from, to))
    }
  }

  /** What stands first in a constructed element, and where the second element is read. */
  lemma {:induction false} TwoStand(cert: bytes, ix: nat, t: Tlv, a: Tlv, b: Tlv)
    requires Valid(t) && t.Sequence? && t.children == [a] + [b] && At(cert, ix, Encode(t))
    ensures Valid(a) && Valid(b)
    ensures var at := NodeOf(ix, t).content;
      var next := NodeOf(at, a).End();
      && FirstChildOf(cert, NodeOf(ix, t)) == Ok(NodeOf(at, a)) && ReadNodeLength(cert, at) == Ok(NodeOf(at, a))
      && cert[at] == a.tag && At(cert, NodeOf(at, a).content, Contents(a)) && At(cert, at, Encode(a))
      && NextSiblingOf(cert, NodeOf(at, a)) == Ok(NodeOf(next, b)) && cert[next] == b.tag
      && At(cert, NodeOf(next, b).content, Contents(b)) && At(cert, next, Encode(b))
  {
    hide HeaderOctets, LengthOctets, At, Encode;
    FirstOfTwo(cert, ix, t, a, [b]);
    ElementDecodes(cert, ix, t);
    EncodeAllFirst(a, [b]);
    var at := NodeOf(ix, t).content;
    AtSplit(cert, at, Encode(a), EncodeAll([b]));
    ElementDecodes(cert, at, a);
    LastStands(cert, NodeOf(at, a).End(), b);
  }

  lemma {:induction false} LastStands(cert: bytes, ix: nat, a: Tlv)
    requires ValidAll([a]) && At(cert, ix, EncodeAll([a]))
    ensures Valid(a) && ReadNodeLength(cert, ix) == Ok(NodeOf(ix, a)) && cert[ix] == a.tag
    ensures At(cert, NodeOf(ix, a).content, Contents(a)) && At(cert, ix, Encode(a))
    ensures NodeOf(ix, a).End() == ix + |EncodeAll([a])|
  {
    hide HeaderOctets, LengthOctets, ReadNodeLength;
    assert [a] == [a] + [];
    EncodeAllFirst(a, []);
    assert Encode(a) + EncodeAll([]) == Encode(a);
    ElementDecodes(cert, ix, a);
  }

  lemma {:induction false} ValidityDecodes(cert: bytes, ix: nat, v: ValidityPeriod)
    requires v.Written() && Valid(v.ToTlv()) && At(cert, ix, Encode(v.ToTlv()))
    ensures ReadValidity(cert, NodeOf(ix, v.ToTlv())) == v.Read()
  {
    hide TimestampAt, ReadNodeLength, FirstChildOf, At, Encode, Time.ToTlv, Time.Seconds, HeaderOctets, LengthOctets;
    var a, b := v.notBefore.ToTlv(), v.notAfter.ToTlv();
    TwoStand(cert, ix, v.ToTlv(), a, b);
    var at := NodeOf(ix, v.ToTlv()).content;
    TimeDecodes(cert, at, v.notBefore);
    TimeDecodes(cert, NodeOf(at, a).End(), v.notAfter);
    TimestampFits(cert, NodeOf(NodeOf(at, a).End(), b));
  }

  // ---------------------------------------------------------------- public key

  datatype KeyInfo = KeyInfo(form: LengthForm, algoForm: LengthForm, idForm: LengthForm, id: bytes,
                             paramsForm: LengthForm, params: bytes, keyForm: LengthForm, bits: bytes) {
    function IdTlv(): Tlv { Primitive(0x06, idForm, id) }

    function ParamsTlv(): Tlv { Primitive(0x06, paramsForm, params) }

    function AlgoTlv(): Tlv { Tlv.Sequence(0x30, algoForm, [IdTlv()] + [ParamsTlv()]) }

    function KeyTlv(): Tlv { Primitive(0x03, keyForm, bits) }

    function ToTlv(): Tlv { Tlv.Sequence(0x30, form, [AlgoTlv()] + [KeyTlv()]) }

    /** id-ecPublicKey on secp384r1, as far as hashes tell, and a BIT STRING without unused bits. */
    predicate Suits(keccak: Hash) {
      keccak(id) == keccak(EC_PUBLIC_KEY) && keccak(params) == keccak(SECP_384_R1) && |bits| >= 1 && bits[0] == 0
    }

    /** The encoded point. */
    function Point(): bytes
      requires |bits| >= 1
    {
      bits[1..]
    }
  }

  /** The 96 bytes that end at `end`. */
  function KeyOctets(cert: bytes, end: nat): (key: bytes)
    requires 96 <= end <= |cert|
    ensures |key| == 96
  {
    cert[end - 96..end]
  }

  /**
   The 96 octets taken for the key are the last ones of the point exactly when the point has that many; a
   shorter point is taken whole, behind whatever bytes of the certificate precede it.
   */
  lemma {:induction false} KeyIsOwn(cert: bytes, end: nat, point: bytes)
    requires 96 <= end && |point| <= end && At(cert, end - |point|, point)
    ensures |point| >= 96 ==>
      KeyOctets(cert, end) == point[|point| - 96..]
    ensures |point| < 96 ==>
      KeyOctets(cert, end) == cert[end - 96..end - |point|] + point
  {
    if |point| >= 96 {
      AtSub(cert, end - |point|, point, |point| - 96, 96);
    } else {
      assert cert[end - |point|..end] == point;
    }
  }

  lemma ContentHashed(keccak: Hash, cert: bytes, ptr: Asn1Ptr, contents: bytes)
    requires At(cert, ptr.content, contents) && ptr.length == |contents|
    ensures ContentHash(keccak, cert, ptr) == Ok(keccak(contents))
  {}

  lemma {:induction false} KeyBits(cert: bytes, ptr: Asn1Ptr, bits: bytes)
    requires ptr.header < |cert| && cert[ptr.header] == 0x03 && ptr.length == |bits| && At(cert, ptr.content, bits)
    ensures BitString(cert, ptr).Ok? <==> |bits| >= 1 && bits[0] == 0
    ensures BitString(cert, ptr).Ok? ==>
      BitString(cert, ptr).value.End() == ptr.End() <= |cert|
  {
    if |bits| >= 1 { AtByte(cert, ptr.content, bits, 0); }
  }

  /** A key of any length: its last 96 octets, or for a shorter point the 96 certificate bytes that end with it. */
  lemma {:induction false} KeyDecodes(keccak: Hash, cert: bytes, ix: nat, k: KeyInfo)
    requires Valid(k.ToTlv()) && At(cert, ix, Encode(k.ToTlv()))
    ensures var end := ix + |Encode(k.ToTlv())|;
      && end <= |cert|
      && ParsePubKey(keccak, cert, NodeOf(ix, k.ToTlv()))
         == (if k.Suits(keccak) && end >= 96 then Ok(KeyOctets(cert, end)) else Revert)
      && (k.Suits(keccak) ==> |k.Point()| <= end && At(cert, end - |k.Point()|, k.Point()))
  {
    hide ReadNodeLength, FirstChildOf, At, Encode, HeaderOctets, LengthOctets, BitString, ContentHash;
    TwoStand(cert, ix, k.ToTlv(), k.AlgoTlv(), k.KeyTlv());
    var at := NodeOf(ix, k.ToTlv()).content;
    TwoStand(cert, at, k.AlgoTlv(), k.IdTlv(), k.ParamsTlv());
    var inner := NodeOf(at, k.AlgoTlv()).content;
    var idPtr := NodeOf(inner, k.IdTlv());
    var paramsPtr, bitsPtr := NodeOf(idPtr.End(), k.ParamsTlv()), NodeOf(NodeOf(at, k.AlgoTlv()).End(), k.KeyTlv());
    ContentHashed(keccak, cert, idPtr, k.id);
    ContentHashed(keccak, cert, paramsPtr, k.params);
    KeyBits(cert, bitsPtr, k.bits);
    SecondEnds(cert, ix, k.ToTlv(), k.AlgoTlv(), k.KeyTlv());
    if k.Suits(keccak) { PointStands(cert, bitsPtr.content, k.bits); }
  }

  lemma {:induction false} PointStands(cert: bytes, i: nat, bits: bytes)
    requires At(cert, i, bits) && |bits| >= 1
    ensures At(cert, i + 1, bits[1..])
  {
    AtSub(cert, i, bits, 1, |bits| - 1);
  }

  /** The second of two elements ends with the element that holds them. */
  lemma {:induction false} SecondEnds(cert: bytes, ix: nat, t: Tlv, a: Tlv, b: Tlv)
    requires Valid(t) && t.Sequence? && t.children == [a] + [b] && At(cert, ix, Encode(t))
    ensures Valid(a) && Valid(b)
    ensures NodeOf(NodeOf(NodeOf(ix, t).content, a).End(), b).End() == ix + |Encode(t)| <= |cert|
  {
    hide HeaderOctets, LengthOctets, Encode;
    FirstOfTwo(cert, ix, t, a, [b]);
    LastStands(cert, NodeOf(NodeOf(ix, t).content, a).End(), b);
  }

  // ---------------------------------------------------------------- the certificate

  datatype TbsCert = TbsCert(form: LengthForm, versionForm: LengthForm, versionInner: LengthForm, version: bytes,
                             serial: Tlv, algo: Tlv, issuer: Tlv, validity: ValidityPeriod, subject: Tlv,
                             keyInfo: KeyInfo, issuerUid: Option<Tlv>, subjectUid: Option<Tlv>, outer: LengthForm,
                             inner: LengthForm, extensions: seq<Extension>) {
    function VersionInteger(): Tlv { Primitive(0x02, versionInner, version) }

    function VersionTlv(): Tlv { Tlv.Sequence(0xa0, versionForm, [VersionInteger()]) }

    function ExtensionsTlv(): Tlv { WrapperTlv(outer, inner, extensions) }

    function FromSubjectUid(): seq<Tlv> {
      if subjectUid.Some? then [subjectUid.value] + [ExtensionsTlv()] else [ExtensionsTlv()]
    }

    function FromIssuerUid(): seq<Tlv> {
      if issuerUid.Some? then [issuerUid.value] + FromSubjectUid() else FromSubjectUid()
    }

    function FromValidity(): seq<Tlv>
      requires validity.Written()
    {
      [validity.ToTlv()] + ([subject] + ([keyInfo.ToTlv()] + FromIssuerUid()))
    }

    function Fields(): seq<Tlv>
      requires validity.Written()
    {
      [VersionTlv()] + ([serial] + ([algo] + ([issuer] + FromValidity())))
    }

    function ToTlv(): Tlv
      requires validity.Written()
    {
      Tlv.Sequence(0x30, form, Fields())
    }

    /**
     A valid encoding of these fields, with hash collisions excluded only between the two recognized OIDs and the
     others at hand.
     */
    ghost predicate WellFormed(keccak: Hash) {
      && validity.Written() && Valid(ToTlv())
      && (issuerUid.Some? ==> issuerUid.value.tag == 0x81)
      && (subjectUid.Some? ==> subjectUid.value.tag == 0x82)
      && AllWellFormed(keccak, extensions) && keccak(BASIC_CONSTRAINTS) != keccak(KEY_USAGE)
    }

    predicate ExtensionsSuit(ca: bool) {
      AllAcceptable(extensions, ca) && HasBasic(extensions) && HasUsage(extensions)
      && (ca || LastPathLen(extensions, -1) == -1)
    }

    /** The algorithm and the version 3 (value 2). */
    predicate FormSuits(keccak: Hash)
      requires Valid(algo)
    {
      keccak(Contents(algo)) == keccak(SHA384_WITH_ECDSA) && VersionSuits()
    }

    predicate VersionSuits() { 1 <= |version| <= 32 && version[0] < 128 && FromBE(version) == 2 }

    /** The public key of the TBS certificate encoded at `ix` ends at `end`. */
    predicate KeyEndsAt(ix: nat, end: nat)
      requires validity.Written() && Valid(ToTlv())
    {
      ValidAll(FromIssuerUid()) && end + |EncodeAll(FromIssuerUid())| == ix + |Encode(ToTlv())|
    }

    predicate Current(now: nat) {
      validity.Read().Ok? && validity.Read().value.notBefore <= now <= validity.Read().value.notAfter
    }
  }

  /** One element of a list, read where it stands, and where the rest stands. */
  lemma {:induction false} StepOver(cert: bytes, ix: nat, a: Tlv, rest: seq<Tlv>) returns (next: nat)
    requires ValidAll([a] + rest) && At(cert, ix, EncodeAll([a] + rest))
    ensures Valid(a) && ValidAll(rest) && At(cert, ix, Encode(a)) && At(cert, next, EncodeAll(rest))
    ensures ReadNodeLength(cert, ix) == Ok(NodeOf(ix, a)) && ix < |cert| && cert[ix] == a.tag
    ensures At(cert, NodeOf(ix, a).content, Contents(a))
    ensures next == NodeOf(ix, a).End() && next + |EncodeAll(rest)| == ix + |EncodeAll([a] + rest)|
  {
    hide HeaderOctets, LengthOctets, ReadNodeLength;
    OnlyOne(cert, ix, a, rest);
    EncodeAllFirst(a, rest);
    AtSplit(cert, ix, Encode(a), EncodeAll(rest));
    next := NodeOf(ix, a).End();
  }

  /** The optional identifiers are skipped, so that the node at hand is the extensions', which end with the TBS. */
  lemma {:induction false} UidsSkipped(keccak: Hash, cert: bytes, ix: nat, c: TbsCert) returns (at: nat)
    requires c.WellFormed(keccak) && ValidAll(c.FromIssuerUid()) && At(cert, ix, EncodeAll(c.FromIssuerUid()))
    ensures Valid(c.ExtensionsTlv()) && At(cert, at, Encode(c.ExtensionsTlv()))
    ensures at + |Encode(c.ExtensionsTlv())| == ix + |EncodeAll(c.FromIssuerUid())|
    ensures ReadNodeLength(cert, ix).Ok?
    ensures var after1 := SkipOptional(cert, ReadNodeLength(cert, ix).value, 0x81);
      after1.Ok? && SkipOptional(cert, after1.value, 0x82) == Ok(NodeOf(at, c.ExtensionsTlv()))
  {
    hide HeaderOctets, LengthOctets, ReadNodeLength, At, Encode, AllWellFormed, TbsCert.ExtensionsTlv;
    at := ix;
    if c.issuerUid.Some? {
      at := StepOver(cert, at, c.issuerUid.value, c.FromSubjectUid());
    }
    ghost var mid := at;
    if c.subjectUid.Some? {
      at := StepOver(cert, at, c.subjectUid.value, [c.ExtensionsTlv()]);
    }
    OneEncoded(c.ExtensionsTlv());
    LastStands(cert, at, c.ExtensionsTlv());
    ExtensionsTag(c);
  }

  lemma ExtensionsTag(c: TbsCert)
    ensures c.ExtensionsTlv().tag == 0xa3
  {}

  lemma {:induction false} OneEncoded(a: Tlv)
    requires ValidAll([a])
    ensures Valid(a) && EncodeAll([a]) == Encode(a)
  {
    hide Encode;
    assert [a] == [a] + [];
    EncodeAllFirst(a, []);
    assert Encode(a) + EncodeAll([]) == Encode(a);
  }

  lemma {:induction false} VersionDecodes(cert: bytes, ix: nat, c: TbsCert)
    requires Valid(c.VersionTlv()) && At(cert, ix, Encode(c.VersionTlv()))
    ensures FirstChildOf(cert, NodeOf(ix, c.VersionTlv())).Ok?
    ensures UintAt(cert, FirstChildOf(cert, NodeOf(ix, c.VersionTlv())).value) == Ok(2) <==> c.VersionSuits()
  {
    hide HeaderOctets, LengthOctets, ReadNodeLength, At, Encode, FromBE, UintAt, FirstChildOf;
    assert [c.VersionInteger()] == [c.VersionInteger()] + [];
    FirstOfTwo(cert, ix, c.VersionTlv(), c.VersionInteger(), []);
    var ptr := NodeOf(NodeOf(ix, c.VersionTlv()).content, c.VersionInteger());
    HeaderInside(cert, NodeOf(ix, c.VersionTlv()), ptr);
    IntegerReads(cert, ptr, c.version);
  }

  /** Only 1 to 32 octets with a clear sign bit read as a number other than 0. */
  lemma {:induction false} IntegerReads(cert: bytes, ptr: Asn1Ptr, contents: bytes)
    requires ptr.header < |cert| && cert[ptr.header] == 0x02 && ptr.length == |contents|
    requires At(cert, ptr.content, contents)
    ensures UintAt(cert, ptr) == Ok(2) <==> 1 <= |contents| <= 32 && contents[0] < 128 && FromBE(contents) == 2
  {
    hide FromBE;
    if |contents| == 0 {
      EmptyIsZero(cert, ptr.content);
    } else {
      AtByte(cert, ptr.content, contents, 0);
      if |contents| <= 32 && contents[0] < 128 { UintDecodes(cert, ptr, contents); }
    }
  }

  lemma EmptyIsZero(s: bytes, i: nat)
    ensures i <= |s| ==>
      FromBE(s[i..i]) == 0
  {}

  lemma HeaderInside(cert: bytes, parent: Asn1Ptr, ptr: Asn1Ptr)
    requires FirstChildOf(cert, parent) == Ok(ptr)
    ensures ptr.header < |cert|
  {}

  /** The first four fields. */
  lemma {:induction false} FrontStands(keccak: Hash, cert: bytes, ix: nat, c: TbsCert)
    returns (serial: nat, algo: nat, issuer: nat, validity: nat)
    requires c.validity.Written() && ValidAll(c.Fields()) && At(cert, ix, EncodeAll(c.Fields()))
    ensures Valid(c.VersionTlv()) && Valid(c.serial) && Valid(c.algo) && Valid(c.issuer) && ValidAll(c.FromValidity())
    ensures ReadNodeLength(cert, ix) == Ok(NodeOf(ix, c.VersionTlv())) && At(cert, ix, Encode(c.VersionTlv()))
    ensures NextSiblingOf(cert, NodeOf(ix, c.VersionTlv())) == Ok(NodeOf(serial, c.serial))
    ensures NextSiblingOf(cert, NodeOf(serial, c.serial)) == Ok(NodeOf(algo, c.algo))
    ensures NextSiblingOf(cert, NodeOf(algo, c.algo)) == Ok(NodeOf(issuer, c.issuer))
    ensures NodeOf(issuer, c.issuer).End() == validity && At(cert, validity, EncodeAll(c.FromValidity()))
    ensures ContentHash(keccak, cert, NodeOf(algo, c.algo)) == Ok(keccak(Contents(c.algo)))
    ensures ContentHash(keccak, cert, NodeOf(issuer, c.issuer)) == Ok(keccak(Contents(c.issuer)))
    ensures validity + |EncodeAll(c.FromValidity())| == ix + |EncodeAll(c.Fields())|
  {
    hide HeaderOctets, LengthOctets, ReadNodeLength, At, Encode, ContentHash, TbsCert.VersionTlv, TbsCert.FromValidity;
    serial := StepOver(cert, ix, c.VersionTlv(), [c.serial] + ([c.algo] + ([c.issuer] + c.FromValidity())));
    algo := StepOver(cert, serial, c.serial, [c.algo] + ([c.issuer] + c.FromValidity()));
    issuer := StepOver(cert, algo, c.algo, [c.issuer] + c.FromValidity());
    validity := StepOver(cert, issuer, c.issuer, c.FromValidity());
    ContentHashed(keccak, cert, NodeOf(algo, c.algo), Contents(c.algo));
    ContentHashed(keccak, cert, NodeOf(issuer, c.issuer), Contents(c.issuer));
  }

  /** The next three, and the optional identifiers after them. */
  lemma {:induction false} BackStands(keccak: Hash, cert: bytes, validity: nat, c: TbsCert)
    returns (subject: nat, keyInfo: nat, after: nat)
    requires c.validity.Written() && ValidAll(c.FromValidity()) && At(cert, validity, EncodeAll(c.FromValidity()))
    ensures Valid(c.validity.ToTlv()) && Valid(c.subject) && Valid(c.keyInfo.ToTlv()) && ValidAll(c.FromIssuerUid())
    ensures ReadNodeLength(cert, validity) == Ok(NodeOf(validity, c.validity.ToTlv()))
    ensures At(cert, validity, Encode(c.validity.ToTlv()))
    ensures NextSiblingOf(cert, NodeOf(validity, c.validity.ToTlv())) == Ok(NodeOf(subject, c.subject))
    ensures NextSiblingOf(cert, NodeOf(subject, c.subject)) == Ok(NodeOf(keyInfo, c.keyInfo.ToTlv()))
    ensures At(cert, keyInfo, Encode(c.keyInfo.ToTlv()))
    ensures NodeOf(keyInfo, c.keyInfo.ToTlv()).End() == after && At(cert, after, EncodeAll(c.FromIssuerUid()))
    ensures ContentHash(keccak, cert, NodeOf(subject, c.subject)) == Ok(keccak(Contents(c.subject)))
    ensures after + |EncodeAll(c.FromIssuerUid())| == validity + |EncodeAll(c.FromValidity())|
  {
    hide HeaderOctets, LengthOctets, ReadNodeLength, At, Encode, ContentHash, TbsCert.FromIssuerUid,
      ValidityPeriod.ToTlv, KeyInfo.ToTlv;
    subject := StepOver(cert, validity, c.validity.ToTlv(), [c.subject] + ([c.keyInfo.ToTlv()] + c.FromIssuerUid()));
    keyInfo := StepOver(cert, subject, c.subject, [c.keyInfo.ToTlv()] + c.FromIssuerUid());
    after := StepOver(cert, keyInfo, c.keyInfo.ToTlv(), c.FromIssuerUid());
    ContentHashed(keccak, cert, NodeOf(subject, c.subject), Contents(c.subject));
  }

  /** The walk over the TBS fields lands on each of them, and accepts exactly algorithm and version. */
  lemma {:induction false} NodesFound(keccak: Hash, cert: bytes, ix: nat, c: TbsCert)
    returns (issuer: nat, validity: nat, subject: nat, keyInfo: nat, extensions: nat)
    requires c.WellFormed(keccak) && At(cert, ix, Encode(c.ToTlv()))
    ensures Valid(c.algo) && Valid(c.issuer) && Valid(c.validity.ToTlv()) && Valid(c.subject)
    ensures Valid(c.keyInfo.ToTlv()) && Valid(c.ExtensionsTlv())
    ensures FindTbsNodes(keccak, cert, NodeOf(ix, c.ToTlv()))
         == if c.FormSuits(keccak)
            then Ok(TbsNodes(NodeOf(issuer, c.issuer), NodeOf(validity, c.validity.ToTlv()), NodeOf(subject, c.subject),
                             NodeOf(keyInfo, c.keyInfo.ToTlv()), NodeOf(extensions, c.ExtensionsTlv())))
            else Revert
    ensures ContentHash(keccak, cert, NodeOf(issuer, c.issuer)) == Ok(keccak(Contents(c.issuer)))
    ensures ContentHash(keccak, cert, NodeOf(subject, c.subject)) == Ok(keccak(Contents(c.subject)))
    ensures At(cert, validity, Encode(c.validity.ToTlv())) && At(cert, keyInfo, Encode(c.keyInfo.ToTlv()))
    ensures At(cert, extensions, Encode(c.ExtensionsTlv())) && c.KeyEndsAt(ix, keyInfo + |Encode(c.keyInfo.ToTlv())|)
    ensures extensions + |Encode(c.ExtensionsTlv())| == ix + |Encode(c.ToTlv())|
  {
    hide HeaderOctets, LengthOctets, ReadNodeLength, At, Encode, ContentHash, TbsCert.FromIssuerUid,
      TbsCert.FromValidity, TbsCert.VersionTlv, TbsCert.ExtensionsTlv, ValidityPeriod.ToTlv, KeyInfo.ToTlv, UintAt,
      SkipOptional, AllWellFormed, FromBE, TbsCert.KeyEndsAt, TbsCert.VersionSuits;
    ElementDecodes(cert, ix, c.ToTlv());
    var start := NodeOf(ix, c.ToTlv()).content;
    var serial, algo;
    serial, algo, issuer, validity := FrontStands(keccak, cert, start, c);
    var after;
    subject, keyInfo, after := BackStands(keccak, cert, validity, c);
    KeyEnds(cert, ix, c, keyInfo, after);
    extensions := UidsSkipped(keccak, cert, after, c);
    VersionDecodes(cert, start, c);
    FirstField(cert, ix, c);
  }

  lemma {:induction false} KeyEnds(cert: bytes, ix: nat, c: TbsCert, keyInfo: nat, after: nat)
    requires c.validity.Written() && Valid(c.ToTlv()) && Valid(c.keyInfo.ToTlv())
    requires At(cert, keyInfo, Encode(c.keyInfo.ToTlv()))
    requires ValidAll(c.FromIssuerUid()) && NodeOf(keyInfo, c.keyInfo.ToTlv()).End() == after
    requires after + |EncodeAll(c.FromIssuerUid())| == ix + |Encode(c.ToTlv())|
    ensures c.KeyEndsAt(ix, keyInfo + |Encode(c.keyInfo.ToTlv())|)
  {
    hide HeaderOctets, LengthOctets, ReadNodeLength, At, Encode, TbsCert.FromIssuerUid, TbsCert.ToTlv, KeyInfo.ToTlv;
    ElementDecodes(cert, keyInfo, c.keyInfo.ToTlv());
  }

  lemma {:induction false} FirstField(cert: bytes, ix: nat, c: TbsCert)
    requires c.validity.Written() && Valid(c.ToTlv()) && At(cert, ix, Encode(c.ToTlv()))
    ensures FirstChildOf(cert, NodeOf(ix, c.ToTlv())) == ReadNodeLength(cert, NodeOf(ix, c.ToTlv()).content)
  {
    hide HeaderOctets, LengthOctets, At, TbsCert.Fields;
    ElementDecodes(cert, ix, c.ToTlv());
  }

  /** What the parser accepts of an encoded TBS certificate whose public key ends at `keyEnd` of the certificate. */
  predicate Accepted(keccak: Hash, c: TbsCert, keyEnd: nat, ca: bool, now: nat)
    requires Valid(c.algo)
  {
    c.FormSuits(keccak) && c.Current(now) && c.ExtensionsSuit(ca) && c.keyInfo.Suits(keccak) && keyEnd >= 96
  }

  /** What it then returns. */
  function Parsed(keccak: Hash, c: TbsCert, key: bytes): Tbs
    requires c.validity.Read().Ok? && Valid(c.issuer) && Valid(c.subject)
  {
    Tbs(c.validity.Read().value.notAfter, LastPathLen(c.extensions, -1), keccak(Contents(c.issuer)),
        keccak(Contents(c.subject)), key)
  }

  /** The public key ends at `keyEnd`, and a suitable one stands right before it. */
  ghost predicate KeyStands(keccak: Hash, cert: bytes, ix: nat, c: TbsCert, keyEnd: nat)
    requires c.validity.Written() && Valid(c.ToTlv())
  {
    && keyEnd <= |cert| && c.KeyEndsAt(ix, keyEnd)
    && (c.keyInfo.Suits(keccak) ==>
          |c.keyInfo.Point()| <= keyEnd && At(cert, keyEnd - |c.keyInfo.Point()|, c.keyInfo.Point()))
  }

  /**
   The parser inverts the encoding: a well-formed TBS certificate, in any length forms and with or without the
   optional identifiers, followed as in every certificate by a SEQUENCE, is accepted exactly when algorithm, version,
   key type, validity and extensions suit, and yields its own fields; but for the key it takes the 96 certificate bytes
   that end with it, whatever its length.
   */
  lemma {:induction false} TbsDecodes(keccak: Hash, cert: bytes, ix: nat, c: TbsCert, ca: bool, now: nat)
    returns (keyEnd: nat)
    requires c.WellFormed(keccak) && At(cert, ix, Encode(c.ToTlv())) && SequenceFollows(cert, ix + |Encode(c.ToTlv())|)
    ensures Valid(c.algo) && Valid(c.issuer) && Valid(c.subject) && KeyStands(keccak, cert, ix, c, keyEnd)
    ensures ParseTbs(keccak, cert, NodeOf(ix, c.ToTlv()), ca, now)
         == if Accepted(keccak, c, keyEnd, ca, now) then Ok(Parsed(keccak, c, KeyOctets(cert, keyEnd))) else Revert
  {
    hide HeaderOctets, LengthOctets, ReadNodeLength, At, Encode, ContentHash, TbsCert.ToTlv, SequenceFollows,
      KeyInfo.Suits, TbsCert.ExtensionsTlv, ValidityPeriod.ToTlv, ValidityPeriod.Read, KeyInfo.ToTlv, AllWellFormed,
      FindTbsNodes, ReadValidity, ParsePubKey, VerifyExtensions, KeyOctets, LastPathLen, TbsCert.FormSuits, HasBasic,
      HasUsage, AllAcceptable, TbsCert.KeyEndsAt, KeyInfo.Point;
    var issuer, validity, subject, keyInfo, extensions := NodesFound(keccak, cert, ix, c);
    keyEnd := keyInfo + |Encode(c.keyInfo.ToTlv())|;
    ValidityDecodes(cert, validity, c.validity);
    KeyDecodes(keccak, cert, keyInfo, c.keyInfo);
    EndsInExtensions(keccak, cert, extensions, c, ca);
  }

  lemma {:induction false} EndsInExtensions(keccak: Hash, cert: bytes, extensions: nat, c: TbsCert, ca: bool)
    requires c.WellFormed(keccak) && Valid(c.ExtensionsTlv()) && At(cert, extensions, Encode(c.ExtensionsTlv()))
    requires SequenceFollows(cert, extensions + |Encode(c.ExtensionsTlv())|)
    ensures VerifyExtensions(keccak, cert, NodeOf(extensions, c.ExtensionsTlv()), ca)
         == if c.ExtensionsSuit(ca) then Ok(LastPathLen(c.extensions, -1)) else Revert
  {
    hide HeaderOctets, LengthOctets, ReadNodeLength, At, Encode, SequenceFollows, AllWellFormed, VerifyExtensions,
      LastPathLen, HasBasic, HasUsage, AllAcceptable, TbsCert.ToTlv;
    ExtensionsDecode(keccak, cert, extensions, c.outer, c.inner, c.extensions, ca);
  }

  // ---------------------------------------------------------------- the signature

  /** An INTEGER's contents without one leading zero octet. */
  function MagnitudeOf(contents: bytes): bytes {
    if |contents| >= 1 && contents[0] == 0 then contents[1..] else contents
  }

  /** The two numbers that a signature half is split into: the first 16 octets of the magnitude and the others. */
  function Halves(contents: bytes): Result<Uint384> {
    var m := MagnitudeOf(contents);
    if |contents| >= 1 && contents[0] < 128 && 16 <= |m| <= 48 then Ok(Uint384(FromBE(m[..16]), FromBE(m[16..])))
    else Revert
  }

  lemma {:induction false} HalvesDecode(cert: bytes, ptr: Asn1Ptr, contents: bytes)
    requires ptr.header < |cert| && cert[ptr.header] == 0x02 && ptr.length == |contents|
    requires At(cert, ptr.content, contents)
    ensures Uint384At(cert, ptr) == Halves(contents)
  {
    hide FromBE, Pow256;
    if |contents| >= 1 { HalvesOfMagnitude(cert, ptr, contents); }
  }

  lemma {:induction false} HalvesOfMagnitude(cert: bytes, ptr: Asn1Ptr, contents: bytes)
    requires ptr.header < |cert| && cert[ptr.header] == 0x02 && ptr.length == |contents| >= 1
    requires At(cert, ptr.content, contents)
    ensures Uint384At(cert, ptr) == Halves(contents)
  {
    hide FromBE, Pow256, Uint384At;
    AtByte(cert, ptr.content, contents, 0);
    assert Magnitude(cert, ptr) == MagnitudeOf(contents) by {
      if contents[0] == 0 { AtSub(cert, ptr.content, contents, 1, |contents| - 1); }
    }
    Uint384AtSplitsMagnitude(cert, ptr);
    if Halves(contents).Ok? { Uint384AtParts(cert, ptr); }
  }

  datatype Signature = Signature(bitsForm: LengthForm, form: LengthForm, rForm: LengthForm, r: bytes, sForm: LengthForm,
                                 s: bytes) {
    function RTlv(): Tlv { Primitive(0x02, rForm, r) }

    function STlv(): Tlv { Primitive(0x02, sForm, s) }

    function Pair(): Tlv { Tlv.Sequence(0x30, form, [RTlv()] + [STlv()]) }

    function ToTlv(): Tlv
      requires Valid(Pair())
    {
      Primitive(0x03, bitsForm, [0] + Encode(Pair()))
    }

    predicate WellFormed() { Valid(Pair()) && Valid(ToTlv()) }

    function Packed(): Result<bytes> {
      var hr :- Halves(r);
      var hs :- Halves(s);
      Ok(Packed384(hr) + Packed384(hs))
    }
  }

  /** Inside the BIT STRING stands the pair. */
  lemma {:induction false} BitsOpen(cert: bytes, ix: nat, sig: Signature)
    requires sig.WellFormed() && ReadNodeLength(cert, ix) == Ok(NodeOf(ix, sig.ToTlv()))
    requires cert[ix] == 0x03 && At(cert, NodeOf(ix, sig.ToTlv()).content, Contents(sig.ToTlv()))
    ensures BitString(cert, NodeOf(ix, sig.ToTlv())).Ok?
    ensures var bits := BitString(cert, NodeOf(ix, sig.ToTlv())).value;
      At(cert, bits.content, Encode(sig.Pair())) && RootOf(cert, bits) == Ok(NodeOf(bits.content, sig.Pair()))
  {
    hide HeaderOctets, LengthOctets, ReadNodeLength, Signature.Pair, Encode, At;
    var ptr := NodeOf(ix, sig.ToTlv());
    AtByte(cert, ptr.content, [0] + Encode(sig.Pair()), 0);
    AtSplit(cert, ptr.content, [0], Encode(sig.Pair()));
    ElementDecodes(cert, ptr.content + 1, sig.Pair());
    InBounds(cert, ptr.content, [0], Encode(sig.Pair()));
  }

  lemma InBounds(cert: bytes, i: nat, a: bytes, b: bytes)
    requires At(cert, i, a + b) && |a| > 0
    ensures i < |cert|
  {}

  lemma {:induction false} PairDecodes(cert: bytes, ix: nat, sig: Signature)
    requires Valid(sig.Pair()) && At(cert, ix, Encode(sig.Pair()))
    ensures var pair := NodeOf(ix, sig.Pair());
      && FirstChildOf(cert, pair).Ok?
      && var rPtr := FirstChildOf(cert, pair).value;
         && NextSiblingOf(cert, rPtr).Ok?
         && Uint384At(cert, rPtr) == Halves(sig.r)
         && Uint384At(cert, NextSiblingOf(cert, rPtr).value) == Halves(sig.s)
  {
    hide HeaderOctets, LengthOctets, ReadNodeLength, At, Encode, FirstChildOf, Uint384At, Halves;
    TwoStand(cert, ix, sig.Pair(), sig.RTlv(), sig.STlv());
    var at := NodeOf(ix, sig.Pair()).content;
    HalvesDecode(cert, NodeOf(at, sig.RTlv()), sig.r);
    HalvesDecode(cert, NodeOf(NodeOf(at, sig.RTlv()).End(), sig.STlv()), sig.s);
  }

  datatype Certificate = Certificate(form: LengthForm, tbs: TbsCert, algo: Tlv, signature: Signature) {
    function FromAlgo(): seq<Tlv>
      requires signature.WellFormed()
    {
      [algo] + [signature.ToTlv()]
    }

    function ToTlv(): Tlv
      requires tbs.validity.Written() && signature.WellFormed()
    {
      Tlv.Sequence(0x30, form, [tbs.ToTlv()] + FromAlgo())
    }

    ghost predicate WellFormed(keccak: Hash) {
      tbs.WellFormed(keccak) && signature.WellFormed() && Valid(ToTlv()) && algo.tag == 0x30
    }
  }

  lemma WrittenIfWellFormed(keccak: Hash, t: TbsCert)
    requires t.WellFormed(keccak)
    ensures t.validity.Written() && Valid(t.ToTlv())
  {}

  /** The three parts of an encoded certificate. */
  lemma {:induction false} PartsStand(keccak: Hash, cert: bytes, c: Certificate)
    returns (tbs: nat, algo: nat, bits: nat)
    requires c.WellFormed(keccak) && At(cert, 0, Encode(c.ToTlv()))
    ensures Valid(c.tbs.ToTlv()) && Valid(c.algo) && At(cert, tbs, Encode(c.tbs.ToTlv()))
    ensures TbsOf(cert) == Ok(NodeOf(tbs, c.tbs.ToTlv())) && tbs == NodeOf(0, c.ToTlv()).content
    ensures NodeOf(tbs, c.tbs.ToTlv()).End() == tbs + |Encode(c.tbs.ToTlv())| == algo
    ensures ReadNodeLength(cert, algo) == Ok(NodeOf(algo, c.algo)) && algo < |cert| && cert[algo] == 0x30
    ensures ContentHash(keccak, cert, NodeOf(algo, c.algo)) == Ok(keccak(Contents(c.algo)))
    ensures NodeOf(algo, c.algo).End() == bits && ReadNodeLength(cert, bits) == Ok(NodeOf(bits, c.signature.ToTlv()))
    ensures bits < |cert| && cert[bits] == 0x03
    ensures At(cert, NodeOf(bits, c.signature.ToTlv()).content, Contents(c.signature.ToTlv()))
  {
    hide HeaderOctets, LengthOctets, ReadNodeLength, At, Encode, ContentHash, TbsCert.ToTlv, TbsCert.WellFormed,
      Signature.Pair;
    WrittenIfWellFormed(keccak, c.tbs);
    ElementDecodes(cert, 0, c.ToTlv());
    tbs := NodeOf(0, c.ToTlv()).content;
    algo := StepOver(cert, tbs, c.tbs.ToTlv(), c.FromAlgo());
    ElementDecodes(cert, tbs, c.tbs.ToTlv());
    bits := StepOver(cert, algo, c.algo, [c.signature.ToTlv()]);
    LastStands(cert, bits, c.signature.ToTlv());
    ContentHashed(keccak, cert, NodeOf(algo, c.algo), Contents(c.algo));
    Opened(cert, c);
  }

  lemma {:induction false} Opened(cert: bytes, c: Certificate)
    requires c.tbs.validity.Written() && c.signature.WellFormed() && Valid(c.ToTlv()) && At(cert, 0, Encode(c.ToTlv()))
    ensures TbsOf(cert) == ReadNodeLength(cert, NodeOf(0, c.ToTlv()).content)
  {
    hide HeaderOctets, LengthOctets, At, Encode, TbsCert.ToTlv, Signature.ToTlv;
    ElementDecodes(cert, 0, c.ToTlv());
  }

  /** Whether the ECDSA call returns on the encoding of the TBS certificate and the two packed halves. */
  predicate SignatureReturns(chain: Chain, c: Certificate, pubKey: bytes)
    requires c.signature.WellFormed() && c.tbs.validity.Written() && Valid(c.tbs.ToTlv()) && Valid(c.algo)
  {
    && chain.keccak(Contents(c.algo)) == chain.keccak(SHA384_WITH_ECDSA)
    && c.signature.Packed().Ok?
    && chain.ecdsaReturns(chain.sha384(Encode(c.tbs.ToTlv())), c.signature.Packed().value, pubKey)
  }

  /** The signature step hashes exactly the encoding of the TBS certificate and passes on exactly the two halves. */
  lemma {:induction false} SignatureDecodes(chain: Chain, cert: bytes, c: Certificate, pubKey: bytes)
    requires c.WellFormed(chain.keccak) && At(cert, 0, Encode(c.ToTlv()))
    ensures Valid(c.tbs.ToTlv()) && Valid(c.algo) && TbsOf(cert).Ok?
    ensures TbsOf(cert).value.header <= TbsOf(cert).value.content
    ensures VerifySignature(chain, cert, TbsOf(cert).value, pubKey)
      == if SignatureReturns(chain, c, pubKey) then Ok(()) else Revert
  {
    hide HeaderOctets, LengthOctets, ReadNodeLength, At, Encode, ContentHash, TbsCert.ToTlv, TbsCert.WellFormed,
      Signature.Pair, Signature.ToTlv, TbsOf, BitString, FirstChildOf, Uint384At, Packed384, Halves, Slice, RootOf;
    WrittenIfWellFormed(chain.keccak, c.tbs);
    var tbs, algo, bits := PartsStand(chain.keccak, cert, c);
    BitsOpen(cert, bits, c.signature);
    var inside := BitString(cert, NodeOf(bits, c.signature.ToTlv())).value;
    PairDecodes(cert, inside.content, c.signature);
    Signed(cert, tbs, c.tbs.ToTlv());
  }

  lemma {:induction false} Signed(cert: bytes, ix: nat, t: Tlv)
    requires Valid(t) && At(cert, ix, Encode(t))
    ensures NodeOf(ix, t).header == ix <= NodeOf(ix, t).content
    ensures Slice(cert, NodeOf(ix, t).header, NodeOf(ix, t).TotalLength()) == Ok(Encode(t))
  {
    hide HeaderOctets, LengthOctets;
    ElementDecodes(cert, ix, t);
  }

  /** The entry made for an encoded certificate under a parent, with the octets taken for its key. */
  function EntryFor(chain: Chain, c: Certificate, key: bytes, ca: bool, parent: VerifiedCert): VerifiedCert
    requires c.tbs.validity.Read().Ok? && Valid(c.tbs.issuer) && Valid(c.tbs.subject)
  {
    var t := Parsed(chain.keccak, c.tbs, key);
    VerifiedCert(ca, t.notAfter, Constrain(t.maxPathLen, parent.maxPathLen), t.subjectHash, t.pubKey)
  }

  /** The TBS part stands first in the certificate, and its key ends at `keyEnd`. */
  ghost predicate KeyInPlace(keccak: Hash, cert: bytes, c: Certificate, keyEnd: nat)
    requires c.WellFormed(keccak)
  {
    KeyStands(keccak, cert, NodeOf(0, c.ToTlv()).content, c.tbs, keyEnd)
  }

  /**
   Verifying an encoded certificate without the cache: it succeeds exactly when its TBS part is accepted, its issuer
   is the parent's subject, and the signature step returns, and then stores its own fields with the constrained path
   length.
   */
  lemma {:induction false} CertificateVerifies(chain: Chain, cert: bytes, c: Certificate, ca: bool,
                                               parent: VerifiedCert, now: nat)
    returns (keyEnd: nat)
    requires c.WellFormed(chain.keccak) && At(cert, 0, Encode(c.ToTlv()))
    ensures Valid(c.tbs.ToTlv()) && Valid(c.algo) && Valid(c.tbs.algo) && Valid(c.tbs.issuer) && Valid(c.tbs.subject)
    ensures KeyInPlace(chain.keccak, cert, c, keyEnd) && keyEnd <= |cert|
    ensures VerifyFresh(chain, cert, ca, parent, now)
         == if Accepted(chain.keccak, c.tbs, keyEnd, ca, now)
               && parent.subjectHash == chain.keccak(Contents(c.tbs.issuer))
               && SignatureReturns(chain, c, parent.pubKey)
            then Ok(EntryFor(chain, c, KeyOctets(cert, keyEnd), ca, parent)) else Revert
  {
    hide HeaderOctets, LengthOctets, ReadNodeLength, At, Encode, TbsCert.ToTlv, TbsCert.WellFormed, Signature.Pair,
      Signature.ToTlv, TbsOf, ParseTbs, VerifySignature, SignatureReturns, Certificate.ToTlv, Constrain, KeyStands,
      KeyOctets;
    WrittenIfWellFormed(chain.keccak, c.tbs);
    var tbs, algo, bits := PartsStand(chain.keccak, cert, c);
    keyEnd := TbsDecodes(chain.keccak, cert, tbs, c.tbs, ca, now);
    KeyInside(chain.keccak, cert, tbs, c.tbs, keyEnd);
    SignatureDecodes(chain, cert, c, parent.pubKey);
  }

  lemma KeyInside(keccak: Hash, cert: bytes, ix: nat, c: TbsCert, keyEnd: nat)
    requires c.validity.Written() && Valid(c.ToTlv()) && KeyStands(keccak, cert, ix, c, keyEnd)
    ensures keyEnd <= |cert|
  {}

  /** The key stored for an accepted certificate is its own exactly when its point has at least 96 octets. */
  lemma {:induction false} StoredKeyIsOwn(keccak: Hash, cert: bytes, c: Certificate, keyEnd: nat)
    requires c.WellFormed(keccak) && KeyInPlace(keccak, cert, c, keyEnd) && keyEnd >= 96 && c.tbs.keyInfo.Suits(keccak)
    ensures var point := c.tbs.keyInfo.Point();
      && (|point| >= 96 ==> KeyOctets(cert, keyEnd) == point[|point| - 96..])
      && (|point| < 96 ==> |point| <= keyEnd && KeyOctets(cert, keyEnd) == cert[keyEnd - 96..keyEnd - |point|] + point)
  {
    hide TbsCert.ToTlv, TbsCert.KeyEndsAt, Certificate.ToTlv, Encode, Signature.ToTlv, At, KeyInfo.Point;
    KeyIsOwn(cert, keyEnd, c.tbs.keyInfo.Point());
  }

  /**
   A call for an encoded certificate that is not stored yet is served exactly when the parent is stored and
   fit to issue it, the certificate names it, suits the role and the time, and the signature step returns; the store
   then gains just this certificate's own entry.
   */
  lemma {:induction false} CertificateServed(chain: Chain, s: Store, call: Call, c: Certificate) returns (keyEnd: nat)
    requires c.WellFormed(chain.keccak) && At(call.cert, 0, Encode(c.ToTlv()))
    requires |Load(s, chain.keccak(call.cert)).pubKey| == 0
    ensures Valid(c.tbs.ToTlv()) && Valid(c.algo) && Valid(c.tbs.algo) && Valid(c.tbs.issuer) && Valid(c.tbs.subject)
    ensures KeyInPlace(chain.keccak, call.cert, c, keyEnd) && keyEnd <= |call.cert|
    ensures var parent, h := Load(s, call.parentHash), chain.keccak(call.cert);
      Serve(chain, s, call)
      == if (h == chain.rootHash || (|parent.pubKey| > 0 && MayIssue(parent, call.ca, call.now)))
            && Accepted(chain.keccak, c.tbs, keyEnd, call.ca, call.now)
            && parent.subjectHash == chain.keccak(Contents(c.tbs.issuer)) && SignatureReturns(chain, c, parent.pubKey)
         then var entry := EntryFor(chain, c, KeyOctets(call.cert, keyEnd), call.ca, parent);
              Ok(Answer(s[h := entry], entry))
         else Revert
  {
    hide At, Encode, TbsCert.ToTlv, TbsCert.WellFormed, Signature.Pair, Signature.ToTlv, VerifyFresh, SignatureReturns,
      Certificate.ToTlv, Constrain, KeyInPlace, KeyOctets;
    keyEnd := CertificateVerifies(chain, call.cert, c, call.ca, Load(s, call.parentHash), call.now);
  }

  // ---------------------------------------------------------------- the root

  /** The entry a new manager holds: a CA without a path length that expires on 28 October 2049 at 14:28:05. */
  lemma RootEntry(chain: Chain)
    ensures DateTime(2049, 10, 28, 14, 28, 5).Real()
    ensures InitialStore(chain) == map[chain.rootHash :=
      VerifiedCert(true, DateTime(2049, 10, 28, 14, 28, 5).UnixSeconds(), -1, chain.rootSubjectHash, chain.rootPubKey)]
  {
    hide DateTime.UnixSeconds;
    TimestampIsUnixTime(DateTime(2049, 10, 28, 14, 28, 5));
  }
}
