/**
 A small world to show that the statements about the certificate store are about something: two certificates that a root
 issues, and the run that stores them.
 */
module SampleCertificates {
  import opened Basics
  import opened LibBytes
  import opened Asn1Decode
  import opened Calendar
  import opened Timestamps
  import opened Der
  import opened CertParser
  import opened Extensions
  import opened VerifiedCerts
  import opened CertChain
  import opened CertProperties
  import opened Certificates

  // ---------------------------------------------------------------- a hash

  /** Injective on strings of up to 30 bytes, and on longer ones that differ in their first 31. */
  function SampleHash(b: bytes): Bytes32 {
    if |b| < 31 then b + Zeros(31 - |b|) + [|b|] else b[..31] + [255]
  }

  lemma ShortHash(a: bytes, b: bytes)
    requires |a| < 31
    ensures SampleHash(a) == SampleHash(b) <==> a == b
  {
    if SampleHash(a) == SampleHash(b) {
      assert SampleHash(a)[31] == SampleHash(b)[31];
      assert |b| == |a|;
      assert a == SampleHash(a)[..|a|] && b == SampleHash(b)[..|b|];
    }
  }

  lemma LongHash(a: bytes, b: bytes, k: nat)
    requires k < 31 <= |a| && 31 <= |b| && a[k] != b[k]
    ensures SampleHash(a) != SampleHash(b)
  {
    assert SampleHash(a)[k] == a[k] && SampleHash(b)[k] == b[k];
  }

  /** The root certificate's bytes and name. */
  const ROOT: bytes := [7]
  const ROOT_NAME: bytes := [0x52]
  const CA_NAME: bytes := [0x43]
  const CLIENT_NAME: bytes := [0x45]

  function SampleChain(): Chain {
    Chain(SampleHash, b => [], (hash, signature, key) => true, SampleHash(ROOT), SampleHash(ROOT_NAME), Zeros(96))
  }

  // ---------------------------------------------------------------- lengths of encodings

  function HeaderLength(form: LengthForm): nat {
    match form case Short => 2 case Long(n) => 2 + n
  }

  lemma PrimitiveValid(t: Tlv)
    requires t.Primitive? && t.tag % 32 != 31 && LengthFits(t.form, |t.contents|)
    ensures Valid(t) && |Encode(t)| == HeaderLength(t.form) + |t.contents|
  {}

  lemma {:induction false} SequenceValid(t: Tlv, n: nat)
    requires t.Sequence? && t.tag % 32 != 31 && Constructed(t.tag)
    requires ValidAll(t.children) && |EncodeAll(t.children)| == n && LengthFits(t.form, n)
    ensures Valid(t) && |Encode(t)| == HeaderLength(t.form) + n
  {}

  lemma {:induction false} ConsValid(a: Tlv, rest: seq<Tlv>)
    requires Valid(a) && ValidAll(rest)
    ensures ValidAll([a] + rest) && |EncodeAll([a] + rest)| == |Encode(a)| + |EncodeAll(rest)|
  {
    hide Encode;
    assert ([a] + rest)[1..] == rest;
  }

  lemma {:induction false} OneValid(a: Tlv)
    requires Valid(a)
    ensures ValidAll([a]) && EncodeAll([a]) == Encode(a)
  {
    hide Encode;
    assert [a][1..] == [];
  }

  lemma TwoOctetLengths(n: nat)
    requires n < 65536
    ensures LengthFits(Long(2), n)
  {
    assert Pow256(2) == 65536;
  }

  // ---------------------------------------------------------------- extensions

  function SampleBasic(ca: bool): BasicConstraintsValue {
    BasicConstraintsValue(Short, if ca then Some((Short, 0xff)) else None, None)
  }

  function BasicOctets(ca: bool): bytes { if ca then [0x30, 0x03, 0x01, 0x01, 0xff] else [0x30, 0x00] }

  function BasicExtension(ca: bool): Extension {
    Extension(Short, Short, BASIC_CONSTRAINTS, None, Short, BasicOctets(ca), Basic(SampleBasic(ca)))
  }

  /** keyCertSign alone for a CA, and digitalSignature alone for a client. */
  function UsageOctets(ca: bool): bytes { if ca then [0x03, 0x02, 0x02, 0x04] else [0x03, 0x02, 0x07, 0x80] }

  function SampleUsage(ca: bool): Meaning { if ca then Usage(Short, 2, [0x04]) else Usage(Short, 7, [0x80]) }

  function UsageExtension(ca: bool): Extension {
    Extension(Short, Short, KEY_USAGE, None, Short, UsageOctets(ca), SampleUsage(ca))
  }

  function SampleExtensions(ca: bool): seq<Extension> { [BasicExtension(ca), UsageExtension(ca)] }

  lemma {:induction false} BasicEncodes(ca: bool)
    ensures Valid(SampleBasic(ca).ToTlv()) && Encode(SampleBasic(ca).ToTlv()) == BasicOctets(ca)
  {
    var t := SampleBasic(ca).ToTlv();
    if ca {
      var flag := Primitive(0x01, Short, [0xff]);
      assert t.children == [flag];
      PrimitiveValid(flag);
      OneValid(flag);
      assert Encode(flag) == [0x01, 0x01, 0xff];
      SequenceValid(t, 3);
    } else {
      assert t.children == [];
      SequenceValid(t, 0);
    }
  }

  lemma UsageEncodes(ca: bool)
    ensures var t := Primitive(0x03, Short, [SampleUsage(ca).unused] + SampleUsage(ca).bits);
      Valid(t) && Encode(t) == UsageOctets(ca)
  {
    PrimitiveValid(Primitive(0x03, Short, [SampleUsage(ca).unused] + SampleUsage(ca).bits));
  }

  lemma {:induction false} ExtensionValid(e: Extension, n: nat)
    requires e.form == Short && e.oidForm == Short && |e.oid| == 3 && e.critical.None? && e.octetsForm == Short
    requires |e.octets| == n < 100
    ensures Valid(e.ToTlv()) && |Encode(e.ToTlv())| == n + 9
  {
    hide Encode, Valid, ValidAll, EncodeAll;
    PrimitiveValid(e.OidTlv());
    PrimitiveValid(e.OctetsTlv());
    OneValid(e.OctetsTlv());
    ConsValid(e.OidTlv(), e.Rest());
    SequenceValid(e.ToTlv(), n + 7);
  }

  lemma {:induction false} ExtensionsWellFormed(ca: bool)
    ensures AllWellFormed(SampleHash, SampleExtensions(ca))
    ensures SampleHash(BASIC_CONSTRAINTS) != SampleHash(KEY_USAGE)
  {
    hide Encode, Valid, SampleHash;
    BasicEncodes(ca);
    UsageEncodes(ca);
    ExtensionValid(BasicExtension(ca), |BasicOctets(ca)|);
    ExtensionValid(UsageExtension(ca), 4);
    ShortHash(BASIC_CONSTRAINTS, KEY_USAGE);
    assert BASIC_CONSTRAINTS[2] != KEY_USAGE[2];
    assert BasicExtension(ca).WellFormed(SampleHash) && UsageExtension(ca).WellFormed(SampleHash);
  }

  lemma {:induction false} ExtensionsLength(ca: bool)
    ensures var es := SampleExtensions(ca);
      && ValidAll(Tlvs(es)) && |EncodeAll(Tlvs(es))| == |BasicOctets(ca)| + 22
      && Valid(WrapperTlv(Short, Short, es)) && |Encode(WrapperTlv(Short, Short, es))| == |BasicOctets(ca)| + 26
  {
    hide Encode, Valid, ValidAll, EncodeAll, Extension.ToTlv;
    var es := SampleExtensions(ca);
    ExtensionValid(es[0], |BasicOctets(ca)|);
    ExtensionValid(es[1], 4);
    OneValid(es[1].ToTlv());
    ConsValid(es[0].ToTlv(), [es[1].ToTlv()]);
    TwoTlvs(es[0], es[1]);
    var list := ListTlv(Short, es);
    SequenceValid(list, |BasicOctets(ca)| + 22);
    OneValid(list);
    SequenceValid(WrapperTlv(Short, Short, es), |BasicOctets(ca)| + 24);
  }

  lemma {:induction false} TwoTlvs(a: Extension, b: Extension)
    ensures Tlvs([a, b]) == [a.ToTlv()] + [b.ToTlv()]
  {
    hide Extension.ToTlv;
    assert [a, b][1..] == [b] && [b][1..] == [];
    assert Tlvs([b]) == [b.ToTlv()] + Tlvs([]);
  }

  lemma {:induction false} ExtensionsAccepted(c: TbsCert, ca: bool)
    requires c.extensions == SampleExtensions(ca)
    ensures c.ExtensionsSuit(ca) && LastPathLen(c.extensions, -1) == -1
  {
    var es := SampleExtensions(ca);
    assert Acceptable(es[0], ca) && Acceptable(es[1], ca);
    assert es[0].meaning.Basic? && es[1].meaning.Usage?;
    LastPathLenIsStated(es, 0);
  }

  // ---------------------------------------------------------------- certificates

  const START := DateTime(1970, 1, 1, 0, 0, 0)
  const FINISH := DateTime(2049, 12, 31, 23, 59, 59)
  const NOW: nat := 1000

  function SampleValidity(): ValidityPeriod { ValidityPeriod(Short, Utc(Short, START), Utc(Short, FINISH)) }

  function SampleKey(point: bytes): KeyInfo {
    KeyInfo(Short, Short, Short, EC_PUBLIC_KEY, Short, SECP_384_R1, Short, [0] + point)
  }

  function SampleTbs(serial: byte, name: bytes, ca: bool, point: bytes): TbsCert {
    TbsCert(Long(2), Short, Short, [2], Primitive(0x02, Short, [serial]), Primitive(0x30, Short, SHA384_WITH_ECDSA),
            Primitive(0x30, Short, ROOT_NAME), SampleValidity(), Primitive(0x30, Short, name), SampleKey(point),
            None, None, Short, Short, SampleExtensions(ca))
  }

  function SampleHalf(): bytes { [1] + Zeros(15) }

  function SampleSignature(): Signature { Signature(Short, Short, Short, SampleHalf(), Short, SampleHalf()) }

  function SampleCertificate(serial: byte, name: bytes, ca: bool, point: bytes): Certificate {
    Certificate(Long(2), SampleTbs(serial, name, ca, point), Primitive(0x30, Short, SHA384_WITH_ECDSA),
                SampleSignature())
  }

  lemma SampleStart()
    ensures START.Written() && START.Read() == Ok(0)
  {
    hide DateTime.Read;
    DateTimeIsRead(START);
  }

  lemma SampleFinish()
    ensures FINISH.Written() && FINISH.Read() == Ok(2524607999)
  {
    hide DateTime.Read;
    DateTimeIsRead(FINISH);
  }

  lemma {:induction false} ValidityValid()
    ensures SampleValidity().Written() && Valid(SampleValidity().ToTlv()) && |Encode(SampleValidity().ToTlv())| == 32
    ensures SampleValidity().Read() == Ok(Validity(0, 2524607999))
  {
    hide Encode, Valid, ValidAll, EncodeAll, DateTime.Read, TwelveDigits;
    SampleStart();
    SampleFinish();
    var v := SampleValidity();
    PrimitiveValid(v.notBefore.ToTlv());
    PrimitiveValid(v.notAfter.ToTlv());
    OneValid(v.notAfter.ToTlv());
    ConsValid(v.notBefore.ToTlv(), [v.notAfter.ToTlv()]);
    SequenceValid(v.ToTlv(), 30);
  }

  lemma {:induction false} KeyValid(point: bytes)
    requires |point| < 98
    ensures Valid(SampleKey(point).ToTlv()) && |Encode(SampleKey(point).ToTlv())| == |point| + 23
  {
    hide Encode, Valid, ValidAll, EncodeAll;
    var k := SampleKey(point);
    PrimitiveValid(k.IdTlv());
    PrimitiveValid(k.ParamsTlv());
    OneValid(k.ParamsTlv());
    ConsValid(k.IdTlv(), [k.ParamsTlv()]);
    SequenceValid(k.AlgoTlv(), 16);
    PrimitiveValid(k.KeyTlv());
    OneValid(k.KeyTlv());
    ConsValid(k.AlgoTlv(), [k.KeyTlv()]);
    SequenceValid(k.ToTlv(), |point| + 21);
  }

  /** The back half of the fields. */
  lemma {:induction false} BackValid(c: TbsCert, serial: byte, name: bytes, ca: bool, point: bytes)
    requires |name| < 100 && |point| < 98 && c == SampleTbs(serial, name, ca, point)
    ensures c.validity.Written() && ValidAll(c.FromIssuerUid())
    ensures |EncodeAll(c.FromIssuerUid())| == |BasicOctets(ca)| + 26
    ensures ValidAll(c.FromValidity()) && |EncodeAll(c.FromValidity())| == |name| + |point| + |BasicOctets(ca)| + 83
  {
    hide Encode, Valid, ValidAll, EncodeAll, SampleKey, SampleValidity, WrapperTlv, KeyInfo.ToTlv, ValidityPeriod.ToTlv;
    ExtensionsLength(ca);
    OneValid(c.ExtensionsTlv());
    KeyValid(point);
    ConsValid(c.keyInfo.ToTlv(), c.FromIssuerUid());
    PrimitiveValid(c.subject);
    ConsValid(c.subject, [c.keyInfo.ToTlv()] + c.FromIssuerUid());
    ValidityValid();
    ConsValid(c.validity.ToTlv(), [c.subject] + ([c.keyInfo.ToTlv()] + c.FromIssuerUid()));
  }

  lemma {:induction false} VersionValid(c: TbsCert)
    requires c.versionForm == Short && c.versionInner == Short && c.version == [2]
    ensures Valid(c.VersionTlv()) && |Encode(c.VersionTlv())| == 5 && c.VersionSuits()
  {
    hide Encode, Valid, ValidAll, EncodeAll, FromBE;
    PrimitiveValid(c.VersionInteger());
    OneValid(c.VersionInteger());
    SequenceValid(c.VersionTlv(), 3);
    FromBEOne([2]);
  }

  lemma {:induction false} TbsValid(serial: byte, name: bytes, ca: bool, point: bytes)
    requires |name| < 100 && |point| < 98
    ensures var c := SampleTbs(serial, name, ca, point);
      && c.validity.Written() && Valid(c.ToTlv()) && |Encode(c.ToTlv())| == |name| + |point| + |BasicOctets(ca)| + 110
      && ValidAll(c.FromIssuerUid()) && |EncodeAll(c.FromIssuerUid())| == |BasicOctets(ca)| + 26
  {
    hide Encode, Valid, ValidAll, EncodeAll, SampleKey, SampleValidity, WrapperTlv, KeyInfo.ToTlv,
      ValidityPeriod.ToTlv, TbsCert.FromValidity, TbsCert.VersionTlv, TbsCert.FromIssuerUid;
    var c := SampleTbs(serial, name, ca, point);
    BackValid(c, serial, name, ca, point);
    var n := |name| + |point| + |BasicOctets(ca)| + 83;
    PrimitiveValid(c.issuer);
    ConsValid(c.issuer, c.FromValidity());
    PrimitiveValid(c.algo);
    ConsValid(c.algo, [c.issuer] + c.FromValidity());
    PrimitiveValid(c.serial);
    ConsValid(c.serial, [c.algo] + ([c.issuer] + c.FromValidity()));
    VersionValid(c);
    ConsValid(c.VersionTlv(), [c.serial] + ([c.algo] + ([c.issuer] + c.FromValidity())));
    TwoOctetLengths(n + 23);
    SequenceValid(c.ToTlv(), n + 23);
  }

  lemma {:induction false} SignatureValid()
    ensures SampleSignature().WellFormed() && |Encode(SampleSignature().ToTlv())| == 41
    ensures SampleSignature().Packed().Ok?
  {
    hide Encode, Valid, ValidAll, EncodeAll, FromBE;
    var sig := SampleSignature();
    PrimitiveValid(sig.RTlv());
    PrimitiveValid(sig.STlv());
    OneValid(sig.STlv());
    ConsValid(sig.RTlv(), [sig.STlv()]);
    SequenceValid(sig.Pair(), 36);
    PrimitiveValid(sig.ToTlv());
  }

  /** Every such certificate is well formed. */
  lemma {:induction false} SampleWellFormed(serial: byte, name: bytes, ca: bool, point: bytes)
    requires |name| < 100 && |point| < 98
    ensures SampleCertificate(serial, name, ca, point).WellFormed(SampleHash)
    ensures 31 <= |Encode(SampleCertificate(serial, name, ca, point).ToTlv())| < 1024
  {
    hide Encode, Valid, ValidAll, EncodeAll, TbsCert.ToTlv, Signature.ToTlv, Signature.Packed, Signature.Pair,
      SampleHash, AllWellFormed, ValidityPeriod.Written;
    var c := SampleCertificate(serial, name, ca, point);
    TbsValid(serial, name, ca, point);
    SignatureValid();
    OneValid(c.signature.ToTlv());
    PrimitiveValid(c.algo);
    ConsValid(c.algo, [c.signature.ToTlv()]);
    ConsValid(c.tbs.ToTlv(), c.FromAlgo());
    var n := |name| + |point| + |BasicOctets(ca)| + 163;
    TwoOctetLengths(n);
    SequenceValid(c.ToTlv(), n);
    ExtensionsWellFormed(ca);
  }

  /** The bytes of a sample certificate. */
  function SampleBytes(serial: byte, name: bytes, ca: bool, point: bytes): bytes
    requires |name| < 100 && |point| < 98
  {
    SampleWellFormed(serial, name, ca, point);
    Encode(SampleCertificate(serial, name, ca, point).ToTlv())
  }

  /** What the store then holds for it. */
  ghost predicate StoredFor(entry: VerifiedCert, name: bytes, ca: bool, point: bytes) {
    && entry.ca == ca && entry.notAfter == 2524607999 && entry.maxPathLen == -1
    && entry.subjectHash == SampleHash(name) && |entry.pubKey| == 96
    && (|point| < 96 ==> entry.pubKey[96 - |point|..] == point)
    && (|point| >= 96 ==> entry.pubKey == point[|point| - 96..])
  }

  // ---------------------------------------------------------------- being served

  /** A stored CA of the root's name, as the root itself is. */
  ghost predicate FitParent(s: Store, parentHash: Bytes32) {
    var parent := Load(s, parentHash);
    |parent.pubKey| > 0 && parent.notAfter >= NOW && parent.ca && parent.maxPathLen == -1
    && parent.subjectHash == SampleHash(ROOT_NAME)
  }

  /** All checks on a sample certificate pass. */
  lemma {:induction false} SampleAccepted(serial: byte, name: bytes, ca: bool, point: bytes, keyEnd: nat)
    requires |name| < 100 && |point| < 98 && keyEnd >= 96
    ensures var c := SampleCertificate(serial, name, ca, point);
      && Valid(c.tbs.algo) && Accepted(SampleHash, c.tbs, keyEnd, ca, NOW)
      && c.tbs.validity.Read() == Ok(Validity(0, 2524607999)) && LastPathLen(c.tbs.extensions, -1) == -1
  {
    hide Encode, Valid, ValidAll, EncodeAll, SampleHash, SampleExtensions, LastPathLen, DateTime.Read,
      TbsCert.ExtensionsSuit;
    var c := SampleCertificate(serial, name, ca, point);
    PrimitiveValid(c.tbs.algo);
    ValidityValid();
    VersionValid(c.tbs);
    ExtensionsAccepted(c.tbs, ca);
    AlgoContents(c.tbs.algo);
  }

  lemma AlgoContents(t: Tlv)
    requires t.Primitive? && Valid(t)
    ensures Contents(t) == t.contents
  {}

  lemma {:induction false} SampleSigned(serial: byte, name: bytes, ca: bool, point: bytes, pubKey: bytes)
    requires |name| < 100 && |point| < 98
    ensures var c := SampleCertificate(serial, name, ca, point);
      && c.signature.WellFormed() && c.tbs.validity.Written() && Valid(c.tbs.ToTlv()) && Valid(c.algo)
      && SignatureReturns(SampleChain(), c, pubKey)
  {
    hide Encode, Valid, ValidAll, EncodeAll, SampleHash, SampleExtensions, TbsCert.ToTlv, Signature.Pair,
      Signature.ToTlv, Signature.Packed;
    var c := SampleCertificate(serial, name, ca, point);
    TbsValid(serial, name, ca, point);
    SignatureValid();
    PrimitiveValid(c.algo);
    AlgoContents(c.algo);
  }

  /** Where the key of a sample certificate ends. */
  lemma {:induction false} SampleKeyEnd(serial: byte, name: bytes, ca: bool, point: bytes, cert: bytes, keyEnd: nat)
    requires |name| < 100 && |point| < 98 && SampleCertificate(serial, name, ca, point).WellFormed(SampleHash)
    requires KeyInPlace(SampleHash, cert, SampleCertificate(serial, name, ca, point), keyEnd)
    ensures keyEnd == |name| + |point| + 88
  {
    hide Encode, Valid, ValidAll, EncodeAll, SampleHash, SampleExtensions, TbsCert.ToTlv, TbsCert.FromIssuerUid,
      TbsCert.WellFormed, Signature.ToTlv, KeyInfo.Suits, At, SampleTbs;
    TbsValid(serial, name, ca, point);
    var c := SampleCertificate(serial, name, ca, point);
    assert c.tbs.KeyEndsAt(NodeOf(0, c.ToTlv()).content, keyEnd);
  }

  /** The sample's key is stored as `StoredFor` says. */
  lemma {:induction false} SampleKeyStored(serial: byte, name: bytes, ca: bool, point: bytes, cert: bytes, keyEnd: nat)
    requires |name| < 100 && |point| < 98 && SampleCertificate(serial, name, ca, point).WellFormed(SampleHash)
    requires KeyInPlace(SampleHash, cert, SampleCertificate(serial, name, ca, point), keyEnd) && 96 <= keyEnd <= |cert|
    ensures |point| < 96 ==> KeyOctets(cert, keyEnd)[96 - |point|..] == point
    ensures |point| >= 96 ==> KeyOctets(cert, keyEnd) == point[|point| - 96..]
  {
    hide Encode, Valid, ValidAll, EncodeAll, SampleHash, SampleTbs, TbsCert.WellFormed, Signature.ToTlv, At,
      KeyInPlace, Certificate.WellFormed;
    var c := SampleCertificate(serial, name, ca, point);
    SamplePoint(serial, name, ca, point);
    StoredKeyIsOwn(SampleHash, cert, c, keyEnd);
  }

  lemma SamplePoint(serial: byte, name: bytes, ca: bool, point: bytes)
    ensures SampleTbs(serial, name, ca, point).keyInfo.Suits(SampleHash)
    ensures SampleTbs(serial, name, ca, point).keyInfo.Point() == point
  {
    hide SampleHash;
  }

  /**
   A call for a sample certificate under a fit parent is served and stores the certificate's fields, with a key that
   is not its own if its point is short.
   */
  lemma {:induction false} SampleServed(s: Store, serial: byte, name: bytes, ca: bool, point: bytes,
                                        parentHash: Bytes32)
    requires |name| < 100 && |point| < 98 && |name| + |point| >= 8 && FitParent(s, parentHash)
    requires |Load(s, SampleHash(SampleBytes(serial, name, ca, point))).pubKey| == 0
    ensures var h, r :=
        SampleHash(SampleBytes(serial, name, ca, point)),
        Serve(SampleChain(), s, Call(SampleBytes(serial, name, ca, point), ca, parentHash, NOW));
      r.Ok? && r.value.store == s[h := r.value.cert] && StoredFor(r.value.cert, name, ca, point)
  {
    hide Encode, Valid, ValidAll, EncodeAll, SampleHash, SampleTbs, TbsCert.WellFormed, Signature.WellFormed,
      KeyInPlace, KeyOctets, Accepted, SignatureReturns, Certificate.WellFormed, SampleSignature, Signature.ToTlv,
      Serve, LastPathLen;
    var chain, c, cert := SampleChain(), SampleCertificate(serial, name, ca, point),
                          SampleBytes(serial, name, ca, point);
    var call, parent := Call(cert, ca, parentHash, NOW), Load(s, parentHash);
    SampleStands(serial, name, ca, point);
    var keyEnd := CertificateServed(chain, s, call, c);
    SampleKeyEnd(serial, name, ca, point, cert, keyEnd);
    SampleAccepted(serial, name, ca, point, keyEnd);
    SampleSigned(serial, name, ca, point, parent.pubKey);
    SampleKeyStored(serial, name, ca, point, cert, keyEnd);
    SampleNames(serial, name, ca, point);
  }

  lemma {:induction false} SampleStands(serial: byte, name: bytes, ca: bool, point: bytes)
    requires |name| < 100 && |point| < 98
    ensures var c, cert := SampleCertificate(serial, name, ca, point), SampleBytes(serial, name, ca, point);
      && c.WellFormed(SampleHash) && c.tbs.validity.Written() && c.signature.WellFormed() && Valid(c.ToTlv())
      && At(cert, 0, Encode(c.ToTlv())) && 31 <= |cert| < 1024
  {
    hide Encode, Valid, ValidAll, EncodeAll, SampleHash, SampleTbs, TbsCert.ToTlv, Signature.ToTlv, Signature.Pair,
      AllWellFormed;
    SampleWellFormed(serial, name, ca, point);
    var cert := SampleBytes(serial, name, ca, point);
    assert cert[0..|cert|] == cert;
  }

  lemma {:induction false} SampleNames(serial: byte, name: bytes, ca: bool, point: bytes)
    requires |name| < 100
    ensures var t := SampleTbs(serial, name, ca, point);
      Valid(t.issuer) && Valid(t.subject) && Contents(t.issuer) == ROOT_NAME && Contents(t.subject) == name
  {
    hide Encode, Valid, ValidAll, EncodeAll;
    var t := SampleTbs(serial, name, ca, point);
    PrimitiveValid(t.issuer);
    PrimitiveValid(t.subject);
    AlgoContents(t.issuer);
    AlgoContents(t.subject);
  }

  // ---------------------------------------------------------------- the run

  lemma {:induction false} SequenceOpens(der: bytes, ix: nat, t: Tlv)
    requires Valid(t) && t.Sequence? && At(der, ix, Encode(t))
    ensures ValidAll(t.children) && At(der, ix + HeaderLength(t.form), EncodeAll(t.children))
  {
    hide HeaderOctets, LengthOctets, At;
    ElementDecodes(der, ix, t);
  }

  /** The serial number tells two samples apart early on. */
  lemma {:induction false} SerialStands(serial: byte, name: bytes, ca: bool, point: bytes)
    requires |name| < 100 && |point| < 98
    ensures |SampleBytes(serial, name, ca, point)| >= 31 && SampleBytes(serial, name, ca, point)[15] == serial
  {
    hide Encode, Valid, ValidAll, EncodeAll, SampleHash, TbsCert.FromValidity, Signature.ToTlv, Signature.Pair,
      SampleTbs, TbsCert.VersionTlv, At, Certificate.WellFormed, SampleBytes, TbsCert.WellFormed;
    var c, cert := SampleCertificate(serial, name, ca, point), SampleBytes(serial, name, ca, point);
    SampleStands(serial, name, ca, point);
    SampleForms(serial, name, ca, point);
    SequenceOpens(cert, 0, c.ToTlv());
    var tbs := StepOver(cert, 4, c.tbs.ToTlv(), c.FromAlgo());
    SequenceOpens(cert, 4, c.tbs.ToTlv());
    var next := StepOver(cert, 8, c.tbs.VersionTlv(),
                         [c.tbs.serial] + ([c.tbs.algo] + ([c.tbs.issuer] + c.tbs.FromValidity())));
    VersionValid(c.tbs);
    ElementDecodes(cert, 8, c.tbs.VersionTlv());
    var after := StepOver(cert, next, c.tbs.serial, [c.tbs.algo] + ([c.tbs.issuer] + c.tbs.FromValidity()));
    AlgoContents(c.tbs.serial);
    AtByte(cert, 15, [serial], 0);
  }

  lemma SampleForms(serial: byte, name: bytes, ca: bool, point: bytes)
    ensures var c := SampleCertificate(serial, name, ca, point);
      && c.form == Long(2) && c.tbs.form == Long(2) && c.tbs.versionForm == Short && c.tbs.versionInner == Short
      && c.tbs.version == [2]
      && c.tbs.serial == Primitive(0x02, Short, [serial])
  {}

  function CaCert(): bytes { SampleBytes(1, CA_NAME, true, Zeros(97)) }

  function ClientCert(): bytes { SampleBytes(2, CLIENT_NAME, false, Zeros(97)) }

  function SampleCalls(): seq<Call> {
    [Call(CaCert(), true, SampleHash(ROOT), NOW), Call(ClientCert(), false, SampleHash(ROOT), NOW)]
  }

  lemma {:induction false} SampleHashes()
    ensures SampleHash(CaCert()) != SampleHash(ROOT) && SampleHash(ClientCert()) != SampleHash(ROOT)
    ensures SampleHash(CaCert()) != SampleHash(ClientCert())
  {
    hide SampleBytes, SampleHash;
    SerialStands(1, CA_NAME, true, Zeros(97));
    SerialStands(2, CLIENT_NAME, false, Zeros(97));
    ShortHash(ROOT, CaCert());
    ShortHash(ROOT, ClientCert());
    LongHash(CaCert(), ClientCert(), 15);
  }

  /** Both certificates of the sample run are stored by their calls. */
  lemma {:induction false} SampleRun()
    ensures SampleChain().Valid() && Stored(SampleChain(), SampleCalls(), 0) && Stored(SampleChain(), SampleCalls(), 1)
    ensures StoredFor(EntryOf(SampleChain(), SampleCalls(), 0), CA_NAME, true, Zeros(97))
    ensures StoredFor(EntryOf(SampleChain(), SampleCalls(), 1), CLIENT_NAME, false, Zeros(97))
  {
    hide SampleBytes, SampleHash, Serve, StoredFor;
    var chain, calls := SampleChain(), SampleCalls();
    SampleHashes();
    var s0 := InitialStore(chain);
    assert calls[..0] == [] && Run(chain, []) == s0;
    SampleServed(s0, 1, CA_NAME, true, Zeros(97), SampleHash(ROOT));
    assert calls[..1] == [calls[0]] && calls[..1][..0] == [];
    var s1 := Run(chain, calls[..1]);
    assert s1 == Step(chain, Run(chain, calls[..1][..0]), calls[0]);
    SampleServed(s1, 2, CLIENT_NAME, false, Zeros(97), SampleHash(ROOT));
  }

  // ---------------------------------------------------------------- what the samples show

  lemma {:induction false} WrongIssuer(serial: byte, name: bytes, ca: bool, point: bytes, other: VerifiedCert)
    requires |name| < 100 && |point| < 98 && other.subjectHash != SampleHash(ROOT_NAME)
    ensures VerifyFresh(SampleChain(), SampleBytes(serial, name, ca, point), ca, other, NOW).Revert?
  {
    hide Encode, Valid, ValidAll, EncodeAll, SampleHash, SampleTbs, TbsCert.WellFormed, Signature.WellFormed,
      KeyInPlace, KeyOctets, Accepted, SignatureReturns, Certificate.WellFormed, SampleSignature, Signature.ToTlv,
      VerifyFresh, SampleBytes;
    SampleStands(serial, name, ca, point);
    SampleNames(serial, name, ca, point);
    var keyEnd := CertificateVerifies(SampleChain(), SampleBytes(serial, name, ca, point),
                                      SampleCertificate(serial, name, ca, point), ca, other, NOW);
  }

  /**
   The cache answers for a parent that a verification without it refuses: the client certificate of the root, called for
   under the other CA.
   */
  lemma {:induction false} CacheDisagrees()
    ensures var chain, s := SampleChain(), Run(SampleChain(), SampleCalls());
      var call := Call(ClientCert(), false, SampleHash(CaCert()), NOW);
      && Serve(chain, s, call).Ok?
      && VerifyUncached(chain, call.cert, chain.keccak(call.cert), call.ca, Load(s, call.parentHash), call.now).Revert?
  {
    hide SampleBytes, SampleHash, VerifyFresh, StoredFor, SampleCalls, Run, EntryOf;
    var chain, calls := SampleChain(), SampleCalls();
    SampleRun();
    SampleCallsAre();
    SampleHashes();
    StoredFacts(chain, calls, 0);
    StoredFacts(chain, calls, 1);
    StoredFields(EntryOf(chain, calls, 0), CA_NAME, true, Zeros(97));
    StoredFields(EntryOf(chain, calls, 1), CLIENT_NAME, false, Zeros(97));
    ShortHash(CA_NAME, ROOT_NAME);
    WrongIssuer(2, CLIENT_NAME, false, Zeros(97), EntryOf(chain, calls, 0));
  }

  lemma StoredFields(entry: VerifiedCert, name: bytes, ca: bool, point: bytes)
    requires StoredFor(entry, name, ca, point)
    ensures entry.ca == ca && entry.notAfter == 2524607999 && entry.maxPathLen == -1
    ensures entry.subjectHash == SampleHash(name) && |entry.pubKey| == 96
  {
    hide SampleHash;
  }

  lemma SampleCallsAre()
    ensures |SampleCalls()| == 2
    ensures SampleCalls()[0] == Call(CaCert(), true, SampleHash(ROOT), NOW)
    ensures SampleCalls()[1] == Call(ClientCert(), false, SampleHash(ROOT), NOW)
  {
    hide SampleBytes, SampleHash;
  }

  /**
   A certificate whose key is a point of 20 octets is accepted, and stored with a key of 96 octets that are not its
   own: those 20 end it.
   */
  lemma {:induction false} ShortKeyStored()
    ensures var point := [4] + Zeros(19);
      var call := Call(SampleBytes(1, CA_NAME, true, point), true, SampleHash(ROOT), NOW);
      var r := Serve(SampleChain(), InitialStore(SampleChain()), call);
      && SampleTbs(1, CA_NAME, true, point).keyInfo.Point() == point && |point| == 20
      && r.Ok? && |r.value.cert.pubKey| == 96 && r.value.cert.pubKey[76..] == point
      && SampleHash(call.cert) in r.value.store && r.value.store[SampleHash(call.cert)] == r.value.cert
  {
    hide SampleBytes, SampleHash, Serve, SampleTbs;
    var point := [4] + Zeros(19);
    SerialStands(1, CA_NAME, true, point);
    ShortHash(ROOT, SampleBytes(1, CA_NAME, true, point));
    SamplePoint(1, CA_NAME, true, point);
    SampleServed(InitialStore(SampleChain()), 1, CA_NAME, true, point, SampleHash(ROOT));
  }

  /** One second after the root has expired it issues nothing any more, though its client would be valid. */
  lemma {:induction false} ExpiredRootRefused()
    ensures var expired := Call(ClientCert(), false, SampleHash(ROOT), 2519044086);
      && SampleHash(ClientCert()) !in InitialStore(SampleChain()) && 2519044086 < 2524607999
      && Serve(SampleChain(), InitialStore(SampleChain()), expired).Revert?
  {
    hide SampleBytes, SampleHash, VerifyFresh;
    SampleHashes();
    assert Run(SampleChain(), []) == InitialStore(SampleChain());
    UnstoredIsServed(SampleChain(), [], Call(ClientCert(), false, SampleHash(ROOT), 2519044086));
  }
}
