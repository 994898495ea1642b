/**
 The certificate parser (CertParser.sol; the same code stands inline in CertManager.sol:116-271).
 `keccak` is the hash of the chain; nothing is assumed about it here.
 */
module CertParser {
  import opened Basics
  import opened LibBytes
  import opened Asn1Decode

  type Hash = bytes -> Bytes32

  const SHA384_WITH_ECDSA: bytes := [0x06, 0x08, 0x2a, 0x86, 0x48, 0xce, 0x3d, 0x04, 0x03, 0x03]
  const EC_PUBLIC_KEY: bytes := [0x2a, 0x86, 0x48, 0xce, 0x3d, 0x02, 0x01]
  const SECP_384_R1: bytes := [0x2b, 0x81, 0x04, 0x00, 0x22]
  const BASIC_CONSTRAINTS: bytes := [0x55, 0x1d, 0x13]
  const KEY_USAGE: bytes := [0x55, 0x1d, 0x0f]

  /** `certificate.keccak(ptr.content(), ptr.length())`. */
  function ContentHash(keccak: Hash, cert: bytes, ptr: Asn1Ptr): Result<Bytes32> {
    var content :- Slice(cert, ptr.content, ptr.length);
    Ok(keccak(content))
  }

  function HeaderByte(cert: bytes, ptr: Asn1Ptr): Result<byte> { ByteAt(cert, ptr.header) }

  // ---------------------------------------------------------------- extensions

  /** `int64(uint64(n))`. */
  function Int64OfUint(n: nat): int {
    var low := n % TWO_64;
    if low < TWO_63 then low else low - TWO_64
  }

  function VerifyBasicConstraints(cert: bytes, valuePtr: Asn1Ptr, ca: bool): Result<int> {
    var ptr :- FirstChildOf(cert, valuePtr);
    var (isCA, ptr') :- if cert[ptr.header] == 0x01 then ReadCaFlag(cert, ptr) else Ok((false, ptr));
    :- Require(ca == isCA);
    ReadPathLen(cert, ptr')
  }

  /** The pathLenConstraint, if the node at hand is an INTEGER. */
  function ReadPathLen(cert: bytes, ptr: Asn1Ptr): Result<int>
    requires ptr.header < |cert|
  {
    if cert[ptr.header] == 0x02 then
      var pathLen :- UintAt(cert, ptr);
      Ok(Int64OfUint(pathLen))
    else Ok(-1)
  }

  /** The optional cA BOOLEAN and the node read after it. */
  function ReadCaFlag(cert: bytes, ptr: Asn1Ptr): (r: Result<(bool, Asn1Ptr)>)
    ensures r.Ok? ==> r.value.1.header < |cert|
  {
    var value :- ByteAt(cert, ptr.content);
    :- Require(ptr.length == 1);
    var next :- NextSiblingOf(cert, ptr);
    Ok((value == 0xff, next))
  }

  /** The named bit of a KeyUsage string, tested on the number `value` as the contract tests it. */
  predicate UsageBit(value: nat, ca: bool) {
    if ca then value / 0x04 % 2 == 1 else value / 0x80 % 2 == 1
  }

  function VerifyKeyUsage(cert: bytes, valuePtr: Asn1Ptr, ca: bool): Outcome {
    match BitStringUintAt(cert, valuePtr)
    case Revert => Fail
    case Ok(value) => Require(UsageBit(value, ca))
  }

  /** The running results of the extension loop. */
  datatype Found = Found(basicConstraints: bool, keyUsage: bool, maxPathLen: int)

  /** The inner value node: skips the optional critical flag and opens the OCTET STRING. */
  function ExtensionValue(cert: bytes, oidPtr: Asn1Ptr): Result<Asn1Ptr> {
    var valuePtr :- NextSiblingOf(cert, oidPtr);
    if cert[valuePtr.header] == 0x01 then
      :- Require(valuePtr.length == 1);
      var octets :- NextSiblingOf(cert, valuePtr);
      OctetString(cert, octets)
    else
      OctetString(cert, valuePtr)
  }

  /** One pass of the loop body over the extension at `ptr`. */
  function VerifyExtension(keccak: Hash, cert: bytes, ptr: Asn1Ptr, ca: bool, found: Found): Result<Found> {
    var oidPtr :- FirstChildOf(cert, ptr);
    var oid :- ContentHash(keccak, cert, oidPtr);
    if oid == keccak(BASIC_CONSTRAINTS) then
      var valuePtr :- ExtensionValue(cert, oidPtr);
      var maxPathLen :- VerifyBasicConstraints(cert, valuePtr, ca);
      Ok(Found(true, found.keyUsage, maxPathLen))
    else if oid == keccak(KEY_USAGE) then
      var valuePtr :- ExtensionValue(cert, oidPtr);
      :- VerifyKeyUsage(cert, valuePtr, ca);
      Ok(found.(keyUsage := true))
    else
      Ok(found)
  }

  /** The loop from the extension at `ptr` on: every step moves the header by at least two bytes. */
  function ExtensionLoop(keccak: Hash, cert: bytes, ptr: Asn1Ptr, end: nat, ca: bool, found: Found): Result<Found>
    requires ptr.header < ptr.content && ptr.header < |cert|
    decreases |cert| - ptr.header
  {
    var found' :- VerifyExtension(keccak, cert, ptr, ca, found);
    if ptr.End() == end then Ok(found')
    else
      var next :- NextSiblingOf(cert, ptr);
      ExtensionLoop(keccak, cert, next, end, ca, found')
  }

  const NOTHING_FOUND := Found(false, false, -1)

  function FinishExtensions(found: Found, ca: bool): Result<int> {
    if found.basicConstraints && found.keyUsage && (ca || found.maxPathLen == -1) then Ok(found.maxPathLen)
    else Revert
  }

  function VerifyExtensions(keccak: Hash, cert: bytes, extensionsPtr: Asn1Ptr, ca: bool): Result<int> {
    var tag :- HeaderByte(cert, extensionsPtr);
    :- Require(tag == 0xa3);
    var list :- FirstChildOf(cert, extensionsPtr);
    var first :- FirstChildOf(cert, list);
    var found :- ExtensionLoop(keccak, cert, first, list.End(), ca, NOTHING_FOUND);
    FinishExtensions(found, ca)
  }

  /** `verifyExtensions` with its loop over `extensionPtr`, the two flags and `maxPathLen`. */
  method RunVerifyExtensions(keccak: Hash, cert: bytes, extensionsPtr0: Asn1Ptr, ca: bool) returns (r: Result<int>)
    ensures r == VerifyExtensions(keccak, cert, extensionsPtr0, ca)
  {
    var tag :- HeaderByte(cert, extensionsPtr0);
    :- Require(tag == 0xa3);
    var extensionsPtr :- FirstChildOf(cert, extensionsPtr0);
    var extensionPtr :- FirstChildOf(cert, extensionsPtr);
    var end := extensionsPtr.End();
    var basicConstraintsFound, keyUsageFound, maxPathLen := false, false, -1;
    ghost var expected := ExtensionLoop(keccak, cert, extensionPtr, end, ca, NOTHING_FOUND);
    while true
      invariant extensionPtr.header < extensionPtr.content && extensionPtr.header < |cert|
      invariant expected == ExtensionLoop(keccak, cert, extensionPtr, end, ca,
                                          Found(basicConstraintsFound, keyUsageFound, maxPathLen))
      decreases |cert| - extensionPtr.header
    {
      var oidPtr :- FirstChildOf(cert, extensionPtr);
      var oid :- ContentHash(keccak, cert, oidPtr);
      if oid == keccak(BASIC_CONSTRAINTS) || oid == keccak(KEY_USAGE) {
        var valuePtr :- ExtensionValue(cert, oidPtr);
        if oid == keccak(BASIC_CONSTRAINTS) {
          basicConstraintsFound := true;
          maxPathLen :- VerifyBasicConstraints(cert, valuePtr, ca);
        } else {
          keyUsageFound := true;
          :- VerifyKeyUsage(cert, valuePtr, ca);
        }
      }
      if extensionPtr.End() == end {
        break;
      }
      extensionPtr :- NextSiblingOf(cert, extensionPtr);
    }
    :- Require(basicConstraintsFound);
    :- Require(keyUsageFound);
    :- Require(ca || maxPathLen == -1);
    r := Ok(maxPathLen);
  }

  // ---------------------------------------------------------------- validity, key, TBS

  datatype Validity = Validity(notBefore: nat, notAfter: nat)

  function ReadValidity(cert: bytes, validityPtr: Asn1Ptr): Result<Validity> {
    var notBeforePtr :- FirstChildOf(cert, validityPtr);
    var notAfterPtr :- NextSiblingOf(cert, notBeforePtr);
    var notBefore :- TimestampAt(cert, notBeforePtr);
    var notAfter :- TimestampAt(cert, notAfterPtr);
    Ok(Validity(notBefore, notAfter % TWO_64))
  }

  function VerifyValidity(cert: bytes, validityPtr: Asn1Ptr, now: nat): Result<nat> {
    var v :- ReadValidity(cert, validityPtr);
    :- Require(v.notBefore <= now);
    :- Require(v.notAfter >= now);
    Ok(v.notAfter)
  }

  function ParsePubKey(keccak: Hash, cert: bytes, infoPtr: Asn1Ptr): Result<bytes> {
    var algoPtr :- FirstChildOf(cert, infoPtr);
    var algoIdPtr :- FirstChildOf(cert, algoPtr);
    var paramsPtr :- NextSiblingOf(cert, algoIdPtr);
    var bitsPtr :- NextSiblingOf(cert, algoPtr);
    var keyPtr :- BitString(cert, bitsPtr);
    var algoId :- ContentHash(keccak, cert, algoIdPtr);
    :- Require(algoId == keccak(EC_PUBLIC_KEY));
    var params :- ContentHash(keccak, cert, paramsPtr);
    :- Require(params == keccak(SECP_384_R1));
    :- Require(keyPtr.End() >= 96);
    Slice(cert, keyPtr.End() - 96, 96)
  }

  /** Skips an optional node with the given tag. */
  function SkipOptional(cert: bytes, ptr: Asn1Ptr, tag: byte): Result<Asn1Ptr> {
    var t :- HeaderByte(cert, ptr);
    if t == tag then NextSiblingOf(cert, ptr) else Ok(ptr)
  }

  /** The nodes of the TBS certificate that the parser reads. */
  datatype TbsNodes = TbsNodes(issuer: Asn1Ptr, validity: Asn1Ptr, subject: Asn1Ptr, keyInfo: Asn1Ptr,
                               extensions: Asn1Ptr)

  /** Version and algorithm checks, then the walk over the TBS fields. */
  function FindTbsNodes(keccak: Hash, cert: bytes, tbs: Asn1Ptr): Result<TbsNodes> {
    var versionPtr :- FirstChildOf(cert, tbs);
    var vPtr :- FirstChildOf(cert, versionPtr);
    var serialPtr :- NextSiblingOf(cert, versionPtr);
    var sigAlgoPtr :- NextSiblingOf(cert, serialPtr);
    var algo :- ContentHash(keccak, cert, sigAlgoPtr);
    :- Require(algo == keccak(SHA384_WITH_ECDSA));
    var version :- UintAt(cert, vPtr);
    :- Require(version == 2);
    var issuer :- NextSiblingOf(cert, sigAlgoPtr);
    var validity :- NextSiblingOf(cert, issuer);
    var subject :- NextSiblingOf(cert, validity);
    var keyInfo :- NextSiblingOf(cert, subject);
    var after :- NextSiblingOf(cert, keyInfo);
    var after1 :- SkipOptional(cert, after, 0x81);
    var extensions :- SkipOptional(cert, after1, 0x82);
    Ok(TbsNodes(issuer, validity, subject, keyInfo, extensions))
  }

  /** What `parseTbs` returns. */
  datatype Tbs = Tbs(notAfter: nat, maxPathLen: int, issuerHash: Bytes32, subjectHash: Bytes32, pubKey: bytes)

  function ParseTbs(keccak: Hash, cert: bytes, tbs: Asn1Ptr, ca: bool, now: nat): Result<Tbs> {
    var nodes :- FindTbsNodes(keccak, cert, tbs);
    var issuerHash :- ContentHash(keccak, cert, nodes.issuer);
    var subjectHash :- ContentHash(keccak, cert, nodes.subject);
    var notAfter :- VerifyValidity(cert, nodes.validity, now);
    var maxPathLen :- VerifyExtensions(keccak, cert, nodes.extensions, ca);
    var pubKey :- ParsePubKey(keccak, cert, nodes.keyInfo);
    Ok(Tbs(notAfter, maxPathLen, issuerHash, subjectHash, pubKey))
  }

  // ---------------------------------------------------------------- how the parse depends on role and time

  /**
   The path length stored fits an int64, and equals the INTEGER of the certificate exactly when that is below 2^63.
   */
  lemma Int64OfUintExact(n: nat)
    ensures Int64(Int64OfUint(n))
    ensures Int64OfUint(n) == n <==> n < TWO_63
    ensures Int64OfUint(TWO_63) == -TWO_63
  {}

  /** A basicConstraints accepted for one role is refused for the other. */
  lemma BasicConstraintsFixesRole(cert: bytes, valuePtr: Asn1Ptr, ca: bool)
    requires VerifyBasicConstraints(cert, valuePtr, ca).Ok?
    ensures VerifyBasicConstraints(cert, valuePtr, !ca).Revert?
  {}

  lemma {:induction false} LoopFixesRole(keccak: Hash, cert: bytes, ptr: Asn1Ptr, end: nat, ca: bool, found: Found,
                                         other: Found)
    requires ptr.header < ptr.content && ptr.header < |cert| && !found.basicConstraints
    requires var r := ExtensionLoop(keccak, cert, ptr, end, ca, found); r.Ok? && r.value.basicConstraints
    ensures ExtensionLoop(keccak, cert, ptr, end, !ca, other).Revert?
    decreases |cert| - ptr.header
  {
    var found' := VerifyExtension(keccak, cert, ptr, ca, found).value;
    var other' := VerifyExtension(keccak, cert, ptr, !ca, other);
    if other'.Ok? && ptr.End() != end && !found'.basicConstraints {
      LoopFixesRole(keccak, cert, NextSiblingOf(cert, ptr).value, end, ca, found', other'.value);
    }
  }

  /** A certificate parses in at most one role: CA or client. */
  lemma ParseFixesRole(keccak: Hash, cert: bytes, tbs: Asn1Ptr, ca: bool, now: nat, now': nat)
    requires ParseTbs(keccak, cert, tbs, ca, now).Ok?
    ensures ParseTbs(keccak, cert, tbs, !ca, now').Revert?
  {
    var extensions := FindTbsNodes(keccak, cert, tbs).value.extensions;
    ExtensionsFixRole(keccak, cert, extensions, ca);
  }

  lemma ExtensionsFixRole(keccak: Hash, cert: bytes, extensions: Asn1Ptr, ca: bool)
    requires VerifyExtensions(keccak, cert, extensions, ca).Ok?
    ensures VerifyExtensions(keccak, cert, extensions, !ca).Revert?
  {
    var list := FirstChildOf(cert, extensions).value;
    LoopFixesRole(keccak, cert, FirstChildOf(cert, list).value, list.End(), ca, NOTHING_FOUND, NOTHING_FOUND);
  }

  /** Time enters the parse only through the validity window. */
  lemma ParseAtOtherTime(keccak: Hash, cert: bytes, tbs: Asn1Ptr, ca: bool, now: nat, now': nat)
    requires ParseTbs(keccak, cert, tbs, ca, now).Ok?
    ensures var v := ReadValidity(cert, FindTbsNodes(keccak, cert, tbs).value.validity).value;
      && v.notBefore <= now <= v.notAfter == ParseTbs(keccak, cert, tbs, ca, now).value.notAfter
      && ParseTbs(keccak, cert, tbs, ca, now') ==
         if v.notBefore <= now' <= v.notAfter then ParseTbs(keccak, cert, tbs, ca, now) else Revert
  {}

  predicate Int64(n: int) { -TWO_63 <= n < TWO_63 }

  /** Keys are 96 bytes, timestamps uint64, path lengths int64, and a client carries no path length. */
  ghost predicate InRange(t: Tbs, ca: bool) {
    |t.pubKey| == 96 && t.notAfter < TWO_64 && Int64(t.maxPathLen) && (!ca ==> t.maxPathLen == -1)
  }

  lemma ParsedInRange(keccak: Hash, cert: bytes, tbs: Asn1Ptr, ca: bool, now: nat, t: Tbs)
    requires ParseTbs(keccak, cert, tbs, ca, now) == Ok(t)
    ensures InRange(t, ca)
  {
    var nodes := FindTbsNodes(keccak, cert, tbs).value;
    PartsInRange(keccak, cert, nodes, ca, now, t);
  }

  lemma PartsInRange(keccak: Hash, cert: bytes, nodes: TbsNodes, ca: bool, now: nat, t: Tbs)
    requires VerifyExtensions(keccak, cert, nodes.extensions, ca) == Ok(t.maxPathLen)
    requires VerifyValidity(cert, nodes.validity, now) == Ok(t.notAfter)
    requires ParsePubKey(keccak, cert, nodes.keyInfo) == Ok(t.pubKey)
    ensures InRange(t, ca)
  {
    ExtensionsInRange(keccak, cert, nodes.extensions, ca);
    PubKeyLength(keccak, cert, nodes.keyInfo);
  }

  lemma PubKeyLength(keccak: Hash, cert: bytes, infoPtr: Asn1Ptr)
    ensures var r := ParsePubKey(keccak, cert, infoPtr); r.Ok? ==> |r.value| == 96
  {}

  lemma ExtensionsInRange(keccak: Hash, cert: bytes, extensions: Asn1Ptr, ca: bool)
    ensures var r := VerifyExtensions(keccak, cert, extensions, ca);
            r.Ok? ==> Int64(r.value) && (!ca ==> r.value == -1)
  {
    if VerifyExtensions(keccak, cert, extensions, ca).Ok? {
      var list := FirstChildOf(cert, extensions).value;
      LoopPathLenRange(keccak, cert, FirstChildOf(cert, list).value, list.End(), ca, NOTHING_FOUND);
    }
  }

  lemma ExtensionPathLenRange(keccak: Hash, cert: bytes, ptr: Asn1Ptr, ca: bool, found: Found)
    requires Int64(found.maxPathLen)
    ensures var r := VerifyExtension(keccak, cert, ptr, ca, found); r.Ok? ==> Int64(r.value.maxPathLen)
  {
    hide FirstChildOf, ContentHash, ExtensionValue, NextSiblingOf, UintAt;
  }

  lemma {:induction false} LoopPathLenRange(keccak: Hash, cert: bytes, ptr: Asn1Ptr, end: nat, ca: bool, found: Found)
    requires ptr.header < ptr.content && ptr.header < |cert| && Int64(found.maxPathLen)
    ensures var r := ExtensionLoop(keccak, cert, ptr, end, ca, found); r.Ok? ==> Int64(r.value.maxPathLen)
    decreases |cert| - ptr.header
  {
    hide VerifyExtension;
    ExtensionPathLenRange(keccak, cert, ptr, ca, found);
    var found' := VerifyExtension(keccak, cert, ptr, ca, found);
    if found'.Ok? && ptr.End() != end && NextSiblingOf(cert, ptr).Ok? {
      LoopPathLenRange(keccak, cert, NextSiblingOf(cert, ptr).value, end, ca, found'.value);
    }
  }
}
