# A verified model of the DKIM oracle contracts

The contracts under `dkim-oracle/contracts` take a TEE attestation apart by hand: a COSE envelope, a CBOR
document, DER certificates, a SHA-384 over the signed bytes, a store of verified certificates, and a
registry of DKIM keys fed by a Go producer. This project models those contracts in Dafny and proves what their
parsers, loops and stores do for all inputs, every run of calls, and every reachable store.

Check everything with `dafny verify dfyconfig.toml` (Dafny 4.11).

## How the model is built

- A call returns `Result`: a value, or `Revert`. A revert leaves every piece of state as it was. The 0.8
  checked arithmetic is kept, including products and shift amounts in `uint8`.
- Code made of expressions (node navigation, element heads, field casts) is a set of functions. Code that works step
  by step is a method with the same loops, over arrays where the contracts fill arrays, proved equal to a
  specification function. `CertManager`, `CertStorage`, `CertManagerReduced` and `DKIMRegistry` are classes.
- Memory copies act on one byte array with `mload` and `mstore` of 32-byte words; an array of enough bytes stands for the
  memory that the EVM extends on demand.
- Packed words are modelled twice: as records, which the parsers use, and as numbers built with shifts and
  bitwise or, with a lemma that every accessor reads back its field.
- `keccak256`, SHA-384 inside the certificate code, the root's hashes and key, and "the ECDSA call returns" are
  parameters. Hash properties are assumed only where a statement lists them: the nine key names
  have distinct hashes, the certificates of one run do not collide, none of them hashes to zero, and the first 18 signed
  bytes of an attestation do not merely hash like the expected ones.
- Encoders (DER trees, timestamps, extensions, CBOR heads, attestation documents, COSE envelopes, text maps) are
  independent specifications written from X.690, RFC 5280, RFC 8949 and RFC 9052; the theorems say that the contracts'
  parsers invert them.

| file | content |
|---|---|
| `Basics`, `Bits` | results, big-endian numbers, bitwise or/and/not on numbers |
| `LibBytes` | `memcpy`, `slice`, masked word reads |
| `Asn1Decode`, `Der` | DER nodes, and navigation against an encoder |
| `NodeReaders`, `ObjectIdentifiers` | the readers on any encoded element; the compared object identifiers from their arcs |
| `Calendar`, `Timestamps` | the day formula, UTCTime and GeneralizedTime |
| `CertParser`, `Extensions` | certificate parsing, and the extension loop against encoded extensions |
| `Certificates` | whole encoded certificates: parsing, the signature step, being stored |
| `VerifiedCerts`, `CertChain`, `CertManager`, `CertManagerReduced` | stored forms, the store as a state machine, its two deployments |
| `CertProperties`, `CertBundle` | what every reachable store keeps; whole bundles |
| `Sha2Functions`, `Sha2Constants` | the words of SHA-2, bit by bit and as numbers; the constants as roots of primes |
| `Sha2Ext`, `Sha2Standard` | SHA-384 and SHA-512, and what their specification says step by step |
| `CborDecode`, `Cose`, `UserData` | element heads, the envelope and its Sig_structure, cutting out user data |
| `Attestation`, `DocumentKeys`, `AttestationCoding`, `AttestationFacts`, `AttestationTiles`, `Validation` | the document parser, its keys as texts, documents encoded in any order, what parsing means on arbitrary bytes, the validation checks |
| `Registry`, `RegistryProperties` | the key registry, and runs of stores |
| `Flattening`, `TextMaps` | the Go producer: flat keys, and the text map it marshals |
| `EndToEnd`, `Documents`, `Overruns` | storing from attestations of whatever bytes, from encoded documents, and from documents whose last entry is cut off |
| `Interleaving` | runs over both contracts |
| `SampleCertificates`, `SampleAttestations` | a small concrete world in which the failing cases occur |

## What the proofs found

Each of these is a place where the code differs from the standard it implements or from its own comments. The model
follows the code; a lemma gives the exact condition, and where that is not plain another one an input that shows it.

- A GeneralizedTime is read only when its second year digit is 0, 1 or 2, as `100 * digit` is computed in `uint8`; the value
  99991231235959Z for certificates without expiry is among the refused ones
  (`Timestamps.GeneralizedTimeDecodes`, `Timestamps.NoExpiryRefused`).
- Days up to 31 pass for every month, and a date that does not exist is taken for a day of the next month
  (`Calendar.NonDatesAlias`, `Calendar.NonDateInstance`).
- A signature half whose magnitude has fewer than 48 octets is packed wrongly unless its first 16 are zero
  (`Asn1Decode.Packed384IsExact`, `Asn1Decode.ShortMagnitudeMispacked`).
- The length of the public key is not checked: for a point of fewer than 96 octets, other bytes of the certificate are stored
  with it (`Certificates.KeyIsOwn`, `SampleCertificates.ShortKeyStored`).
- The key usage test looks at the last octet of the BIT STRING, where RFC 5280 means the first
  (`Extensions.KeyUsageTestsLastOctet`, `Extensions.TwoOctetKeyUsageFails`).
- A pathLenConstraint of 2^63 or more wraps to another number (`Extensions.PathLenKept`, `Extensions.WidePathLenWraps`).
- The cache answers for any accepted parent, also for one that could not have issued the certificate
  (`CertProperties.CacheExact`, `SampleCertificates.CacheDisagrees`).
- The SHA-2 padding keeps 64 bits of the bit length, which is FIPS 180-4 exactly below 2^61 bytes (`Sha2Ext.StreamIsPadded`).
- The entry loop of the attestation stops at or past the payload's end, so that a last entry may run past it
  (`AttestationTiles.ParsedTiles`, `AttestationTiles.OverrunParses`). User data are never cut out of the signed bytes, so
  with such an entry an attestation still validates, and bytes that nobody signed are stored
  (`EndToEnd.OverrunStored`, `Overruns.CutValidates`, `Overruns.CutStored`, `SampleAttestations.UnsignedKeyStored`).
- The "11-byte offset bug" that `_extractBytes` works around is the distance between the Sig_structure and the
  envelope. It is eleven only for untagged envelopes with a one-byte empty map, and the workaround takes effect only for
  maps with one entry: attestations with two or more keys, and tagged ones, are cut at the wrong place, and ASCII maps
  that reach the byte read first never store (`Cose.ShiftIsEleven`, `UserData.ExtractionExact`,
  `EndToEnd.OnlyOneKeyExtracted`, `EndToEnd.LateMapReverts`, `SampleAttestations.MisreadInstances`).
- A document without a `public_key` entry is refused, while one with a null entry is accepted; a document without a
  `user_data` entry can validate, but storing from it reverts
  (`Validation.ShapeOfDocument`, `Documents.AbsentUserDataReverts`, `SampleAttestations.NoUserDataInstance`).
- A key that is offered empty is listed without being stored, so a pair can be listed several times
  (`RegistryProperties.ListedOnce`, `SampleAttestations.ListedTwice`).
- With ';' in a domain, two DKIM entries can flatten to the same key, and one of two different keys is lost
  (`Flattening.CollidesExactly`, `Flattening.NoKeyLost`, `Flattening.CollisionLosesKey`).

## Model

| member | source | states |
|---|---|---|
| LibBytes.MemCpy | dkim-oracle/contracts/LibBytes.sol:54-73 | for every length and for regions that a forward copy can handle, exactly `len` bytes of the target become the original source bytes and no other byte of memory changes |
| LibBytes.CopyTail | dkim-oracle/contracts/LibBytes.sol:64-72 | the masked store of the last partial word copies its 0 to 31 bytes and leaves the rest of that word alone |
| LibBytes.MaskedMerge | dkim-oracle/contracts/LibBytes.sol:64-72 | the or of the two masked words is the word made of `len` source bytes and the target's own remaining bytes |
| LibBytes.SliceInMemory | dkim-oracle/contracts/LibBytes.sol:12-25 | a slice in range is a fresh `bytes` value with exactly the requested content; out of range reverts; memory allocated before is untouched |
| LibBytes.MaskedReadIsBigEndian | dkim-oracle/contracts/Asn1Decode.sol:233-240 | masking one word and shifting it right gives the big-endian value of the requested 0 to 32 bytes, whatever follows them in memory (at 0 the mask relies on wrap-around) |
| LibBytes.LeadingBytesAreBigEndian | dkim-oracle/contracts/LibBytes.sol:27-52 | the leading bytes of a loaded word are the big-endian number written there, for the three reads of 2, 4 and 8 bytes |
| Asn1Decode.PackedNodeFields | dkim-oracle/contracts/Asn1Decode.sol:33-61 | header, content and length of any node read from fewer than 2^61 bytes survive packing into one word |
| Asn1Decode.LongFormLengthIsBigEndian | dkim-oracle/contracts/Asn1Decode.sol:218-229 | the three long-form branches agree: 1 to 32 octets with a value below 2^64 are that value, anything else reverts |
| Asn1Decode.Uint384AtSplitsMagnitude | dkim-oracle/contracts/Asn1Decode.sol:159-172 | exactly the positive INTEGERs with 16 to 48 magnitude octets are accepted, and hi and lo recombine to the number |
| Asn1Decode.Packed384IsExact | dkim-oracle/contracts/CertManager.sol:273-289 | the 48 octets packed for a signature half denote the INTEGER if and only if it has 48 magnitude octets or its first 16 are zero |
| Asn1Decode.ShortMagnitudeMispacked | dkim-oracle/contracts/CertManager.sol:273-289 | an accepted INTEGER of 47 magnitude octets that is passed on as another number |
| Asn1Decode.ReadTimestamp | dkim-oracle/contracts/Asn1Decode.sol:180-209 | the digit loop with its moving offset and century computes the specification function that the two timestamp theorems are about |
| NodeReaders.FirstChildOfElement | dkim-oracle/contracts/Asn1Decode.sol:99-102 | of any encoded element, exactly the constructed ones, with bit 6 of the tag set, have children |
| NodeReaders.BitStringOfElement | dkim-oracle/contracts/Asn1Decode.sol:110-116 | exactly a BIT STRING without unused bits is opened, behind its first octet |
| NodeReaders.BitStringUintOfElement | dkim-oracle/contracts/Asn1Decode.sol:123-130 | exactly a BIT STRING of up to 32 octets is read, as their big-endian number |
| NodeReaders.OctetStringOfElement | dkim-oracle/contracts/Asn1Decode.sol:135-139 | exactly an OCTET STRING is opened |
| NodeReaders.UintOfElement | dkim-oracle/contracts/Asn1Decode.sol:146-153 | exactly a non-negative INTEGER of up to 32 octets is read, as its number |
| Der.HeaderDecodes | dkim-oracle/contracts/Asn1Decode.sol:211-231 | a one-byte tag with a definite length in any permitted form, minimal or not, is read back (section 8.1.3 of X.690) |
| Der.DecodedHeaderIsEncoding | dkim-oracle/contracts/Asn1Decode.sol:211-231 | conversely every accepted header is the encoding of its tag and length in some permitted form |
| Der.IndefiniteLengthReverts | dkim-oracle/contracts/Asn1Decode.sol:218-229 | the length octet 0x80 is always refused, through the overflow of a `uint8` shift amount |
| Der.ChildDecodes | dkim-oracle/contracts/Asn1Decode.sol:89-102 | first child, then k siblings, lands on child k, which ends where child k+1 starts |
| Der.LastChildEndsParent | dkim-oracle/contracts/Asn1Decode.sol:89-102 | the last child ends where its parent ends |
| Der.NavigationInvertsEncoding | dkim-oracle/contracts/Asn1Decode.sol:69-102 | from the root of any encoded tree, any path of child indices reaches a node that delimits exactly the subtree's encoding and contents |
| Calendar.DayNumberCounts | dkim-oracle/contracts/Asn1Decode.sol:246-270 | the Julian-day formula with truncating divisions equals a recursive count of days with leap years since 1970-01-01 |
| Calendar.TimestampIsUnixTime | dkim-oracle/contracts/Asn1Decode.sol:246-270 | for every real Gregorian date from 1970 on, the timestamp is the Unix time |
| Calendar.AcceptedExactlyInRange | dkim-oracle/contracts/Asn1Decode.sol:246-270 | the conversion reverts exactly on the range checks of its six components |
| Calendar.UnixTimeOrder | dkim-oracle/contracts/Asn1Decode.sol:246-270 | timestamps of real dates are strictly monotone, hence injective |
| Calendar.NonDatesAlias | dkim-oracle/contracts/Asn1Decode.sol:246-270 | every accepted date, existing or not, gets the Unix time of the date its day count reaches: it exists if and only if its day lies in its month, and otherwise, never in December, it is taken for a day of the next month |
| Calendar.DateTimeIsRead | dkim-oracle/contracts/Asn1Decode.sol:246-270 | on all inputs the conversion is that Unix time, or a revert outside the range checks |
| Calendar.NonDateInstance | dkim-oracle/contracts/Asn1Decode.sol:246-270 | 29 February 2023 does not exist and gets the Unix time of 1 March |
| Timestamps.UtcTimeDecodes | dkim-oracle/contracts/Asn1Decode.sol:180-209 | every UTCTime, of whatever twelve digits, is read as the Unix time its date counts to, and reverts exactly outside the range checks (section 4.1.2.5.1 of RFC 5280) |
| Timestamps.GeneralizedTimeDecodes | dkim-oracle/contracts/Asn1Decode.sol:180-209 | a GeneralizedTime of whatever fourteen digits is read likewise when its second year digit is at most 2, and always reverts otherwise |
| Timestamps.AcceptedIsTime | dkim-oracle/contracts/Asn1Decode.sol:180-209 | conversely whatever bytes are accepted are the UTCTime or GeneralizedTime of some date |
| Timestamps.TimestampOfDate | dkim-oracle/contracts/Asn1Decode.sol:180-209 | for a date written in either form, `timestampAt` returns its own Unix time if it exists and is from 1970 on, that of a day 1 to 3 of the next month if it does not exist but passes the range checks, and reverts otherwise |
| Timestamps.TimestampsInOrder | dkim-oracle/contracts/Asn1Decode.sol:180-209 | two existing dates, in whichever forms, give timestamps in the order of the dates, equal only for equal dates |
| Timestamps.NoExpiryRefused | dkim-oracle/contracts/Asn1Decode.sol:192-199 | the real date 99991231235959Z, which marks certificates without expiry, is refused |
| Timestamps.TimestampFits | dkim-oracle/contracts/CertParser.sol:88-97 | the cast of a timestamp to `uint64` loses nothing |
| ObjectIdentifiers.KeyAndSignature | dkim-oracle/contracts/CertManager.sol:36-39 | the bytes whose hashes are compared are id-ecPublicKey and ecdsa-with-SHA384, encoded from their arcs as section 8.19 of X.690 says |
| ObjectIdentifiers.Curve | dkim-oracle/contracts/CertManager.sol:40-42 | likewise secp384r1 |
| ObjectIdentifiers.Extensions | dkim-oracle/contracts/CertManager.sol:44-46 | likewise id-ce-basicConstraints and id-ce-keyUsage |
| CertParser.RunVerifyExtensions | dkim-oracle/contracts/CertParser.sol:99-145 | the loop over nodes, flags and path length ends and computes the specification function that the extension theorems are about |
| CertParser.Int64OfUintExact | dkim-oracle/contracts/CertParser.sol:147-164 | a path length is kept as stated if and only if it is below 2^63 |
| CertParser.BasicConstraintsFixesRole | dkim-oracle/contracts/CertParser.sol:147-164 | basicConstraints accepted for one role are refused for the other |
| CertParser.ParseFixesRole | dkim-oracle/contracts/CertParser.sol:19-62 | no certificate parses both as CA and as client, at any two times |
| CertParser.ParseAtOtherTime | dkim-oracle/contracts/CertParser.sol:88-97 | time enters a parse only through the validity window: inside it the result is always the same, outside it the parse reverts |
| Extensions.LoopTiles | dkim-oracle/contracts/CertManager.sol:196-242 | the loop returns only if nodes tile the list exactly, after running its body over each of them |
| Extensions.LoopOverTiles | dkim-oracle/contracts/CertManager.sol:196-242 | over a tiled list the loop does what its body does node by node |
| Extensions.BasicConstraintsDecodes | dkim-oracle/contracts/CertManager.sol:244-261 | every form of basicConstraints (flag and path length each present or not) is accepted for exactly the role it states, if its path length is a readable INTEGER, with that path length, wherever a SEQUENCE follows |
| Extensions.PathLenKept | dkim-oracle/contracts/CertManager.sol:244-261 | an accepted path length of encoded basicConstraints is kept as it is stated if and only if that is below 2^63 |
| Extensions.WidePathLenWraps | dkim-oracle/contracts/CertManager.sol:244-261 | the encoded basicConstraints of a CA with the path length 2^63 give -2^63, wherever a SEQUENCE follows |
| Extensions.WideFlagReverts | dkim-oracle/contracts/CertManager.sol:244-256 | a cA flag of other than one octet is refused |
| Extensions.KeyUsageDecodes | dkim-oracle/contracts/CertManager.sol:263-271 | an encoded KeyUsage is accepted exactly when it has 1 to 32 octets and bit 5 of the last is set for a CA, or bit 0 for a client |
| Extensions.KeyUsageOctet | dkim-oracle/contracts/CertManager.sol:263-271 | in numbers: with the last octet b, a CA is accepted if and only if b mod 8 is at least 4, and a client if and only if b is at least 128 |
| Extensions.KeyUsageTestsLastOctet | dkim-oracle/contracts/CertManager.sol:263-271 | that is the bit named in section 4.2.1.3 of RFC 5280, counted from the top of the first octet, if and only if the last octet agrees with the first on it |
| Extensions.KeyUsageIsNamed | dkim-oracle/contracts/CertManager.sol:263-271 | on encoded BIT STRINGs of up to 32 octets the verification passes for exactly the named bit under exactly that condition |
| Extensions.TwoOctetKeyUsageFails | dkim-oracle/contracts/CertManager.sol:263-271 | the encoded KeyUsage 03 03 07 04 80 names keyCertSign and is refused for a CA, wherever it stands |
| Extensions.ExtensionDecodes | dkim-oracle/contracts/CertManager.sol:203-233 | one encoded extension, with or without a critical flag, contributes exactly what its meaning says |
| Extensions.WideCriticalReverts | dkim-oracle/contracts/CertManager.sol:213-219 | a critical flag of other than one octet is refused in every recognized extension |
| Extensions.OtherWrapperReverts | dkim-oracle/contracts/CertManager.sol:196-201 | an element of any other tag than [3] in the place of the extensions is refused |
| Extensions.LoopDecodes | dkim-oracle/contracts/CertManager.sol:203-233 | over an encoded list the loop gathers the contributions of all extensions in order |
| Extensions.ExtensionsDecode | dkim-oracle/contracts/CertManager.sol:196-261 | encoded extensions are accepted exactly when each recognized one suits the role, both recognized kinds occur, and a client has no path length; the result is the last basicConstraints' path length or -1 |
| Extensions.LastPathLenIsStated | dkim-oracle/contracts/CertManager.sol:203-261 | the returned path length is the one the last basicConstraints states if and only if that is below 2^63, and -1 if it states none |
| Certificates.ValidityDecodes | dkim-oracle/contracts/CertParser.sol:88-97 | an encoded validity period reads as its two Unix times in order, and reverts if either cannot be read |
| Certificates.KeyDecodes | dkim-oracle/contracts/CertParser.sol:64-86 | an encoded public key of any length is accepted exactly when its algorithm and curve identifiers hash as expected, its BIT STRING has no unused bits and 96 bytes precede its end; what is returned are those 96 bytes of the certificate |
| Certificates.KeyIsOwn | dkim-oracle/contracts/CertParser.sol:84-85 | the 96 bytes are the point's own last ones when it has that many octets; a shorter point is taken whole behind the bytes that precede it |
| Certificates.StoredKeyIsOwn | dkim-oracle/contracts/CertManager.sol:161-183 | the same of the key stored for a whole certificate |
| Certificates.HalvesDecode | dkim-oracle/contracts/Asn1Decode.sol:159-172 | an INTEGER node reads as the two parts of its own magnitude, or reverts outside 16 to 48 octets |
| Certificates.TbsDecodes | dkim-oracle/contracts/CertParser.sol:19-62 | the parser inverts the encoding of a TBS certificate, in any length forms, with or without the unique identifiers: accepted exactly when algorithm, version, key type, validity and extensions suit, with its own fields as the result and the 96 certificate bytes that end with its key |
| Certificates.SignatureDecodes | dkim-oracle/contracts/CertManager.sol:273-294 | the signature step hashes exactly the encoding of the TBS certificate and passes on exactly the two halves of the encoded signature |
| Certificates.CertificateVerifies | dkim-oracle/contracts/CertManager.sol:91-113 | verifying an encoded certificate afresh succeeds exactly when its TBS part is accepted, its issuer is the parent's subject and the signature step returns; the entry is made of its own fields |
| Certificates.CertificateServed | dkim-oracle/contracts/CertManager.sol:64-114 | a call for an encoded certificate not yet stored succeeds exactly when its parent has a key, is a CA, has not expired and has path length left for a CA, and the certificate verifies; the store gains just its own entry |
| Certificates.RootEntry | dkim-oracle/contracts/CertManager.sol:23-29 | a new manager holds the root as a CA without path length that expires on 28 October 2049 at 14:28:05 |
| VerifiedCerts.UnpackPacked | dkim-oracle/contracts/CertManager.sol:296-323 | loading undoes saving for all field values, with the word loads at 0x1, 0x9, 0x11 and 0x31 and a signed path length |
| VerifiedCerts.AbiDecodeEncoded | dkim-oracle/contracts/CertStorage.sol:12-30 | the ABI form is never empty and decodes to the certificate stored, negative path lengths included |
| VerifiedCerts.AbiLength | dkim-oracle/contracts/CertStorage.sol:12-15 | the ABI form fills whole words, with only zeros behind the key |
| VerifiedCerts.AbiWordsExact | dkim-oracle/contracts/CertStorage.sol:17-30 | a word that decodes as a flag or as an unsigned or signed 64-bit number is the ABI word of just that value |
| VerifiedCerts.NothingStored | dkim-oracle/contracts/CertManager.sol:300-304 | a hash under which nothing is stored loads as all zeros |
| CertManagers.CertManager.constructor | dkim-oracle/contracts/CertManager.sol:50-62 | a new manager holds exactly the root certificate |
| CertManagers.CertManager.SaveVerified | dkim-oracle/contracts/CertManager.sol:296-298 | the packed mapping changes at one hash and stays the packed form of the abstract store |
| CertManagers.CertManager.LoadVerified | dkim-oracle/contracts/CertManager.sol:300-323 | a load returns the abstract entry, or the empty certificate for an unknown hash |
| CertManagers.CertManager.VerifyAndSave | dkim-oracle/contracts/CertManager.sol:91-113 | the part behind the cache stores its result under the hash, or reverts without a trace |
| CertManagers.CertManager.VerifyCert | dkim-oracle/contracts/CertManager.sol:74-114 | the new store and the answer are those of the state machine; a revert changes nothing |
| CertManagers.CertManager.VerifyCACert | dkim-oracle/contracts/CertManager.sol:64-68 | one step of the state machine in the CA role, which returns the certificate's hash |
| CertManagers.CertManager.VerifyClientCert | dkim-oracle/contracts/CertManager.sol:70-72 | one step of the state machine in the client role, which returns the verified certificate |
| CertManagersReduced.CertStorage.SaveVerified | dkim-oracle/contracts/CertStorage.sol:12-15 | the ABI mapping changes at one hash and stays the ABI form of the abstract store |
| CertManagersReduced.CertStorage.LoadVerified | dkim-oracle/contracts/CertStorage.sol:17-30 | a load returns the abstract entry, or the empty certificate for an unknown hash |
| CertManagersReduced.CertManagerReduced.VerifyCert | dkim-oracle/contracts/CertManagerReduced.sol:65-105 | over external storage and parser, the same step of the same state machine |
| CertManagersReduced.CertManagerReduced.VerifyCACert | dkim-oracle/contracts/CertManagerReduced.sol:55-59 | the same step and the same hash in the split deployment |
| CertManagersReduced.CertManagerReduced.VerifyClientCert | dkim-oracle/contracts/CertManagerReduced.sol:61-63 | the same step and the same certificate in the split deployment |
| CertManagersReduced.Lockstep | dkim-oracle/contracts/CertManagerReduced.sol:55-138 | the two deployments, fed any run of calls, give equal results throughout, and every hash loads the same certificate from both |
| CertProperties.RunKeeps | dkim-oracle/contracts/CertManager.sol:74-114 | along any run no entry is changed or removed, and every entry has a public key |
| CertProperties.RootStays | dkim-oracle/contracts/CertManager.sol:50-62 | the root entry is the constructor's in every reachable store |
| CertProperties.ServedUnderParent | dkim-oracle/contracts/CertManager.sol:78-83 | whatever certificate but the root is served, by either call after any run: its parent is stored, is a CA, has not expired, and has path length left if the certificate is a CA |
| CertProperties.StoredIsServed | dkim-oracle/contracts/CertManager.sol:74-92 | a stored certificate is served if and only if its entry has not expired and is of that role and, but for the root, its parent is stored, a CA, not expired, and with path length left for a CA; the answer is the entry |
| CertProperties.UnstoredIsServed | dkim-oracle/contracts/CertManager.sol:74-114 | a certificate not stored is served if and only if such a parent is stored and the certificate verifies under it; the store gains just its entry |
| CertProperties.StoredFacts | dkim-oracle/contracts/CertManager.sol:74-114 | a non-root entry was verified afresh under a parent that was stored already, a CA, not expired, and with path length left for a CA; neither entry has changed since |
| CertProperties.EntryWasStored | dkim-oracle/contracts/CertManager.sol:74-114 | every non-root entry goes back to one call of the run that verified its certificate |
| CertProperties.CacheExact | dkim-oracle/contracts/CertManager.sol:74-114 | in every reachable store, at any later time, in either role and under any parent, the cache answers what verifying without it would if and only if the parent has no key, is no CA, has expired or has no path length left for a CA, the role is another, the entry has expired, or the parent could have issued the very same entry |
| CertProperties.CacheAgrees | dkim-oracle/contracts/CertManager.sol:74-114 | in particular the cache agrees with verification without it under the parent an entry was stored under |
| SampleCertificates.CacheDisagrees | dkim-oracle/contracts/CertManager.sol:86-92 | after two certificates of the root, the cache answers for the client under the other CA, which verification without the cache refuses |
| SampleCertificates.ExpiredRootRefused | dkim-oracle/contracts/CertManager.sol:78-83 | one second after the root expired, the client certificate under it is refused, though it would still be valid |
| SampleCertificates.SampleRun | dkim-oracle/contracts/CertManager.sol:64-114 | a run of two calls that both store their certificates, with the fields of the stored entries |
| SampleCertificates.ShortKeyStored | dkim-oracle/contracts/CertManager.sol:161-183 | a certificate whose point has 20 octets is served, and its stored key is 76 other bytes and those 20 |
| CertProperties.ParentIsEarlierCa | dkim-oracle/contracts/CertManager.sol:78-98 | each non-root entry has a stored CA parent, stored earlier or the root, whose subject hash is the certificate's issuer hash |
| CertProperties.ChainFromRoot | dkim-oracle/contracts/CertManager.sol:74-114 | every entry ends a recorded issuing chain that starts at the root |
| CertProperties.IssuedWhileValid | dkim-oracle/contracts/CertManager.sol:78-83 | at every link of a recorded issuing chain the parent is a CA that had not expired when the child was stored, with path length left for a CA |
| CertProperties.PathLenShrinks | dkim-oracle/contracts/CertManager.sol:78-104 | a CA entry under a parent with path length m >= 0 has a path length from 0 to m-1 |
| CertProperties.PathLenBoundsCas | dkim-oracle/contracts/CertManager.sol:78-109 | below an entry with path length m >= 0 lie at most m CA entries on any recorded issuing chain (section 4.2.1.9 of RFC 5280) |
| CertProperties.StoredPathLenIsTightest | dkim-oracle/contracts/CertManager.sol:100-104 | the stored path length is the smaller of the certificate's own and the parent's less one, where each exists |
| CertBundle.RunVerifyBundle | dkim-oracle/contracts/DKIMOracle.sol:113-122 | the loop with its running parent hash serves the bundle in turn, and a revert undoes all of it |
| CertBundle.BundleIsRun | dkim-oracle/contracts/DKIMOracle.sol:113-122 | a successful bundle is a run of calls, each served, the client's last |
| CertBundle.FirstIsRoot | dkim-oracle/contracts/DKIMOracle.sol:117-120 | a call with the zero parent hash can only succeed for the root |
| CertBundle.ServedInRun | dkim-oracle/contracts/DKIMOracle.sol:113-122 | a certificate served at some point of a run is, at its end, stored in its role, unexpired, and the root or begun |
| CertBundle.BundleTheorem | dkim-oracle/contracts/DKIMOracle.sol:113-122 | if a non-empty bundle verifies, its first certificate is the root, all its certificates are stored as CAs and the client's as a non-CA, none has expired, and all but the root have begun |
| Sha2Functions.Sigma0Bit | dkim-oracle/contracts/Sha2Ext.sol:204-222 | bit i of the result is the exclusive or of bits i+28, i+34 and i+39, modulo 64 (equation 4.10 of FIPS 180-4) |
| Sha2Functions.Sigma1Bit | dkim-oracle/contracts/Sha2Ext.sol:208-222 | of bits i+14, i+18 and i+41 (equation 4.11) |
| Sha2Functions.Gamma0Bit | dkim-oracle/contracts/Sha2Ext.sol:212-222 | of bits i+1, i+8 and, below 64, i+7 (equation 4.12) |
| Sha2Functions.Gamma1Bit | dkim-oracle/contracts/Sha2Ext.sol:216-222 | of bits i+19, i+61 and, below 64, i+6 (equation 4.13) |
| Sha2Functions.ChBit | dkim-oracle/contracts/Sha2Ext.sol:196-198 | each bit is that of the second word where the first has a one, and of the third where it has a zero (equation 4.8) |
| Sha2Functions.MajBit | dkim-oracle/contracts/Sha2Ext.sol:200-202 | each bit is the majority of the three (equation 4.9) |
| Sha2Functions.AddIsModular | dkim-oracle/contracts/Sha2Ext.sol:110-132 | unchecked addition of words is addition of their numbers modulo 2^64 (section 3.2) |
| Sha2Functions.WordBack | dkim-oracle/contracts/Sha2Ext.sol:190-194 | every number below 2^64 is that of its word |
| Sha2Functions.BytesOfWordAt | dkim-oracle/contracts/Sha2Ext.sol:190-194 | a word read from eight bytes has them as its big-endian digits (section 3.1) |
| Sha2Constants.RoundConstants | dkim-oracle/contracts/Sha2Ext.sol:12-92 | the eighty listed constants are the first 64 bits of the fractional parts of the cube roots of the listed primes (section 4.2.3) |
| Sha2Constants.SquareRoots384 | dkim-oracle/contracts/Sha2Ext.sol:138-147 | the initial values of SHA-384 are those of the square roots of the ninth to sixteenth prime (section 5.3.4) |
| Sha2Constants.SquareRoots512 | dkim-oracle/contracts/Sha2Ext.sol:153-162 | those of SHA-512 of the first eight (section 5.3.5) |
| Sha2Constants.WordsBack | dkim-oracle/contracts/Sha2Ext.sol:12-92 | the words of the constants have the listed numbers |
| Sha2Standard.CompressionSteps | dkim-oracle/contracts/Sha2Ext.sol:95-134 | one block: a message schedule, eighty rounds of the eight working variables, and eight final sums, each equation written with numbers modulo 2^64 (section 6.4.2) |
| Sha2Standard.BlockBytes | dkim-oracle/contracts/Sha2Ext.sol:190-194 | word j of a block is the bytes 8j to 8j+8 of it (section 5.2.2) |
| Sha2Standard.HashChain | dkim-oracle/contracts/Sha2Ext.sol:97-134 | the hash is a chain of compressions, one for each block in order (section 6.4) |
| Sha2Standard.PaddedBytes | dkim-oracle/contracts/Sha2Ext.sol:176-188 | the padded message is the message, the byte 80, the fewest zeros that fill blocks, and the length in bits as sixteen bytes (section 5.1.2) |
| Sha2Standard.DigestBytes | dkim-oracle/contracts/Sha2Ext.sol:149-173 | bytes 8j to 8j+8 of the digest are those of word j (section 6.5) |
| Sha2Standard.DigestLengths | dkim-oracle/contracts/Sha2Ext.sol:149-173 | a SHA-384 digest has 48 bytes, a SHA-512 digest 64 |
| Sha2Ext.GetBlock | dkim-oracle/contracts/Sha2Ext.sol:190-194 | the sixteen words of a block are the big-endian words of the bytes at its position |
| Sha2Ext.ExtendSchedule | dkim-oracle/contracts/Sha2Ext.sol:102-111 | the schedule loop produces the 80 words of section 6.4.2 of FIPS 180-4 |
| Sha2Ext.RunRound | dkim-oracle/contracts/Sha2Ext.sol:113-128 | the assignments of one round, done in place, are the round function on the old working variables |
| Sha2Ext.CompressBlock | dkim-oracle/contracts/Sha2Ext.sol:95-134 | schedule, 80 rounds and final additions are the compression function on the old hash value |
| Sha2Ext.PadMessageLength | dkim-oracle/contracts/Sha2Ext.sol:176-188 | the padding always has one or two blocks, so the PADDING_ERROR check never fails |
| Sha2Ext.StreamBlock | dkim-oracle/contracts/Sha2Ext.sol:95-101 | every block is taken entirely from the message or entirely from the padding, and is the block of their concatenation |
| Sha2Ext.StreamIsPadded | dkim-oracle/contracts/Sha2Ext.sol:176-188 | message and padding together are the padded message of section 5.1.2 of FIPS 180-4 if and only if the length is below 2^61 |
| Sha2Ext.PaddedLength | dkim-oracle/contracts/Sha2Ext.sol:176-188 | the padded message is a positive number of 128-byte blocks longer than the message |
| Sha2Ext.PaddedInjective | dkim-oracle/contracts/Sha2Ext.sol:176-188 | different messages have different padded messages |
| Sha2Ext.Sha2 | dkim-oracle/contracts/Sha2Ext.sol:11-135 | the two-source block loop folds the compression function over message and padding into `h`, for any region in range |
| Sha2Ext.HashRegion | dkim-oracle/contracts/Sha2Ext.sol:137-174 | a message region is hashed, from any initial values, as section 6.4 says of exactly the bytes of the region |
| Sha2Ext.Sha384 | dkim-oracle/contracts/Sha2Ext.sol:137-150 | with the listed constants and initial values, the first six words of that hash |
| Sha2Ext.Sha512 | dkim-oracle/contracts/Sha2Ext.sol:152-174 | likewise all eight |
| CborDecode.PackedElementFields | dkim-oracle/contracts/CborDecode.sol:10-48 | type, start and value survive packing into one word, and the zero word is only the unset element |
| CborDecode.HeadDecodes | dkim-oracle/contracts/CborDecode.sol:97-124 | a head with its argument in any permitted width decodes to its type, value and next index (section 3 of RFC 8949) |
| CborDecode.NullDecodes | dkim-oracle/contracts/CborDecode.sol:97-112 | null and undefined are accepted wherever a value is optional |
| CborDecode.DecodedElementIsHead | dkim-oracle/contracts/CborDecode.sol:97-124 | conversely every accepted non-null element is a head of its type and value in some permitted width |
| CborDecode.NextAdvances | dkim-oracle/contracts/CborDecode.sol:65-95 | every successful step moves the end strictly forward |
| Cose.ConstructAttestationTbs | dkim-oracle/contracts/DKIMOracle.sol:124-150 | for all lengths the buffer filled by three masked copies is the Sig_structure of section 4.4 of RFC 9052, and memory allocated before is untouched |
| Cose.SigStructureBegins | dkim-oracle/contracts/DKIMOracle.sol:124-150 | the Sig_structure is the head of an array of four, the text "Signature1", the protected headers, an empty byte string and the payload, as RFC 8949 encodes them |
| Cose.EnvelopeDecodes | dkim-oracle/contracts/DKIMOracle.sol:49-71 | an encoded COSE_Sign1, tagged or not, with any head widths, decodes to its Sig_structure and signature |
| Cose.FramingBytes | dkim-oracle/contracts/DKIMOracle.sol:49-57 | the framing bytes are an array of four, a text string of ten, an empty byte string and tag 18 |
| Cose.DecodedIsEnvelope | dkim-oracle/contracts/DKIMOracle.sol:49-71 | conversely whatever decodes holds the parts of an envelope after its first one or two bytes, with anything behind them |
| Cose.ShiftIsEleven | dkim-oracle/contracts/DKIMRegistry.sol:84-89 | in whatever decodes, the payload lies eleven bytes later in the Sig_structure exactly if the first byte is not the tag and the map head is one byte; ten with the tag, and at least two always |
| Cose.PayloadStands | dkim-oracle/contracts/DKIMOracle.sol:49-71 | in whatever decodes, the raw payload stands as a whole, ends `Shift` bytes before the end of the Sig_structure, and is followed by the signature string |
| Cose.PayloadShifted | dkim-oracle/contracts/DKIMRegistry.sol:84-99 | every part of the payload found in the Sig_structure stands that many bytes earlier in the attestation |
| UserData.ExtractionExact | dkim-oracle/contracts/DKIMRegistry.sol:84-105 | for every attestation that decodes and every element that starts in its payload: the extraction returns what the element says of the signed bytes if and only if there is no tag, the map head is one byte and the content starts with 0xa1, or by chance every byte read too early or too late repeats the right one; for an element that runs past the signed bytes, it reverts as it should if and only if no 0xa1 stands eleven bytes before it and it runs past the attestation too |
| UserData.ChanceReappears | dkim-oracle/contracts/DKIMRegistry.sol:84-105 | such chance takes the first byte coming again within eleven bytes of the misread ones |
| UserData.OverrunExtracted | dkim-oracle/contracts/DKIMRegistry.sol:84-105 | with no tag, a one-byte map head and the 0xa1 found, the extraction returns the signed part of the element and then bytes behind the payload; what it reads lies inside the raw payload if and only if the element ends inside the signed bytes |
| UserData.OneEntryHead | dkim-oracle/contracts/DKIMRegistry.sol:90-93 | the byte looked for is the short head of a map of one entry |
| Attestation.RunReadCabundle | dkim-oracle/contracts/DKIMOracle.sol:183-188 | the certificate loop fills its array with the byte strings in order, or reverts |
| Attestation.RunReadPcrs | dkim-oracle/contracts/DKIMOracle.sol:189-201 | the register loop stores each value at its index, with its range and duplicate checks, as the specification does |
| Attestation.RunReadEntry | dkim-oracle/contracts/DKIMOracle.sol:160-204 | the nine branches of a round, in the order of the contract, are the round of the specification |
| DocumentKeys.StringKeys | dkim-oracle/contracts/DKIMOracle.sol:160-172 | on any bytes, a key that is "module_id" or "digest" reads a text string, and "certificate" a byte string, into the field moduleID, digest or cert, and leaves the other eight alone |
| DocumentKeys.OptionalKeys | dkim-oracle/contracts/DKIMOracle.sol:173-181 | likewise "public_key", "user_data" and "nonce" a byte string or null into publicKey, userData or nonce |
| DocumentKeys.StructuredKeys | dkim-oracle/contracts/DKIMOracle.sol:182-201 | likewise "timestamp" a number, "cabundle" an array of byte strings and "pcrs" a map of registers into timestamp, cabundle or pcrs |
| DocumentKeys.OtherKeys | dkim-oracle/contracts/DKIMOracle.sol:202-204 | a key that hashes like none of these nine texts reverts |
| DocumentKeys.ReadersByType | dkim-oracle/contracts/CborDecode.sol:65-124 | a head of any major type is read by exactly the reader for that type |
| DocumentKeys.ReadersOnNull | dkim-oracle/contracts/CborDecode.sol:65-112 | null and undefined are read by the reader of optional byte strings only |
| DocumentKeys.TextDocumentParses | dkim-oracle/contracts/DKIMOracle.sol:152-208 | a document whose keys are any of the nine texts, in any order and widths, parses, and every field holds just the last value that comes under its own text, and nothing if there is none |
| DocumentKeys.UnknownKeyReverts | dkim-oracle/contracts/DKIMOracle.sol:202-204 | an unknown key behind any such entries makes the parse revert |
| Attestation.PrefixBytes | dkim-oracle/contracts/DKIMOracle.sol:19-19 | the expected prefix is the 18 bytes of the contract's comment |
| Attestation.RunParseAttestation | dkim-oracle/contracts/DKIMOracle.sol:152-208 | the whole parse ends on every input and computes the specification that the document theorems are about |
| AttestationCoding.CertsRead | dkim-oracle/contracts/DKIMOracle.sol:183-188 | an encoded bundle comes back complete and in order |
| AttestationCoding.PcrsRead | dkim-oracle/contracts/DKIMOracle.sol:189-201 | encoded registers are accepted if and only if their indices are below the count, free and distinct; then each value lies at its index and nothing else changes |
| AttestationCoding.EntryReads | dkim-oracle/contracts/DKIMOracle.sol:160-204 | one round on an encoded entry records its value under its name and touches no other field |
| AttestationCoding.DocumentParses | dkim-oracle/contracts/DKIMOracle.sol:152-208 | for any order of keys, any head widths and any announced count, the parse succeeds, every element slices to exactly its field's bytes, and absent fields stay unset |
| AttestationFacts.PcrsFill | dkim-oracle/contracts/DKIMOracle.sol:189-201 | on any bytes, n accepted pairs leave exactly n fewer free slots |
| AttestationFacts.ParsedPcrsFilled | dkim-oracle/contracts/DKIMOracle.sol:152-208 | every attestation that parses has a value in every register slot |
| AttestationFacts.IndicesAreAll | dkim-oracle/contracts/DKIMOracle.sol:189-201 | accepted indices are a permutation of 0 to n-1 |
| AttestationFacts.PcrOrderIrrelevant | dkim-oracle/contracts/DKIMOracle.sol:189-201 | the array of register contents does not depend on the order of the pairs or on head widths |
| AttestationFacts.OrderIrrelevant | dkim-oracle/contracts/DKIMOracle.sol:160-204 | documents whose entries are permuted give every name the same value |
| AttestationFacts.ParseIgnoresOrder | dkim-oracle/contracts/DKIMOracle.sol:152-208 | such documents, in any widths, both parse, and every element of the one slices to the same bytes as the other's |
| AttestationTiles.ParsedTiles | dkim-oracle/contracts/DKIMOracle.sol:152-208 | on arbitrary bytes a successful parse is its heads and entries that follow each other up to the payload's end or past it; all returned elements lie inside if and only if the last entry does or keeps no element |
| AttestationTiles.TiledParses | dkim-oracle/contracts/DKIMOracle.sol:152-208 | conversely all bytes of that shape parse, with just what the entries leave |
| AttestationTiles.OverrunParses | dkim-oracle/contracts/DKIMOracle.sol:159-204 | signed bytes that parse, though they would not validate, and whose nonce ends behind them |
| Validation.SliceCabundle | dkim-oracle/contracts/DKIMOracle.sol:93-97 | the bundle loop yields the content of every certificate in order, or reverts at the first bad length or slice |
| Validation.RunValidateAttestation | dkim-oracle/contracts/DKIMOracle.sol:73-106 | over the certificate manager the call computes the specification that the document theorem is about, and a revert at any point undoes the manager's changes |
| Validation.ShapeOfDocument | dkim-oracle/contracts/DKIMOracle.sol:73-98 | the checks on parsed elements hold if and only if the encoded document meets the demands on its fields, written out: a module id, a timestamp, a bundle of certificates of 1 to 1024 bytes, the digest "SHA384", 1 to 32 registers of 32, 48 or 64 bytes, and the bounds on key, user data and nonce |
| Validation.RegistersDecide | dkim-oracle/contracts/DKIMOracle.sol:89-91 | among documents that meet all other demands, those validate whose registers all have 32, 48 or 64 bytes |
| Validation.ValidationOfDocument | dkim-oracle/contracts/DKIMOracle.sol:73-122 | validating an encoded document makes those demands and verifies exactly its certificate under its bundle in order, with the same certificate store |
| Registry.SplitDomainSelector | dkim-oracle/contracts/DKIMRegistry.sol:146-173 | the search loop and the two copy loops give the specification's pair |
| Registry.DKIMRegistry.StoreOne | dkim-oracle/contracts/DKIMRegistry.sol:132-142 | one offered key changes keys and index arrays as the specification says |
| Registry.DKIMRegistry.ParseAndStoreDKIMKeys | dkim-oracle/contracts/DKIMRegistry.sol:111-144 | the entry loop ends with the specification's storage, or reverts and changes nothing |
| Registry.DKIMRegistry.GetDKIMKey | dkim-oracle/contracts/DKIMRegistry.sol:48-62 | a pair is valid exactly when its stored key is non-empty, and that key is returned |
| Registry.DKIMRegistry.GetAllDKIMKeys | dkim-oracle/contracts/DKIMRegistry.sol:65-82 | the index arrays come back in order, each row with the present key of its pair |
| RegistryProperties.StoreSplit | dkim-oracle/contracts/DKIMRegistry.sol:118-142 | an offer whose flat key has its first ';' inside stores its key for the domain before it and the selector behind it, and lists both, unless the pair has a key |
| RegistryProperties.StoreUnsplit | dkim-oracle/contracts/DKIMRegistry.sol:118-142 | any other flat key stores and lists nothing |
| RegistryProperties.RunConsistent | dkim-oracle/contracts/DKIMRegistry.sol:132-142 | in every reachable storage exactly the listed pairs are stored, with non-empty domains without ';' and non-empty selectors |
| RegistryProperties.StoreIsFold | dkim-oracle/contracts/DKIMRegistry.sol:111-144 | what user data offer does not depend on the storage, and storing them is the fold of their offers, or a revert |
| RegistryProperties.RunIsFold | dkim-oracle/contracts/DKIMRegistry.sol:36-46 | every reachable storage is the fold of all offers of the successful stores |
| RegistryProperties.FoldTheorem | dkim-oracle/contracts/DKIMRegistry.sol:111-144 | a pair's key is the first non-empty one offered, empty if there is none, and the pair is listed once per offer up to and including that one |
| RegistryProperties.KeyNeverChanges | dkim-oracle/contracts/DKIMRegistry.sol:132-142 | once a pair has a key, no further stores change it |
| RegistryProperties.ListedOnce | dkim-oracle/contracts/DKIMRegistry.sol:132-142 | the index arrays have equal length; a pair with a key is listed, and exactly once if and only if no empty key was offered for it before |
| SampleAttestations.ListedTwice | dkim-oracle/contracts/DKIMRegistry.sol:132-142 | after a store of an empty key and one of a key for the same pair, the pair is listed twice |
| Flattening.SplitUndoesFlatten | dkim-oracle/contracts/DKIMRegistry.sol:146-173 | the contract's split undoes the producer's flattening if and only if the domain is non-empty without ';' and the selector non-empty, or both are empty |
| Flattening.FlatKeyInjective | google/enclave/attest/attestation.go:81-87 | flat keys of domains without ';' determine domain and selector |
| Flattening.CollidesExactly | google/enclave/attest/attestation.go:81-87 | two pairs flatten to the same key if and only if the longer domain is the shorter one, a ';' and the start of its selector up to a ';' behind which the other selector follows |
| Flattening.FlatKeysCollide | google/enclave/attest/attestation.go:81-87 | "a;b" with "c" collides with "a" with "b;c" |
| Flattening.Flatten | google/enclave/attest/attestation.go:81-87 | the nested loops, over both maps in any order, end with the result of some walk that visits every domain and selector once |
| Flattening.NoKeyLost | google/enclave/attest/attestation.go:81-87 | a pair keeps its own key in every order of the loops if and only if no other pair with the same flat key has a different key |
| Flattening.NoSemicolonsNoLoss | google/enclave/attest/attestation.go:81-87 | without ';' in domains, every pair keeps its own key |
| Flattening.CollisionLosesKey | google/enclave/attest/attestation.go:81-87 | a nested map of two colliding pairs with different keys loses one of them in some order |
| EndToEnd.StoreDKIMKeysFromAttestation | dkim-oracle/contracts/DKIMRegistry.sol:36-46 | over both contracts' storage the call is one atomic step of the specification: both stores change together, or neither does |
| EndToEnd.UserDataStored | dkim-oracle/contracts/DKIMRegistry.sol:36-46 | for every attestation that decodes and parses, of whatever bytes, with user data that are not empty: storing from it is validating it and storing the bytes that the misreading names around the place where the signed part of the user data stands, and reverts exactly when one of these does |
| EndToEnd.OverrunStored | dkim-oracle/contracts/DKIMRegistry.sol:36-46 | with no tag, a one-byte map head and the 0xa1 found, what is stored is the signed part of the user data and as many bytes from behind the payload as the user data run past the signed bytes, none exactly if they do not |
| EndToEnd.EmptyUserDataReverts | dkim-oracle/contracts/DKIMRegistry.sol:36-46 | user data of no bytes, or left unset, always revert, for whatever attestation |
| EndToEnd.LateMapReverts | dkim-oracle/contracts/DKIMRegistry.sol:84-131 | for every attestation whose user data are an encoded text map, when the byte `Shift` bytes into the map stands in its first ASCII pairs, storing reverts: untagged with a one-byte map head for all maps but those with a short one-entry head, so for two or more keys; tagged with a one-byte map head for all maps; with longer map heads for all maps without a 0xa1 eleven bytes before the place their element names |
| EndToEnd.OnlyOneKeyExtracted | dkim-oracle/contracts/DKIMRegistry.sol:84-105 | a marshalled map is cut out exactly if and only if it announces one entry in the short form, in an attestation with no tag and a one-byte map head, or by chance |
| EndToEnd.StoreParts | dkim-oracle/contracts/DKIMOracle.sol:73-122 | a successful store has decoded, parsed, accepted all lengths, and verified just the bundle and the certificate it sliced out of the signed bytes |
| EndToEnd.StoredUnderChain | dkim-oracle/contracts/DKIMOracle.sol:73-122 | nothing is stored from any attestation, of whatever bytes, unless the bundle it parses to starts at the root, its certificates are stored in their roles, none has expired and all but the root have begun |
| TextMaps.MapOffers | dkim-oracle/contracts/DKIMRegistry.sol:111-131 | an encoded text map offers its pairs in order, as many as it announces or all it has |
| Documents.EnvelopeSigns | dkim-oracle/contracts/DKIMOracle.sol:49-71 | an envelope with the expected protected header decodes to the bytes that the document parser expects, around whatever payload |
| Documents.OneEntryStored | dkim-oracle/contracts/DKIMRegistry.sol:36-46 | from a document in an untagged envelope with a one-byte map head, user data that start as a one-entry map are stored themselves |
| Documents.OneKeyDelivered | google/enclave/attest/attestation.go:80-93 | a single key of the producer, for a domain without ';', arrives unchanged in the registry of every validated attestation, unless the pair has a key already, which then stays |
| Documents.NullUserDataStoresNothing | dkim-oracle/contracts/DKIMRegistry.sol:36-46 | null user data validate as ever and leave the registry alone |
| Documents.AbsentUserDataReverts | dkim-oracle/contracts/DKIMRegistry.sol:36-46 | storing from a document without user data always reverts |
| Documents.DocumentUnderChain | dkim-oracle/contracts/DKIMOracle.sol:73-122 | for encoded documents the chain is that of the document's own bundle and certificate |
| Overruns.CutParses | dkim-oracle/contracts/DKIMOracle.sol:159-204 | a document whose last entry is user data that announce more bytes than there are parses to the document's own elements and to user data that end just so far past the signed bytes |
| Overruns.CutValidates | dkim-oracle/contracts/DKIMOracle.sol:73-122 | it validates if and only if the document without that entry does and at most 2048 bytes are announced, with the same certificate store |
| Overruns.CutStored | dkim-oracle/contracts/DKIMRegistry.sol:36-46 | storing from it, in an untagged envelope with a one-byte map head, stores the user data completed from the signature string that follows the payload, as far as that goes, and reverts exactly when validation or that map does |
| SampleAttestations.UnsignedKeyStored | dkim-oracle/contracts/DKIMRegistry.sol:36-46 | an attestation that validates, and from which a key is stored that is the unsigned signature string |
| SampleAttestations.MisreadInstances | dkim-oracle/contracts/DKIMRegistry.sol:36-46 | validated attestations with two keys, and with one key in a tagged envelope, whose maps could be stored but from which storing reverts |
| SampleAttestations.NoUserDataInstance | dkim-oracle/contracts/DKIMRegistry.sol:36-46 | a document without user data that validates, and from which storing reverts |
| Interleaving.CertsAreRun | dkim-oracle/contracts/DKIMOracle.sol:73-122 | whatever certificate calls, validations and stores are made in whatever order, the certificate store is that of a run of certificate calls |
| Interleaving.KeyStays | dkim-oracle/contracts/DKIMRegistry.sol:132-142 | no transaction on either contract changes a stored key |
| Interleaving.KeysUnderChains | dkim-oracle/contracts/DKIMRegistry.sol:36-46 | in every state that such runs over both contracts reach, a pair with a key got it from a store whose attestation offers it, made when the pair had none; that attestation's bundle started at the root and it and the certificate are stored in their roles, valid at the time of the store |

## Left out

- Signatures: the contracts ignore the result of `ECDSA384.verify`, so nothing is claimed about signatures; whether that call returns is a parameter.
- `keccak256` is a parameter with fixed-size results; a statement that needs distinct hashes lists them.
- The curve, and the root certificate's hashes and key are parameters, and so are the nine key hashes, which are those of the nine texts.
- Gas, the growth of memory, the 2^64 bound on memory allocations, and events.
- LibBytes.MemCpy: requires that a forward copy suits the regions (target first, or clear of the source), as at every call in the contracts, and a memory with a word of room behind both regions.
- CertBundle.BundleTheorem: assumes that no two certificates of the run collide under the hash and that none hashes to zero; block time may not run backwards.
- EndToEnd.LateMapReverts: speaks only of maps that reach the byte read first, with ASCII text up to there and no length octet from 0xa0 to 0xbf; behind shorter maps stands whatever follows them in the attestation.
- Interleaving.KeysUnderChains: assumes the same of the hash and of block time over the whole run.
- Documents.OneKeyDelivered: the key's bytes are those of the text string; base64 and x509 encoding in the producer are not part of this model.
- Certificates.TbsDecodes: certificates that are encodings with definite lengths and one-octet tags, whose times have digits in all places and whose unrecognized extensions do not hash like a recognized one; on other bytes only the statements about arbitrary bytes apply (tiling, roles, the validity window).
- The parser copied into `CertManager.sol` and the one in `CertParser.sol` are the same code and are modelled once; calls between the split contracts are plain calls here.
- Who may call `CertStorage.saveVerified`: the model lets only the manager write.
- `CertStorage.isVerified` and the plain getters.
- ABI encoding in `CertStorage` follows the standard layout of one dynamic tuple; the decoder's strictness on malformed data is modelled only as far as stored values reach it.
- JSON, JWKS and DKIM fetching, regular expressions, proxies, vsock, the Ethereum client, and the mock attestation library: input and output, or outside libraries.
- Go strings are byte strings; the fxamacker CBOR encoder is represented by the text map encoder of `TextMaps`.
