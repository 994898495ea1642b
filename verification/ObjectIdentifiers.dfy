/** The object identifiers that the parser compares (CertManager.sol:36-52), as the numbers they stand for. */
module ObjectIdentifiers {
  import opened Basics
  import opened CertParser

  /** A number in base 128, most significant digit first, all but the last marked (section 8.19.2 of X.690). */
  function Marked(n: nat): bytes {
    if n == 0 then [] else Marked(n / 128) + [128 + n % 128]
  }

  function Subidentifier(n: nat): bytes { Marked(n / 128) + [n % 128] }

  function Subidentifiers(arcs: seq<nat>): bytes {
    if |arcs| == 0 then [] else Subidentifier(arcs[0]) + Subidentifiers(arcs[1..])
  }

  /** The contents of an OBJECT IDENTIFIER: the first two arcs make up one subidentifier. */
  function Contents(a: nat, b: nat, arcs: seq<nat>): bytes { Subidentifier(40 * a + b) + Subidentifiers(arcs) }

  lemma SmallArc(n: nat)
    requires n < 128
    ensures Subidentifier(n) == [n]
  {}

  lemma LargeArc(n: nat)
    requires 128 <= n < 16384
    ensures Subidentifier(n) == [128 + n / 128, n % 128]
  {
    assert Marked(n / 128) == Marked(0) + [128 + n / 128];
  }

  lemma FirstArc(n: nat, arcs: seq<nat>)
    ensures Subidentifiers([n] + arcs) == Subidentifier(n) + Subidentifiers(arcs)
  {
    assert ([n] + arcs)[1..] == arcs;
  }

  lemma X962Arcs()
    ensures Subidentifier(42) == [0x2a] && Subidentifier(840) == [0x86, 0x48] && Subidentifier(10045) == [0xce, 0x3d]
  {
    hide Subidentifier;
    SmallArc(42);
    LargeArc(840);
    LargeArc(10045);
  }

  /** ANSI X9.62, {1 2 840 10045}. */
  lemma X962(arcs: seq<nat>)
    ensures Contents(1, 2, [840] + ([10045] + arcs)) == [0x2a] + ([0x86, 0x48] + ([0xce, 0x3d] + Subidentifiers(arcs)))
  {
    hide Subidentifier, Subidentifiers;
    X962Arcs();
    FirstArc(840, [10045] + arcs);
    FirstArc(10045, arcs);
  }

  lemma TwoArcs(a: nat, b: nat)
    requires a < 128 && b < 128
    ensures Subidentifiers([a, b]) == [a, b]
  {
    assert [a, b] == [a] + ([b] + []);
    FirstArc(a, [b]);
    FirstArc(b, []);
    SmallArc(a);
    SmallArc(b);
  }

  lemma ThreeArcs(a: nat, b: nat, c: nat)
    requires a < 128 && b < 128 && c < 128
    ensures Subidentifiers([a, b, c]) == [a, b, c]
  {
    assert [a, b, c] == [a] + [b, c];
    FirstArc(a, [b, c]);
    TwoArcs(b, c);
    SmallArc(a);
  }

  /** id-ecPublicKey, and the whole encoding of ecdsa-with-SHA384 (RFC 5480, section 2.1.1; RFC 5758, section 3.2). */
  lemma KeyAndSignature()
    ensures EC_PUBLIC_KEY == Contents(1, 2, [840, 10045, 2, 1])
    ensures SHA384_WITH_ECDSA == [0x06, 0x08] + Contents(1, 2, [840, 10045, 4, 3, 3])
  {
    assert [840, 10045, 2, 1] == [840] + ([10045] + [2, 1]);
    assert [840, 10045, 4, 3, 3] == [840] + ([10045] + [4, 3, 3]);
    X962([2, 1]);
    X962([4, 3, 3]);
    TwoArcs(2, 1);
    ThreeArcs(4, 3, 3);
  }

  /** secp384r1 (section 2.1.1.1 of RFC 5480). */
  lemma Curve()
    ensures SECP_384_R1 == Contents(1, 3, [132, 0, 34])
  {
    assert [132, 0, 34] == [132] + [0, 34];
    FirstArc(132, [0, 34]);
    SmallArc(43);
    LargeArc(132);
    TwoArcs(0, 34);
  }

  /** id-ce-basicConstraints and id-ce-keyUsage (sections 4.2.1.9 and 4.2.1.3 of RFC 5280). */
  lemma Extensions()
    ensures BASIC_CONSTRAINTS == Contents(2, 5, [29, 19]) && KEY_USAGE == Contents(2, 5, [29, 15])
  {
    SmallArc(85);
    TwoArcs(29, 19);
    TwoArcs(29, 15);
  }
}
