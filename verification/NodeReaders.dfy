/**
 What the readers of primitive values (Asn1Decode.sol:89-178) make of any encoded element, of whatever tag: when they
 accept it, and what they return.
 */
module NodeReaders {
  import opened Basics
  import opened Asn1Decode
  import opened Der
  import opened Extensions

  /** Only a constructed element, one with bit 6 of its tag set (section 8.1.2.5 of X.690), has children. */
  lemma FirstChildOfElement(der: bytes, ix: nat, t: Tlv)
    requires Valid(t) && At(der, ix, Encode(t))
    ensures FirstChildOf(der, NodeOf(ix, t))
         == if t.tag % 64 >= 32 then ReadNodeLength(der, NodeOf(ix, t).content) else Revert
  {
    hide ReadNodeLength, Constructed;
    ElementDecodes(der, ix, t);
    BitSix(t.tag);
  }

  lemma BitSix(tag: byte)
    ensures Constructed(tag) <==> tag % 64 >= 32
  {}

  /** A BIT STRING without unused bits opens behind its first octet, and nothing else does. */
  lemma BitStringOfElement(der: bytes, ix: nat, t: Tlv)
    requires Valid(t) && At(der, ix, Encode(t)) && |Contents(t)| > 0
    ensures BitString(der, NodeOf(ix, t))
         == if t.tag == 0x03 && Contents(t)[0] == 0
            then Ok(Asn1Ptr(ix, NodeOf(ix, t).content + 1, |Contents(t)| - 1)) else Revert
  {
    hide ReadNodeLength;
    ElementDecodes(der, ix, t);
    AtByte(der, NodeOf(ix, t).content, Contents(t), 0);
  }

  /** A BIT STRING of up to 32 octets is a number, whatever its unused bits. */
  lemma BitStringUintOfElement(der: bytes, ix: nat, t: Tlv)
    requires Valid(t) && At(der, ix, Encode(t)) && |Contents(t)| > 0
    ensures BitStringUintAt(der, NodeOf(ix, t))
         == if t.tag == 0x03 && |Contents(t)| <= 33 then Ok(FromBE(Contents(t)[1..])) else Revert
  {
    hide ReadNodeLength, FromBE;
    ElementDecodes(der, ix, t);
    var c := Contents(t);
    assert c == c[..1] + c[1..];
    AtSplit(der, NodeOf(ix, t).content, c[..1], c[1..]);
    if |c| <= 33 { ReadUintAt(der, NodeOf(ix, t).content + 1, c[1..], |c| - 1); }
  }

  /** Only an OCTET STRING is opened as one. */
  lemma OctetStringOfElement(der: bytes, ix: nat, t: Tlv)
    requires Valid(t) && At(der, ix, Encode(t))
    ensures OctetString(der, NodeOf(ix, t))
         == if t.tag == 0x04 then ReadNodeLength(der, NodeOf(ix, t).content) else Revert
  {
    hide ReadNodeLength;
    ElementDecodes(der, ix, t);
  }

  /** A non-negative INTEGER of up to 32 octets is its number, and nothing else is one. */
  lemma UintOfElement(der: bytes, ix: nat, t: Tlv)
    requires Valid(t) && At(der, ix, Encode(t)) && |Contents(t)| > 0
    ensures UintAt(der, NodeOf(ix, t))
         == if t.tag == 0x02 && Contents(t)[0] < 128 && |Contents(t)| <= 32 then Ok(FromBE(Contents(t))) else Revert
  {
    hide ReadNodeLength, FromBE;
    ElementDecodes(der, ix, t);
    var c := Contents(t);
    AtByte(der, NodeOf(ix, t).content, c, 0);
    if |c| <= 32 { ReadUintAt(der, NodeOf(ix, t).content, c, |c|); }
  }
}
