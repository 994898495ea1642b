/**
 DER trees and their encoding (section 8.1 of X.690: one-octet tags, definite lengths in any
 number of octets), and navigation as the inverse of that encoding.
 */
module Der {
  import opened Basics
  import opened Asn1Decode

  /** How a length is written: in the first octet, or in `octets` further ones (not necessarily minimal). */
  datatype LengthForm = Short | Long(octets: nat)

  datatype Tlv =
    | Primitive(tag: byte, form: LengthForm, contents: bytes)
    | Sequence(tag: byte, form: LengthForm, children: seq<Tlv>)

  predicate LengthFits(form: LengthForm, length: nat) {
    match form
    case Short => length < 128
    case Long(n) => 1 <= n <= 32 && length < TWO_64 && length < Pow256(n)
  }

  function LengthOctets(form: LengthForm, length: nat): bytes
    requires LengthFits(form, length)
  {
    match form
    case Short => [length]
    case Long(n) => [128 + n] + ToBE(length, n)
  }

  function HeaderOctets(tag: byte, form: LengthForm, length: nat): bytes
    requires LengthFits(form, length)
  {
    [tag] + LengthOctets(form, length)
  }

  predicate Valid(t: Tlv)
    decreases t, 0
  {
    && t.tag % 32 != 31
    && match t
       case Primitive(_, form, contents) => LengthFits(form, |contents|)
       case Sequence(tag, form, children) =>
         Constructed(tag) && ValidAll(children) && LengthFits(form, |EncodeAll(children)|)
  }

  predicate ValidAll(ts: seq<Tlv>)
    decreases ts, 0
  {
    |ts| > 0 ==> Valid(ts[0]) && ValidAll(ts[1..])
  }

  function Contents(t: Tlv): bytes
    requires Valid(t)
    decreases t, 1
  {
    match t
    case Primitive(_, _, contents) => contents
    case Sequence(_, _, children) => EncodeAll(children)
  }

  function Encode(t: Tlv): bytes
    requires Valid(t)
    decreases t, 2
  {
    HeaderOctets(t.tag, t.form, |Contents(t)|) + Contents(t)
  }

  function EncodeAll(ts: seq<Tlv>): bytes
    requires ValidAll(ts)
    decreases ts, 1
  {
    if |ts| == 0 then [] else Encode(ts[0]) + EncodeAll(ts[1..])
  }

  /** The node of an element with tag, length form and length as given, encoded at position `ix`. */
  function NodeAt(ix: nat, form: LengthForm, length: nat): Asn1Ptr {
    Asn1Ptr(ix, ix + (match form case Short => 2 case Long(n) => 2 + n), length)
  }

  function NodeOf(ix: nat, t: Tlv): Asn1Ptr
    requires Valid(t)
  {
    NodeAt(ix, t.form, |Contents(t)|)
  }

  // ---------------------------------------------------------------- reading a header back

  lemma LengthOctetsDecode(der: bytes, ix: nat, n: nat, length: nat)
    requires LengthFits(Long(n), length) && At(der, ix, ToBE(length, n))
    ensures LongFormLength(der, ix, n) == Ok(length)
  {
    hide FromBE, ToBE, LongFormLength;
    FromToBE(length, n);
    LongFormLengthIsBigEndian(der, ix, n);
  }

  lemma LongHeaderDecodes(der: bytes, ix: nat, tag: byte, n: nat, length: nat)
    requires tag % 32 != 31 && LengthFits(Long(n), length)
    requires At(der, ix, [tag, 128 + n]) && At(der, ix + 2, ToBE(length, n))
    ensures ReadNodeLength(der, ix) == Ok(NodeAt(ix, Long(n), length))
  {
    hide ToBE, FromBE, LongFormLength;
    LengthOctetsDecode(der, ix + 2, n, length);
    AtByte(der, ix, [tag, 128 + n], 0);
    AtByte(der, ix, [tag, 128 + n], 1);
  }

  /** A header written in any of the permitted length forms is read back, wherever it stands. */
  lemma HeaderDecodes(der: bytes, ix: nat, tag: byte, form: LengthForm, length: nat)
    requires tag % 32 != 31 && LengthFits(form, length)
    requires At(der, ix, HeaderOctets(tag, form, length))
    ensures ReadNodeLength(der, ix) == Ok(NodeAt(ix, form, length))
  {
    if form == Short {
      AtByte(der, ix, HeaderOctets(tag, form, length), 0);
      AtByte(der, ix, HeaderOctets(tag, form, length), 1);
    } else {
      var octets := ToBE(length, form.octets);
      assert HeaderOctets(tag, form, length) == [tag, 128 + form.octets] + octets;
      AtSplit(der, ix, [tag, 128 + form.octets], octets);
      LongHeaderDecodes(der, ix, tag, form.octets, length);
    }
  }

  lemma LengthOctetsAreEncoding(der: bytes, ix: nat, n: nat, length: nat)
    requires LongFormLength(der, ix, n) == Ok(length)
    ensures LengthFits(Long(n), length) && At(der, ix, ToBE(length, n))
  {
    LongFormLengthIsBigEndian(der, ix, n);
    ToFromBE(der[ix..ix + n]);
  }

  lemma LongHeaderIsEncoding(der: bytes, ix: nat, n: nat, length: nat)
    requires ix + 1 < |der| && der[ix + 1] == 128 + n && LongFormLength(der, ix + 2, n) == Ok(length)
    ensures LengthFits(Long(n), length)
    ensures At(der, ix, HeaderOctets(der[ix], Long(n), length))
  {
    LengthOctetsAreEncoding(der, ix + 2, n, length);
    var start := [der[ix], 128 + n];
    assert At(der, ix, start);
    AtSplit(der, ix, start, ToBE(length, n));
    assert HeaderOctets(der[ix], Long(n), length) == start + ToBE(length, n);
  }

  /** Conversely, a header that is read is the encoding of that tag and length in some permitted form. */
  lemma DecodedHeaderIsEncoding(der: bytes, ix: nat) returns (form: LengthForm)
    requires ReadNodeLength(der, ix).Ok?
    ensures var ptr := ReadNodeLength(der, ix).value;
      && der[ix] % 32 != 31 && LengthFits(form, ptr.length)
      && ptr == NodeAt(ix, form, ptr.length)
      && At(der, ix, HeaderOctets(der[ix], form, ptr.length))
  {
    if der[ix + 1] < 128 {
      form := Short;
      assert der[ix..ix + 2] == [der[ix], der[ix + 1]];
    } else {
      var n := der[ix + 1] % 128;
      form := Long(n);
      LongHeaderIsEncoding(der, ix, n, ReadNodeLength(der, ix).value.length);
    }
  }

  /** The indefinite length octet 0x80 is rejected: its shift amount (32 - 0) * 8 overflows uint8. */
  lemma IndefiniteLengthReverts(der: bytes, ix: nat)
    requires ix + 1 < |der| && der[ix + 1] == 0x80
    ensures ReadNodeLength(der, ix).Revert?
  {}

  // ---------------------------------------------------------------- navigation

  lemma {:induction false} EncodeAllFirst(a: Tlv, rest: seq<Tlv>)
    requires ValidAll([a] + rest)
    ensures Valid(a) && ValidAll(rest) && EncodeAll([a] + rest) == Encode(a) + EncodeAll(rest)
  {
    assert ([a] + rest)[1..] == rest;
  }

  lemma ElementDecodes(der: bytes, ix: nat, t: Tlv)
    requires Valid(t) && At(der, ix, Encode(t))
    ensures ReadNodeLength(der, ix) == Ok(NodeOf(ix, t))
    ensures At(der, NodeOf(ix, t).content, Contents(t))
    ensures der[ix] == t.tag && NodeOf(ix, t).End() == ix + |Encode(t)|
  {
    HeaderAndContents(der, ix, t.tag, t.form, Contents(t));
  }

  lemma HeaderAndContents(der: bytes, ix: nat, tag: byte, form: LengthForm, contents: bytes)
    requires tag % 32 != 31 && LengthFits(form, |contents|)
    requires At(der, ix, HeaderOctets(tag, form, |contents|) + contents)
    ensures var node := NodeAt(ix, form, |contents|);
      && ReadNodeLength(der, ix) == Ok(node) && At(der, node.content, contents) && der[ix] == tag
      && node.content == ix + |HeaderOctets(tag, form, |contents|)|
  {
    var header := HeaderOctets(tag, form, |contents|);
    AtSplit(der, ix, header, contents);
    AtByte(der, ix, header, 0);
    HeaderDecodes(der, ix, tag, form, |contents|);
  }

  /** Where the k-th of several elements starts. */
  function Offset(ts: seq<Tlv>, k: nat): nat
    requires ValidAll(ts) && k <= |ts|
  {
    if k == 0 then 0 else |Encode(ts[0])| + Offset(ts[1..], k - 1)
  }

  lemma {:induction false} ChildAt(der: bytes, ix: nat, ts: seq<Tlv>, k: nat)
    requires ValidAll(ts) && At(der, ix, EncodeAll(ts)) && k < |ts|
    ensures Valid(ts[k]) && At(der, ix + Offset(ts, k), Encode(ts[k]))
    ensures Offset(ts, k + 1) == Offset(ts, k) + |Encode(ts[k])|
    decreases k
  {
    hide HeaderOctets, LengthOctets, LengthFits;
    var first, rest := Encode(ts[0]), ts[1..];
    AtSplit(der, ix, first, EncodeAll(rest));
    if k == 0 {
      assert Offset(ts, 1) == |first| + Offset(rest, 0);
    } else {
      ChildAt(der, ix + |first|, rest, k - 1);
      var child := rest[k - 1];
      assert ts[k] == child;
      assert Offset(ts, k) == |first| + Offset(rest, k - 1);
      assert Offset(ts, k + 1) == |first| + Offset(rest, k);
    }
  }

  lemma {:induction false} OffsetOfEnd(ts: seq<Tlv>)
    requires ValidAll(ts)
    ensures Offset(ts, |ts|) == |EncodeAll(ts)|
  {
    if |ts| == 0 {
    } else {
      OffsetOfEnd(ts[1..]);
    }
  }

  /** `firstChildOf`, then `k` uses of `nextSiblingOf`. */
  function Child(der: bytes, ptr: Asn1Ptr, k: nat): Result<Asn1Ptr> {
    if k == 0 then FirstChildOf(der, ptr)
    else
      var previous :- Child(der, ptr, k - 1);
      NextSiblingOf(der, previous)
  }

  /** The position of child `k` of an element encoded at `ix`. */
  function ChildPosition(ix: nat, t: Tlv, k: nat): nat
    requires Valid(t) && t.Sequence? && k <= |t.children|
  {
    NodeOf(ix, t).content + Offset(t.children, k)
  }

  lemma ChildStands(der: bytes, ix: nat, t: Tlv, k: nat)
    requires Valid(t) && t.Sequence? && At(der, ix, Encode(t)) && k < |t.children|
    ensures Valid(t.children[k]) && At(der, ChildPosition(ix, t, k), Encode(t.children[k]))
    ensures ChildPosition(ix, t, k) + |Encode(t.children[k])| == ChildPosition(ix, t, k + 1)
  {
    hide ReadNodeLength, At;
    ElementDecodes(der, ix, t);
    ChildAt(der, NodeOf(ix, t).content, t.children, k);
  }

  lemma ChildReads(der: bytes, ix: nat, t: Tlv, k: nat)
    requires Valid(t) && t.Sequence? && At(der, ix, Encode(t)) && k < |t.children|
    ensures Valid(t.children[k])
    ensures ReadNodeLength(der, ChildPosition(ix, t, k)) == Ok(NodeOf(ChildPosition(ix, t, k), t.children[k]))
    ensures NodeOf(ChildPosition(ix, t, k), t.children[k]).End() == ChildPosition(ix, t, k + 1)
  {
    ChildStands(der, ix, t, k);
    ElementDecodes(der, ChildPosition(ix, t, k), t.children[k]);
  }

  lemma {:induction false} ChildIsAtPosition(der: bytes, ix: nat, t: Tlv, k: nat)
    requires Valid(t) && t.Sequence? && At(der, ix, Encode(t)) && k < |t.children|
    ensures Child(der, NodeOf(ix, t), k) == ReadNodeLength(der, ChildPosition(ix, t, k))
  {
    hide ReadNodeLength, At, Encode;
    if k > 0 {
      ChildIsAtPosition(der, ix, t, k - 1);
      ChildReads(der, ix, t, k - 1);
    } else {
      ElementDecodes(der, ix, t);
      assert ChildPosition(ix, t, 0) == NodeOf(ix, t).content;
    }
  }

  /** Going to child k lands exactly on child k, whose end is the start of child k + 1. */
  lemma ChildDecodes(der: bytes, ix: nat, t: Tlv, k: nat)
    requires Valid(t) && t.Sequence? && At(der, ix, Encode(t)) && k < |t.children|
    ensures Valid(t.children[k])
    ensures Child(der, NodeOf(ix, t), k) == Ok(NodeOf(ChildPosition(ix, t, k), t.children[k]))
    ensures NodeOf(ChildPosition(ix, t, k), t.children[k]).End() == ChildPosition(ix, t, k + 1)
  {
    ChildIsAtPosition(der, ix, t, k);
    ChildReads(der, ix, t, k);
  }

  /** The last child ends where its parent ends. */
  lemma LastChildEndsParent(ix: nat, t: Tlv)
    requires Valid(t) && t.Sequence?
    ensures ChildPosition(ix, t, |t.children|) == NodeOf(ix, t).End()
  {
    OffsetOfEnd(t.children);
  }

  // ---------------------------------------------------------------- whole trees

  /** The subtree reached by a path of child indices. */
  function Subtree(t: Tlv, path: seq<nat>): Option<Tlv>
    decreases path
  {
    if |path| == 0 then Some(t)
    else if t.Sequence? && path[0] < |t.children| then Subtree(t.children[path[0]], path[1..])
    else None
  }

  /** Walking the same path over the bytes. */
  function Walk(der: bytes, ptr: Asn1Ptr, path: seq<nat>): Result<Asn1Ptr>
    decreases path
  {
    if |path| == 0 then Ok(ptr)
    else
      var child :- Child(der, ptr, path[0]);
      Walk(der, child, path[1..])
  }

  lemma {:induction false} WalkDecodes(der: bytes, ix: nat, t: Tlv, path: seq<nat>) returns (at: nat)
    requires Valid(t) && At(der, ix, Encode(t)) && Subtree(t, path).Some?
    ensures var s := Subtree(t, path).value;
      && Valid(s) && At(der, at, Encode(s))
      && Walk(der, NodeOf(ix, t), path) == Ok(NodeOf(at, s))
    decreases path
  {
    if |path| == 0 {
      at := ix;
    } else {
      ChildDecodes(der, ix, t, path[0]);
      ChildStands(der, ix, t, path[0]);
      at := WalkDecodes(der, ChildPosition(ix, t, path[0]), t.children[path[0]], path[1..]);
    }
  }

  /** The node delimits the encoding of `t`, and its content the contents of `t`. */
  ghost predicate Delimits(der: bytes, ptr: Asn1Ptr, t: Tlv)
    requires Valid(t)
  {
    && ptr.header <= ptr.content <= ptr.End() <= |der|
    && der[ptr.header..ptr.End()] == Encode(t)
    && der[ptr.content..ptr.End()] == Contents(t)
  }

  lemma NodeDelimits(der: bytes, ix: nat, t: Tlv)
    requires Valid(t) && At(der, ix, Encode(t))
    ensures ReadNodeLength(der, ix) == Ok(NodeOf(ix, t)) && Delimits(der, NodeOf(ix, t), t)
  {
    ElementDecodes(der, ix, t);
  }

  /**
   Navigation inverts encoding: from the root of any encoded tree, every path of child indices
   leads to the node that delimits exactly the encoding of the subtree at that path.
   */
  lemma NavigationInvertsEncoding(der: bytes, t: Tlv, path: seq<nat>)
    requires Valid(t) && At(der, 0, Encode(t)) && Subtree(t, path).Some?
    ensures Root(der).Ok? && Walk(der, Root(der).value, path).Ok?
    ensures Valid(Subtree(t, path).value)
    ensures Delimits(der, Walk(der, Root(der).value, path).value, Subtree(t, path).value)
  {
    NodeDelimits(der, 0, t);
    var at := WalkDecodes(der, 0, t, path);
    NodeDelimits(der, at, Subtree(t, path).value);
  }
}
