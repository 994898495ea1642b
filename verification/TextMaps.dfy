/** The text map that the Go producer marshals (attestation.go:80-93) and what the registry's parser makes of it. */
module TextMaps {
  import opened Basics
  import opened CborDecode
  import opened UserData
  import opened AttestationCoding
  import R = Registry
  import P = RegistryProperties

  /** One text pair of a CBOR map. */
  datatype TextPair = TextPair(key: Str, value: Str) {
    predicate Valid() { key.Valid() && value.Valid() }

    function Encode(): (r: bytes)
      requires Valid()
      ensures |r| > 0
    {
      TextString(key) + TextString(value)
    }

    function Offer(): R.Offer { R.Offer(key.content, value.content) }
  }

  predicate ValidPairs(pairs: seq<TextPair>) {
    forall i {:trigger pairs[i]} :: 0 <= i < |pairs| ==> pairs[i].Valid()
  }

  function EncodePairs(pairs: seq<TextPair>): bytes
    requires ValidPairs(pairs)
  {
    if |pairs| == 0 then [] else pairs[0].Encode() + EncodePairs(pairs[1..])
  }

  function EncodeMap(pairs: seq<TextPair>, count: nat, w: Width): bytes
    requires ValidPairs(pairs) && w.Fits(count)
  {
    Head(5, count, w) + EncodePairs(pairs)
  }

  function Offers(pairs: seq<TextPair>, n: nat): seq<R.Offer> {
    if n == 0 || |pairs| == 0 then [] else [pairs[0].Offer()] + Offers(pairs[1..], n - 1)
  }

  lemma PairReads(data: bytes, current: CborElement, p: TextPair)
    requires p.Valid() && At(data, current.End(), p.Encode())
    ensures R.ReadPair(data, current).Ok? && R.ReadPair(data, current).value.1 == p.Offer()
    ensures R.ReadPair(data, current).value.0.End() == current.End() + |p.Encode()|
  {
    hide ElementAt, TextString, SliceOf;
    AtSplit(data, current.End(), TextString(p.key), TextString(p.value));
    TextStringReads(data, current, p.key);
    TextStringReads(data, NextTextString(data, current).value, p.value);
  }

  lemma {:induction false} PairsRead(data: bytes, current: CborElement, n: nat, pairs: seq<TextPair>)
    requires ValidPairs(pairs) && At(data, current.End(), EncodePairs(pairs))
    requires current.End() + |EncodePairs(pairs)| == |data|
    ensures P.OffersFrom(data, current, n) == Ok(Offers(pairs, n))
    decreases n
  {
    hide At, R.ReadPair;
    if n == 0 || |pairs| == 0 {
    } else {
      AtSplit(data, current.End(), pairs[0].Encode(), EncodePairs(pairs[1..]));
      PairReads(data, current, pairs[0]);
      PairsRead(data, R.ReadPair(data, current).value.0, n - 1, pairs[1..]);
    }
  }

  /** An encoded text map offers its pairs in order: as many as its head announces, or all if it announces more. */
  lemma {:induction false} MapOffers(pairs: seq<TextPair>, count: nat, w: Width)
    requires ValidPairs(pairs) && w.Fits(count)
    ensures P.OffersOf(EncodeMap(pairs, count, w)) == Ok(Offers(pairs, count))
  {
    hide ElementAt, Head, EncodePairs, Offers, P.OffersFrom;
    var data := EncodeMap(pairs, count, w);
    assert data[0..|data|] == data;
    AtSplit(data, 0, Head(5, count, w), EncodePairs(pairs));
    HeadDecodes(data, 0, 5, count, w, true);
    PairsRead(data, MapAt(data, 0).value, count, pairs);
  }

  /** Only the short head of a one-entry map is the byte that the extraction looks for. */
  lemma MapHeadByte(pairs: seq<TextPair>, count: nat, w: Width)
    requires ValidPairs(pairs) && w.Fits(count)
    ensures var data := EncodeMap(pairs, count, w);
      |data| > 0 && (data[0] == ONE_ENTRY <==> count == 1 && w == Inline)
  {
    hide EncodePairs, ValidPairs;
  }

  // ---------------------------------------------------------------- bytes that are no map head

  /** No byte is the head of a map. */
  ghost predicate NoMapHead(s: bytes) {
    forall k {:trigger s[k]} :: 0 <= k < |s| ==> s[k] / 32 != 5
  }

  /** ASCII text whose length octets, if it has any, are outside 0xa0 to 0xbf. */
  ghost predicate AsciiText(s: Str) {
    && s.Valid() && (forall k {:trigger s.content[k]} :: 0 <= k < |s.content| ==> s.content[k] < 128)
    && NoMapHead(ToBE(|s.content|, s.w.Bytes()))
  }

  ghost predicate AsciiPairs(pairs: seq<TextPair>) {
    forall i {:trigger pairs[i]} :: 0 <= i < |pairs| ==> AsciiText(pairs[i].key) && AsciiText(pairs[i].value)
  }

  lemma NoMapHeadConcat(a: bytes, b: bytes)
    requires NoMapHead(a) && NoMapHead(b)
    ensures NoMapHead(a + b)
  {}

  lemma AsciiTextString(s: Str)
    requires AsciiText(s)
    ensures NoMapHead(TextString(s))
  {
    hide ToBE;
  }

  lemma {:induction false} AsciiPairsEncode(pairs: seq<TextPair>)
    requires ValidPairs(pairs) && AsciiPairs(pairs)
    ensures NoMapHead(EncodePairs(pairs))
  {
    hide TextString, AsciiText, NoMapHead;
    if |pairs| == 0 {
      NothingIsNoMap();
    } else {
      AsciiTextString(pairs[0].key);
      AsciiTextString(pairs[0].value);
      NoMapHeadConcat(TextString(pairs[0].key), TextString(pairs[0].value));
      AsciiPairsEncode(pairs[1..]);
      NoMapHeadConcat(pairs[0].Encode(), EncodePairs(pairs[1..]));
    }
  }

  lemma NothingIsNoMap()
    ensures NoMapHead([])
  {}

  /** Lengths below 160 have such octets in every width. */
  lemma {:induction false} ShortLength(v: nat, n: nat)
    requires v < 160
    ensures NoMapHead(ToBE(v, n))
  {
    if n == 0 {
    } else {
      ShortLength(v / 256, n - 1);
    }
  }

  lemma {:induction false} FirstPairs(pairs: seq<TextPair>, m: nat)
    requires m <= |pairs| && ValidPairs(pairs)
    ensures ValidPairs(pairs[..m]) && ValidPairs(pairs[m..])
    ensures EncodePairs(pairs) == EncodePairs(pairs[..m]) + EncodePairs(pairs[m..])
    decreases m
  {
    hide TextPair.Encode, TextPair.Valid;
    if m == 0 {
      assert pairs[..0] == [] && pairs[0..] == pairs;
    } else {
      FirstPairs(pairs[1..], m - 1);
      assert pairs[..m][1..] == pairs[1..][..m - 1] && pairs[1..][m - 1..] == pairs[m..];
    }
  }

  /** In a map whose first `m` pairs are ASCII, no byte that stands in them is the head of a map. */
  lemma {:induction false} AsciiMapByte(pairs: seq<TextPair>, count: nat, w: Width, m: nat, k: nat)
    requires ValidPairs(pairs) && w.Fits(count) && m <= |pairs| && AsciiPairs(pairs[..m])
    requires |Head(5, count, w)| <= k < |Head(5, count, w)| + |EncodePairs(pairs[..m])|
    ensures k < |EncodeMap(pairs, count, w)| && EncodeMap(pairs, count, w)[k] / 32 != 5
  {
    hide EncodePairs, Head, ValidPairs, AsciiPairs;
    FirstPairs(pairs, m);
    AsciiPairsEncode(pairs[..m]);
    var i := k - |Head(5, count, w)|;
    assert EncodeMap(pairs, count, w)[k] == EncodePairs(pairs)[i] == EncodePairs(pairs[..m])[i];
  }
}
