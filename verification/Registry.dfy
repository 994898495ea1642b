/**
 The DKIM key registry (DKIMRegistry.sol:15-173): keys are written once per (domain, selector), from the
 text pairs of the user data.
 */
module Registry {
  import opened Basics
  import opened CborDecode

  /** ';' */
  const SEMICOLON: byte := 0x3b

  /** The position of the first ';' from `i` on, or 0. */
  function SemicolonFrom(s: bytes, i: nat): (pos: nat)
    requires i <= |s|
    ensures pos != 0 ==> i <= pos < |s| && s[pos] == SEMICOLON
    decreases |s| - i
  {
    if i == |s| then 0 else if s[i] == SEMICOLON then i else SemicolonFrom(s, i + 1)
  }

  /** `_splitDomainSelector`: both parts, or two empty ones. */
  function Split(flatKey: bytes): (bytes, bytes) {
    var pos := SemicolonFrom(flatKey, 0);
    if 0 < pos < |flatKey| - 1 then (flatKey[..pos], flatKey[pos + 1..]) else ([], [])
  }

  type Pair = (bytes, bytes)

  /** The storage: the key of a pair (empty when never written) and the two index arrays. */
  datatype Storage = Storage(keys: map<Pair, bytes>, domains: seq<bytes>, selectors: seq<bytes>) {
    function Key(pair: Pair): bytes { if pair in keys then keys[pair] else [] }
  }

  const NOTHING_STORED := Storage(map[], [], [])

  /** One text pair of the user data. */
  datatype Offer = Offer(flatKey: bytes, publicKey: bytes)

  /** The pair an offer is for. */
  function PairOf(offer: Offer): Pair { Split(offer.flatKey) }

  predicate IsPair(pair: Pair) { |pair.0| > 0 && |pair.1| > 0 }

  function Store(s: Storage, offer: Offer): Storage {
    var pair := PairOf(offer);
    if IsPair(pair) && |s.Key(pair)| == 0 then
      Storage(s.keys[pair := offer.publicKey], s.domains + [pair.0], s.selectors + [pair.1])
    else s
  }

  /** The two text strings of one entry, and the last element read. */
  function ReadPair(data: bytes, current: CborElement): Result<(CborElement, Offer)> {
    var key :- NextTextString(data, current);
    var flatKey :- SliceOf(data, key);
    var value :- NextTextString(data, key);
    var publicKey :- SliceOf(data, value);
    Ok((value, Offer(flatKey, publicKey)))
  }

  /** The loop over the announced entries, which also stops at the end of the bytes. */
  function StoreEntries(data: bytes, current: CborElement, n: nat, s: Storage): Result<Storage>
    decreases n
  {
    if n == 0 || current.End() >= |data| then Ok(s)
    else
      var (next, offer) :- ReadPair(data, current);
      StoreEntries(data, next, n - 1, Store(s, offer))
  }

  /** `_parseAndStoreDKIMKeys`. */
  function ParseAndStore(data: bytes, s: Storage): Result<Storage> {
    var topLevel :- MapAt(data, 0);
    StoreEntries(data, topLevel, topLevel.value, s)
  }

  // ---------------------------------------------------------------- the contract

  /** `_splitDomainSelector`, with its loops. */
  method SplitDomainSelector(flatKey: bytes) returns (domain: bytes, selector: bytes)
    ensures (domain, selector) == Split(flatKey)
  {
    domain, selector := [], [];
    var semicolonPos, i := 0, 0;
    while i < |flatKey|
      invariant i <= |flatKey| && semicolonPos == 0
      invariant SemicolonFrom(flatKey, 0) == SemicolonFrom(flatKey, i)
    {
      if flatKey[i] == SEMICOLON {
        semicolonPos := i;
        break;
      }
      i := i + 1;
    }
    assert semicolonPos == SemicolonFrom(flatKey, 0);
    if 0 < semicolonPos < |flatKey| - 1 {
      domain := CopyOut(flatKey, 0, semicolonPos);
      selector := CopyOut(flatKey, semicolonPos + 1, |flatKey| - semicolonPos - 1);
      assert domain == flatKey[..semicolonPos] && selector == flatKey[semicolonPos + 1..];
    }
  }

  /** A fresh array filled byte by byte. */
  method CopyOut(s: bytes, start: nat, n: nat) returns (r: bytes)
    requires start + n <= |s|
    ensures r == s[start..start + n]
  {
    var a := new byte[n](_ => 0);
    for i := 0 to n
      invariant a[..i] == s[start..start + i]
    {
      a[i] := s[start + i];
      assert a[..i + 1] == a[..i] + [a[i]];
    }
    r := a[..];
  }

  class DKIMRegistry {
    var keys: map<Pair, bytes>
    var allDomains: seq<bytes>
    var allSelectors: seq<bytes>

    ghost function Stored(): Storage
      reads this
    {
      Storage(keys, allDomains, allSelectors)
    }

    constructor ()
      ensures Stored() == NOTHING_STORED
    {
      keys, allDomains, allSelectors := map[], [], [];
    }

    method StoreOne(domain: bytes, selector: bytes, publicKey: bytes, ghost flatKey: bytes)
      requires (domain, selector) == Split(flatKey)
      modifies this
      ensures Stored() == Store(old(Stored()), Offer(flatKey, publicKey))
    {
      if |domain| > 0 && |selector| > 0 {
        if (domain, selector) !in keys || |keys[(domain, selector)]| == 0 {
          keys := keys[(domain, selector) := publicKey];
          allDomains := allDomains + [domain];
          allSelectors := allSelectors + [selector];
        }
      }
    }

    /** Stores every entry, or reverts and changes nothing. */
    method ParseAndStoreDKIMKeys(data: bytes) returns (r: Result<()>)
      modifies this
      ensures match ParseAndStore(data, old(Stored()))
              case Ok(s) => r.Ok? && Stored() == s
              case Revert => r.Revert? && Stored() == old(Stored())
    {
      hide ElementAt, Store, Split;
      var before := (keys, allDomains, allSelectors);
      ghost var s0 := Stored();
      var top := MapAt(data, 0);
      if top.Revert? { return Revert; }
      var current, n, i := top.value, top.value.value, 0;
      while i < n && current.End() < |data|
        invariant i <= n
        invariant ParseAndStore(data, s0) == StoreEntries(data, current, n - i, Stored())
        invariant s0 == Storage(before.0, before.1, before.2)
      {
        var pair := ReadPair(data, current);
        if pair.Revert? {
          keys, allDomains, allSelectors := before.0, before.1, before.2;
          return Revert;
        }
        var domain, selector := SplitDomainSelector(pair.value.1.flatKey);
        StoreOne(domain, selector, pair.value.1.publicKey, pair.value.1.flatKey);
        current, i := pair.value.0, i + 1;
      }
      r := Ok(());
    }

    /** `getDKIMKey`. */
    method GetDKIMKey(domain: bytes, selector: bytes) returns (publicKey: bytes, isValid: bool)
      ensures publicKey == Stored().Key((domain, selector))
      ensures isValid <==> |publicKey| > 0
    {
      if (domain, selector) in keys && |keys[(domain, selector)]| != 0 {
        return keys[(domain, selector)], true;
      }
      return [], false;
    }

    /** `getAllDKIMKeys`: the two index arrays and the present key of every row. */
    method GetAllDKIMKeys() returns (domains: seq<bytes>, selectors: seq<bytes>, publicKeys: seq<bytes>)
      requires |allDomains| == |allSelectors|
      ensures domains == allDomains && selectors == allSelectors && |publicKeys| == |domains|
      ensures forall i {:trigger publicKeys[i]} :: 0 <= i < |publicKeys| ==>
        publicKeys[i] == Stored().Key((domains[i], selectors[i]))
    {
      domains, selectors, publicKeys := [], [], [];
      for i := 0 to |allDomains|
        invariant domains == allDomains[..i] && selectors == allSelectors[..i] && |publicKeys| == i
        invariant forall k {:trigger publicKeys[k]} :: 0 <= k < i ==>
          publicKeys[k] == Stored().Key((allDomains[k], allSelectors[k]))
      {
        domains, selectors := domains + [allDomains[i]], selectors + [allSelectors[i]];
        var pair := (allDomains[i], allSelectors[i]);
        publicKeys := publicKeys + [if pair in keys then keys[pair] else []];
      }
    }
  }
}
