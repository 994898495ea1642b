/** What holds of the registry over any sequence of stores (DKIMRegistry.sol:111-144). */
module RegistryProperties {
  import opened Basics
  import opened CborDecode
  import opened Registry

  // ---------------------------------------------------------------- stores as a fold over offers

  function Apply(s: Storage, offers: seq<Offer>): Storage {
    if |offers| == 0 then s else Store(Apply(s, offers[..|offers| - 1]), offers[|offers| - 1])
  }

  lemma {:induction false} ApplyAppend(s: Storage, a: seq<Offer>, b: seq<Offer>)
    ensures Apply(s, a + b) == Apply(Apply(s, a), b)
    decreases |b|
  {
    hide Store;
    if |b| == 0 {
      assert a + b == a;
    } else {
      ApplyAppend(s, a, b[..|b| - 1]);
      assert (a + b)[..|a + b| - 1] == a + b[..|b| - 1];
    }
  }

  lemma {:induction false} ApplyOne(s: Storage, offer: Offer)
    ensures Apply(s, [offer]) == Store(s, offer)
  {
    assert [offer][..0] == [];
  }

  /** The pairs that a user data string offers, whatever is stored already. */
  function OffersFrom(data: bytes, current: CborElement, n: nat): Result<seq<Offer>>
    decreases n
  {
    if n == 0 || current.End() >= |data| then Ok([])
    else
      var (next, offer) :- ReadPair(data, current);
      var rest :- OffersFrom(data, next, n - 1);
      Ok([offer] + rest)
  }

  function OffersOf(data: bytes): Result<seq<Offer>> {
    var topLevel :- MapAt(data, 0);
    OffersFrom(data, topLevel, topLevel.value)
  }

  lemma {:induction false} EntriesAreOffers(data: bytes, current: CborElement, n: nat, s: Storage)
    ensures OffersFrom(data, current, n).Revert? ==> StoreEntries(data, current, n, s).Revert?
    ensures OffersFrom(data, current, n).Ok? ==>
      StoreEntries(data, current, n, s) == Ok(Apply(s, OffersFrom(data, current, n).value))
    decreases n
  {
    hide ReadPair, Store;
    if n > 0 && current.End() < |data| && ReadPair(data, current).Ok? {
      var (next, offer) := ReadPair(data, current).value;
      EntriesAreOffers(data, next, n - 1, Store(s, offer));
      if OffersFrom(data, next, n - 1).Ok? {
        ApplyAppend(s, [offer], OffersFrom(data, next, n - 1).value);
        ApplyOne(s, offer);
      }
    }
  }

  /** Any store is the fold of what it offers: all of it, or none if it reverts. */
  lemma {:induction false} StoreIsFold(data: bytes, s: Storage)
    ensures ParseAndStore(data, s) ==
      match OffersOf(data)
      case Ok(offers) => Ok(Apply(s, offers))
      case Revert => Revert
  {
    hide ElementAt, StoreEntries, OffersFrom;
    if MapAt(data, 0).Ok? {
      EntriesAreOffers(data, MapAt(data, 0).value, MapAt(data, 0).value.value, s);
    }
  }

  /** The storage after a run of stores since deployment; a revert leaves it alone. */
  function Run(datas: seq<bytes>): Storage {
    if |datas| == 0 then NOTHING_STORED
    else
      var before := Run(datas[..|datas| - 1]);
      match ParseAndStore(datas[|datas| - 1], before)
      case Ok(s) => s
      case Revert => before
  }

  /** Everything offered along a run, in order; a reverted store offers nothing. */
  function AllOffers(datas: seq<bytes>): seq<Offer> {
    if |datas| == 0 then []
    else AllOffers(datas[..|datas| - 1]) + (match OffersOf(datas[|datas| - 1]) case Ok(o) => o case Revert => [])
  }

  lemma {:induction false} RunIsFold(datas: seq<bytes>)
    ensures Run(datas) == Apply(NOTHING_STORED, AllOffers(datas))
  {
    hide ParseAndStore, OffersOf;
    if |datas| == 0 {
    } else {
      var n := |datas| - 1;
      RunIsFold(datas[..n]);
      StoreIsFold(datas[n], Run(datas[..n]));
      if OffersOf(datas[n]).Ok? {
        ApplyAppend(NOTHING_STORED, AllOffers(datas[..n]), OffersOf(datas[n]).value);
      } else {
        assert AllOffers(datas) == AllOffers(datas[..n]);
      }
    }
  }

  // ---------------------------------------------------------------- first key wins

  /** Offer `i` is the first with a key for the pair. */
  ghost predicate FirstKeyAt(offers: seq<Offer>, pair: Pair, i: nat) {
    && i < |offers| && PairOf(offers[i]) == pair && |offers[i].publicKey| > 0
    && forall j {:trigger offers[j]} :: 0 <= j < i && PairOf(offers[j]) == pair ==> |offers[j].publicKey| == 0
  }

  /** No offer has a key for the pair. */
  ghost predicate NoKey(offers: seq<Offer>, pair: Pair) {
    forall j {:trigger offers[j]} :: 0 <= j < |offers| && PairOf(offers[j]) == pair ==> |offers[j].publicKey| == 0
  }

  /** Adding an offer moves neither an earlier first key nor, if it has none for the pair, the lack of one. */
  lemma {:induction false} FirstKeyStep(offers: seq<Offer>, pair: Pair, i: nat)
    requires |offers| > 0
    ensures var before, last := offers[..|offers| - 1], offers[|offers| - 1];
      && (i < |before| ==> (FirstKeyAt(offers, pair, i) <==> FirstKeyAt(before, pair, i)))
      && (i == |before| ==>
          (FirstKeyAt(offers, pair, i) <==> NoKey(before, pair) && PairOf(last) == pair && |last.publicKey| > 0))
      && (NoKey(offers, pair) <==> NoKey(before, pair) && (PairOf(last) == pair ==> |last.publicKey| == 0))
  {
    hide PairOf;
    var before, last := offers[..|offers| - 1], offers[|offers| - 1];
    assert forall j {:trigger offers[j]} :: 0 <= j < |before| ==> offers[j] == before[j];
    assert forall j {:trigger before[j]} :: 0 <= j < |before| ==> offers[j] == before[j];
  }

  /** How often a pair is listed, and how often it was offered. */
  function Listed(domains: seq<bytes>, selectors: seq<bytes>, pair: Pair): nat
    requires |domains| == |selectors|
  {
    if |domains| == 0 then 0
    else
      var n := |domains| - 1;
      Listed(domains[..n], selectors[..n], pair) + if (domains[n], selectors[n]) == pair then 1 else 0
  }

  function Offered(offers: seq<Offer>, pair: Pair): nat {
    if |offers| == 0 then 0
    else Offered(offers[..|offers| - 1], pair) + if PairOf(offers[|offers| - 1]) == pair then 1 else 0
  }

  /** The two index arrays always have the same length. */
  lemma {:induction false} IndicesAligned(offers: seq<Offer>)
    ensures var s := Apply(NOTHING_STORED, offers); |s.domains| == |s.selectors|
  {
    hide PairOf;
    if |offers| == 0 {
    } else {
      IndicesAligned(offers[..|offers| - 1]);
    }
  }

  /** How one offer changes the key and the rows of a pair. */
  lemma {:induction false} StoreStep(s: Storage, offer: Offer, pair: Pair)
    requires |s.domains| == |s.selectors| && IsPair(pair)
    ensures var s' := Store(s, offer);
      && |s'.domains| == |s'.selectors|
      && var taken := PairOf(offer) == pair && |s.Key(pair)| == 0;
         && s'.Key(pair) == (if taken then offer.publicKey else s.Key(pair))
         && Listed(s'.domains, s'.selectors, pair) == Listed(s.domains, s.selectors, pair) + if taken then 1 else 0
  {
    hide PairOf;
    var s' := Store(s, offer);
    if |s'.domains| > |s.domains| {
      assert s'.domains[..|s.domains|] == s.domains && s'.selectors[..|s.domains|] == s.selectors;
    }
  }

  /** The state of one pair, as it depends on what was offered. */
  ghost predicate PairState(offers: seq<Offer>, pair: Pair, key: bytes, listed: nat) {
    if NoKey(offers, pair) then key == [] && listed == Offered(offers, pair)
    else exists i: nat {:trigger offers[i]} ::
      i < |offers| && FirstKeyAt(offers, pair, i) && key == offers[i].publicKey
      && listed == Offered(offers[..i], pair) + 1
  }

  lemma {:induction false} PairStateStep(offers: seq<Offer>, pair: Pair, key: bytes, listed: nat)
    requires |offers| > 0 && PairState(offers[..|offers| - 1], pair, key, listed)
    ensures var offer := offers[|offers| - 1];
      var taken := PairOf(offer) == pair && |key| == 0;
      PairState(offers, pair, if taken then offer.publicKey else key, listed + if taken then 1 else 0)
  {
    hide PairOf, FirstKeyAt, NoKey;
    var n := |offers| - 1;
    var before, offer := offers[..n], offers[n];
    FirstKeyStep(offers, pair, n);
    if !NoKey(before, pair) {
      var i: nat :|
        i < |before| && FirstKeyAt(before, pair, i) && key == before[i].publicKey
        && listed == Offered(before[..i], pair) + 1;
      FirstKeyStep(offers, pair, i);
      FirstHasKey(before, pair, i);
      assert before[..i] == offers[..i] && before[i] == offers[i];
    } else if PairOf(offer) == pair && |offer.publicKey| > 0 {
      assert FirstKeyAt(offers, pair, n) && offers[..n] == before && offers[n] == offer;
    }
  }

  lemma FirstHasKey(offers: seq<Offer>, pair: Pair, i: nat)
    requires FirstKeyAt(offers, pair, i)
    ensures i < |offers| && |offers[i].publicKey| > 0
  {}

  /**
   The fold theorem. After any offers, a pair has a key exactly when a non-empty one was offered, and it is
   the first of those; and the pair is listed once for every offer up to and including that first
   one (for every offer at all, while there is none).
   */
  lemma {:induction false} FoldTheorem(offers: seq<Offer>, pair: Pair)
    requires IsPair(pair)
    ensures var s := Apply(NOTHING_STORED, offers);
      |s.domains| == |s.selectors| && PairState(offers, pair, s.Key(pair), Listed(s.domains, s.selectors, pair))
  {
    hide PairOf, PairState, Store, IsPair;
    if |offers| == 0 {
      NothingOffered(offers, pair);
    } else {
      var n := |offers| - 1;
      var s := Apply(NOTHING_STORED, offers[..n]);
      FoldTheorem(offers[..n], pair);
      StoreStep(s, offers[n], pair);
      PairStateStep(offers, pair, s.Key(pair), Listed(s.domains, s.selectors, pair));
    }
  }

  lemma {:induction false} NothingOffered(offers: seq<Offer>, pair: Pair)
    requires |offers| == 0
    ensures PairState(offers, pair, [], 0)
  {}

  /** Once a key is there, no further run of stores changes it. */
  lemma {:induction false} KeyNeverChanges(datas: seq<bytes>, more: seq<bytes>, pair: Pair)
    requires |Run(datas).Key(pair)| > 0
    ensures Run(datas + more).Key(pair) == Run(datas).Key(pair)
    decreases |more|
  {
    hide ParseAndStore, OffersOf;
    if |more| == 0 {
      assert datas + more == datas;
    } else {
      var n := |more| - 1;
      KeyNeverChanges(datas, more[..n], pair);
      assert (datas + more)[..|datas + more| - 1] == datas + more[..n];
      var before := Run(datas + more[..n]);
      StoreIsFold(more[n], before);
      if OffersOf(more[n]).Ok? { KeyKept(before, OffersOf(more[n]).value, pair); }
    }
  }

  lemma {:induction false} KeyKept(s: Storage, offers: seq<Offer>, pair: Pair)
    requires |s.Key(pair)| > 0
    ensures Apply(s, offers).Key(pair) == s.Key(pair)
    decreases |offers|
  {
    hide PairOf;
    if |offers| == 0 {
    } else {
      KeyKept(s, offers[..|offers| - 1], pair);
    }
  }

  /** A pair with a key is listed; and just once exactly when no empty key was offered for it before. */
  lemma {:induction false} ListedOnce(datas: seq<bytes>, pair: Pair)
    requires IsPair(pair) && |Run(datas).Key(pair)| > 0
    ensures |Run(datas).domains| == |Run(datas).selectors|
    ensures Listed(Run(datas).domains, Run(datas).selectors, pair) >= 1
    ensures Listed(Run(datas).domains, Run(datas).selectors, pair) == 1 <==>
      exists i: nat {:trigger AllOffers(datas)[i]} :: i < |AllOffers(datas)| && FirstKeyAt(AllOffers(datas), pair, i)
                                                       && NeverOffered(AllOffers(datas)[..i], pair)
  {
    hide PairOf, FirstKeyAt, NeverOffered, Store, IsPair;
    var offers := AllOffers(datas);
    RunIsFold(datas);
    FoldTheorem(offers, pair);
    var s := Apply(NOTHING_STORED, offers);
    var listed := Listed(s.domains, s.selectors, pair);
    assert !NoKey(offers, pair);
    var i: nat :| i < |offers| && FirstKeyAt(offers, pair, i) && listed == Offered(offers[..i], pair) + 1;
    OfferedZero(offers[..i], pair);
    forall k: nat | k < |offers| && FirstKeyAt(offers, pair, k) ensures k == i { FirstKeyUnique(offers, pair, i, k); }
  }

  ghost predicate NeverOffered(offers: seq<Offer>, pair: Pair) {
    forall j {:trigger offers[j]} :: 0 <= j < |offers| ==> PairOf(offers[j]) != pair
  }

  lemma {:induction false} OfferedZero(offers: seq<Offer>, pair: Pair)
    ensures Offered(offers, pair) == 0 <==> NeverOffered(offers, pair)
    decreases |offers|
  {
    hide PairOf;
    if |offers| == 0 {
    } else {
      var before := offers[..|offers| - 1];
      OfferedZero(before, pair);
      assert forall j {:trigger before[j]} :: 0 <= j < |before| ==> before[j] == offers[j];
      assert forall j {:trigger offers[j]} :: 0 <= j < |before| ==> before[j] == offers[j];
    }
  }

  lemma FirstKeyUnique(offers: seq<Offer>, pair: Pair, i: nat, k: nat)
    requires FirstKeyAt(offers, pair, i) && FirstKeyAt(offers, pair, k)
    ensures i == k
  {
    hide PairOf;
  }

  // ---------------------------------------------------------------- what one offer stores

  /** The first ';' of a flat key, with something before and behind it. */
  predicate SplitsAt(flatKey: bytes, i: nat) {
    && 0 < i < |flatKey| - 1 && flatKey[i] == ';' as int
    && forall j {:trigger flatKey[j]} :: 0 <= j < i ==> flatKey[j] != ';' as int
  }

  lemma {:induction false} FirstSemicolon(s: bytes, from: nat, i: nat)
    requires from <= i < |s| && s[i] == ';' as int && forall j {:trigger s[j]} :: from <= j < i ==> s[j] != ';' as int
    ensures SemicolonFrom(s, from) == i
    decreases i - from
  {
    if from < i { FirstSemicolon(s, from + 1, i); }
  }

  lemma {:induction false} FoundSemicolon(s: bytes, from: nat)
    requires from <= |s|
    ensures var pos := SemicolonFrom(s, from);
      pos != 0 ==> s[pos] == ';' as int && forall j {:trigger s[j]} :: from <= j < pos ==> s[j] != ';' as int
    decreases |s| - from
  {
    if from < |s| && s[from] != SEMICOLON { FoundSemicolon(s, from + 1); }
  }

  /**
   A flat key that splits stores its key for the domain before the first ';' and the selector behind it, and lists them,
   unless that pair has a key already.
   */
  lemma StoreSplit(s: Storage, flatKey: bytes, publicKey: bytes, i: nat)
    requires SplitsAt(flatKey, i)
    ensures var domain, selector := flatKey[..i], flatKey[i + 1..];
      Store(s, Offer(flatKey, publicKey)) ==
      if (domain, selector) in s.keys && s.keys[(domain, selector)] != [] then s
      else Storage(s.keys[(domain, selector) := publicKey], s.domains + [domain], s.selectors + [selector])
  {
    FirstSemicolon(flatKey, 0, i);
  }

  /** Any other flat key, without a ';' or with its first one at either end, stores and lists nothing. */
  lemma StoreUnsplit(s: Storage, offer: Offer)
    requires forall i: nat :: !SplitsAt(offer.flatKey, i)
    ensures Store(s, offer) == s
  {
    FoundSemicolon(offer.flatKey, 0);
    var pos := SemicolonFrom(offer.flatKey, 0);
    assert !SplitsAt(offer.flatKey, pos);
  }

  /** A domain and a selector, and no ';' in the domain. */
  predicate ProperPair(pair: Pair) { pair.0 != [] && pair.1 != [] && ';' as int !in pair.0 }

  /** Only proper pairs are stored and listed, and exactly those listed are stored. */
  ghost predicate Consistent(s: Storage) {
    && |s.domains| == |s.selectors|
    && (forall i {:trigger s.domains[i]} :: 0 <= i < |s.domains| ==>
          ProperPair((s.domains[i], s.selectors[i])) && (s.domains[i], s.selectors[i]) in s.keys)
    && (forall pair {:trigger pair in s.keys} :: pair in s.keys ==>
          exists i {:trigger s.domains[i]} :: 0 <= i < |s.domains| && pair == (s.domains[i], s.selectors[i]))
  }

  lemma ConsistentStep(s: Storage, offer: Offer)
    requires Consistent(s)
    ensures Consistent(Store(s, offer))
  {
    hide Split;
    var s' := Store(s, offer);
    if s' != s {
      var pair := PairOf(offer);
      ProperSplit(offer);
      assert s'.domains[|s.domains|] == pair.0 && s'.selectors[|s.domains|] == pair.1;
      forall i {:trigger s'.domains[i]} | 0 <= i < |s'.domains|
        ensures ProperPair((s'.domains[i], s'.selectors[i])) && (s'.domains[i], s'.selectors[i]) in s'.keys
      {
        if i < |s.domains| { assert s'.domains[i] == s.domains[i] && s'.selectors[i] == s.selectors[i]; }
      }
      forall p {:trigger p in s'.keys} | p in s'.keys
        ensures exists i {:trigger s'.domains[i]} :: 0 <= i < |s'.domains| && p == (s'.domains[i], s'.selectors[i])
      {
        if p != pair {
          var i :| 0 <= i < |s.domains| && p == (s.domains[i], s.selectors[i]);
          assert s'.domains[i] == s.domains[i];
        }
      }
    }
  }

  lemma ProperSplit(offer: Offer)
    requires IsPair(PairOf(offer))
    ensures ProperPair(PairOf(offer))
  {
    FoundSemicolon(offer.flatKey, 0);
  }

  /** In every reachable storage. */
  lemma {:induction false} RunConsistent(datas: seq<bytes>)
    ensures Consistent(Run(datas))
  {
    hide Consistent, Store;
    RunIsFold(datas);
    FoldConsistent(AllOffers(datas));
  }

  lemma {:induction false} FoldConsistent(offers: seq<Offer>)
    ensures Consistent(Apply(NOTHING_STORED, offers))
    decreases |offers|
  {
    hide Consistent, Store;
    if |offers| == 0 {
      NothingConsistent();
    } else {
      FoldConsistent(offers[..|offers| - 1]);
      ConsistentStep(Apply(NOTHING_STORED, offers[..|offers| - 1]), offers[|offers| - 1]);
    }
  }

  lemma NothingConsistent()
    ensures Consistent(NOTHING_STORED)
  {}
}
