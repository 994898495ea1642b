/** The producer's side: flattening nested DKIM maps into one (google/enclave/attest/attestation.go:80-87). */
module Flattening {
  import opened Basics
  import opened Registry

  // ---------------------------------------------------------------- flat keys

  /** `domain + ";" + selector`. */
  function FlatKey(domain: bytes, selector: bytes): bytes { domain + [SEMICOLON] + selector }

  lemma {:induction false} FirstSemicolon(s: bytes, i: nat, n: nat)
    requires i <= n < |s| && s[n] == SEMICOLON && SEMICOLON !in s[i..n]
    ensures SemicolonFrom(s, i) == n
    decreases n - i
  {
    if i == n {
    } else {
      assert s[i] in s[i..n];
      assert forall x :: x in s[i + 1..n] ==> x in s[i..n];
      FirstSemicolon(s, i + 1, n);
    }
  }

  lemma {:induction false} SemicolonBefore(s: bytes, i: nat, n: nat)
    requires i <= n < |s| && s[n] == SEMICOLON
    ensures i <= SemicolonFrom(s, i) <= n
    decreases n - i
  {
    if s[i] == SEMICOLON {
    } else {
      SemicolonBefore(s, i + 1, n);
    }
  }

  /**
   Splitting undoes flattening exactly for a non-empty domain without ';' and a non-empty selector (or when both are
   empty).
   */
  lemma {:induction false} SplitUndoesFlatten(domain: bytes, selector: bytes)
    ensures Split(FlatKey(domain, selector)) == (domain, selector) <==>
      (|domain| > 0 && SEMICOLON !in domain && |selector| > 0) || (domain == [] && selector == [])
  {
    var s, n := FlatKey(domain, selector), |domain|;
    assert s[..n] == domain && s[n + 1..] == selector && s[n] == SEMICOLON;
    if SEMICOLON !in domain {
      assert s[0..n] == domain;
      FirstSemicolon(s, 0, n);
    } else {
      var k :| 0 <= k < n && domain[k] == SEMICOLON;
      assert s[k] == SEMICOLON;
      SemicolonBefore(s, 0, k);
    }
  }

  /** Flat keys of domains without ';' determine domain and selector. */
  lemma {:induction false} FlatKeyInjective(d1: bytes, s1: bytes, d2: bytes, s2: bytes)
    requires SEMICOLON !in d1 && SEMICOLON !in d2 && FlatKey(d1, s1) == FlatKey(d2, s2)
    ensures d1 == d2 && s1 == s2
  {
    var s := FlatKey(d1, s1);
    assert s[..|d1|] == d1 && s[|d1| + 1..] == s1 && s[|d1|] == SEMICOLON;
    assert FlatKey(d2, s2)[..|d2|] == d2 && FlatKey(d2, s2)[|d2| + 1..] == s2 && FlatKey(d2, s2)[|d2|] == SEMICOLON;
    assert s[0..|d1|] == d1 && s[0..|d2|] == d2;
    FirstSemicolon(s, 0, |d1|);
    FirstSemicolon(s, 0, |d2|);
  }

  /**
   Two pairs collide exactly when the longer domain is the shorter one, a ';' and the beginning of the other's selector,
   up to a ';' in it behind which the longer one's selector follows.
   */
  ghost predicate Collides(d1: bytes, s1: bytes, d2: bytes, s2: bytes)
    requires |d1| < |d2|
  {
    && |d2| <= |d1| + |s1|
    && d2[..|d1|] == d1 && d2[|d1|] == SEMICOLON
    && s1 == d2[|d1| + 1..] + [SEMICOLON] + s2
  }

  lemma {:induction false} CollidesExactly(d1: bytes, s1: bytes, d2: bytes, s2: bytes)
    requires |d1| < |d2|
    ensures FlatKey(d1, s1) == FlatKey(d2, s2) <==> Collides(d1, s1, d2, s2)
  {
    var f1, f2 := FlatKey(d1, s1), FlatKey(d2, s2);
    if f1 == f2 {
      assert f2[..|d1|] == d1 && f2[|d1|] == SEMICOLON;
      assert d2[..|d1|] == f2[..|d1|];
      assert f1[|d1| + 1..] == s1;
      assert f2[|d1| + 1..] == d2[|d1| + 1..] + [SEMICOLON] + s2;
    }
    if Collides(d1, s1, d2, s2) {
      assert d2 == d1 + [SEMICOLON] + d2[|d1| + 1..];
      assert f1 == d1 + [SEMICOLON] + (d2[|d1| + 1..] + [SEMICOLON] + s2);
    }
  }

  /** Domains of the same length only collide if everything is the same. */
  lemma {:induction false} SameLengthInjective(d1: bytes, s1: bytes, d2: bytes, s2: bytes)
    requires |d1| == |d2| && FlatKey(d1, s1) == FlatKey(d2, s2)
    ensures d1 == d2 && s1 == s2
  {
    var n := |d1|;
    assert FlatKey(d1, s1)[..n] == d1 && FlatKey(d2, s2)[..n] == d2;
    assert FlatKey(d1, s1)[n + 1..] == s1 && FlatKey(d2, s2)[n + 1..] == s2;
  }

  /** "a;b" with "c" collides with "a" with "b;c". */
  lemma FlatKeysCollide()
    ensures FlatKey([0x61], [0x62, 0x3b, 0x63]) == FlatKey([0x61, 0x3b, 0x62], [0x63])
  {
    CollidesExactly([0x61], [0x62, 0x3b, 0x63], [0x61, 0x3b, 0x62], [0x63]);
  }

  // ---------------------------------------------------------------- the flattening loops

  type Nested = map<bytes, map<bytes, bytes>>

  predicate Has(dkim: Nested, pair: Pair) { pair.0 in dkim && pair.1 in dkim[pair.0] }

  function KeyIn(dkim: Nested, pair: Pair): bytes
    requires Has(dkim, pair)
  {
    dkim[pair.0][pair.1]
  }

  predicate NoSemicolons(dkim: Nested) {
    forall domain :: domain in dkim ==> SEMICOLON !in domain
  }

  /** The order in which the loops walk the nested map: the domains, and under each its selectors. */
  type Walk = seq<(bytes, seq<bytes>)>

  predicate Distinct(xs: seq<bytes>) {
    forall i, j :: 0 <= i < j < |xs| ==> xs[i] != xs[j]
  }

  lemma DistinctAppend(xs: seq<bytes>, x: bytes)
    requires Distinct(xs) && x !in xs
    ensures Distinct(xs + [x]) && forall y {:trigger y in xs + [x]} :: y in xs + [x] <==> y in xs || y == x
  {
    var ys := xs + [x];
    assert forall i :: 0 <= i < |xs| ==> ys[i] == xs[i] && ys[i] in xs;
    assert ys[|xs|] == x;
  }

  lemma NoneDistinct()
    ensures Distinct([])
  {}

  lemma DistinctFront(xs: seq<bytes>)
    requires Distinct(xs) && |xs| > 0
    ensures var n := |xs| - 1;
      && Distinct(xs[..n]) && xs[n] !in xs[..n] && xs == xs[..n] + [xs[n]]
      && forall y {:trigger y in xs} :: y in xs <==> y in xs[..n] || y == xs[n]
  {
    var n := |xs| - 1;
    assert xs == xs[..n] + [xs[n]];
  }

  /** A walk over some domains of the map, each once, and each with all of its selectors, each once. */
  ghost predicate WalksOver(dkim: Nested, walk: Walk, domains: set<bytes>)
    decreases |walk|
  {
    if |walk| == 0 then domains == {}
    else
      var (domain, selectors) := walk[|walk| - 1];
      && domain in domains && domain in dkim
      && Distinct(selectors) && (forall s {:trigger s in selectors} :: s in selectors <==> s in dkim[domain])
      && WalksOver(dkim, walk[..|walk| - 1], domains - {domain})
  }

  ghost predicate IsWalk(dkim: Nested, walk: Walk) { WalksOver(dkim, walk, dkim.Keys) }

  /** The inner loop: every selector of one domain is written under its flat key. */
  function Row(row: map<bytes, bytes>, domain: bytes, selectors: seq<bytes>, flat: map<bytes, bytes>): map<bytes, bytes>
    requires forall s :: s in selectors ==> s in row
  {
    if |selectors| == 0 then flat
    else
      var n := |selectors| - 1;
      Row(row, domain, selectors[..n], flat)[FlatKey(domain, selectors[n]) := row[selectors[n]]]
  }

  /** The outer loop. */
  ghost function Walked(dkim: Nested, walk: Walk, domains: set<bytes>): map<bytes, bytes>
    requires WalksOver(dkim, walk, domains)
    decreases |walk|
  {
    if |walk| == 0 then map[]
    else
      var (domain, selectors) := walk[|walk| - 1];
      Row(dkim[domain], domain, selectors, Walked(dkim, walk[..|walk| - 1], domains - {domain}))
  }

  /** The nested loops, in any order: the result is that of some walk. */
  method Flatten(dkim: Nested) returns (flat: map<bytes, bytes>)
    ensures exists walk :: IsWalk(dkim, walk) && flat == Walked(dkim, walk, dkim.Keys)
  {
    hide Row, Distinct, WalksOver, Walked;
    flat := map[];
    ghost var walk: Walk := [];
    var domains := dkim.Keys;
    NothingWalked(dkim);
    while domains != {}
      invariant domains <= dkim.Keys
      invariant WalksOver(dkim, walk, dkim.Keys - domains) && flat == Walked(dkim, walk, dkim.Keys - domains)
      decreases |domains|
    {
      var domain :| domain in domains;
      ghost var selectors;
      flat, selectors := FlattenDomain(dkim[domain], domain, flat);
      WalkFurther(dkim, walk, dkim.Keys - domains, domain, selectors);
      assert (dkim.Keys - domains) + {domain} == dkim.Keys - (domains - {domain});
      domains := domains - {domain};
      walk := walk + [(domain, selectors)];
    }
    assert dkim.Keys - {} == dkim.Keys;
    assert IsWalk(dkim, walk);
  }

  lemma NothingWalked(dkim: Nested)
    ensures WalksOver(dkim, [], dkim.Keys - dkim.Keys) && Walked(dkim, [], dkim.Keys - dkim.Keys) == map[]
  {}

  lemma {:induction false} WalkFurther(dkim: Nested, walk: Walk, domains: set<bytes>, domain: bytes,
                                       selectors: seq<bytes>)
    requires WalksOver(dkim, walk, domains) && domain in dkim && domain !in domains
    requires Distinct(selectors) && (forall s {:trigger s in selectors} :: s in selectors <==> s in dkim[domain])
    ensures WalksOver(dkim, walk + [(domain, selectors)], domains + {domain})
    ensures Walked(dkim, walk + [(domain, selectors)], domains + {domain})
            == Row(dkim[domain], domain, selectors, Walked(dkim, walk, domains))
  {
    hide Row;
    var walk' := walk + [(domain, selectors)];
    assert walk'[..|walk|] == walk && (domains + {domain}) - {domain} == domains;
  }

  method FlattenDomain(row: map<bytes, bytes>, domain: bytes, flat0: map<bytes, bytes>)
    returns (flat: map<bytes, bytes>, ghost walked: seq<bytes>)
    ensures Distinct(walked) && (forall s {:trigger s in walked} :: s in walked <==> s in row)
    ensures flat == Row(row, domain, walked, flat0)
  {
    hide FlatKey, Distinct;
    flat, walked := flat0, [];
    NoneDistinct();
    var selectors := row.Keys;
    while selectors != {}
      invariant selectors <= row.Keys && Distinct(walked)
      invariant forall s {:trigger s in walked} :: s in walked <==> s in row && s !in selectors
      invariant flat == Row(row, domain, walked, flat0)
      decreases |selectors|
    {
      var selector :| selector in selectors;
      flat := flat[FlatKey(domain, selector) := row[selector]];
      selectors := selectors - {selector};
      DistinctAppend(walked, selector);
      walked := walked + [selector];
      assert walked[..|walked| - 1] + [selector] == walked;
    }
  }

  // ---------------------------------------------------------------- which keys survive

  /** After one domain: its own selectors' flat keys carry their keys, and nothing else has changed. */
  lemma {:induction false} RowWrites(row: map<bytes, bytes>, domain: bytes, selectors: seq<bytes>,
                                     flat: map<bytes, bytes>, k: bytes)
    requires (forall s :: s in selectors ==> s in row) && Distinct(selectors)
    ensures var r := Row(row, domain, selectors, flat);
      && (forall s {:trigger s in selectors} :: s in selectors && k == FlatKey(domain, s) ==> k in r && r[k] == row[s])
      && ((forall s {:trigger s in selectors} :: s in selectors ==> k != FlatKey(domain, s)) ==>
            (k in r <==> k in flat) && (k in r ==> r[k] == flat[k]))
    decreases |selectors|
  {
    hide FlatKey, Distinct;
    if |selectors| == 0 {
    } else {
      var n := |selectors| - 1;
      var before := selectors[..n];
      DistinctFront(selectors);
      RowWrites(row, domain, before, flat, k);
      var r, last := Row(row, domain, selectors, flat), selectors[n];
      assert r == Row(row, domain, before, flat)[FlatKey(domain, last) := row[last]];
      forall s {:trigger s in selectors} | s in selectors && k == FlatKey(domain, s) ensures k in r && r[k] == row[s] {
        if k == FlatKey(domain, last) {
          SameLengthInjective(domain, s, domain, last);
        } else {
          assert s in before;
        }
      }
      if forall s {:trigger s in selectors} :: s in selectors ==> k != FlatKey(domain, s) {
        assert last in selectors;
        forall s | s in before ensures k != FlatKey(domain, s) { assert s in selectors; }
      }
    }
  }

  /** Every pair's flat key is there, with the key of some pair that has it. */
  lemma {:induction false} WalkedHolds(dkim: Nested, walk: Walk, domains: set<bytes>, pair: Pair) returns (winner: Pair)
    requires WalksOver(dkim, walk, domains) && Has(dkim, pair) && pair.0 in domains
    ensures Has(dkim, winner) && FlatKey(winner.0, winner.1) == FlatKey(pair.0, pair.1)
    ensures var flat := Walked(dkim, walk, domains);
      FlatKey(pair.0, pair.1) in flat && flat[FlatKey(pair.0, pair.1)] == KeyIn(dkim, winner)
    decreases |walk|
  {
    hide FlatKey, Row;
    var n := |walk| - 1;
    var (domain, selectors) := walk[n];
    var k, before := FlatKey(pair.0, pair.1), Walked(dkim, walk[..n], domains - {domain});
    RowWrites(dkim[domain], domain, selectors, before, k);
    if s :| s in selectors && k == FlatKey(domain, s) {
      winner := (domain, s);
    } else {
      winner := WalkedHolds(dkim, walk[..n], domains - {domain}, pair);
    }
  }

  /** Some walk visits any given domains, and it can be made to end with one of them. */
  lemma {:induction false} WalkEndingWith(dkim: Nested, domains: set<bytes>, last: bytes) returns (walk: Walk)
    requires domains <= dkim.Keys && last in domains
    ensures WalksOver(dkim, walk, domains) && |walk| > 0 && walk[|walk| - 1].0 == last
    decreases |domains|
  {
    var rest, front := domains - {last}, [];
    if rest != {} {
      var other :| other in rest;
      front := WalkEndingWith(dkim, rest, other);
    }
    var selectors := Enumerate(dkim[last].Keys);
    WalkFurther(dkim, front, rest, last, selectors);
    assert rest + {last} == domains;
    walk := front + [(last, selectors)];
  }

  lemma {:induction false} Enumerate(xs: set<bytes>) returns (s: seq<bytes>)
    ensures Distinct(s) && (forall x {:trigger x in s} :: x in s <==> x in xs)
    decreases |xs|
  {
    if xs == {} {
      s := [];
    } else {
      var x :| x in xs;
      var rest := Enumerate(xs - {x});
      DistinctAppend(rest, x);
      s := rest + [x];
    }
  }

  /** The pair's own key stands under its flat key, whatever the order of the loops. */
  ghost predicate KeepsItsKey(dkim: Nested, pair: Pair)
    requires Has(dkim, pair)
  {
    forall walk :: IsWalk(dkim, walk) ==>
      var flat := Walked(dkim, walk, dkim.Keys);
      FlatKey(pair.0, pair.1) in flat && flat[FlatKey(pair.0, pair.1)] == KeyIn(dkim, pair)
  }

  /** The walk that ends with a pair's domain leaves that pair's key. */
  lemma {:induction false} LastDomainWins(dkim: Nested, pair: Pair) returns (walk: Walk)
    requires Has(dkim, pair)
    ensures IsWalk(dkim, walk)
    ensures var flat := Walked(dkim, walk, dkim.Keys);
      FlatKey(pair.0, pair.1) in flat && flat[FlatKey(pair.0, pair.1)] == KeyIn(dkim, pair)
  {
    hide FlatKey, Row;
    walk := WalkEndingWith(dkim, dkim.Keys, pair.0);
    var n := |walk| - 1;
    RowWrites(dkim[pair.0], pair.0, walk[n].1, Walked(dkim, walk[..n], dkim.Keys - {pair.0}), FlatKey(pair.0, pair.1));
    assert pair.1 in walk[n].1;
  }

  /**
   A pair keeps its own key in every order of the loops if and only if no other pair of the nested map with the same
   flat key has a different key.
   */
  lemma {:induction false} NoKeyLost(dkim: Nested, pair: Pair)
    requires Has(dkim, pair)
    ensures KeepsItsKey(dkim, pair) <==>
      forall other {:trigger Has(dkim, other)} ::
        Has(dkim, other) && FlatKey(other.0, other.1) == FlatKey(pair.0, pair.1) ==>
          KeyIn(dkim, other) == KeyIn(dkim, pair)
  {
    hide FlatKey, Row, WalksOver, Walked, Has, KeyIn;
    if KeepsItsKey(dkim, pair) {
      forall other | Has(dkim, other) && FlatKey(other.0, other.1) == FlatKey(pair.0, pair.1)
        ensures KeyIn(dkim, other) == KeyIn(dkim, pair)
      {
        var walk := LastDomainWins(dkim, other);
      }
    } else {
      var walk :| IsWalk(dkim, walk) && !(var flat := Walked(dkim, walk, dkim.Keys);
                                          FlatKey(pair.0, pair.1) in flat
                                          && flat[FlatKey(pair.0, pair.1)] == KeyIn(dkim, pair));
      var winner := WalkHolds(dkim, walk, pair);
    }
  }

  lemma {:induction false} WalkHolds(dkim: Nested, walk: Walk, pair: Pair) returns (winner: Pair)
    requires IsWalk(dkim, walk) && Has(dkim, pair)
    ensures Has(dkim, winner) && FlatKey(winner.0, winner.1) == FlatKey(pair.0, pair.1)
    ensures var flat := Walked(dkim, walk, dkim.Keys);
      FlatKey(pair.0, pair.1) in flat && flat[FlatKey(pair.0, pair.1)] == KeyIn(dkim, winner)
  {
    hide FlatKey, Walked;
    winner := WalkedHolds(dkim, walk, dkim.Keys, pair);
  }

  /** In particular every pair keeps its key when no domain has a ';'. */
  lemma {:induction false} NoSemicolonsNoLoss(dkim: Nested, pair: Pair)
    requires NoSemicolons(dkim) && Has(dkim, pair)
    ensures KeepsItsKey(dkim, pair)
  {
    hide FlatKey, KeepsItsKey;
    NoKeyLost(dkim, pair);
    forall other | Has(dkim, other) && FlatKey(other.0, other.1) == FlatKey(pair.0, pair.1) ensures other == pair {
      FlatKeyInjective(other.0, other.1, pair.0, pair.1);
    }
  }

  /** And a map in which the keys of "a;b" with "c" and of "a" with "b;c" differ loses one of them in some order. */
  lemma {:induction false} CollisionLosesKey(key1: bytes, key2: bytes)
    requires key1 != key2
    ensures var dkim: Nested :=
        map[[0x61] := map[[0x62, 0x3b, 0x63] := key1], [0x61, 0x3b, 0x62] := map[[0x63] := key2]];
      Has(dkim, ([0x61], [0x62, 0x3b, 0x63])) && !KeepsItsKey(dkim, ([0x61], [0x62, 0x3b, 0x63]))
  {
    hide KeepsItsKey, FlatKey;
    var dkim: Nested := map[[0x61] := map[[0x62, 0x3b, 0x63] := key1], [0x61, 0x3b, 0x62] := map[[0x63] := key2]];
    NoKeyLost(dkim, ([0x61], [0x62, 0x3b, 0x63]));
    FlatKeysCollide();
    assert Has(dkim, ([0x61, 0x3b, 0x62], [0x63]));
    assert [0x61] != [0x61, 0x3b, 0x62];
  }
}
