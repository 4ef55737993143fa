/** The parts of atmb.go that do not touch the network: the address record,
    the de-duplication and sorting of the scraped state names in `getState`,
    and the record built for each location card in `getStateDetail`.
    The HTML is taken as already extracted: state names, and per card the
    texts and the optional `href` of its anchor. */
module Atmb {
  import opened Optional

  /** `Address`: identity fields, the listing link, and the two enrichment
      fields (residential/business and CMRA) filled in by the provider. */
  datatype Address = Address(
    title: string, price: string, street: string, city: string, state: string,
    zip: string, link: string, rdi: string, cmra: string)

  const SiteUrl: string := "https://www.anytimemailbox.com"

  /** The sentinel both enrichment fields start with. */
  const UnknownValue: string := "UNKNOWN"

  // ---------------------------------------------------------------------
  // String order, as Go's `<` on strings and `sort.Strings` use it.
  // Go compares the UTF-8 bytes; byte order of UTF-8 agrees with code point
  // order, so comparing characters gives the same answer.
  // ---------------------------------------------------------------------

  /** Strict lexicographic order: never between equal strings, and a
      proper prefix comes first. */
  predicate Less(a: string, b: string)
    ensures Less(a, b) ==> a != b
    ensures a < b ==> Less(a, b)
    decreases |a|
  {
    |b| > 0 && (|a| == 0 || a[0] < b[0] || (a[0] == b[0] && Less(a[1..], b[1..])))
  }

  predicate LessEq(a: string, b: string) {
    a == b || Less(a, b)
  }

  lemma {:induction false} LessIrreflexive(a: string)
    ensures !Less(a, a)
  {
    if |a| > 0 {
      LessIrreflexive(a[1..]);
    }
  }

  lemma {:induction false} LessTransitive(a: string, b: string, c: string)
    requires Less(a, b) && Less(b, c)
    ensures Less(a, c)
    decreases |a|
  {
    if |a| > 0 && a[0] == b[0] && b[0] == c[0] {
      LessTransitive(a[1..], b[1..], c[1..]);
    }
  }

  lemma {:induction false} LessTotal(a: string, b: string)
    requires a != b
    ensures Less(a, b) || Less(b, a)
    decreases |a|
  {
    if |a| > 0 && |b| > 0 && a[0] == b[0] {
      assert a == [a[0]] + a[1..] && b == [b[0]] + b[1..];
      LessTotal(a[1..], b[1..]);
    }
  }

  lemma LessAsymmetric(a: string, b: string)
    requires Less(a, b)
    ensures !Less(b, a)
  {
    if Less(b, a) {
      LessTransitive(a, b, a);
      LessIrreflexive(a);
    }
  }

  /** Ascending, equal neighbours allowed: what `sort.Strings` produces. */
  ghost predicate Sorted(s: seq<string>) {
    forall i, k :: 0 <= i < k < |s| ==> LessEq(s[i], s[k])
  }

  ghost predicate StrictlySorted(s: seq<string>) {
    forall i, k :: 0 <= i < k < |s| ==> Less(s[i], s[k])
  }

  ghost predicate NoDuplicates(s: seq<string>) {
    forall i, k :: 0 <= i < k < |s| ==> s[i] != s[k]
  }

  // ---------------------------------------------------------------------
  // sort.Strings
  // ---------------------------------------------------------------------

  /** Insertion of `x` before the first element it does not exceed. */
  function Insert(s: seq<string>, x: string): (r: seq<string>)
    ensures multiset(r) == multiset(s) + multiset{x}
  {
    if s == [] then [x]
    else if LessEq(x, s[0]) then [x] + s
    else
      assert s == [s[0]] + s[1..];
      [s[0]] + Insert(s[1..], x)
  }

  lemma {:induction false} InsertSorted(s: seq<string>, x: string)
    requires Sorted(s)
    ensures Sorted(Insert(s, x))
  {
    if s == [] {
    } else if LessEq(x, s[0]) {
      var r := Insert(s, x);
      forall i, k | 0 <= i < k < |r| ensures LessEq(r[i], r[k]) {
        if i == 0 && x != s[0] && s[0] != s[k - 1] {
          LessTransitive(x, s[0], s[k - 1]);
        }
      }
    } else {
      LessTotal(x, s[0]);
      InsertSorted(s[1..], x);
      var t := Insert(s[1..], x);
      var r := Insert(s, x);
      assert r == [s[0]] + t;
      forall i, k | 0 <= i < k < |r| ensures LessEq(r[i], r[k]) {
        if i == 0 {
          var y := t[k - 1];
          assert y in multiset(t);
          if y != x {
            assert y in multiset(s[1..]);
            var n :| 0 <= n < |s[1..]| && s[1..][n] == y;
            assert s[n + 1] == y;
          }
        }
      }
    }
  }

  /** `sort.Strings`, on the contents of the slice: ascending, and a
      permutation of the input. */
  method SortStrings(a: seq<string>) returns (r: seq<string>)
    ensures Sorted(r) && multiset(r) == multiset(a)
  {
    r := [];
    for i := 0 to |a|
      invariant Sorted(r) && multiset(r) == multiset(a[..i])
    {
      InsertSorted(r, a[i]);
      r := Insert(r, a[i]);
      assert a[..i + 1] == a[..i] + [a[i]];
    }
    assert a[..|a|] == a;
  }

  // ---------------------------------------------------------------------
  // getState: de-duplicate through a map, collect the keys, sort.
  // ---------------------------------------------------------------------

  lemma {:induction false} NoDuplicatesMultiplicity(s: seq<string>, x: string)
    requires NoDuplicates(s)
    ensures multiset(s)[x] <= 1
  {
    if s != [] {
      assert s == [s[0]] + s[1..];
      NoDuplicatesMultiplicity(s[1..], x);
      if s[0] == x {
        assert x !in s[1..];
      }
    }
  }

  lemma TwoOccurrences(t: seq<string>, i: nat, k: nat)
    requires i < k < |t| && t[i] == t[k]
    ensures multiset(t)[t[k]] >= 2
  {
    assert t == t[..k] + [t[k]] + t[k + 1..];
    assert t[..k][i] == t[k];
  }

  /** A permutation of a list without duplicates has none either. */
  lemma NoDuplicatesPermutation(s: seq<string>, t: seq<string>)
    requires NoDuplicates(s) && multiset(s) == multiset(t)
    ensures NoDuplicates(t)
  {
    forall i, k | 0 <= i < k < |t| ensures t[i] != t[k] {
      if t[i] == t[k] {
        TwoOccurrences(t, i, k);
        NoDuplicatesMultiplicity(s, t[k]);
      }
    }
  }

  /** The de-duplication and sort of `getState`, given the scraped names.
      The keys of a Go map come out in an unspecified order; here they are
      taken in an arbitrary order too. */
  method UniqueStates(states: seq<string>) returns (unique: seq<string>)
    ensures NoDuplicates(unique)
    ensures StrictlySorted(unique)
    ensures forall s :: s in unique <==> s in states
    ensures |unique| <= |states|
  {
    var uniqueStateMap: map<string, bool> := map[];
    for i := 0 to |states|
      invariant forall s :: s in uniqueStateMap <==> s in states[..i]
      invariant |uniqueStateMap.Keys| <= i
    {
      uniqueStateMap := uniqueStateMap[states[i] := true];
    }
    assert states[..|states|] == states;

    unique := [];
    var rest := uniqueStateMap.Keys;
    while rest != {}
      invariant rest <= uniqueStateMap.Keys
      invariant forall s :: s in uniqueStateMap <==> s in unique || s in rest
      invariant forall s :: s in unique ==> s !in rest
      invariant NoDuplicates(unique)
      invariant |unique| + |rest| == |uniqueStateMap.Keys|
      decreases |rest|
    {
      var state :| state in rest;
      unique := unique + [state];
      rest := rest - {state};
    }

    var listed := unique;
    unique := SortStrings(unique);
    NoDuplicatesPermutation(listed, unique);
    forall s ensures s in unique <==> s in listed {
      assert s in unique <==> s in multiset(unique);
      assert s in listed <==> s in multiset(listed);
    }
    assert |unique| == |multiset(unique)| == |multiset(listed)| == |listed|;
  }

  /** Two strictly ascending lists with the same elements are equal, so the
      result of `UniqueStates` does not depend on the map's iteration order. */
  lemma {:induction false} StrictlySortedUnique(s: seq<string>, t: seq<string>)
    requires StrictlySorted(s) && StrictlySorted(t)
    requires forall x :: x in s <==> x in t
    ensures s == t
  {
    if s != [] {
      assert s[0] in t;
    }
    if t != [] {
      assert t[0] in s;
    }
    if s != [] && t != [] {
      if s[0] != t[0] {
        assert t[0] in s;
        var i :| 0 <= i < |s| && s[i] == t[0];
        assert s[0] in t;
        var k :| 0 <= k < |t| && t[k] == s[0];
        assert Less(s[0], t[0]) && Less(t[0], s[0]);
        LessAsymmetric(s[0], t[0]);
      }
      forall x ensures x in s[1..] <==> x in t[1..] {
        if x in s[1..] {
          var i :| 1 <= i < |s| && s[i] == x;
          LessIrreflexive(x);
          assert x != s[0];
          assert x in t;
        }
        if x in t[1..] {
          var k :| 1 <= k < |t| && t[k] == x;
          LessIrreflexive(x);
          assert x != t[0];
          assert x in s;
        }
      }
      StrictlySortedUnique(s[1..], t[1..]);
      assert s == [s[0]] + s[1..] && t == [t[0]] + t[1..];
    }
  }

  // ---------------------------------------------------------------------
  // getStateDetail: one record per location card.
  // ---------------------------------------------------------------------

  /** What `getStateDetail` extracts from one card: the texts after the
      price and street patterns have been applied, and the anchor's `href`. */
  datatype Card = Card(
    title: string, price: string, street: string, city: string, state: string,
    zip: string, href: Option<string>)

  /** The record literal of `getStateDetail`. */
  function NewAddress(c: Card): (a: Address)
    ensures a.rdi == UnknownValue && a.cmra == UnknownValue
    ensures a.link == SiteUrl + c.href.GetOr("")
    ensures a.title == c.title && a.price == c.price && a.street == c.street
    ensures a.city == c.city && a.state == c.state && a.zip == c.zip
  {
    var link := SiteUrl + c.href.GetOr("");
    Address(c.title, c.price, c.street, c.city, c.state, c.zip, link, UnknownValue, UnknownValue)
  }

  /** The loop of `getStateDetail` that appends one record per card. */
  method StateDetail(cards: seq<Card>) returns (parsedAddresses: seq<Address>)
    ensures |parsedAddresses| == |cards|
    ensures forall i :: 0 <= i < |cards| ==> parsedAddresses[i] == NewAddress(cards[i])
    ensures forall a :: a in parsedAddresses ==> a.rdi == UnknownValue && a.cmra == UnknownValue
    ensures forall a :: a in parsedAddresses ==> |a.link| >= |SiteUrl| && a.link[..|SiteUrl|] == SiteUrl
  {
    parsedAddresses := [];
    for i := 0 to |cards|
      invariant |parsedAddresses| == i
      invariant forall k :: 0 <= k < i ==> parsedAddresses[k] == NewAddress(cards[k])
    {
      var addr := NewAddress(cards[i]);
      parsedAddresses := parsedAddresses + [addr];
    }
  }
}
