/** The orders Python sorts strings and tuples of strings by, and sorted lists without repetition. */
module Ordering {

  /** Comparison of strings by code points, a proper prefix first. */
  predicate Before(a: string, b: string) {
    b != [] && (a == [] || a[0] < b[0] || (a[0] == b[0] && Before(a[1..], b[1..])))
  }

  /** The strings agree up to a place where the first has the smaller character. */
  ghost predicate SmallerAt(a: string, b: string, k: nat) {
    k < |a| && k < |b| && a[..k] == b[..k] && a[k] < b[k]
  }

  /** At the first place where the strings differ the one with the smaller character comes first; a
      string comes before all its extensions. */
  ghost predicate ComesFirst(a: string, b: string) {
    a < b || exists k: nat :: SmallerAt(a, b, k)
  }

  lemma {:induction false} SmallerLater(c: char, a: string, b: string, k: nat)
    ensures SmallerAt([c] + a, [c] + b, k + 1) <==> SmallerAt(a, b, k)
  {
    var x, y := [c] + a, [c] + b;
    if k < |a| && k < |b| {
      assert x[k + 1] == a[k] && y[k + 1] == b[k];
      assert x[..k + 1] == [c] + a[..k] && y[..k + 1] == [c] + b[..k];
      assert x[..k + 1][1..] == a[..k] && y[..k + 1][1..] == b[..k];
    }
  }

  lemma {:induction false} ExtendsLater(c: char, a: string, b: string)
    ensures [c] + a < [c] + b <==> a < b
  {
    var x, y := [c] + a, [c] + b;
    if x < y {
      assert a == x[1..] && b == y[1..];
      assert y[..|x|] == x;
      assert b[..|a|] == y[..|x|][1..];
    }
  }

  /** Strings with the same first character compare like their tails. */
  lemma {:induction false} SameFirst(c: char, a: string, b: string)
    ensures ComesFirst([c] + a, [c] + b) <==> ComesFirst(a, b)
  {
    hide SmallerAt;
    ExtendsLater(c, a, b);
    forall k: nat ensures SmallerAt([c] + a, [c] + b, k + 1) <==> SmallerAt(a, b, k) {
      SmallerLater(c, a, b, k);
    }
    NotSmallerAtFirst(c, a, b);
    if exists k: nat :: SmallerAt([c] + a, [c] + b, k) {
      var k: nat :| SmallerAt([c] + a, [c] + b, k);
      assert k == (k - 1) + 1;
      assert SmallerAt(a, b, k - 1);
    }
    if exists k: nat :: SmallerAt(a, b, k) {
      var k: nat :| SmallerAt(a, b, k);
      assert SmallerAt([c] + a, [c] + b, k + 1);
    }
  }

  lemma {:induction false} NotSmallerAtFirst(c: char, a: string, b: string)
    ensures !SmallerAt([c] + a, [c] + b, 0)
  {
  }

  lemma {:induction false} OtherFirst(a: string, b: string)
    requires a != [] && b != [] && a[0] != b[0]
    ensures ComesFirst(a, b) <==> a[0] < b[0]
  {
    forall k | 0 < k <= |a| && k <= |b| ensures a[..k] != b[..k] {
      assert a[..k][0] == a[0] && b[..k][0] == b[0];
    }
    assert a[..|a|] == a && a[..0] == b[..0];
    assert SmallerAt(a, b, 0) <==> a[0] < b[0];
  }

  lemma {:induction false} BeforeMeaning(a: string, b: string)
    ensures Before(a, b) <==> ComesFirst(a, b)
  {
    if a != [] && b != [] {
      hide ComesFirst;
      if a[0] == b[0] {
        BeforeMeaning(a[1..], b[1..]);
        SameFirst(a[0], a[1..], b[1..]);
        assert a == [a[0]] + a[1..] && b == [b[0]] + b[1..];
      } else {
        OtherFirst(a, b);
      }
    }
  }

  lemma {:induction false} BeforeIsTotal(a: string, b: string)
    ensures Before(a, b) || a == b || Before(b, a)
  {
    if a != [] && b != [] && a[0] == b[0] {
      BeforeIsTotal(a[1..], b[1..]);
      assert a == [a[0]] + a[1..] && b == [b[0]] + b[1..];
    }
  }

  lemma {:induction false} BeforeIsStrict(a: string, b: string)
    requires Before(a, b)
    ensures !Before(b, a) && a != b
  {
    if a != [] && a[0] == b[0] { BeforeIsStrict(a[1..], b[1..]); }
  }

  lemma {:induction false} BeforeIsTransitive(a: string, b: string, c: string)
    requires Before(a, b) && Before(b, c)
    ensures Before(a, c)
  {
    if a != [] && a[0] == b[0] && b[0] == c[0] { BeforeIsTransitive(a[1..], b[1..], c[1..]); }
  }

  /** A comparison that may order a list: no two elements come before each other, and it chains. */
  ghost predicate StrictOrder<T(!new)>(less: (T, T) -> bool) {
    && (forall a, b :: less(a, b) ==> !less(b, a))
    && (forall a, b, c :: less(a, b) && less(b, c) ==> less(a, c))
  }

  predicate Sorted<T>(s: seq<T>, less: (T, T) -> bool) {
    forall i, j :: 0 <= i < j < |s| ==> less(s[i], s[j])
  }

  /** A list without ties has only one sorted arrangement. */
  lemma {:induction false} SortedIsUnique<T(!new)>(a: seq<T>, b: seq<T>, less: (T, T) -> bool)
    requires StrictOrder(less) && Sorted(a, less) && Sorted(b, less)
    requires forall x :: x in a <==> x in b
    ensures a == b
  {
    assert b == [] || b[0] in b;
    if a == [] {
    } else {
      assert a[0] in b;
      assert b[0] in a;
      var i :| 0 <= i < |b| && b[i] == a[0];
      var j :| 0 <= j < |a| && a[j] == b[0];
      assert a[0] == b[0];
      TailMembers(a, less);
      TailMembers(b, less);
      SortedIsUnique(a[1..], b[1..], less);
      assert a == [a[0]] + a[1..] && b == [b[0]] + b[1..];
    }
  }

  lemma {:induction false} TailMembers<T(!new)>(a: seq<T>, less: (T, T) -> bool)
    requires StrictOrder(less) && Sorted(a, less) && a != []
    ensures Sorted(a[1..], less)
    ensures forall x :: x in a[1..] <==> x in a && x != a[0]
  {
    assert a == [a[0]] + a[1..];
    forall x | x in a && x != a[0] ensures x in a[1..] {
      var i :| 0 <= i < |a| && a[i] == x;
      assert a[1..][i - 1] == x;
    }
    forall x | x in a[1..] ensures x != a[0] {
      var i :| 0 <= i < |a| - 1 && a[1..][i] == x;
      assert less(a[0], a[i + 1]);
    }
  }

  /** Insertion into a sorted list. */
  method Insert<T(!new)>(s: seq<T>, x: T, less: (T, T) -> bool) returns (r: seq<T>)
    requires StrictOrder(less) && Sorted(s, less)
    requires forall y :: y in s ==> less(x, y) || less(y, x)
    ensures Sorted(r, less) && |r| == |s| + 1
    ensures forall y :: y in r <==> y in s || y == x
  {
    var i := 0;
    while i < |s| && less(s[i], x)
      invariant 0 <= i <= |s|
      invariant forall k :: 0 <= k < i ==> less(s[k], x)
    {
      i := i + 1;
    }
    r := s[..i] + [x] + s[i..];
    forall k | i <= k < |s| ensures less(x, s[k]) {
      assert s[i] in s;
    }
    forall y | y in s ensures y in r {
      var k :| 0 <= k < |s| && s[k] == y;
      assert r[if k < i then k else k + 1] == y;
    }
    assert r[i] == x;
  }

  /** `sorted` over a set of strings. */
  method SortStrings(strings: set<string>) returns (r: seq<string>)
    ensures Sorted(r, Before)
    ensures forall s :: s in r <==> s in strings
  {
    StringsOrder();
    r := [];
    var left := strings;
    while left != {}
      invariant left <= strings
      invariant Sorted(r, Before)
      invariant forall s :: s in r <==> s in strings - left
      decreases left
    {
      var x :| x in left;
      forall y | y in r ensures Before(x, y) || Before(y, x) { BeforeIsTotal(x, y); }
      r := Insert(r, x, Before);
      left := left - {x};
    }
  }

  lemma {:induction false} StringsOrder()
    ensures StrictOrder(Before)
  {
    forall a: string, b: string | Before(a, b) ensures !Before(b, a) { BeforeIsStrict(a, b); }
    forall a: string, b: string, c: string | Before(a, b) && Before(b, c) ensures Before(a, c) { BeforeIsTransitive(a, b, c); }
  }

  /** Comparison of triples of strings, as Python compares tuples. */
  predicate TripleBefore(a: (string, string, string), b: (string, string, string)) {
    Before(a.0, b.0) || (a.0 == b.0 && (Before(a.1, b.1) || (a.1 == b.1 && Before(a.2, b.2))))
  }

  lemma {:induction false} TripleIsTotal(a: (string, string, string), b: (string, string, string))
    ensures TripleBefore(a, b) || a == b || TripleBefore(b, a)
  {
    BeforeIsTotal(a.0, b.0);
    BeforeIsTotal(a.1, b.1);
    BeforeIsTotal(a.2, b.2);
  }

  lemma {:induction false} TripleIsStrict(a: (string, string, string), b: (string, string, string))
    requires TripleBefore(a, b)
    ensures !TripleBefore(b, a)
  {
    hide Before;
    if Before(a.0, b.0) { BeforeIsStrict(a.0, b.0); }
    if Before(a.1, b.1) { BeforeIsStrict(a.1, b.1); }
    if Before(a.2, b.2) { BeforeIsStrict(a.2, b.2); }
  }

  lemma {:induction false} TripleIsTransitive(a: (string, string, string), b: (string, string, string),
                                              c: (string, string, string))
    requires TripleBefore(a, b) && TripleBefore(b, c)
    ensures TripleBefore(a, c)
  {
    hide Before;
    if Before(a.0, b.0) && Before(b.0, c.0) { BeforeIsTransitive(a.0, b.0, c.0); }
    if Before(a.1, b.1) && Before(b.1, c.1) { BeforeIsTransitive(a.1, b.1, c.1); }
    if Before(a.2, b.2) && Before(b.2, c.2) { BeforeIsTransitive(a.2, b.2, c.2); }
  }
}
