/** Stable sorting by a strict weak order, as Go's sort.SliceStable and
    slices.SortStableFunc promise it, and string order. */
module Sorting {

  ghost predicate StrictWeak<T(!new)>(less: (T, T) -> bool) {
    && (forall a, b :: less(a, b) ==> !less(b, a))
    && (forall a, b, c :: less(a, c) ==> less(a, b) || less(b, c))
  }

  predicate Ordered<T>(s: seq<T>, less: (T, T) -> bool) {
    forall i, j :: 0 <= i < j < |s| ==> !less(s[j], s[i])
  }

  function Insert<T>(x: T, s: seq<T>, less: (T, T) -> bool): seq<T> {
    if s == [] || !less(s[0], x) then [x] + s else [s[0]] + Insert(x, s[1..], less)
  }

  function Sort<T>(s: seq<T>, less: (T, T) -> bool): seq<T> {
    if s == [] then [] else Insert(s[0], Sort(s[1..], less), less)
  }

  /** The elements of s that tie with x, in order. */
  function Ties<T>(s: seq<T>, x: T, less: (T, T) -> bool): seq<T> {
    if s == [] then []
    else (if !less(s[0], x) && !less(x, s[0]) then [s[0]] else []) + Ties(s[1..], x, less)
  }

  lemma {:induction false} InsertPermutes<T>(x: T, s: seq<T>, less: (T, T) -> bool)
    ensures multiset(Insert(x, s, less)) == multiset{x} + multiset(s)
    ensures forall y :: y in Insert(x, s, less) ==> y == x || y in s
  {
    if s != [] && less(s[0], x) {
      InsertPermutes(x, s[1..], less);
      assert s == [s[0]] + s[1..];
    }
  }

  lemma ConsOrdered<T(!new)>(x: T, s: seq<T>, less: (T, T) -> bool)
    requires Ordered(s, less) && forall y :: y in s ==> !less(y, x)
    ensures Ordered([x] + s, less)
  {
    forall i, j | 0 <= i < j < |s| + 1 ensures !less(([x] + s)[j], ([x] + s)[i]) {
      assert ([x] + s)[j] == s[j-1];
    }
  }

  lemma {:induction false} InsertSorts<T(!new)>(x: T, s: seq<T>, less: (T, T) -> bool)
    requires StrictWeak(less) && Ordered(s, less)
    ensures Ordered(Insert(x, s, less), less)
  {
    if s == [] {
    } else if less(s[0], x) {
      var rest := Insert(x, s[1..], less);
      InsertSorts(x, s[1..], less);
      InsertPermutes(x, s[1..], less);
      forall y | y in rest ensures !less(y, s[0]) {
        if y != x {
          var k :| 0 <= k < |s[1..]| && s[1..][k] == y;
          assert s[k+1] == y;
        }
      }
      ConsOrdered(s[0], rest, less);
    } else {
      forall y | y in s ensures !less(y, x) {
        var k :| 0 <= k < |s| && s[k] == y;
      }
      ConsOrdered(x, s, less);
    }
  }

  lemma {:induction false} InsertKeepsTies<T(!new)>(x: T, s: seq<T>, y: T, less: (T, T) -> bool)
    requires StrictWeak(less)
    ensures Ties(Insert(x, s, less), y, less) == Ties([x] + s, y, less)
  {
    if s != [] && less(s[0], x) {
      InsertKeepsTies(x, s[1..], y, less);
      var rest := Insert(x, s[1..], less);
      assert ([s[0]] + rest)[1..] == rest;
      assert ([x] + s)[1..] == s && ([x] + s[1..])[1..] == s[1..];
    }
  }

  lemma SortKeepsTies<T(!new)>(s: seq<T>, y: T, less: (T, T) -> bool)
    requires StrictWeak(less) && s != []
    requires Ties(Sort(s[1..], less), y, less) == Ties(s[1..], y, less)
    ensures Ties(Sort(s, less), y, less) == Ties(s, y, less)
  {
    InsertKeepsTies(s[0], Sort(s[1..], less), y, less);
    assert ([s[0]] + Sort(s[1..], less))[1..] == Sort(s[1..], less);
  }

  /** Sort permutes, orders, and keeps ties in input order. */
  lemma {:induction false} SortCorrect<T(!new)>(s: seq<T>, less: (T, T) -> bool)
    requires StrictWeak(less)
    ensures multiset(Sort(s, less)) == multiset(s)
    ensures |Sort(s, less)| == |s|
    ensures Ordered(Sort(s, less), less)
    ensures forall y :: Ties(Sort(s, less), y, less) == Ties(s, y, less)
  {
    if s != [] {
      SortCorrect(s[1..], less);
      InsertSorts(s[0], Sort(s[1..], less), less);
      InsertPermutes(s[0], Sort(s[1..], less), less);
      assert s == [s[0]] + s[1..];
      forall y ensures Ties(Sort(s, less), y, less) == Ties(s, y, less) {
        SortKeepsTies(s, y, less);
      }
    }
    assert |multiset(Sort(s, less))| == |Sort(s, less)|;
  }

  ghost predicate NoTies<T(!new)>(m: multiset<T>, less: (T, T) -> bool) {
    forall x, y :: x in m && y in m && x != y ==> less(x, y) || less(y, x)
  }

  /** Two ordered arrangements of the same elements are equal if no two of the
      elements tie: then any sorting algorithm gives the same result. */
  lemma {:induction false} OrderedIsUnique<T(!new)>(a: seq<T>, b: seq<T>, less: (T, T) -> bool)
    requires Ordered(a, less) && Ordered(b, less)
    requires multiset(a) == multiset(b) && NoTies(multiset(a), less)
    ensures a == b
  {
    if a == [] {
      assert |multiset(b)| == 0;
    } else {
      assert |multiset(a)| == |multiset(b)|;
      FirstIsLeast(a, b, less);
      Tail(a, less);
      Tail(b, less);
      OrderedIsUnique(a[1..], b[1..], less);
    }
  }

  lemma Tail<T(!new)>(a: seq<T>, less: (T, T) -> bool)
    requires a != [] && Ordered(a, less) && NoTies(multiset(a), less)
    ensures a == [a[0]] + a[1..] && multiset(a[1..]) == multiset(a) - multiset{a[0]}
    ensures Ordered(a[1..], less) && NoTies(multiset(a[1..]), less)
  {
    assert a == [a[0]] + a[1..];
    assert multiset(a) == multiset{a[0]} + multiset(a[1..]);
    forall x | x in multiset(a[1..]) ensures x in multiset(a) {}
  }

  lemma FirstIsLeast<T(!new)>(a: seq<T>, b: seq<T>, less: (T, T) -> bool)
    requires Ordered(a, less) && Ordered(b, less)
    requires a != [] && b != [] && multiset(a) == multiset(b) && NoTies(multiset(a), less)
    ensures a[0] == b[0]
  {
    assert a[0] in multiset(b) && b[0] in multiset(a);
    var i :| 0 <= i < |b| && b[i] == a[0];
    var j :| 0 <= j < |a| && a[j] == b[0];
  }

  /** Two positions of a rearrangement stem from two positions of the original. */
  lemma TwoPositions<T>(s: seq<T>, s': seq<T>, i: nat, j: nat) returns (i': nat, j': nat)
    requires multiset(s) == multiset(s') && i < j < |s'|
    ensures i' < |s| && j' < |s| && i' != j' && s[i'] == s'[i] && s[j'] == s'[j]
  {
    var x, y := s'[i], s'[j];
    assert x in multiset(s') && y in multiset(s');
    assert x in s && y in s;
    i' :| 0 <= i' < |s| && s[i'] == x;
    if x != y {
      j' :| 0 <= j' < |s| && s[j'] == y;
    } else {
      TwiceIn(s', i, j);
      j' := OtherPlace(s, i');
    }
  }

  lemma TwiceIn<T>(s: seq<T>, i: nat, j: nat)
    requires i < j < |s| && s[i] == s[j]
    ensures multiset(s)[s[i]] >= 2
  {
    assert s == s[..j] + s[j..] && s[..j][i] == s[i] && s[j..][0] == s[i];
  }

  lemma OtherPlace<T>(s: seq<T>, i: nat) returns (j: nat)
    requires i < |s| && multiset(s)[s[i]] >= 2
    ensures j < |s| && j != i && s[j] == s[i]
  {
    var x, before, after := s[i], s[..i], s[i+1..];
    assert s == before + ([x] + after);
    assert multiset(s) == multiset(before) + (multiset{x} + multiset(after));
    if x in before {
      j :| 0 <= j < i && before[j] == x;
    } else {
      assert x in after;
      var k :| 0 <= k < |after| && after[k] == x;
      j := i + 1 + k;
    }
  }

  // ---- strings, compared as Go's < does ----

  predicate StringLess(a: string, b: string) {
    b != [] && (a == [] || a[0] < b[0] || (a[0] == b[0] && StringLess(a[1..], b[1..])))
  }

  /** a and b agree up to k, where a ends or has the smaller character. */
  predicate FirstLess(a: string, b: string, k: nat) {
    k <= |a| && k < |b| && a[..k] == b[..k] && (k == |a| || a[k] < b[k])
  }

  /** The first difference decides, and a proper prefix comes first. */
  lemma {:induction false} StringLessExactly(a: string, b: string)
    ensures StringLess(a, b) <==> exists k :: FirstLess(a, b, k)
  {
    if b != [] && a == [] {
      assert FirstLess(a, b, 0);
    } else if b != [] && a[0] == b[0] {
      StringLessExactly(a[1..], b[1..]);
      if k: nat :| FirstLess(a[1..], b[1..], k) {
        FirstLessTail(a, b, k);
        assert FirstLess(a, b, k + 1);
      }
      if k: nat :| FirstLess(a, b, k) {
        assert k > 0;
        FirstLessTail(a, b, k - 1);
      }
    } else if b != [] {
      forall k: nat | 0 < k <= |a| && k < |b| ensures !FirstLess(a, b, k) {
        assert a[..k][0] == a[0] && b[..k][0] == b[0];
      }
      assert a[0] < b[0] ==> FirstLess(a, b, 0);
    }
  }

  lemma FirstLessTail(a: string, b: string, k: nat)
    requires a != [] && b != [] && a[0] == b[0]
    ensures FirstLess(a[1..], b[1..], k) <==> FirstLess(a, b, k + 1)
  {
    if k < |a| && k < |b| {
      assert a[..k+1] == [a[0]] + a[1..][..k] && b[..k+1] == [b[0]] + b[1..][..k];
      assert a[..k+1] == b[..k+1] ==> a[1..][..k] == a[..k+1][1..] == b[..k+1][1..] == b[1..][..k];
    }
  }

  lemma {:induction false} StringTotal(a: string, b: string)
    ensures StringLess(a, b) || StringLess(b, a) <==> a != b
    ensures !(StringLess(a, b) && StringLess(b, a))
  {
    if a != [] && b != [] && a[0] == b[0] {
      StringTotal(a[1..], b[1..]);
      assert a == [a[0]] + a[1..] && b == [b[0]] + b[1..];
    }
  }

  lemma {:induction false} StringSplit(a: string, b: string, c: string)
    requires StringLess(a, c)
    ensures StringLess(a, b) || StringLess(b, c)
  {
    if a != [] && b != [] && a[0] == c[0] == b[0] {
      StringSplit(a[1..], b[1..], c[1..]);
    }
  }

  lemma StringOrder()
    ensures StrictWeak(StringLess)
  {
    forall a, b | StringLess(a, b) ensures !StringLess(b, a) {
      StringTotal(a, b);
    }
    forall a, b, c | StringLess(a, c) ensures StringLess(a, b) || StringLess(b, c) {
      StringSplit(a, b, c);
    }
  }

  /** The strings of a set, each once, in order. */
  ghost predicate Listing(keys: seq<string>, all: set<string>) {
    && (forall k :: k in keys <==> k in all)
    && (forall i, j :: 0 <= i < j < |keys| ==> StringLess(keys[i], keys[j]))
  }

  /** The keys of a map in whatever order it is walked, then sorted. */
  method SortedKeys(all: set<string>) returns (keys: seq<string>)
    ensures Listing(keys, all)
  {
    keys := [];
    var todo := all;
    while todo != {}
      invariant todo <= all
      invariant forall k :: k in keys <==> k in all && k !in todo
      invariant forall i, j :: 0 <= i < j < |keys| ==> keys[i] != keys[j]
    {
      var k :| k in todo;
      keys, todo := keys + [k], todo - {k};
    }
    StringOrder();
    SortCorrect(keys, StringLess);
    ghost var was := keys;
    keys := Sort(keys, StringLess);
    forall k ensures k in keys <==> k in all {
      assert k in multiset(keys) <==> k in multiset(was);
    }
    forall i, j | 0 <= i < j < |keys| ensures StringLess(keys[i], keys[j]) {
      var i', j' := TwoPositions(was, keys, i, j);
      assert i' < j' ==> was[i'] != was[j'];
      assert j' < i' ==> was[j'] != was[i'];
      StringTotal(keys[i], keys[j]);
    }
  }

  /** A set has only one listing. */
  lemma {:induction false} ListingUnique(a: seq<string>, b: seq<string>, all: set<string>)
    requires Listing(a, all) && Listing(b, all)
    ensures a == b
    decreases |a|
  {
    if a == [] {
      assert forall k :: k in b <==> k in a;
      assert forall k :: k in multiset(b) <==> k in b;
      assert multiset(b) == multiset{};
      assert |multiset(b)| == |b|;
    } else {
      assert a[0] in b && b != [] && b[0] in a;
      LeastFirst(a, b, all);
      ListingTail(a, all);
      ListingTail(b, all);
      ListingUnique(a[1..], b[1..], all - {a[0]});
      assert a == [a[0]] + a[1..] && b == [b[0]] + b[1..];
    }
  }

  lemma LeastFirst(a: seq<string>, b: seq<string>, all: set<string>)
    requires Listing(a, all) && Listing(b, all) && a != [] && b != []
    ensures a[0] == b[0]
  {
    assert a[0] in all && b[0] in all;
    var i :| 0 <= i < |a| && a[i] == b[0];
    var j :| 0 <= j < |b| && b[j] == a[0];
    StringTotal(a[0], b[0]);
  }

  lemma ListingTail(a: seq<string>, all: set<string>)
    requires Listing(a, all) && a != []
    ensures Listing(a[1..], all - {a[0]})
  {
    forall k ensures k in a[1..] <==> k in all - {a[0]} {
      StringTotal(a[0], a[0]);
      assert a == [a[0]] + a[1..];
      if k in a[1..] {
        var i :| 0 <= i < |a[1..]| && a[1..][i] == k;
        assert StringLess(a[0], a[i+1]);
      }
    }
  }
}
