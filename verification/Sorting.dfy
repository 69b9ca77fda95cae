/** slices.SortFunc as its callers may rely on it, and why the order it leaves is the only
    one when no two elements compare equal. */
module Sorting {

  /** A comparison fit for sorting: signs mirror and "at most" is transitive. */
  ghost predicate Preorder<T(!new)>(compare: (T, T) -> int) {
    && (forall x, y :: compare(x, y) == -compare(y, x))
    && (forall x, y, z :: compare(x, y) <= 0 && compare(y, z) <= 0 ==> compare(x, z) <= 0)
  }

  ghost predicate Ascending<T>(compare: (T, T) -> int, s: seq<T>) {
    forall i, j | 0 <= i < j < |s| :: compare(s[i], s[j]) <= 0
  }

  ghost predicate Strictly<T>(compare: (T, T) -> int, s: seq<T>) {
    forall i, j | 0 <= i < j < |s| :: compare(s[i], s[j]) < 0
  }

  ghost predicate Distinct<T>(compare: (T, T) -> int, s: seq<T>) {
    forall i, j | 0 <= i < j < |s| :: compare(s[i], s[j]) != 0
  }

  /** r is s put in ascending order: what slices.SortFunc leaves. */
  ghost predicate Arranges<T>(compare: (T, T) -> int, r: seq<T>, s: seq<T>) {
    multiset(r) == multiset(s) && Ascending(compare, r)
  }

  function Insert<T>(compare: (T, T) -> int, x: T, s: seq<T>): (r: seq<T>)
    ensures multiset(r) == multiset{x} + multiset(s)
  {
    if s == [] || compare(x, s[0]) <= 0 then [x] + s
    else
      assert s == [s[0]] + s[1..];
      [s[0]] + Insert(compare, x, s[1..])
  }

  function Sorted<T>(compare: (T, T) -> int, s: seq<T>): (r: seq<T>)
    ensures multiset(r) == multiset(s)
  {
    if s == [] then []
    else
      assert s == [s[0]] + s[1..];
      Insert(compare, s[0], Sorted(compare, s[1..]))
  }

  lemma PrependAscending<T>(compare: (T, T) -> int, x: T, s: seq<T>)
    requires Ascending(compare, s) && forall y | y in s :: compare(x, y) <= 0
    ensures Ascending(compare, [x] + s)
  {
    assert forall j | 0 < j < |[x] + s| :: ([x] + s)[j] == s[j - 1] && s[j - 1] in s;
  }

  lemma AtMostAll<T(!new)>(compare: (T, T) -> int, x: T, s: seq<T>)
    requires Preorder(compare) && s != [] && Ascending(compare, s) && compare(x, s[0]) <= 0
    ensures forall y | y in s :: compare(x, y) <= 0
  {
    forall y | y in s ensures compare(x, y) <= 0 {
      var j :| 0 <= j < |s| && s[j] == y;
    }
  }

  lemma Mirrored<T(!new)>(compare: (T, T) -> int, x: T, y: T)
    requires Preorder(compare)
    ensures compare(x, y) == -compare(y, x)
  {
  }

  lemma {:induction false} InsertAscending<T(!new)>(compare: (T, T) -> int, x: T, s: seq<T>)
    requires Preorder(compare) && Ascending(compare, s)
    ensures Ascending(compare, Insert(compare, x, s))
  {
    if s != [] {
      Mirrored(compare, x, s[0]);
      if compare(x, s[0]) <= 0 {
        AtMostAll(compare, x, s);
        PrependAscending(compare, x, s);
      } else {
        InsertAscending(compare, x, s[1..]);
        var rest := Insert(compare, x, s[1..]);
        forall y | y in rest ensures compare(s[0], y) <= 0 {
          assert y in multiset(rest);
        }
        PrependAscending(compare, s[0], rest);
      }
    }
  }

  lemma {:induction false} SortedAscending<T(!new)>(compare: (T, T) -> int, s: seq<T>)
    requires Preorder(compare)
    ensures Ascending(compare, Sorted(compare, s))
  {
    if s != [] {
      SortedAscending(compare, s[1..]);
      InsertAscending(compare, s[0], Sorted(compare, s[1..]));
    }
  }

  /** Callers learn only that the result is ascending and a permutation, which is all that
      slices.SortFunc promises. */
  method SortFunc<T(!new)>(compare: (T, T) -> int, s: seq<T>) returns (r: seq<T>)
    requires Preorder(compare)
    ensures Arranges(compare, r, s)
  {
    r := Sorted(compare, s);
    SortedAscending(compare, s);
  }

  lemma SameLength<T>(a: seq<T>, b: seq<T>)
    requires multiset(a) == multiset(b)
    ensures |a| == |b|
    ensures forall x :: x in a <==> x in b
  {
    assert |multiset(a)| == |a| && |multiset(b)| == |b|;
    assert forall x :: x in a <==> x in multiset(a);
    assert forall x :: x in b <==> x in multiset(b);
  }

  lemma {:induction false} IndexRemains<T>(s: seq<T>, x: T, i: nat, j: nat)
    requires i < j < |s| && s[i] == s[j] == x
    ensures multiset(s)[x] >= 2
  {
    assert s == s[..i] + [s[i]] + s[i + 1..];
    assert s[i + 1..][j - i - 1] == x;
    assert x in multiset(s[i + 1..]);
  }

  lemma TwiceInMultiset<T>(s: seq<T>, x: T) returns (i: nat, j: nat)
    requires multiset(s)[x] >= 2
    ensures i < j < |s| && s[i] == s[j] == x
  {
    i :| 0 <= i < |s| && s[i] == x;
    assert s == s[..i] + [s[i]] + s[i + 1..];
    if x in s[..i] {
      j := i;
      i :| 0 <= i < j && s[..j][i] == x;
    } else {
      assert x in multiset(s[i + 1..]);
      var k :| 0 <= k < |s[i + 1..]| && s[i + 1..][k] == x;
      j := k + i + 1;
    }
  }

  lemma DistinctOccursOnce<T(!new)>(compare: (T, T) -> int, s: seq<T>, r: seq<T>, i: nat, j: nat)
    requires Preorder(compare)
    requires multiset(s) == multiset(r) && Distinct(compare, s)
    requires i < j < |r|
    ensures r[i] != r[j]
  {
    Mirrored(compare, r[i], r[i]);
    if r[i] == r[j] {
      IndexRemains(r, r[i], i, j);
      var k, l := TwiceInMultiset(s, r[i]);
    }
  }

  /** A sorted permutation of elements no two of which compare equal is strictly ascending. */
  lemma DistinctIsStrict<T(!new)>(compare: (T, T) -> int, s: seq<T>, r: seq<T>)
    requires Preorder(compare)
    requires multiset(s) == multiset(r) && Distinct(compare, s) && Ascending(compare, r)
    ensures Strictly(compare, r)
  {
    SameLength(s, r);
    forall i, j | 0 <= i < j < |r| ensures compare(r[i], r[j]) < 0 {
      DistinctOccursOnce(compare, s, r, i, j);
      assert r[i] in s && r[j] in s;
      var k :| 0 <= k < |s| && s[k] == r[i];
      var l :| 0 <= l < |s| && s[l] == r[j];
      Mirrored(compare, s[k], s[l]);
    }
  }

  lemma LeastIsHead<T(!new)>(compare: (T, T) -> int, a: seq<T>, x: T)
    requires a != [] && Strictly(compare, a) && x in a
    ensures x == a[0] || compare(a[0], x) < 0
  {
  }

  /** Two strictly ascending sequences of the same elements are the same sequence. */
  lemma {:induction false} StrictOrderIsUnique<T(!new)>(compare: (T, T) -> int, a: seq<T>, b: seq<T>)
    requires Preorder(compare)
    requires Strictly(compare, a) && Strictly(compare, b)
    requires forall x :: x in a <==> x in b
    ensures a == b
  {
    assert a != [] ==> a[0] in b;
    assert b != [] ==> b[0] in a;
    if a != [] && b != [] {
      LeastIsHead(compare, a, b[0]);
      LeastIsHead(compare, b, a[0]);
      Mirrored(compare, a[0], b[0]);
      assert a[0] == b[0];
      Mirrored(compare, a[0], a[0]);
      TailMembers(compare, a);
      TailMembers(compare, b);
      StrictOrderIsUnique(compare, a[1..], b[1..]);
      assert a == [a[0]] + a[1..] && b == [b[0]] + b[1..];
    }
  }

  lemma TailMembers<T(!new)>(compare: (T, T) -> int, a: seq<T>)
    requires a != [] && Strictly(compare, a) && compare(a[0], a[0]) == 0
    ensures Strictly(compare, a[1..])
    ensures forall x :: x in a[1..] <==> x in a && x != a[0]
  {
    assert a == [a[0]] + a[1..];
  }

  /** Rows that compare unequal arrange in one way only, whatever order they came in. */
  lemma ArrangementIsUnique<T(!new)>(compare: (T, T) -> int, s: seq<T>, t: seq<T>, a: seq<T>, b: seq<T>)
    requires Preorder(compare) && Distinct(compare, s) && Distinct(compare, t)
    requires multiset(s) == multiset(t)
    requires Arranges(compare, a, s) && Arranges(compare, b, t)
    ensures a == b
  {
    DistinctIsStrict(compare, s, a);
    DistinctIsStrict(compare, t, b);
    SameLength(a, b);
    StrictOrderIsUnique(compare, a, b);
  }

  lemma OccursAtMostOnce<T(!new)>(compare: (T, T) -> int, s: seq<T>, x: T)
    requires Preorder(compare) && Distinct(compare, s)
    ensures multiset(s)[x] <= 1
  {
    Mirrored(compare, x, x);
    if multiset(s)[x] >= 2 {
      var i, j := TwiceInMultiset(s, x);
    }
  }

  /** Sequences of distinct elements are permutations when they hold the same ones. */
  lemma DistinctSameElements<T(!new)>(compare: (T, T) -> int, s: seq<T>, t: seq<T>)
    requires Preorder(compare) && Distinct(compare, s) && Distinct(compare, t)
    requires forall x :: x in s <==> x in t
    ensures multiset(s) == multiset(t)
  {
    forall x ensures multiset(s)[x] == multiset(t)[x] {
      OccursAtMostOnce(compare, s, x);
      OccursAtMostOnce(compare, t, x);
      assert x in multiset(s) <==> x in s;
      assert x in multiset(t) <==> x in t;
    }
  }
}
