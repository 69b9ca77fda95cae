/** Three-way comparisons and their lexicographic extension.
    Go's cmp.Compare, strings.Compare and the identifier-by-identifier walk of a prerelease
    are all instances of what is proved here once. */
module Orders {

  /** A three-way comparison that totally orders T: its zero is equality. */
  ghost predicate TotalOrder<T(!new)>(compare: (T, T) -> int) {
    && (forall x, y :: -1 <= compare(x, y) <= 1)
    && (forall x, y :: compare(x, y) == -compare(y, x))
    && (forall x, y :: compare(x, y) == 0 <==> x == y)
    && (forall x, y, z :: compare(x, y) <= 0 && compare(y, z) <= 0 ==> compare(x, z) <= 0)
  }

  function CompareInt(x: int, y: int): int {
    if x < y then -1 else if x > y then 1 else 0
  }

  function CompareChar(x: char, y: char): int {
    if x < y then -1 else if x > y then 1 else 0
  }

  /** The first differing element decides; a proper prefix is less. */
  function Lex<T(==)>(compare: (T, T) -> int, a: seq<T>, b: seq<T>): int {
    if a == [] || b == [] then CompareInt(|a|, |b|)
    else if compare(a[0], b[0]) != 0 then compare(a[0], b[0])
    else Lex(compare, a[1..], b[1..])
  }

  lemma CharOrder()
    ensures TotalOrder(CompareChar)
  {
  }

  lemma {:induction false} LexAntisymmetric<T(!new)>(compare: (T, T) -> int, a: seq<T>, b: seq<T>)
    requires TotalOrder(compare)
    ensures -1 <= Lex(compare, a, b) <= 1
    ensures Lex(compare, a, b) == -Lex(compare, b, a)
  {
    if a != [] && b != [] {
      LexAntisymmetric(compare, a[1..], b[1..]);
    }
  }

  lemma {:induction false} LexZero<T(!new)>(compare: (T, T) -> int, a: seq<T>, b: seq<T>)
    requires TotalOrder(compare)
    ensures Lex(compare, a, b) == 0 <==> a == b
  {
    if a != [] && b != [] {
      LexZero(compare, a[1..], b[1..]);
      assert a == [a[0]] + a[1..] && b == [b[0]] + b[1..];
    }
  }

  lemma {:induction false} LexTransitive<T(!new)>(compare: (T, T) -> int, a: seq<T>, b: seq<T>, c: seq<T>)
    requires TotalOrder(compare)
    requires Lex(compare, a, b) <= 0 && Lex(compare, b, c) <= 0
    ensures Lex(compare, a, c) <= 0
  {
    if a != [] && b != [] && c != [] {
      if compare(a[0], b[0]) == 0 && compare(b[0], c[0]) == 0 {
        LexTransitive(compare, a[1..], b[1..], c[1..]);
      }
    }
  }

  /** The lexicographic extension of a total order is a total order on sequences. */
  lemma LexOrder<T(!new)>(compare: (T, T) -> int)
    requires TotalOrder(compare)
    ensures TotalOrder((a: seq<T>, b: seq<T>) => Lex(compare, a, b))
  {
    forall a: seq<T>, b: seq<T>
      ensures -1 <= Lex(compare, a, b) <= 1
      ensures Lex(compare, a, b) == -Lex(compare, b, a)
      ensures Lex(compare, a, b) == 0 <==> a == b
    {
      LexAntisymmetric(compare, a, b);
      LexZero(compare, a, b);
    }
    forall a: seq<T>, b: seq<T>, c: seq<T> | Lex(compare, a, b) <= 0 && Lex(compare, b, c) <= 0
      ensures Lex(compare, a, c) <= 0
    {
      LexTransitive(compare, a, b, c);
    }
  }

  function CompareText(a: string, b: string): int {
    Lex(CompareChar, a, b)
  }

  /** strings.Compare is a total order whose zero is equality of the texts. */
  lemma TextOrder()
    ensures TotalOrder(CompareText)
  {
    CharOrder();
    LexOrder(CompareChar);
    var byLambda := (a: string, b: string) => Lex(CompareChar, a, b);
    assert forall a: string, b: string :: CompareText(a, b) == byLambda(a, b);
  }

  // --- what the comparisons mean ---

  /** a comes first where the two part, or ends there: less decides between the first two
      elements that differ. */
  ghost predicate Below<T>(less: (T, T) -> bool, a: seq<T>, b: seq<T>) {
    exists k: nat :: Parts(less, a, b, k)
  }

  predicate Parts<T(==)>(less: (T, T) -> bool, a: seq<T>, b: seq<T>, k: nat) {
    && k <= |a| && k < |b| && a[..k] == b[..k]
    && (k < |a| ==> less(a[k], b[k]))
  }

  lemma PartsLater<T>(less: (T, T) -> bool, a: seq<T>, b: seq<T>, k: nat)
    requires a != [] && b != [] && a[0] == b[0]
    ensures Parts(less, a[1..], b[1..], k) <==> Parts(less, a, b, k + 1)
  {
    if k + 1 <= |a| && k + 1 <= |b| {
      assert a[..k + 1] == [a[0]] + a[1..][..k] && b[..k + 1] == [b[0]] + b[1..][..k];
      assert a[1..][..k] == a[..k + 1][1..] && b[1..][..k] == b[..k + 1][1..];
    }
  }

  lemma {:induction false} LexIsBelow<T(!new)>(compare: (T, T) -> int, less: (T, T) -> bool, a: seq<T>, b: seq<T>)
    requires TotalOrder(compare)
    requires forall x, y | x in a && y in b :: compare(x, y) == -1 <==> less(x, y)
    requires forall x :: !less(x, x)
    ensures Lex(compare, a, b) == -1 <==> Below(less, a, b)
  {
    if a == [] || b == [] {
      assert a == [] && b != [] ==> Parts(less, a, b, 0);
    } else if a[0] != b[0] {
      assert a[0] in a && b[0] in b;
      assert less(a[0], b[0]) ==> Parts(less, a, b, 0);
      assert forall k: nat | 0 < k <= |a| :: a[..k][0] == a[0];
      assert forall k: nat | 0 < k <= |b| :: b[..k][0] == b[0];
      assert forall k: nat | Parts(less, a, b, k) :: k == 0;
    } else {
      LexIsBelow(compare, less, a[1..], b[1..]);
      if k: nat :| Parts(less, a[1..], b[1..], k) { PartsLater(less, a, b, k); }
      if k: nat :| Parts(less, a, b, k) {
        assert a[0] in a && b[0] in b;
        if k > 0 { PartsLater(less, a, b, k - 1); }
      }
    }
  }

  predicate CodeBelow(x: char, y: char) { x as int < y as int }

  /** One text is below another by character codes. */
  ghost predicate TextBelow(a: string, b: string) { Below(CodeBelow, a, b) }

  lemma TextComparesByCode(a: string, b: string)
    ensures CompareText(a, b) == -1 <==> TextBelow(a, b)
    ensures CompareText(a, b) == 1 <==> TextBelow(b, a)
  {
    CharOrder();
    TextOrder();
    LexIsBelow(CompareChar, CodeBelow, a, b);
    LexIsBelow(CompareChar, CodeBelow, b, a);
  }

  /** The first two characters that differ decide, by their codes; a proper prefix is less. */
  lemma FirstDifferenceDecides(p: string, x: char, s: string, y: char, t: string)
    requires x != y
    ensures CompareText(p + [x] + s, p + [y] + t) == if x as int < y as int then -1 else 1
    ensures CompareText(p, p + [x] + s) == -1
  {
    var a, b := p + [x] + s, p + [y] + t;
    TextComparesByCode(a, b);
    TextComparesByCode(p, a);
    assert a[..|p|] == p && b[..|p|] == p && p[..|p|] == p;
    assert Parts(CodeBelow, p, a, |p|);
    assert if x as int < y as int then Parts(CodeBelow, a, b, |p|) else Parts(CodeBelow, b, a, |p|);
  }
}
