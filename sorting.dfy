/** `Array.prototype.sort` with a comparator, which is stable: a stable insertion
    sort over an ordering `lt` ("sorts strictly before"). */
module Sorting {

  /** `x` goes before the first element of `s` that does not sort strictly before it. */
  function Insert<T>(x: T, s: seq<T>, lt: (T, T) -> bool): (r: seq<T>)
    ensures multiset(r) == multiset(s) + multiset{x}
    ensures |r| == |s| + 1
  {
    if s == [] || !lt(s[0], x) then [x] + s
    else
      assert s == [s[0]] + s[1..];
      [s[0]] + Insert(x, s[1..], lt)
  }

  function Sort<T>(s: seq<T>, lt: (T, T) -> bool): (r: seq<T>)
    ensures multiset(r) == multiset(s)
    ensures |r| == |s|
  {
    if s == [] then []
    else
      assert s == [s[0]] + s[1..];
      Insert(s[0], Sort(s[1..], lt), lt)
  }

  /** No element sorts strictly before an earlier one. */
  ghost predicate Sorted<T>(s: seq<T>, lt: (T, T) -> bool) {
    forall i, j :: 0 <= i < j < |s| ==> !lt(s[j], s[i])
  }

  /** `lt` is a strict weak order: irreflexive, transitive, and incomparability is
      transitive (stated as: `a < c` implies `a < b` or `b < c`). */
  ghost predicate StrictWeakOrder<T(!new)>(lt: (T, T) -> bool) {
    (forall a :: !lt(a, a)) &&
    (forall a, b, c :: lt(a, b) && lt(b, c) ==> lt(a, c)) &&
    (forall a, b, c :: lt(a, c) ==> lt(a, b) || lt(b, c))
  }

  lemma {:induction false} InsertSorted<T(!new)>(x: T, s: seq<T>, lt: (T, T) -> bool)
    requires StrictWeakOrder(lt) && Sorted(s, lt)
    ensures Sorted(Insert(x, s, lt), lt)
  {
    if s == [] || !lt(s[0], x) {
      var r := [x] + s;
      forall i, j | 0 <= i < j < |r| ensures !lt(r[j], r[i]) {
        if i == 0 {
          // s[0] does not sort before x and s[j-1] does not sort before s[0]
          if j > 1 { assert !lt(s[j - 1], s[0]); }
        }
      }
    } else {
      InsertSorted(x, s[1..], lt);
      var t := Insert(x, s[1..], lt);
      var r := [s[0]] + t;
      assert forall k :: 0 <= k < |t| ==> t[k] in multiset(s[1..]) + multiset{x} by {
        forall k | 0 <= k < |t| ensures t[k] in multiset(s[1..]) + multiset{x} {
          assert t[k] in multiset(t);
        }
      }
      forall i, j | 0 <= i < j < |r| ensures !lt(r[j], r[i]) {
        if i == 0 {
          var y := t[j - 1];
          assert y in multiset(s[1..]) + multiset{x};
          if y == x {
          } else {
            assert y in multiset(s[1..]);
            var k :| 0 <= k < |s[1..]| && s[1..][k] == y;
            assert !lt(s[k + 1], s[0]);
          }
        }
      }
    }
  }

  /** The sort returns its input in an order where nothing is out of place. */
  lemma {:induction false} SortSorted<T(!new)>(s: seq<T>, lt: (T, T) -> bool)
    requires StrictWeakOrder(lt)
    ensures Sorted(Sort(s, lt), lt)
  {
    if s != [] {
      SortSorted(s[1..], lt);
      InsertSorted(s[0], Sort(s[1..], lt), lt);
    }
  }

  /** `lt` ranks every two different elements of `s`. */
  ghost predicate RanksAll<T>(s: seq<T>, lt: (T, T) -> bool) {
    forall i, j :: 0 <= i < |s| && 0 <= j < |s| && s[i] != s[j] ==> lt(s[i], s[j]) || lt(s[j], s[i])
  }

  lemma SortedHeadsAgree<T>(a: seq<T>, b: seq<T>, lt: (T, T) -> bool)
    requires Sorted(a, lt) && Sorted(b, lt) && multiset(a) == multiset(b) && |a| > 0
    requires RanksAll(a, lt)
    ensures |b| > 0 && a[0] == b[0]
  {
    assert a[0] in multiset(b);
    assert b[0] in multiset(a);
  }

  lemma TailKeepsOrder<T>(a: seq<T>, lt: (T, T) -> bool)
    requires |a| > 0 && Sorted(a, lt) && RanksAll(a, lt)
    ensures Sorted(a[1..], lt) && RanksAll(a[1..], lt)
  {
    forall i, j | 0 <= i < |a| - 1 && 0 <= j < |a| - 1
      ensures a[1..][i] != a[1..][j] ==> lt(a[1..][i], a[1..][j]) || lt(a[1..][j], a[1..][i])
    {
      assert a[1..][i] == a[i + 1] && a[1..][j] == a[j + 1];
    }
  }

  lemma TailMultiset<T>(a: seq<T>)
    requires |a| > 0
    ensures multiset(a[1..]) == multiset(a) - multiset{a[0]}
  {
    assert a == [a[0]] + a[1..];
  }

  /** Two sorted arrangements of the same elements agree when the order ranks every
      two different elements. */
  lemma {:induction false} SortedUnique<T>(a: seq<T>, b: seq<T>, lt: (T, T) -> bool)
    requires Sorted(a, lt) && Sorted(b, lt) && multiset(a) == multiset(b)
    requires RanksAll(a, lt)
    ensures a == b
    decreases |a|
  {
    assert |a| == |multiset(a)| == |b|;
    if a != [] {
      SortedHeadsAgree(a, b, lt);
      TailMultiset(a);
      TailMultiset(b);
      TailKeepsOrder(a, lt);
      assert Sorted(b[1..], lt);
      SortedUnique(a[1..], b[1..], lt);
      assert a == [a[0]] + a[1..] && b == [b[0]] + b[1..];
    }
  }
}
