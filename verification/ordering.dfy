/**
 * Sorting and adjacent-duplicate removal as the backend applies them to its
 * candidate vectors: `sort(.., compare())` followed by
 * `erase(unique(.., result_equality()), end)`.
 *
 * The comparator and the equality are parameters: the backend only requires
 * of them what `std::sort` and `std::unique` require.
 */
module Ordering {

  /** `a` and `b` are in neither order. */
  predicate Incomparable<T(==)>(lt: (T, T) -> bool, a: T, b: T)
  {
    !lt(a, b) && !lt(b, a)
  }

  /** What `std::sort` demands of its comparator. */
  ghost predicate StrictWeakOrder<T(!new)>(lt: (T, T) -> bool)
  {
    && (forall a :: !lt(a, a))
    && (forall a, b, c :: lt(a, b) && lt(b, c) ==> lt(a, c))
    && (forall a, b, c :: Incomparable(lt, a, b) && Incomparable(lt, b, c) ==> Incomparable(lt, a, c))
  }

  /** `eq` identifies exactly the pairs `lt` cannot tell apart. */
  ghost predicate EqualityOf<T(!new)>(lt: (T, T) -> bool, eq: (T, T) -> bool)
  {
    forall a, b :: eq(a, b) <==> Incomparable(lt, a, b)
  }

  /** No element is ordered strictly before an element to its left. */
  predicate Sorted<T(==)>(s: seq<T>, lt: (T, T) -> bool)
  {
    forall i, j :: 0 <= i < j < |s| ==> !lt(s[j], s[i])
  }

  /** No two neighbours are equal in the sense of `eq`. */
  predicate AdjacentDistinct<T(==)>(s: seq<T>, eq: (T, T) -> bool)
  {
    forall i :: 0 < i < |s| ==> !eq(s[i - 1], s[i])
  }

  /** Some element of `s` is `eq`-equal to `x`. */
  predicate Represented<T(==)>(x: T, s: seq<T>, eq: (T, T) -> bool)
  {
    exists k :: 0 <= k < |s| && eq(s[k], x)
  }

  /** `x` placed in front of the first element it is ordered strictly before. */
  function Insert<T(==)>(x: T, s: seq<T>, lt: (T, T) -> bool): (r: seq<T>)
    ensures multiset(r) == multiset(s) + multiset{x}
    decreases |s|
  {
    if s == [] || lt(x, s[0]) then [x] + s
    else
      assert s == [s[0]] + s[1..];
      [s[0]] + Insert(x, s[1..], lt)
  }

  /** The sorted vector: a permutation of `s` (sorted by SortSorted). */
  function Sort<T(==)>(s: seq<T>, lt: (T, T) -> bool): (r: seq<T>)
    ensures multiset(r) == multiset(s)
    ensures |r| == |s|
    decreases |s|
  {
    if s == [] then []
    else
      assert s == [s[0]] + s[1..];
      Insert(s[0], Sort(s[1..], lt), lt)
  }

  /** `std::unique` followed by `erase`: keeps an element only when it is not
      `eq`-equal to the element kept last. */
  function Unique<T(==)>(s: seq<T>, eq: (T, T) -> bool): (r: seq<T>)
    ensures multiset(r) <= multiset(s)
    ensures |r| <= |s|
    ensures s != [] ==> r != [] && r[0] == s[0]
    ensures AdjacentDistinct(r, eq)
  {
    if s == [] then []
    else
      assert s == [s[0]] + s[1..];
      [s[0]] + UniqueAfter(s[0], s[1..], eq)
  }

  /** The elements `std::unique` keeps from `s` when `last` was kept before them. */
  function UniqueAfter<T(==)>(last: T, s: seq<T>, eq: (T, T) -> bool): (r: seq<T>)
    ensures multiset(r) <= multiset(s)
    ensures |r| <= |s|
    ensures r != [] ==> !eq(last, r[0])
    ensures AdjacentDistinct(r, eq)
    decreases |s|
  {
    if s == [] then []
    else
      assert s == [s[0]] + s[1..];
      if eq(last, s[0]) then UniqueAfter(last, s[1..], eq)
      else [s[0]] + UniqueAfter(s[0], s[1..], eq)
  }

  lemma {:induction false} InsertSorted<T(!new)>(x: T, s: seq<T>, lt: (T, T) -> bool)
    requires StrictWeakOrder(lt) && Sorted(s, lt)
    ensures Sorted(Insert(x, s, lt), lt)
    decreases |s|
  {
    if s == [] {
    } else if lt(x, s[0]) {
      var r := [x] + s;
      forall i, j | 0 <= i < j < |r| ensures !lt(r[j], r[i]) {
        if i == 0 {
          assert r[j] == s[j - 1];
          if j == 1 {
            assert !lt(s[0], s[0]);
          } else {
            assert !lt(s[j - 1], s[0]);
          }
        }
      }
    } else {
      InsertSorted(x, s[1..], lt);
      var t := Insert(x, s[1..], lt);
      var r := [s[0]] + t;
      forall i, j | 0 <= i < j < |r| ensures !lt(r[j], r[i]) {
        if i == 0 {
          assert r[j] in multiset(t);
          if r[j] != x {
            assert r[j] in multiset(s[1..]);
            var k :| 0 <= k < |s[1..]| && s[1..][k] == r[j];
            assert s[k + 1] == r[j];
          }
        }
      }
    }
  }

  /** The sorted vector is sorted. */
  lemma {:induction false} SortSorted<T(!new)>(s: seq<T>, lt: (T, T) -> bool)
    requires StrictWeakOrder(lt)
    ensures Sorted(Sort(s, lt), lt)
    decreases |s|
  {
    if s != [] {
      SortSorted(s[1..], lt);
      InsertSorted(s[0], Sort(s[1..], lt), lt);
    }
  }

  lemma {:induction false} UniqueAfterSorted<T>(last: T, s: seq<T>, lt: (T, T) -> bool, eq: (T, T) -> bool)
    requires Sorted([last] + s, lt)
    ensures Sorted([last] + UniqueAfter(last, s, eq), lt)
    decreases |s|
  {
    if s != [] {
      var s' := [last] + s;
      if eq(last, s[0]) {
        var d := [last] + s[1..];
        forall i, j | 0 <= i < j < |d| ensures !lt(d[j], d[i]) {
          if i == 0 {
            assert d[j] == s'[j + 1] && d[0] == s'[0];
            assert !lt(s'[j + 1], s'[0]);
          } else {
            assert d[i] == s'[i + 1] && d[j] == s'[j + 1];
            assert !lt(s'[j + 1], s'[i + 1]);
          }
        }
        UniqueAfterSorted(last, s[1..], lt, eq);
      } else {
        assert s == s'[1..];
        UniqueAfterSorted(s[0], s[1..], lt, eq);
        var u := UniqueAfter(s[0], s[1..], eq);
        var r := [last] + ([s[0]] + u);
        forall i, j | 0 <= i < j < |r| ensures !lt(r[j], r[i]) {
          if i == 0 {
            assert r[j] in multiset(s) by {
              if j > 1 {
                assert r[j] in multiset(u);
                assert r[j] in multiset(s[1..]);
                assert s == [s[0]] + s[1..];
              }
            }
            var k :| 0 <= k < |s| && s[k] == r[j];
            assert s'[k + 1] == r[j];
          } else {
            assert r[i] == ([s[0]] + u)[i - 1] && r[j] == ([s[0]] + u)[j - 1];
          }
        }
      }
    }
  }

  /** Removing duplicates keeps a sorted vector sorted. */
  lemma UniqueSorted<T>(s: seq<T>, lt: (T, T) -> bool, eq: (T, T) -> bool)
    requires Sorted(s, lt)
    ensures Sorted(Unique(s, eq), lt)
  {
    if s != [] {
      assert s == [s[0]] + s[1..];
      UniqueAfterSorted(s[0], s[1..], lt, eq);
    }
  }

  lemma {:induction false} UniqueAfterCovers<T>(last: T, s: seq<T>, eq: (T, T) -> bool, x: T)
    requires forall a :: eq(a, a)
    requires x in s
    ensures eq(last, x) || Represented(x, UniqueAfter(last, s, eq), eq)
    decreases |s|
  {
    var r := UniqueAfter(last, s, eq);
    if eq(last, s[0]) {
      if x != s[0] {
        UniqueAfterCovers(last, s[1..], eq, x);
      }
    } else {
      assert r[0] == s[0];
      if x == s[0] {
        assert eq(r[0], x);
      } else {
        UniqueAfterCovers(s[0], s[1..], eq, x);
        var u := UniqueAfter(s[0], s[1..], eq);
        assert r == [s[0]] + u;
        if eq(s[0], x) {
          assert r[0] in r;
        } else {
          var y :| y in u && eq(y, x);
          assert y in r;
        }
      }
    }
  }

  /** Nothing is lost by removing duplicates: every element of the input has
      an `eq`-equal element in the output. */
  lemma UniqueCovers<T>(s: seq<T>, eq: (T, T) -> bool)
    requires forall a :: eq(a, a)
    ensures forall x :: x in s ==> Represented(x, Unique(s, eq), eq)
  {
    var r := Unique(s, eq);
    forall x | x in s ensures Represented(x, r, eq) {
      assert r[0] == s[0];
      if x == s[0] {
        assert eq(r[0], x);
      } else {
        assert x in s[1..] by { assert s == [s[0]] + s[1..]; }
        UniqueAfterCovers(s[0], s[1..], eq, x);
        if eq(s[0], x) {
          assert r[0] in r;
        } else {
          var y :| y in UniqueAfter(s[0], s[1..], eq) && eq(y, x);
          assert y in r;
        }
      }
    }
  }

  lemma {:induction false} StrictlyIncreasing<T(!new)>(s: seq<T>, lt: (T, T) -> bool, i: nat, j: nat)
    requires StrictWeakOrder(lt)
    requires forall k :: 0 < k < |s| ==> lt(s[k - 1], s[k])
    requires i < j < |s|
    ensures lt(s[i], s[j])
    decreases j - i
  {
    if i + 1 < j {
      StrictlyIncreasing(s, lt, i + 1, j);
    }
  }

  /** When `eq` identifies exactly the elements the comparator cannot order,
      the output of sorting and removing adjacent duplicates holds no two
      equal elements anywhere, not just side by side. */
  lemma NoDuplicates<T(!new)>(s: seq<T>, lt: (T, T) -> bool, eq: (T, T) -> bool)
    requires StrictWeakOrder(lt) && EqualityOf(lt, eq)
    requires Sorted(s, lt)
    ensures forall i, j :: 0 <= i < j < |Unique(s, eq)| ==> !eq(Unique(s, eq)[i], Unique(s, eq)[j])
  {
    var r := Unique(s, eq);
    UniqueSorted(s, lt, eq);
    forall k | 0 < k < |r| ensures lt(r[k - 1], r[k]) {
      assert !lt(r[k], r[k - 1]);
      assert !eq(r[k - 1], r[k]);
    }
    forall i, j | 0 <= i < j < |r| ensures !eq(r[i], r[j]) {
      StrictlyIncreasing(r, lt, i, j);
    }
  }
}
