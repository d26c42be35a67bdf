/**
 * Sorting by a comparator, as `std::sort` is called: `lt(a, b)` means `a` goes before `b`. The
 * comparators of this program are strict orders (irreflexive and transitive); for them, insertion
 * sort yields a permutation of the input in which no element is `lt` any element before it. It is
 * one of the outcomes `std::sort` may produce: an unstable sort may order equivalent elements
 * differently, which no property stated here depends on.
 */
module Sorting {

  /** `lt` is irreflexive and transitive (hence asymmetric). */
  ghost predicate StrictOrder<T(!new)>(lt: (T, T) -> bool)
  {
    && (forall a :: !lt(a, a))
    && (forall a, b, c :: lt(a, b) && lt(b, c) ==> lt(a, c))
  }

  /** No element is `lt` an element before it. */
  predicate SortedBy<T>(s: seq<T>, lt: (T, T) -> bool)
  {
    forall i, j :: 0 <= i < j < |s| ==> !lt(s[j], s[i])
  }

  /** `x` inserted into a sorted sequence, after every element `x` does not go before. */
  function Insert<T(==,!new)>(x: T, s: seq<T>, lt: (T, T) -> bool): (r: seq<T>)
    requires StrictOrder(lt) && SortedBy(s, lt)
    ensures multiset(r) == multiset(s) + multiset{x}
    ensures SortedBy(r, lt)
    ensures |r| == |s| + 1
  {
    if |s| == 0 then [x]
    else if lt(x, s[0]) then
      assert forall j :: 0 <= j < |s| ==> !lt(s[j], x);
      [x] + s
    else
      var rest := Insert(x, s[1..], lt);
      assert s == [s[0]] + s[1..];
      InsertHead(s[0], x, s[1..], rest, lt);
      [s[0]] + rest
  }

  /** Putting the old head back in front of the insertion into the tail keeps the order. */
  lemma InsertHead<T(!new)>(h: T, x: T, tail: seq<T>, rest: seq<T>, lt: (T, T) -> bool)
    requires StrictOrder(lt)
    requires SortedBy([h] + tail, lt) && !lt(x, h)
    requires SortedBy(rest, lt) && multiset(rest) == multiset(tail) + multiset{x}
    ensures SortedBy([h] + rest, lt)
  {
    var r := [h] + rest;
    forall i, j | 0 <= i < j < |r| ensures !lt(r[j], r[i]) {
      if i == 0 {
        assert r[j] == rest[j - 1];
        assert r[j] in multiset(rest);
        assert r[0] == h;
        if r[j] != x {
          assert multiset(rest)[r[j]] == multiset(tail)[r[j]] + multiset{x}[r[j]];
          assert r[j] in multiset(tail);
          assert r[j] in tail;
          var m :| 0 <= m < |tail| && tail[m] == r[j];
          assert ([h] + tail)[m + 1] == r[j];
          assert ([h] + tail)[0] == h;
        }
      } else {
        assert r[j] == rest[j - 1] && r[i] == rest[i - 1];
      }
    }
  }

  /** Insertion sort: each element inserted, left to right, into the sorted prefix. */
  function SortBy<T(==,!new)>(s: seq<T>, lt: (T, T) -> bool): (r: seq<T>)
    requires StrictOrder(lt)
    ensures multiset(r) == multiset(s)
    ensures SortedBy(r, lt)
    ensures |r| == |s|
    decreases |s|
  {
    if |s| == 0 then []
    else
      var prefix := SortBy(s[..|s| - 1], lt);
      assert s == s[..|s| - 1] + [s[|s| - 1]];
      Insert(s[|s| - 1], prefix, lt)
  }

  /** A prefix of a sorted sequence is sorted, and nothing dropped goes before anything kept. */
  lemma PrefixOfSorted<T>(s: seq<T>, n: nat, lt: (T, T) -> bool)
    requires SortedBy(s, lt) && n <= |s|
    ensures SortedBy(s[..n], lt)
    ensures forall i, j :: 0 <= i < n <= j < |s| ==> !lt(s[j], s[i])
  {
  }
}
