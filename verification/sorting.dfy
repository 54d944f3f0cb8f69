/** `Array.prototype.sort` with a comparator, as the dashboard uses it,
    modelled by an insertion sort. The contracts state that the result is
    a permutation of the input, sorted by a total preorder; the relative
    order of elements that compare equal is not stated. `le(a, b)` stands
    for `compare(a, b) <= 0`. */
module Sorting {
  import opened Seqs

  ghost predicate TotalPreorder<T(!new)>(le: (T, T) -> bool) {
    && (forall a, b :: le(a, b) || le(b, a))
    && (forall a, b, c :: le(a, b) && le(b, c) ==> le(a, c))
  }

  ghost predicate SortedBy<T>(xs: seq<T>, le: (T, T) -> bool) {
    forall i, j :: 0 <= i < j < |xs| ==> le(xs[i], xs[j])
  }

  /** Places `x` before the first element it may precede. */
  function Insert<T>(x: T, ys: seq<T>, le: (T, T) -> bool): (r: seq<T>)
    ensures |r| == |ys| + 1
    ensures multiset(r) == multiset(ys) + multiset{x}
  {
    if ys == [] then [x]
    else if le(x, ys[0]) then [x] + ys
    else
      assert ys == [ys[0]] + ys[1..];
      [ys[0]] + Insert(x, ys[1..], le)
  }

  /** Stable sort: an element goes before every later element it ties with. */
  function Sort<T>(xs: seq<T>, le: (T, T) -> bool): (r: seq<T>)
    ensures |r| == |xs|
    ensures multiset(r) == multiset(xs)
  {
    if xs == [] then []
    else
      assert xs == [xs[0]] + xs[1..];
      Insert(xs[0], Sort(xs[1..], le), le)
  }

  lemma {:induction false} InsertSorted<T(!new)>(x: T, ys: seq<T>, le: (T, T) -> bool)
    requires TotalPreorder(le) && SortedBy(ys, le)
    ensures SortedBy(Insert(x, ys, le), le)
  {
    if ys != [] && !le(x, ys[0]) {
      var tail := Insert(x, ys[1..], le);
      InsertSorted(x, ys[1..], le);
      var r := [ys[0]] + tail;
      forall j | 1 <= j < |r| ensures le(r[0], r[j]) {
        assert r[j] in multiset(tail);
        if r[j] != x {
          assert r[j] in multiset(ys[1..]);
          var k :| 0 <= k < |ys[1..]| && ys[1..][k] == r[j];
          assert ys[k + 1] == r[j];
        }
      }
      forall i, j | 0 <= i < j < |r| ensures le(r[i], r[j]) {
        if i > 0 {
          assert r[i] == tail[i - 1] && r[j] == tail[j - 1];
        }
      }
    }
  }

  /** The result is ordered by the comparator. */
  lemma {:induction false} SortSorted<T(!new)>(xs: seq<T>, le: (T, T) -> bool)
    requires TotalPreorder(le)
    ensures SortedBy(Sort(xs, le), le)
  {
    if xs != [] {
      SortSorted(xs[1..], le);
      InsertSorted(xs[0], Sort(xs[1..], le), le);
    }
  }

  lemma {:induction false} InsertKeepsDistinct<T, K>(x: T, ys: seq<T>, le: (T, T) -> bool, key: T -> K)
    requires DistinctBy(ys, key)
    requires forall i :: 0 <= i < |ys| ==> key(ys[i]) != key(x)
    ensures DistinctBy(Insert(x, ys, le), key)
  {
    if ys != [] && !le(x, ys[0]) {
      var tail := Insert(x, ys[1..], le);
      InsertKeepsDistinct(x, ys[1..], le, key);
      var r := [ys[0]] + tail;
      forall j | 1 <= j < |r| ensures key(r[0]) != key(r[j]) {
        assert r[j] in multiset(tail);
        if r[j] != x {
          assert r[j] in multiset(ys[1..]);
          var k :| 0 <= k < |ys[1..]| && ys[1..][k] == r[j];
          assert ys[k + 1] == r[j];
        }
      }
      forall i, j | 0 <= i < j < |r| ensures key(r[i]) != key(r[j]) {
        if i > 0 {
          assert r[i] == tail[i - 1] && r[j] == tail[j - 1];
        }
      }
    }
  }

  /** Sorting a key-distinct sequence keeps it key-distinct. */
  lemma {:induction false} SortKeepsDistinct<T, K>(xs: seq<T>, le: (T, T) -> bool, key: T -> K)
    requires DistinctBy(xs, key)
    ensures DistinctBy(Sort(xs, le), key)
  {
    if xs != [] {
      var rest := Sort(xs[1..], le);
      SortKeepsDistinct(xs[1..], le, key);
      forall i | 0 <= i < |rest| ensures key(rest[i]) != key(xs[0]) {
        assert rest[i] in multiset(xs[1..]);
        var k :| 0 <= k < |xs[1..]| && xs[1..][k] == rest[i];
        assert xs[k + 1] == rest[i];
      }
      InsertKeepsDistinct(xs[0], rest, le, key);
    }
  }
}
