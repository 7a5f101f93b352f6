/**
 * `Array.prototype.sort` with a comparator that compares one key per element.
 * The language guarantees the sort is stable: elements whose keys compare
 * equal keep their input order. The sort is modelled as insertion sort,
 * specified by what the caller may rely on: the result is a permutation of the
 * input, ordered by the comparator, and stable.
 *
 * `less(a, b)` holds when the comparator puts key `a` strictly ahead of key
 * `b` (it returns a negative number).
 */
module StableSort {

  /** The comparator orders keys strictly and totally. */
  ghost predicate StrictTotalOrder<K(!new)>(less: (K, K) -> bool) {
    && (forall a :: !less(a, a))
    && (forall a, b, c :: less(a, b) && less(b, c) ==> less(a, c))
    && (forall a, b :: a != b ==> less(a, b) || less(b, a))
  }

  /** No element is strictly ahead of an element placed before it. */
  ghost predicate SortedBy<T, K>(s: seq<T>, key: T -> K, less: (K, K) -> bool) {
    forall i, j :: 0 <= i < j < |s| ==> !less(key(s[j]), key(s[i]))
  }

  /** The elements of `s` whose key is `k`, in order. */
  function WithKey<T, K(==)>(s: seq<T>, key: T -> K, k: K): seq<T> {
    if s == [] then []
    else if key(s[0]) == k then [s[0]] + WithKey(s[1..], key, k)
    else WithKey(s[1..], key, k)
  }

  /** Places `x` ahead of the first element it is not strictly behind. */
  function Insert<T, K>(x: T, s: seq<T>, key: T -> K, less: (K, K) -> bool): seq<T> {
    if s == [] || !less(key(s[0]), key(x)) then [x] + s
    else [s[0]] + Insert(x, s[1..], key, less)
  }

  function Sort<T, K>(s: seq<T>, key: T -> K, less: (K, K) -> bool): seq<T> {
    if s == [] then [] else Insert(s[0], Sort(s[1..], key, less), key, less)
  }

  lemma {:induction false} InsertPermutes<T, K>(x: T, s: seq<T>, key: T -> K, less: (K, K) -> bool)
    ensures multiset(Insert(x, s, key, less)) == multiset(s) + multiset{x}
  {
    if s != [] && less(key(s[0]), key(x)) {
      var t := Insert(x, s[1..], key, less);
      InsertPermutes(x, s[1..], key, less);
      assert Insert(x, s, key, less) == [s[0]] + t;
      assert s == [s[0]] + s[1..];
      assert multiset(s) == multiset{s[0]} + multiset(s[1..]);
    }
  }

  lemma {:induction false} InsertSorted<T, K(!new)>(x: T, s: seq<T>, key: T -> K, less: (K, K) -> bool)
    requires StrictTotalOrder(less)
    requires SortedBy(s, key, less)
    ensures SortedBy(Insert(x, s, key, less), key, less)
  {
    if s != [] && less(key(s[0]), key(x)) {
      InsertSorted(x, s[1..], key, less);
      InsertPermutes(x, s[1..], key, less);
      var t := Insert(x, s[1..], key, less);
      var r := [s[0]] + t;
      forall i, j | 0 <= i < j < |r| ensures !less(key(r[j]), key(r[i])) {
        if i == 0 {
          assert r[j] in multiset(t);
          assert r[j] == x || r[j] in multiset(s[1..]);
          if r[j] != x {
            var m :| 0 <= m < |s[1..]| && s[1..][m] == r[j];
            assert s[m + 1] == r[j];
          }
        }
      }
    }
  }

  /** Inserting `x` puts it ahead of the elements sharing its key; every other key's elements are untouched. */
  lemma {:induction false} InsertWithKey<T, K(!new)>(x: T, s: seq<T>, key: T -> K, less: (K, K) -> bool, k: K)
    requires forall a :: !less(a, a)
    ensures WithKey(Insert(x, s, key, less), key, k) == (if key(x) == k then [x] else []) + WithKey(s, key, k)
  {
    if s != [] && less(key(s[0]), key(x)) {
      InsertWithKey(x, s[1..], key, less, k);
      assert key(s[0]) != key(x);
    }
  }

  /** The sorted sequence is a permutation of the input. */
  lemma {:induction false} SortPermutes<T, K>(s: seq<T>, key: T -> K, less: (K, K) -> bool)
    ensures multiset(Sort(s, key, less)) == multiset(s)
  {
    if s != [] {
      SortPermutes(s[1..], key, less);
      InsertPermutes(s[0], Sort(s[1..], key, less), key, less);
      assert s == [s[0]] + s[1..];
    }
  }

  /** The sorted sequence is ordered by the comparator. */
  lemma {:induction false} SortSorted<T, K(!new)>(s: seq<T>, key: T -> K, less: (K, K) -> bool)
    requires StrictTotalOrder(less)
    ensures SortedBy(Sort(s, key, less), key, less)
  {
    if s != [] {
      SortSorted(s[1..], key, less);
      InsertSorted(s[0], Sort(s[1..], key, less), key, less);
    }
  }

  /** Stability: the elements sharing any one key appear in input order. */
  lemma {:induction false} SortStable<T, K(!new)>(s: seq<T>, key: T -> K, less: (K, K) -> bool, k: K)
    requires forall a :: !less(a, a)
    ensures WithKey(Sort(s, key, less), key, k) == WithKey(s, key, k)
  {
    if s != [] {
      SortStable(s[1..], key, less, k);
      InsertWithKey(s[0], Sort(s[1..], key, less), key, less, k);
    }
  }

  /** A sequence that is already ordered is returned as it is. */
  lemma {:induction false} SortOfSorted<T, K>(s: seq<T>, key: T -> K, less: (K, K) -> bool)
    requires SortedBy(s, key, less)
    ensures Sort(s, key, less) == s
  {
    if s != [] {
      assert SortedBy(s[1..], key, less) by {
        forall i, j | 0 <= i < j < |s[1..]| ensures !less(key(s[1..][j]), key(s[1..][i])) {
          assert s[1..][j] == s[j + 1] && s[1..][i] == s[i + 1];
        }
      }
      SortOfSorted(s[1..], key, less);
      if |s| > 1 {
        assert !less(key(s[1]), key(s[0]));
      }
      assert s == [s[0]] + s[1..];
    }
  }
}
