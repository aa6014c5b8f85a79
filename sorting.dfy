/**
 * A stable sort by a lexicographic key. It is the common model of Go's `sort.SliceStable`
 * and of JavaScript's `Array.prototype.sort` (stable since ES2019) for the comparators the
 * program uses, all of which compare by at most two integer components.
 */
module Sorting {

  /** A sort key: compared first by `major`, then by `minor`. */
  datatype Rank = Rank(major: int, minor: int)

  /** The strict order of keys: `a` must be placed before `b`. */
  predicate Precedes(a: Rank, b: Rank) {
    a.major < b.major || (a.major == b.major && a.minor < b.minor)
  }

  /** No element is followed by one whose key precedes it. */
  ghost predicate Ordered<T>(s: seq<T>, key: T -> Rank) {
    forall i, j :: 0 <= i < j < |s| ==> !Precedes(key(s[j]), key(s[i]))
  }

  /** Every element of `s` has a key that `b` does not strictly exceed the element's key. */
  ghost predicate AllAtLeast<T>(s: seq<T>, key: T -> Rank, b: Rank) {
    forall k :: 0 <= k < |s| ==> !Precedes(key(s[k]), b)
  }

  /** The elements of `s` whose key is exactly `k`, in their order in `s`. */
  function WithKey<T>(s: seq<T>, key: T -> Rank, k: Rank): seq<T> {
    if s == [] then []
    else if key(s[0]) == k then [s[0]] + WithKey(s[1..], key, k)
    else WithKey(s[1..], key, k)
  }

  /** Places `x` in front of the first element of `s` that does not precede it. */
  function Insert<T>(x: T, s: seq<T>, key: T -> Rank): (r: seq<T>)
    ensures multiset(r) == multiset(s) + multiset{x}
    ensures |r| == |s| + 1
  {
    if s == [] || !Precedes(key(s[0]), key(x)) then [x] + s
    else
      assert s == [s[0]] + s[1..];
      [s[0]] + Insert(x, s[1..], key)
  }

  /** Stable insertion sort: each element goes in front of the later ones it does not follow. */
  function StableSort<T>(s: seq<T>, key: T -> Rank): (r: seq<T>)
    ensures multiset(r) == multiset(s)
    ensures |r| == |s|
  {
    if s == [] then []
    else
      assert s == [s[0]] + s[1..];
      Insert(s[0], StableSort(s[1..], key), key)
  }

  lemma PrecedesIsStrictTotal(a: Rank, b: Rank, c: Rank)
    ensures !Precedes(a, a)
    ensures Precedes(a, b) ==> !Precedes(b, a)
    ensures !Precedes(a, b) && !Precedes(b, a) ==> a == b
    ensures !Precedes(b, a) && !Precedes(c, b) ==> !Precedes(c, a)
  {
  }

  lemma {:induction false} InsertKeepsLowerBound<T>(x: T, s: seq<T>, key: T -> Rank, b: Rank)
    requires AllAtLeast(s, key, b) && !Precedes(key(x), b)
    ensures AllAtLeast(Insert(x, s, key), key, b)
  {
    if s == [] || !Precedes(key(s[0]), key(x)) {
    } else {
      InsertKeepsLowerBound(x, s[1..], key, b);
      var r := Insert(x, s, key);
      assert r == [s[0]] + Insert(x, s[1..], key);
      forall k | 0 <= k < |r| ensures !Precedes(key(r[k]), b) {
        if k > 0 { assert r[k] == Insert(x, s[1..], key)[k - 1]; }
      }
    }
  }

  /** Inserting into an ordered sequence keeps it ordered. */
  lemma {:induction false} InsertOrdered<T>(x: T, s: seq<T>, key: T -> Rank)
    requires Ordered(s, key)
    ensures Ordered(Insert(x, s, key), key)
  {
    var r := Insert(x, s, key);
    if s == [] {
    } else if !Precedes(key(s[0]), key(x)) {
      assert r == [x] + s;
      forall i, j | 0 <= i < j < |r| ensures !Precedes(key(r[j]), key(r[i])) {
        if i == 0 {
          assert r[j] == s[j - 1];
          if j > 1 { assert !Precedes(key(s[j - 1]), key(s[0])); }
          PrecedesIsStrictTotal(key(x), key(s[0]), key(s[j - 1]));
        } else {
          assert r[i] == s[i - 1] && r[j] == s[j - 1];
        }
      }
    } else {
      var t := s[1..];
      InsertOrdered(x, t, key);
      assert AllAtLeast(t, key, key(s[0])) by {
        forall k | 0 <= k < |t| ensures !Precedes(key(t[k]), key(s[0])) {
          assert t[k] == s[k + 1];
        }
      }
      PrecedesIsStrictTotal(key(s[0]), key(x), key(x));
      InsertKeepsLowerBound(x, t, key, key(s[0]));
      var u := Insert(x, t, key);
      assert r == [s[0]] + u;
      forall i, j | 0 <= i < j < |r| ensures !Precedes(key(r[j]), key(r[i])) {
        assert r[j] == u[j - 1];
        if i > 0 { assert r[i] == u[i - 1]; }
      }
    }
  }

  /** The sort's result is ordered by the key. */
  lemma {:induction false} SortOrdered<T>(s: seq<T>, key: T -> Rank)
    ensures Ordered(StableSort(s, key), key)
  {
    if s != [] {
      SortOrdered(s[1..], key);
      InsertOrdered(s[0], StableSort(s[1..], key), key);
    }
  }

  lemma {:induction false} InsertWithKey<T>(x: T, s: seq<T>, key: T -> Rank, k: Rank)
    ensures WithKey(Insert(x, s, key), key, k) == WithKey([x] + s, key, k)
  {
    if s == [] || !Precedes(key(s[0]), key(x)) {
    } else {
      InsertWithKey(x, s[1..], key, k);
      PrecedesIsStrictTotal(key(s[0]), key(x), key(x));
      var r := Insert(x, s, key);
      assert r == [s[0]] + Insert(x, s[1..], key);
      assert r[1..] == Insert(x, s[1..], key);
      assert ([x] + s)[1..] == s;
      assert ([x] + s[1..])[1..] == s[1..];
      assert s[1..] == s[1..];
    }
  }

  /**
   * Stability: the elements sharing any one key keep the order they had in the input.
   * Together with `Ordered` and the multiset equality this pins the result down uniquely.
   */
  lemma {:induction false} SortStable<T>(s: seq<T>, key: T -> Rank, k: Rank)
    ensures WithKey(StableSort(s, key), key, k) == WithKey(s, key, k)
  {
    if s != [] {
      SortStable(s[1..], key, k);
      InsertWithKey(s[0], StableSort(s[1..], key), key, k);
      var x, t := s[0], StableSort(s[1..], key);
      assert ([x] + t)[1..] == t;
      assert s[1..] == s[1..];
    }
  }
}
