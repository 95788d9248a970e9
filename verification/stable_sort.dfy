/**
 The stable sort both the leaderboard and the logbook rely on.

 JavaScript's `Array.prototype.sort` is stable: with a comparator that orders
 by one numeric key, descending, the result is the one permutation of the
 input that is non-increasing in the key and keeps elements of equal key in
 their input order. `SortDesc` is an insertion sort with exactly that
 behaviour, and the lemmas below prove the three halves of that description.
 */
module StableSort {

  /** Non-increasing in `key`. */
  predicate SortedDesc<T>(s: seq<T>, key: T -> int) {
    forall i, j :: 0 <= i < j < |s| ==> key(s[i]) >= key(s[j])
  }

  /** The elements of `s` whose key is `k`, in their order in `s`. */
  function KeyClass<T>(s: seq<T>, key: T -> int, k: int): (r: seq<T>)
    ensures |r| <= |s|
    ensures forall i :: 0 <= i < |r| ==> key(r[i]) == k
  {
    if s == [] then []
    else (if key(s[0]) == k then [s[0]] else []) + KeyClass(s[1..], key, k)
  }

  /** Places `x` before the first element whose key is not larger than its own. */
  function Insert<T>(x: T, s: seq<T>, key: T -> int): (r: seq<T>)
    ensures |r| == |s| + 1
    ensures multiset(r) == multiset(s) + multiset{x}
  {
    if s == [] || key(x) >= key(s[0]) then [x] + s
    else
      assert s == [s[0]] + s[1..];
      [s[0]] + Insert(x, s[1..], key)
  }

  /** Insertion keeps a sorted sequence sorted. */
  lemma {:induction false} InsertSorted<T>(x: T, s: seq<T>, key: T -> int)
    requires SortedDesc(s, key)
    ensures SortedDesc(Insert(x, s, key), key)
  {
    if s != [] && key(x) < key(s[0]) {
      var rest := Insert(x, s[1..], key);
      assert SortedDesc(s[1..], key);
      InsertSorted(x, s[1..], key);
      InsertBelow(x, s[1..], key, key(s[0]));
      var r := [s[0]] + rest;
      forall i, j | 0 <= i < j < |r| ensures key(r[i]) >= key(r[j]) {
        if i > 0 {
          assert r[i] == rest[i - 1];
        }
        assert r[j] == rest[j - 1];
      }
      assert Insert(x, s, key) == r;
    }
  }

  /** Inserting under a bound keeps every key under it. */
  lemma {:induction false} InsertBelow<T>(x: T, s: seq<T>, key: T -> int, m: int)
    requires key(x) <= m
    requires forall i :: 0 <= i < |s| ==> key(s[i]) <= m
    ensures forall i :: 0 <= i < |Insert(x, s, key)| ==> key(Insert(x, s, key)[i]) <= m
  {
    if s != [] && key(x) < key(s[0]) {
      InsertBelow(x, s[1..], key, m);
    }
  }

  /** Stable insertion sort, descending by `key`. */
  function SortDesc<T>(s: seq<T>, key: T -> int): (r: seq<T>)
    ensures |r| == |s|
  {
    if s == [] then []
    else Insert(s[0], SortDesc(s[1..], key), key)
  }

  /** The sort's result is non-increasing in the key. */
  lemma {:induction false} SortDescSorted<T>(s: seq<T>, key: T -> int)
    ensures SortedDesc(SortDesc(s, key), key)
  {
    if s != [] {
      SortDescSorted(s[1..], key);
      InsertSorted(s[0], SortDesc(s[1..], key), key);
    }
  }

  /** The sort is a permutation of its input. */
  lemma {:induction false} SortDescPermutes<T>(s: seq<T>, key: T -> int)
    ensures multiset(SortDesc(s, key)) == multiset(s)
  {
    if s != [] {
      SortDescPermutes(s[1..], key);
      assert s == [s[0]] + s[1..];
    }
  }

  lemma {:induction false} KeyClassConcat<T>(a: seq<T>, b: seq<T>, key: T -> int, k: int)
    ensures KeyClass(a + b, key, k) == KeyClass(a, key, k) + KeyClass(b, key, k)
  {
    if a == [] {
      assert a + b == b;
    } else {
      assert (a + b)[1..] == a[1..] + b;
      KeyClassConcat(a[1..], b, key, k);
    }
  }

  /** Inserting `x` adds it at the front of its own key class and leaves every
      other class alone. */
  lemma {:induction false} InsertKeyClass<T>(x: T, s: seq<T>, key: T -> int, k: int)
    ensures KeyClass(Insert(x, s, key), key, k)
         == (if key(x) == k then [x] else []) + KeyClass(s, key, k)
  {
    if s == [] || key(x) >= key(s[0]) {
      KeyClassConcat([x], s, key, k);
    } else {
      var rest := Insert(x, s[1..], key);
      assert Insert(x, s, key) == [s[0]] + rest;
      KeyClassConcat([s[0]], rest, key, k);
      InsertKeyClass(x, s[1..], key, k);
      assert [s[0]] + s[1..] == s;
      KeyClassConcat([s[0]], s[1..], key, k);
      if key(x) == k {
        assert KeyClass([s[0]], key, k) == [];
      } else {
        assert KeyClass(rest, key, k) == KeyClass(s[1..], key, k);
      }
    }
  }

  /** Stability: restricted to any one key, the sorted sequence is the input. */
  lemma {:induction false} SortDescStable<T>(s: seq<T>, key: T -> int, k: int)
    ensures KeyClass(SortDesc(s, key), key, k) == KeyClass(s, key, k)
  {
    if s != [] {
      SortDescStable(s[1..], key, k);
      InsertKeyClass(s[0], SortDesc(s[1..], key), key, k);
      KeyClassConcat([s[0]], s[1..], key, k);
      assert [s[0]] + s[1..] == s;
    }
  }

  /** A sequence already in order is left exactly as it is; in particular a
      sequence whose keys are all equal is not reordered at all. */
  lemma {:induction false} SortDescOfSorted<T>(s: seq<T>, key: T -> int)
    requires SortedDesc(s, key)
    ensures SortDesc(s, key) == s
  {
    if s != [] {
      assert SortedDesc(s[1..], key);
      SortDescOfSorted(s[1..], key);
      assert [s[0]] + s[1..] == s;
    }
  }

  /** Sorting twice is sorting once. */
  lemma SortDescIdempotent<T>(s: seq<T>, key: T -> int)
    ensures SortDesc(SortDesc(s, key), key) == SortDesc(s, key)
  {
    SortDescSorted(s, key);
    SortDescOfSorted(SortDesc(s, key), key);
  }
}
