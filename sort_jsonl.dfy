/**
  Sorting a JSONL recording by one numeric field, as Python's `sorted`
  with a key does: a stable sort, here by insertion.
 */
module SortJsonl {
  import opened Wrappers
  import opened Jsonl

  /** The keys never decrease along `s`. */
  predicate SortedBy<T>(s: seq<T>, key: T -> real) {
    forall i, j :: 0 <= i < j < |s| ==> key(s[i]) <= key(s[j])
  }

  /** The elements of `s` whose key is `k`, in their order in `s`. */
  function WithKey<T>(s: seq<T>, key: T -> real, k: real): seq<T>
    decreases |s|
  {
    if |s| == 0 then []
    else (if key(s[0]) == k then [s[0]] else []) + WithKey(s[1..], key, k)
  }

  /** Places `x` into sorted `s` after every element whose key is not larger. */
  function Insert<T>(x: T, s: seq<T>, key: T -> real): seq<T>
    decreases |s|
  {
    if |s| == 0 then [x]
    else if key(x) < key(s[0]) then [x] + s
    else [s[0]] + Insert(x, s[1..], key)
  }

  /** `sorted(data, key=key)`: each element in turn inserted behind the ones before it. */
  function SortBy<T>(s: seq<T>, key: T -> real): seq<T>
    decreases |s|
  {
    if |s| == 0 then []
    else Insert(s[|s| - 1], SortBy(s[..|s| - 1], key), key)
  }

  /** Inserting adds exactly the one element. */
  lemma {:induction false} InsertMultiset<T>(x: T, s: seq<T>, key: T -> real)
    ensures multiset(Insert(x, s, key)) == multiset(s) + multiset{x}
    ensures |Insert(x, s, key)| == |s| + 1
    decreases |s|
  {
    if |s| > 0 && key(x) >= key(s[0]) {
      InsertMultiset(x, s[1..], key);
      assert s == [s[0]] + s[1..];
    }
  }

  /** A lower bound of `x` and of every element of `s` bounds every element after insertion. */
  lemma {:induction false} InsertBounded<T>(x: T, s: seq<T>, key: T -> real, lo: real)
    requires lo <= key(x) && forall i :: 0 <= i < |s| ==> lo <= key(s[i])
    ensures forall i :: 0 <= i < |Insert(x, s, key)| ==> lo <= key(Insert(x, s, key)[i])
    decreases |s|
  {
    if |s| > 0 && key(x) >= key(s[0]) {
      InsertBounded(x, s[1..], key, lo);
      var r := Insert(x, s[1..], key);
      assert Insert(x, s, key) == [s[0]] + r;
    }
  }

  lemma {:induction false} InsertSorted<T>(x: T, s: seq<T>, key: T -> real)
    requires SortedBy(s, key)
    ensures SortedBy(Insert(x, s, key), key)
    decreases |s|
  {
    if |s| > 0 && key(x) >= key(s[0]) {
      var tail := s[1..];
      InsertSorted(x, tail, key);
      InsertBounded(x, tail, key, key(s[0]));
      var r := Insert(x, tail, key);
      assert Insert(x, s, key) == [s[0]] + r;
    }
  }

  lemma {:induction false} WithKeyAppend<T>(a: seq<T>, b: seq<T>, key: T -> real, k: real)
    ensures WithKey(a + b, key, k) == WithKey(a, key, k) + WithKey(b, key, k)
    decreases |a|
  {
    if |a| == 0 {
      assert a + b == b;
    } else {
      var head: seq<T> := if key(a[0]) == k then [a[0]] else [];
      var ab := a + b;
      assert ab[0] == a[0] && ab[1..] == a[1..] + b;
      assert WithKey(ab, key, k) == head + WithKey(a[1..] + b, key, k);
      WithKeyAppend(a[1..], b, key, k);
      assert WithKey(a, key, k) == head + WithKey(a[1..], key, k);
    }
  }

  /** A sorted sequence whose first key exceeds `k` holds nothing with key `k`. */
  lemma {:induction false} WithKeyAbove<T>(s: seq<T>, key: T -> real, k: real)
    requires SortedBy(s, key) && (|s| > 0 ==> k < key(s[0]))
    ensures WithKey(s, key, k) == []
    decreases |s|
  {
    if |s| > 1 {
      WithKeyAbove(s[1..], key, k);
    }
  }

  /** Inserting `x` puts it behind every element that shares its key. */
  lemma {:induction false} WithKeyInsert<T>(x: T, s: seq<T>, key: T -> real, k: real)
    requires SortedBy(s, key)
    ensures WithKey(Insert(x, s, key), key, k) == WithKey(s, key, k) + (if key(x) == k then [x] else [])
    decreases |s|
  {
    if |s| == 0 {
      assert Insert(x, s, key) == [x];
    } else if key(x) < key(s[0]) {
      if key(x) == k {
        WithKeyAbove(s, key, k);
      }
      assert Insert(x, s, key) == [x] + s;
      WithKeyAppend([x], s, key, k);
    } else {
      var r := Insert(x, s[1..], key);
      assert SortedBy(s[1..], key);
      WithKeyInsert(x, s[1..], key, k);
      assert Insert(x, s, key) == [s[0]] + r;
      WithKeyAppend([s[0]], r, key, k);
      WithKeyAppend([s[0]], s[1..], key, k);
      assert s == [s[0]] + s[1..];
    }
  }

  /** The result of `sorted` is in key order. */
  lemma {:induction false} SortBySorted<T>(s: seq<T>, key: T -> real)
    ensures SortedBy(SortBy(s, key), key)
    decreases |s|
  {
    if |s| > 0 {
      SortBySorted(s[..|s| - 1], key);
      InsertSorted(s[|s| - 1], SortBy(s[..|s| - 1], key), key);
    }
  }

  /** The result of `sorted` has the same records, each as often as in the input. */
  lemma {:induction false} SortByPermutation<T>(s: seq<T>, key: T -> real)
    ensures multiset(SortBy(s, key)) == multiset(s)
    ensures |SortBy(s, key)| == |s|
    decreases |s|
  {
    if |s| > 0 {
      var init := s[..|s| - 1];
      SortByPermutation(init, key);
      InsertMultiset(s[|s| - 1], SortBy(init, key), key);
      assert s == init + [s[|s| - 1]];
    }
  }

  /** Stability: the records sharing any one key come out in their input order. */
  lemma {:induction false} SortByStable<T>(s: seq<T>, key: T -> real, k: real)
    ensures WithKey(SortBy(s, key), key, k) == WithKey(s, key, k)
    decreases |s|
  {
    if |s| > 0 {
      var init := s[..|s| - 1];
      var last := s[|s| - 1];
      SortByStable(init, key, k);
      SortBySorted(init, key);
      WithKeyInsert(last, SortBy(init, key), key, k);
      assert s == init + [last];
      WithKeyAppend(init, [last], key, k);
    }
  }

  /** `to_key('time')`, defined on records that carry a time. */
  function TimeKey(d: Record): real {
    if d.time.Some? then d.time.value else 0.0
  }

  /**
    `sort_jsonl_by` / `sort_jsonl_stream_by` with the default key: `None`
    stands for the `KeyError` of a record without `time`; otherwise the
    records in time order.
   */
  function SortJsonlByTime(records: seq<Record>): Option<seq<Record>> {
    if exists i :: 0 <= i < |records| && records[i].time.None? then None
    else Some(SortBy(records, TimeKey))
  }

  /**
    The sort fails exactly when some record has no time; otherwise its
    result is a time-ordered permutation of the input in which records
    with equal times keep their input order.
   */
  lemma SortJsonlByTimeSpec(records: seq<Record>)
    ensures var r := SortJsonlByTime(records);
      && (r.None? <==> exists i :: 0 <= i < |records| && records[i].time.None?)
      && (r.Some? ==>
            && (forall i :: 0 <= i < |r.value| ==> r.value[i].time.Some?)
            && SortedBy(r.value, TimeKey)
            && multiset(r.value) == multiset(records)
            && forall k :: WithKey(r.value, TimeKey, k) == WithKey(records, TimeKey, k))
  {
    if SortJsonlByTime(records).Some? {
      var r := SortBy(records, TimeKey);
      SortBySorted(records, TimeKey);
      SortByPermutation(records, TimeKey);
      forall k ensures WithKey(r, TimeKey, k) == WithKey(records, TimeKey, k) {
        SortByStable(records, TimeKey, k);
      }
      forall i | 0 <= i < |r| ensures r[i].time.Some? {
        assert r[i] in multiset(records);
      }
    }
  }
}
