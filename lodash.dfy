/**
  The lodash helpers `tileSquareKeys` is written with (`_.range`, `_.sortBy`,
  `_.compact`), as pure functions on sequences, with what lodash promises of
  each proved about the definition.
 */
module Lodash {

  import opened Wrappers

  /** No element occurs twice. */
  predicate NoDuplicates<T(==)>(s: seq<T>) {
    forall i, j :: 0 <= i < j < |s| ==> s[i] != s[j]
  }

  lemma NoDuplicatesCons<T>(x: T, s: seq<T>)
    ensures NoDuplicates([x] + s) <==> x !in s && NoDuplicates(s)
  {
    var t := [x] + s;
    assert forall i :: 0 <= i < |s| ==> t[i + 1] == s[i];
    if x in s {
      var j :| 0 <= j < |s| && s[j] == x;
      assert t[0] == t[j + 1];
    }
  }

  lemma NoDuplicatesAppend<T>(a: seq<T>, b: seq<T>)
    requires NoDuplicates(a) && NoDuplicates(b)
    requires forall x :: x in a ==> x !in b
    ensures NoDuplicates(a + b)
  {
    var t := a + b;
    forall i, j | 0 <= i < j < |t| ensures t[i] != t[j] {
      if j < |a| {
        assert t[i] == a[i] && t[j] == a[j];
      } else if i >= |a| {
        assert t[i] == b[i - |a|] && t[j] == b[j - |a|];
      } else {
        assert t[i] == a[i] && t[j] == b[j - |a|];
        assert a[i] in a;
      }
    }
  }

  // ---------------------------------------------------------------- _.range

  /**
    `_.range(start, end)` with lodash's default step: +1 when `start < end`
    and -1 otherwise; `end` itself is excluded.
   */
  function Range(start: int, end: int): (r: seq<int>)
    ensures |r| == if start <= end then end - start else start - end
    ensures forall i :: 0 <= i < |r| ==> r[i] == if start <= end then start + i else start - i
    decreases if start <= end then end - start else start - end
  {
    if start == end then []
    else if start < end then [start] + Range(start + 1, end)
    else [start] + Range(start - 1, end)
  }

  /** The values of a range: the half-open interval from `start` towards `end`. */
  lemma RangeMembership(start: int, end: int, d: int)
    ensures d in Range(start, end) <==>
      if start <= end then start <= d < end else end < d <= start
    ensures NoDuplicates(Range(start, end))
  {
    var r := Range(start, end);
    if start <= end && start <= d < end {
      assert r[d - start] == d;
    } else if end < start && end < d <= start {
      assert r[start - d] == d;
    }
  }

  // --------------------------------------------------------------- _.sortBy

  /** The key of every element is at most the key of every later element. */
  ghost predicate SortedBy<T>(s: seq<T>, key: T -> int) {
    forall i, j :: 0 <= i < j < |s| ==> key(s[i]) <= key(s[j])
  }

  lemma SortedByCons<T>(x: T, s: seq<T>, key: T -> int)
    requires SortedBy(s, key)
    requires forall y :: y in s ==> key(x) <= key(y)
    ensures SortedBy([x] + s, key)
  {
    var t := [x] + s;
    forall i, j | 0 <= i < j < |t| ensures key(t[i]) <= key(t[j]) {
      assert t[j] == s[j - 1] && t[j] in s;
      if i > 0 {
        assert t[i] == s[i - 1];
      }
    }
  }

  /** The elements of `s` whose key is `k`, in their order in `s`. */
  function WithKey<T>(s: seq<T>, key: T -> int, k: int): seq<T> {
    if s == [] then []
    else (if key(s[0]) == k then [s[0]] else []) + WithKey(s[1..], key, k)
  }

  /** Inserts `x` in front of the first element whose key is not smaller than its own. */
  function InsertBy<T(==)>(x: T, s: seq<T>, key: T -> int): (r: seq<T>)
    ensures multiset(r) == multiset(s) + multiset{x}
  {
    if s == [] || key(x) <= key(s[0]) then [x] + s
    else
      assert s == [s[0]] + s[1..];
      [s[0]] + InsertBy(x, s[1..], key)
  }

  /**
    `_.sortBy(s, key)`: the elements of `s` in ascending order of `key`;
    elements with equal keys keep their relative order (the sort is stable).
   */
  function SortBy<T(==)>(s: seq<T>, key: T -> int): (r: seq<T>)
    ensures multiset(r) == multiset(s)
  {
    if s == [] then []
    else
      assert s == [s[0]] + s[1..];
      InsertBy(s[0], SortBy(s[1..], key), key)
  }

  lemma {:induction false} InsertBySorted<T>(x: T, s: seq<T>, key: T -> int)
    requires SortedBy(s, key)
    ensures SortedBy(InsertBy(x, s, key), key)
  {
    if s == [] || key(x) <= key(s[0]) {
    } else {
      var rest := InsertBy(x, s[1..], key);
      InsertBySorted(x, s[1..], key);
      forall y | y in rest ensures key(s[0]) <= key(y) {
        assert y in multiset(rest);
        if y != x {
          assert y in multiset(s[1..]);
          var j :| 0 <= j < |s[1..]| && s[1..][j] == y;
          assert s[j + 1] == y;
        }
      }
      SortedByCons(s[0], rest, key);
    }
  }

  lemma {:induction false} SortBySorted<T>(s: seq<T>, key: T -> int)
    ensures SortedBy(SortBy(s, key), key)
  {
    if s != [] {
      SortBySorted(s[1..], key);
      InsertBySorted(s[0], SortBy(s[1..], key), key);
    }
  }

  lemma {:induction false} InsertByWithKey<T>(x: T, s: seq<T>, key: T -> int, k: int)
    ensures WithKey(InsertBy(x, s, key), key, k)
         == (if key(x) == k then [x] else []) + WithKey(s, key, k)
  {
    if s == [] || key(x) <= key(s[0]) {
      assert ([x] + s)[1..] == s;
    } else {
      var rest := InsertBy(x, s[1..], key);
      InsertByWithKey(x, s[1..], key, k);
      assert ([s[0]] + rest)[1..] == rest;
    }
  }

  /**
    Stability of `SortBy`: for every key value, the elements carrying it come
    out in the order in which they went in.
   */
  lemma {:induction false} SortByStable<T>(s: seq<T>, key: T -> int, k: int)
    ensures WithKey(SortBy(s, key), key, k) == WithKey(s, key, k)
  {
    if s != [] {
      SortByStable(s[1..], key, k);
      InsertByWithKey(s[0], SortBy(s[1..], key), key, k);
    }
  }

  lemma WithKeyTail<T>(s: seq<T>, key: T -> int, k: int)
    requires s != []
    ensures WithKey(s[1..], key, k)
         == if key(s[0]) == k then WithKey(s, key, k)[1..] else WithKey(s, key, k)
  {
  }

  /** Two sorted permutations of each other start with the same key. */
  lemma SortedHeadKey<T>(s: seq<T>, t: seq<T>, key: T -> int)
    requires SortedBy(s, key) && SortedBy(t, key)
    requires multiset(s) == multiset(t) && s != []
    ensures t != [] && key(s[0]) == key(t[0])
  {
    assert |t| == |multiset(s)| > 0;
    assert t[0] in multiset(s) && s[0] in multiset(t);
    var i :| 0 <= i < |s| && s[i] == t[0];
    var j :| 0 <= j < |t| && t[j] == s[0];
    assert key(s[0]) <= key(s[i]) && key(t[0]) <= key(t[j]);
  }

  /**
    A sequence that is sorted by `key`, is a permutation of the input and keeps
    the input's order among equal keys is unique: every stable sort, lodash's
    included, returns `SortBy(s, key)`.
   */
  lemma {:induction false} StableSortUnique<T>(s: seq<T>, t: seq<T>, key: T -> int)
    requires SortedBy(s, key) && SortedBy(t, key)
    requires multiset(s) == multiset(t)
    requires forall k :: WithKey(s, key, k) == WithKey(t, key, k)
    ensures s == t
  {
    if s == [] {
      assert |t| == |multiset(t)| == 0;
    } else {
      SortedHeadKey(s, t, key);
      HeadsAndTails(s, t, key);
      assert multiset(s[1..]) == multiset(s) - multiset{s[0]} by {
        assert s == [s[0]] + s[1..];
      }
      assert multiset(t[1..]) == multiset(t) - multiset{t[0]} by {
        assert t == [t[0]] + t[1..];
      }
      StableSortUnique(s[1..], t[1..], key);
      assert s == [s[0]] + s[1..] && t == [t[0]] + t[1..];
    }
  }

  lemma HeadsAndTails<T>(s: seq<T>, t: seq<T>, key: T -> int)
    requires s != [] && t != [] && key(s[0]) == key(t[0])
    requires forall k :: WithKey(s, key, k) == WithKey(t, key, k)
    ensures s[0] == t[0]
    ensures forall k :: WithKey(s[1..], key, k) == WithKey(t[1..], key, k)
  {
    var k0 := key(s[0]);
    assert s[0] == WithKey(s, key, k0)[0] == WithKey(t, key, k0)[0] == t[0];
    forall k ensures WithKey(s[1..], key, k) == WithKey(t[1..], key, k) {
      WithKeyTail(s, key, k);
      WithKeyTail(t, key, k);
    }
  }

  lemma {:induction false} InsertByNoDuplicates<T>(x: T, s: seq<T>, key: T -> int)
    requires NoDuplicates(s) && x !in s
    ensures NoDuplicates(InsertBy(x, s, key))
  {
    if s == [] || key(x) <= key(s[0]) {
      NoDuplicatesCons(x, s);
    } else {
      var rest := InsertBy(x, s[1..], key);
      NoDuplicatesCons(s[0], s[1..]);
      InsertByNoDuplicates(x, s[1..], key);
      assert s[0] !in multiset(rest) by {
        assert s[0] !in multiset(s[1..]) && s[0] != x;
      }
      NoDuplicatesCons(s[0], rest);
    }
  }

  /** Sorting neither adds nor merges elements: distinct inputs stay distinct. */
  lemma {:induction false} SortByNoDuplicates<T>(s: seq<T>, key: T -> int)
    requires NoDuplicates(s)
    ensures NoDuplicates(SortBy(s, key))
  {
    if s != [] {
      NoDuplicatesCons(s[0], s[1..]);
      assert s == [s[0]] + s[1..];
      SortByNoDuplicates(s[1..], key);
      assert s[0] !in multiset(SortBy(s[1..], key));
      InsertByNoDuplicates(s[0], SortBy(s[1..], key), key);
    }
  }

  // -------------------------------------------------------------- _.compact

  /** `_.compact(s)` for a sequence whose only falsy entries are the `null`s (`None`). */
  function Compact<T>(s: seq<Option<T>>): (r: seq<T>)
    ensures |r| <= |s|
  {
    if s == [] then []
    else (if s[0].Some? then [s[0].value] else []) + Compact(s[1..])
  }

}
