/** Array.prototype.sort with a numeric comparator `(a, b) => key(a) - key(b)`,
    applied to a copy. The ECMAScript sort is stable, so its result is fully
    determined: elements ascend by key and elements with equal keys keep their
    input order. The model computes that result by insertion sort. */
module Sorting {
  import opened Util

  predicate SortedBy<T>(s: seq<T>, key: T -> int)
  {
    forall i, j :: 0 <= i < j < |s| ==> key(s[i]) <= key(s[j])
  }

  /** The elements of `s` whose key is `k`, in their order in `s`. */
  function WithKey<T>(s: seq<T>, key: T -> int, k: int): seq<T>
  {
    if s == [] then [] else (if key(s[0]) == k then [s[0]] else []) + WithKey(s[1..], key, k)
  }

  /** What a stable sort of `s` by `key` must return: sorted, a permutation,
      and for every key the equal-key elements in their input order. */
  ghost predicate IsStableSortOf<T>(r: seq<T>, s: seq<T>, key: T -> int)
  {
    && SortedBy(r, key)
    && multiset(r) == multiset(s)
    && forall k :: WithKey(r, key, k) == WithKey(s, key, k)
  }

  /** Puts `x` in front of the first element whose key is not smaller. */
  function Insert<T>(x: T, s: seq<T>, key: T -> int): seq<T>
  {
    if s == [] || key(x) <= key(s[0]) then [x] + s else [s[0]] + Insert(x, s[1..], key)
  }

  /** Every element of `Insert(x, s, key)` is `x` or an element of `s`. */
  lemma {:induction false} InsertElements<T>(x: T, s: seq<T>, key: T -> int)
    ensures |Insert(x, s, key)| == |s| + 1
    ensures multiset(Insert(x, s, key)) == multiset(s) + multiset{x}
    ensures forall i :: 0 <= i < |Insert(x, s, key)| ==> Insert(x, s, key)[i] == x || Insert(x, s, key)[i] in s
  {
    if !(s == [] || key(x) <= key(s[0])) {
      InsertElements(x, s[1..], key);
      assert s == [s[0]] + s[1..];
      var t := Insert(x, s[1..], key);
      forall i | 0 <= i < |Insert(x, s, key)|
        ensures Insert(x, s, key)[i] == x || Insert(x, s, key)[i] in s
      {
        if i > 0 {
          assert Insert(x, s, key)[i] == t[i - 1];
        }
      }
    }
  }

  lemma {:induction false} InsertSorted<T>(x: T, s: seq<T>, key: T -> int)
    requires SortedBy(s, key)
    ensures SortedBy(Insert(x, s, key), key)
  {
    var r := Insert(x, s, key);
    if s == [] || key(x) <= key(s[0]) {
      assert r == [x] + s;
    } else {
      var t := Insert(x, s[1..], key);
      InsertSorted(x, s[1..], key);
      InsertElements(x, s[1..], key);
      forall j | 0 <= j < |t| ensures key(s[0]) <= key(t[j]) {
        if t[j] != x {
          var k :| 0 <= k < |s[1..]| && s[1..][k] == t[j];
          assert s[k + 1] == t[j];
        }
      }
      SortedCons(s[0], t, key);
    }
  }

  /** A head no larger than any element of a sorted tail keeps it sorted. */
  lemma SortedCons<T>(h: T, t: seq<T>, key: T -> int)
    requires SortedBy(t, key)
    requires forall j :: 0 <= j < |t| ==> key(h) <= key(t[j])
    ensures SortedBy([h] + t, key)
  {
    var r := [h] + t;
    forall i, j | 0 <= i < j < |r| ensures key(r[i]) <= key(r[j]) {
      assert r[j] == t[j - 1];
      if i > 0 {
        assert r[i] == t[i - 1];
      }
    }
  }

  /** `WithKey` of a non-empty sequence, one step unfolded. */
  lemma WithKeyCons<T>(s: seq<T>, key: T -> int, k: int)
    requires s != []
    ensures WithKey(s, key, k) == (if key(s[0]) == k then [s[0]] else []) + WithKey(s[1..], key, k)
  {
  }

  lemma {:induction false} InsertWithKey<T>(x: T, s: seq<T>, key: T -> int, k: int)
    requires SortedBy(s, key)
    ensures WithKey(Insert(x, s, key), key, k) == (if key(x) == k then [x] else []) + WithKey(s, key, k)
  {
    var r := Insert(x, s, key);
    if s == [] || key(x) <= key(s[0]) {
      assert r == [x] + s;
      assert r[1..] == s;
      WithKeyCons(r, key, k);
    } else {
      var t := Insert(x, s[1..], key);
      assert r == [s[0]] + t;
      assert r[1..] == t;
      InsertWithKey(x, s[1..], key, k);
      WithKeyCons(r, key, k);
      WithKeyCons(s, key, k);
    }
  }

  lemma InsertInto<T>(x: T, s: seq<T>, key: T -> int)
    requires SortedBy(s, key)
    ensures SortedBy(Insert(x, s, key), key)
    ensures |Insert(x, s, key)| == |s| + 1
    ensures multiset(Insert(x, s, key)) == multiset(s) + multiset{x}
    ensures forall k :: WithKey(Insert(x, s, key), key, k) == (if key(x) == k then [x] else []) + WithKey(s, key, k)
  {
    InsertSorted(x, s, key);
    InsertElements(x, s, key);
    forall k ensures WithKey(Insert(x, s, key), key, k) == (if key(x) == k then [x] else []) + WithKey(s, key, k) {
      InsertWithKey(x, s, key, k);
    }
  }

  /** Inserting the head of `s` into a stable sort of its tail gives a stable sort of `s`. */
  lemma InsertStep<T>(s: seq<T>, t: seq<T>, key: T -> int)
    requires s != [] && IsStableSortOf(t, s[1..], key)
    ensures IsStableSortOf(Insert(s[0], t, key), s, key)
    ensures |Insert(s[0], t, key)| == |t| + 1
  {
    InsertInto(s[0], t, key);
    assert s == [s[0]] + s[1..];
    assert multiset(s) == multiset(s[1..]) + multiset{s[0]};
    forall k ensures WithKey(Insert(s[0], t, key), key, k) == WithKey(s, key, k) {
      WithKeyCons(s, key, k);
    }
  }

  /** The stable sort of `s`, ascending by `key`. */
  function SortBy<T>(s: seq<T>, key: T -> int): (r: seq<T>)
    ensures |r| == |s|
    ensures IsStableSortOf(r, s, key)
  {
    if s == [] then []
    else
      var t := SortBy(s[1..], key);
      InsertStep(s, t, key);
      Insert(s[0], t, key)
  }

  /** Sorting a sequence that is already sorted changes nothing. */
  lemma {:induction false} SortBySorted<T>(s: seq<T>, key: T -> int)
    requires SortedBy(s, key)
    ensures SortBy(s, key) == s
  {
    if s != [] {
      SortBySorted(s[1..], key);
      assert SortBy(s[1..], key) == s[1..];
      assert s[1..] == [] || key(s[0]) <= key(s[1..][0]);
    }
  }

  /** Two sorted permutations of each other start with the same key. */
  lemma SameFirstKey<T>(r1: seq<T>, r2: seq<T>, key: T -> int)
    requires SortedBy(r1, key) && SortedBy(r2, key) && multiset(r1) == multiset(r2) && r1 != []
    ensures r2 != [] && key(r1[0]) == key(r2[0])
  {
    assert r1[0] in multiset(r2);
    assert r2[0] in multiset(r1);
    ghost var i :| 0 <= i < |r2| && r2[i] == r1[0];
    ghost var j :| 0 <= j < |r1| && r1[j] == r2[0];
  }

  /** Two stable sorts of one sequence start with the same element. */
  lemma StableSortFirst<T>(r1: seq<T>, r2: seq<T>, s: seq<T>, key: T -> int)
    requires IsStableSortOf(r1, s, key) && IsStableSortOf(r2, s, key) && r1 != []
    ensures r2 != [] && r1[0] == r2[0]
  {
    SameFirstKey(r1, r2, key);
    var k1 := key(r1[0]);
    assert WithKey(r1, key, k1) == WithKey(s, key, k1) == WithKey(r2, key, k1);
    WithKeyCons(r1, key, k1);
    WithKeyCons(r2, key, k1);
    assert WithKey(r1, key, k1)[0] == r1[0];
    assert WithKey(r2, key, k1)[0] == r2[0];
  }

  /** Two stable sorts of one sequence start with the same element, and what
      follows it is again a stable sort of one sequence. */
  lemma StableSortHead<T>(r1: seq<T>, r2: seq<T>, s: seq<T>, key: T -> int)
    requires IsStableSortOf(r1, s, key) && IsStableSortOf(r2, s, key) && r1 != []
    ensures r2 != [] && r1[0] == r2[0]
    ensures IsStableSortOf(r2[1..], r1[1..], key) && IsStableSortOf(r1[1..], r1[1..], key)
  {
    StableSortFirst(r1, r2, s, key);
    forall k ensures WithKey(r2[1..], key, k) == WithKey(r1[1..], key, k) {
      SameHeadWithKey(r1, r2, s, key, k);
    }
    TailSorted(r1, key);
    TailSorted(r2, key);
    TailMultiset(r1);
    TailMultiset(r2);
  }

  lemma SameHeadWithKey<T>(r1: seq<T>, r2: seq<T>, s: seq<T>, key: T -> int, k: int)
    requires r1 != [] && r2 != [] && r1[0] == r2[0]
    requires WithKey(r1, key, k) == WithKey(s, key, k) == WithKey(r2, key, k)
    ensures WithKey(r2[1..], key, k) == WithKey(r1[1..], key, k)
  {
    WithKeyCons(r1, key, k);
    WithKeyCons(r2, key, k);
    PrefixCancel(if key(r1[0]) == k then [r1[0]] else [], WithKey(r1[1..], key, k), WithKey(r2[1..], key, k));
  }

  lemma TailMultiset<T>(s: seq<T>)
    requires s != []
    ensures multiset(s[1..]) == multiset(s) - multiset{s[0]}
  {
    assert s == [s[0]] + s[1..];
  }

  lemma TailSorted<T>(s: seq<T>, key: T -> int)
    requires SortedBy(s, key) && s != []
    ensures SortedBy(s[1..], key)
  {
    forall a, b | 0 <= a < b < |s[1..]| ensures key(s[1..][a]) <= key(s[1..][b]) {
      assert s[1..][a] == s[a + 1] && s[1..][b] == s[b + 1];
    }
  }

  /** The stable sort is unique: two results that are both sorted and keep
      the same equal-key order are equal. So `SortBy` is exactly what every
      stable sort, and hence Array.prototype.sort, returns. */
  lemma {:induction false} StableSortUnique<T>(r1: seq<T>, r2: seq<T>, s: seq<T>, key: T -> int)
    requires IsStableSortOf(r1, s, key) && IsStableSortOf(r2, s, key)
    ensures r1 == r2
    decreases |r1|
  {
    if r1 != [] {
      StableSortHead(r1, r2, s, key);
      StableSortUnique(r1[1..], r2[1..], r1[1..], key);
      assert r1 == [r1[0]] + r1[1..] && r2 == [r2[0]] + r2[1..];
    } else {
      assert |multiset(r2)| == 0;
    }
  }

  /** Filtering a sorted sequence leaves it sorted. */
  lemma {:induction false} FilterSorted<T>(s: seq<T>, p: T -> bool, key: T -> int)
    requires SortedBy(s, key)
    ensures SortedBy(Filter(s, p), key)
  {
    if s != [] {
      TailSorted(s, key);
      FilterSorted(s[1..], p, key);
      var t := Filter(s[1..], p);
      if p(s[0]) {
        forall j | 0 <= j < |t| ensures key(s[0]) <= key(t[j]) {
          HeadBelow(s, key, t[j]);
        }
        SortedCons(s[0], t, key);
      }
    }
  }

  /** The head of a sorted sequence has a key no larger than any element's. */
  lemma HeadBelow<T>(s: seq<T>, key: T -> int, x: T)
    requires SortedBy(s, key) && s != [] && x in s
    ensures key(s[0]) <= key(x)
  {
    var m :| 0 <= m < |s| && s[m] == x;
  }
}
