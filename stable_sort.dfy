/**
 * Stable sorting by a key, as `Vec::sort_by_key` does it: the result is
 * ordered by key and elements with equal keys keep their relative order.
 */
module StableSort {

  predicate SortedBy<T>(s: seq<T>, key: T -> int) {
    forall i, j :: 0 <= i < j < |s| ==> key(s[i]) <= key(s[j])
  }

  /** The elements of `s` whose key is `k`, in their order in `s`. */
  function WithKey<T>(s: seq<T>, key: T -> int, k: int): seq<T> {
    if s == [] then []
    else WithKey(s[..|s| - 1], key, k) + (if key(s[|s| - 1]) == k then [s[|s| - 1]] else [])
  }

  /** `x` placed after every element whose key is not greater than its own, scanning from the end. */
  function Insert<T>(s: seq<T>, x: T, key: T -> int): (r: seq<T>)
    ensures |r| == |s| + 1
  {
    if s == [] || key(s[|s| - 1]) <= key(x) then s + [x]
    else Insert(s[..|s| - 1], x, key) + [s[|s| - 1]]
  }

  /** Insertion sort: the reference definition of a stable sort by key. */
  function SortByKey<T>(s: seq<T>, key: T -> int): (r: seq<T>)
    ensures |r| == |s|
  {
    if s == [] then [] else Insert(SortByKey(s[..|s| - 1], key), s[|s| - 1], key)
  }

  lemma {:induction false} WithKeyAppend<T>(a: seq<T>, b: seq<T>, key: T -> int, k: int)
    ensures WithKey(a + b, key, k) == WithKey(a, key, k) + WithKey(b, key, k)
    decreases |b|
  {
    if b == [] {
      assert a + b == a;
    } else {
      var b' := b[..|b| - 1];
      assert (a + b)[..|a + b| - 1] == a + b';
      WithKeyAppend(a, b', key, k);
    }
  }

  lemma {:induction false} InsertMultiset<T>(s: seq<T>, x: T, key: T -> int)
    ensures multiset(Insert(s, x, key)) == multiset(s) + multiset{x}
    decreases |s|
  {
    if s != [] && key(s[|s| - 1]) > key(x) {
      InsertMultiset(s[..|s| - 1], x, key);
      assert s == s[..|s| - 1] + [s[|s| - 1]];
    }
  }

  lemma {:induction false} InsertSorted<T>(s: seq<T>, x: T, key: T -> int)
    requires SortedBy(s, key)
    ensures SortedBy(Insert(s, x, key), key)
    decreases |s|
  {
    if s != [] && key(s[|s| - 1]) > key(x) {
      var init, last := s[..|s| - 1], s[|s| - 1];
      InsertSorted(init, x, key);
      InsertBounded(init, x, key, key(last));
      AppendSorted(Insert(init, x, key), last, key);
    }
  }

  /** Inserting keeps every key under a bound that `x` and all of `s` respect. */
  lemma {:induction false} InsertBounded<T>(s: seq<T>, x: T, key: T -> int, b: int)
    requires forall k :: 0 <= k < |s| ==> key(s[k]) <= b
    requires key(x) <= b
    ensures forall k :: 0 <= k < |Insert(s, x, key)| ==> key(Insert(s, x, key)[k]) <= b
    decreases |s|
  {
    if s != [] && key(s[|s| - 1]) > key(x) {
      InsertBounded(s[..|s| - 1], x, key, b);
    }
  }

  lemma AppendSorted<T>(s: seq<T>, x: T, key: T -> int)
    requires SortedBy(s, key)
    requires forall k :: 0 <= k < |s| ==> key(s[k]) <= key(x)
    ensures SortedBy(s + [x], key)
  {
  }

  lemma {:induction false} InsertWithKey<T>(s: seq<T>, x: T, key: T -> int, k: int)
    ensures WithKey(Insert(s, x, key), key, k) == WithKey(s, key, k) + (if key(x) == k then [x] else [])
    decreases |s|
  {
    if s == [] || key(s[|s| - 1]) <= key(x) {
      assert (s + [x])[..|s|] == s;
    } else {
      var init, last := s[..|s| - 1], s[|s| - 1];
      var r := Insert(init, x, key);
      InsertWithKey(init, x, key, k);
      assert (r + [last])[..|r|] == r;
    }
  }

  /** The sort keeps every element, duplicates included. */
  lemma {:induction false} SortByKeyPermutes<T>(s: seq<T>, key: T -> int)
    ensures multiset(SortByKey(s, key)) == multiset(s)
    decreases |s|
  {
    if s != [] {
      SortByKeyPermutes(s[..|s| - 1], key);
      InsertMultiset(SortByKey(s[..|s| - 1], key), s[|s| - 1], key);
      assert s == s[..|s| - 1] + [s[|s| - 1]];
    }
  }

  /** The result is ordered by key. */
  lemma {:induction false} SortByKeySorted<T>(s: seq<T>, key: T -> int)
    ensures SortedBy(SortByKey(s, key), key)
    decreases |s|
  {
    if s != [] {
      SortByKeySorted(s[..|s| - 1], key);
      InsertSorted(SortByKey(s[..|s| - 1], key), s[|s| - 1], key);
    }
  }

  /** Stability: elements with equal keys come out in the order they went in. */
  lemma {:induction false} SortByKeyStable<T>(s: seq<T>, key: T -> int, k: int)
    ensures WithKey(SortByKey(s, key), key, k) == WithKey(s, key, k)
    decreases |s|
  {
    if s != [] {
      SortByKeyStable(s[..|s| - 1], key, k);
      InsertWithKey(SortByKey(s[..|s| - 1], key), s[|s| - 1], key, k);
    }
  }

  lemma {:induction false} WithKeyMembers<T>(s: seq<T>, key: T -> int, k: int)
    ensures forall e :: e in WithKey(s, key, k) ==> e in s && key(e) == k
    decreases |s|
  {
    if s != [] {
      WithKeyMembers(s[..|s| - 1], key, k);
    }
  }

  lemma LastIsMax<T>(t: seq<T>, key: T -> int, e: T)
    requires SortedBy(t, key) && e in t
    ensures key(e) <= key(t[|t| - 1])
  {
    var i :| 0 <= i < |t| && t[i] == e;
    if i < |t| - 1 {
      assert key(t[i]) <= key(t[|t| - 1]);
    }
  }

  /** The last element of `s` ends the subsequence of its key. */
  lemma LastWithKey<T>(s: seq<T>, key: T -> int)
    requires s != []
    ensures var w := WithKey(s, key, key(s[|s| - 1])); w != [] && w[|w| - 1] == s[|s| - 1]
  {
  }

  /** The last key of `r` occurs in `t`, so it is at most the last key of a sorted `t`. */
  lemma LastKeyAtMost<T>(r: seq<T>, t: seq<T>, key: T -> int)
    requires r != [] && SortedBy(t, key)
    requires forall k :: WithKey(r, key, k) == WithKey(t, key, k)
    ensures t != [] && key(r[|r| - 1]) <= key(t[|t| - 1])
  {
    var ka := key(r[|r| - 1]);
    LastWithKey(r, key);
    var w := WithKey(t, key, ka);
    assert w == WithKey(r, key, ka);
    WithKeyMembers(t, key, ka);
    var e := w[|w| - 1];
    assert e in w;
    LastIsMax(t, key, e);
  }

  /** Two sorted sequences with the same per-key elements end with the same element. */
  lemma SameLast<T>(r: seq<T>, t: seq<T>, key: T -> int)
    requires r != []
    requires SortedBy(r, key) && SortedBy(t, key)
    requires forall k :: WithKey(r, key, k) == WithKey(t, key, k)
    ensures t != [] && r[|r| - 1] == t[|t| - 1]
  {
    LastKeyAtMost(r, t, key);
    LastKeyAtMost(t, r, key);
    var k := key(r[|r| - 1]);
    LastWithKey(r, key);
    LastWithKey(t, key);
    assert WithKey(r, key, k) == WithKey(t, key, k);
  }

  /** Dropping the same last element keeps the per-key elements equal. */
  lemma DropLast<T>(r: seq<T>, t: seq<T>, key: T -> int, k: int)
    requires r != [] && t != [] && r[|r| - 1] == t[|t| - 1]
    requires WithKey(r, key, k) == WithKey(t, key, k)
    ensures WithKey(r[..|r| - 1], key, k) == WithKey(t[..|t| - 1], key, k)
  {
    var a := r[|r| - 1];
    var x, y := WithKey(r[..|r| - 1], key, k), WithKey(t[..|t| - 1], key, k);
    if key(a) == k {
      assert x + [a] == y + [a];
      assert (x + [a])[..|x|] == x;
      assert (y + [a])[..|y|] == y;
    } else {
      assert x + [] == x && y + [] == y;
    }
  }

  /**
   * A sorted sequence is determined by its per-key subsequences: two sorted
   * sequences that agree on every key's elements, in order, are equal. So
   * every stable sort of `s` returns `SortByKey(s, key)`, whatever algorithm
   * it uses.
   */
  lemma {:induction false} SortedUnique<T>(r: seq<T>, t: seq<T>, key: T -> int)
    requires SortedBy(r, key) && SortedBy(t, key)
    requires forall k :: WithKey(r, key, k) == WithKey(t, key, k)
    ensures r == t
    decreases |r|
  {
    if r == [] {
      if t != [] {
        assert WithKey(t, key, key(t[|t| - 1])) != [];
      }
    } else {
      SameLast(r, t, key);
      var r', t' := r[..|r| - 1], t[..|t| - 1];
      forall k ensures WithKey(r', key, k) == WithKey(t', key, k) {
        DropLast(r, t, key, k);
      }
      SortedUnique(r', t', key);
      assert r == r' + [r[|r| - 1]] && t == t' + [t[|t| - 1]];
    }
  }

  /** Hence `SortByKey` is the one stable sort of `s`. */
  lemma StableSortIsSortByKey<T>(s: seq<T>, r: seq<T>, key: T -> int)
    requires SortedBy(r, key)
    requires forall k :: WithKey(r, key, k) == WithKey(s, key, k)
    ensures r == SortByKey(s, key)
  {
    SortByKeySorted(s, key);
    forall k ensures WithKey(r, key, k) == WithKey(SortByKey(s, key), key, k) {
      SortByKeyStable(s, key, k);
    }
    SortedUnique(r, SortByKey(s, key), key);
  }

  /** Where `x` lands: after the prefix whose keys do not exceed its own. */
  lemma {:induction false} InsertAt<T>(s: seq<T>, x: T, key: T -> int, j: nat)
    requires j <= |s|
    requires forall k :: j <= k < |s| ==> key(s[k]) > key(x)
    requires j == 0 || key(s[j - 1]) <= key(x)
    ensures Insert(s, x, key) == s[..j] + [x] + s[j..]
    decreases |s|
  {
    if j == |s| {
      assert s[..j] == s && s[j..] == [];
    } else {
      var init := s[..|s| - 1];
      InsertAt(init, x, key, j);
      assert init[..j] == s[..j];
      assert init[j..] + [s[|s| - 1]] == s[j..];
    }
  }

  /** A sequence holding `s` with `x` at the place `Insert` picks is `Insert(s, x, key)`. */
  lemma InsertPlaced<T>(t: seq<T>, s: seq<T>, x: T, key: T -> int, j: nat)
    requires j <= |s| && |t| == |s| + 1
    requires forall k :: 0 <= k < j ==> t[k] == s[k]
    requires t[j] == x
    requires forall k :: j < k <= |s| ==> t[k] == s[k - 1]
    requires forall k :: j <= k < |s| ==> key(s[k]) > key(x)
    requires j == 0 || key(s[j - 1]) <= key(x)
    ensures t == Insert(s, x, key)
  {
    InsertAt(s, x, key, j);
    var r := s[..j] + [x] + s[j..];
    forall k | 0 <= k < |t| ensures t[k] == r[k] {
      if k > j {
        assert r[k] == s[j..][k - j - 1];
      }
    }
  }

  /** One pass of insertion sort: `a[i]` moves left past every element with a larger key. */
  method InsertLast<T>(a: array<T>, i: nat, key: T -> int)
    requires i < a.Length
    modifies a
    ensures a[..i + 1] == Insert(old(a[..i]), old(a[i]), key)
    ensures a[i + 1..] == old(a[i + 1..])
  {
    ghost var sorted := a[..i];
    var x := a[i];
    var j := i;
    while j > 0 && key(a[j - 1]) > key(x)
      invariant 0 <= j <= i
      invariant forall k :: 0 <= k < j ==> a[k] == sorted[k]
      invariant forall k :: j < k <= i ==> a[k] == sorted[k - 1]
      invariant forall k :: j <= k < i ==> key(sorted[k]) > key(x)
      invariant forall k :: i < k < a.Length ==> a[k] == old(a[k])
    {
      a[j] := a[j - 1];
      j := j - 1;
    }
    a[j] := x;
    InsertPlaced(a[..i + 1], sorted, x, key, j);
    assert a[i + 1..] == old(a[i + 1..]);
  }

  /** `sort_by_key` on the vector in place, as an insertion sort. */
  method SortInPlace<T>(a: array<T>, key: T -> int)
    modifies a
    ensures a[..] == SortByKey(old(a[..]), key)
  {
    ghost var input := a[..];
    var i := 0;
    while i < a.Length
      invariant 0 <= i <= a.Length
      invariant a[..i] == SortByKey(input[..i], key)
      invariant a[i..] == input[i..]
    {
      assert a[i] == input[i];
      InsertLast(a, i, key);
      assert input[..i + 1][..i] == input[..i];
      assert a[i + 1..] == input[i + 1..];
      i := i + 1;
    }
    assert input[..i] == input;
    assert a[..i] == a[..];
  }
}
