/**
 * Python's `list.sort(key=...)`: a stable sort by an integer key.
 *
 * Stability is stated class by class: for every key value `k`, the elements
 * whose key is `k` appear in the result in exactly the order they had in the
 * input (`StablePermutation`). The sort itself is an insertion sort that
 * works on a local sequence by swapping neighbours; `SelectionSort` is an
 * independent reference definition, and `StableSortUnique` shows that a
 * sorted stable permutation is unique, so the two always agree.
 */
module StableSort {

  /** The elements of `s` whose key is `k`, in the order they have in `s`. */
  function WithKey<T>(s: seq<T>, key: T -> int, k: int): (r: seq<T>)
    ensures |r| <= |s|
  {
    if s == [] then []
    else (if key(s[0]) == k then [s[0]] else []) + WithKey(s[1..], key, k)
  }

  /** `s` is in non-decreasing order of `key`. */
  predicate SortedBy<T>(s: seq<T>, key: T -> int)
  {
    forall i, j :: 0 <= i < j < |s| ==> key(s[i]) <= key(s[j])
  }

  /** `t` rearranges `s` so that elements with equal keys keep their relative order. */
  ghost predicate StablePermutation<T>(s: seq<T>, t: seq<T>, key: T -> int)
  {
    forall k :: WithKey(t, key, k) == WithKey(s, key, k)
  }

  lemma {:induction false} WithKeyAppend<T>(a: seq<T>, b: seq<T>, key: T -> int, k: int)
    ensures WithKey(a + b, key, k) == WithKey(a, key, k) + WithKey(b, key, k)
  {
    if a == [] {
      assert a + b == b;
    } else {
      var head := if key(a[0]) == k then [a[0]] else [];
      assert (a + b)[0] == a[0];
      assert (a + b)[1..] == a[1..] + b;
      assert WithKey(a + b, key, k) == head + WithKey(a[1..] + b, key, k);
      WithKeyAppend(a[1..], b, key, k);
      assert WithKey(a, key, k) == head + WithKey(a[1..], key, k);
    }
  }

  lemma {:induction false} InWithKey<T>(s: seq<T>, key: T -> int, k: int, x: T)
    ensures x in WithKey(s, key, k) <==> x in s && key(x) == k
  {
    if s != [] {
      InWithKey(s[1..], key, k, x);
      assert s == [s[0]] + s[1..];
    }
  }

  /** An element occurs as often in `s` as in the subsequence of its own key. */
  lemma {:induction false} CountInWithKey<T>(s: seq<T>, key: T -> int, x: T)
    ensures multiset(WithKey(s, key, key(x)))[x] == multiset(s)[x]
  {
    if s != [] {
      CountInWithKey(s[1..], key, x);
      assert s == [s[0]] + s[1..];
    }
  }

  /** A stable permutation is a permutation. */
  lemma StableIsPermutation<T>(s: seq<T>, t: seq<T>, key: T -> int)
    requires StablePermutation(s, t, key)
    ensures multiset(t) == multiset(s)
    ensures |t| == |s|
  {
    forall x ensures multiset(t)[x] == multiset(s)[x] {
      CountInWithKey(s, key, x);
      CountInWithKey(t, key, x);
    }
    assert multiset(t) == multiset(s);
    assert |multiset(t)| == |t| && |multiset(s)| == |s|;
  }

  /** Exchanging two neighbours with different keys keeps every key class in order. */
  lemma SwapAdjacentStable<T>(s: seq<T>, j: int, key: T -> int)
    requires 0 < j < |s| && key(s[j - 1]) != key(s[j])
    ensures StablePermutation(s, s[j - 1 := s[j]][j := s[j - 1]], key)
  {
    var t := s[j - 1 := s[j]][j := s[j - 1]];
    var pre, a, b, post := s[..j - 1], s[j - 1], s[j], s[j + 1..];
    assert s == pre + [a, b] + post;
    assert t == pre + [b, a] + post;
    forall k ensures WithKey(t, key, k) == WithKey(s, key, k) {
      WithKeyAppend(pre + [a, b], post, key, k);
      WithKeyAppend(pre, [a, b], key, k);
      WithKeyAppend(pre + [b, a], post, key, k);
      WithKeyAppend(pre, [b, a], key, k);
      assert [a, b][1..] == [b] && [b, a][1..] == [a];
    }
  }

  /** Insertion sort by `key`, standing in for the library's stable sort. */
  method Sort<T>(s: seq<T>, key: T -> int) returns (t: seq<T>)
    ensures SortedBy(t, key)
    ensures StablePermutation(s, t, key)
    ensures t == SelectionSort(s, key)
  {
    t := s;
    var i := 0;
    while i < |t|
      invariant |t| == |s|
      invariant 0 <= i <= |t|
      invariant forall p, q :: 0 <= p < q < i ==> key(t[p]) <= key(t[q])
      invariant StablePermutation(s, t, key)
    {
      var j := i;
      while j > 0 && key(t[j - 1]) > key(t[j])
        invariant |t| == |s|
        invariant 0 <= j <= i
        invariant forall p, q :: 0 <= p < q <= i && p != j && q != j ==> key(t[p]) <= key(t[q])
        invariant forall q :: j < q <= i ==> key(t[j]) < key(t[q])
        invariant StablePermutation(s, t, key)
      {
        SwapAdjacentStable(t, j, key);
        t := t[j - 1 := t[j]][j := t[j - 1]];
        j := j - 1;
      }
      i := i + 1;
    }
    SelectionSortStable(s, key);
    SelectionSortSorted(s, key);
    StableSortUnique(t, SelectionSort(s, key), key);
  }

  /** The index of the first element with the least key. */
  function FirstMin<T>(s: seq<T>, key: T -> int): (m: nat)
    requires s != []
    ensures m < |s|
    ensures forall i :: 0 <= i < |s| ==> key(s[m]) <= key(s[i])
    ensures forall i :: 0 <= i < m ==> key(s[m]) < key(s[i])
  {
    if |s| == 1 then 0
    else
      var m := FirstMin(s[1..], key);
      if key(s[0]) <= key(s[1 + m]) then 0 else 1 + m
  }

  /** Reference stable sort: repeatedly take out the first element with the least key. */
  function SelectionSort<T>(s: seq<T>, key: T -> int): (t: seq<T>)
    ensures |t| == |s|
    decreases |s|
  {
    if s == [] then []
    else
      var m := FirstMin(s, key);
      [s[m]] + SelectionSort(s[..m] + s[m + 1..], key)
  }

  lemma WithKeyNone<T>(s: seq<T>, key: T -> int, k: int)
    requires forall i :: 0 <= i < |s| ==> key(s[i]) != k
    ensures WithKey(s, key, k) == []
  {
  }

  lemma {:induction false} SelectionSortStable<T>(s: seq<T>, key: T -> int)
    ensures StablePermutation(s, SelectionSort(s, key), key)
    decreases |s|
  {
    if s != [] {
      var m := FirstMin(s, key);
      var pre, x, post := s[..m], s[m], s[m + 1..];
      var rest := pre + post;
      SelectionSortStable(rest, key);
      assert s == pre + [x] + post;
      forall k ensures WithKey(SelectionSort(s, key), key, k) == WithKey(s, key, k) {
        WithKeyAppend(pre + [x], post, key, k);
        WithKeyAppend(pre, [x], key, k);
        WithKeyAppend(pre, post, key, k);
        WithKeyAppend([x], SelectionSort(rest, key), key, k);
        if k == key(x) {
          WithKeyNone(pre, key, k);
        }
      }
    }
  }

  lemma {:induction false} SelectionSortSorted<T>(s: seq<T>, key: T -> int)
    ensures SortedBy(SelectionSort(s, key), key)
    decreases |s|
  {
    if s != [] {
      var m := FirstMin(s, key);
      var rest := s[..m] + s[m + 1..];
      var r := SelectionSort(rest, key);
      SelectionSortSorted(rest, key);
      SelectionSortStable(rest, key);
      forall j | 0 <= j < |r| ensures key(s[m]) <= key(r[j]) {
        var y := r[j];
        InWithKey(r, key, key(y), y);
        InWithKey(rest, key, key(y), y);
        assert y in s;
      }
      assert SelectionSort(s, key) == [s[m]] + r;
    }
  }

  /** Two sorted stable permutations of one another are equal: the order is fully determined. */
  lemma {:induction false} StableSortUnique<T>(a: seq<T>, b: seq<T>, key: T -> int)
    requires SortedBy(a, key) && SortedBy(b, key)
    requires StablePermutation(a, b, key)
    ensures a == b
    decreases |a|
  {
    StableIsPermutation(a, b, key);
    if a != [] {
      var ka, kb := key(a[0]), key(b[0]);
      assert b[0] in WithKey(b, key, kb);
      assert WithKey(b, key, kb) == WithKey(a, key, kb);
      InWithKey(a, key, kb, b[0]);
      assert a[0] in WithKey(a, key, ka);
      assert WithKey(b, key, ka) == WithKey(a, key, ka);
      InWithKey(b, key, ka, a[0]);
      assert ka == kb;
      assert WithKey(a, key, ka)[0] == a[0];
      assert WithKey(b, key, ka)[0] == b[0];
      forall k ensures WithKey(b[1..], key, k) == WithKey(a[1..], key, k) {
        var head := if ka == k then [a[0]] else [];
        assert WithKey(a, key, k) == head + WithKey(a[1..], key, k);
        assert WithKey(b, key, k) == head + WithKey(b[1..], key, k);
        assert WithKey(b, key, k) == WithKey(a, key, k);
        assert WithKey(a[1..], key, k) == WithKey(a, key, k)[|head|..];
        assert WithKey(b[1..], key, k) == WithKey(b, key, k)[|head|..];
      }
      StableSortUnique(a[1..], b[1..], key);
      assert a == [a[0]] + a[1..] && b == [b[0]] + b[1..];
    }
  }

  /** No element occurs twice. */
  predicate Distinct<T(==)>(s: seq<T>)
  {
    forall i, j :: 0 <= i < j < |s| ==> s[i] != s[j]
  }

  lemma {:induction false} DistinctCount<T>(s: seq<T>, x: T)
    requires Distinct(s)
    ensures multiset(s)[x] <= 1
  {
    if s != [] {
      assert Distinct(s[1..]);
      DistinctCount(s[1..], x);
      assert forall k :: 0 <= k < |s| - 1 ==> s[1..][k] == s[k + 1];
      assert s[0] !in s[1..];
      assert s == [s[0]] + s[1..];
    }
  }

  /** A permutation of a sequence without repetitions has none either. */
  lemma DistinctPermutation<T>(s: seq<T>, t: seq<T>)
    requires multiset(t) == multiset(s)
    requires Distinct(s)
    ensures Distinct(t)
  {
    forall i, j | 0 <= i < j < |t| ensures t[i] != t[j] {
      DistinctCount(s, t[j]);
      assert t == t[..j] + [t[j]] + t[j + 1..];
      assert t[..j][i] == t[i];
      assert multiset(t)[t[j]] == multiset(t[..j])[t[j]] + 1 + multiset(t[j + 1..])[t[j]];
    }
  }
}
