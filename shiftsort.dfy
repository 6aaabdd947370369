/** `array.sort((a, b) => key(a) - key(b))`. JavaScript's sort is stable: the
    array is reordered in place into ascending key order, and elements with
    equal keys keep their relative order. The timeline sorts its shifts this
    way, by start time. */
module StableSort {

  predicate SortedBy<T>(s: seq<T>, key: T -> real) {
    forall i, j :: 0 <= i < j < |s| ==> key(s[i]) <= key(s[j])
  }

  /** Places `x` after every element of `s` whose key is not above its own:
      the step of a stable insertion sort. */
  function Insert<T>(s: seq<T>, x: T, key: T -> real): seq<T> {
    if s == [] || key(s[|s| - 1]) <= key(x) then s + [x]
    else Insert(s[..|s| - 1], x, key) + [s[|s| - 1]]
  }

  /** The order a stable sort by `key` produces. */
  function SortBy<T>(s: seq<T>, key: T -> real): seq<T> {
    if s == [] then [] else Insert(SortBy(s[..|s| - 1], key), s[|s| - 1], key)
  }

  /** The elements of `s` whose key is `k`, in their order in `s`. */
  function WithKey<T>(s: seq<T>, key: T -> real, k: real): seq<T> {
    if s == [] then []
    else WithKey(s[..|s| - 1], key, k) + (if key(s[|s| - 1]) == k then [s[|s| - 1]] else [])
  }

  // ----- the sort permutes -----

  lemma {:induction false} InsertPermutes<T>(s: seq<T>, x: T, key: T -> real)
    ensures multiset(Insert(s, x, key)) == multiset(s) + multiset{x}
  {
    if s == [] || key(s[|s| - 1]) <= key(x) {
    } else {
      InsertPermutes(s[..|s| - 1], x, key);
      assert s == s[..|s| - 1] + [s[|s| - 1]];
    }
  }

  /** The sorted sequence is a permutation of the input. */
  lemma {:induction false} SortPermutes<T>(s: seq<T>, key: T -> real)
    ensures multiset(SortBy(s, key)) == multiset(s)
  {
    if s != [] {
      SortPermutes(s[..|s| - 1], key);
      InsertPermutes(SortBy(s[..|s| - 1], key), s[|s| - 1], key);
      assert s == s[..|s| - 1] + [s[|s| - 1]];
    }
  }

  // ----- the sort orders by key -----

  lemma {:induction false} InsertSorted<T>(s: seq<T>, x: T, key: T -> real)
    requires SortedBy(s, key)
    ensures SortedBy(Insert(s, x, key), key)
  {
    if s == [] || key(s[|s| - 1]) <= key(x) {
    } else {
      var init, last := s[..|s| - 1], s[|s| - 1];
      InsertSorted(init, x, key);
      InsertPermutes(init, x, key);
      var r := Insert(init, x, key);
      forall i | 0 <= i < |r|
        ensures key(r[i]) <= key(last)
      {
        assert r[i] in multiset(r);
        if r[i] != x {
          assert r[i] in multiset(init);
          var k :| 0 <= k < |init| && init[k] == r[i];
          assert s[k] == r[i];
        }
      }
      assert Insert(s, x, key) == r + [last];
    }
  }

  /** The sorted sequence is in ascending key order. */
  lemma {:induction false} SortSorted<T>(s: seq<T>, key: T -> real)
    ensures SortedBy(SortBy(s, key), key)
  {
    if s != [] {
      SortSorted(s[..|s| - 1], key);
      InsertSorted(SortBy(s[..|s| - 1], key), s[|s| - 1], key);
    }
  }

  // ----- the sort is stable -----

  lemma {:induction false} WithKeyAppend<T>(a: seq<T>, b: seq<T>, key: T -> real, k: real)
    ensures WithKey(a + b, key, k) == WithKey(a, key, k) + WithKey(b, key, k)
  {
    if b != [] {
      assert (a + b)[..|a + b| - 1] == a + b[..|b| - 1];
      WithKeyAppend(a, b[..|b| - 1], key, k);
    } else {
      assert a + b == a;
    }
  }

  lemma WithKeySingle<T>(x: T, key: T -> real, k: real)
    ensures WithKey([x], key, k) == if key(x) == k then [x] else []
  {
    assert [x][..0] == [];
  }

  lemma {:induction false} InsertStable<T>(s: seq<T>, x: T, key: T -> real, k: real)
    ensures WithKey(Insert(s, x, key), key, k) == WithKey(s, key, k) + WithKey([x], key, k)
  {
    if s == [] || key(s[|s| - 1]) <= key(x) {
      WithKeyAppend(s, [x], key, k);
    } else {
      var init, last := s[..|s| - 1], s[|s| - 1];
      var wx, wl := WithKey([x], key, k), WithKey([last], key, k);
      WithKeySingle(x, key, k);
      WithKeySingle(last, key, k);
      // `last` and `x` have different keys, so one of them is filtered out
      assert wx == [] || wl == [];
      calc {
        WithKey(Insert(s, x, key), key, k);
        WithKey(Insert(init, x, key) + [last], key, k);
        { WithKeyAppend(Insert(init, x, key), [last], key, k); }
        WithKey(Insert(init, x, key), key, k) + wl;
        { InsertStable(init, x, key, k); }
        WithKey(init, key, k) + wx + wl;
        WithKey(init, key, k) + wl + wx;
        { WithKeyAppend(init, [last], key, k); assert init + [last] == s; }
        WithKey(s, key, k) + wx;
      }
    }
  }

  /** Stability: the elements sharing any one key keep their order. */
  lemma {:induction false} SortStable<T>(s: seq<T>, key: T -> real, k: real)
    ensures WithKey(SortBy(s, key), key, k) == WithKey(s, key, k)
  {
    if s != [] {
      var init, last := s[..|s| - 1], s[|s| - 1];
      SortStable(init, key, k);
      InsertStable(SortBy(init, key), last, key, k);
      WithKeySingle(last, key, k);
    }
  }

  // ----- ordered and stable determine the result -----

  lemma {:induction false} WithKeyHasAll<T>(s: seq<T>, key: T -> real, i: nat)
    requires i < |s|
    ensures s[i] in WithKey(s, key, key(s[i]))
  {
    var init, last := s[..|s| - 1], s[|s| - 1];
    if i < |s| - 1 {
      WithKeyHasAll(init, key, i);
    }
  }

  lemma {:induction false} WithKeyElements<T>(s: seq<T>, key: T -> real, k: real, y: T)
    requires y in WithKey(s, key, k)
    ensures y in s && key(y) == k
  {
    if s != [] {
      var init, last := s[..|s| - 1], s[|s| - 1];
      if y in WithKey(init, key, k) {
        WithKeyElements(init, key, k, y);
        assert init == s[..|s| - 1];
      }
    }
  }

  /** A sequence in key order whose elements with each key are, in order,
      those of `s` is the result of sorting `s`: the stable sort is the
      only one. */
  lemma {:induction false} SortUnique<T>(r: seq<T>, s: seq<T>, key: T -> real)
    requires SortedBy(r, key)
    requires forall k :: WithKey(r, key, k) == WithKey(s, key, k)
    ensures r == SortBy(s, key)
  {
    var t := SortBy(s, key);
    SortSorted(s, key);
    forall k ensures WithKey(t, key, k) == WithKey(r, key, k) {
      SortStable(s, key, k);
    }
    SortedSameGroupsEqual(r, t, key);
  }

  /** Two key-ordered sequences with the same elements per key end with the
      same element. */
  lemma SameGroupsSameLast<T>(r: seq<T>, t: seq<T>, key: T -> real)
    requires r != [] && t != []
    requires SortedBy(r, key) && SortedBy(t, key)
    requires WithKey(r, key, key(r[|r| - 1])) == WithKey(t, key, key(r[|r| - 1]))
    requires WithKey(r, key, key(t[|t| - 1])) == WithKey(t, key, key(t[|t| - 1]))
    ensures r[|r| - 1] == t[|t| - 1]
  {
    var a, b := r[|r| - 1], t[|t| - 1];
    WithKeyHasAll(r, key, |r| - 1);
    WithKeyElements(t, key, key(a), a);
    WithKeyHasAll(t, key, |t| - 1);
    WithKeyElements(r, key, key(b), b);
    // each last element occurs in the other sequence, so neither key is
    // above the other
    SortedLastIsMax(t, key, a);
    SortedLastIsMax(r, key, b);
    var m := key(a);
    assert WithKey(r, key, m) == WithKey(r[..|r| - 1], key, m) + [a];
    assert WithKey(t, key, m) == WithKey(t[..|t| - 1], key, m) + [b];
  }

  /** No element of a key-ordered sequence has a key above its last one. */
  lemma SortedLastIsMax<T>(s: seq<T>, key: T -> real, y: T)
    requires SortedBy(s, key) && y in s
    ensures key(y) <= key(s[|s| - 1])
  {
    var i :| 0 <= i < |s| && s[i] == y;
    if i < |s| - 1 {
      assert key(s[i]) <= key(s[|s| - 1]);
    }
  }

  lemma WithKeyDropLast<T>(s: seq<T>, key: T -> real, k: real)
    requires s != []
    ensures WithKey(s[..|s| - 1], key, k) ==
      if key(s[|s| - 1]) == k then WithKey(s, key, k)[..|WithKey(s, key, k)| - 1] else WithKey(s, key, k)
  {
  }

  lemma {:induction false} SortedSameGroupsEqual<T>(r: seq<T>, t: seq<T>, key: T -> real)
    requires SortedBy(r, key) && SortedBy(t, key)
    requires forall k :: WithKey(r, key, k) == WithKey(t, key, k)
    ensures r == t
  {
    if r == [] || t == [] {
      if r != [] {
        WithKeyHasAll(r, key, 0);
        assert false;
      } else if t != [] {
        WithKeyHasAll(t, key, 0);
        assert false;
      }
    } else {
      var r', t' := r[..|r| - 1], t[..|t| - 1];
      SameGroupsSameLast(r, t, key);
      forall k ensures WithKey(r', key, k) == WithKey(t', key, k) {
        WithKeyDropLast(r, key, k);
        WithKeyDropLast(t, key, k);
      }
      SortedSameGroupsEqual(r', t', key);
      assert r == r' + [r[|r| - 1]];
      assert t == t' + [t[|t| - 1]];
    }
  }

  // ----- the in-place sort -----

  lemma InsertStops<T>(s: seq<T>, j: nat, x: T, key: T -> real)
    requires j <= |s|
    requires j == 0 || key(s[j - 1]) <= key(x)
    ensures Insert(s[..j], x, key) == s[..j] + [x]
  {
  }

  lemma InsertMovesPast<T>(s: seq<T>, j: nat, x: T, key: T -> real)
    requires 0 < j <= |s|
    requires key(s[j - 1]) > key(x)
    ensures Insert(s[..j], x, key) + s[j..] == Insert(s[..j - 1], x, key) + s[j - 1..]
  {
    assert s[..j][..j - 1] == s[..j - 1];
    assert s[j - 1..] == [s[j - 1]] + s[j..];
  }

  lemma Placed<T>(b: seq<T>, sorted: seq<T>, i: nat, j: nat, x: T)
    requires j <= i == |sorted| < |b|
    requires forall k :: 0 <= k < j ==> b[k] == sorted[k]
    requires b[j] == x
    requires forall k :: j < k <= i ==> b[k] == sorted[k - 1]
    ensures b[..i + 1] == sorted[..j] + [x] + sorted[j..]
  {
  }

  /** Moves `a[i]` left past the elements before it with a larger key. */
  method InsertInPlace<T>(a: array<T>, i: nat, key: T -> real)
    requires i < a.Length
    modifies a
    ensures a[..i + 1] == Insert(old(a[..i]), old(a[i]), key)
    ensures a[i + 1..] == old(a[i + 1..])
  {
    hide Insert;
    ghost var sorted := a[..i];
    var x := a[i];
    var j := i;
    assert sorted[..j] == sorted && sorted[j..] == [];
    while j > 0 && key(a[j - 1]) > key(x)
      invariant 0 <= j <= i
      invariant forall k :: 0 <= k < j ==> a[k] == sorted[k]
      invariant forall k :: j < k <= i ==> a[k] == sorted[k - 1]
      invariant a[i + 1..] == old(a[i + 1..])
      invariant Insert(sorted, x, key) == Insert(sorted[..j], x, key) + sorted[j..]
    {
      InsertMovesPast(sorted, j, x, key);
      a[j] := a[j - 1];
      j := j - 1;
    }
    InsertStops(sorted, j, x, key);
    a[j] := x;
    Placed(a[..], sorted, i, j, x);
  }

  /** Stable insertion sort of the array, in place. */
  method SortInPlace<T>(a: array<T>, key: T -> real)
    modifies a
    ensures a[..] == SortBy(old(a[..]), key)
  {
    ghost var input := a[..];
    var i := 0;
    while i < a.Length
      invariant 0 <= i <= a.Length
      invariant a[..i] == SortBy(input[..i], key)
      invariant a[i..] == input[i..]
    {
      InsertInPlace(a, i, key);
      assert input[..i + 1][..i] == input[..i];
      i := i + 1;
    }
    assert input[..a.Length] == input;
  }
}
