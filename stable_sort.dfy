/** Python's `list.sort(key=..., reverse=True)` and `sorted(..., reverse=True)`:
    a stable sort into descending key order. Elements with equal keys keep
    the order they had in the input, which (for a list built from a dict)
    is insertion order. Modelled as an insertion sort on values. */
module StableSort {

  predicate SortedDesc<T>(s: seq<T>, key: T -> int) {
    forall i, j :: 0 <= i < j < |s| ==> key(s[i]) >= key(s[j])
  }

  /** Inserts `x` after every leading element whose key is at least `key(x)`. */
  function Insert<T>(x: T, t: seq<T>, key: T -> int): (r: seq<T>)
    ensures |r| == |t| + 1
    ensures multiset(r) == multiset(t) + multiset{x}
  {
    if t == [] then [x]
    else if key(t[0]) >= key(x) then
      assert t == [t[0]] + t[1..];
      [t[0]] + Insert(x, t[1..], key)
    else [x] + t
  }

  /** The stable descending sort: the last element is inserted behind every
      element of equal key that precedes it in the input. */
  function SortNewestFirst<T>(s: seq<T>, key: T -> int): (r: seq<T>)
    ensures |r| == |s|
    ensures multiset(r) == multiset(s)
  {
    if s == [] then []
    else
      var init := s[..|s| - 1];
      assert s == init + [s[|s| - 1]];
      Insert(s[|s| - 1], SortNewestFirst(init, key), key)
  }

  /** The elements of `s` whose key is `k`, in their order in `s`. */
  function WithKey<T>(s: seq<T>, key: T -> int, k: int): (r: seq<T>)
    ensures |r| <= |s|
  {
    if s == [] then []
    else (if key(s[0]) == k then [s[0]] else []) + WithKey(s[1..], key, k)
  }

  lemma {:induction false} WithKeyAppend<T>(a: seq<T>, b: seq<T>, key: T -> int, k: int)
    ensures WithKey(a + b, key, k) == WithKey(a, key, k) + WithKey(b, key, k)
  {
    if a == [] {
      assert a + b == b;
    } else {
      assert (a + b)[1..] == a[1..] + b;
      assert (a + b)[0] == a[0];
      WithKeyAppend(a[1..], b, key, k);
      var h := if key(a[0]) == k then [a[0]] else [];
      calc {
        WithKey(a + b, key, k);
        h + WithKey(a[1..] + b, key, k);
        h + (WithKey(a[1..], key, k) + WithKey(b, key, k));
        (h + WithKey(a[1..], key, k)) + WithKey(b, key, k);
      }
    }
  }

  lemma {:induction false} WithKeyNone<T>(s: seq<T>, key: T -> int, k: int)
    requires forall i :: 0 <= i < |s| ==> key(s[i]) != k
    ensures WithKey(s, key, k) == []
  {
    if s != [] {
      WithKeyNone(s[1..], key, k);
    }
  }

  lemma {:induction false} InsertSorted<T>(x: T, t: seq<T>, key: T -> int)
    requires SortedDesc(t, key)
    ensures SortedDesc(Insert(x, t, key), key)
  {
    var r := Insert(x, t, key);
    if t != [] && key(t[0]) >= key(x) {
      var t' := t[1..];
      InsertSorted(x, t', key);
      var r' := Insert(x, t', key);
      assert r == [t[0]] + r';
      forall j | 0 < j < |r| ensures key(r[0]) >= key(r[j]) {
        assert r[j] == r'[j - 1];
        assert r[j] in multiset(r');
        assert r[j] == x || r[j] in multiset(t');
      }
    }
  }

  lemma {:induction false} InsertKeepsOrder<T>(x: T, t: seq<T>, key: T -> int, k: int)
    requires SortedDesc(t, key)
    ensures WithKey(Insert(x, t, key), key, k) == WithKey(t, key, k) + (if key(x) == k then [x] else [])
  {
    if t == [] {
      WithKeySingle(x, key, k);
    } else if key(t[0]) >= key(x) {
      SortedTail(t, key);
      InsertKeepsOrder(x, t[1..], key, k);
      InsertBehindHead(x, t, key, k);
    } else {
      InsertInFront(x, t, key, k);
    }
  }

  lemma InsertBehindHead<T>(x: T, t: seq<T>, key: T -> int, k: int)
    requires t != [] && key(t[0]) >= key(x)
    requires WithKey(Insert(x, t[1..], key), key, k) == WithKey(t[1..], key, k) + (if key(x) == k then [x] else [])
    ensures WithKey(Insert(x, t, key), key, k) == WithKey(t, key, k) + (if key(x) == k then [x] else [])
  {
    var head := if key(t[0]) == k then [t[0]] else [];
    var tail := if key(x) == k then [x] else [];
    var rest := Insert(x, t[1..], key);
    var w := WithKey(t[1..], key, k);
    calc {
      WithKey(Insert(x, t, key), key, k);
      { InsertStep(x, t, key); }
      WithKey([t[0]] + rest, key, k);
      { WithKeyCons(t[0], rest, key, k); }
      head + WithKey(rest, key, k);
      head + (w + tail);
      { ConcatAssoc(head, w, tail); }
      (head + w) + tail;
      WithKey(t, key, k) + tail;
    }
  }

  lemma ConcatAssoc<T>(a: seq<T>, b: seq<T>, c: seq<T>)
    ensures a + (b + c) == (a + b) + c
  {
  }

  lemma InsertInFront<T>(x: T, t: seq<T>, key: T -> int, k: int)
    requires t != [] && SortedDesc(t, key) && key(t[0]) < key(x)
    ensures WithKey(Insert(x, t, key), key, k) == WithKey(t, key, k) + (if key(x) == k then [x] else [])
  {
    InsertStep(x, t, key);
    WithKeyCons(x, t, key, k);
    if key(x) == k {
      SortedBelowHead(t, key, k);
      WithKeyNone(t, key, k);
    }
  }

  lemma SortedTail<T>(t: seq<T>, key: T -> int)
    requires t != [] && SortedDesc(t, key)
    ensures SortedDesc(t[1..], key)
  {
    forall i, j | 0 <= i < j < |t[1..]| ensures key(t[1..][i]) >= key(t[1..][j]) {
      assert t[1..][i] == t[i + 1] && t[1..][j] == t[j + 1];
    }
  }

  lemma SortedBelowHead<T>(t: seq<T>, key: T -> int, k: int)
    requires t != [] && SortedDesc(t, key) && key(t[0]) < k
    ensures forall i :: 0 <= i < |t| ==> key(t[i]) != k
  {
    forall i | 0 < i < |t| ensures key(t[i]) != k {
      assert key(t[0]) >= key(t[i]);
    }
  }

  lemma InsertStep<T>(x: T, t: seq<T>, key: T -> int)
    requires t != []
    ensures Insert(x, t, key) == if key(t[0]) >= key(x) then [t[0]] + Insert(x, t[1..], key) else [x] + t
  {
  }

  lemma WithKeyCons<T>(a: T, r: seq<T>, key: T -> int, k: int)
    ensures WithKey([a] + r, key, k) == (if key(a) == k then [a] else []) + WithKey(r, key, k)
  {
    assert ([a] + r)[0] == a && ([a] + r)[1..] == r;
  }

  /** The sort yields descending keys, and it is stable: for every key, the
      elements of that key come out in the order they went in. */
  lemma {:induction false} SortIsStable<T>(s: seq<T>, key: T -> int)
    ensures SortedDesc(SortNewestFirst(s, key), key)
    ensures forall k :: WithKey(SortNewestFirst(s, key), key, k) == WithKey(s, key, k)
  {
    SortIsSorted(s, key);
    forall k ensures WithKey(SortNewestFirst(s, key), key, k) == WithKey(s, key, k) {
      SortKeepsKeyOrder(s, key, k);
    }
  }

  lemma {:induction false} SortIsSorted<T>(s: seq<T>, key: T -> int)
    ensures SortedDesc(SortNewestFirst(s, key), key)
  {
    if s != [] {
      var init := s[..|s| - 1];
      SortIsSorted(init, key);
      InsertSorted(s[|s| - 1], SortNewestFirst(init, key), key);
    }
  }

  lemma {:induction false} SortKeepsKeyOrder<T>(s: seq<T>, key: T -> int, k: int)
    ensures WithKey(SortNewestFirst(s, key), key, k) == WithKey(s, key, k)
  {
    if s != [] {
      var init := s[..|s| - 1];
      var last := s[|s| - 1];
      var sorted := SortNewestFirst(init, key);
      SortStep(s, key);
      SortIsSorted(init, key);
      SortKeepsKeyOrder(init, key, k);
      InsertKeepsOrder(last, sorted, key, k);
      WithKeySingle(last, key, k);
      WithKeyAppend(init, [last], key, k);
    }
  }

  lemma SortStep<T>(s: seq<T>, key: T -> int)
    requires s != []
    ensures s == s[..|s| - 1] + [s[|s| - 1]]
    ensures SortNewestFirst(s, key) == Insert(s[|s| - 1], SortNewestFirst(s[..|s| - 1], key), key)
  {
  }

  lemma WithKeySingle<T>(x: T, key: T -> int, k: int)
    ensures WithKey([x], key, k) == if key(x) == k then [x] else []
  {
    assert [x][1..] == [];
  }

  /** Two elements of equal key keep their order. */
  lemma SortEqualPair<T>(x: T, y: T, key: T -> int)
    requires key(x) == key(y)
    ensures SortNewestFirst([x, y], key) == [x, y]
  {
    assert [x, y][..1] == [x];
    assert [x][..0] == [];
    assert SortNewestFirst([x], key) == [x];
    assert Insert(y, [x], key) == [x] + Insert(y, [x][1..], key);
    assert [x][1..] == [];
  }

  /** The first element of `WithKey(s, key, k)` is the first element of `s`
      with key `k`. */
  lemma {:induction false} WithKeyHead<T>(s: seq<T>, key: T -> int, k: int)
    requires WithKey(s, key, k) != []
    ensures exists i :: (0 <= i < |s| && s[i] == WithKey(s, key, k)[0] && key(s[i]) == k &&
      forall j :: 0 <= j < i ==> key(s[j]) != k)
  {
    if key(s[0]) != k {
      WithKeyHead(s[1..], key, k);
      var i :| 0 <= i < |s[1..]| && s[1..][i] == WithKey(s[1..], key, k)[0] && key(s[1..][i]) == k &&
        forall j :: 0 <= j < i ==> key(s[1..][j]) != k;
      assert s[i + 1] == s[1..][i];
      assert forall j :: 0 < j < i + 1 ==> s[j] == s[1..][j - 1];
    } else {
      assert s[0] == WithKey(s, key, k)[0];
    }
  }

  /** What `sorted(..., reverse=True)[0]` picks: an element with the largest
      key, and among those the one that comes first in the input. */
  lemma FirstIsNewest<T>(s: seq<T>, key: T -> int)
    requires s != []
    ensures forall x :: x in s ==> key(SortNewestFirst(s, key)[0]) >= key(x)
    ensures exists i :: (0 <= i < |s| && s[i] == SortNewestFirst(s, key)[0] &&
      forall j :: 0 <= j < i ==> key(s[j]) < key(s[i]))
  {
    SortHeadIsMax(s, key);
    var i := SortHeadIsFirst(s, key);
  }

  lemma SortHeadIsMax<T>(s: seq<T>, key: T -> int)
    requires s != []
    ensures forall x :: x in s ==> key(SortNewestFirst(s, key)[0]) >= key(x)
  {
    var r := SortNewestFirst(s, key);
    SortIsSorted(s, key);
    forall x | x in s ensures key(r[0]) >= key(x) {
      assert x in multiset(r);
      var j :| 0 <= j < |r| && r[j] == x;
    }
  }

  lemma SortHeadIsFirst<T>(s: seq<T>, key: T -> int) returns (i: nat)
    requires s != []
    ensures i < |s| && s[i] == SortNewestFirst(s, key)[0]
    ensures forall j :: 0 <= j < i ==> key(s[j]) < key(s[i])
  {
    var r := SortNewestFirst(s, key);
    var k := key(r[0]);
    SortHeadIsMax(s, key);
    SortKeepsKeyOrder(s, key, k);
    assert WithKey(r, key, k)[0] == r[0];
    WithKeyHead(s, key, k);
    i :| 0 <= i < |s| && s[i] == WithKey(s, key, k)[0] && key(s[i]) == k &&
      forall j :: 0 <= j < i ==> key(s[j]) != k;
    forall j | 0 <= j < i ensures key(s[j]) < key(s[i]) {
      assert s[j] in s;
    }
  }

  /** `f` takes different values on different positions of `s`. */
  predicate DistinctBy<T, U(==)>(s: seq<T>, f: T -> U) {
    forall i, j :: 0 <= i < j < |s| ==> f(s[i]) != f(s[j])
  }

  lemma {:induction false} InsertDistinct<T, U>(x: T, t: seq<T>, key: T -> int, f: T -> U)
    requires DistinctBy(t, f)
    requires forall i :: 0 <= i < |t| ==> f(t[i]) != f(x)
    ensures DistinctBy(Insert(x, t, key), f)
  {
    if t != [] && key(t[0]) >= key(x) {
      var r' := Insert(x, t[1..], key);
      InsertDistinct(x, t[1..], key, f);
      forall j | 0 <= j < |r'| ensures f(r'[j]) != f(t[0]) {
        assert r'[j] in multiset(r');
        assert r'[j] == x || r'[j] in multiset(t[1..]);
        if r'[j] != x {
          var m :| 0 <= m < |t[1..]| && t[1..][m] == r'[j];
          assert t[m + 1] == r'[j];
        }
      }
      assert Insert(x, t, key) == [t[0]] + r';
    } else if t != [] {
      assert Insert(x, t, key) == [x] + t;
    }
  }

  /** Sorting keeps a list free of repeated `f`-values (hashes, say). */
  lemma {:induction false} SortDistinct<T, U>(s: seq<T>, key: T -> int, f: T -> U)
    requires DistinctBy(s, f)
    ensures DistinctBy(SortNewestFirst(s, key), f)
  {
    if s != [] {
      var init := s[..|s| - 1];
      var t := SortNewestFirst(init, key);
      SortDistinct(init, key, f);
      forall i | 0 <= i < |t| ensures f(t[i]) != f(s[|s| - 1]) {
        assert t[i] in multiset(init);
        var m :| 0 <= m < |init| && init[m] == t[i];
        assert s[m] == t[i];
      }
      InsertDistinct(s[|s| - 1], t, key, f);
    }
  }

  /** The set of `f`-values of the elements of `s`. */
  ghost function Image<T, U>(s: seq<T>, f: T -> U): set<U> {
    set i | 0 <= i < |s| :: f(s[i])
  }

  lemma {:induction false} ImageCard<T, U>(s: seq<T>, f: T -> U)
    ensures |Image(s, f)| <= |s|
    ensures DistinctBy(s, f) ==> |Image(s, f)| == |s|
  {
    if s != [] {
      var init := s[..|s| - 1];
      ImageCard(init, f);
      assert Image(s, f) == Image(init, f) + {f(s[|s| - 1])} by {
        forall i | 0 <= i < |init| ensures init[i] == s[i] { }
      }
      if DistinctBy(s, f) {
        assert DistinctBy(init, f);
        assert f(s[|s| - 1]) !in Image(init, f);
      }
    }
  }

  lemma SubsetCard<U>(a: set<U>, b: set<U>)
    requires a <= b
    ensures |a| <= |b|
  {
    assert b == a + (b - a);
  }
}
