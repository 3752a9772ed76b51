/**
  `albums.sort((a, b) => b.created - a.created)`: a stable sort, newest first. The
  engine's sort is stable, so the result is pinned down by three facts: it is ordered by
  non-increasing key, and for every key value the elements carrying it appear in input order.
 */
module Sorting {

  /** Non-increasing by `key`: newest first. */
  ghost predicate NewestFirst<T>(s: seq<T>, key: T -> int)
  {
    forall i, j :: 0 <= i < j < |s| ==> key(s[i]) >= key(s[j])
  }

  /** The elements whose key is `k`, in order. */
  function WithKey<T>(s: seq<T>, key: T -> int, k: int): (r: seq<T>)
    ensures |r| <= |s|
  {
    if s == [] then []
    else (if key(s[0]) == k then [s[0]] else []) + WithKey(s[1..], key, k)
  }

  /** What a stable sort by non-increasing key promises about `r` as a reordering of `s`. */
  ghost predicate StablySortedFrom<T>(r: seq<T>, s: seq<T>, key: T -> int)
  {
    NewestFirst(r, key) && forall k :: WithKey(r, key, k) == WithKey(s, key, k)
  }

  /** Places `x` after every element whose key is at least `x`'s. */
  function Insert<T>(x: T, s: seq<T>, key: T -> int): (r: seq<T>)
    ensures |r| == |s| + 1
    ensures multiset(r) == multiset(s) + multiset{x}
    ensures forall y :: y in r ==> y == x || y in s
  {
    if s == [] || key(s[0]) < key(x) then [x] + s
    else
      assert s == [s[0]] + s[1..];
      [s[0]] + Insert(x, s[1..], key)
  }

  /** The comparator sort, as an insertion sort that takes the input from left to right. */
  function SortNewestFirst<T>(s: seq<T>, key: T -> int): (r: seq<T>)
    ensures |r| == |s|
    ensures multiset(r) == multiset(s)
  {
    if s == [] then []
    else
      assert s == s[..|s| - 1] + [s[|s| - 1]];
      Insert(s[|s| - 1], SortNewestFirst(s[..|s| - 1], key), key)
  }

  lemma {:induction false} WithKeyAppend<T>(s: seq<T>, x: T, key: T -> int, k: int)
    ensures WithKey(s + [x], key, k) == WithKey(s, key, k) + (if key(x) == k then [x] else [])
  {
    if s == [] {
      assert [x][1..] == [];
    } else {
      assert (s + [x])[1..] == s[1..] + [x];
      WithKeyAppend(s[1..], x, key, k);
    }
  }

  lemma {:induction false} WithKeyNone<T>(s: seq<T>, key: T -> int, k: int)
    requires forall i :: 0 <= i < |s| ==> key(s[i]) < k
    ensures WithKey(s, key, k) == []
  {
    if s != [] {
      WithKeyNone(s[1..], key, k);
    }
  }

  lemma {:induction false} InsertNewestFirst<T>(x: T, s: seq<T>, key: T -> int)
    requires NewestFirst(s, key)
    ensures NewestFirst(Insert(x, s, key), key)
  {
    var r := Insert(x, s, key);
    if s != [] && key(s[0]) >= key(x) {
      InsertNewestFirst(x, s[1..], key);
      var t := Insert(x, s[1..], key);
      assert r == [s[0]] + t;
      forall i, j | 0 <= i < j < |r| ensures key(r[i]) >= key(r[j]) {
        if i == 0 {
          assert r[j] in t;
        }
      }
    }
  }

  /** An element placed in front of smaller keys comes after every element of its own key. */
  lemma InsertFrontWithKey<T>(x: T, s: seq<T>, key: T -> int, k: int)
    requires NewestFirst(s, key)
    requires s == [] || key(s[0]) < key(x)
    ensures WithKey([x] + s, key, k) == WithKey(s, key, k) + (if key(x) == k then [x] else [])
  {
    WithKeyHead([x] + s, key, k);
    assert ([x] + s)[1..] == s;
    if key(x) == k {
      if s != [] {
        NoneAboveHead(s, key, k);
      }
      assert WithKey(s, key, k) == [];
    }
  }

  /** Concatenation regrouped, for the step of `InsertWithKey`. */
  lemma Regroup<T>(h: seq<T>, w: seq<T>, e: seq<T>)
    ensures h + (w + e) == (h + w) + e
  {
  }

  lemma {:induction false} InsertWithKey<T>(x: T, s: seq<T>, key: T -> int, k: int)
    requires NewestFirst(s, key)
    ensures WithKey(Insert(x, s, key), key, k) == WithKey(s, key, k) + (if key(x) == k then [x] else [])
  {
    if s == [] || key(s[0]) < key(x) {
      assert Insert(x, s, key) == [x] + s;
      InsertFrontWithKey(x, s, key, k);
    } else {
      var r := Insert(x, s, key);
      var t := Insert(x, s[1..], key);
      assert r == [s[0]] + t;
      assert r[1..] == t;
      NewestFirstTail(s, key);
      InsertWithKey(x, s[1..], key, k);
      WithKeyHead(r, key, k);
      WithKeyHead(s, key, k);
      Regroup(if key(s[0]) == k then [s[0]] else [], WithKey(s[1..], key, k), if key(x) == k then [x] else []);
    }
  }

  lemma {:induction false} SortIsStable<T>(s: seq<T>, key: T -> int)
    ensures StablySortedFrom(SortNewestFirst(s, key), s, key)
  {
    if s != [] {
      var init := s[..|s| - 1];
      var x := s[|s| - 1];
      SortIsStable(init, key);
      InsertNewestFirst(x, SortNewestFirst(init, key), key);
      assert s == init + [x];
      forall k ensures WithKey(SortNewestFirst(s, key), key, k) == WithKey(s, key, k) {
        InsertWithKey(x, SortNewestFirst(init, key), key, k);
        WithKeyAppend(init, x, key, k);
      }
    }
  }

  lemma {:induction false} WithKeyHead<T>(s: seq<T>, key: T -> int, k: int)
    requires s != []
    ensures WithKey(s, key, k) == (if key(s[0]) == k then [s[0]] else []) + WithKey(s[1..], key, k)
  {
  }

  lemma NewestFirstTail<T>(s: seq<T>, key: T -> int)
    requires s != [] && NewestFirst(s, key)
    ensures NewestFirst(s[1..], key)
  {
    forall i, j | 0 <= i < j < |s| - 1 ensures key(s[1..][i]) >= key(s[1..][j]) {
      assert s[1..][i] == s[i + 1] && s[1..][j] == s[j + 1];
    }
  }

  /** In a newest-first sequence no key exceeds the first one. */
  lemma NoneAboveHead<T>(s: seq<T>, key: T -> int, k: int)
    requires s != [] && NewestFirst(s, key) && key(s[0]) < k
    ensures WithKey(s, key, k) == []
  {
    forall i | 0 <= i < |s| ensures key(s[i]) < k {
      if i > 0 {
        assert key(s[0]) >= key(s[i]);
      }
    }
    WithKeyNone(s, key, k);
  }

  /** Two such orderings start with the same element: the first of the largest key. */
  lemma HeadsAgree<T>(a: seq<T>, b: seq<T>, key: T -> int)
    requires a != []
    requires NewestFirst(a, key) && NewestFirst(b, key)
    requires forall k :: WithKey(a, key, k) == WithKey(b, key, k)
    ensures b != [] && b[0] == a[0]
  {
    var m := key(a[0]);
    WithKeyHead(a, key, m);
    var wa := WithKey(a, key, m);
    assert wa == [a[0]] + WithKey(a[1..], key, m);
    assert WithKey(b, key, m) == wa;
    if b == [] {
      assert false;
    }
    var n := key(b[0]);
    if n < m {
      NoneAboveHead(b, key, m);
      assert false;
    }
    if n > m {
      NoneAboveHead(a, key, n);
      WithKeyHead(b, key, n);
      assert false;
    }
    WithKeyHead(b, key, m);
    assert WithKey(b, key, m)[0] == b[0];
  }

  /** Removing a common first element keeps every key's elements in step. */
  lemma TailsAgree<T>(a: seq<T>, b: seq<T>, key: T -> int)
    requires a != [] && b != [] && a[0] == b[0]
    requires forall k :: WithKey(a, key, k) == WithKey(b, key, k)
    ensures forall k :: WithKey(a[1..], key, k) == WithKey(b[1..], key, k)
  {
    forall k ensures WithKey(a[1..], key, k) == WithKey(b[1..], key, k) {
      WithKeyHead(a, key, k);
      WithKeyHead(b, key, k);
      var h := if key(a[0]) == k then [a[0]] else [];
      assert h + WithKey(a[1..], key, k) == h + WithKey(b[1..], key, k);
      assert WithKey(a[1..], key, k) == (h + WithKey(a[1..], key, k))[|h|..];
      assert WithKey(b[1..], key, k) == (h + WithKey(b[1..], key, k))[|h|..];
    }
  }

  /**
    The promise characterises the result: any two orderings of the same input that are
    both newest first and keep each key's elements in input order are equal.
   */
  lemma {:induction false} StableSortUnique<T>(a: seq<T>, b: seq<T>, key: T -> int)
    requires NewestFirst(a, key) && NewestFirst(b, key)
    requires forall k :: WithKey(a, key, k) == WithKey(b, key, k)
    ensures a == b
  {
    if a == [] {
      if b != [] {
        HeadsAgree(b, a, key);
        assert false;
      }
    } else {
      HeadsAgree(a, b, key);
      TailsAgree(a, b, key);
      StableSortUnique(a[1..], b[1..], key);
      assert a == [a[0]] + a[1..];
      assert b == [b[0]] + b[1..];
    }
  }

  /** So the sort is exactly the stable newest-first order, both ways round. */
  lemma SortNewestFirstCharacterised<T>(s: seq<T>, r: seq<T>, key: T -> int)
    ensures StablySortedFrom(r, s, key) <==> r == SortNewestFirst(s, key)
  {
    SortIsStable(s, key);
    if StablySortedFrom(r, s, key) {
      StableSortUnique(r, SortNewestFirst(s, key), key);
    }
  }
}
