/** Python's `sorted` / `list.sort` with a key: a stable sort, modelled as
    insertion sort.  The key order is a parameter (a total preorder on
    keys); `StrLe` is Python's `<=` on strings. */
module Sorting {

  // ---------------------------------------------------------------------------
  // String order
  // ---------------------------------------------------------------------------

  /** Python's `a <= b` on strings: lexicographic by code point, and a proper
      prefix comes first. */
  predicate StrLe(a: string, b: string)
    decreases |a|
  {
    |a| == 0 || (|b| > 0 && (a[0] < b[0] || (a[0] == b[0] && StrLe(a[1..], b[1..]))))
  }

  lemma {:induction false} StrLeTotal(a: string, b: string)
    ensures StrLe(a, b) || StrLe(b, a)
    decreases |a|
  {
    if |a| > 0 && |b| > 0 && a[0] == b[0] {
      StrLeTotal(a[1..], b[1..]);
    }
  }

  lemma {:induction false} StrLeTrans(a: string, b: string, c: string)
    requires StrLe(a, b) && StrLe(b, c)
    ensures StrLe(a, c)
    decreases |a|
  {
    if |a| > 0 && a[0] == b[0] && b[0] == c[0] {
      StrLeTrans(a[1..], b[1..], c[1..]);
    }
  }

  lemma {:induction false} StrLeAntisymmetric(a: string, b: string)
    requires StrLe(a, b) && StrLe(b, a)
    ensures a == b
    decreases |a|
  {
    if |a| > 0 {
      StrLeAntisymmetric(a[1..], b[1..]);
      assert a == [a[0]] + a[1..] && b == [b[0]] + b[1..];
    }
  }

  lemma StrLeIsTotalPreorder()
    ensures TotalPreorder(StrLe)
  {
    forall a, b
      ensures StrLe(a, b) || StrLe(b, a)
    {
      StrLeTotal(a, b);
    }
    forall a, b, c | StrLe(a, b) && StrLe(b, c)
      ensures StrLe(a, c)
    {
      StrLeTrans(a, b, c);
    }
  }

  // ---------------------------------------------------------------------------
  // Orders and sortedness
  // ---------------------------------------------------------------------------

  /** `le` compares any two keys and is transitive. */
  ghost predicate TotalPreorder<K(!new)>(le: (K, K) -> bool) {
    && (forall a, b :: le(a, b) || le(b, a))
    && (forall a, b, c :: le(a, b) && le(b, c) ==> le(a, c))
  }

  predicate SortedBy<T, K>(s: seq<T>, key: T -> K, le: (K, K) -> bool) {
    forall i, j :: 0 <= i < j < |s| ==> le(key(s[i]), key(s[j]))
  }

  /** The elements of `s` whose key is equivalent to `k`, in order. */
  function Class<T, K>(s: seq<T>, key: T -> K, le: (K, K) -> bool, k: K): (c: seq<T>)
    ensures |c| <= |s|
  {
    if |s| == 0 then []
    else
      var last := s[|s| - 1];
      Class(s[..|s| - 1], key, le, k) + (if le(key(last), k) && le(k, key(last)) then [last] else [])
  }

  // ---------------------------------------------------------------------------
  // Insertion sort
  // ---------------------------------------------------------------------------

  /** Inserts `x` after every element whose key is at most its own, counting
      from the end: behind its equals, which keeps the sort stable. */
  function Insert<T, K>(r: seq<T>, x: T, key: T -> K, le: (K, K) -> bool): (s: seq<T>)
    ensures |s| == |r| + 1
    decreases |r|
  {
    if |r| == 0 || le(key(r[|r| - 1]), key(x)) then r + [x]
    else Insert(r[..|r| - 1], x, key, le) + [r[|r| - 1]]
  }

  lemma {:induction false} InsertPermutes<T, K>(r: seq<T>, x: T, key: T -> K, le: (K, K) -> bool)
    ensures multiset(Insert(r, x, key, le)) == multiset(r) + multiset{x}
    decreases |r|
  {
    if !(|r| == 0 || le(key(r[|r| - 1]), key(x))) {
      var init := r[..|r| - 1];
      InsertPermutes(init, x, key, le);
      assert r == init + [r[|r| - 1]];
    }
  }

  /** `sorted(s, key=key)`, with `le` the order on keys. */
  function SortBy<T, K>(s: seq<T>, key: T -> K, le: (K, K) -> bool): (r: seq<T>)
    ensures |r| == |s|
    decreases |s|
  {
    if |s| == 0 then []
    else Insert(SortBy(s[..|s| - 1], key, le), s[|s| - 1], key, le)
  }

  /** The result of `SortBy` is a permutation of its input. */
  lemma {:induction false} SortByPermutes<T, K>(s: seq<T>, key: T -> K, le: (K, K) -> bool)
    ensures multiset(SortBy(s, key, le)) == multiset(s)
    decreases |s|
  {
    if |s| > 0 {
      var init := s[..|s| - 1];
      SortByPermutes(init, key, le);
      InsertPermutes(SortBy(init, key, le), s[|s| - 1], key, le);
      assert s == init + [s[|s| - 1]];
    }
  }

  lemma {:induction false} InsertSorted<T, K(!new)>(r: seq<T>, x: T, key: T -> K, le: (K, K) -> bool)
    requires TotalPreorder(le) && SortedBy(r, key, le)
    ensures SortedBy(Insert(r, x, key, le), key, le)
    decreases |r|
  {
    if |r| == 0 || le(key(r[|r| - 1]), key(x)) {
      var s := r + [x];
      forall i, j | 0 <= i < j < |s|
        ensures le(key(s[i]), key(s[j]))
      {
        if j == |r| && i < |r| - 1 {
          assert le(key(r[i]), key(r[|r| - 1]));
        }
      }
    } else {
      var init := r[..|r| - 1];
      var y := r[|r| - 1];
      var t := Insert(init, x, key, le);
      InsertSorted(init, x, key, le);
      InsertPermutes(init, x, key, le);
      assert le(key(x), key(y));
      forall e | e in multiset(t)
        ensures le(key(e), key(y))
      {
        if e != x {
          assert e in multiset(init);
          var i :| 0 <= i < |init| && init[i] == e;
          assert r[i] == e;
        }
      }
      var s := t + [y];
      forall i, j | 0 <= i < j < |s|
        ensures le(key(s[i]), key(s[j]))
      {
        if j == |t| {
          assert s[i] in multiset(t);
        }
      }
    }
  }

  /** The result of `SortBy` is ordered by key. */
  lemma {:induction false} SortBySorted<T, K(!new)>(s: seq<T>, key: T -> K, le: (K, K) -> bool)
    requires TotalPreorder(le)
    ensures SortedBy(SortBy(s, key, le), key, le)
    decreases |s|
  {
    if |s| > 0 {
      SortBySorted(s[..|s| - 1], key, le);
      InsertSorted(SortBy(s[..|s| - 1], key, le), s[|s| - 1], key, le);
    }
  }

  lemma ClassAppend<T, K>(s: seq<T>, x: T, key: T -> K, le: (K, K) -> bool, k: K)
    ensures Class(s + [x], key, le, k)
            == Class(s, key, le, k) + (if le(key(x), k) && le(k, key(x)) then [x] else [])
  {
    assert (s + [x])[..|s|] == s;
  }

  /** Inserting `x` adds it at the end of its own key class and leaves every
      other class alone. */
  lemma {:induction false} InsertClass<T, K(!new)>(r: seq<T>, x: T, key: T -> K, le: (K, K) -> bool, k: K)
    requires TotalPreorder(le)
    ensures Class(Insert(r, x, key, le), key, le, k)
            == Class(r, key, le, k) + (if le(key(x), k) && le(k, key(x)) then [x] else [])
    decreases |r|
  {
    if |r| == 0 || le(key(r[|r| - 1]), key(x)) {
      ClassAppend(r, x, key, le, k);
    } else {
      var init := r[..|r| - 1];
      var y := r[|r| - 1];
      var t := Insert(init, x, key, le);
      assert Insert(r, x, key, le) == t + [y];
      InsertClass(init, x, key, le, k);
      ClassAppend(t, y, key, le, k);
      ClassAppend(init, y, key, le, k);
      assert init + [y] == r;
      NotBothInClass(le, key(x), key(y), k);
    }
  }

  /** When `b` is not at most `a`, the two are never in one key class. */
  lemma NotBothInClass<K(!new)>(le: (K, K) -> bool, a: K, b: K, k: K)
    requires TotalPreorder(le) && !le(b, a)
    ensures !(le(a, k) && le(k, a) && le(b, k) && le(k, b))
  {
  }

  /** Stability: every key class keeps its order from the input. */
  lemma {:induction false} SortByStable<T, K(!new)>(s: seq<T>, key: T -> K, le: (K, K) -> bool, k: K)
    requires TotalPreorder(le)
    ensures Class(SortBy(s, key, le), key, le, k) == Class(s, key, le, k)
    decreases |s|
  {
    if |s| > 0 {
      var init := s[..|s| - 1];
      SortByStable(init, key, le, k);
      InsertClass(SortBy(init, key, le), s[|s| - 1], key, le, k);
    }
  }

  /** Sorting an already sorted list changes nothing. */
  lemma {:induction false} SortBySortedIsIdentity<T, K(!new)>(s: seq<T>, key: T -> K, le: (K, K) -> bool)
    requires SortedBy(s, key, le)
    ensures SortBy(s, key, le) == s
    decreases |s|
  {
    if |s| > 0 {
      var init := s[..|s| - 1];
      var last := s[|s| - 1];
      assert SortedBy(init, key, le) by {
        assert forall i :: 0 <= i < |init| ==> init[i] == s[i];
      }
      SortBySortedIsIdentity(init, key, le);
      if |init| > 0 {
        assert le(key(init[|init| - 1]), key(last)) by {
          assert init[|init| - 1] == s[|s| - 2];
        }
      }
      assert s == init + [last];
    }
  }

  /** Sorting twice is sorting once. */
  lemma SortByIdempotent<T, K(!new)>(s: seq<T>, key: T -> K, le: (K, K) -> bool)
    requires TotalPreorder(le)
    ensures SortBy(SortBy(s, key, le), key, le) == SortBy(s, key, le)
  {
    SortBySorted(s, key, le);
    SortBySortedIsIdentity(SortBy(s, key, le), key, le);
  }
}
