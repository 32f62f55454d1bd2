/** Ordering of rows. Python's `list.sort(key=...)` and the database's
    `order_by(...)` both produce a stable sort: rows with equal keys keep the
    order in which they arrived (for the database: the order of the table,
    which is what this model assumes where the database leaves ties open).
    `SortBy` is that sort, as insertion of each row after every row whose key
    is not greater. */
module Ordering {
  import opened Collections

  /** `le` is reflexive, total and transitive on keys. */
  ghost predicate TotalOrder<K(!new)>(le: (K, K) -> bool) {
    && (forall a :: le(a, a))
    && (forall a, b :: le(a, b) || le(b, a))
    && (forall a, b, c :: le(a, b) && le(b, c) ==> le(a, c))
  }

  ghost predicate SortedBy<T, K>(s: seq<T>, key: T -> K, le: (K, K) -> bool) {
    forall i, j :: 0 <= i < j < |s| ==> le(key(s[i]), key(s[j]))
  }

  /** The rows of `s` whose key is `v`, in order. */
  function KeyClass<T, K(==)>(s: seq<T>, key: T -> K, v: K): seq<T> {
    if s == [] then [] else (if key(s[0]) == v then [s[0]] else []) + KeyClass(s[1..], key, v)
  }

  /** Puts `x` after the leading rows whose key is at most x's. */
  function Insert<T, K>(t: seq<T>, x: T, key: T -> K, le: (K, K) -> bool): (r: seq<T>)
    ensures multiset(r) == multiset(t) + multiset{x}
    ensures |r| == |t| + 1
  {
    if t == [] then [x]
    else if le(key(t[0]), key(x)) then
      assert t == [t[0]] + t[1..];
      [t[0]] + Insert(t[1..], x, key, le)
    else [x] + t
  }

  /** Stable sort of `s` by `key` under `le`. */
  function SortBy<T, K>(s: seq<T>, key: T -> K, le: (K, K) -> bool): (r: seq<T>)
    ensures multiset(r) == multiset(s)
    ensures |r| == |s|
  {
    if s == [] then []
    else
      assert s == s[..|s| - 1] + [s[|s| - 1]];
      Insert(SortBy(s[..|s| - 1], key, le), s[|s| - 1], key, le)
  }

  /** Sorting neither adds nor invents elements. */
  lemma SortByMembers<T, K>(s: seq<T>, key: T -> K, le: (K, K) -> bool)
    ensures forall x :: x in SortBy(s, key, le) ==> x in s
  {
    forall x | x in SortBy(s, key, le) ensures x in s {
      assert x in multiset(SortBy(s, key, le));
    }
  }

  function IntLe(a: int, b: int): bool { a <= b }

  /** Lexicographic order on pairs, as Python compares tuples. */
  function PairLe(a: (int, int), b: (int, int)): bool {
    a.0 < b.0 || (a.0 == b.0 && a.1 <= b.1)
  }

  lemma IntLeTotal()
    ensures TotalOrder(IntLe)
  {
  }

  lemma PairLeTotal()
    ensures TotalOrder(PairLe)
  {
  }

  lemma {:induction false} InsertSorted<T, K(!new)>(t: seq<T>, x: T, key: T -> K, le: (K, K) -> bool)
    requires TotalOrder(le) && SortedBy(t, key, le)
    ensures SortedBy(Insert(t, x, key, le), key, le)
  {
    var r := Insert(t, x, key, le);
    if t != [] {
      if le(key(t[0]), key(x)) {
        var u := Insert(t[1..], x, key, le);
        InsertSorted(t[1..], x, key, le);
        forall j | 0 <= j < |u| ensures le(key(t[0]), key(u[j])) {
          assert u[j] in multiset(u);
          if u[j] != x {
            assert u[j] in t[1..];
            var k :| 0 <= k < |t[1..]| && t[1..][k] == u[j];
            assert t[k + 1] == u[j];
          }
        }
        forall i, j | 0 <= i < j < |r| ensures le(key(r[i]), key(r[j])) {
          if i > 0 { assert r[i] == u[i - 1]; }
          assert r[j] == u[j - 1];
        }
      } else {
        forall i, j | 0 <= i < j < |r| ensures le(key(r[i]), key(r[j])) {
          if i > 0 {
            assert r[i] == t[i - 1] && r[j] == t[j - 1];
          } else {
            assert r[j] == t[j - 1];
            assert le(key(x), key(t[0]));
          }
        }
      }
    }
  }

  lemma SortedByPrefix<T, K>(s: seq<T>, n: int, key: T -> K, le: (K, K) -> bool)
    requires SortedBy(s, key, le) && 0 <= n <= |s|
    ensures SortedBy(s[..n], key, le)
  {
    forall i, j | 0 <= i < j < n ensures le(key(s[..n][i]), key(s[..n][j])) {
      assert s[..n][i] == s[i] && s[..n][j] == s[j];
    }
  }

  /** The result of SortBy is ordered by `le`. */
  lemma {:induction false} SortBySorted<T, K(!new)>(s: seq<T>, key: T -> K, le: (K, K) -> bool)
    requires TotalOrder(le)
    ensures SortedBy(SortBy(s, key, le), key, le)
  {
    if s != [] {
      SortBySorted(s[..|s| - 1], key, le);
      InsertSorted(SortBy(s[..|s| - 1], key, le), s[|s| - 1], key, le);
    }
  }

  lemma {:induction false} KeyClassConcat<T, K>(a: seq<T>, b: seq<T>, key: T -> K, v: K)
    ensures KeyClass(a + b, key, v) == KeyClass(a, key, v) + KeyClass(b, key, v)
  {
    if a == [] {
      assert a + b == b;
    } else {
      var head := if key(a[0]) == v then [a[0]] else [];
      assert (a + b)[0] == a[0] && (a + b)[1..] == a[1..] + b;
      KeyClassConcat(a[1..], b, key, v);
      calc {
        KeyClass(a + b, key, v);
        head + KeyClass(a[1..] + b, key, v);
        head + (KeyClass(a[1..], key, v) + KeyClass(b, key, v));
        (head + KeyClass(a[1..], key, v)) + KeyClass(b, key, v);
      }
    }
  }

  lemma {:induction false} KeyClassEmpty<T, K>(s: seq<T>, key: T -> K, v: K)
    requires forall i :: 0 <= i < |s| ==> key(s[i]) != v
    ensures KeyClass(s, key, v) == []
  {
    if s != [] {
      KeyClassEmpty(s[1..], key, v);
    }
  }

  lemma {:induction false} InsertStable<T, K>(t: seq<T>, x: T, key: T -> K, le: (K, K) -> bool, v: K)
    requires SortedBy(t, key, le) && le(key(x), key(x))
    ensures KeyClass(Insert(t, x, key, le), key, v)
         == KeyClass(t, key, v) + (if key(x) == v then [x] else [])
  {
    if t == [] {
    } else if le(key(t[0]), key(x)) {
      var u := Insert(t[1..], x, key, le);
      var r := [t[0]] + u;
      var head := if key(t[0]) == v then [t[0]] else [];
      var tail := if key(x) == v then [x] else [];
      InsertStable(t[1..], x, key, le, v);
      assert r[0] == t[0] && r[1..] == u;
      calc {
        KeyClass(r, key, v);
        head + KeyClass(u, key, v);
        head + (KeyClass(t[1..], key, v) + tail);
        (head + KeyClass(t[1..], key, v)) + tail;
      }
    } else {
      assert ([x] + t)[1..] == t;
      if key(x) == v {
        forall i | 0 <= i < |t| ensures key(t[i]) != v {
          if i > 0 { assert le(key(t[0]), key(t[i])); }
        }
        KeyClassEmpty(t, key, v);
      }
    }
  }

  /** One step of SortByStable: inserting the last row into the sorted
      prefix keeps every key class in arrival order. */
  lemma SortByStableStep<T, K>(s: seq<T>, key: T -> K, le: (K, K) -> bool, v: K)
    requires s != []
    requires SortedBy(SortBy(s[..|s| - 1], key, le), key, le)
    requires KeyClass(SortBy(s[..|s| - 1], key, le), key, v) == KeyClass(s[..|s| - 1], key, v)
    requires le(key(s[|s| - 1]), key(s[|s| - 1]))
    ensures KeyClass(SortBy(s, key, le), key, v) == KeyClass(s, key, v)
  {
    var init, last := s[..|s| - 1], s[|s| - 1];
    var sorted := SortBy(init, key, le);
    var tail := if key(last) == v then [last] else [];
    assert SortBy(s, key, le) == Insert(sorted, last, key, le);
    InsertStable(sorted, last, key, le, v);
    KeyClassSnoc(s, key, v);
  }

  lemma KeyClassSnoc<T, K>(s: seq<T>, key: T -> K, v: K)
    requires s != []
    ensures var last := s[|s| - 1];
      KeyClass(s, key, v) == KeyClass(s[..|s| - 1], key, v) + (if key(last) == v then [last] else [])
  {
    var init, last := s[..|s| - 1], s[|s| - 1];
    assert s == init + [last];
    assert [last][1..] == [];
    KeyClassConcat(init, [last], key, v);
  }

  /** SortBy is stable: the rows of each key keep their original order. */
  lemma {:induction false} SortByStable<T, K(!new)>(s: seq<T>, key: T -> K, le: (K, K) -> bool, v: K)
    requires TotalOrder(le)
    ensures KeyClass(SortBy(s, key, le), key, v) == KeyClass(s, key, v)
  {
    if s != [] {
      SortByStable(s[..|s| - 1], key, le, v);
      SortBySorted(s[..|s| - 1], key, le);
      SortByStableStep(s, key, le, v);
    }
  }

  lemma {:induction false} InsertUnique<T, U, K>(t: seq<T>, x: T, key: T -> K, le: (K, K) -> bool, id: T -> U)
    requires UniqueBy(t, id)
    requires forall y :: y in t ==> id(y) != id(x)
    ensures UniqueBy(Insert(t, x, key, le), id)
  {
    var r := Insert(t, x, key, le);
    if t != [] && le(key(t[0]), key(x)) {
      var u := Insert(t[1..], x, key, le);
      InsertUnique(t[1..], x, key, le, id);
      forall i, j | 0 <= i < j < |r| ensures id(r[i]) != id(r[j]) {
        assert r[j] == u[j - 1] && r[j] in multiset(u);
        if i > 0 {
          assert r[i] == u[i - 1];
        } else if r[j] == x {
          assert r[0] == t[0] && t[0] in t;
        } else {
          assert r[j] in t[1..];
          var k :| 0 <= k < |t[1..]| && t[1..][k] == r[j];
          assert t[k + 1] == r[j];
        }
      }
    } else if t != [] {
      forall i, j | 0 <= i < j < |r| ensures id(r[i]) != id(r[j]) {
        assert r[j] == t[j - 1];
        if i > 0 { assert r[i] == t[i - 1]; }
      }
    }
  }

  /** Sorting keeps any identifying field unique. */
  lemma {:induction false} SortByUnique<T, U, K>(s: seq<T>, key: T -> K, le: (K, K) -> bool, id: T -> U)
    requires UniqueBy(s, id)
    ensures UniqueBy(SortBy(s, key, le), id)
  {
    if s != [] {
      var init, last := s[..|s| - 1], s[|s| - 1];
      SortByUnique(init, key, le, id);
      var t := SortBy(init, key, le);
      forall y | y in t ensures id(y) != id(last) {
        assert y in multiset(init);
        var k :| 0 <= k < |init| && init[k] == y;
        assert s[k] == y;
      }
      InsertUnique(t, last, key, le, id);
    }
  }
}
