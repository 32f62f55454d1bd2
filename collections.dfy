/** Sequence helpers shared by the whole model: the row filter that the
    database's `filter(...)` and `filter(...).delete()` stand for, and the
    uniqueness of a key over the rows of a table (`unique_together`). */
module Collections {

  datatype Option<+T> = None | Some(value: T)

  /** The elements of `s` that satisfy `keep`, in their original order. */
  function Filter<T>(s: seq<T>, keep: T -> bool): (r: seq<T>)
    ensures |r| <= |s|
    ensures forall i :: 0 <= i < |r| ==> r[i] in s && keep(r[i])
    ensures forall i :: 0 <= i < |s| && keep(s[i]) ==> s[i] in r
  {
    if s == [] then [] else (if keep(s[0]) then [s[0]] else []) + Filter(s[1..], keep)
  }

  /** Filtering a concatenation filters each part. */
  /** Every element of a filtered sequence is an element of `s` that `keep` accepts. */
  lemma FilterMembers<T>(s: seq<T>, keep: T -> bool)
    ensures forall x :: x in Filter(s, keep) ==> x in s && keep(x)
  {
    var r := Filter(s, keep);
    forall x | x in r ensures x in s && keep(x) {
      var i :| 0 <= i < |r| && r[i] == x;
    }
  }

  lemma {:induction false} FilterConcat<T>(a: seq<T>, b: seq<T>, keep: T -> bool)
    ensures Filter(a + b, keep) == Filter(a, keep) + Filter(b, keep)
  {
    if a == [] {
      assert a + b == b;
    } else {
      var head := if keep(a[0]) then [a[0]] else [];
      assert (a + b)[0] == a[0] && (a + b)[1..] == a[1..] + b;
      FilterConcat(a[1..], b, keep);
      calc {
        Filter(a + b, keep);
        head + Filter(a[1..] + b, keep);
        head + (Filter(a[1..], keep) + Filter(b, keep));
        (head + Filter(a[1..], keep)) + Filter(b, keep);
      }
    }
  }

  /** Filtering a non-empty list filters its prefix, then its last row. */
  lemma FilterSnoc<T>(s: seq<T>, keep: T -> bool)
    requires s != []
    ensures var last := s[|s| - 1];
      Filter(s, keep) == Filter(s[..|s| - 1], keep) + (if keep(last) then [last] else [])
  {
    var init, last := s[..|s| - 1], s[|s| - 1];
    assert s == init + [last];
    assert [last][1..] == [];
    FilterConcat(init, [last], keep);
  }

  /** No two rows of `s` share a key. */
  ghost predicate UniqueBy<T, K>(s: seq<T>, key: T -> K) {
    forall i, j :: 0 <= i < j < |s| ==> key(s[i]) != key(s[j])
  }

  lemma UniqueByPrefix<T, K>(s: seq<T>, n: int, key: T -> K)
    requires UniqueBy(s, key) && 0 <= n <= |s|
    ensures UniqueBy(s[..n], key)
  {
    forall i, j | 0 <= i < j < n ensures key(s[..n][i]) != key(s[..n][j]) {
      assert s[..n][i] == s[i] && s[..n][j] == s[j];
    }
  }

  /** A row with a key no other row has may be put in front of unique rows. */
  lemma UniqueByCons<T, K>(x: T, t: seq<T>, key: T -> K)
    requires UniqueBy(t, key)
    requires forall y :: y in t ==> key(y) != key(x)
    ensures UniqueBy([x] + t, key)
  {
    var s := [x] + t;
    forall i, j | 0 <= i < j < |s| ensures key(s[i]) != key(s[j]) {
      if i > 0 {
        assert s[i] == t[i - 1] && s[j] == t[j - 1];
      } else {
        assert s[j] == t[j - 1] && s[j] in t;
      }
    }
  }

  /** Deleting rows keeps a key unique. */
  lemma {:induction false} UniqueByFilter<T, K>(s: seq<T>, keep: T -> bool, key: T -> K)
    requires UniqueBy(s, key)
    ensures UniqueBy(Filter(s, keep), key)
  {
    if s != [] {
      var t := s[1..];
      assert UniqueBy(t, key) by {
        forall i, j | 0 <= i < j < |t| ensures key(t[i]) != key(t[j]) {
          assert t[i] == s[i + 1] && t[j] == s[j + 1];
        }
      }
      UniqueByFilter(t, keep, key);
      if keep(s[0]) {
        forall y | y in Filter(t, keep) ensures key(y) != key(s[0]) {
          var j :| 0 <= j < |t| && t[j] == y;
          assert s[j + 1] == y;
        }
        UniqueByCons(s[0], Filter(t, keep), key);
      }
    }
  }

  /** Two blocks of unique rows whose keys do not meet stay unique side by side. */
  lemma UniqueByAppend<T, K>(a: seq<T>, b: seq<T>, key: T -> K)
    requires UniqueBy(a, key) && UniqueBy(b, key)
    requires forall x, y :: x in a && y in b ==> key(x) != key(y)
    ensures UniqueBy(a + b, key)
  {
    var s := a + b;
    forall i, j | 0 <= i < j < |s| ensures key(s[i]) != key(s[j]) {
      if j < |a| {
        assert s[i] == a[i] && s[j] == a[j];
      } else if i >= |a| {
        assert s[i] == b[i - |a|] && s[j] == b[j - |a|];
      } else {
        assert s[i] in a && s[j] in b;
      }
    }
  }

  /** Deleting a scope of rows and adding rows whose keys clash with none of
      the surviving ones keeps a key unique. */
  lemma UniqueByReplace<T, K>(s: seq<T>, keep: T -> bool, added: seq<T>, key: T -> K)
    requires UniqueBy(s, key) && UniqueBy(added, key)
    requires forall x, y :: x in s && keep(x) && y in added ==> key(x) != key(y)
    ensures UniqueBy(Filter(s, keep) + added, key)
  {
    UniqueByFilter(s, keep, key);
    UniqueByAppend(Filter(s, keep), added, key);
  }

  /** No element occurs twice. */
  predicate Distinct<T(==)>(s: seq<T>) {
    forall i, j :: 0 <= i < j < |s| ==> s[i] != s[j]
  }

  lemma {:induction false} DistinctCount<T>(t: seq<T>)
    ensures Distinct(t) <==> forall x :: multiset(t)[x] <= 1
  {
    if t != [] {
      var init, last := t[..|t| - 1], t[|t| - 1];
      DistinctCount(init);
      assert t == init + [last];
      if Distinct(t) {
        assert Distinct(init);
        forall k | 0 <= k < |init| ensures init[k] != last {
          assert t[k] == init[k];
        }
      } else {
        var i, j :| 0 <= i < j < |t| && t[i] == t[j];
        var x := t[i];
        assert t == t[..j] + [t[j]] + t[j + 1..];
        assert multiset(t) == multiset(t[..j]) + multiset{x} + multiset(t[j + 1..]);
        assert t[..j][i] == x;
        assert x in multiset(t[..j]);
        assert multiset(t)[x] >= 2;
      }
    }
  }

  /** A reordering of a list without repeats has none either. */
  lemma DistinctPermutation<T>(s: seq<T>, t: seq<T>)
    requires multiset(s) == multiset(t) && Distinct(t)
    ensures Distinct(s)
  {
    DistinctCount(t);
    DistinctCount(s);
  }
}
