/**
 * Database tables are modelled as sequences of rows in primary-key order.
 * This module holds the generic pieces: the `.filter(...)` queryset and the
 * uniqueness of a key across the rows of a table (`unique_together`).
 */
module Tables {

  /** The rows of `s` that satisfy `keep`, in table order. */
  function Filter<T(!new)>(s: seq<T>, keep: T -> bool): (r: seq<T>)
    ensures |r| <= |s|
    ensures forall x :: x in r <==> x in s && keep(x)
  {
    if s == [] then []
    else
      var init, last := s[..|s| - 1], s[|s| - 1];
      assert s == init + [last];
      Filter(init, keep) + (if keep(last) then [last] else [])
  }

  /** No two rows of `s` share a key. */
  ghost predicate Unique<T(!new), K>(s: seq<T>, key: T -> K) {
    forall i, j :: 0 <= i < j < |s| ==> key(s[i]) != key(s[j])
  }

  lemma FilterSnoc<T(!new)>(s: seq<T>, x: T, keep: T -> bool)
    ensures Filter(s + [x], keep) == Filter(s, keep) + (if keep(x) then [x] else [])
  {
    assert (s + [x])[..|s|] == s;
  }

  lemma {:induction false} FilterAppend<T(!new)>(s: seq<T>, t: seq<T>, keep: T -> bool)
    ensures Filter(s + t, keep) == Filter(s, keep) + Filter(t, keep)
  {
    if t != [] {
      var init, last := t[..|t| - 1], t[|t| - 1];
      assert t == init + [last];
      assert s + t == (s + init) + [last];
      FilterAppend(s, init, keep);
      FilterSnoc(s + init, last, keep);
      FilterSnoc(init, last, keep);
    } else {
      assert s + t == s;
    }
  }

  lemma UniqueInit<T(!new), K>(s: seq<T>, key: T -> K)
    requires Unique(s, key) && s != []
    ensures Unique(s[..|s| - 1], key)
    ensures forall y :: y in s[..|s| - 1] ==> key(y) != key(s[|s| - 1])
  {
    forall y | y in s[..|s| - 1] ensures key(y) != key(s[|s| - 1]) {
      var i :| 0 <= i < |s| - 1 && s[..|s| - 1][i] == y;
      assert s[i] == y;
    }
  }

  lemma UniqueSnoc<T(!new), K>(s: seq<T>, x: T, key: T -> K)
    requires Unique(s, key)
    requires forall y :: y in s ==> key(y) != key(x)
    ensures Unique(s + [x], key)
  {
    forall i, j | 0 <= i < j < |s| + 1 ensures key((s + [x])[i]) != key((s + [x])[j]) {
      if j == |s| {
        assert (s + [x])[i] == s[i] && s[i] in s;
      }
    }
  }

  /** Taking the last element of `s` and an equal element of `t` out of two permutations leaves two permutations. */
  lemma RemoveMatching<T>(s: seq<T>, t: seq<T>, k: nat)
    requires multiset(s) == multiset(t) && s != [] && k < |t| && t[k] == s[|s| - 1]
    ensures multiset(t[..k] + t[k + 1..]) == multiset(s[..|s| - 1])
  {
    var init, x, front, back := s[..|s| - 1], s[|s| - 1], t[..k], t[k + 1..];
    assert multiset(s) == multiset(init) + multiset{x} by {
      assert s == init + [x];
    }
    assert multiset(t) == multiset(front) + multiset{x} + multiset(back) by {
      assert t == front + [x] + back;
    }
    var rest := multiset(front + back);
    assert rest == multiset(front) + multiset(back);
    forall e ensures rest[e] == multiset(init)[e] {
      assert multiset(s)[e] == multiset(t)[e];
    }
  }

  /** Replacing a row by one with the same key keeps the key unique. */
  lemma UniqueUpdate<T(!new), K>(s: seq<T>, k: nat, x: T, key: T -> K)
    requires Unique(s, key) && k < |s| && key(x) == key(s[k])
    ensures Unique(s[k := x], key)
    ensures forall i :: 0 <= i < |s| && key(s[i]) == key(x) ==> i == k
  {
    var t := s[k := x];
    forall i, j | 0 <= i < j < |t| ensures key(t[i]) != key(t[j]) {
      assert key(t[i]) == key(s[i]) && key(t[j]) == key(s[j]);
    }
  }

  lemma UniqueAppend<T(!new), K>(s: seq<T>, t: seq<T>, key: T -> K)
    requires Unique(s, key) && Unique(t, key)
    requires forall x, y :: x in s && y in t ==> key(x) != key(y)
    ensures Unique(s + t, key)
  {
    forall i, j | 0 <= i < j < |s + t| ensures key((s + t)[i]) != key((s + t)[j]) {
      if j < |s| {
        assert (s + t)[i] == s[i] && (s + t)[j] == s[j];
      } else if i < |s| {
        assert (s + t)[i] == s[i] && s[i] in s;
        assert (s + t)[j] == t[j - |s|] && t[j - |s|] in t;
      } else {
        assert (s + t)[i] == t[i - |s|] && (s + t)[j] == t[j - |s|];
      }
    }
  }

  /** A filtered table keeps the uniqueness of its key. */
  lemma {:induction false} FilterUnique<T(!new), K>(s: seq<T>, keep: T -> bool, key: T -> K)
    requires Unique(s, key)
    ensures Unique(Filter(s, keep), key)
  {
    if s != [] {
      var init, last := s[..|s| - 1], s[|s| - 1];
      assert s == init + [last];
      UniqueInit(s, key);
      FilterUnique(init, keep, key);
      FilterSnoc(init, last, keep);
      if keep(last) {
        UniqueSnoc(Filter(init, keep), last, key);
      }
    }
  }
}
