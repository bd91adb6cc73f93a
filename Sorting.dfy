/** The stable comparison sort every ranking in the tracker relies on. `Array.prototype.sort` is
    stable (ECMA-262, 2019 edition, section 22.1.3.27), and each comparator the source passes is a
    descending difference of one or two integer keys, so the sorted order is exactly the one
    `SortDesc` produces: descending by key, elements with equal keys kept in input order. */
module Sorting {

  /** A lexicographic sort key: first `major`, then `minor`. */
  datatype SortKey = SortKey(major: int, minor: int)

  /** `a` strictly outranks `b`: a descending sort puts `a` first. */
  predicate Above(a: SortKey, b: SortKey) {
    a.major > b.major || (a.major == b.major && a.minor > b.minor)
  }

  /** No element of `s` outranks an element placed before it. */
  ghost predicate Descending<T>(s: seq<T>, key: T -> SortKey) {
    forall i, j :: 0 <= i < j < |s| ==> !Above(key(s[j]), key(s[i]))
  }

  /** Among elements of `s` with equal keys, `tag` strictly decreases along `s`. */
  ghost predicate TagOrderedWithinKeys<T>(s: seq<T>, key: T -> SortKey, tag: T -> SortKey) {
    forall i, j :: 0 <= i < j < |s| && key(s[i]) == key(s[j]) ==> Above(tag(s[i]), tag(s[j]))
  }

  /** Inserts `x` in front of the first element that does not outrank it, that is before every
      element whose key equals its own. */
  function Insert<T>(x: T, s: seq<T>, key: T -> SortKey): (r: seq<T>)
    ensures |r| == |s| + 1
    ensures multiset(r) == multiset(s) + multiset{x}
  {
    if s == [] || !Above(key(s[0]), key(x)) then
      [x] + s
    else
      assert s == [s[0]] + s[1..];
      [s[0]] + Insert(x, s[1..], key)
  }

  lemma {:induction false} InsertDescending<T>(x: T, s: seq<T>, key: T -> SortKey)
    requires Descending(s, key)
    ensures Descending(Insert(x, s, key), key)
  {
    if s != [] && Above(key(s[0]), key(x)) {
      var t := Insert(x, s[1..], key);
      InsertDescending(x, s[1..], key);
      var r := [s[0]] + t;
      forall j | 0 < j < |r| ensures !Above(key(r[j]), key(r[0])) {
        assert r[j] in multiset(t);
        if r[j] != x {
          assert r[j] in s[1..];
          var m :| 0 <= m < |s[1..]| && s[1..][m] == r[j];
          assert s[m + 1] == r[j];
        }
      }
      forall i, j | 0 <= i < j < |r| ensures !Above(key(r[j]), key(r[i])) {
        if i > 0 {
          assert r[i] == t[i - 1] && r[j] == t[j - 1];
        }
      }
    }
  }

  /** The stable descending sort. */
  function SortDesc<T>(s: seq<T>, key: T -> SortKey): (r: seq<T>)
    ensures |r| == |s|
    ensures multiset(r) == multiset(s)
    ensures Descending(r, key)
  {
    if s == [] then []
    else
      assert s == [s[0]] + s[1..];
      var rest := SortDesc(s[1..], key);
      InsertDescending(s[0], rest, key);
      Insert(s[0], rest, key)
  }

  /** One step of the sort: the head is inserted into the sorted tail. */
  lemma SortDescStep<T>(s: seq<T>, key: T -> SortKey)
    requires s != []
    ensures SortDesc(s, key) == Insert(s[0], SortDesc(s[1..], key), key)
  {
  }

  /** The subsequence of `s` whose key is `k`, in `s` order. */
  function WithKey<T>(s: seq<T>, key: T -> SortKey, k: SortKey): seq<T> {
    if s == [] then []
    else (if key(s[0]) == k then [s[0]] else []) + WithKey(s[1..], key, k)
  }

  lemma {:induction false} InsertWithKey<T>(x: T, s: seq<T>, key: T -> SortKey, k: SortKey)
    ensures WithKey(Insert(x, s, key), key, k) == (if key(x) == k then [x] else []) + WithKey(s, key, k)
  {
    if s == [] || !Above(key(s[0]), key(x)) {
      assert ([x] + s)[1..] == s;
    } else {
      InsertWithKey(x, s[1..], key, k);
      assert ([s[0]] + Insert(x, s[1..], key))[1..] == Insert(x, s[1..], key);
    }
  }

  /** Stability: for every key, the elements carrying it appear in the sorted output in exactly
      the order they had in the input. */
  lemma {:induction false} SortDescStable<T>(s: seq<T>, key: T -> SortKey, k: SortKey)
    ensures WithKey(SortDesc(s, key), key, k) == WithKey(s, key, k)
  {
    if s != [] {
      SortDescStable(s[1..], key, k);
      InsertWithKey(s[0], SortDesc(s[1..], key), key, k);
    }
  }

  lemma {:induction false} InsertTagOrdered<T>(x: T, s: seq<T>, key: T -> SortKey, tag: T -> SortKey)
    requires TagOrderedWithinKeys(s, key, tag)
    requires forall y :: y in s ==> Above(tag(x), tag(y))
    ensures TagOrderedWithinKeys(Insert(x, s, key), key, tag)
  {
    if s == [] || !Above(key(s[0]), key(x)) {
      var r := [x] + s;
      forall i, j | 0 <= i < j < |r| && key(r[i]) == key(r[j])
        ensures Above(tag(r[i]), tag(r[j]))
      {
        if i == 0 {
          assert r[j] == s[j - 1] && s[j - 1] in s;
        } else {
          assert r[i] == s[i - 1] && r[j] == s[j - 1];
        }
      }
    } else {
      var t := Insert(x, s[1..], key);
      InsertTagOrdered(x, s[1..], key, tag);
      var r := [s[0]] + t;
      forall i, j | 0 <= i < j < |r| && key(r[i]) == key(r[j])
        ensures Above(tag(r[i]), tag(r[j]))
      {
        if i == 0 {
          assert r[j] in multiset(t);
          if r[j] != x {
            assert r[j] in s[1..];
            var m :| 0 <= m < |s[1..]| && s[1..][m] == r[j];
            assert s[m + 1] == r[j];
          }
        } else {
          assert r[i] == t[i - 1] && r[j] == t[j - 1];
        }
      }
    }
  }

  /** If the input is strictly ordered by `tag`, the sort keeps that order among equal keys. */
  lemma {:induction false} SortDescKeepsTagOrder<T>(s: seq<T>, key: T -> SortKey, tag: T -> SortKey)
    requires forall i, j :: 0 <= i < j < |s| ==> Above(tag(s[i]), tag(s[j]))
    ensures TagOrderedWithinKeys(SortDesc(s, key), key, tag)
  {
    if s != [] {
      var rest := SortDesc(s[1..], key);
      SortDescKeepsTagOrder(s[1..], key, tag);
      forall y | y in rest ensures Above(tag(s[0]), tag(y)) {
        assert y in multiset(s[1..]);
        var m :| 0 <= m < |s[1..]| && s[1..][m] == y;
        assert s[m + 1] == y;
      }
      InsertTagOrdered(s[0], rest, key, tag);
    }
  }

  /** Sorting an input that is already in descending order leaves it as it is. */
  lemma {:induction false} SortDescOfDescending<T>(s: seq<T>, key: T -> SortKey)
    requires Descending(s, key)
    ensures SortDesc(s, key) == s
  {
    if s != [] {
      assert Descending(s[1..], key) by {
        forall i, j | 0 <= i < j < |s[1..]| ensures !Above(key(s[1..][j]), key(s[1..][i])) {
          assert s[1..][i] == s[i + 1] && s[1..][j] == s[j + 1];
        }
      }
      SortDescOfDescending(s[1..], key);
      assert s == [s[0]] + s[1..];
    }
  }

  function Reversed<T>(s: seq<T>): (r: seq<T>)
    ensures |r| == |s| && forall i :: 0 <= i < |s| ==> r[i] == s[|s| - 1 - i]
  {
    if s == [] then [] else Reversed(s[1..]) + [s[0]]
  }

  lemma {:induction false} InsertBelowAll<T>(x: T, s: seq<T>, key: T -> SortKey)
    requires forall i :: 0 <= i < |s| ==> Above(key(s[i]), key(x))
    ensures Insert(x, s, key) == s + [x]
  {
    if s != [] {
      InsertBelowAll(x, s[1..], key);
      assert s == [s[0]] + s[1..];
    }
  }

  /** Every element of `s` strictly outranks the ones placed before it. */
  ghost predicate StrictlyAscending<T>(s: seq<T>, key: T -> SortKey) {
    forall i, j :: 0 <= i < j < |s| ==> Above(key(s[j]), key(s[i]))
  }

  /** Sorting an input whose keys strictly increase reverses it. */
  lemma {:induction false} SortDescOfAscending<T>(s: seq<T>, key: T -> SortKey)
    requires StrictlyAscending(s, key)
    ensures SortDesc(s, key) == Reversed(s)
  {
    if s != [] {
      var t := s[1..];
      assert StrictlyAscending(t, key) by {
        forall i, j | 0 <= i < j < |t| ensures Above(key(t[j]), key(t[i])) {
          assert t[i] == s[i + 1] && t[j] == s[j + 1];
        }
      }
      SortDescOfAscending(t, key);
      var r := Reversed(t);
      assert forall i :: 0 <= i < |r| ==> Above(key(r[i]), key(s[0])) by {
        forall i | 0 <= i < |r| ensures Above(key(r[i]), key(s[0])) {
          assert r[i] == s[|s| - 1 - i];
        }
      }
      InsertBelowAll(s[0], r, key);
      SortDescStep(s, key);
      assert Reversed(s) == r + [s[0]];
    }
  }

  /** `s.map(f)`. */
  function Map<A, B>(s: seq<A>, f: A -> B): (r: seq<B>)
    ensures |r| == |s| && forall i :: 0 <= i < |s| ==> r[i] == f(s[i])
  {
    seq(|s|, i requires 0 <= i < |s| => f(s[i]))
  }

  lemma {:induction false} MapInsert<T, B>(x: T, s: seq<T>, key: T -> SortKey, f: T -> B)
    ensures multiset(Map(Insert(x, s, key), f)) == multiset(Map(s, f)) + multiset{f(x)}
  {
    if s == [] || !Above(key(s[0]), key(x)) {
      assert Map([x] + s, f) == [f(x)] + Map(s, f);
    } else {
      MapInsert(x, s[1..], key, f);
      assert Map([s[0]] + Insert(x, s[1..], key), f) == [f(s[0])] + Map(Insert(x, s[1..], key), f);
      assert Map(s, f) == [f(s[0])] + Map(s[1..], f);
    }
  }

  /** Sorting permutes whatever is projected out of the elements, too. */
  lemma {:induction false} MapSortDesc<T, B>(s: seq<T>, key: T -> SortKey, f: T -> B)
    ensures multiset(Map(SortDesc(s, key), f)) == multiset(Map(s, f))
  {
    if s != [] {
      MapSortDesc(s[1..], key, f);
      MapInsert(s[0], SortDesc(s[1..], key), key, f);
      assert Map(s, f) == [f(s[0])] + Map(s[1..], f);
    }
  }
}
