/**
 * Python's `sorted(xs, key=k)`: a stable sort. It is modelled as an
 * insertion sort that places each element after every element whose key is
 * not larger, so elements with equal keys keep their input order.
 */
module Sorting {

  /** `s` is in non-decreasing order of `key`. */
  predicate SortedBy<T>(s: seq<T>, key: T -> real) {
    forall i, j :: 0 <= i < j < |s| ==> key(s[i]) <= key(s[j])
  }

  /** The elements of `s` whose key is `v`, in their order in `s`. */
  function WithKey<T>(s: seq<T>, key: T -> real, v: real): (r: seq<T>)
    ensures |r| <= |s|
  {
    if |s| == 0 then []
    else WithKey(s[..|s| - 1], key, v) + (if key(s[|s| - 1]) == v then [s[|s| - 1]] else [])
  }

  lemma {:induction false} WithKeyAppend<T>(a: seq<T>, b: seq<T>, key: T -> real, v: real)
    ensures WithKey(a + b, key, v) == WithKey(a, key, v) + WithKey(b, key, v)
    decreases |b|
  {
    if |b| == 0 {
      assert a + b == a;
    } else {
      assert (a + b)[..|a + b| - 1] == a + b[..|b| - 1];
      WithKeyAppend(a, b[..|b| - 1], key, v);
    }
  }

  lemma WithKeySingle<T>(x: T, key: T -> real, v: real)
    ensures WithKey([x], key, v) == if key(x) == v then [x] else []
  {
    assert [x][..0] == [];
  }

  /** No element of a sorted `s` whose keys all exceed `v` has key `v`. */
  lemma {:induction false} WithKeyNone<T>(s: seq<T>, key: T -> real, v: real)
    requires forall i :: 0 <= i < |s| ==> v < key(s[i])
    ensures WithKey(s, key, v) == []
  {
    if |s| > 0 {
      WithKeyNone(s[..|s| - 1], key, v);
    }
  }

  /** Inserts `x` into `s` after every element whose key is at most `key(x)`. */
  function InsertBy<T>(x: T, s: seq<T>, key: T -> real): (r: seq<T>)
    ensures |r| == |s| + 1
  {
    if |s| == 0 || key(x) < key(s[0]) then [x] + s
    else [s[0]] + InsertBy(x, s[1..], key)
  }

  /** Inserting adds `x` and loses nothing. */
  lemma {:induction false} InsertByPermutes<T>(x: T, s: seq<T>, key: T -> real)
    ensures multiset(InsertBy(x, s, key)) == multiset(s) + multiset{x}
  {
    if |s| > 0 && key(x) >= key(s[0]) {
      InsertByPermutes(x, s[1..], key);
      assert s == [s[0]] + s[1..];
    }
  }

  lemma {:induction false} InsertBySorted<T>(x: T, s: seq<T>, key: T -> real)
    requires SortedBy(s, key)
    ensures SortedBy(InsertBy(x, s, key), key)
  {
    if |s| > 0 && key(x) >= key(s[0]) {
      var r := InsertBy(x, s, key);
      var t := InsertBy(x, s[1..], key);
      InsertBySorted(x, s[1..], key);
      InsertByPermutes(x, s[1..], key);
      forall j | 0 < j < |r| ensures key(s[0]) <= key(r[j]) {
        assert r[j] == t[j - 1];
        assert r[j] in multiset(s[1..]) + multiset{x};
        if r[j] != x {
          assert r[j] in s[1..];
        }
      }
    }
  }

  /** Inserting `x` adds it after the elements that share its key and changes no other key's elements. */
  lemma {:induction false} InsertByStable<T>(x: T, s: seq<T>, key: T -> real, v: real)
    requires SortedBy(s, key)
    ensures WithKey(InsertBy(x, s, key), key, v) == WithKey(s, key, v) + (if key(x) == v then [x] else [])
  {
    if |s| == 0 || key(x) < key(s[0]) {
      InsertFrontStable(x, s, key, v);
    } else {
      InsertByStable(x, s[1..], key, v);
      InsertLaterStable(x, s, key, v);
    }
  }

  lemma InsertFrontStable<T>(x: T, s: seq<T>, key: T -> real, v: real)
    requires SortedBy(s, key)
    requires |s| == 0 || key(x) < key(s[0])
    ensures WithKey(InsertBy(x, s, key), key, v) == WithKey(s, key, v) + (if key(x) == v then [x] else [])
  {
    assert InsertBy(x, s, key) == [x] + s;
    WithKeyAppend([x], s, key, v);
    WithKeySingle(x, key, v);
    if key(x) == v {
      WithKeyNone(s, key, v);
    }
  }

  lemma InsertLaterStable<T>(x: T, s: seq<T>, key: T -> real, v: real)
    requires |s| > 0 && key(x) >= key(s[0])
    requires WithKey(InsertBy(x, s[1..], key), key, v) == WithKey(s[1..], key, v) + (if key(x) == v then [x] else [])
    ensures WithKey(InsertBy(x, s, key), key, v) == WithKey(s, key, v) + (if key(x) == v then [x] else [])
  {
    var t := InsertBy(x, s[1..], key);
    var head, tail := WithKey([s[0]], key, v), WithKey(s[1..], key, v);
    var e := if key(x) == v then [x] else [];
    assert InsertBy(x, s, key) == [s[0]] + t;
    assert s == [s[0]] + s[1..];
    WithKeyAppend([s[0]], t, key, v);
    WithKeyAppend([s[0]], s[1..], key, v);
    assert WithKey(t, key, v) == tail + e;
    assert head + (tail + e) == (head + tail) + e;
  }

  /** `sorted(s, key=key)` */
  function SortBy<T>(s: seq<T>, key: T -> real): (r: seq<T>)
    ensures |r| == |s|
  {
    if |s| == 0 then []
    else InsertBy(s[|s| - 1], SortBy(s[..|s| - 1], key), key)
  }

  /** `sorted` returns a permutation of its input. */
  lemma {:induction false} SortByPermutes<T>(s: seq<T>, key: T -> real)
    ensures multiset(SortBy(s, key)) == multiset(s)
  {
    if |s| > 0 {
      SortByPermutes(s[..|s| - 1], key);
      InsertByPermutes(s[|s| - 1], SortBy(s[..|s| - 1], key), key);
      assert s == s[..|s| - 1] + [s[|s| - 1]];
    }
  }

  /** `sorted` returns its input in non-decreasing key order. */
  lemma {:induction false} SortBySorted<T>(s: seq<T>, key: T -> real)
    ensures SortedBy(SortBy(s, key), key)
  {
    if |s| > 0 {
      SortBySorted(s[..|s| - 1], key);
      InsertBySorted(s[|s| - 1], SortBy(s[..|s| - 1], key), key);
    }
  }

  /** `sorted` is stable: the elements with key `v` keep their input order. */
  lemma {:induction false} SortByStable<T>(s: seq<T>, key: T -> real, v: real)
    ensures WithKey(SortBy(s, key), key, v) == WithKey(s, key, v)
  {
    if |s| > 0 {
      var p := s[..|s| - 1];
      var x := s[|s| - 1];
      SortByStable(p, key, v);
      SortBySorted(p, key);
      InsertByStable(x, SortBy(p, key), key, v);
    }
  }

  /** `a` occurs in `s` somewhere before an occurrence of `b`. */
  predicate Precedes<T(==)>(s: seq<T>, a: T, b: T) {
    exists i, j :: 0 <= i < j < |s| && s[i] == a && s[j] == b
  }

  lemma PrecedesAppend<T>(p: seq<T>, x: T, a: T, b: T)
    ensures Precedes(p + [x], a, b) <==> Precedes(p, a, b) || (x == b && a in p)
  {
    var s := p + [x];
    if Precedes(s, a, b) {
      var i, j :| 0 <= i < j < |s| && s[i] == a && s[j] == b;
      assert p[i] == a;
      if j < |p| {
        assert p[j] == b;
      }
    }
    if Precedes(p, a, b) {
      var i, j :| 0 <= i < j < |p| && p[i] == a && p[j] == b;
      assert s[i] == a && s[j] == b;
    }
    if x == b && a in p {
      var i :| 0 <= i < |p| && p[i] == a;
      assert s[i] == a && s[|p|] == b;
    }
  }

  lemma {:induction false} WithKeyMember<T>(s: seq<T>, key: T -> real, v: real, a: T)
    ensures a in WithKey(s, key, v) <==> a in s && key(a) == v
  {
    if |s| > 0 {
      var p := s[..|s| - 1];
      assert s == p + [s[|s| - 1]];
      WithKeyMember(p, key, v, a);
    }
  }

  /** Keeping only the elements with key `v` keeps the relative order of any two of them. */
  lemma {:induction false} WithKeyPrecedes<T>(s: seq<T>, key: T -> real, v: real, a: T, b: T)
    requires key(a) == v && key(b) == v
    ensures Precedes(WithKey(s, key, v), a, b) <==> Precedes(s, a, b)
  {
    if |s| > 0 {
      var p := s[..|s| - 1];
      var x := s[|s| - 1];
      assert s == p + [x];
      WithKeyPrecedes(p, key, v, a, b);
      WithKeyMember(p, key, v, a);
      PrecedesAppend(p, x, a, b);
      if key(x) == v {
        assert WithKey(s, key, v) == WithKey(p, key, v) + [x];
        PrecedesAppend(WithKey(p, key, v), x, a, b);
      } else {
        assert WithKey(s, key, v) == WithKey(p, key, v);
      }
    }
  }

  /** In the output of `sorted`, an element before another with the same key was also before it in the input. */
  lemma SortByKeepsTies<T>(s: seq<T>, key: T -> real, i: nat, k: nat)
    requires i < k < |SortBy(s, key)| && key(SortBy(s, key)[i]) == key(SortBy(s, key)[k])
    ensures Precedes(s, SortBy(s, key)[i], SortBy(s, key)[k])
  {
    var l := SortBy(s, key);
    var v := key(l[i]);
    assert Precedes(l, l[i], l[k]);
    WithKeyPrecedes(l, key, v, l[i], l[k]);
    SortByStable(s, key, v);
    WithKeyPrecedes(s, key, v, l[i], l[k]);
  }

  /** No element occurs twice in `s`. */
  predicate Distinct<T(==)>(s: seq<T>) {
    forall i, j :: 0 <= i < j < |s| ==> s[i] != s[j]
  }

  lemma {:induction false} DistinctCounts<T>(s: seq<T>, x: T)
    requires Distinct(s)
    ensures multiset(s)[x] <= 1
  {
    if |s| > 0 {
      var p := s[..|s| - 1];
      assert s == p + [s[|s| - 1]];
      DistinctCounts(p, x);
      if x == s[|s| - 1] {
        assert x !in p;
      }
    }
  }

  /** A permutation of a sequence without repetitions has none either. */
  lemma DistinctPermutation<T>(a: seq<T>, b: seq<T>)
    requires multiset(a) == multiset(b)
    requires Distinct(a)
    ensures Distinct(b)
  {
    forall i, j | 0 <= i < j < |b| ensures b[i] != b[j] {
      if b[i] == b[j] {
        assert b == b[..j] + b[j..];
        assert b[i] in b[..j];
        assert b[j] in b[j..];
        assert multiset(b)[b[i]] == multiset(b[..j])[b[i]] + multiset(b[j..])[b[i]];
        DistinctCounts(a, b[i]);
      }
    }
  }
}
