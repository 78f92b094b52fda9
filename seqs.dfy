/** Generic sequence operations the table model is built from: the first
    element satisfying a predicate, filtering, and key uniqueness. */
module Seqs {
  import opened Common

  /** Index of the first element satisfying p, or -1. */
  function IndexWhere<T>(s: seq<T>, p: T -> bool): (r: int)
    ensures -1 <= r < |s|
    ensures r >= 0 ==> p(s[r]) && forall j :: 0 <= j < r ==> !p(s[j])
    ensures r == -1 ==> forall j :: 0 <= j < |s| ==> !p(s[j])
  {
    if |s| == 0 then -1
    else if p(s[0]) then 0
    else
      var k := IndexWhere(s[1..], p);
      if k == -1 then -1 else k + 1
  }

  /** The first element satisfying p (SQL `scalar` over a table scan). */
  function FirstWhere<T>(s: seq<T>, p: T -> bool): (r: Option<T>)
    ensures r.Some? <==> exists j :: 0 <= j < |s| && p(s[j])
    ensures r.Some? ==> r.value in s && p(r.value)
  {
    var k := IndexWhere(s, p);
    if k == -1 then None else Some(s[k])
  }

  /** The elements satisfying p, in their original order. */
  function Filter<T(!new)>(s: seq<T>, p: T -> bool): (r: seq<T>)
    ensures |r| <= |s|
    ensures forall x :: x in r <==> x in s && p(x)
  {
    if |s| == 0 then []
    else if p(s[0]) then [s[0]] + Filter(s[1..], p)
    else Filter(s[1..], p)
  }

  /** No two positions of s carry the same key. */
  predicate Distinct<T, K(==)>(s: seq<T>, key: T -> K)
  {
    forall i, j :: 0 <= i < j < |s| ==> key(s[i]) != key(s[j])
  }

  /** Some element of s carries key k. */
  predicate KeyIn<T, K(==)>(s: seq<T>, key: T -> K, k: K)
  {
    exists j :: 0 <= j < |s| && key(s[j]) == k
  }

  /** Appending keeps keys distinct exactly when the new key is new. */
  lemma DistinctAppend<T, K>(s: seq<T>, x: T, key: T -> K)
    ensures Distinct(s + [x], key) <==> Distinct(s, key) && !KeyIn(s, key, key(x))
  {
    var t := s + [x];
    if Distinct(t, key) {
      forall i, j | 0 <= i < j < |s| ensures key(s[i]) != key(s[j]) {
        assert t[i] == s[i] && t[j] == s[j];
      }
      forall j | 0 <= j < |s| ensures key(s[j]) != key(x) {
        assert t[j] == s[j] && t[|s|] == x;
      }
    }
  }

  /** Overwriting position i keeps keys distinct exactly when no other
      position carries the new key. */
  lemma DistinctUpdate<T, K>(s: seq<T>, i: int, x: T, key: T -> K)
    requires 0 <= i < |s| && Distinct(s, key)
    ensures Distinct(s[i := x], key) <==> forall j :: 0 <= j < |s| && j != i ==> key(s[j]) != key(x)
  {
    var t := s[i := x];
    if Distinct(t, key) {
      forall j | 0 <= j < |s| && j != i ensures key(s[j]) != key(x) {
        assert t[j] == s[j] && t[i] == x;
        if j < i { assert key(t[j]) != key(t[i]); } else { assert key(t[i]) != key(t[j]); }
      }
    }
  }

  /** Removing elements never introduces a duplicate key. */
  lemma {:induction false} DistinctFilter<T(!new), K>(s: seq<T>, p: T -> bool, key: T -> K)
    requires Distinct(s, key)
    ensures Distinct(Filter(s, p), key)
  {
    if |s| > 0 {
      var rest := Filter(s[1..], p);
      assert Distinct(s[1..], key) by {
        forall i, j | 0 <= i < j < |s| - 1 ensures key(s[1..][i]) != key(s[1..][j]) {
          assert s[1..][i] == s[i + 1] && s[1..][j] == s[j + 1];
        }
      }
      DistinctFilter(s[1..], p, key);
      if p(s[0]) {
        var t := [s[0]] + rest;
        forall i, j | 0 <= i < j < |t| ensures key(t[i]) != key(t[j]) {
          if i == 0 {
            assert t[j] == rest[j - 1];
            assert rest[j - 1] in s[1..];
            var m :| 0 <= m < |s[1..]| && s[1..][m] == rest[j - 1];
            assert s[m + 1] == rest[j - 1];
          } else {
            assert t[i] == rest[i - 1] && t[j] == rest[j - 1];
          }
        }
      }
    }
  }

  lemma KeyInAppend<T, K>(s: seq<T>, x: T, key: T -> K, k: K)
    ensures KeyIn(s + [x], key, k) <==> KeyIn(s, key, k) || key(x) == k
  {
    var t := s + [x];
    if KeyIn(s, key, k) {
      var j :| 0 <= j < |s| && key(s[j]) == k;
      assert t[j] == s[j];
    }
    if key(x) == k {
      assert t[|s|] == x;
    }
    if KeyIn(t, key, k) {
      var j :| 0 <= j < |t| && key(t[j]) == k;
      if j < |s| { assert t[j] == s[j]; }
    }
  }

  /** Overwriting an element with one of the same key leaves the key set alone. */
  lemma KeyInUpdateSameKey<T, K>(s: seq<T>, i: int, x: T, key: T -> K, k: K)
    requires 0 <= i < |s| && key(x) == key(s[i])
    ensures KeyIn(s[i := x], key, k) <==> KeyIn(s, key, k)
  {
    var t := s[i := x];
    if KeyIn(s, key, k) {
      var j :| 0 <= j < |s| && key(s[j]) == k;
      assert key(t[j]) == k;
    }
    if KeyIn(t, key, k) {
      var j :| 0 <= j < |t| && key(t[j]) == k;
      assert key(s[j]) == k;
    }
  }

  lemma DistinctUpdateSameKey<T, K>(s: seq<T>, i: int, x: T, key: T -> K)
    requires 0 <= i < |s| && key(x) == key(s[i]) && Distinct(s, key)
    ensures Distinct(s[i := x], key)
  {
    DistinctUpdate(s, i, x, key);
  }

  /** A key survives filtering exactly when some element carrying it is kept. */
  lemma KeyInFilter<T(!new), K>(s: seq<T>, p: T -> bool, key: T -> K, k: K)
    ensures KeyIn(Filter(s, p), key, k) <==> exists j :: 0 <= j < |s| && key(s[j]) == k && p(s[j])
  {
    var r := Filter(s, p);
    if KeyIn(r, key, k) {
      var j :| 0 <= j < |r| && key(r[j]) == k;
      assert r[j] in s;
      var m :| 0 <= m < |s| && s[m] == r[j];
      assert key(s[m]) == k && p(s[m]);
    }
    if exists j :: 0 <= j < |s| && key(s[j]) == k && p(s[j]) {
      var j :| 0 <= j < |s| && key(s[j]) == k && p(s[j]);
      assert s[j] in r;
      var m :| 0 <= m < |r| && r[m] == s[j];
      assert key(r[m]) == k;
    }
  }
}
