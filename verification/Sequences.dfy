/** First matches, edits at a position, and what they do to keys. */
module Sequences {
  import opened Types


  /** The position of the first element satisfying p, or the length. */
  function First<T>(s: seq<T>, p: T -> bool): (i: nat)
    ensures i <= |s|
    ensures forall j :: 0 <= j < i ==> !p(s[j])
    ensures i < |s| ==> p(s[i])
  {
    if s == [] then 0 else if p(s[0]) then 0 else 1 + First(s[1..], p)
  }

  function RemoveAt<T>(s: seq<T>, i: nat): (r: seq<T>)
    requires i < |s|
  {
    s[..i] + s[i + 1..]
  }

  function InsertAt<T>(s: seq<T>, i: nat, x: T): (r: seq<T>)
    requires i <= |s|
  {
    s[..i] + [x] + s[i..]
  }

  /** No two positions carry the same key. */
  ghost predicate Distinct<T, K>(s: seq<T>, key: T -> K) {
    forall i, j :: 0 <= i < j < |s| ==> key(s[i]) != key(s[j])
  }

  function Keys<T, K(==)>(s: seq<T>, key: T -> K): set<K> {
    set i | 0 <= i < |s| :: key(s[i])
  }

  ghost predicate NoDup<T>(s: seq<T>) {
    forall i, j :: 0 <= i < j < |s| ==> s[i] != s[j]
  }

  /** The keys are in strictly ascending order. */
  ghost predicate Ascending<T>(s: seq<T>, key: T -> Id) {
    forall i, j :: 0 <= i < j < |s| ==> key(s[i]) < key(s[j])
  }

  lemma KeyIn<T, K>(s: seq<T>, key: T -> K, i: nat)
    requires i < |s|
    ensures key(s[i]) in Keys(s, key)
  {
  }

  lemma InsertKeys<T, K>(s: seq<T>, key: T -> K, i: nat, x: T)
    requires i <= |s|
    ensures Keys(InsertAt(s, i, x), key) == Keys(s, key) + {key(x)}
    ensures Distinct(s, key) && key(x) !in Keys(s, key) ==> Distinct(InsertAt(s, i, x), key)
  {
    var r := InsertAt(s, i, x);
    assert r[i] == x;
    assert forall j :: 0 <= j < i ==> r[j] == s[j];
    assert forall j :: i <= j < |s| ==> r[j + 1] == s[j];
    forall k | k in Keys(s, key) + {key(x)} ensures k in Keys(r, key) {
      if k != key(x) {
        var j :| 0 <= j < |s| && key(s[j]) == k;
        assert key(r[if j < i then j else j + 1]) == k;
      }
    }
    if Distinct(s, key) && key(x) !in Keys(s, key) {
      forall a, b | 0 <= a < b < |r| ensures key(r[a]) != key(r[b]) {
        if a != i { KeyIn(s, key, if a < i then a else a - 1); }
        if b != i { KeyIn(s, key, if b < i then b else b - 1); }
      }
    }
  }

  lemma RemoveKeys<T, K>(s: seq<T>, key: T -> K, i: nat)
    requires i < |s|
    ensures Keys(s, key) - {key(s[i])} <= Keys(RemoveAt(s, i), key) <= Keys(s, key)
    ensures Distinct(s, key) ==>
      Distinct(RemoveAt(s, i), key) && Keys(RemoveAt(s, i), key) == Keys(s, key) - {key(s[i])}
  {
    var r := RemoveAt(s, i);
    assert forall j :: 0 <= j < |r| ==> r[j] == s[if j < i then j else j + 1];
    forall k | k in Keys(s, key) - {key(s[i])} ensures k in Keys(r, key) {
      var j :| 0 <= j < |s| && key(s[j]) == k;
      assert key(r[if j < i then j else j - 1]) == k;
    }
  }

  lemma ReplaceKeys<T, K>(s: seq<T>, key: T -> K, i: nat, x: T)
    requires i < |s| && key(x) == key(s[i])
    ensures Keys(s[i := x], key) == Keys(s, key)
    ensures Distinct(s, key) ==> Distinct(s[i := x], key)
  {
    var r := s[i := x];
    assert forall j :: 0 <= j < |s| ==> key(r[j]) == key(s[j]);
    forall k | k in Keys(s, key) ensures k in Keys(r, key) {
      var j :| 0 <= j < |s| && key(s[j]) == k;
      assert key(r[j]) == k;
    }
  }

  /** An entry replaced by one of another key leaves the keys unique exactly when that key is new. */
  lemma ReplaceDistinct<T, K>(s: seq<T>, key: T -> K, i: nat, x: T)
    requires Distinct(s, key) && i < |s|
    ensures Distinct(s[i := x], key) <==> key(x) == key(s[i]) || key(x) !in Keys(s, key)
  {
    var r := s[i := x];
    if key(x) in Keys(s, key) && key(x) != key(s[i]) {
      var j :| 0 <= j < |s| && key(s[j]) == key(x);
      assert key(r[j]) == key(r[i]) && i != j;
    } else if key(x) !in Keys(s, key) {
      forall a, b | 0 <= a < b < |r| ensures key(r[a]) != key(r[b]) {
        KeyIn(s, key, a);
        KeyIn(s, key, b);
      }
    }
  }

  /** Sequences with pointwise equal keys have the same keys. */
  lemma SameKeys<T, K>(s: seq<T>, r: seq<T>, key: T -> K)
    requires |s| == |r| && forall i :: 0 <= i < |s| ==> key(s[i]) == key(r[i])
    ensures Keys(s, key) == Keys(r, key)
    ensures Distinct(s, key) ==> Distinct(r, key)
  {
    assert forall i :: 0 <= i < |s| ==> key(s[i]) in Keys(r, key) && key(r[i]) in Keys(s, key);
  }

  /** The elements other than x, in order. */
  function Without<T(==,!new)>(s: seq<T>, x: T): (r: seq<T>)
    ensures x !in r
    ensures forall y :: y in r <==> y in s && y != x
    ensures |r| <= |s| && (x in s ==> |r| < |s|)
  {
    if s == [] then [] else if s[0] == x then Without(s[1..], x) else [s[0]] + Without(s[1..], x)
  }

  lemma {:induction false} WithoutAbsent<T(!new)>(s: seq<T>, x: T)
    requires x !in s
    ensures Without(s, x) == s
  {
    if s != [] {
      WithoutAbsent(s[1..], x);
    }
  }

  lemma {:induction false} WithoutConcat<T(!new)>(s: seq<T>, t: seq<T>, x: T)
    ensures Without(s + t, x) == Without(s, x) + Without(t, x)
  {
    if s == [] {
      assert s + t == t;
    } else {
      assert (s + t)[1..] == s[1..] + t;
      WithoutConcat(s[1..], t, x);
    }
  }

  lemma {:induction false} WithoutNoDup<T(!new)>(s: seq<T>, x: T)
    requires NoDup(s)
    ensures NoDup(Without(s, x))
  {
    if s != [] {
      WithoutNoDup(s[1..], x);
      assert s[0] !in s[1..];
    }
  }
}
