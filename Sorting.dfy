/**
 * `Array.prototype.sort` with a comparator that compares one string key of
 * each element (`key(a).localeCompare(key(b))`, or with `a` and `b` swapped
 * for descending order). The engine's sort is stable, so its result is fully
 * determined; `SortBy` is a reference definition of that result (insertion
 * sort) with its three properties proved: sorted, a permutation, stable.
 */
module Sorting {
  import opened Text

  /** `x` may stand before `y` in the sorted output. */
  predicate InOrder<T>(key: T -> string, desc: bool, x: T, y: T) {
    if desc then StrLe(key(y), key(x)) else StrLe(key(x), key(y))
  }

  predicate SortedBy<T>(key: T -> string, desc: bool, s: seq<T>) {
    forall i, j :: 0 <= i < j < |s| ==> InOrder(key, desc, s[i], s[j])
  }

  /** The elements of `s` whose key is `k`, in their order in `s`. */
  function WithKey<T>(key: T -> string, s: seq<T>, k: string): (r: seq<T>)
    ensures |r| <= |s|
  {
    if s == [] then [] else (if key(s[0]) == k then [s[0]] else []) + WithKey(key, s[1..], k)
  }

  lemma InOrderTotal<T>(key: T -> string, desc: bool, x: T, y: T)
    ensures InOrder(key, desc, x, y) || InOrder(key, desc, y, x)
  {
    StrLeTotal(key(x), key(y));
  }

  lemma InOrderTransitive<T>(key: T -> string, desc: bool, x: T, y: T, z: T)
    requires InOrder(key, desc, x, y) && InOrder(key, desc, y, z)
    ensures InOrder(key, desc, x, z)
  {
    if desc { StrLeTransitive(key(z), key(y), key(x)); }
    else { StrLeTransitive(key(x), key(y), key(z)); }
  }

  /** Places `x` before the first element it may precede. */
  function Insert<T>(key: T -> string, desc: bool, x: T, t: seq<T>): (r: seq<T>)
    ensures multiset(r) == multiset(t) + multiset{x}
    ensures |r| == |t| + 1
  {
    if t == [] || InOrder(key, desc, x, t[0]) then [x] + t
    else
      assert t == [t[0]] + t[1..];
      [t[0]] + Insert(key, desc, x, t[1..])
  }

  /** The array after `sort`: each element inserted into the sorted rest. */
  function SortBy<T>(s: seq<T>, key: T -> string, desc: bool): (r: seq<T>)
    ensures multiset(r) == multiset(s)
    ensures |r| == |s|
  {
    if s == [] then []
    else
      assert s == [s[0]] + s[1..];
      Insert(key, desc, s[0], SortBy(s[1..], key, desc))
  }

  lemma {:induction false} InsertSorted<T>(key: T -> string, desc: bool, x: T, t: seq<T>)
    requires SortedBy(key, desc, t)
    ensures SortedBy(key, desc, Insert(key, desc, x, t))
  {
    var r := Insert(key, desc, x, t);
    if t == [] || InOrder(key, desc, x, t[0]) {
      forall i, j | 0 <= i < j < |r| ensures InOrder(key, desc, r[i], r[j]) {
        if i == 0 && j > 1 { InOrderTransitive(key, desc, x, t[0], t[j - 1]); }
      }
    } else {
      var rest := Insert(key, desc, x, t[1..]);
      InsertSorted(key, desc, x, t[1..]);
      InOrderTotal(key, desc, x, t[0]);
      forall j | 0 <= j < |rest| ensures InOrder(key, desc, t[0], rest[j]) {
        assert rest[j] in multiset(rest);
        if rest[j] != x {
          assert rest[j] in multiset(t[1..]);
          var m :| 0 <= m < |t[1..]| && t[1..][m] == rest[j];
          assert t[m + 1] == rest[j];
        }
      }
      assert r == [t[0]] + rest;
    }
  }

  /** The result of `SortBy` is in order. */
  lemma {:induction false} SortBySorted<T>(s: seq<T>, key: T -> string, desc: bool)
    ensures SortedBy(key, desc, SortBy(s, key, desc))
  {
    if s != [] {
      SortBySorted(s[1..], key, desc);
      InsertSorted(key, desc, s[0], SortBy(s[1..], key, desc));
    }
  }

  /** `WithKey` keeps every element with key `k` and adds no other. */
  lemma {:induction false} WithKeyMembers<T>(key: T -> string, s: seq<T>, k: string)
    ensures forall i :: 0 <= i < |WithKey(key, s, k)| ==>
      WithKey(key, s, k)[i] in s && key(WithKey(key, s, k)[i]) == k
    ensures forall i :: 0 <= i < |s| && key(s[i]) == k ==> s[i] in WithKey(key, s, k)
  {
    if s != [] {
      WithKeyMembers(key, s[1..], k);
      assert forall i :: 1 <= i < |s| ==> s[i] == s[1..][i - 1];
    }
  }

  lemma WithKeyCons<T>(key: T -> string, x: T, s: seq<T>, k: string)
    ensures WithKey(key, [x] + s, k) == (if key(x) == k then [x] else []) + WithKey(key, s, k)
  {
    assert ([x] + s)[1..] == s;
  }

  lemma SwapPastEmpty<T>(a: seq<T>, b: seq<T>, c: seq<T>)
    requires a == [] || b == []
    ensures a + (b + c) == b + (a + c)
  {
  }

  lemma {:induction false} InsertStable<T>(key: T -> string, desc: bool, x: T, t: seq<T>, k: string)
    ensures WithKey(key, Insert(key, desc, x, t), k) == WithKey(key, [x] + t, k)
  {
    if t != [] && !InOrder(key, desc, x, t[0]) {
      var rest := Insert(key, desc, x, t[1..]);
      var a0: seq<T> := if key(t[0]) == k then [t[0]] else [];
      var ax: seq<T> := if key(x) == k then [x] else [];
      var tail := WithKey(key, t[1..], k);
      InsertStable(key, desc, x, t[1..], k);
      WithKeyCons(key, t[0], rest, k);
      WithKeyCons(key, x, t[1..], k);
      assert WithKey(key, Insert(key, desc, x, t), k) == a0 + (ax + tail);
      WithKeyCons(key, x, t, k);
      assert t == [t[0]] + t[1..];
      WithKeyCons(key, t[0], t[1..], k);
      assert WithKey(key, [x] + t, k) == ax + (a0 + tail);
      StrLeReflexive(key(x));
      assert key(x) != key(t[0]);
      SwapPastEmpty(a0, ax, tail);
    }
  }

  /** `SortBy` is stable: elements with equal keys keep their relative order. */
  lemma {:induction false} SortByStable<T>(s: seq<T>, key: T -> string, desc: bool, k: string)
    ensures WithKey(key, SortBy(s, key, desc), k) == WithKey(key, s, k)
  {
    if s != [] {
      SortByStable(s[1..], key, desc, k);
      InsertStable(key, desc, s[0], SortBy(s[1..], key, desc), k);
      WithKeyCons(key, s[0], SortBy(s[1..], key, desc), k);
      WithKeyCons(key, s[0], s[1..], k);
      assert s == [s[0]] + s[1..];
    }
  }
}
