/** Python's `sorted` on string keys, ascending or (with `reverse=True`)
    descending: `<=` on str compares code point by code point, with a
    proper prefix first. */
module Sorting {

  predicate LexLe(a: string, b: string)
    decreases |a|
  {
    a == [] || (b != [] && (a[0] < b[0] || (a[0] == b[0] && LexLe(a[1..], b[1..]))))
  }

  lemma {:induction false} LexLeTotal(a: string, b: string)
    ensures LexLe(a, b) || LexLe(b, a)
    decreases |a|
  {
    if a != [] && b != [] && a[0] == b[0] {
      LexLeTotal(a[1..], b[1..]);
    }
  }

  lemma {:induction false} LexLeTrans(a: string, b: string, c: string)
    requires LexLe(a, b) && LexLe(b, c)
    ensures LexLe(a, c)
    decreases |a|
  {
    if a != [] && a[0] == b[0] && b[0] == c[0] {
      LexLeTrans(a[1..], b[1..], c[1..]);
    }
  }

  /** Python's string order is antisymmetric, so together with the two
      lemmas above it is a total order. */
  lemma {:induction false} LexLeAntisym(a: string, b: string)
    requires LexLe(a, b) && LexLe(b, a)
    ensures a == b
    decreases |a|
  {
    if a != [] {
      LexLeAntisym(a[1..], b[1..]);
      assert a == [a[0]] + a[1..] && b == [b[0]] + b[1..];
    }
  }

  /** Two keys in the order the sort puts them. */
  predicate InOrder(a: string, b: string, descending: bool) {
    if descending then LexLe(b, a) else LexLe(a, b)
  }

  lemma InOrderTotal(a: string, b: string, descending: bool)
    ensures InOrder(a, b, descending) || InOrder(b, a, descending)
  {
    LexLeTotal(a, b);
  }

  lemma InOrderTrans(a: string, b: string, c: string, descending: bool)
    requires InOrder(a, b, descending) && InOrder(b, c, descending)
    ensures InOrder(a, c, descending)
  {
    if descending { LexLeTrans(c, b, a); } else { LexLeTrans(a, b, c); }
  }

  predicate SortedBy<T>(s: seq<T>, key: T -> string, descending: bool) {
    forall i, j :: 0 <= i < j < |s| ==> InOrder(key(s[i]), key(s[j]), descending)
  }

  /** Insert `x` before the first element it may precede, so that it stays
      ahead of elements with an equal key. */
  function InsertBy<T>(x: T, s: seq<T>, key: T -> string, descending: bool): (r: seq<T>)
    requires SortedBy(s, key, descending)
    ensures SortedBy(r, key, descending)
    ensures multiset(r) == multiset(s) + multiset{x}
    decreases |s|
  {
    if s == [] then [x]
    else if InOrder(key(x), key(s[0]), descending) then
      InsertFront(x, s, key, descending);
      [x] + s
    else
      InOrderTotal(key(x), key(s[0]), descending);
      var rest := InsertBy(x, s[1..], key, descending);
      KeepFront(s[0], rest, x, s[1..], key, descending);
      assert s == [s[0]] + s[1..];
      [s[0]] + rest
  }

  lemma InsertFront<T>(x: T, s: seq<T>, key: T -> string, descending: bool)
    requires SortedBy(s, key, descending) && s != [] && InOrder(key(x), key(s[0]), descending)
    ensures SortedBy([x] + s, key, descending)
  {
    var r := [x] + s;
    forall i, j | 0 <= i < j < |r|
      ensures InOrder(key(r[i]), key(r[j]), descending)
    {
      assert r[j] == s[j - 1];
      if i == 0 {
        if j > 1 { InOrderTrans(key(x), key(s[0]), key(s[j - 1]), descending); }
      } else {
        assert r[i] == s[i - 1];
      }
    }
  }

  /** `y` may stay in front of a sorted `rest` that holds `x` and the
      elements after `y`. */
  lemma KeepFront<T>(y: T, rest: seq<T>, x: T, tail: seq<T>, key: T -> string, descending: bool)
    requires SortedBy(rest, key, descending) && SortedBy([y] + tail, key, descending)
    requires multiset(rest) == multiset(tail) + multiset{x}
    requires InOrder(key(y), key(x), descending)
    ensures SortedBy([y] + rest, key, descending)
  {
    var r := [y] + rest;
    forall i, j | 0 <= i < j < |r|
      ensures InOrder(key(r[i]), key(r[j]), descending)
    {
      var z := rest[j - 1];
      assert r[j] == z;
      if i == 0 {
        assert z in multiset(rest);
        if z != x {
          assert z in multiset(tail);
          var k :| 0 <= k < |tail| && tail[k] == z;
          assert ([y] + tail)[0] == y && ([y] + tail)[k + 1] == z;
        }
      } else {
        assert r[i] == rest[i - 1];
      }
    }
  }

  /** `sorted(s, key=key, reverse=descending)`: an insertion sort. */
  function SortBy<T>(s: seq<T>, key: T -> string, descending: bool): (r: seq<T>)
    ensures SortedBy(r, key, descending)
    ensures multiset(r) == multiset(s)
    decreases |s|
  {
    if s == [] then []
    else
      assert s == [s[0]] + s[1..];
      InsertBy(s[0], SortBy(s[1..], key, descending), key, descending)
  }
}
