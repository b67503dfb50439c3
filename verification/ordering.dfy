/** The orderings the queries sort by (`ORDER BY` a name, a price or a
    timestamp, ascending or descending) and an insertion sort that realises
    them. Ties keep the order of the input sequence, which stands for the
    database's own unspecified scan order: no contract promises anything about
    the relative order of rows whose keys are equal. */
module Ordering {

  /** A sort key: a number (price in cents, timestamp) or a text (a name). */
  datatype Key = Num(n: int) | Text(s: string)

  /** Lexicographic order on strings by character code. */
  predicate TextLe(a: string, b: string)
    decreases |a|
  {
    |a| == 0 || (|b| > 0 && (a[0] < b[0] || (a[0] == b[0] && TextLe(a[1..], b[1..]))))
  }

  lemma {:induction false} TextLeTotal(a: string, b: string)
    ensures TextLe(a, b) || TextLe(b, a)
    decreases |a|
  {
    if |a| > 0 && |b| > 0 && a[0] == b[0] {
      TextLeTotal(a[1..], b[1..]);
    }
  }

  lemma {:induction false} TextLeTransitive(a: string, b: string, c: string)
    requires TextLe(a, b) && TextLe(b, c)
    ensures TextLe(a, c)
    decreases |a|
  {
    if |a| > 0 && a[0] == b[0] && b[0] == c[0] {
      TextLeTransitive(a[1..], b[1..], c[1..]);
    }
  }

  /** A total preorder on keys: numbers by value, texts lexicographically,
      every number before every text. */
  predicate KeyLe(a: Key, b: Key) {
    match (a, b)
    case (Num(x), Num(y)) => x <= y
    case (Text(x), Text(y)) => TextLe(x, y)
    case (Num(_), Text(_)) => true
    case (Text(_), Num(_)) => false
  }

  lemma KeyLeTotal(a: Key, b: Key)
    ensures KeyLe(a, b) || KeyLe(b, a)
  {
    if a.Text? && b.Text? {
      TextLeTotal(a.s, b.s);
    }
  }

  lemma KeyLeTransitive(a: Key, b: Key, c: Key)
    requires KeyLe(a, b) && KeyLe(b, c)
    ensures KeyLe(a, c)
  {
    if a.Text? && b.Text? && c.Text? {
      TextLeTransitive(a.s, b.s, c.s);
    }
  }

  /** `a` may precede `b` when sorting by `key`, descending when `desc`. */
  predicate InOrder<T>(key: T -> Key, desc: bool, a: T, b: T) {
    if desc then KeyLe(key(b), key(a)) else KeyLe(key(a), key(b))
  }

  /** Every element of `s` may precede every later one. */
  predicate SortedBy<T>(key: T -> Key, desc: bool, s: seq<T>) {
    forall i, j :: 0 <= i < j < |s| ==> InOrder(key, desc, s[i], s[j])
  }

  lemma InOrderTotal<T>(key: T -> Key, desc: bool, a: T, b: T)
    ensures InOrder(key, desc, a, b) || InOrder(key, desc, b, a)
  {
    KeyLeTotal(key(a), key(b));
  }

  lemma InOrderTransitive<T>(key: T -> Key, desc: bool, a: T, b: T, c: T)
    requires InOrder(key, desc, a, b) && InOrder(key, desc, b, c)
    ensures InOrder(key, desc, a, c)
  {
    if desc {
      KeyLeTransitive(key(c), key(b), key(a));
    } else {
      KeyLeTransitive(key(a), key(b), key(c));
    }
  }

  /** `s` with `x` placed before the first element it may precede. */
  function Insert<T>(key: T -> Key, desc: bool, x: T, s: seq<T>): (r: seq<T>)
    requires SortedBy(key, desc, s)
    ensures SortedBy(key, desc, r)
    ensures multiset(r) == multiset(s) + multiset{x}
    ensures |r| == |s| + 1
    decreases |s|
  {
    if |s| == 0 then [x]
    else if InOrder(key, desc, x, s[0]) then
      forall j | 0 <= j < |s|
        ensures InOrder(key, desc, x, s[j])
      {
        if j > 0 {
          InOrderTransitive(key, desc, x, s[0], s[j]);
        }
      }
      ConsSorted(key, desc, x, s);
      [x] + s
    else
      InOrderTotal(key, desc, x, s[0]);
      var rest := Insert(key, desc, x, s[1..]);
      assert s == [s[0]] + s[1..];
      forall j | 0 <= j < |rest|
        ensures InOrder(key, desc, s[0], rest[j])
      {
        assert rest[j] in multiset(rest);
        if rest[j] != x {
          assert rest[j] in multiset(s[1..]);
          var k :| 0 <= k < |s[1..]| && s[1..][k] == rest[j];
          assert s[k + 1] == rest[j];
        }
      }
      ConsSorted(key, desc, s[0], rest);
      [s[0]] + rest
  }

  /** A sorted sequence stays sorted behind an element that may precede all
      of it. */
  lemma ConsSorted<T>(key: T -> Key, desc: bool, x: T, s: seq<T>)
    requires SortedBy(key, desc, s)
    requires forall j :: 0 <= j < |s| ==> InOrder(key, desc, x, s[j])
    ensures SortedBy(key, desc, [x] + s)
  {
    forall i, j | 0 <= i < j < |s| + 1
      ensures InOrder(key, desc, ([x] + s)[i], ([x] + s)[j])
    {
      assert ([x] + s)[j] == s[j - 1];
      if i > 0 {
        assert ([x] + s)[i] == s[i - 1];
      }
    }
  }

  /** A sorted permutation of `s` (insertion sort). */
  function Sort<T>(key: T -> Key, desc: bool, s: seq<T>): (r: seq<T>)
    ensures SortedBy(key, desc, r)
    ensures multiset(r) == multiset(s)
    ensures |r| == |s|
    decreases |s|
  {
    if |s| == 0 then []
    else
      assert s == [s[0]] + s[1..];
      Insert(key, desc, s[0], Sort(key, desc, s[1..]))
  }

  /** No two elements of `s` share an `id`. */
  predicate DistinctBy<T>(id: T -> int, s: seq<T>) {
    forall i, j :: 0 <= i < j < |s| ==> id(s[i]) != id(s[j])
  }

  lemma {:induction false} InsertDistinct<T>(key: T -> Key, desc: bool, id: T -> int, x: T, s: seq<T>)
    requires SortedBy(key, desc, s) && DistinctBy(id, s)
    requires forall i :: 0 <= i < |s| ==> id(s[i]) != id(x)
    ensures DistinctBy(id, Insert(key, desc, x, s))
    decreases |s|
  {
    if |s| > 0 && !InOrder(key, desc, x, s[0]) {
      var rest := Insert(key, desc, x, s[1..]);
      InsertDistinct(key, desc, id, x, s[1..]);
      forall j | 0 <= j < |rest|
        ensures id(s[0]) != id(rest[j])
      {
        assert rest[j] in multiset(rest);
        if rest[j] != x {
          assert rest[j] in multiset(s[1..]);
          var k :| 0 <= k < |s[1..]| && s[1..][k] == rest[j];
          assert s[k + 1] == rest[j];
        }
      }
      assert Insert(key, desc, x, s) == [s[0]] + rest;
      ConsDistinct(id, s[0], rest);
    } else if |s| > 0 {
      ConsDistinct(id, x, s);
    }
  }

  /** An element whose `id` no element of `s` has can go in front of `s`. */
  lemma ConsDistinct<T>(id: T -> int, x: T, s: seq<T>)
    requires DistinctBy(id, s)
    requires forall j :: 0 <= j < |s| ==> id(s[j]) != id(x)
    ensures DistinctBy(id, [x] + s)
  {
    forall i, j | 0 <= i < j < |s| + 1
      ensures id(([x] + s)[i]) != id(([x] + s)[j])
    {
      assert ([x] + s)[j] == s[j - 1];
      if i > 0 {
        assert ([x] + s)[i] == s[i - 1];
      }
    }
  }

  /** Sorting never makes two elements share an `id`: it only permutes. */
  lemma {:induction false} SortDistinct<T>(key: T -> Key, desc: bool, id: T -> int, s: seq<T>)
    requires DistinctBy(id, s)
    ensures DistinctBy(id, Sort(key, desc, s))
    decreases |s|
  {
    if |s| > 0 {
      var rest := Sort(key, desc, s[1..]);
      SortDistinct(key, desc, id, s[1..]);
      forall j | 0 <= j < |rest|
        ensures id(rest[j]) != id(s[0])
      {
        assert rest[j] in multiset(s[1..]);
        var k :| 0 <= k < |s[1..]| && s[1..][k] == rest[j];
        assert s[k + 1] == rest[j];
      }
      InsertDistinct(key, desc, id, s[0], rest);
    }
  }

  /** The first `n` elements of `s` sorted by `key` (`ORDER BY key LIMIT n`):
      as many as there are up to `n`, in order, drawn from `s`, and none of the
      elements left behind may precede one that was kept. */
  function TopN<T>(key: T -> Key, desc: bool, s: seq<T>, n: nat): (r: seq<T>)
    ensures |r| == if |s| < n then |s| else n
    ensures SortedBy(key, desc, r)
    ensures multiset(r) <= multiset(s)
    ensures forall x, i :: x in multiset(s) - multiset(r) && 0 <= i < |r| ==> InOrder(key, desc, r[i], x)
  {
    var sorted := Sort(key, desc, s);
    var k := if |s| < n then |s| else n;
    SplitSorted(key, desc, sorted, k);
    sorted[..k]
  }

  /** Cutting a sorted sequence leaves every element of the front before
      every element of the back. */
  lemma SplitSorted<T>(key: T -> Key, desc: bool, s: seq<T>, k: nat)
    requires SortedBy(key, desc, s) && k <= |s|
    ensures multiset(s[..k]) + multiset(s[k..]) == multiset(s)
    ensures forall x, i :: x in multiset(s[k..]) && 0 <= i < k ==> InOrder(key, desc, s[i], x)
  {
    assert s == s[..k] + s[k..];
    forall x, i | x in multiset(s[k..]) && 0 <= i < k
      ensures InOrder(key, desc, s[i], x)
    {
      var j :| 0 <= j < |s[k..]| && s[k..][j] == x;
      assert s[k + j] == x;
    }
  }
}
