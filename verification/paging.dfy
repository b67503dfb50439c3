/** `LIMIT`/`OFFSET` pagination and the page count derived from a total. */
module Paging {

  function Min(a: int, b: int): int {
    if a < b then a else b
  }

  function Max(a: int, b: int): int {
    if a < b then b else a
  }

  /** The rows `LIMIT limit OFFSET offset` returns from `s`: those at
      positions `offset`, `offset + 1`, ... up to `limit` of them. */
  function Window<T>(s: seq<T>, offset: nat, limit: nat): (r: seq<T>)
    ensures |r| <= limit
    ensures |r| == if offset >= |s| then 0 else Min(limit, |s| - offset)
    ensures forall i :: 0 <= i < |r| ==> r[i] == s[offset + i]
  {
    if offset >= |s| then [] else s[offset..offset + Min(limit, |s| - offset)]
  }

  /** `ceil(a / b)` for a count `a` and a positive page size `b`: the fewest
      pages of `b` rows that hold `a` rows. */
  function CeilDiv(a: nat, b: nat): (r: nat)
    requires b > 0
    ensures r * b >= a
    ensures r == 0 || (r - 1) * b < a
  {
    var q := (a + b - 1) / b;
    assert q * b <= a + b - 1 < q * b + b;
    q
  }

  /** The first `n` pages of `s`, each `limit` rows, laid end to end. */
  function ConcatPages<T>(s: seq<T>, limit: nat, n: nat): seq<T>
  {
    if n == 0 then [] else ConcatPages(s, limit, n - 1) + Window(s, (n - 1) * limit, limit)
  }

  /** Pages follow one another without gap or overlap: the first `n` pages
      are exactly the first `n * limit` rows. */
  lemma {:induction false} ConcatPagesPrefix<T>(s: seq<T>, limit: nat, n: nat)
    ensures ConcatPages(s, limit, n) == s[..Min(n * limit, |s|)]
  {
    if n > 0 {
      var lo := (n - 1) * limit;
      MulStep(n, limit);
      ConcatPagesPrefix(s, limit, n - 1);
      assert ConcatPages(s, limit, n - 1) == s[..Min(lo, |s|)];
      PrefixThenWindow(s, lo, limit);
    }
  }

  lemma MulStep(n: nat, limit: nat)
    requires n > 0
    ensures n * limit == (n - 1) * limit + limit
  {
  }

  lemma PrefixThenWindow<T>(s: seq<T>, lo: nat, limit: nat)
    ensures s[..Min(lo, |s|)] + Window(s, lo, limit) == s[..Min(lo + limit, |s|)]
  {
    if lo < |s| {
      assert s[..Min(lo + limit, |s|)] == s[..lo] + s[lo..lo + Min(limit, |s| - lo)];
    }
  }

  /** Reading every page from 1 to `CeilDiv(|s|, limit)` reproduces `s`. */
  lemma AllPagesCover<T>(s: seq<T>, limit: nat)
    requires limit > 0
    ensures ConcatPages(s, limit, CeilDiv(|s|, limit)) == s
  {
    ConcatPagesPrefix(s, limit, CeilDiv(|s|, limit));
  }
}
