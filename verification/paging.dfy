/**
The pagination of booking lists: three bookings per page, a page count from
the integer formula `(n - 1) // 3 + 1`, and page `p` shown as the slice
`[p * 3, p * 3 + 3)` of the list, clamped to its end as list slicing does.
*/
module Paging {

  function Min(a: int, b: int): int {
    if a <= b then a else b
  }

  /**
  The page count `(n - 1) // perPage + 1`. Floor division and Dafny's
  Euclidean division agree for a positive divisor, so the formula is kept as
  written; it is the ceiling of `n / perPage`, also for `n == 0`.
  */
  function TotalPages(n: nat, perPage: nat): (r: nat)
    requires perPage >= 1
    ensures (r - 1) * perPage < n <= r * perPage
  {
    var q, m := (n - 1) / perPage, (n - 1) % perPage;
    assert n - 1 == q * perPage + m && 0 <= m < perPage;
    q + 1
  }

  /** Page `page` (counted from 0) of `s`: at most `perPage` consecutive items. */
  function Page<T>(s: seq<T>, page: nat, perPage: nat): (r: seq<T>)
    ensures |r| <= perPage
    ensures page * perPage <= |s| ==> |r| == Min(perPage, |s| - page * perPage)
    ensures page * perPage >= |s| ==> r == []
    ensures forall i :: 0 <= i < |r| ==> page * perPage + i < |s| && r[i] == s[page * perPage + i]
  {
    var start := page * perPage;
    var end := start + perPage;
    s[Min(start, |s|)..Min(end, |s|)]
  }

  /** Pages `0 .. count - 1` of `s`, one after the other. */
  function JoinPages<T>(s: seq<T>, perPage: nat, count: nat): seq<T> {
    if count == 0 then [] else JoinPages(s, perPage, count - 1) + Page(s, count - 1, perPage)
  }

  /** The first `count` pages together are the prefix of `s` they cover. */
  lemma {:induction false} JoinPagesIsPrefix<T>(s: seq<T>, perPage: nat, count: nat)
    ensures JoinPages(s, perPage, count) == s[..Min(count * perPage, |s|)]
  {
    if count > 0 {
      JoinPagesIsPrefix(s, perPage, count - 1);
      var a := Min((count - 1) * perPage, |s|);
      var b := Min(count * perPage, |s|);
      assert (count - 1) * perPage + perPage == count * perPage;
      assert Page(s, count - 1, perPage) == s[a..b];
      assert s[..a] + s[a..b] == s[..b];
    }
  }

  /**
  The pages `0 .. TotalPages - 1` partition the list: together they are the
  whole list in order, none of them is empty, and every later page is empty.
  */
  lemma PagesPartition<T>(s: seq<T>, perPage: nat)
    requires perPage >= 1
    ensures JoinPages(s, perPage, TotalPages(|s|, perPage)) == s
    ensures forall p: nat :: p < TotalPages(|s|, perPage) ==> |Page(s, p, perPage)| > 0
    ensures forall p: nat :: p >= TotalPages(|s|, perPage) ==> Page(s, p, perPage) == []
  {
    var t := TotalPages(|s|, perPage);
    JoinPagesIsPrefix(s, perPage, t);
    assert s[..|s|] == s;
    forall p: nat | p < t ensures |Page(s, p, perPage)| > 0 {
      MulMonotone(p, t - 1, perPage);
    }
    forall p: nat | p >= t ensures Page(s, p, perPage) == [] {
      MulMonotone(t, p, perPage);
    }
  }

  lemma MulMonotone(a: int, b: int, k: nat)
    requires a <= b
    ensures a * k <= b * k
  {
  }
}
