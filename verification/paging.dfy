/** Page arithmetic shared by every paginated search: the skip a page number
    stands for, the window a cursor returns after `.skip(..).limit(..)`, and
    the page count the server reports. */
module Paging {
  import opened Basics

  /** `(page - 1) * limit`, the number of matches before page `page`, built
      up one page at a time from page 1 so that the facts about windows and
      page counts stay linear; `SkipIsProduct` gives the closed form. */
  function SkipOf(page: int, limit: int): (skip: int)
    ensures page >= 1 && limit >= 0 ==> skip >= 0
    decreases if page >= 1 then page - 1 else 1 - page
  {
    if page == 1 then 0
    else if page > 1 then SkipOf(page - 1, limit) + limit
    else SkipOf(page + 1, limit) - limit
  }

  lemma {:induction false} SkipIsProduct(page: int, limit: int)
    ensures SkipOf(page, limit) == (page - 1) * limit
    decreases if page >= 1 then page - 1 else 1 - page
  {
    if page > 1 {
      SkipIsProduct(page - 1, limit);
    } else if page < 1 {
      SkipIsProduct(page + 1, limit);
    }
  }

  /** Later pages start no earlier. */
  lemma {:induction false} SkipIsMonotone(page: int, later: int, limit: int)
    requires page <= later && limit >= 0
    ensures SkipOf(page, limit) <= SkipOf(later, limit)
    decreases later - page
  {
    if later > page {
      SkipIsMonotone(page, later - 1, limit);
      SkipStep(later - 1, limit);
    }
  }

  /** Each page starts `limit` matches after the one before it. */
  lemma SkipStep(page: int, limit: int)
    ensures SkipOf(page + 1, limit) == SkipOf(page, limit) + limit
  {
  }

  /** A cursor's `.skip(skip).limit(limit)` over the matches `xs`, in their
      order; a limit of 0 means no limit. */
  function Window<T>(xs: seq<T>, skip: nat, limit: nat): (r: seq<T>)
    ensures |r| == if limit == 0 then Max(0, |xs| - skip) else Min(limit, Max(0, |xs| - skip))
    ensures forall i :: 0 <= i < |r| ==> r[i] == xs[skip + i]
  {
    if skip >= |xs| then []
    else if limit == 0 || skip + limit >= |xs| then xs[skip..]
    else xs[skip..skip + limit]
  }

  /** `Math.ceil(count / limit)` for a non-zero limit. For a positive limit
      it is the least number of pages of that size holding `count` items:
      the last page starts before the count and the page after it starts at
      or past it. A negative limit rounds the negative quotient up towards
      zero: minus the number of whole pages of size `-limit` in `count`. In this
      model the account search never reaches that case, since its search
      step fails on a negative limit before the count is taken; the store's
      real answer to a negative limit is not modelled. */
  function TotalPages(count: nat, limit: int): (pages: int)
    requires limit != 0
    ensures limit > 0 ==> 0 <= pages && SkipOf(pages, limit) < count <= SkipOf(pages + 1, limit)
    ensures limit < 0 ==> pages <= 0 && SkipOf(1 - pages, -limit) <= count < SkipOf(2 - pages, -limit)
  {
    if limit > 0 then
      var q := (count + limit - 1) / limit;
      CeilingBounds(count, limit);
      SkipIsProduct(q, limit);
      SkipIsProduct(q + 1, limit);
      q
    else
      var q := count / -limit;
      FloorBounds(count, -limit);
      SkipIsProduct(q + 1, -limit);
      SkipIsProduct(q + 2, -limit);
      -q
  }

  lemma CeilingBounds(count: nat, d: int)
    requires d > 0
    ensures var q := (count + d - 1) / d; 0 <= q && (q - 1) * d < count <= q * d
  {
    var q := (count + d - 1) / d;
    var r := (count + d - 1) % d;
    assert count + d - 1 == q * d + r;
    assert (q - 1) * d == q * d - d;
  }

  lemma FloorBounds(count: nat, d: int)
    requires d > 0
    ensures var q := count / d; 0 <= q && q * d <= count < (q + 1) * d
  {
    var q := count / d;
    var r := count % d;
    assert count == q * d + r;
    assert (q + 1) * d == q * d + d;
  }

  /** Pages `1..n` of `xs`, each `limit` long, concatenated. */
  function FirstPages<T>(xs: seq<T>, limit: nat, n: nat): seq<T> {
    if n == 0 then [] else FirstPages(xs, limit, n - 1) + Window(xs, SkipOf(n, limit), limit)
  }

  /** The first `n` pages are exactly the matches before page `n + 1`. */
  lemma {:induction false} FirstPagesArePrefix<T>(xs: seq<T>, limit: nat, n: nat)
    requires limit >= 1
    ensures FirstPages(xs, limit, n) == xs[..Min(SkipOf(n + 1, limit), |xs|)]
  {
    if n > 0 {
      FirstPagesArePrefix(xs, limit, n - 1);
      PrefixThenWindow(xs, SkipOf(n, limit), limit);
    }
  }

  /** The matches before a window followed by the window are the matches
      up to the window's end. */
  lemma PrefixThenWindow<T>(xs: seq<T>, skip: nat, limit: nat)
    requires limit >= 1
    ensures xs[..Min(skip, |xs|)] + Window(xs, skip, limit) == xs[..Min(skip + limit, |xs|)]
  {
    var w := Window(xs, skip, limit);
    var before := xs[..Min(skip, |xs|)];
    var after := xs[..Min(skip + limit, |xs|)];
    assert |before + w| == |after|;
    forall i | 0 <= i < |after|
      ensures (before + w)[i] == after[i]
    {
      if i >= |before| {
        assert (before + w)[i] == w[i - skip];
      }
    }
  }

  /** Reading pages `1..totalPages` in turn returns every match exactly
      once, in order. */
  lemma PagesCoverAllMatches<T>(xs: seq<T>, limit: nat)
    requires limit >= 1
    ensures FirstPages(xs, limit, TotalPages(|xs|, limit)) == xs
  {
    var n := TotalPages(|xs|, limit);
    FirstPagesArePrefix(xs, limit, n);
    assert xs[..|xs|] == xs;
  }

  /** The match at position `k` is shown on page `k / limit + 1`, at row
      `k % limit`, and that page is one of pages `1..totalPages`. */
  lemma PositionOnPage<T>(xs: seq<T>, limit: nat, k: nat)
    requires limit >= 1 && k < |xs|
    ensures var page := k / limit + 1;
      1 <= page <= TotalPages(|xs|, limit) &&
      k % limit < |Window(xs, SkipOf(page, limit), limit)| &&
      Window(xs, SkipOf(page, limit), limit)[k % limit] == xs[k]
  {
    var q, r := k / limit, k % limit;
    var page := q + 1;
    var pages := TotalPages(|xs|, limit);
    assert k == q * limit + r;
    SkipIsProduct(page, limit);
    if pages < page {
      SkipIsMonotone(pages + 1, page, limit);
      assert false;
    }
  }

  /** Asking for a page past the last returns nothing rather than failing. */
  lemma PastLastPageIsEmpty<T>(xs: seq<T>, limit: nat, page: int)
    requires limit >= 1 && page > TotalPages(|xs|, limit)
    ensures Window(xs, SkipOf(page, limit), limit) == []
  {
    SkipIsMonotone(TotalPages(|xs|, limit) + 1, page, limit);
  }

  /** Twelve matches read five at a time: page 2 holds matches 6 to 10, and
      there are 3 pages. */
  lemma TwelveMatchesFivePerPage<T>(xs: seq<T>)
    requires |xs| == 12
    ensures Window(xs, SkipOf(2, 5), 5) == xs[5..10]
    ensures TotalPages(|xs|, 5) == 3
  {
    assert SkipOf(3, 5) == 10 && SkipOf(4, 5) == 15;
  }
}
