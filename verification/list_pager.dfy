/** What the two list pages (users and students) share: the search box
    state, the query string a fetch sends, the Next/Previous page state
    machine and the row serial numbers. Each list keeps a search object,
    the page it shows, the page count the server last reported and whether
    the last answer was empty. */
module ListPager {
  import opened Basics
  import Numbers
  import Paging

  /** A search object or a query string, key to text. */
  type Query = map<string, string>

  /** The page size the server falls back to when no `limit` is sent. */
  const RowsPerPage := 5

  /** Every key whose value is empty (falsy) is dropped. */
  function FilterQuery(q: Query): (r: Query)
    ensures forall k :: k in r <==> k in q && q[k] != ""
    ensures forall k :: k in r ==> r[k] == q[k]
  {
    map k | k in q && q[k] != "" :: q[k]
  }

  /** `new URLSearchParams({...filteredQuery, page})`: the non-empty search
      fields and the page number, and nothing else. */
  function Params(q: Query, page: int): (r: Query)
    ensures "page" in r && r["page"] == Numbers.IntToString(page)
    ensures forall k :: k != "page" ==> (k in r <==> k in q && q[k] != "")
    ensures forall k :: k != "page" && k in r ==> r[k] == q[k]
  {
    FilterQuery(q)["page" := Numbers.IntToString(page)]
  }

  /** A fetch with an empty search object sends the page number alone. */
  lemma EmptySearchSendsPageOnly(page: int)
    ensures Params(map[], page) == map["page" := Numbers.IntToString(page)]
  {
  }

  datatype Pager = Pager(search: Query, currentPage: int, totalPages: int, empty: bool)

  /** A pager state after a handler, and the query string of the fetch it
      started, if any. */
  datatype Step = Step(pager: Pager, fetch: Option<Query>)

  /** The first render: page 1 of 1, and a fetch of page 1 with the blank
      search object. */
  function Start(blank: Query): (s: Step)
    ensures s.pager.search == blank
    ensures s.pager.currentPage == 1 && s.pager.totalPages == 1 && !s.pager.empty
    ensures s.fetch == Some(Params(blank, s.pager.currentPage))
  {
    Step(Pager(blank, 1, 1, false), Some(Params(blank, 1)))
  }

  /** `handleSearchChange`: the input's `name` receives its text; nothing
      is fetched. */
  function SearchChange(p: Pager, name: string, value: string): (t: Pager)
    ensures name in t.search && t.search[name] == value
    ensures forall k :: k != name ==> (k in t.search <==> k in p.search)
    ensures forall k :: k != name && k in p.search ==> t.search[k] == p.search[k]
    ensures t.currentPage == p.currentPage && t.totalPages == p.totalPages && t.empty == p.empty
  {
    p.(search := p.search[name := value])
  }

  /** `handleSearchClick`: back to page 1 with the current search. */
  function SearchClick(p: Pager): (s: Step)
    ensures s.pager == p.(currentPage := 1)
    ensures s.fetch == Some(Params(p.search, 1))
  {
    Step(p.(currentPage := 1), Some(Params(p.search, 1)))
  }

  /** `handleResetClick`: the search fields are cleared and page 1 is
      fetched with an empty search object, so only the page is sent. */
  function ResetClick(p: Pager, blank: Query): (s: Step)
    ensures s.pager == p.(search := blank, currentPage := 1)
    ensures s.fetch == Some(map["page" := "1"])
  {
    assert Numbers.IntToString(1) == "1";
    EmptySearchSendsPageOnly(1);
    Step(p.(search := blank, currentPage := 1), Some(Params(map[], 1)))
  }

  /** `handleNext`: one page on, only while there is a next page. */
  function Next(p: Pager): (s: Step)
    ensures p.currentPage < p.totalPages ==>
      && s.pager == p.(currentPage := p.currentPage + 1)
      && s.fetch == Some(Params(p.search, p.currentPage + 1))
    ensures p.currentPage >= p.totalPages ==> s == Step(p, None)
  {
    if p.currentPage < p.totalPages then
      Step(p.(currentPage := p.currentPage + 1), Some(Params(p.search, p.currentPage + 1)))
    else Step(p, None)
  }

  /** `handlePrevious`: one page back, only while past the first page. */
  function Previous(p: Pager): (s: Step)
    ensures p.currentPage > 1 ==>
      && s.pager == p.(currentPage := p.currentPage - 1)
      && s.fetch == Some(Params(p.search, p.currentPage - 1))
    ensures p.currentPage <= 1 ==> s == Step(p, None)
  {
    if p.currentPage > 1 then
      Step(p.(currentPage := p.currentPage - 1), Some(Params(p.search, p.currentPage - 1)))
    else Step(p, None)
  }

  /** The answer to a fetch: the rows shown, the page count, and the
      "no records" flag, which is set exactly when no row came back. */
  function Receive<T>(p: Pager, rows: seq<T>, totalPages: int): (t: Pager)
    ensures t.empty <==> |rows| == 0
    ensures t.search == p.search && t.currentPage == p.currentPage && t.totalPages == totalPages
  {
    p.(totalPages := totalPages, empty := rows == [])
  }

  /** Whatever a handler fetches is the page the pager then shows, with the
      search it then holds (the reset fetch aside, which sends an empty
      search while the fields are being cleared). */
  lemma FetchesTheShownPage(p: Pager)
    ensures var s := SearchClick(p); s.fetch == Some(Params(s.pager.search, s.pager.currentPage))
    ensures var s := Next(p); s.fetch.Some? ==> s.fetch == Some(Params(s.pager.search, s.pager.currentPage))
    ensures var s := Previous(p); s.fetch.Some? ==> s.fetch == Some(Params(s.pager.search, s.pager.currentPage))
  {
  }

  /** The pager's page lies between 1 and the page count (at least 1). */
  predicate InRange(p: Pager) {
    1 <= p.currentPage <= Max(1, p.totalPages)
  }

  lemma StepsKeepRange(p: Pager, blank: Query)
    requires InRange(p)
    ensures InRange(Next(p).pager) && InRange(Previous(p).pager)
    ensures InRange(SearchClick(p).pager) && InRange(ResetClick(p, blank).pager)
  {
  }

  datatype Move = Forward | Back

  /** A run of Next/Previous clicks with no answer changing the page count
      in between. */
  function Replay(p: Pager, moves: seq<Move>): Pager
    decreases moves
  {
    if moves == [] then p
    else
      var q := if moves[0] == Forward then Next(p).pager else Previous(p).pager;
      Replay(q, moves[1..])
  }

  /** Starting in range, any run of clicks stays in range, and changes
      neither the search nor the page count. */
  lemma {:induction false} ReplayStaysInRange(p: Pager, moves: seq<Move>)
    requires InRange(p)
    ensures InRange(Replay(p, moves))
    ensures Replay(p, moves).search == p.search && Replay(p, moves).totalPages == p.totalPages
    decreases moves
  {
    if moves != [] {
      var q := if moves[0] == Forward then Next(p).pager else Previous(p).pager;
      StepsKeepRange(p, map[]);
      ReplayStaysInRange(q, moves[1..]);
    }
  }

  function Forwards(n: nat): (moves: seq<Move>)
    ensures |moves| == n && forall i :: 0 <= i < n ==> moves[i] == Forward
  {
    if n == 0 then [] else [Forward] + Forwards(n - 1)
  }

  /** `n` Next clicks advance `n` pages, but never past the last page. */
  lemma {:induction false} ForwardsStopAtLastPage(p: Pager, n: nat)
    requires InRange(p)
    ensures Replay(p, Forwards(n)).currentPage == Min(p.currentPage + n, Max(p.currentPage, p.totalPages))
    decreases n
  {
    if n > 0 {
      var q := Next(p).pager;
      assert Forwards(n)[1..] == Forwards(n - 1);
      StepsKeepRange(p, map[]);
      ForwardsStopAtLastPage(q, n - 1);
    }
  }

  /** `(currentPage - 1) * 5 + index + 1`, the number shown in a row. */
  function Serial(page: int, index: int): int {
    Paging.SkipOf(page, RowsPerPage) + index + 1
  }

  /** The serial number is the source's formula. */
  lemma SerialFormula(page: int, index: int)
    ensures Serial(page, index) == (page - 1) * RowsPerPage + index + 1
  {
    Paging.SkipIsProduct(page, RowsPerPage);
  }

  /** The row at `index` on page `page` of a window five rows long is the
      match numbered `Serial(page, index)`, counting from 1. */
  lemma SerialIsPosition<T>(xs: seq<T>, page: int, index: nat)
    requires page >= 1
    requires index < |Paging.Window(xs, Paging.SkipOf(page, RowsPerPage), RowsPerPage)|
    ensures 1 <= Serial(page, index) <= |xs|
    ensures xs[Serial(page, index) - 1] == Paging.Window(xs, Paging.SkipOf(page, RowsPerPage), RowsPerPage)[index]
  {
    var skip := Paging.SkipOf(page, RowsPerPage);
    assert Serial(page, index) == skip + index + 1;
    assert Paging.Window(xs, skip, RowsPerPage)[index] == xs[skip + index];
  }

  /** Two rows shown on pages `a` and `b` carry the same number only if
      they are the same row of the same page. */
  lemma SerialsAreDistinct(a: int, i: nat, b: int, j: nat)
    requires i < RowsPerPage && j < RowsPerPage
    requires Serial(a, i) == Serial(b, j)
    ensures a == b && i == j
  {
    if a < b {
      Paging.SkipStep(a, RowsPerPage);
      Paging.SkipIsMonotone(a + 1, b, RowsPerPage);
    } else if b < a {
      Paging.SkipStep(b, RowsPerPage);
      Paging.SkipIsMonotone(b + 1, a, RowsPerPage);
    }
  }
}
