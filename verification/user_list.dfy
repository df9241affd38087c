/** The user list page (testreact/src/components/UserList.js): a pager
    over the account search route, with first name, last name and login id
    search fields. */
module UserList {
  import opened Basics
  import opened ListPager
  import UserController
  import UserModel
  import Numbers
  import Paging

  /** The search object as first rendered and after Reset. */
  const Blank: Query := map["firstName" := "", "lastName" := "", "loginId" := ""]

  /** The first render fetches page 1 with nothing but the page number. */
  function Mount(): (s: Step)
    ensures s.pager.currentPage == 1 && s.pager.totalPages == 1
    ensures s.fetch == Some(map["page" := "1"])
  {
    var s := Start(Blank);
    assert Numbers.IntToString(1) == "1";
    assert FilterQuery(Blank) == map[];
    s
  }

  /** Reset clears all three search fields and restarts at page 1. */
  function Reset(p: Pager): (s: Step)
    ensures forall k :: k in s.pager.search <==> k == "firstName" || k == "lastName" || k == "loginId"
    ensures forall k :: k in s.pager.search ==> s.pager.search[k] == ""
    ensures s.pager.currentPage == 1
    ensures s.fetch == Some(map["page" := "1"])
  {
    ResetClick(p, Blank)
  }

  /** The query string the list sends is read by the controller as the page
      it asked for, the default limit of 5 (no limit is sent), and the same
      filter the unfiltered search object would have given. */
  lemma ServerReadsWhatListSends(q: Query, page: int)
    requires page >= 1 && "limit" !in q
    ensures UserController.PageOf(Params(q, page)) == page
    ensures UserController.LimitOf(Params(q, page)) == RowsPerPage
    ensures UserController.BuildFilter(Params(q, page)) == UserController.BuildFilter(q)
  {
    Numbers.ParseIntOfIntToString(page);
  }

  /** For a signed-in user, the row numbered `Serial(page, index)` on the
      list is the match at that 1-based position of the whole search, and
      the server reports the page the list asked for. */
  lemma RowNumbersMatchServer(sv: UserController.Server, q: Query, page: int, index: nat)
    requires sv.session.Some? && page >= 1 && "limit" !in q
    ensures var x := UserController.Handle(sv, UserController.SearchUser(Params(q, page)), UserController.NoFaults);
      var matches := UserModel.Matching(sv.users, UserController.BuildFilter(q));
      && x.response.body.Page?
      && x.response.body.page == page
      && (index < |x.response.body.users| ==>
            1 <= Serial(page, index) <= |matches| &&
            x.response.body.users[index] == matches[Serial(page, index) - 1])
  {
    ServerReadsWhatListSends(q, page);
    UserController.SearchConsistency(sv, Params(q, page));
  }

  /** "No records found" shows exactly when the requested page starts past
      the last match. */
  lemma NoRecordsMeansPastTheEnd(sv: UserController.Server, p: Pager, q: Query, page: int)
    requires sv.session.Some? && page >= 1 && "limit" !in q
    ensures var body := UserController.Handle(sv, UserController.SearchUser(Params(q, page)), UserController.NoFaults).response.body;
      var matches := UserModel.Matching(sv.users, UserController.BuildFilter(q));
      body.Page? &&
      (Receive(p, body.users, body.totalPages).empty <==> |matches| <= Paging.SkipOf(page, RowsPerPage))
  {
    ServerReadsWhatListSends(q, page);
    UserController.SearchConsistency(sv, Params(q, page));
  }
}
