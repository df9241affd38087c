/** The account routes (testexpressjs/controller/user-controller.js): the
    router's layer stack with the session gate in the middle, and each
    handler as a function of the server state (the caller's session entry
    and the account collection) and the request. */
module UserController {
  import opened Basics
  import opened DocStore
  import UserModel
  import Numbers
  import Paging

  type Account = UserModel.Account

  datatype Verb = Get | Post

  datatype Endpoint = Endpoint(verb: Verb, path: string)

  /** One entry of the router's stack: a route, or the `isAuthenticated`
      middleware installed by `router.use`. */
  datatype Layer = Route(endpoint: Endpoint) | Gate

  /** The stack in registration order: one gate, after the three routes
      registered before `router.use(isAuthenticated)`. */
  function Router(): (layers: seq<Layer>)
    ensures |layers| == 9
    ensures forall i :: 0 <= i < |layers| ==> (layers[i] == Gate <==> i == 3)
  {
    [
    Route(Endpoint(Post, "/authenticate")),
    Route(Endpoint(Post, "/logout")),
    Route(Endpoint(Post, "/signup")),
    Gate,
    Route(Endpoint(Post, "/adduser")),
    Route(Endpoint(Get, "/searchuser")),
    Route(Endpoint(Post, "/deleteuser/:id")),
    Route(Endpoint(Post, "/updateuser/:id")),
    Route(Endpoint(Get, "/getuser/:id"))
    ]
  }

  datatype Passage = Unauthorized | Dispatched | Unmatched

  /** How a request travels down the stack: the first route matching its
      endpoint handles it; the gate, reached with no user in the session,
      answers 401 and ends the request; a signed-in request passes the gate. */
  function Traverse(layers: seq<Layer>, e: Endpoint, signedIn: bool): (p: Passage)
    ensures p == Dispatched <==>
      exists i :: 0 <= i < |layers| && layers[i] == Route(e) &&
        (forall j :: 0 <= j < i ==> layers[j] != Route(e)) &&
        (signedIn || forall j :: 0 <= j < i ==> layers[j] != Gate)
    ensures p == Unauthorized <==>
      !signedIn &&
      (exists g :: 0 <= g < |layers| && layers[g] == Gate &&
         forall j :: 0 <= j < g ==> layers[j] != Route(e))
  {
    if layers == [] then Unmatched
    else
      var rest := Traverse(layers[1..], e, signedIn);
      assert forall i :: 1 <= i < |layers| ==> layers[i] == layers[1..][i - 1];
      match layers[0]
      case Route(e') => if e' == e then Dispatched else rest
      case Gate => if signedIn then rest else Unauthorized
  }

  /** An account request, by route, with what the handler reads from it. */
  datatype Request =
    | Authenticate(loginId: UserModel.Credential, password: UserModel.Credential)
    | Logout
    | Signup(account: Account)
    | AddUser(account: Account)
    | SearchUser(query: map<string, string>)
    | DeleteUser(id: Id)
    | UpdateUser(id: Id, patch: UserModel.Patch)
    | GetUser(id: Id)

  function EndpointOf(req: Request): Endpoint {
    match req
    case Authenticate(_, _) => Endpoint(Post, "/authenticate")
    case Logout => Endpoint(Post, "/logout")
    case Signup(_) => Endpoint(Post, "/signup")
    case AddUser(_) => Endpoint(Post, "/adduser")
    case SearchUser(_) => Endpoint(Get, "/searchuser")
    case DeleteUser(_) => Endpoint(Post, "/deleteuser/:id")
    case UpdateUser(_, _) => Endpoint(Post, "/updateuser/:id")
    case GetUser(_) => Endpoint(Get, "/getuser/:id")
  }

  predicate IsPublic(req: Request) {
    req.Authenticate? || req.Logout? || req.Signup?
  }

  /** The routes registered before `router.use(isAuthenticated)` are
      reached without a session; those registered after it are reached
      only with one. */
  lemma RouterSplit(req: Request, signedIn: bool)
    ensures Traverse(Router(), EndpointOf(req), signedIn) ==
      if IsPublic(req) || signedIn then Dispatched else Unauthorized
  {
    var e := EndpointOf(req);
    var k := match req
      case Authenticate(_, _) => 0
      case Logout => 1
      case Signup(_) => 2
      case AddUser(_) => 4
      case SearchUser(_) => 5
      case DeleteUser(_) => 6
      case UpdateUser(_, _) => 7
      case GetUser(_) => 8;
    var layers := Router();
    assert layers[k] == Route(e);
    assert forall j :: 0 <= j < k ==> layers[j] != Route(e);
    if !IsPublic(req) {
      assert layers[3] == Gate;
    }
  }

  /** The response envelope: status code and JSON body. */
  datatype Body =
    | Message(text: string)
    | Failure(error: string)
    | Welcome(text: string, user: Doc<Account>)
    | Added(user: Doc<Account>, text: string)
    | Record(user: Doc<Account>)
    | Page(users: seq<Doc<Account>>, totalCount: nat, page: int, totalPages: int)

  datatype Response = Response(status: nat, body: Body)

  /** The caller's session entry and the account collection. */
  datatype Server = Server(session: Option<Doc<Account>>, users: UserModel.Users)

  /** What the handlers cannot see coming: a failure of the first and of
      the second store call a handler makes, and a failure to destroy the
      session. */
  datatype Faults = Faults(first: Option<string>, second: Option<string>, destroyFails: bool)

  const NoFaults := Faults(None, None, false)

  datatype Exchange = Exchange(server: Server, response: Response)

  const Rejection := Response(401, Message("Unauthorized"))

  /** `req.query[key]`: a missing parameter is `undefined`. */
  function Param(query: map<string, string>, key: string): Option<string> {
    if key in query then Some(query[key]) else None
  }

  /** `if (req.query.key) query.key = new RegExp(req.query.key, 'i')`:
      only a present, non-empty parameter becomes a constraint. */
  function Constraint(query: map<string, string>, key: string): (c: Option<string>)
    ensures c.Some? <==> key in query && query[key] != ""
    ensures c.Some? ==> c.value == query[key]
  {
    if key in query && query[key] != "" then Some(query[key]) else None
  }

  function BuildFilter(query: map<string, string>): (f: UserModel.UserFilter)
    ensures f.firstName == Constraint(query, "firstName")
    ensures f.lastName == Constraint(query, "lastName")
    ensures f.loginId == Constraint(query, "loginId")
  {
    UserModel.UserFilter(
      Constraint(query, "firstName"), Constraint(query, "lastName"), Constraint(query, "loginId"))
  }

  /** With no search field supplied, the filter accepts every account. */
  lemma EmptySearchMatchesAll(query: map<string, string>, users: UserModel.Users)
    requires forall k :: k in query && k in {"firstName", "lastName", "loginId"} ==> query[k] == ""
    ensures BuildFilter(query) == UserModel.AnyUser
    ensures UserModel.Matching(users, BuildFilter(query)) == users.docs
  {
    UserModel.AnyUserMatchesAll(users);
  }

  const DefaultPage := 1
  const DefaultLimit := 5

  function ParseParam(query: map<string, string>, key: string): Option<int> {
    match Param(query, key)
    case None => None
    case Some(text) => Numbers.ParseInt(text)
  }

  /** `parseInt(req.query.page) || 1` */
  function PageOf(query: map<string, string>): (page: int)
    ensures page != 0
    ensures "page" !in query ==> page == DefaultPage
    ensures "page" in query ==> match Numbers.ParseInt(query["page"])
      case Some(n) => page == if n == 0 then DefaultPage else n
      case None => page == DefaultPage
  {
    Numbers.OrDefault(ParseParam(query, "page"), DefaultPage)
  }

  /** `parseInt(req.query.limit) || 5`: never 0, so the page count below
      never divides by zero. */
  function LimitOf(query: map<string, string>): (limit: int)
    ensures limit != 0
    ensures "limit" !in query ==> limit == DefaultLimit
    ensures "limit" in query ==> match Numbers.ParseInt(query["limit"])
      case Some(n) => limit == if n == 0 then DefaultLimit else n
      case None => limit == DefaultLimit
  {
    Numbers.OrDefault(ParseParam(query, "limit"), DefaultLimit)
  }

  /** A rejected promise becomes a 500 with the error's message. */
  function Fail(sv: Server, message: string): Exchange {
    Exchange(sv, Response(500, Failure(message)))
  }

  /** `/searchuser`: the same filter goes to the search and to the count. */
  function Search(sv: Server, query: map<string, string>, env: Faults): (x: Exchange)
    ensures x.server == sv
    ensures x.response.status in {200, 500}
  {
    var filter := BuildFilter(query);
    var page := PageOf(query);
    var limit := LimitOf(query);
    match UserModel.SearchUsers(sv.users, filter, page, limit, env.first)
    case Err(m) => Fail(sv, m)
    case Ok(found) =>
      match UserModel.CountUsers(sv.users, filter, env.second)
      case Err(m) => Fail(sv, m)
      case Ok(count) =>
        Exchange(sv, Response(200, Page(found, count, page, Paging.TotalPages(count, limit))))
  }

  /** The `/authenticate` handler once the lookup has settled: a found
      account is stored in the session and welcomed; a rejection is a 500
      with its message. */
  function SignIn(sv: Server, found: Result<Doc<Account>>): (x: Exchange)
    ensures found.Ok? ==> x == Exchange(sv.(session := Some(found.value)),
      Response(200, Welcome("Authentication successful", found.value)))
    ensures found.Err? ==> x == Exchange(sv, Response(500, Failure(found.message)))
  {
    match found
    case Ok(user) => Exchange(sv.(session := Some(user)), Response(200, Welcome("Authentication successful", user)))
    case Err(m) => Fail(sv, m)
  }

  /** The handler a request reaches once past the stack; it answers 200,
      201 or 500, never 401. */
  function Run(sv: Server, req: Request, env: Faults): (x: Exchange)
    ensures x.response.status in {200, 201, 500}
  {
    match req
    case Authenticate(loginId, password) =>
      SignIn(sv, UserModel.AuthenticateUser(sv.users, loginId, password, env.first))
    case Logout =>
      if env.destroyFails then Exchange(sv, Response(500, Message("Logout failed")))
      else Exchange(sv.(session := None), Response(200, Message("Logout successful")))
    case Signup(account) => Add(sv, account, env)
    case AddUser(account) => Add(sv, account, env)
    case SearchUser(query) => Search(sv, query, env)
    case DeleteUser(id) =>
      var o := UserModel.DeleteUser(sv.users, id, env.first);
      (match o.result
       case Ok(text) => Exchange(sv.(users := o.users), Response(200, Message(text)))
       case Err(m) => Fail(sv, m))
    case UpdateUser(id, patch) =>
      var o := UserModel.UpdateUser(sv.users, id, patch, env.first);
      (match o.result
       case Ok(before) => Exchange(sv.(users := o.users), Response(200, Record(before)))
       case Err(m) => Fail(sv, m))
    case GetUser(id) =>
      match UserModel.GetUserById(sv.users, id, env.first)
      case Ok(user) => Exchange(sv, Response(200, Record(user)))
      case Err(m) => Fail(sv, m)
  }

  /** `/signup` and `/adduser` share one handler body. */
  function Add(sv: Server, account: Account, env: Faults): (x: Exchange)
    ensures x.server.session == sv.session
    ensures x.response.status in {201, 500}
  {
    var o := UserModel.AddUser(sv.users, account, env.first);
    match o.result
    case Ok(saved) => Exchange(sv.(users := o.users), Response(201, Added(saved.user, saved.message)))
    case Err(m) => Fail(sv, m)
  }

  /** One request through the router. */
  function Handle(sv: Server, req: Request, env: Faults): (x: Exchange)
    ensures sv.session.None? && !IsPublic(req) ==> x == Exchange(sv, Rejection)
    ensures sv.session.Some? || IsPublic(req) ==> x.response.status != 401
  {
    RouterSplit(req, sv.session.Some?);
    if Traverse(Router(), EndpointOf(req), sv.session.Some?) == Unauthorized then Exchange(sv, Rejection)
    else Run(sv, req, env)
  }

  /** The public routes answer the same with or without a session: the
      session is neither required nor consulted. */
  lemma PublicIgnoresSession(sv: Server, req: Request, env: Faults, other: Option<Doc<Account>>)
    requires IsPublic(req)
    ensures Handle(sv, req, env).response == Handle(sv.(session := other), req, env).response
    ensures Handle(sv, req, env).server.users == Handle(sv.(session := other), req, env).server.users
  {
    RouterSplit(req, sv.session.Some?);
    RouterSplit(req, other.Some?);
  }

  /** A successful authentication stores the matching account in the
      session; a failed one leaves the session as it was and answers 500
      with the repository's message. */
  lemma AuthenticationSeedsSession(sv: Server, loginId: string, password: string)
    ensures var x := Handle(sv, Authenticate(UserModel.Text(loginId), UserModel.Text(password)), NoFaults);
      var docs := sv.users.docs;
      && x.server.users == sv.users
      && ((exists i :: 0 <= i < |docs| && UserModel.HasCredentials(docs[i].rec, loginId, password)) <==>
          x.response.status == 200)
      && (x.response.status == 200 ==>
            x.server.session.Some? && x.server.session.value in docs &&
            UserModel.HasCredentials(x.server.session.value.rec, loginId, password))
      && (x.response.status != 200 ==>
            x == Exchange(sv, Response(500, Failure(UserModel.InvalidCredentials))))
  {
    RouterSplit(Authenticate(UserModel.Text(loginId), UserModel.Text(password)), sv.session.Some?);
  }

  /** As written, the body `{"loginId": "a@gmail.com", "password":
      {"$ne": ""}}` is answered 200 and stores the account in the session,
      whoever sends it and whatever the account's password. */
  lemma BypassSeedsSession(sv: Server, a: Account)
    requires sv.users == Collection([Doc(1, a)], 1)
    requires a.loginId == "a@gmail.com" && a.password == "p1"
    ensures var x := Handle(sv, Authenticate(UserModel.Text("a@gmail.com"), UserModel.NotEqual("")), NoFaults);
      && x.response.status == 200
      && x.server.session == Some(Doc(1, a))
  {
  }

  /** The handler with the checked lookup: `/authenticate` refuses any body
      value that is not a string; every other route is handled as written. */
  function RunChecked(sv: Server, req: Request, env: Faults): (x: Exchange)
    ensures !req.Authenticate? ==> x == Run(sv, req, env)
    ensures req.Authenticate? && req.loginId.Text? && req.password.Text? ==> x == Run(sv, req, env)
  {
    match req
    case Authenticate(loginId, password) =>
      UserModel.CheckedLookupAgreesOnText(sv.users, loginId.text, password.text, env.first);
      SignIn(sv, UserModel.AuthenticateChecked(sv.users, loginId, password, env.first))
    case _ => Run(sv, req, env)
  }

  /** One request through the router, with the checked lookup. It differs
      from `Handle` only on a login body holding a non-string value. */
  function HandleChecked(sv: Server, req: Request, env: Faults): (x: Exchange)
    ensures !req.Authenticate? || (req.loginId.Text? && req.password.Text?) ==> x == Handle(sv, req, env)
  {
    RouterSplit(req, sv.session.Some?);
    if Traverse(Router(), EndpointOf(req), sv.session.Some?) == Unauthorized then Exchange(sv, Rejection)
    else RunChecked(sv, req, env)
  }

  /** With the checked lookup, a body whose login id or password is not a
      string, such as the operator object `{"$ne": ""}`, never signs anyone
      in: the answer is 500 "Invalid credentials" and nothing changes. */
  lemma OperatorBodiesAreRefused(sv: Server, loginId: UserModel.Credential, password: UserModel.Credential, env: Faults)
    requires !(loginId.Text? && password.Text?)
    ensures HandleChecked(sv, Authenticate(loginId, password), env) ==
      Exchange(sv, Response(500, Failure(UserModel.InvalidCredentials)))
  {
  }

  /** Every request keeps the collection well formed: identities stay
      unique and none is handed out twice. */
  lemma HandleKeepsValid(sv: Server, req: Request, env: Faults)
    requires Valid(sv.users)
    ensures Valid(Handle(sv, req, env).server.users)
  {
  }

  /** Once logout has destroyed the session, every protected route is
      turned away by the gate without touching the collection. */
  lemma LogoutLocksProtectedRoutes(sv: Server, req: Request, env: Faults)
    requires !IsPublic(req)
    ensures var out := Handle(sv, Logout, NoFaults).server;
      Handle(out, req, env) == Exchange(out, Rejection)
  {
    RouterSplit(Logout, sv.session.Some?);
  }

  /** Without a session no protected handler runs: the collection and the
      session are untouched and the answer does not depend on what the store
      would have done. */
  lemma GateSoundness(sv: Server, req: Request, env1: Faults, env2: Faults)
    requires sv.session.None? && !IsPublic(req)
    ensures Handle(sv, req, env1) == Handle(sv, req, env2) == Exchange(sv, Rejection)
  {
  }

  /** A signed-in search with no store failure answers 200 with the page
      the parsed page and limit select from the filter's matches, the count
      of the same filter, and `ceil(count / limit)` pages. */
  lemma SearchConsistency(sv: Server, query: map<string, string>)
    requires sv.session.Some?
    requires PageOf(query) >= 1 && LimitOf(query) >= 1
    ensures var x := Handle(sv, SearchUser(query), NoFaults);
      && x.server == sv
      && x.response.status == 200
      && x.response.body == PageFor(sv.users, BuildFilter(query), PageOf(query), LimitOf(query))
  {
    AdmittedRequestsRun(sv, SearchUser(query), NoFaults);
    assert UserModel.SearchUsers(sv.users, BuildFilter(query), PageOf(query), LimitOf(query), None).Ok?;
  }

  /** A request the gate lets through is answered by its handler. */
  lemma AdmittedRequestsRun(sv: Server, req: Request, env: Faults)
    requires sv.session.Some? || IsPublic(req)
    ensures Handle(sv, req, env) == Run(sv, req, env)
  {
    RouterSplit(req, sv.session.Some?);
  }

  /** The body of a successful search with the given filter, page and
      limit. */
  function PageFor(users: UserModel.Users, filter: UserModel.UserFilter, page: int, limit: int): (b: Body)
    requires page >= 1 && limit >= 1
    ensures var matches := UserModel.Matching(users, filter);
      var skip := Paging.SkipOf(page, limit);
      && b.Page?
      && b.totalCount == |matches|
      && b.page == page
      && |b.users| == Min(limit, Max(0, |matches| - skip))
      && (forall i :: 0 <= i < |b.users| ==> b.users[i] == matches[skip + i])
      && b.totalPages == Paging.TotalPages(b.totalCount, limit)
  {
    var count := UserModel.CountUsers(users, filter, None).value;
    var found := UserModel.SearchUsers(users, filter, page, limit, None).value;
    Page(found, count, page, Paging.TotalPages(count, limit))
  }
}
