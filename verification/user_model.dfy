/** The account repository (testexpressjs/models/user-model.js): add,
    update, delete, get-by-id, paginated search, count and credential lookup
    over the account collection. Each store call may itself fail (a lost
    connection, a malformed id, a schema check in the account schema, which is
    not part of this model); that failure is the `fault` argument, and the
    repository passes its message on unchanged without retrying. */
module UserModel {
  import opened Basics
  import opened DocStore
  import Paging

  datatype Account = Account(
    firstName: string,
    lastName: string,
    loginId: string,
    password: string,
    dob: string,
    gender: string,
    role: string)

  /** An update body: each field it carries replaces the stored one. */
  datatype Patch = Patch(
    firstName: Option<string>,
    lastName: Option<string>,
    loginId: Option<string>,
    password: Option<string>,
    dob: Option<string>,
    gender: Option<string>,
    role: Option<string>)

  function Pick(p: Option<string>, current: string): string {
    if p.Some? then p.value else current
  }

  function Apply(p: Patch, a: Account): Account {
    Account(
      Pick(p.firstName, a.firstName), Pick(p.lastName, a.lastName),
      Pick(p.loginId, a.loginId), Pick(p.password, a.password),
      Pick(p.dob, a.dob), Pick(p.gender, a.gender), Pick(p.role, a.role))
  }

  /** The patch a full form submits: every field of `a`. */
  function FullPatch(a: Account): Patch {
    Patch(Some(a.firstName), Some(a.lastName), Some(a.loginId), Some(a.password),
          Some(a.dob), Some(a.gender), Some(a.role))
  }

  const NoChange := Patch(None, None, None, None, None, None, None)

  /** An empty body changes nothing; a full body replaces every field. */
  lemma PatchExtremes(a: Account, b: Account)
    ensures Apply(NoChange, a) == a
    ensures Apply(FullPatch(b), a) == b
  {
  }

  type Users = Collection<Account>

  /** The search query: one case-insensitive substring constraint per field
      that carries one. */
  datatype UserFilter = UserFilter(
    firstName: Option<string>,
    lastName: Option<string>,
    loginId: Option<string>)

  const AnyUser := UserFilter(None, None, None)

  predicate FieldMatches(value: string, constraint: Option<string>) {
    constraint.None? || ContainsIgnoringCase(value, constraint.value)
  }

  predicate Matches(f: UserFilter, a: Account) {
    && FieldMatches(a.firstName, f.firstName)
    && FieldMatches(a.lastName, f.lastName)
    && FieldMatches(a.loginId, f.loginId)
  }

  /** Every account the filter accepts, in natural order. */
  function Matching(users: Users, f: UserFilter): (r: Store<Account>)
    ensures |r| <= |users.docs|
  {
    Select(users.docs, (a: Account) => Matches(f, a))
  }

  /** The matches are exactly the records the filter accepts. */
  lemma MatchingMembers(users: Users, f: UserFilter)
    ensures forall d :: d in Matching(users, f) <==> d in users.docs && Matches(f, d.rec)
  {
    SelectMembers(users.docs, (a: Account) => Matches(f, a));
  }

  /** The filter without constraints matches every record. */
  lemma AnyUserMatchesAll(users: Users)
    ensures Matching(users, AnyUser) == users.docs
  {
    SelectAll(users.docs, (a: Account) => Matches(AnyUser, a));
  }

  const DataAdded := "Data added successfully"
  const UserNotFound := "User not found"
  const UserDeleted := "User deleted successfully"
  const InvalidCredentials := "Invalid credentials"
  const NegativeWindow := "skip and limit must not be negative"

  /** What a mutation leaves behind: the collection, and how the promise
      settled. */
  datatype Outcome<+T> = Outcome(users: Users, result: Result<T>)

  datatype Saved = Saved(user: Doc<Account>, message: string)

  /** `add_user`: save a new account and report it with a fixed message. */
  function AddUser(users: Users, data: Account, fault: Option<string>): (o: Outcome<Saved>)
    ensures fault.Some? ==> o == Outcome(users, Err(fault.value))
    ensures fault.None? ==>
      && o.result.Ok?
      && o.result.value.message == DataAdded
      && o.result.value.user.rec == data
      && !HasId(users.docs, o.result.value.user.id)
      && users.lastId < o.result.value.user.id
      && o.users.docs == users.docs + [o.result.value.user]
    ensures Valid(users) ==> Valid(o.users)
  {
    if fault.Some? then Outcome(users, Err(fault.value))
    else
      var (stored, id) := Insert(users, data);
      Outcome(stored, Ok(Saved(Doc(id, data), DataAdded)))
  }

  /** `update_user`: `findByIdAndUpdate` without options, so the promise
      resolves with the record as it was BEFORE the change. */
  function UpdateUser(users: Users, id: Id, patch: Patch, fault: Option<string>): (o: Outcome<Doc<Account>>)
    ensures fault.Some? ==> o == Outcome(users, Err(fault.value))
    ensures fault.None? && !HasId(users.docs, id) ==> o == Outcome(users, Err(UserNotFound))
    ensures o.users.lastId == users.lastId
    ensures Valid(users) ==> Valid(o.users)
    ensures fault.None? && HasId(users.docs, id) && UniqueIds(users.docs) ==>
      var (s, t) := (users.docs, o.users.docs);
      && |t| == |s|
      && forall i :: 0 <= i < |s| ==>
           && t[i].id == s[i].id
           && (s[i].id == id ==> o.result == Ok(s[i]) && t[i].rec == Apply(patch, s[i].rec))
           && (s[i].id != id ==> t[i] == s[i])
  {
    if fault.Some? then Outcome(users, Err(fault.value))
    else match FindById(users.docs, id)
      case None => Outcome(users, Err(UserNotFound))
      case Some(before) =>
        Outcome(users.(docs := ReplaceAt(users.docs, id, Apply(patch, before.rec))), Ok(before))
  }

  /** `delete_user`: remove the record, or fail when there is none. */
  function DeleteUser(users: Users, id: Id, fault: Option<string>): (o: Outcome<string>)
    ensures fault.Some? ==> o == Outcome(users, Err(fault.value))
    ensures fault.None? && !HasId(users.docs, id) ==> o == Outcome(users, Err(UserNotFound))
    ensures o.users.lastId == users.lastId
    ensures Valid(users) ==> Valid(o.users)
    ensures fault.None? && HasId(users.docs, id) ==>
      var (s, t, k) := (users.docs, o.users.docs, IndexOf(users.docs, id));
      && o.result == Ok(UserDeleted)
      && |t| == |s| - 1
      && t[..k] == s[..k] && t[k..] == s[k + 1..]
    ensures fault.None? && HasId(users.docs, id) && UniqueIds(users.docs) ==>
      && !HasId(o.users.docs, id)
      && forall d :: d in users.docs && d.id != id <==> d in o.users.docs
  {
    if fault.Some? then Outcome(users, Err(fault.value))
    else if !HasId(users.docs, id) then Outcome(users, Err(UserNotFound))
    else Outcome(users.(docs := RemoveAt(users.docs, id)), Ok(UserDeleted))
  }

  /** `get_user_by_id` */
  function GetUserById(users: Users, id: Id, fault: Option<string>): (r: Result<Doc<Account>>)
    ensures fault.Some? ==> r == Err(fault.value)
    ensures fault.None? && !HasId(users.docs, id) ==> r == Err(UserNotFound)
    ensures fault.None? && HasId(users.docs, id) ==> r.Ok? && r.value in users.docs && r.value.id == id
  {
    if fault.Some? then Err(fault.value)
    else match FindById(users.docs, id)
      case None => Err(UserNotFound)
      case Some(d) => Ok(d)
  }

  /** `search_users`: skip `(page - 1) * limit` matches and return at most
      `limit` of the rest, in natural order. */
  function SearchUsers(users: Users, f: UserFilter, page: int, limit: int, fault: Option<string>): (r: Result<seq<Doc<Account>>>)
    ensures fault.Some? ==> r == Err(fault.value)
    ensures fault.None? && page >= 1 && limit >= 1 ==>
      var matches := Matching(users, f);
      var skip := Paging.SkipOf(page, limit);
      && r.Ok?
      && |r.value| == Min(limit, Max(0, |matches| - skip))
      && forall i :: 0 <= i < |r.value| ==> r.value[i] == matches[skip + i]
  {
    var skip := Paging.SkipOf(page, limit);
    if fault.Some? then Err(fault.value)
    else if skip < 0 || limit < 0 then Err(NegativeWindow)
    else Ok(Paging.Window(Matching(users, f), skip, limit))
  }

  /** `count_users`: the number of records the same filter matches. */
  function CountUsers(users: Users, f: UserFilter, fault: Option<string>): (r: Result<nat>)
    ensures fault.Some? ==> r == Err(fault.value)
    ensures fault.None? ==> r.Ok? && r.value == |Matching(users, f)|
  {
    if fault.Some? then Err(fault.value) else Ok(|Matching(users, f)|)
  }

  predicate HasCredentials(a: Account, loginId: string, password: string) {
    a.loginId == loginId && a.password == password
  }

  /** A credential as a parsed JSON body carries it into `findOne`: a
      string, or an object holding the `$ne` query operator, which the query
      honours instead of comparing for equality. */
  datatype Credential = Text(text: string) | NotEqual(text: string)

  predicate Satisfies(value: string, c: Credential) {
    match c
    case Text(t) => value == t
    case NotEqual(t) => value != t
  }

  predicate Admits(a: Account, loginId: Credential, password: Credential) {
    Satisfies(a.loginId, loginId) && Satisfies(a.password, password)
  }

  /** `authenticate_user` as written: both body values go into the query
      unchanged, and the first record, in natural order, that the query
      admits is returned. */
  function AuthenticateUser(users: Users, loginId: Credential, password: Credential, fault: Option<string>): (r: Result<Doc<Account>>)
    ensures fault.Some? ==> r == Err(fault.value)
    ensures fault.None? ==>
      (r.Ok? <==> exists i :: 0 <= i < |users.docs| && Admits(users.docs[i].rec, loginId, password))
    ensures fault.None? && r.Err? ==> r.message == InvalidCredentials
    ensures r.Ok? ==> r.value in users.docs && Admits(r.value.rec, loginId, password)
  {
    var found := Select(users.docs, (a: Account) => Admits(a, loginId, password));
    SelectMembers(users.docs, (a: Account) => Admits(a, loginId, password));
    if fault.Some? then Err(fault.value)
    else if found == [] then
      assert forall i :: 0 <= i < |users.docs| ==> users.docs[i] !in found;
      Err(InvalidCredentials)
    else
      assert found[0] in users.docs;
      assert exists i :: 0 <= i < |users.docs| && users.docs[i] == found[0];
      Ok(found[0])
  }

  /** As written, a body whose password is `{"$ne": ""}` signs in as the
      account with that login id without knowing its password; the checked
      lookup refuses it. */
  lemma PasswordBypass(a: Account)
    requires a.loginId == "a@gmail.com" && a.password == "p1"
    ensures var users := Collection([Doc(1, a)], 1);
      && AuthenticateUser(users, Text("a@gmail.com"), NotEqual(""), None) == Ok(Doc(1, a))
      && AuthenticateChecked(users, Text("a@gmail.com"), NotEqual(""), None) == Err(InvalidCredentials)
  {
  }

  /** Credential lookup that only compares strings: a body value that is
      not a string is refused before the store is asked. */
  function AuthenticateChecked(users: Users, loginId: Credential, password: Credential, fault: Option<string>): (r: Result<Doc<Account>>)
    ensures !(loginId.Text? && password.Text?) ==> r == Err(InvalidCredentials)
    ensures loginId.Text? && password.Text? && fault.Some? ==> r == Err(fault.value)
    ensures loginId.Text? && password.Text? && fault.None? ==>
      (r.Ok? <==> exists i :: 0 <= i < |users.docs| && HasCredentials(users.docs[i].rec, loginId.text, password.text))
    ensures r.Ok? ==> r.value in users.docs && HasCredentials(r.value.rec, loginId.text, password.text)
  {
    if loginId.Text? && password.Text? then AuthenticateUser(users, loginId, password, fault)
    else Err(InvalidCredentials)
  }

  /** For string bodies the checked lookup answers as the lookup as
      written does. */
  lemma CheckedLookupAgreesOnText(users: Users, loginId: string, password: string, fault: Option<string>)
    ensures AuthenticateChecked(users, Text(loginId), Text(password), fault) ==
            AuthenticateUser(users, Text(loginId), Text(password), fault)
  {
  }

  /** A record saved by `add_user` is what `get_user_by_id` returns for the
      identity it was given. */
  lemma AddThenGet(users: Users, data: Account)
    ensures var o := AddUser(users, data, None);
      GetUserById(o.users, o.result.value.user.id, None) == Ok(o.result.value.user)
  {
    var o := AddUser(users, data, None);
    var d := o.result.value.user;
    assert o.users.docs[|users.docs|] == d;
    var r := GetUserById(o.users, d.id, None);
    assert r.value in o.users.docs;
  }

  /** Deleting is not idempotent: the second delete of an id reports
      "User not found" and changes nothing. */
  lemma DeleteTwice(users: Users, id: Id)
    requires UniqueIds(users.docs) && HasId(users.docs, id)
    ensures var first := DeleteUser(users, id, None);
      && first.result == Ok(UserDeleted)
      && DeleteUser(first.users, id, None) == Outcome(first.users, Err(UserNotFound))
  {
  }

  /** After a delete the id is gone for `get_user_by_id` too. */
  lemma DeleteThenGet(users: Users, id: Id)
    requires UniqueIds(users.docs)
    ensures GetUserById(DeleteUser(users, id, None).users, id, None) == Err(UserNotFound)
  {
  }

  /** An identity freed by a delete is not handed out again: a record added
      afterwards gets another one, and the old identity still answers
      "User not found". */
  lemma DeletedIdStaysGone(users: Users, id: Id, data: Account)
    requires Valid(users) && HasId(users.docs, id)
    ensures var gone := DeleteUser(users, id, None).users;
      var added := AddUser(gone, data, None);
      && added.result.value.user.id != id
      && GetUserById(added.users, id, None) == Err(UserNotFound)
  {
  }

  /** The pages `1..n` a client reads with a fixed filter and limit. */
  function SearchPages(users: Users, f: UserFilter, limit: int, n: nat): seq<Doc<Account>>
    requires limit >= 1
  {
    if n == 0 then []
    else SearchPages(users, f, limit, n - 1) + SearchUsers(users, f, n, limit, None).value
  }

  lemma {:induction false} SearchPagesAreWindows(users: Users, f: UserFilter, limit: int, n: nat)
    requires limit >= 1
    ensures SearchPages(users, f, limit, n) == Paging.FirstPages(Matching(users, f), limit, n)
  {
    if n > 0 {
      var matches := Matching(users, f);
      var prev := SearchPages(users, f, limit, n - 1);
      var w := Paging.Window(matches, Paging.SkipOf(n, limit), limit);
      SearchPagesAreWindows(users, f, limit, n - 1);
      SearchIsWindow(users, f, n, limit);
      assert SearchPages(users, f, limit, n) == prev + w;
      assert Paging.FirstPages(matches, limit, n) == Paging.FirstPages(matches, limit, n - 1) + w;
    }
  }

  lemma SearchIsWindow(users: Users, f: UserFilter, page: int, limit: int)
    requires page >= 1 && limit >= 1
    ensures SearchUsers(users, f, page, limit, None) ==
      Ok(Paging.Window(Matching(users, f), Paging.SkipOf(page, limit), limit))
  {
  }

  /** Reading pages `1..ceil(count / limit)` of a search, with the count the
      same filter gives, returns every matching record exactly once and in
      natural order. */
  lemma SearchPagesCoverMatches(users: Users, f: UserFilter, limit: int)
    requires limit >= 1
    ensures var count := CountUsers(users, f, None).value;
      SearchPages(users, f, limit, Paging.TotalPages(count, limit)) == Matching(users, f)
  {
    var count := CountUsers(users, f, None).value;
    SearchPagesAreWindows(users, f, limit, Paging.TotalPages(count, limit));
    Paging.PagesCoverAllMatches(Matching(users, f), limit);
  }

  /** One account "a@gmail.com" with password "p1": the right password
      authenticates it and a wrong one is refused, by the lookup as written
      and by the checked one alike. */
  lemma AuthenticationScenario(a: Account)
    requires a.loginId == "a@gmail.com" && a.password == "p1"
    ensures var users := Collection([Doc(1, a)], 1);
      && AuthenticateChecked(users, Text("a@gmail.com"), Text("p1"), None) == Ok(Doc(1, a))
      && AuthenticateChecked(users, Text("a@gmail.com"), Text("wrong"), None) == Err(InvalidCredentials)
      && AuthenticateUser(users, Text("a@gmail.com"), Text("p1"), None) == Ok(Doc(1, a))
      && AuthenticateUser(users, Text("a@gmail.com"), Text("wrong"), None) == Err(InvalidCredentials)
  {
    var found := Select([Doc(1, a)], (b: Account) => Admits(b, Text("a@gmail.com"), Text("p1")));
    assert Doc(1, a) in found;
  }
}
