# School results app: account service and entry forms, in Dafny

This project models the core of a small school-results web application.

- On the server, it models the account routes (`testexpressjs/controller/user-controller.js`) and the account repository behind them (`testexpressjs/models/user-model.js`).
- On the client, it models the React entry forms (add/edit user, sign-up, login, add/edit student, add/edit marksheet) and the two paginated list pages (users, students).

Everything is stated as pure functions over immutable data. The account collection is a sequence of documents in natural (insertion) order. Each store call that can fail takes a `fault` argument, and the repository passes that failure's message on. A request travels down the router's layer stack, where the session gate sits between the public routes and the protected ones. Each form is a list of validation rules run over a map from field to text.

Modules, in dependency order:

| module | file | models |
|---|---|---|
| `Basics` | basics.dfy | `Option`, settled promises (`Result`), `endsWith`, ASCII case-insensitive substring matching |
| `Numbers` | numbers.dfy | `parseInt` in base 10, the `isNaN` numeral test, the decimal rendering of a page number |
| `DocStore` | doc_store.dfy | the document store as the repository uses it: `findById`, `save`, replace, delete, `find` |
| `Paging` | paging.dfy | `.skip((page - 1) * limit).limit(limit)`, `Math.ceil(count / limit)`, reading pages in turn |
| `UserModel` | user_model.dfy | the seven repository operations |
| `UserController` | user_controller.dfy | the router stack, the session gate, the route handlers, the query parsing of `/searchuser` |
| `Forms` | forms.dfy | what every form shares: `handleChange`, the validation block, the request a valid form issues |
| `AddUserForm`, `SignUpForm`, `LoginForm`, `AddStudentForm`, `AddMarksheetForm` | add_user.dfy, sign_up.dfy, login.dfy, add_student.dfy, add_marksheet.dfy | each form's fields, rules, messages, target path and reset |
| `ListPager` | list_pager.dfy | what both list pages share: the query string, Search/Reset/Next/Previous, row serial numbers |
| `UserList`, `StudentList` | user_list.dfy, student_list.dfy | the two list pages |

Three behaviours of the code are easy to miss, and the model follows the code in each.

- A missing record and bad credentials are answered with status 500 and the repository's message (`User not found`, `Invalid credentials`).
- `/logout` is registered before the session gate, so it is reached without a session.
- `update_user` calls `findByIdAndUpdate` without options. It therefore resolves with the record as it was before the change, and `/updateuser/:id` answers with that old record.

The collection also keeps the last identity it handed out. Generated identities are never reused, so a record added after a delete never takes the deleted record's identity.

## Model

| member | source | states |
|---|---|---|
| `Basics.EndsWith` | testreact/src/components/AddUser.js:73 | `loginId.endsWith('@gmail.com')` (its use is stated by each form's `ValidIffComplete`). |
| `Basics.ContainsIgnoringCase` | testexpressjs/controller/user-controller.js:62-70 | `new RegExp(text, 'i')` matches a value that contains the text, ignoring letter case (its use is stated by `UserModel.MatchingMembers`). |
| `Numbers.ParseInt` | testexpressjs/controller/user-controller.js:72-73 | `parseInt` gives NaN exactly when no digit follows the optional sign. |
| `Numbers.NatToString` | testreact/src/components/UserList.js:26 | The rendered page number is a non-empty run of digits without a leading zero. |
| `Numbers.IntToString` | testreact/src/components/UserList.js:26 | `URLSearchParams` renders the page number in decimal (its value is stated by `Numbers.ParseIntOfIntToString`). |
| `Numbers.ParseIntOfIntToString` | testreact/src/components/UserList.js:26 | Reading back a rendered integer with `parseInt` gives the same integer. |
| `Numbers.IsNumeral` | testreact/src/components/AddMarksheet.js:80-91 | A mark passes `isNaN` when it is a signed decimal with at least one digit (its use is stated by `AddMarksheetForm.FailsIffRuleFails`). |
| `Numbers.IntToStringIsNumeral` | testreact/src/components/AddMarksheet.js:80-91 | Every rendered integer passes the numeral test that `isNaN` applies to marks. |
| `Numbers.OrDefault` | testexpressjs/controller/user-controller.js:72-73 | `parseInt(x) \|\| d` keeps a non-zero parse and falls back to `d` on NaN or 0, so with a non-zero default the result is never 0. |
| `DocStore.FindById` | testexpressjs/models/user-model.js:28-35 | A record is found exactly when one carries the id. The one found is in the collection and carries that id. With unique ids it is the only such record. |
| `DocStore.NextId` | testexpressjs/models/user-model.js:3-8 | The new identity is above every identity in use. |
| `DocStore.Insert` | testexpressjs/models/user-model.js:3-8 | `save` appends the new record last under an identity above every identity handed out before, so not in use and never reused. It keeps the others in order and keeps the collection well formed. |
| `DocStore.ReplaceAt` | testexpressjs/models/user-model.js:10-17 | Replacing keeps the length and every identity. Only the record filed under the id changes. Identities stay unique. |
| `DocStore.RemoveAt` | testexpressjs/models/user-model.js:19-26 | Deleting removes exactly one record and leaves no record under the id. The records before it keep their places, and those after it move up by one in the same order. Nothing new appears. |
| `DocStore.Select` | testexpressjs/models/user-model.js:37-41 | `find(query)` returns no more records than the collection holds (its members are stated by `DocStore.SelectMembers`). |
| `DocStore.SelectMembers` | testexpressjs/models/user-model.js:37-41 | `find(query)` returns exactly the records the query accepts. |
| `DocStore.SelectAll` | testexpressjs/models/user-model.js:37-41 | A query that accepts everything returns the whole collection. |
| `Paging.SkipIsProduct` | testexpressjs/models/user-model.js:39 | The skip of a page is `(page - 1) * limit`. |
| `Paging.SkipIsMonotone` | testexpressjs/models/user-model.js:39 | A later page never starts before an earlier one. |
| `Paging.Window` | testexpressjs/models/user-model.js:38-40 | `.skip(s).limit(l)` returns `min(l, count - s)` matches (all the rest when `l` is 0), and row `i` is match `s + i`. |
| `Paging.TotalPages` | testexpressjs/controller/user-controller.js:83 | With a positive limit, `Math.ceil(count / limit)` is the least number of pages: the last page starts before the count, and the page after it starts at or past it. With a negative limit it is minus the number of whole pages of size `-limit`. |
| `Paging.FirstPagesArePrefix` | testexpressjs/models/user-model.js:37-41 | Reading pages 1 to n in turn gives exactly the matches before page n + 1. |
| `Paging.PagesCoverAllMatches` | testexpressjs/controller/user-controller.js:76-84 | Reading pages 1 to `totalPages` returns every match exactly once, in order. |
| `Paging.PositionOnPage` | testexpressjs/controller/user-controller.js:76-84 | Match k appears on page `k / limit + 1` at row `k % limit`, and that page is within `totalPages`. |
| `Paging.PastLastPageIsEmpty` | testexpressjs/models/user-model.js:37-41 | A page past `totalPages` is empty rather than an error. |
| `Paging.TwelveMatchesFivePerPage` | testexpressjs/controller/user-controller.js:73-83 | With 12 matches and the default limit of 5, page 2 holds matches 6 to 10 and there are 3 pages. |
| `UserModel.PatchExtremes` | testexpressjs/models/user-model.js:10-11 | An empty update body changes nothing. A body carrying every field replaces the whole record. |
| `UserModel.Apply` | testexpressjs/models/user-model.js:10-11 | The update body replaces each field it carries and keeps the others (stated by `UserModel.PatchExtremes` at its extremes, and per record by `UserModel.UpdateUser`). |
| `UserModel.Matching` | testexpressjs/models/user-model.js:37-38 | `find` with the search query returns no more accounts than are stored (its members are stated by `UserModel.MatchingMembers`). |
| `UserModel.MatchingMembers` | testexpressjs/controller/user-controller.js:60-70 | The search matches exactly the accounts whose first name, last name and login id contain every supplied pattern, ignoring case. |
| `UserModel.AnyUserMatchesAll` | testexpressjs/controller/user-controller.js:61 | The empty query matches every account. |
| `UserModel.AddUser` | testexpressjs/models/user-model.js:3-8 | `add_user` appends the account under an id above every id handed out before, and answers with it and "Data added successfully". A store failure is passed on, and the collection is unchanged. |
| `UserModel.UpdateUser` | testexpressjs/models/user-model.js:10-17 | `update_user` applies the body to the record with the id, leaves every other record alone, and resolves with the record as it was before. A missing id gives "User not found" with nothing changed. |
| `UserModel.DeleteUser` | testexpressjs/models/user-model.js:19-26 | `delete_user` removes exactly the record with the id and answers "User deleted successfully". The other records keep their natural order, and the last identity handed out is kept. A missing id gives "User not found" with nothing changed. |
| `UserModel.GetUserById` | testexpressjs/models/user-model.js:28-35 | `get_user_by_id` returns the record with the id, or "User not found". |
| `UserModel.SearchUsers` | testexpressjs/models/user-model.js:37-41 | `search_users` returns `min(limit, matches - skip)` records, and record i is match `(page - 1) * limit + i`. |
| `UserModel.CountUsers` | testexpressjs/models/user-model.js:52-54 | `count_users` is the number of records the same query matches. |
| `UserModel.AuthenticateUser` | testexpressjs/models/user-model.js:43-50 | As written, `authenticate_user` succeeds exactly when some account satisfies both body values, each either a string to equal or a `$ne` operator object. What it returns is such an account from the collection. Otherwise it fails with "Invalid credentials". |
| `UserModel.PasswordBypass` | testexpressjs/models/user-model.js:43-50 | As written, the body `{"loginId": "a@gmail.com", "password": {"$ne": ""}}` signs in as the account with password "p1". The checked lookup refuses that body. |
| `UserModel.AuthenticateChecked` | testexpressjs/models/user-model.js:43-50 | The corrected lookup refuses any body value that is not a string. For string values it succeeds exactly when some account has both the login id and the password, and returns such an account. |
| `UserModel.CheckedLookupAgreesOnText` | testexpressjs/models/user-model.js:43-50 | For string body values the corrected lookup answers as the lookup as written does. |
| `UserModel.AddThenGet` | testexpressjs/models/user-model.js:3-35 | A saved account is what `get_user_by_id` returns for the id it was given. |
| `UserModel.DeleteTwice` | testexpressjs/models/user-model.js:19-26 | A second delete of the same id reports "User not found" and changes nothing. |
| `UserModel.DeletedIdStaysGone` | testexpressjs/models/user-model.js:3-35 | An account added after a delete gets another id, and the deleted id still answers "User not found". |
| `UserModel.DeleteThenGet` | testexpressjs/models/user-model.js:19-35 | After a delete, `get_user_by_id` reports "User not found" for the id. |
| `UserModel.SearchPagesAreWindows` | testexpressjs/models/user-model.js:37-41 | The searches for pages 1 to n, concatenated, are the first n windows of the matches. |
| `UserModel.SearchPagesCoverMatches` | testexpressjs/controller/user-controller.js:76-83 | Searching pages 1 to `ceil(count / limit)` with the count of the same query returns every matching account exactly once, in natural order. |
| `UserModel.AuthenticationScenario` | testexpressjs/models/user-model.js:43-50 | For a string body, the right password authenticates a stored account and a wrong one gives "Invalid credentials", under both the lookup as written and the corrected one. |
| `UserController.Router` | testexpressjs/controller/user-controller.js:14-116 | The stack holds nine layers with one gate, registered after the three routes before `router.use(isAuthenticated)`. |
| `UserController.IsPublic` | testexpressjs/controller/user-controller.js:14-46 | The public requests are `/authenticate`, `/logout` and `/signup` (their reach is stated by `UserController.RouterSplit`). |
| `UserController.Traverse` | testexpressjs/controller/user-controller.js:6-48 | A request is dispatched exactly when a route on the stack matches its endpoint, no earlier layer matches it, and either a user is signed in or no gate precedes the route. It is turned away exactly when nobody is signed in and a gate comes before any matching route. |
| `UserController.RouterSplit` | testexpressjs/controller/user-controller.js:14-116 | `/authenticate`, `/logout` and `/signup` are reached with or without a session. Every other account route is reached only with one, and without a session it is answered by the gate. |
| `UserController.Constraint` | testexpressjs/controller/user-controller.js:62-70 | A query parameter becomes a search constraint exactly when it is present and non-empty, and then with its own text. |
| `UserController.BuildFilter` | testexpressjs/controller/user-controller.js:60-70 | The filter constrains first name, last name and login id, each by its own parameter. |
| `UserController.EmptySearchMatchesAll` | testexpressjs/controller/user-controller.js:60-70 | With no search field filled in, the filter accepts every account. |
| `UserController.PageOf` | testexpressjs/controller/user-controller.js:72 | The page is the parsed `page` parameter, or 1 when it is missing, not a number or 0. It is never 0. |
| `UserController.LimitOf` | testexpressjs/controller/user-controller.js:73 | The limit is the parsed `limit` parameter, or 5 when it is missing, not a number or 0. It is never 0, so the page count never divides by zero. |
| `UserController.Search` | testexpressjs/controller/user-controller.js:60-89 | `/searchuser` changes nothing on the server and answers 200 or 500. |
| `UserController.SignIn` | testexpressjs/controller/user-controller.js:15-24 | A settled lookup that found an account stores it in the session and answers 200 "Authentication successful" with it. A rejected lookup answers 500 with its message and changes nothing. |
| `UserController.Run` | testexpressjs/controller/user-controller.js:14-116 | A handler, once reached, answers 200, 201 or 500, never 401. `/authenticate` runs the lookup as written. |
| `UserController.Add` | testexpressjs/controller/user-controller.js:38-58 | `/signup` and `/adduser` leave the session as it was and answer 201 or 500. |
| `UserController.Handle` | testexpressjs/controller/user-controller.js:6-48 | Without a session, a protected request gets 401 "Unauthorized" and the server state is untouched. With a session, or on a public route, the answer is never 401. |
| `UserController.PublicIgnoresSession` | testexpressjs/controller/user-controller.js:14-46 | The public routes answer the same and leave the same collection, whatever the session holds. |
| `UserController.AuthenticationSeedsSession` | testexpressjs/controller/user-controller.js:14-25 | For a body with string values, `/authenticate` answers 200 exactly when some account has the credentials, and then stores such an account in the session. Otherwise it answers 500 "Invalid credentials" and changes nothing. The collection never changes. |
| `UserController.BypassSeedsSession` | testexpressjs/controller/user-controller.js:14-25 | As written, the login body with password `{"$ne": ""}` is answered 200 and stores the account "a@gmail.com" in the session without its password. |
| `UserController.RunChecked` | testexpressjs/controller/user-controller.js:14-25 | The corrected handler differs from `UserController.Run` only on a login body holding a non-string value. |
| `UserController.HandleChecked` | testexpressjs/controller/user-controller.js:6-48 | The corrected request path differs from `UserController.Handle` only on a login body holding a non-string value. |
| `UserController.OperatorBodiesAreRefused` | testexpressjs/controller/user-controller.js:14-25 | With the checked lookup (`UserController.HandleChecked`), a login body holding a non-string value answers 500 "Invalid credentials" and changes nothing. |
| `UserController.HandleKeepsValid` | testexpressjs/controller/user-controller.js:14-116 | Every request keeps the collection's identities unique and never hands one out twice. |
| `UserController.LogoutLocksProtectedRoutes` | testexpressjs/controller/user-controller.js:27-48 | After logout, every protected route is answered 401 without touching the collection. |
| `UserController.GateSoundness` | testexpressjs/controller/user-controller.js:6-12 | Without a session, no protected handler runs: the answer is 401 whatever the store would have done. |
| `UserController.SearchConsistency` | testexpressjs/controller/user-controller.js:60-89 | A signed-in search with no store failure answers 200 with the page the parsed page and limit select, the count of the same filter, the page number, and `ceil(count / limit)` pages. |
| `UserController.AdmittedRequestsRun` | testexpressjs/controller/user-controller.js:48 | A request the gate lets through is answered by its own handler. |
| `UserController.PageFor` | testexpressjs/controller/user-controller.js:76-84 | The search body holds `min(limit, count - skip)` users, with user i being match `skip + i`. It also holds the total count of matches, the page asked for, and `ceil(count / limit)` pages. |
| `Forms.Complaint` | testreact/src/components/AddUser.js:62-92 | A rule complains exactly when its field is empty or fails its extra test. The Gmail rule uses its "required" message for an empty field and its second message otherwise. |
| `Forms.AllPass` | testreact/src/components/AddUser.js:58-92 | `valid` stays true exactly when every rule passes. |
| `Forms.Messages` | testreact/src/components/AddUser.js:59-94 | The messages object has an entry only for a field whose rule failed, and an entry for every such field. |
| `Forms.MessageText` | testreact/src/components/AddUser.js:59-94 | A failing rule's message survives to the end when no later rule checks the same field. |
| `Forms.FieldMessage` | testreact/src/components/AddUser.js:59-94 | When no two rules share a field, a field has a message exactly when its rule fails, and the message is the one that rule chose. |
| `Forms.Validate` | testreact/src/components/AddUser.js:56-96 | The form is valid exactly when every rule passes, which is exactly when the messages object is empty. |
| `Forms.HandleChange` | testreact/src/components/AddUser.js:50-54 | `handleChange` writes the new text into the named field and clears that field's message. Every other field and message is left as it was. |
| `Forms.Submit` | testreact/src/components/AddUser.js:94-107 | Submitting keeps the fields and replaces the messages with the validation's. A request carrying the whole state object is issued exactly when every rule passed. |
| `Forms.TargetPath` | testreact/src/components/AddUser.js:97 | An add/edit form posts to the edit path with the id when the route carries one, and to the add path otherwise. |
| `Forms.EditAndAddPathsDiffer` | testreact/src/components/AddUser.js:97 | With a non-empty id, an edit never posts to the add path, whenever the edit path is not a prefix of the add path (as in every form). |
| `Forms.MessagesNameEmptyFields` | testreact/src/components/AddStudent.js:61-92 | For a form whose every rule is "required", the messages name exactly the checked fields that are empty. |
| `AddUserForm.HandleSubmit` | testreact/src/components/AddUser.js:96-107 | The add/edit user form posts the whole state object to `/api/user/updateuser/{id}` with an id, and to `/api/user/adduser` without one. |
| `AddUserForm.AfterSuccess` | testreact/src/components/AddUser.js:116-124 | After a successful save all seven fields are empty again. |
| `AddUserForm.FailsIffRuleFails` | testreact/src/components/AddUser.js:62-92 | A user field fails its check exactly when it is empty or, for the login id, does not end in "@gmail.com". |
| `AddUserForm.ValidIffComplete` | testreact/src/components/AddUser.js:56-97 | The user form is valid, and its request goes out, exactly when all seven fields are filled in and the login id ends in "@gmail.com". |
| `AddUserForm.MessagesForFailingFields` | testreact/src/components/AddUser.js:59-94 | Exactly the failing user fields get a message, each the one its check chose. |
| `AddUserForm.LoginIdMessage` | testreact/src/components/AddUser.js:70-76 | The login id's message is "Login ID is required" when it is empty, and "Login ID must be a valid Gmail address" otherwise. |
| `AddUserForm.ChangeThenReset` | testreact/src/components/AddUser.js:50-124 | Editing one field changes only that field. A submit that sends its request sends the edited text, and the reset after that request succeeds returns to the starting fields. |
| `SignUpForm.AfterSuccess` | testreact/src/components/SignUp.js:81 | After sign-up succeeds, the six inputs are empty and the role is "student" again. |
| `SignUpForm.HandleSubmit` | testreact/src/components/SignUp.js:67-74 | Sign-up posts the whole state object, role included, to `/api/user/signup`. |
| `SignUpForm.FailsIffRuleFails` | testreact/src/components/SignUp.js:37-63 | A checked sign-up field fails exactly when it is empty or, for the login id, does not end in "@gmail.com". |
| `SignUpForm.ValidIffComplete` | testreact/src/components/SignUp.js:32-67 | Sign-up is valid, and its request goes out, exactly when the six checked fields are filled in and the login id ends in "@gmail.com". The role is never checked. |
| `SignUpForm.MessagesForFailingFields` | testreact/src/components/SignUp.js:35-65 | Exactly the failing sign-up fields get a message, each the one its check chose. The role never gets one. |
| `SignUpForm.LoginIdMessage` | testreact/src/components/SignUp.js:45-51 | The sign-up login id's message is "Login ID is required" when it is empty, and the Gmail message otherwise. |
| `SignUpForm.ChangeThenReset` | testreact/src/components/SignUp.js:26-81 | Editing one field changes only that field. A submit that sends its request sends the edited text, and the reset after that request succeeds returns to the starting fields, with role "student". |
| `LoginForm.HandleSubmit` | testreact/src/components/Login.js:60-69 | The login form posts the state object to `/api/user/authenticate`. |
| `LoginForm.ValidIffComplete` | testreact/src/components/Login.js:39-60 | Login is valid, and its request goes out, exactly when the login id is filled in and ends in "@gmail.com" and the password is filled in. |
| `LoginForm.MessagesForFailingFields` | testreact/src/components/Login.js:44-56 | Each login field has a message exactly when it fails. The login id's message is "Login ID is required" or "Login ID is not in valid form"; the password's is "Password is required". |
| `LoginForm.LoginIsNeverGated` | testreact/src/components/Login.js:60-69 | The request a valid login form sends is never answered 401 by the session gate. |
| `LoginForm.ChangeOneField` | testreact/src/components/Login.js:27-37 | Editing one login field changes only that field and clears only its message. |
| `AddStudentForm.HandleSubmit` | testreact/src/components/AddStudent.js:94-107 | The student form posts the state object to `/api/student/updatestudent/{id}` with an id, and to `/api/student/addstudent` without one. |
| `AddStudentForm.AfterSuccess` | testreact/src/components/AddStudent.js:114 | After a successful save all six student fields are empty again. |
| `AddStudentForm.MessagesNameEmptyFields` | testreact/src/components/AddStudent.js:61-92 | The student messages name exactly the empty fields. |
| `AddStudentForm.ValidIffComplete` | testreact/src/components/AddStudent.js:61-98 | The student form is valid, and its request goes out, exactly when no field is empty. |
| `AddStudentForm.ChangeThenReset` | testreact/src/components/AddStudent.js:55-114 | Editing one field changes only that field. A submit that sends its request sends the edited text, and the reset after that request succeeds returns to the starting fields. |
| `AddMarksheetForm.RuleFor` | testreact/src/components/AddMarksheet.js:72-91 | Name and roll number are checked as required. Physics, chemistry and maths must be filled in and read as a number. |
| `AddMarksheetForm.HandleSubmit` | testreact/src/components/AddMarksheet.js:97-111 | The marksheet form posts the state object to `/api/marksheet/updateMarksheet/{id}` with an id, and to `/api/marksheet/addMarksheet` without one. |
| `AddMarksheetForm.AfterSuccess` | testreact/src/components/AddMarksheet.js:117 | After a successful save all five marksheet fields are empty again. |
| `AddMarksheetForm.FailsIffRuleFails` | testreact/src/components/AddMarksheet.js:72-91 | A marksheet field fails exactly when it is empty or is a score that is not a number. |
| `AddMarksheetForm.ValidIffComplete` | testreact/src/components/AddMarksheet.js:68-101 | The marksheet form is valid, and its request goes out, exactly when name and roll number are filled in and every score is a number. |
| `AddMarksheetForm.MessagesForFailingFields` | testreact/src/components/AddMarksheet.js:68-93 | Exactly the failing marksheet fields get a message, each its rule's fixed text. |
| `AddMarksheetForm.MessageDependsOnFieldAlone` | testreact/src/components/AddMarksheet.js:72-91 | Whether a marksheet field has a message depends on that field's text alone. |
| `AddMarksheetForm.ChangeThenReset` | testreact/src/components/AddMarksheet.js:62-117 | Editing one field changes only that field. A submit that sends its request sends the edited text, and the reset after that request succeeds returns to the starting fields. |
| `ListPager.FilterQuery` | testreact/src/components/UserList.js:19-24 | The filtered query holds exactly the non-empty search fields, each with its text. |
| `ListPager.Params` | testreact/src/components/UserList.js:26 | The query string holds the non-empty search fields and the page number, and nothing else. |
| `ListPager.EmptySearchSendsPageOnly` | testreact/src/components/UserList.js:87-91 | With an empty search object only the page is sent. |
| `ListPager.Start` | testreact/src/components/UserList.js:9-47 | The first render shows page 1 of 1 and fetches page 1 with the initial search object. |
| `ListPager.SearchChange` | testreact/src/components/UserList.js:77-80 | Typing into a search input sets the key named by the input and changes nothing else. |
| `ListPager.SearchClick` | testreact/src/components/UserList.js:82-85 | Search returns to page 1 and fetches it with the current search object. |
| `ListPager.ResetClick` | testreact/src/components/UserList.js:87-91 | Reset clears the search, returns to page 1, and fetches with `page=1` alone. |
| `ListPager.Next` | testreact/src/components/UserList.js:93-98 | Next advances one page and fetches it only while there is a next page. Otherwise nothing happens. |
| `ListPager.Previous` | testreact/src/components/UserList.js:100-105 | Previous goes back one page and fetches it only while past page 1. Otherwise nothing happens. |
| `ListPager.Receive` | testreact/src/components/UserList.js:35-39 | An answer sets the page count, and "no records" is shown exactly when no row came back. |
| `ListPager.FetchesTheShownPage` | testreact/src/components/UserList.js:82-105 | Search, Next and Previous fetch exactly the page and search the list then shows. |
| `ListPager.StepsKeepRange` | testreact/src/components/UserList.js:82-105 | Every button keeps the current page between 1 and the page count. |
| `ListPager.ReplayStaysInRange` | testreact/src/components/UserList.js:93-105 | Any run of Next/Previous clicks keeps the page in range and changes neither the search nor the page count. |
| `ListPager.ForwardsStopAtLastPage` | testreact/src/components/UserList.js:93-98 | n Next clicks advance n pages but never past the last page. |
| `ListPager.Serial` | testreact/src/components/UserList.js:217 | The number shown in a row (its formula is stated by `ListPager.SerialFormula`). |
| `ListPager.SerialFormula` | testreact/src/components/UserList.js:217 | The serial number of row `index` on page `page` is `(page - 1) * 5 + index + 1`, the number of matches the server skips for that page plus `index + 1`. |
| `ListPager.SerialIsPosition` | testreact/src/components/UserList.js:215-217 | The row at `index` on a page shows, as its serial number, its 1-based position among all matches. |
| `ListPager.SerialsAreDistinct` | testreact/src/components/UserList.js:217 | Two rows carry the same serial number only if they are the same row of the same page. |
| `UserList.Mount` | testreact/src/components/UserList.js:9-47 | The user list first fetches `page=1` alone. |
| `UserList.Reset` | testreact/src/components/UserList.js:87-91 | Reset empties the three user search fields, returns to page 1 and fetches `page=1` alone. |
| `UserList.ServerReadsWhatListSends` | testreact/src/components/UserList.js:18-28 | The server reads the list's query string as the page asked for, the limit 5, and the same filter. |
| `UserList.RowNumbersMatchServer` | testreact/src/components/UserList.js:215-217 | For a signed-in user, the row numbered n is the n-th match of the whole search, and the server reports the page the list asked for. |
| `UserList.NoRecordsMeansPastTheEnd` | testreact/src/components/UserList.js:35-39 | "No records" shows exactly when the page asked for starts at or past the last match. |
| `StudentList.InputName` | testreact/src/components/StudentList.js:97-99 | Each corrected search input is named after the key it displays. |
| `StudentList.TypeAsWritten` | testreact/src/components/StudentList.js:58-98 | As written, typing stores the text under the input's own `name`, including the stray ``sub`ject`` key. |
| `StudentList.Type` | testreact/src/components/StudentList.js:58-99 | With the corrected names, typing sets the displayed field and leaves the other two alone. |
| `StudentList.SubjectTypingIsLost` | testreact/src/components/StudentList.js:58-98 | As written, typing in the subject box changes neither the subject shown nor the subject sent. |
| `StudentList.SubjectSearchCounterexample` | testreact/src/components/StudentList.js:63-98 | As written, typing "Maths" in the subject box and clicking Search sends "Maths" under the stray key and no `subject`. The corrected input sends `subject=Maths`. |
| `StudentList.SearchSendsFilledFields` | testreact/src/components/StudentList.js:18-66 | With the corrected names, Search sends page 1 and the typed field exactly when it is non-empty. |
| `StudentList.Reset` | testreact/src/components/StudentList.js:68-72 | Reset empties the three student search fields, returns to page 1 and fetches `page=1` alone. |

## Left out

- Rendering, styling, routing (`navigate`), `localStorage` and the banner texts. They do not affect what is stored or sent.
- The client-side delete flow of both lists: the confirmation modal, the POST to `/api/user/deleteuser/:id` or `/api/student/deletestudent/:id`, and the refetch of the current page afterwards. Only the server's side of a user delete is modelled, as `UserModel.DeleteUser`; the student delete route is not part of this model.
- The network. A request is modelled as the path and body a form posts, or the query string a list fetches. The API root URL is left out.
- The edit-mode preload of the forms, and the marksheet form's preload of student names. This covers `getuser`, `getstudent` and `getMarksheet`, and the conversion of the date of birth to ISO. These are fetches whose results only fill the form.
- The student and marksheet routes on the server. Their controllers are not part of this model. The client side of those pages is modelled up to the request it sends.
- The account schema's own validation (`user-bean.js`) and Mongoose cast errors for malformed ids. They are not part of this model; any such failure is the `fault` argument of a store call.
- Identities. They are natural numbers handed out in increasing order, instead of generated ObjectIds. Like ObjectIds, they are never reused.
- Sessions. The session store, its cookie and its concurrency are left out. A session is the caller's single entry, and destroying it is modelled by the `destroyFails` flag.
- Dates. The date of birth is kept as text.
- `Basics.ContainsIgnoringCase`: models `new RegExp(text, 'i')` for patterns without metacharacters, with ASCII case folding only. A pattern containing `.`, `*`, `(` and the like, or a malformed pattern that makes `RegExp` throw, is not modelled.
- `Numbers.ParseInt`: decimal digits after an optional sign only. Leading whitespace and JavaScript's handling of `0x` prefixes are not modelled.
- `Numbers.IsNumeral`: models `isNaN` for plain decimal notation only. Leading or trailing whitespace, exponents, hexadecimal and `Infinity`, which JavaScript also reads as numbers, are treated as not numbers.
- `UserModel.SearchUsers`: a negative skip or limit, which the controller allows when a client sends a negative `page` or `limit`, is modelled as a store failure with its own message. The store's real answer to such a request is not modelled, and the contract says nothing about that case.
- `Paging.TotalPages`: there is no floating point. `Math.ceil(count / limit)` is computed on integers, which agrees with it when the count and the limit are below 2^53. A `limit` of more than about 309 digits parses to `Infinity` in JavaScript, and the source then reports 0 pages; the model reports the ceiling instead. The negative-limit case is stated, but in this model the search never reaches it, because the search step fails first on a negative limit (see the `UserModel.SearchUsers` line above). In the source, `GET /searchuser?limit=-5` reaches the count and reports `Math.ceil(count / -5)` pages, which is 0 or less.
- Number width. JavaScript numbers are doubles, and the model uses unbounded integers. `Numbers.ParseInt` and `Numbers.IntToString` agree with `parseInt` and `String` only below 2^53, and `String` switches to exponent notation from 10^21, which no page number reaches.
- `UserController.SearchConsistency`: each request is one atomic step here, so the page and the count see the same collection. In the source, `search_users` and `count_users` are awaited one after the other, and another request can change the collection in between. `UserModel.SearchPagesCoverMatches` likewise assumes the collection does not change while the pages are read.
- `UserModel.AuthenticateUser`: of the query operators a JSON body can carry into `findOne`, only `$ne` is modelled. Others such as `$gt`, `$regex` and `$in` are not, but the checked lookup refuses every non-string value alike.
- Logging (`console.log`, `console.error`) is left out.

## Findings

| source | as written | input that shows it | evidently intended | confidence | as-written member | corrected member |
|---|---|---|---|---|---|---|
| testreact/src/components/StudentList.js:98 | The subject search input is named ``sub`ject`` (with a backtick), so `handleSearchChange` writes under a key the page never reads, and the subject shown and sent stays empty. | From the blank search, type "Maths" in the subject box and click Search: the query string carries `sub%60ject=Maths` (in the browser the controlled input keeps only the last character typed) and `page=1`, but no `subject=`. | The input is named `subject`, like the key it displays, so the typed subject is sent as `subject=Maths`. | not executed | `StudentList.SubjectTypingIsLost`, `StudentList.SubjectSearchCounterexample` | `StudentList.Type`, `StudentList.SearchSendsFilledFields` |
| testexpressjs/models/user-model.js:44 | `authenticate_user` puts the body's `loginId` and `password` into `findOne` unchanged, and the JSON body parser (testexpressjs/app.js:26) lets them be objects, so a `$ne` operator object is honoured. | With an account "a@gmail.com" whose password is "p1", post `{"loginId": "a@gmail.com", "password": {"$ne": ""}}` to `/authenticate`: it answers 200 and signs in as that account. | Only string credentials are looked up, and any other value is refused with "Invalid credentials". | not executed | `UserModel.PasswordBypass`, `UserController.BypassSeedsSession` | `UserModel.AuthenticateChecked`, `UserController.OperatorBodiesAreRefused` |
