/** The login form (testreact/src/components/Login.js). */
module LoginForm {
  import opened Basics
  import opened Forms
  import UserController
  import UserModel

  datatype Field = LoginId | Password

  const LoginIdRequired := "Login ID is required"
  const LoginIdMalformed := "Login ID is not in valid form"
  const PasswordRequired := "Password is required"

  const Rules: seq<Rule<Field>> := [
    Rule(LoginId, RequiredGmail(LoginIdMalformed), LoginIdRequired),
    Rule(Password, Required, PasswordRequired)
  ]

  /** Both fields start empty, and so do both messages. */
  const Initial: FormState<Field> :=
    FormState(map[LoginId := "", Password := ""], map[LoginId := "", Password := ""])

  /** `handleSubmit` up to the request, which always goes to `authenticate`. */
  function HandleSubmit(s: FormState<Field>): (r: Submission<Field>)
    ensures r.request.Some? ==> r.request.value == Post("/api/user/authenticate", s.data)
  {
    Submit(Rules, s, "/api/user/authenticate")
  }

  predicate Complete(f: Fields<Field>) {
    && Value(f, LoginId) != ""
    && EndsWith(Value(f, LoginId), GmailSuffix)
    && Value(f, Password) != ""
  }

  /** The form is valid, and the request goes out, exactly when the login id
      is filled in and ends in "@gmail.com" and the password is filled in. */
  lemma ValidIffComplete(s: FormState<Field>)
    ensures Validate(Rules, s.data).valid <==> Complete(s.data)
    ensures HandleSubmit(s).request.Some? <==> Complete(s.data)
  {
    var f := s.data;
    assert Passes(Rules[0], f) <==> Value(f, LoginId) != "" && EndsWith(Value(f, LoginId), GmailSuffix);
    assert Passes(Rules[1], f) <==> Value(f, Password) != "";
  }

  /** Each field has a message exactly when it fails; the login id's message
      is "required" when it is empty and "not in valid form" otherwise. */
  lemma MessagesForFailingFields(f: Fields<Field>)
    ensures var m := Validate(Rules, f).messages;
      && (LoginId in m <==> Value(f, LoginId) == "" || !EndsWith(Value(f, LoginId), GmailSuffix))
      && (LoginId in m ==> m[LoginId] == if Value(f, LoginId) == "" then LoginIdRequired else LoginIdMalformed)
      && (Password in m <==> Value(f, Password) == "")
      && (Password in m ==> m[Password] == PasswordRequired)
  {
    assert DistinctFields(Rules);
    FieldMessage(Rules, f, 0);
    FieldMessage(Rules, f, 1);
  }

  /** The request the form sends, as the account routes read it. */
  function ToRequest(p: Post<Field>): UserController.Request {
    UserController.Authenticate(UserModel.Text(Value(p.body, LoginId)), UserModel.Text(Value(p.body, Password)))
  }

  /** The login request reaches its handler without a session: whatever the
      server answers, it is not the gate's 401. */
  lemma LoginIsNeverGated(s: FormState<Field>, sv: UserController.Server, env: UserController.Faults)
    requires HandleSubmit(s).request.Some?
    ensures UserController.Handle(sv, ToRequest(HandleSubmit(s).request.value), env).response.status != 401
  {
  }

  /** Editing a field changes that field alone and clears its message
      alone. */
  lemma ChangeOneField(s: FormState<Field>, name: Field, value: string)
    ensures var t := HandleChange(s, name, value);
      && Value(t.data, name) == value
      && (forall k :: k != name ==> Value(t.data, k) == Value(s.data, k))
      && t.messages[name] == ""
      && (forall k :: k != name && k in s.messages ==> t.messages[k] == s.messages[k])
  {
  }
}
