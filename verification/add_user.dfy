/** The add/edit user form (testreact/src/components/AddUser.js). */
module AddUserForm {
  import opened Basics
  import opened Forms

  /** The keys of the form's state object, one per input. */
  datatype Field = FirstName | LastName | LoginId | Password | Dob | Gender | Role

  const LoginIdRequired := "Login ID is required"
  const LoginIdNotGmail := "Login ID must be a valid Gmail address"

  /** The check on each field and the message it records. */
  function RuleFor(k: Field): (r: Rule<Field>)
    ensures r.field == k
  {
    match k
    case FirstName => Rule(FirstName, Required, "First Name is required")
    case LastName => Rule(LastName, Required, "Last Name is required")
    case LoginId => Rule(LoginId, RequiredGmail(LoginIdNotGmail), LoginIdRequired)
    case Password => Rule(Password, Required, "Password is required")
    case Dob => Rule(Dob, Required, "Date of Birth is required")
    case Gender => Rule(Gender, Required, "Gender is required")
    case Role => Rule(Role, Required, "Role is required")
  }

  /** The validation block, in its order. */
  const Rules: seq<Rule<Field>> := [
    RuleFor(FirstName), RuleFor(LastName), RuleFor(LoginId), RuleFor(Password),
    RuleFor(Dob), RuleFor(Gender), RuleFor(Role)
  ]

  /** The state object the form starts from and is reset to. */
  const Blank: Fields<Field> := map[
    FirstName := "", LastName := "", LoginId := "", Password := "",
    Dob := "", Gender := "", Role := ""]

  const Initial: FormState<Field> := FormState(Blank, map[])

  /** `handleSubmit` up to the request: `updateuser/{id}` when the route
      carries an id, `adduser` otherwise. */
  function HandleSubmit(s: FormState<Field>, id: Option<string>): (r: Submission<Field>)
    ensures r.request.Some? ==> r.request.value.body == s.data
    ensures r.request.Some? && id.Some? && id.value != "" ==>
      r.request.value.path == "/api/user/updateuser/" + id.value
    ensures r.request.Some? && (id.None? || id.value == "") ==>
      r.request.value.path == "/api/user/adduser"
  {
    Submit(Rules, s, TargetPath(id, "/api/user/updateuser/", "/api/user/adduser"))
  }

  /** After the server accepted the form, all seven fields are emptied. */
  function AfterSuccess(s: FormState<Field>): (t: FormState<Field>)
    ensures forall k: Field :: k in t.data && t.data[k] == ""
    ensures t.messages == s.messages
  {
    BlankHasEveryField();
    s.(data := Blank)
  }

  lemma BlankHasEveryField()
    ensures forall k: Field :: k in Blank && Blank[k] == ""
  {
    forall k: Field ensures k in Blank && Blank[k] == "" {
      match k
      case FirstName =>
      case LastName =>
      case LoginId =>
      case Password =>
      case Dob =>
      case Gender =>
      case Role =>
    }
  }

  predicate Complete(f: Fields<Field>) {
    && Value(f, FirstName) != ""
    && Value(f, LastName) != ""
    && Value(f, LoginId) != ""
    && EndsWith(Value(f, LoginId), GmailSuffix)
    && Value(f, Password) != ""
    && Value(f, Dob) != ""
    && Value(f, Gender) != ""
    && Value(f, Role) != ""
  }

  /** The rule that checks field `k`. */
  function RuleIndex(k: Field): (i: nat)
    ensures i < |Rules| && Rules[i].field == k
  {
    match k
    case FirstName => 0
    case LastName => 1
    case LoginId => 2
    case Password => 3
    case Dob => 4
    case Gender => 5
    case Role => 6
  }

  /** A field fails exactly when it is empty, or, for the login id, when it
      does not end in "@gmail.com". */
  predicate Fails(f: Fields<Field>, k: Field) {
    Value(f, k) == "" || (k == LoginId && !EndsWith(Value(f, k), GmailSuffix))
  }

  lemma FailsIffRuleFails(f: Fields<Field>, k: Field)
    ensures Fails(f, k) <==> !Passes(RuleFor(k), f)
    ensures Rules[RuleIndex(k)] == RuleFor(k)
  {
  }

  /** Each rule in the list is the one for its field. */
  lemma RuleInList(i: nat)
    requires i < |Rules|
    ensures Rules[i] == RuleFor(Rules[i].field)
  {
    if i == 0 {} else if i == 1 {} else if i == 2 {} else if i == 3 {}
    else if i == 4 {} else if i == 5 {} else {}
  }

  /** The form is valid, and the request goes out, exactly when all seven
      fields are filled in and the login id ends in "@gmail.com". */
  lemma ValidIffComplete(s: FormState<Field>, id: Option<string>)
    ensures Validate(Rules, s.data).valid <==> Complete(s.data)
    ensures HandleSubmit(s, id).request.Some? <==> Complete(s.data)
  {
    RulesPassIffComplete(s.data);
  }

  lemma RulesPassIffComplete(f: Fields<Field>)
    ensures (forall i :: 0 <= i < |Rules| ==> Passes(Rules[i], f)) <==> Complete(f)
  {
    if Complete(f) {
      forall i | 0 <= i < |Rules| ensures Passes(Rules[i], f) {
        RuleInList(i);
        FailsIffRuleFails(f, Rules[i].field);
      }
    } else {
      var k: Field :| Fails(f, k);
      assert Fails(f, k);
      FailsIffRuleFails(f, k);
      assert !Passes(Rules[RuleIndex(k)], f);
    }
  }

  /** The messages name exactly the failing fields, each with the text its
      rule chose. */
  lemma MessagesForFailingFields(f: Fields<Field>, k: Field)
    ensures var m := Validate(Rules, f).messages;
      && (k in m <==> Fails(f, k))
      && (k in m ==> m[k] == Complaint(RuleFor(k), f).value)
  {
    RulesAreDistinct();
    FailsIffRuleFails(f, k);
    FieldMessage(Rules, f, RuleIndex(k));
  }

  lemma RulesAreDistinct()
    ensures DistinctFields(Rules)
  {
    forall i, j | 0 <= i < j < |Rules| ensures Rules[i].field != Rules[j].field {
      RuleInList(i);
      RuleInList(j);
    }
  }

  /** The login id gets at most one message: "required" when it is empty,
      the Gmail one when it is filled in with another ending. */
  lemma LoginIdMessage(f: Fields<Field>)
    ensures var m := Validate(Rules, f).messages;
      LoginId in m ==> m[LoginId] == if Value(f, LoginId) == "" then LoginIdRequired else LoginIdNotGmail
  {
    MessagesForFailingFields(f, LoginId);
  }

  /** Editing a field changes that field alone; a submit that sends its
      request sends the edited text, and the reset after that request
      succeeds returns to the starting fields. */
  lemma ChangeThenReset(s: FormState<Field>, name: Field, value: string, id: Option<string>)
    ensures var t := HandleChange(s, name, value);
      var sub := HandleSubmit(t, id);
      && Value(t.data, name) == value
      && (forall k :: k != name ==> Value(t.data, k) == Value(s.data, k))
      && (sub.request.Some? ==>
            && Value(sub.request.value.body, name) == value
            && AfterSuccess(sub.state).data == Initial.data)
  {
  }
}
