/** The self-service sign-up form (testreact/src/components/SignUp.js). */
module SignUpForm {
  import opened Basics
  import opened Forms

  /** The keys of the form's state object; `Role` has no input of its own. */
  datatype Field = FirstName | LastName | LoginId | Password | Dob | Gender | Role

  const LoginIdRequired := "Login ID is required"
  const LoginIdNotGmail := "Login ID must be a valid Gmail address"
  const DefaultRole := "student"

  /** The check on each validated field and the message it records. */
  function RuleFor(k: Field): (r: Rule<Field>)
    requires k != Role
    ensures r.field == k
  {
    match k
    case FirstName => Rule(FirstName, Required, "First Name is required")
    case LastName => Rule(LastName, Required, "Last Name is required")
    case LoginId => Rule(LoginId, RequiredGmail(LoginIdNotGmail), LoginIdRequired)
    case Password => Rule(Password, Required, "Password is required")
    case Dob => Rule(Dob, Required, "Date of Birth is required")
    case Gender => Rule(Gender, Required, "Gender is required")
  }

  /** The validation block, in its order; the role is never checked. */
  const Rules: seq<Rule<Field>> := [
    RuleFor(FirstName), RuleFor(LastName), RuleFor(LoginId), RuleFor(Password),
    RuleFor(Dob), RuleFor(Gender)
  ]

  /** The state object the form starts from and is reset to: six empty
      fields and the role "student". */
  const Fresh: Fields<Field> := map[
    FirstName := "", LastName := "", LoginId := "", Password := "",
    Dob := "", Gender := "", Role := DefaultRole]

  const Initial: FormState<Field> := FormState(Fresh, map[])

  lemma FreshHasEveryField()
    ensures forall k: Field :: k in Fresh && Fresh[k] == (if k == Role then DefaultRole else "")
  {
    forall k: Field ensures k in Fresh && Fresh[k] == (if k == Role then DefaultRole else "") {
      match k
      case FirstName =>
      case LastName =>
      case LoginId =>
      case Password =>
      case Dob =>
      case Gender =>
      case Role =>
    }
  }

  /** `handleSubmit` up to the request, which always goes to `signup`. */
  function HandleSubmit(s: FormState<Field>): (r: Submission<Field>)
    ensures r.request.Some? ==> r.request.value == Post("/api/user/signup", s.data)
  {
    Submit(Rules, s, "/api/user/signup")
  }

  /** After the server accepted the form, the six inputs are emptied and the
      role is "student" again, whatever it held. */
  function AfterSuccess(s: FormState<Field>): (t: FormState<Field>)
    ensures forall k: Field :: k in t.data && t.data[k] == (if k == Role then DefaultRole else "")
    ensures t.messages == s.messages
  {
    FreshHasEveryField();
    s.(data := Fresh)
  }

  predicate Complete(f: Fields<Field>) {
    && Value(f, FirstName) != ""
    && Value(f, LastName) != ""
    && Value(f, LoginId) != ""
    && EndsWith(Value(f, LoginId), GmailSuffix)
    && Value(f, Password) != ""
    && Value(f, Dob) != ""
    && Value(f, Gender) != ""
  }

  /** A field fails exactly when it is one of the six checked ones and is
      empty, or is the login id and does not end in "@gmail.com". */
  predicate Fails(f: Fields<Field>, k: Field) {
    k != Role && (Value(f, k) == "" || (k == LoginId && !EndsWith(Value(f, k), GmailSuffix)))
  }

  /** The rule that checks field `k`. */
  function RuleIndex(k: Field): (i: nat)
    requires k != Role
    ensures i < |Rules| && Rules[i] == RuleFor(k)
  {
    match k
    case FirstName => 0
    case LastName => 1
    case LoginId => 2
    case Password => 3
    case Dob => 4
    case Gender => 5
  }

  /** Each rule in the list is the one for its field, and none is for the
      role. */
  lemma RuleInList(i: nat)
    requires i < |Rules|
    ensures Rules[i].field != Role && Rules[i] == RuleFor(Rules[i].field)
  {
    if i == 0 {} else if i == 1 {} else if i == 2 {} else if i == 3 {}
    else if i == 4 {} else {}
  }

  lemma FailsIffRuleFails(f: Fields<Field>, k: Field)
    requires k != Role
    ensures Fails(f, k) <==> !Passes(RuleFor(k), f)
  {
  }

  /** The form is valid, and the request goes out, exactly when the six
      checked fields are filled in and the login id ends in "@gmail.com";
      the role may hold anything. */
  lemma ValidIffComplete(s: FormState<Field>)
    ensures Validate(Rules, s.data).valid <==> Complete(s.data)
    ensures HandleSubmit(s).request.Some? <==> Complete(s.data)
  {
    RulesPassIffComplete(s.data);
  }

  lemma RulesPassIffComplete(f: Fields<Field>)
    ensures (forall i :: 0 <= i < |Rules| ==> Passes(Rules[i], f)) <==> Complete(f)
  {
    if Complete(f) {
      forall i | 0 <= i < |Rules| ensures Passes(Rules[i], f) {
        RuleInList(i);
        FailsIffRuleFails(f, Rules[i].field);
      }
    } else {
      var k: Field :| Fails(f, k);
      assert Fails(f, k);
      FailsIffRuleFails(f, k);
      var i := RuleIndex(k);
      assert !Passes(Rules[i], f);
    }
  }

  /** The messages name exactly the failing fields, each with the text its
      rule chose. */
  lemma MessagesForFailingFields(f: Fields<Field>, k: Field)
    ensures var m := Validate(Rules, f).messages;
      && (k in m <==> Fails(f, k))
      && (k in m ==> k != Role && m[k] == Complaint(RuleFor(k), f).value)
  {
    var m := Validate(Rules, f).messages;
    if k == Role {
      if k in m {
        var i :| 0 <= i < |Rules| && Rules[i].field == k && !Passes(Rules[i], f);
        RuleInList(i);
      }
      return;
    }
    RulesAreDistinct();
    FailsIffRuleFails(f, k);
    FieldMessage(Rules, f, RuleIndex(k));
  }

  lemma RulesAreDistinct()
    ensures DistinctFields(Rules)
  {
    forall i, j | 0 <= i < j < |Rules| ensures Rules[i].field != Rules[j].field {
      RuleInList(i);
      RuleInList(j);
    }
  }

  /** The login id gets at most one message: "required" when it is empty,
      the Gmail one when it is filled in with another ending. */
  lemma LoginIdMessage(f: Fields<Field>)
    ensures var m := Validate(Rules, f).messages;
      LoginId in m ==> m[LoginId] == if Value(f, LoginId) == "" then LoginIdRequired else LoginIdNotGmail
  {
    MessagesForFailingFields(f, LoginId);
  }

  /** Editing a field changes that field alone; a submit that sends its
      request sends the edited text, and the reset after that request
      succeeds returns to the starting fields. */
  lemma ChangeThenReset(s: FormState<Field>, name: Field, value: string)
    ensures var t := HandleChange(s, name, value);
      var sub := HandleSubmit(t);
      && Value(t.data, name) == value
      && (forall k :: k != name ==> Value(t.data, k) == Value(s.data, k))
      && (sub.request.Some? ==>
            && Value(sub.request.value.body, name) == value
            && AfterSuccess(sub.state).data == Initial.data)
  {
  }
}
