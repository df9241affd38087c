/** The add/edit student form (testreact/src/components/AddStudent.js). */
module AddStudentForm {
  import opened Basics
  import opened Forms

  datatype Field = Name | Subject | School | Dob | MobileNo | Gender

  /** Every field is required; each has its own message. */
  function RuleFor(k: Field): (r: Rule<Field>)
    ensures r.field == k && r.check == Required
  {
    match k
    case Name => Rule(Name, Required, "Name is required.")
    case Subject => Rule(Subject, Required, "Subject is required.")
    case School => Rule(School, Required, "School is required.")
    case Dob => Rule(Dob, Required, "Date of Birth is required.")
    case MobileNo => Rule(MobileNo, Required, "Mobile No is required.")
    case Gender => Rule(Gender, Required, "Gender is required.")
  }

  /** `validate`, in its order. */
  const Rules: seq<Rule<Field>> := [
    RuleFor(Name), RuleFor(Subject), RuleFor(School), RuleFor(Dob),
    RuleFor(MobileNo), RuleFor(Gender)
  ]

  const Blank: Fields<Field> := map[
    Name := "", Subject := "", School := "", Dob := "", MobileNo := "", Gender := ""]

  const Initial: FormState<Field> := FormState(Blank, map[])

  lemma BlankHasEveryField()
    ensures forall k: Field :: k in Blank && Blank[k] == ""
  {
    forall k: Field ensures k in Blank && Blank[k] == "" {
      match k
      case Name =>
      case Subject =>
      case School =>
      case Dob =>
      case MobileNo =>
      case Gender =>
    }
  }

  /** `handleSubmit` up to the request: `updatestudent/{id}` when the route
      carries an id, `addstudent` otherwise; nothing when `validate` fails. */
  function HandleSubmit(s: FormState<Field>, id: Option<string>): (r: Submission<Field>)
    ensures r.request.Some? ==> r.request.value.body == s.data
    ensures r.request.Some? && id.Some? && id.value != "" ==>
      r.request.value.path == "/api/student/updatestudent/" + id.value
    ensures r.request.Some? && (id.None? || id.value == "") ==>
      r.request.value.path == "/api/student/addstudent"
  {
    Submit(Rules, s, TargetPath(id, "/api/student/updatestudent/", "/api/student/addstudent"))
  }

  /** After the server accepted the form, all six fields are emptied. */
  function AfterSuccess(s: FormState<Field>): (t: FormState<Field>)
    ensures forall k: Field :: k in t.data && t.data[k] == ""
    ensures t.messages == s.messages
  {
    BlankHasEveryField();
    s.(data := Blank)
  }

  function RuleIndex(k: Field): (i: nat)
    ensures i < |Rules| && Rules[i] == RuleFor(k)
  {
    match k
    case Name => 0
    case Subject => 1
    case School => 2
    case Dob => 3
    case MobileNo => 4
    case Gender => 5
  }

  lemma RuleInList(i: nat)
    requires i < |Rules|
    ensures Rules[i] == RuleFor(Rules[i].field)
  {
    if i == 0 {} else if i == 1 {} else if i == 2 {} else if i == 3 {}
    else if i == 4 {} else {}
  }

  predicate Complete(f: Fields<Field>) {
    forall k: Field :: Value(f, k) != ""
  }

  /** The messages name exactly the empty fields. */
  lemma MessagesNameEmptyFields(f: Fields<Field>, k: Field)
    ensures k in Validate(Rules, f).messages <==> Value(f, k) == ""
  {
    assert AllRequired(Rules) by {
      forall i | 0 <= i < |Rules| ensures Rules[i].check.Required? {
        RuleInList(i);
      }
    }
    assert Rules[RuleIndex(k)].field == k;
    Forms.MessagesNameEmptyFields(Rules, f, k);
  }

  /** The form is valid, and the request goes out, exactly when no field is
      empty. */
  lemma ValidIffComplete(s: FormState<Field>, id: Option<string>)
    ensures Validate(Rules, s.data).valid <==> Complete(s.data)
    ensures HandleSubmit(s, id).request.Some? <==> Complete(s.data)
  {
    var f := s.data;
    if Complete(f) {
      forall i | 0 <= i < |Rules| ensures Passes(Rules[i], f) {
        RuleInList(i);
      }
    } else {
      var k: Field :| Value(f, k) == "";
      var i := RuleIndex(k);
      assert !Passes(Rules[i], f);
    }
  }

  /** Editing a field changes that field alone; a submit that sends its
      request sends the edited text, and the reset after that request
      succeeds returns to the starting fields. */
  lemma ChangeThenReset(s: FormState<Field>, name: Field, value: string, id: Option<string>)
    ensures var t := HandleChange(s, name, value);
      var sub := HandleSubmit(t, id);
      && Value(t.data, name) == value
      && (forall k :: k != name ==> Value(t.data, k) == Value(s.data, k))
      && (sub.request.Some? ==>
            && Value(sub.request.value.body, name) == value
            && AfterSuccess(sub.state).data == Initial.data)
  {
  }
}
