/** The add/edit marksheet form (testreact/src/components/AddMarksheet.js). */
module AddMarksheetForm {
  import opened Basics
  import opened Forms
  import Numbers

  datatype Field = Name | RollNo | Physics | Chemistry | Maths

  predicate IsScore(k: Field) {
    k == Physics || k == Chemistry || k == Maths
  }

  /** The name and roll number are required; each score must be filled in
      and read as a number. */
  function RuleFor(k: Field): (r: Rule<Field>)
    ensures r.field == k
    ensures r.check == if IsScore(k) then RequiredNumber else Required
  {
    match k
    case Name => Rule(Name, Required, "Name is required.")
    case RollNo => Rule(RollNo, Required, "Roll No is required.")
    case Physics => Rule(Physics, RequiredNumber, "Valid Physics marks are required.")
    case Chemistry => Rule(Chemistry, RequiredNumber, "Valid Chemistry marks are required.")
    case Maths => Rule(Maths, RequiredNumber, "Valid Maths marks are required.")
  }

  /** `validate`, in its order. */
  const Rules: seq<Rule<Field>> := [
    RuleFor(Name), RuleFor(RollNo), RuleFor(Physics), RuleFor(Chemistry), RuleFor(Maths)
  ]

  const Blank: Fields<Field> := map[
    Name := "", RollNo := "", Physics := "", Chemistry := "", Maths := ""]

  const Initial: FormState<Field> := FormState(Blank, map[])

  lemma BlankHasEveryField()
    ensures forall k: Field :: k in Blank && Blank[k] == ""
  {
    forall k: Field ensures k in Blank && Blank[k] == "" {
      match k
      case Name =>
      case RollNo =>
      case Physics =>
      case Chemistry =>
      case Maths =>
    }
  }

  /** `handleSubmit` up to the request: `updateMarksheet/{id}` when the route
      carries an id, `addMarksheet` otherwise; nothing when `validate`
      fails. */
  function HandleSubmit(s: FormState<Field>, id: Option<string>): (r: Submission<Field>)
    ensures r.request.Some? ==> r.request.value.body == s.data
    ensures r.request.Some? && id.Some? && id.value != "" ==>
      r.request.value.path == "/api/marksheet/updateMarksheet/" + id.value
    ensures r.request.Some? && (id.None? || id.value == "") ==>
      r.request.value.path == "/api/marksheet/addMarksheet"
  {
    Submit(Rules, s, TargetPath(id, "/api/marksheet/updateMarksheet/", "/api/marksheet/addMarksheet"))
  }

  /** After the server accepted the form, all five fields are emptied. */
  function AfterSuccess(s: FormState<Field>): (t: FormState<Field>)
    ensures forall k: Field :: k in t.data && t.data[k] == ""
    ensures t.messages == s.messages
  {
    BlankHasEveryField();
    s.(data := Blank)
  }

  function RuleIndex(k: Field): (i: nat)
    ensures i < |Rules| && Rules[i] == RuleFor(k)
  {
    match k
    case Name => 0
    case RollNo => 1
    case Physics => 2
    case Chemistry => 3
    case Maths => 4
  }

  lemma RuleInList(i: nat)
    requires i < |Rules|
    ensures Rules[i] == RuleFor(Rules[i].field)
  {
    if i == 0 {} else if i == 1 {} else if i == 2 {} else if i == 3 {} else {}
  }

  /** A field fails when it is empty, or when it is a score that does not
      read as a number. */
  predicate Fails(f: Fields<Field>, k: Field) {
    Value(f, k) == "" || (IsScore(k) && !Numbers.IsNumeral(Value(f, k)))
  }

  predicate Complete(f: Fields<Field>) {
    forall k: Field :: !Fails(f, k)
  }

  lemma FailsIffRuleFails(f: Fields<Field>, k: Field)
    ensures Fails(f, k) <==> !Passes(RuleFor(k), f)
  {
  }

  /** The form is valid, and the request goes out, exactly when the name and
      roll number are filled in and every score is a number. */
  lemma ValidIffComplete(s: FormState<Field>, id: Option<string>)
    ensures Validate(Rules, s.data).valid <==> Complete(s.data)
    ensures HandleSubmit(s, id).request.Some? <==> Complete(s.data)
  {
    var f := s.data;
    if Complete(f) {
      forall i | 0 <= i < |Rules| ensures Passes(Rules[i], f) {
        RuleInList(i);
        FailsIffRuleFails(f, Rules[i].field);
      }
    } else {
      var k: Field :| Fails(f, k);
      FailsIffRuleFails(f, k);
      assert !Passes(Rules[RuleIndex(k)], f);
    }
  }

  lemma RulesAreDistinct()
    ensures DistinctFields(Rules)
  {
    forall i, j | 0 <= i < j < |Rules| ensures Rules[i].field != Rules[j].field {
      RuleInList(i);
      RuleInList(j);
    }
  }

  /** Each failing field gets its own message, the one its rule names (for a
      score, "Valid ... marks are required." whether it is empty or not a
      number), and a field that passes gets none. */
  lemma MessagesForFailingFields(f: Fields<Field>, k: Field)
    ensures var m := Validate(Rules, f).messages;
      && (k in m <==> Fails(f, k))
      && (k in m ==> m[k] == RuleFor(k).message)
  {
    RulesAreDistinct();
    FailsIffRuleFails(f, k);
    FieldMessage(Rules, f, RuleIndex(k));
  }

  /** Whether a field has a message depends on that field's text alone. */
  lemma MessageDependsOnFieldAlone(f: Fields<Field>, g: Fields<Field>, k: Field)
    requires Value(f, k) == Value(g, k)
    ensures k in Validate(Rules, f).messages <==> k in Validate(Rules, g).messages
  {
    MessagesForFailingFields(f, k);
    MessagesForFailingFields(g, k);
  }

  /** Editing a field changes that field alone; a submit that sends its
      request sends the edited text, and the reset after that request
      succeeds returns to the starting fields. */
  lemma ChangeThenReset(s: FormState<Field>, name: Field, value: string, id: Option<string>)
    ensures var t := HandleChange(s, name, value);
      var sub := HandleSubmit(t, id);
      && Value(t.data, name) == value
      && (forall k :: k != name ==> Value(t.data, k) == Value(s.data, k))
      && (sub.request.Some? ==>
            && Value(sub.request.value.body, name) == value
            && AfterSuccess(sub.state).data == Initial.data)
  {
  }
}
