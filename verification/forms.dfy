/** What the client's entry forms (add/edit user, sign-up, login, add/edit
    student, add/edit marksheet) have in common: a state object of text
    fields, a change handler that writes one field and clears its message,
    and a validation block that checks the fields in order, collects one
    message per failing field and lets the request go only when nothing
    failed. */
module Forms {
  import opened Basics
  import Numbers

  /** A form's state object, field to text; each form names its fields
      with its own enumeration, matching the `name` attribute of the input
      that edits it. A field that was never set reads as `undefined`, which
      every check treats like ''. */
  type Fields<F> = map<F, string>

  function Value<F>(f: Fields<F>, name: F): string {
    if name in f then f[name] else ""
  }

  /** The three shapes of check the forms use. */
  datatype Check =
      /** `if (!formData.x)` */
    | Required
      /** `if (!x) ... else if (!x.endsWith('@gmail.com'))`, with its own
          message for the second branch */
    | RequiredGmail(suffixMessage: string)
      /** `if (!x || isNaN(x))`, one message for both */
    | RequiredNumber

  datatype Rule<F> = Rule(field: F, check: Check, message: string)

  const GmailSuffix := "@gmail.com"

  /** What the rule asks of a value. */
  predicate Acceptable(check: Check, v: string) {
    v != "" &&
    match check
    case Required => true
    case RequiredGmail(_) => EndsWith(v, GmailSuffix)
    case RequiredNumber => Numbers.IsNumeral(v)
  }

  /** The message a rule records for the field's current value, if it fails. */
  function Complaint<F>(r: Rule<F>, f: Fields<F>): (m: Option<string>)
    ensures m.None? <==> Acceptable(r.check, Value(f, r.field))
    ensures m.Some? && r.check.RequiredGmail? ==>
      m.value == if Value(f, r.field) == "" then r.message else r.check.suffixMessage
    ensures m.Some? && !r.check.RequiredGmail? ==> m.value == r.message
  {
    var v := Value(f, r.field);
    if v == "" then Some(r.message)
    else match r.check
      case Required => None
      case RequiredGmail(second) => if EndsWith(v, GmailSuffix) then None else Some(second)
      case RequiredNumber => if Numbers.IsNumeral(v) then None else Some(r.message)
  }

  predicate Passes<F>(r: Rule<F>, f: Fields<F>) {
    Complaint(r, f).None?
  }

  predicate DistinctFields<F(==)>(rules: seq<Rule<F>>) {
    forall i, j :: 0 <= i < j < |rules| ==> rules[i].field != rules[j].field
  }

  datatype Verdict<F> = Verdict(valid: bool, messages: map<F, string>)

  /** Whether every rule passes, checked in order. */
  function AllPass<F>(rules: seq<Rule<F>>, f: Fields<F>): (ok: bool)
    ensures ok <==> forall i :: 0 <= i < |rules| ==> Passes(rules[i], f)
  {
    if rules == [] then true
    else
      assert forall i :: 1 <= i < |rules| ==> rules[i] == rules[1..][i - 1];
      Passes(rules[0], f) && AllPass(rules[1..], f)
  }

  /** One rule's effect on the messages object: a failing rule records its
      message under its field. */
  function Record<F>(m: map<F, string>, r: Rule<F>, f: Fields<F>): map<F, string> {
    match Complaint(r, f)
    case None => m
    case Some(text) => m[r.field := text]
  }

  /** The messages object built by running the rules in order. */
  function Messages<F(!new)>(rules: seq<Rule<F>>, f: Fields<F>): (m: map<F, string>)
    ensures forall k :: k in m ==>
      exists i :: 0 <= i < |rules| && rules[i].field == k && !Passes(rules[i], f)
    ensures forall i :: 0 <= i < |rules| && !Passes(rules[i], f) ==> rules[i].field in m
  {
    if rules == [] then map[]
    else
      var earlier := rules[..|rules| - 1];
      assert forall i :: 0 <= i < |earlier| ==> earlier[i] == rules[i];
      Record(Messages(earlier, f), rules[|rules| - 1], f)
  }

  /** A failing rule's message survives to the end when no later rule
      checks the same field. */
  lemma {:induction false} MessageText<F(!new)>(rules: seq<Rule<F>>, f: Fields<F>, i: nat)
    requires i < |rules| && !Passes(rules[i], f)
    requires forall j :: i < j < |rules| ==> rules[j].field != rules[i].field
    ensures rules[i].field in Messages(rules, f)
    ensures Messages(rules, f)[rules[i].field] == Complaint(rules[i], f).value
  {
    var earlier := rules[..|rules| - 1];
    var last := rules[|rules| - 1];
    if i < |rules| - 1 {
      assert earlier[i] == rules[i];
      assert forall j :: i < j < |earlier| ==> earlier[j] == rules[j];
      MessageText(earlier, f, i);
      RecordKeepsOtherFields(Messages(earlier, f), last, f, rules[i].field);
    }
  }

  /** A rule leaves the messages of other fields as they were. */
  lemma RecordKeepsOtherFields<F>(m: map<F, string>, r: Rule<F>, f: Fields<F>, k: F)
    requires k != r.field
    ensures k in Record(m, r, f) <==> k in m
    ensures k in m ==> Record(m, r, f)[k] == m[k]
  {
  }

  /** When no two rules share a field, a field has a message exactly when
      its rule fails, and the message is the one that rule chose. */
  lemma FieldMessage<F(!new)>(rules: seq<Rule<F>>, f: Fields<F>, i: nat)
    requires DistinctFields(rules) && i < |rules|
    ensures var m := Messages(rules, f);
      && (rules[i].field in m <==> !Passes(rules[i], f))
      && (rules[i].field in m ==> m[rules[i].field] == Complaint(rules[i], f).value)
  {
    var m := Messages(rules, f);
    if rules[i].field in m {
      var j :| 0 <= j < |rules| && rules[j].field == rules[i].field && !Passes(rules[j], f);
      assert j == i;
    }
    if !Passes(rules[i], f) {
      MessageText(rules, f, i);
    }
  }

  /** The validation block: `valid`, and the messages object it hands to
      `setValidationMessages`. */
  function Validate<F(!new)>(rules: seq<Rule<F>>, f: Fields<F>): (v: Verdict<F>)
    ensures v.valid <==> forall i :: 0 <= i < |rules| ==> Passes(rules[i], f)
    ensures v.valid <==> v.messages == map[]
    ensures v.messages == Messages(rules, f)
  {
    var m := Messages(rules, f);
    assert !AllPass(rules, f) ==> exists i :: 0 <= i < |rules| && rules[i].field in m;
    Verdict(AllPass(rules, f), m)
  }

  /** A form's state: its fields and the messages shown under them. */
  datatype FormState<F> = FormState(data: Fields<F>, messages: map<F, string>)

  /** `handleChange`: `{...formData, [name]: value}` and
      `{...validationMessages, [name]: ''}`. */
  function HandleChange<F(!new)>(s: FormState<F>, name: F, value: string): (t: FormState<F>)
    ensures name in t.data && t.data[name] == value
    ensures name in t.messages && t.messages[name] == ""
    ensures forall k :: k != name ==> (k in t.data <==> k in s.data) && Value(t.data, k) == Value(s.data, k)
    ensures forall k :: k != name ==>
      (k in t.messages <==> k in s.messages) && (k in s.messages ==> t.messages[k] == s.messages[k])
  {
    FormState(s.data[name := value], s.messages[name := ""])
  }

  /** A request the client sends: the path under the API root and the JSON
      body. */
  datatype Post<F> = Post(path: string, body: Fields<F>)

  datatype Submission<F> = Submission(state: FormState<F>, request: Option<Post<F>>)

  /** `handleSubmit` up to the request: the validation block replaces the
      messages, and the request carrying the whole state object is issued
      only when every rule passed. */
  function Submit<F(!new)>(rules: seq<Rule<F>>, s: FormState<F>, path: string): (r: Submission<F>)
    ensures r.state.data == s.data
    ensures r.state.messages == Validate(rules, s.data).messages
    ensures r.request.Some? <==> forall i :: 0 <= i < |rules| ==> Passes(rules[i], s.data)
    ensures r.request.Some? ==> r.request.value == Post(path, s.data)
  {
    var v := Validate(rules, s.data);
    Submission(FormState(s.data, v.messages), if v.valid then Some(Post(path, s.data)) else None)
  }

  /** The path an add/edit form posts to: the edit path with the id when the
      route carries a (truthy) id, the add path otherwise. */
  function TargetPath(id: Option<string>, editPath: string, addPath: string): (path: string)
    ensures id.Some? && id.value != "" ==> path == editPath + id.value
    ensures id.None? || id.value == "" ==> path == addPath
  {
    if id.Some? && id.value != "" then editPath + id.value else addPath
  }

  /** An edit and an add never share a path, provided the edit path is not
      a prefix of the add path. */
  lemma EditAndAddPathsDiffer(id: string, editPath: string, addPath: string)
    requires id != "" && !(editPath <= addPath)
    ensures TargetPath(Some(id), editPath, addPath) != TargetPath(None, editPath, addPath)
  {
  }

  predicate AllRequired<F>(rules: seq<Rule<F>>) {
    forall i :: 0 <= i < |rules| ==> rules[i].check.Required?
  }

  /** For a form whose every check is "required", the messages name exactly
      the empty fields. */
  lemma MessagesNameEmptyFields<F(!new)>(rules: seq<Rule<F>>, f: Fields<F>, k: F)
    requires AllRequired(rules)
    ensures k in Validate(rules, f).messages <==>
      (exists i :: 0 <= i < |rules| && rules[i].field == k) && Value(f, k) == ""
  {
    var v := Validate(rules, f);
    if k in v.messages {
      var i :| 0 <= i < |rules| && rules[i].field == k && !Passes(rules[i], f);
    }
    if (exists i :: 0 <= i < |rules| && rules[i].field == k) && Value(f, k) == "" {
      var i :| 0 <= i < |rules| && rules[i].field == k;
      assert !Passes(rules[i], f);
    }
  }
}
