/** The student list page (testreact/src/components/StudentList.js): a
    pager over the student search route, with name, subject and mobile
    number search fields. The student routes themselves are not part of
    this model; the page is modelled up to the query string it sends. */
module StudentList {
  import opened Basics
  import opened ListPager
  import Numbers
  import Forms

  /** The search object as first rendered and after Reset. */
  const Blank: Query := map["name" := "", "subject" := "", "mobileNo" := ""]

  datatype SearchField = NameField | SubjectField | MobileField

  /** The key of the search object each input is displayed from. */
  function Key(f: SearchField): string {
    match f
    case NameField => "name"
    case SubjectField => "subject"
    case MobileField => "mobileNo"
  }

  /** The `name` attribute of each input as written: the subject input's
      carries a stray backtick. */
  function InputNameAsWritten(f: SearchField): string {
    match f
    case NameField => "name"
    case SubjectField => "sub`ject"
    case MobileField => "mobileNo"
  }

  /** The `name` attribute each input evidently should carry: the key it is
      displayed from. */
  function InputName(f: SearchField): (name: string)
    ensures name == Key(f)
  {
    match f
    case NameField => "name"
    case SubjectField => "subject"
    case MobileField => "mobileNo"
  }

  /** Typing into an input, as written: the text goes under the input's
      `name`, whether or not the page reads that key. */
  function TypeAsWritten(p: Pager, f: SearchField, value: string): (t: Pager)
    ensures InputNameAsWritten(f) in t.search && t.search[InputNameAsWritten(f)] == value
  {
    SearchChange(p, InputNameAsWritten(f), value)
  }

  /** Typing into an input with the corrected name: the field it shows
      receives the text. */
  function Type(p: Pager, f: SearchField, value: string): (t: Pager)
    ensures Key(f) in t.search && t.search[Key(f)] == value
    ensures forall g :: g != f ==> Forms.Value(t.search, Key(g)) == Forms.Value(p.search, Key(g))
  {
    SearchChange(p, InputName(f), value)
  }

  /** As written, typing into the subject input never changes the subject
      the page shows or sends. */
  lemma SubjectTypingIsLost(p: Pager, value: string)
    ensures Forms.Value(TypeAsWritten(p, SubjectField, value).search, "subject") == Forms.Value(p.search, "subject")
    ensures Forms.Value(SearchClick(TypeAsWritten(p, SubjectField, value)).fetch.value, "subject") ==
            Forms.Value(SearchClick(p).fetch.value, "subject")
  {
  }

  /** The discrepancy on one input: starting from the blank search, typing
      "Maths" into the subject box and clicking Search sends the text under
      the stray key and no subject at all, while the corrected input sends
      "subject=Maths". */
  lemma SubjectSearchCounterexample()
    ensures var p := Start(Blank).pager;
      var sent := SearchClick(TypeAsWritten(p, SubjectField, "Maths")).fetch.value;
      && "subject" !in sent
      && "sub`ject" in sent && sent["sub`ject"] == "Maths"
      && SearchClick(Type(p, SubjectField, "Maths")).fetch.value["subject"] == "Maths"
  {
    var p := Start(Blank).pager;
    assert Blank["subject"] == "";
    assert "sub`ject" != "subject";
  }

  /** With the corrected names, a Search sends exactly the fields that are
      filled in, each with its text, and page 1. */
  lemma SearchSendsFilledFields(p: Pager, f: SearchField, value: string)
    ensures var s := SearchClick(Type(p, f, value));
      && s.pager.currentPage == 1
      && s.fetch.value["page"] == "1"
      && (Key(f) in s.fetch.value <==> value != "")
      && (value != "" ==> s.fetch.value[Key(f)] == value)
  {
    assert Numbers.IntToString(1) == "1";
    assert Key(f) != "page";
  }

  /** Reset clears all three search fields and restarts at page 1 with only
      the page sent. */
  function Reset(p: Pager): (s: Step)
    ensures forall f: SearchField :: Forms.Value(s.pager.search, Key(f)) == ""
    ensures s.pager.currentPage == 1
    ensures s.fetch == Some(map["page" := "1"])
  {
    ResetClick(p, Blank)
  }
}
