/**
 Presence validation of a submitted book form (`validate_book_data`):
 every missing required field is reported, in the fixed order title,
 author, ISBN, and the reports are joined with ", " into one message.
 */
module Validation {
  import opened Text

  /** One submitted form value: `request.form.get(name)` is None when the
      browser did not send the field at all. */
  datatype Field = Absent | Given(text: string)

  /** The fields a book form submits; `isAvailable` is the checkbox, which
      only the edit form carries. */
  datatype Form = Form(title: Field, author: Field, isbn: Field, isAvailable: Field)

  /** Python falsiness of a form value: None and "" fail, " " passes. */
  predicate Missing(f: Field)
  {
    f.Absent? || f.text == ""
  }

  const TitleRequired: string := "Title is required"
  const AuthorRequired: string := "Author is required"
  const IsbnRequired: string := "ISBN is required"

  /** All three required fields are present and non-empty. */
  predicate Valid(form: Form)
  {
    !Missing(form.title) && !Missing(form.author) && !Missing(form.isbn)
  }

  /** Position of a violation in the fixed reporting order. */
  function Rank(violation: string): nat
  {
    if violation == TitleRequired then 0
    else if violation == AuthorRequired then 1
    else 2
  }

  /** The violations of `form`, collected rather than failing on the first. */
  function Violations(form: Form): (errs: seq<string>)
    ensures errs == [] <==> Valid(form)
    ensures forall m ::
      m in errs <==>
        || (m == TitleRequired && Missing(form.title))
        || (m == AuthorRequired && Missing(form.author))
        || (m == IsbnRequired && Missing(form.isbn))
    ensures forall i, j :: 0 <= i < j < |errs| ==> Rank(errs[i]) < Rank(errs[j])
  {
    (if Missing(form.title) then [TitleRequired] else [])
    + (if Missing(form.author) then [AuthorRequired] else [])
    + (if Missing(form.isbn) then [IsbnRequired] else [])
  }

  /** The text of the ValidationError raised for `form`: empty exactly when
      there is nothing to report, otherwise starting with the first violation. */
  function Message(form: Form): (m: string)
    ensures m == "" <==> Valid(form)
    ensures !Valid(form) ==> |m| >= |Violations(form)[0]|
    ensures !Valid(form) ==> m[..|Violations(form)[0]|] == Violations(form)[0]
  {
    Join(Violations(form))
  }

  /** The message lists exactly the violations, in order: splitting it on
      ", " recovers them. */
  lemma MessageListsViolations(form: Form)
    requires !Valid(form)
    ensures Split(Message(form)) == Violations(form)
  {
    var errs := Violations(form);
    assert CommaFree(TitleRequired) && CommaFree(AuthorRequired) && CommaFree(IsbnRequired);
    forall i | 0 <= i < |errs|
      ensures CommaFree(errs[i])
    {
      assert errs[i] in errs;
    }
    SplitJoin(errs);
  }

  /** Any non-empty texts pass, blanks included, each field on its own;
      the checkbox is not checked. */
  lemma WhitespaceIsPresent(t: string, a: string, i: string, checkbox: Field)
    requires t != "" && a != "" && i != ""
    ensures Violations(Form(Given(t), Given(a), Given(i), checkbox)) == []
  {
  }

  /** With every field missing, the message names all three, in order. */
  lemma AllMissingMessage(form: Form)
    requires Missing(form.title) && Missing(form.author) && Missing(form.isbn)
    ensures Message(form) == TitleRequired + Separator + AuthorRequired + Separator + IsbnRequired
  {
    var errs := [TitleRequired, AuthorRequired, IsbnRequired];
    assert Violations(form) == errs;
    assert errs[1..] == [AuthorRequired, IsbnRequired];
    assert errs[1..][1..] == [IsbnRequired];
    assert Join(errs[1..][1..]) == IsbnRequired;
    assert Join(errs[1..]) == AuthorRequired + Separator + IsbnRequired;
    assert Join(errs) == TitleRequired + Separator + Join(errs[1..]);
  }
}
