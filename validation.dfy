/** validateForm: the required-field checks of script.js and the error annotations they leave on the page.

    A form is an array of its controls in document order. Each control is a record of what the validator
    reads (required flag, input type, current value) and what it writes (the `error` class, and the
    elements that follow the control, where an inline `error-message` span lives). */
module FormValidation {
  import opened Text
  import opened Email
  import opened Wrappers

  datatype Kind = EmailInput | PasswordInput | OtherInput

  /** An element after a control: a span carrying the `error-message` class and its text, or anything else. */
  datatype Sibling = ErrorSpan(text: string) | OtherElement

  datatype Field = Field(
    required: bool,
    kind: Kind,
    value: string,
    defaultValue: string,  // what form.reset() restores
    hasErrorClass: bool,
    after: seq<Sibling>    // the following siblings; after[0] is nextElementSibling
  )

  const RequiredMessage: string := "This field is required"
  const EmailMessage: string := "Please enter a valid email"
  const PasswordMessage: string := "Password must be at least 6 characters"
  const MinPasswordLength: nat := 6

  /** The three ways a required field can fail, in the order the validator looks for them. */
  datatype Failure = Missing | BadEmail | WeakPassword

  function MessageFor(e: Failure): string
  {
    match e
    case Missing => RequiredMessage
    case BadEmail => EmailMessage
    case WeakPassword => PasswordMessage
  }

  /** A required field passes when it is not blank after trimming, an email field's untrimmed value has
      the email shape, and a password field's untrimmed value has at least six characters. */
  predicate Passes(f: Field)
    ensures Passes(f) ==> !AllWhitespace(f.value)
    ensures Passes(f) && f.kind == EmailInput ==> 5 <= |f.value|
    ensures Passes(f) && f.kind == PasswordInput ==> MinPasswordLength <= |f.value|
  {
    !IsBlank(f.value) &&
    (f.kind == EmailInput ==> ValidateEmail(f.value)) &&
    (f.kind == PasswordInput ==> |f.value| >= MinPasswordLength)
  }

  /** The failure the validator reports for a field, if any: the blank check wins over the type checks,
      which run only on a non-blank value. */
  function FailureOf(f: Field): (r: Option<Failure>)
    ensures r == None <==> Passes(f)
    ensures r == Some(Missing) <==> IsBlank(f.value)
    ensures r == Some(BadEmail) ==> f.kind == EmailInput
    ensures r == Some(WeakPassword) ==> f.kind == PasswordInput
  {
    if IsBlank(f.value) then Some(Missing)
    else if f.kind == EmailInput && !ValidateEmail(f.value) then Some(BadEmail)
    else if f.kind == PasswordInput && |f.value| < MinPasswordLength then Some(WeakPassword)
    else None
  }

  /** The siblings once a leading `error-message` span, if any, is gone. */
  function DropErrorSpan(after: seq<Sibling>): seq<Sibling>
  {
    if after != [] && after[0].ErrorSpan? then after[1..] else after
  }

  /** The required-field annotation of one pass. A blank field gets the `error` class and a leading
      "required" span (an existing one is reused, otherwise one is inserted). Any other field first loses
      its leading error span; a type failure then re-classes and re-texts whatever element now follows
      the field, or inserts a new span when nothing does. */
  function Annotate(f: Field): Field
  {
    var cleared := DropErrorSpan(f.after);
    match FailureOf(f)
    case None => f.(hasErrorClass := false, after := cleared)
    case Some(Missing) => f.(hasErrorClass := true, after := [ErrorSpan(RequiredMessage)] + cleared)
    case Some(e) =>
      f.(hasErrorClass := true, after := [ErrorSpan(MessageFor(e))] + (if cleared == [] then [] else cleared[1..]))
  }

  /** querySelectorAll('input[required], textarea[required], select[required]') picks the required
      controls; the others are left as they are. */
  function AnnotateAll(fs: seq<Field>): (r: seq<Field>)
    ensures |r| == |fs|
  {
    seq(|fs|, i requires 0 <= i < |fs| => if fs[i].required then Annotate(fs[i]) else fs[i])
  }

  predicate AllRequiredPass(fs: seq<Field>)
  {
    forall i :: 0 <= i < |fs| && fs[i].required ==> Passes(fs[i])
  }

  /** The inline message a field shows: the text of the `error-message` span right after it, if any. */
  function Message(f: Field): Option<string>
  {
    if f.after != [] && f.after[0].ErrorSpan? then Some(f.after[0].text) else None
  }

  /** Two `error-message` spans in a row after a field. Validation never produces it from a page where
      nothing but the first element after a field is such a span (AtMostOneMessage), but markup with a
      span behind an unrelated element leads to it once a type failure takes that element over. */
  predicate Stacked(after: seq<Sibling>)
  {
    |after| >= 2 && after[0].ErrorSpan? && after[1].ErrorSpan?
  }

  /** `validateForm(form)`: visits every control in document order without stopping at a failure,
      annotates each required one, and returns whether all of them passed. */
  method ValidateForm(fields: array<Field>) returns (isValid: bool)
    modifies fields
    ensures isValid <==> AllRequiredPass(old(fields[..]))
    ensures fields[..] == AnnotateAll(old(fields[..]))
  {
    ghost var original := fields[..];
    isValid := true;
    for i := 0 to fields.Length
      invariant forall k :: 0 <= k < i ==> fields[k] == AnnotateAll(original)[k]
      invariant forall k :: i <= k < fields.Length ==> fields[k] == original[k]
      invariant isValid <==> forall k :: 0 <= k < i && original[k].required ==> Passes(original[k])
    {
      if fields[i].required {
        var annotated, passed := CheckField(fields[i]);
        fields[i] := annotated;
        if !passed {
          isValid := false;
        }
      }
    }
  }

  /** The body of the forEach callback of validateForm for one required control: the annotated control,
      and whether it left the form valid. */
  method CheckField(field: Field) returns (input: Field, passed: bool)
    ensures input == Annotate(field)
    ensures passed <==> Passes(field)
  {
    input := field;
    passed := true;
    if IsBlank(input.value) {
      passed := false;
      input := input.(hasErrorClass := true);
      var reuse := input.after != [] && input.after[0].ErrorSpan?;
      var rest := if reuse then input.after[1..] else input.after;
      input := input.(after := [ErrorSpan(RequiredMessage)] + rest);
    } else {
      input := input.(hasErrorClass := false);
      if input.after != [] && input.after[0].ErrorSpan? {
        input := input.(after := input.after[1..]);
      }
      if input.kind == EmailInput && !ValidateEmail(input.value) {
        passed := false;
        input := input.(hasErrorClass := true);
        // nextElementSibling || a new span: an existing element of any kind is taken over
        var rest := if input.after == [] then [] else input.after[1..];
        input := input.(after := [ErrorSpan(EmailMessage)] + rest);
      }
      if input.kind == PasswordInput && |input.value| < MinPasswordLength {
        passed := false;
        input := input.(hasErrorClass := true);
        var rest := if input.after == [] then [] else input.after[1..];
        input := input.(after := [ErrorSpan(PasswordMessage)] + rest);
      }
    }
  }

  /** The reported failure and the pass/fail verdict agree, and a failing field is reported with the
      first check it fails: blank first, then the check for its type. */
  lemma FailureOfMatchesPasses(f: Field)
    ensures FailureOf(f) == None <==> Passes(f)
    ensures IsBlank(f.value) ==> FailureOf(f) == Some(Missing)
    ensures !IsBlank(f.value) && f.kind == EmailInput ==>
      (FailureOf(f) == Some(BadEmail) <==> !ValidateEmail(f.value))
    ensures !IsBlank(f.value) && f.kind == PasswordInput ==>
      (FailureOf(f) == Some(WeakPassword) <==> |f.value| < MinPasswordLength)
  {
  }

  /** After a pass a required field carries the `error` class exactly when it failed, and shows the
      message of the check it failed; a passing field shows none (unless two spans were stacked after it).
      Nothing but the class and the following siblings changes. */
  lemma AnnotateMarksFailures(f: Field)
    ensures Annotate(f).hasErrorClass <==> !Passes(f)
    ensures !Passes(f) ==> Message(Annotate(f)) == Some(MessageFor(FailureOf(f).value))
    ensures Passes(f) && !Stacked(f.after) ==> Message(Annotate(f)) == None
    ensures Annotate(f).(hasErrorClass := f.hasErrorClass, after := f.after) == f
  {
    FailureOfMatchesPasses(f);
  }

  /** Precedence: a blank required field shows "This field is required", never the email or password
      message, whatever its type; an unrelated element after it is kept, behind a newly inserted span. */
  lemma BlankFieldShowsOnlyRequired(f: Field)
    requires IsBlank(f.value)
    ensures Message(Annotate(f)) == Some(RequiredMessage)
    ensures Annotate(f).after[1..] == DropErrorSpan(f.after)
    ensures f.after != [] && f.after[0].ErrorSpan? ==> |Annotate(f).after| == |f.after|
    ensures f.after == [] || f.after[0] == OtherElement ==> Annotate(f).after == [ErrorSpan(RequiredMessage)] + f.after
  {
  }

  /** On the email and password failure paths the element after the field is taken over without looking
      at its class: an unrelated element (a hint, a label) loses its identity and becomes the message. */
  lemma TypeFailureOverwritesSibling(f: Field, rest: seq<Sibling>)
    requires !IsBlank(f.value) && !Passes(f)
    requires f.after == [OtherElement] + rest
    ensures Annotate(f).after == [ErrorSpan(MessageFor(FailureOf(f).value))] + rest
  {
    FailureOfMatchesPasses(f);
  }

  /** No `error-message` span after a field except possibly the first element. */
  predicate AtMostOneMessage(after: seq<Sibling>)
  {
    forall k :: 1 <= k < |after| ==> after[k] == OtherElement
  }

  /** One pass leaves at most one message per field: a passing field loses its leading span and nothing
      else, and a failing one gets exactly one span in front of what is left of its siblings, so a pass
      adds at most one element. */
  lemma AnnotateAddsAtMostOneMessage(f: Field)
    ensures Passes(f) ==> Annotate(f).after == DropErrorSpan(f.after)
    ensures !Passes(f) ==>
      (Annotate(f).after != [] && Annotate(f).after[0].ErrorSpan? &&
       |Annotate(f).after| <= |f.after| + 1 &&
       Annotate(f).after[1..] == f.after[|f.after| + 1 - |Annotate(f).after|..])
  {
    FailureOfMatchesPasses(f);
  }

  /** A page with at most one message after each field keeps that shape under validation, so the
      stacked spans of `Stacked` never arise from it. */
  lemma AnnotateKeepsAtMostOneMessage(f: Field)
    requires AtMostOneMessage(f.after)
    ensures AtMostOneMessage(Annotate(f).after) && !Stacked(Annotate(f).after)
  {
  }

  /** Stacked spans do arise: a span in the markup behind an unrelated element ends up right behind the
      message once a type failure takes that element over. */
  lemma TypeFailureCanStackSpans(f: Field, hint: string)
    requires !IsBlank(f.value) && !Passes(f)
    requires f.after == [OtherElement, ErrorSpan(hint)]
    ensures Stacked(Annotate(f).after)
  {
    FailureOfMatchesPasses(f);
  }

  /** With stacked spans a passing field is not idempotent: the first pass removes one span and shows
      the one behind it, the second removes that one too. */
  lemma StackedSpansShowOnePassLate(f: Field, a: string, b: string)
    requires Passes(f)
    requires f.after == [ErrorSpan(a), ErrorSpan(b)]
    ensures Message(Annotate(f)) == Some(b)
    ensures Message(Annotate(Annotate(f))) == None
  {
    FailureOfMatchesPasses(f);
    assert Annotate(f).value == f.value && Annotate(f).kind == f.kind;
  }

  /** Validating twice in a row leaves the same visible messages and classes as validating once. */
  lemma AnnotateMessagesIdempotent(f: Field)
    requires !Stacked(f.after)
    ensures Message(Annotate(Annotate(f))) == Message(Annotate(f))
    ensures Annotate(Annotate(f)).hasErrorClass == Annotate(f).hasErrorClass
  {
    assert Annotate(f).value == f.value && Annotate(f).kind == f.kind;
  }

  /** The page itself is idempotent under re-validation only while no element lies behind the message of
      a type failure: each further pass removes the message, takes over the next element and so consumes
      one more sibling. */
  lemma TypeFailureConsumesOneSiblingPerPass(f: Field)
    requires !IsBlank(f.value) && !Passes(f)
    ensures |Annotate(Annotate(f)).after| == if |Annotate(f).after| >= 2 then |Annotate(f).after| - 1 else 1
    ensures Annotate(Annotate(f)) == Annotate(f) <==> |Annotate(f).after| == 1
  {
    FailureOfMatchesPasses(f);
    var g := Annotate(f);
    assert g.value == f.value && g.kind == f.kind;
    assert FailureOf(g) == FailureOf(f);
  }

  /** A blank field and a passing field are idempotent outright (for a passing one, when no two spans
      were stacked after it). */
  lemma AnnotateIdempotentUnlessTypeFailure(f: Field)
    requires IsBlank(f.value) || (Passes(f) && !Stacked(f.after))
    ensures Annotate(Annotate(f)) == Annotate(f)
  {
    var g := Annotate(f);
    assert g.value == f.value && g.kind == f.kind;
  }

  /** The form verdict is the conjunction of its required fields' verdicts, and it is exactly what the
      `error` classes on the required fields say after the pass. Controls that are not required are
      never touched. */
  lemma {:induction false} FormVerdictMatchesErrorClasses(fs: seq<Field>)
    ensures AllRequiredPass(fs) <==>
      forall i :: 0 <= i < |fs| && fs[i].required ==> !AnnotateAll(fs)[i].hasErrorClass
    ensures forall i :: 0 <= i < |fs| && !fs[i].required ==> AnnotateAll(fs)[i] == fs[i]
  {
    forall i | 0 <= i < |fs| && fs[i].required
      ensures AnnotateAll(fs)[i].hasErrorClass <==> !Passes(fs[i])
    {
      AnnotateMarksFailures(fs[i]);
    }
  }
}
