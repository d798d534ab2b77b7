/** initForms and showAlert: the five submit handlers, the alert they append, and the add-to-cart
    notification. The alert timers (fade after 3000 ms, removal 500 ms later) are not part of this model. */
module Forms {
  import opened FormValidation

  /** The five forms initForms looks up by id. */
  datatype FormId = ContactForm | BuyerSignup | BuyerLogin | SupplierSignup | SupplierLogin

  /** The fixed success message of each form: a non-empty sentence ending in '!' or '.'. */
  function SuccessMessage(form: FormId): (m: string)
    ensures m != [] && (m[|m| - 1] == '!' || m[|m| - 1] == '.')
  {
    match form
    case ContactForm => "Thank you for your message! We will get back to you soon."
    case BuyerSignup => "Buyer account created successfully!"
    case BuyerLogin => "Logged in successfully as buyer!"
    case SupplierSignup => "Supplier application submitted successfully!"
    case SupplierLogin => "Logged in successfully as supplier!"
  }

  /** A `div` appended to the body by showAlert: its class attribute and its text. */
  datatype Alert = Alert(className: string, text: string)

  const Success: string := "success"

  /** The class attribute showAlert gives an alert of kind `kind`. */
  function AlertClass(kind: string): string
  {
    "alert alert-" + kind
  }

  /** The text of the add-to-cart notification for a card with the given name and price texts: the name,
      the fixed text, and the price in parentheses; both can be read back from it. */
  function CartMessage(name: string, price: string): (m: string)
    ensures |m| == |name| + |price| + 17
    ensures m[..|name|] == name && m[|m| - 1 - |price|..|m| - 1] == price && m[|m| - 1] == ')'
  {
    name + " added to cart (" + price + ")"
  }

  /** `form.reset()`: every control gets its default value back; classes and error spans stay. */
  function Reset(fs: seq<Field>): (r: seq<Field>)
    ensures |r| == |fs|
  {
    seq(|fs|, i requires 0 <= i < |fs| => fs[i].(value := fs[i].defaultValue))
  }

  /** The form's controls once its submit handler has run. */
  function AfterSubmit(fs: seq<Field>): (r: seq<Field>)
    ensures |r| == |fs|
  {
    if AllRequiredPass(fs) then Reset(AnnotateAll(fs)) else AnnotateAll(fs)
  }

  /** The page body, as far as alerts go: the alerts appended so far, oldest first. */
  class Page {
    var alerts: seq<Alert>

    constructor ()
      ensures alerts == []
    {
      alerts := [];
    }

    /** `showAlert(message, kind)`: appends one alert. */
    method ShowAlert(message: string, kind: string)
      modifies this
      ensures alerts == old(alerts) + [Alert(AlertClass(kind), message)]
    {
      alerts := alerts + [Alert(AlertClass(kind), message)];
    }

    /** The document-level click handler for an `.add-to-cart` control, given the texts of the enclosing
        card's `h3` and `.price` elements. */
    method AddToCart(name: string, price: string)
      modifies this
      ensures alerts == old(alerts) + [Alert(AlertClass(Success), CartMessage(name, price))]
    {
      ShowAlert(CartMessage(name, price), Success);
    }
  }

  /** The submit handler of `form`: validate; when valid, show the form's success alert and reset it.
      Returns whether the submission went through. */
  method Submit(form: FormId, fields: array<Field>, page: Page) returns (submitted: bool)
    modifies fields, page
    ensures submitted <==> AllRequiredPass(old(fields[..]))
    ensures page.alerts == old(page.alerts) + if submitted then [Alert(AlertClass(Success), SuccessMessage(form))] else []
    ensures fields[..] == AfterSubmit(old(fields[..]))
  {
    submitted := ValidateForm(fields);
    if submitted {
      page.ShowAlert(SuccessMessage(form), Success);
      ResetForm(fields);
    }
  }

  /** `form.reset()` on the form's controls. */
  method ResetForm(fields: array<Field>)
    modifies fields
    ensures fields[..] == Reset(old(fields[..]))
  {
    forall i | 0 <= i < fields.Length {
      fields[i] := fields[i].(value := fields[i].defaultValue);
    }
  }

  /** A submission's outcome is visible on the form: every required control carries the `error` class
      exactly when it failed, so a submission goes through exactly when none is marked, and then every
      control is back at its default value. */
  lemma {:induction false} SubmitOutcomeVisible(fs: seq<Field>)
    ensures var after := AfterSubmit(fs);
      |after| == |fs| &&
      (forall i :: 0 <= i < |fs| && fs[i].required ==> (after[i].hasErrorClass <==> !Passes(fs[i]))) &&
      (AllRequiredPass(fs) <==> forall i :: 0 <= i < |fs| && fs[i].required ==> !after[i].hasErrorClass) &&
      (AllRequiredPass(fs) ==> forall i :: 0 <= i < |fs| ==> after[i].value == fs[i].defaultValue)
  {
    FormVerdictMatchesErrorClasses(fs);
    forall i | 0 <= i < |fs| && fs[i].required
      ensures AnnotateAll(fs)[i].hasErrorClass <==> !Passes(fs[i])
    {
      AnnotateMarksFailures(fs[i]);
    }
  }

  /** The message for a card "Widget" priced "$10". */
  lemma CartMessageExample()
    ensures CartMessage("Widget", "$10") == "Widget added to cart ($10)"
  {
  }
}
