# Marketplace site script — a Dafny model

This project models the client-side behaviour of a marketplace website's single script, `script.js`:
highlighting the navigation link of the current page, filtering product cards by category, validating
the five site forms (contact, buyer sign-up and login, supplier sign-up and login), the success alert
shown after a valid submission, and the add-to-cart notification.

The page is modelled explicitly instead of through a global document:

- a form is an `array<Field>` of its controls in document order; a `Field` records what the validator
  reads (the `required` attribute, the input type as `EmailInput | PasswordInput | OtherInput`, the
  current value, the default value `form.reset()` restores) and what it writes (the `error` class and
  the elements that follow the control, where an `error-message` span lives);
- the filter buttons and product cards are two arrays of records; the navigation links are an array;
- the page body, as far as alerts go, is a `Page` object whose `alerts` sequence `showAlert` appends to.

Modules, one per part of the script:

- `Text` (text.dfy): ECMAScript white space (the one set shared by `trim()` and the regular
  expression class `\s`), `trimStart`/`trimEnd`/`trim`, and the blank test `!value.trim()`.
- `Email` (email.dfy): `validateEmail` as a predicate on characters, with the regular expression
  `^[^\s@]+@[^\s@]+\.[^\s@]+$` stated separately as "there are positions of the '@' and the '.' that
  make the three runs non-empty", and the proof that the two agree.
- `FormValidation` (validation.dfy): `validateForm` as a method over the array of controls, its
  `forEach` callback as the method `CheckField`, the per-field annotation `Annotate` that specifies
  them, and the lemmas about verdicts, messages and repeated passes.
- `ProductFilter` (filter.dfy): the click handler of a filter button.
- `Navigation` (navigation.dfy): `split('/')`, the current-page expression and `initNavigation`.
- `Forms` (forms.dfy): the five submit handlers (one method parameterised by the form), `showAlert`'s
  append, `form.reset()`, and the add-to-cart message.
- `Wrappers` (wrappers.dfy): `Option`, used for attributes that may be absent.

Two behaviours of the script are kept as written and proved as such:

- On the email and password failure paths the script takes `nextElementSibling || new span` without
  checking the class, so an unrelated element right after the field is re-classed and re-texted
  (`TypeFailureOverwritesSibling`). Each further validation pass of a still-failing field removes that
  message and takes over the next element, consuming one more sibling per pass
  (`TypeFailureConsumesOneSiblingPerPass`). The visible message and class are still the same after
  each pass, absent two stacked spans (`AnnotateMessagesIdempotent`). Stacked spans never arise from a
  page with at most one message after each field (`AnnotateKeepsAtMostOneMessage`), but they do arise
  when the markup has a span behind an unrelated element (`TypeFailureCanStackSpans`).
- `initNavigation` only ever adds `active`; a link already marked in the markup stays marked. The
  active links are exactly the matching ones only when none was marked beforehand (`HighlightOnlyAdds`).

The email and password checks run only on a non-blank value (`BlankFieldShowsOnlyRequired`); after a
valid submission `form.reset()` restores each control's default value rather than clearing it.

## Model

| member | source | states |
|---|---|---|
| `Text.TrimStartCutsWhitespace` | script.js:121 | what trimming the start leaves is a suffix of the value that does not start with white space, and everything removed is white space |
| `Text.TrimEndCutsWhitespace` | script.js:121 | what trimming the end leaves is a prefix of the value that does not end with white space, and everything removed is white space |
| `Text.Trim` | script.js:121 | `trim()` returns a value no longer than the input that neither starts nor ends with white space |
| `Text.IsBlank` | script.js:121 | `!value.trim()` holds exactly when every character of the value is white space |
| `Text.TrimEmptyIffAllWhitespace` | script.js:121 | trimming leaves the empty string exactly when every character of the value is white space |
| `Text.TrimIsInnerText` | script.js:121 | `trim()` returns a contiguous piece of the value, cut only at white space on both ends, neither starting nor ending with white space |
| `Email.FirstAtIsFirst` | script.js:164 | the split point used by the check is the first '@' of the value (none before it, one at it) |
| `Email.ValidateEmail` | script.js:163-166 | an accepted value has at least five characters (one each around the '@' and the '.', plus both) and neither starts nor ends with white space |
| `Email.ValidateEmailIffPattern` | script.js:163-166 | `validateEmail(s)` holds exactly when the anchored pattern `[^\s@]+@[^\s@]+\.[^\s@]+` matches `s`, in both directions |
| `Email.ValidateEmailSplits` | script.js:163-166 | for s = L + "@" + D: valid exactly when L is non-empty, no character is white space or a second '@', and D has a '.' that is neither its first nor last character |
| `Email.ValidateEmailAccepts` | script.js:163-166 | "a@b.co" is accepted |
| `Email.ValidateEmailRejects` | script.js:163-166 | "a@b", "a b@c.com" and "" are rejected, and so is " a@b.co" (the email check sees the untrimmed value) |
| `Email.AcceptedEmailIsTrimmed` | script.js:121-141 | an accepted email value is unchanged by `trim()` and not blank, so reading the raw value for the email check and the trimmed one for the blank check cannot disagree on an accepted value |
| `FormValidation.ValidateForm` | script.js:116-160 | visits every control without stopping at a failure; returns true exactly when every required control is non-blank, an email control's value has the email shape and a password control's value has at least 6 characters; each required control ends up annotated as `Annotate` says, other controls unchanged |
| `FormValidation.CheckField` | script.js:120-157 | the forEach callback for one required control: it returns the control annotated as `Annotate` says, and reports a failure exactly when the control does not pass |
| `FormValidation.Passes` | script.js:121-156 | a passing control's value is not all white space; a passing email value has at least five characters and a passing password at least 6 |
| `FormValidation.FailureOf` | script.js:121-156 | no failure is reported exactly when the control passes; "required" is reported exactly when the value is blank; the email and password failures only for controls of that type |
| `FormValidation.FailureOfMatchesPasses` | script.js:121-156 | a field is reported as failing exactly when it does not pass; blank is reported first, the type check only for a non-blank value |
| `FormValidation.AnnotateMarksFailures` | script.js:121-156 | after a pass a required field has the `error` class exactly when it failed, shows the message of the check it failed, shows none when it passed (absent two stacked spans), and nothing else about it changes |
| `FormValidation.BlankFieldShowsOnlyRequired` | script.js:121-129 | a blank field shows "This field is required" whatever its type; an existing following error span is reused (no second one), otherwise a new span is inserted in front of what followed |
| `FormValidation.TypeFailureOverwritesSibling` | script.js:137-155 | on an email or password failure an unrelated element right after the field is turned into the message span |
| `FormValidation.AnnotateAddsAtMostOneMessage` | script.js:121-156 | a passing control only loses its leading message span; a failing one gets exactly one span in front of a tail of its former siblings, so a pass adds at most one element |
| `FormValidation.AnnotateKeepsAtMostOneMessage` | script.js:121-156 | when no message span follows a control except possibly the first element, the same holds after a pass, so no two spans are ever stacked |
| `FormValidation.TypeFailureCanStackSpans` | script.js:137-155 | markup with a span behind an unrelated element ends up with two stacked spans after an email or password failure |
| `FormValidation.StackedSpansShowOnePassLate` | script.js:130-135 | with two stacked spans after a passing control, one pass shows the second span's text and a second pass shows none |
| `FormValidation.AnnotateMessagesIdempotent` | script.js:120-157 | absent two stacked spans, validating twice leaves the same visible message and the same `error` class as validating once |
| `FormValidation.AnnotateIdempotentUnlessTypeFailure` | script.js:120-157 | for a blank field, and for a passing one absent two stacked spans, a second pass changes nothing at all |
| `FormValidation.TypeFailureConsumesOneSiblingPerPass` | script.js:130-155 | for a field failing its type check, a second pass removes one more following element, and leaves the field unchanged exactly when nothing lies behind the message |
| `FormValidation.FormVerdictMatchesErrorClasses` | script.js:116-160 | the form is valid exactly when no required field carries the `error` class after the pass; controls without `required` are untouched |
| `ProductFilter.ClickFilter` | script.js:31-45 | a click makes exactly the clicked button active and sets every card's display from its category, keeping every category |
| `ProductFilter.ExactlyClickedActive` | script.js:33-34 | after a click exactly the clicked button is active, and clicking again changes nothing |
| `ProductFilter.ShownIffSelected` | script.js:37-44 | a card is shown exactly when the selection is "all" or equals its category (an absent category equals an absent one), hidden otherwise |
| `ProductFilter.FilterForgetsPriorDisplay` | script.js:38-44 | the cards' display after a click does not depend on their display before, so repeating a click is idempotent |
| `ProductFilter.FilterExample` | script.js:38-44 | "electronics" over cards tagged electronics, books, electronics shows the first and third; "all" then shows all three |
| `Navigation.Split` | script.js:13 | `split` gives at least one piece, and no piece holds the separator |
| `Navigation.JoinSplit` | script.js:13 | joining the pieces of `split` with the separator gives the path back |
| `Navigation.SplitLastPiece` | script.js:13 | the last piece of `split` is the longest suffix without the separator: it holds none, and it is the whole string or a separator stands right before it |
| `Navigation.CurrentPage` | script.js:13 | the current page is never empty and never holds a '/', and it is either "index.html" or a tail of the path |
| `Navigation.CurrentPageIsTextAfterLastSlash` | script.js:13 | the current page is the text after the last '/' of the path, or "index.html" when that text is empty; it never contains '/' |
| `Navigation.CurrentPageExample` | script.js:13 | the current page of "/shop/products.html" is "products.html" |
| `Navigation.InitNavigation` | script.js:12-22 | every link whose href equals the current page gains `active`; no link loses it and no href changes |
| `Navigation.HighlightOnlyAdds` | script.js:16-21 | a link is active afterwards exactly when it was before or its href is the current page; highlighting again changes nothing; with no link marked beforehand the active links are exactly the matching ones |
| `Forms.Page.ShowAlert` | script.js:169-174 | appends exactly one alert with class "alert alert-" + kind and the given text, after the existing ones |
| `Forms.SuccessMessage` | script.js:60-108 | each form's fixed success text, a non-empty sentence ending in '!' or '.' |
| `Forms.Submit` | script.js:55-112 | a submit goes through exactly when the form validates; then exactly one `alert alert-success` alert with the form's fixed message is appended and the form is reset; otherwise no alert and no reset, the annotations of the pass remain |
| `Forms.ResetForm` | script.js:61 | every control of the form gets its default value back |
| `Forms.SubmitOutcomeVisible` | script.js:58-61 | after a submit every required field carries the `error` class exactly when it failed, the submit went through exactly when none is marked, and then every control holds its default value |
| `Forms.Page.AddToCart` | script.js:226-234 | an add-to-cart click appends one success alert with the cart message |
| `Forms.CartMessage` | script.js:232 | the cart message is the name, " added to cart (", the price and ")": 17 characters more than name and price, and both can be read back from it |
| `Forms.CartMessageExample` | script.js:232 | "Widget" at "$10" gives "Widget added to cart ($10)" |

## Left out

- The alert timers: adding `fade-out` after 3000 ms and removing the alert 500 ms later (script.js:176-179) are time-driven and asynchronous; `showAlert` is modelled as the append only.
- The mobile menu toggle (script.js:183-199): presentation only (inserts a button, toggles two classes).
- The scroll-to-top control (script.js:202-223): it depends on the browser's scroll offset, scroll events and `window.scrollTo`.
- Event registration and `DOMContentLoaded` (script.js:2-9), `preventDefault`, and the `getElementById` lookups of `initForms`: event plumbing; a form that is absent simply has no handler, so `Submit` is only called for a form that exists.
- `Forms.Page.AddToCart`: the DOM lookups `closest('.product-card')` and `querySelector` (script.js:228-230) are not modelled; the name and price texts are parameters, and the exception the handler throws when no enclosing card exists is not modelled.
- `Forms.ResetForm`: `form.reset()` is modelled as restoring each control's default value; the browser's full reset semantics (checkboxes, selected options) are not.
- `FormValidation.ValidateForm`: the element after a control is abstracted to a span with class `error-message` and its text, or some other element; aliasing where the element after a control is itself another control of the form (which the type-failure path would then re-class) is not modelled.
- The regular-expression engine itself: the email pattern is stated as a predicate on characters; strings are sequences of characters, without the UTF-16 code-unit view of JavaScript strings.
- `FormValidation.Passes`: the password check compares `value.length` (script.js:148), which counts UTF-16 code units, while the model counts characters; a password of three characters outside the Basic Multilingual Plane (three emoji, say) has length 6 in the script and passes there, but fails `Passes`.
- The glyphs written through `innerHTML` by the menu and scroll widgets.
