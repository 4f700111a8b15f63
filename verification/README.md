# Contact form: email check and form state machine

A model of the contact form of a portfolio site
(`src/components/patterns/ContactForm/index.js`). The form component has
three text fields (name, email, message), a submit button, a close button,
and three feedback animations (loading, success, error). Two parts are
modelled:

- **`validateEmail`** (lines 49-52). The input is lowercased and matched
  against an anchored regular expression:
  - the local part is either dot-separated atoms or a quoted string;
  - the domain is either a bracketed IPv4 literal or a hostname whose last
    label has two or more letters.

  The model has three layers:
  - `EmailRegex` reads the expression declaratively, with existentials
    (`EmailMatch`);
  - `EmailValidator` is an executable recogniser that splits the input at
    its last `@` and at its dots;
  - lemmas prove each recogniser part equivalent to its declarative
    counterpart, in both directions.

  On top of that, `EmailProperties` proves properties stated for all
  inputs: case-insensitivity, and families of inputs that are rejected or
  accepted. `EmailExamples` pins down concrete addresses.
- **`FormContent`** (lines 54-130, rendering 144-278). The form is a
  reducer, `ContactForm.Step`, from a state and an event to the next state
  plus the request it sends.
  - The state is `isFormSubmitted`, `formState`, `contactMessageData`, and
    a count of submissions whose completion is still pending.
  - The events are typing in a field, submitting, the DONE or ERROR timer
    firing, and closing.
  - `FormView.Render` computes what is on screen: the fields, the invalid
    email hint, the submit button and its `disabled` flag, and the
    feedback panels. The three fields are rendered in every state (lines
    144-213); only the submit button (line 214) and the feedback panels
    (lines 238-278) depend on `isFormSubmitted`.
  - `FormRuns` proves facts about whole runs of events:
    - the reachable-state invariant;
    - the request/completion balance;
    - every posted message is complete and has a valid email;
    - the scenario of filling in, submitting and receiving a response;
    - a late completion after closing leaves the form DONE while not
      submitted.

Files:
- `js_text.dfy`: JavaScript's `\s` class, line terminators and lowercasing.
- `dotted.dfy`: splitting at dots and joining with dots.
- `email_regex.dfy`: the declarative reading of the expression.
- `email.dfy`: the recogniser.
- `email_properties.dfy` and `email_examples.dfy`: the email lemmas.
- `contact_form.dfy`: the reducer.
- `form_view.dfy`: rendering.
- `form_runs.dfy`: runs of events.

## Model

| member | source | states |
|---|---|---|
| EmailValidator.ValidateEmailMatchesRegex | src/components/patterns/ContactForm/index.js:49-52 | `validateEmail` accepts a string exactly when the anchored expression matches its lowercase form |
| EmailValidator.ValidateEmailSplitsAtLastAt | src/components/patterns/ContactForm/index.js:50-51 | the verdict is the local-part check on the lowercased text before the last `@`, together with the domain check on the text after it |
| EmailValidator.MatchesBeforeLastAt | src/components/patterns/ContactForm/index.js:50 | scanning for `@` from the right stops at the last `@`, and that position alone decides the match |
| EmailValidator.LastIndexOf | src/components/patterns/ContactForm/index.js:50 | the result is -1 exactly when there is no `@`; otherwise it points at an `@` with none after it |
| EmailValidator.DotAtomIff | src/components/patterns/ContactForm/index.js:50 | the unquoted local-part check accepts exactly the strings `[^<>()[\]\\.,;:\s@"]+(\.[^…]+)*` generates |
| EmailValidator.QuotedIff | src/components/patterns/ContactForm/index.js:50 | the quoted local-part check accepts exactly `".+"`, where `.` excludes line terminators |
| EmailValidator.LocalIff | src/components/patterns/ContactForm/index.js:50 | the local-part check accepts exactly the first group of the expression |
| EmailValidator.IpLiteralIff | src/components/patterns/ContactForm/index.js:50 | the IPv4 check accepts exactly `\[[0-9]{1,3}(\.[0-9]{1,3}){3}\]` |
| EmailValidator.IpLiteralSound | src/components/patterns/ContactForm/index.js:50 | every string the IPv4 check accepts is four one-to-three-digit groups, dot-joined inside brackets |
| EmailValidator.IpLiteralComplete | src/components/patterns/ContactForm/index.js:50 | every bracketed, dot-joined four-group string passes the IPv4 check |
| EmailValidator.HostnameIff | src/components/patterns/ContactForm/index.js:50 | the hostname check accepts exactly `([a-zA-Z\-0-9]+\.)+[a-zA-Z]{2,}` |
| EmailValidator.DomainIff | src/components/patterns/ContactForm/index.js:50 | the domain check accepts exactly the group after `@` |
| EmailValidator.DomainHasNoAt | src/components/patterns/ContactForm/index.js:50 | no accepted domain contains `@`, so splitting at the last `@` loses no match |
| EmailValidator.PatternSound | src/components/patterns/ContactForm/index.js:50 | a string the recogniser accepts has a decomposition the expression matches |
| EmailValidator.PatternComplete | src/components/patterns/ContactForm/index.js:50 | every string the expression matches is accepted by the recogniser |
| EmailValidator.PatternMatchesRegex | src/components/patterns/ContactForm/index.js:50 | the recogniser and the anchored expression agree on every lowercased string |
| EmailValidator.LabelledJoin | src/components/patterns/ContactForm/index.js:50 | `(label\.)+tld` is the dot-join of the labels followed by the tld |
| EmailValidator.IpLiteralJoin | src/components/patterns/ContactForm/index.js:50 | the IPv4 literal is the dot-join of its four groups inside brackets |
| Dotted.SplitDots | src/components/patterns/ContactForm/index.js:50 | splitting at dots gives at least one piece, no piece contains a dot, and the pieces join back to the input |
| Dotted.SplitJoin | src/components/patterns/ContactForm/index.js:50 | splitting undoes dot-joining whenever no piece contains a dot |
| Dotted.JoinWellDotted | src/components/patterns/ContactForm/index.js:50 | dot-joined pieces have no leading, trailing or doubled dot exactly when no piece is empty |
| Dotted.SplitWellDotted | src/components/patterns/ContactForm/index.js:50 | a string's pieces are all non-empty exactly when it has no leading, trailing or doubled dot |
| Dotted.JoinDotsChars | src/components/patterns/ContactForm/index.js:50 | a character other than the dot occurs in a dot-join exactly when it occurs in one of the pieces |
| Dotted.SplitDotFreeSuffix | src/components/patterns/ContactForm/index.js:50 | the final dot-free segment becomes the last piece |
| JsText.LowerChar | src/components/patterns/ContactForm/index.js:51 | `toLowerCase` on one character maps `A`-`Z` to `a`-`z`, leaves every other character unchanged, and never yields an upper-case letter |
| JsText.Lower | src/components/patterns/ContactForm/index.js:51 | `toLowerCase` keeps the length and lowercases each character in place |
| JsText.LowerFixesLowered | src/components/patterns/ContactForm/index.js:51 | a string is its own lowercase exactly when it has no upper-case letter |
| JsText.LowerIdempotent | src/components/patterns/ContactForm/index.js:51 | lowercasing twice gives the same result as lowercasing once |
| JsText.LowerKeepsClasses | src/components/patterns/ContactForm/index.js:50-51 | lowercasing moves no character into or out of the letter, digit, `\s` or line-terminator classes |
| EmailProperties.LowerKeepsTokens | src/components/patterns/ContactForm/index.js:50-51 | lowercasing keeps an atom, label, tld, digit group or quoted body in its class, in both directions |
| EmailProperties.CaseInsensitive | src/components/patterns/ContactForm/index.js:51 | an address and its lowercase get the same verdict |
| EmailProperties.SameVerdictUpToCase | src/components/patterns/ContactForm/index.js:51 | inputs that differ only in ASCII case get the same verdict |
| EmailProperties.SplitsBeforeDomain | src/components/patterns/ContactForm/index.js:50-51 | with no `@` in the domain, the split falls at the `@` written before the domain, whatever the local part holds |
| EmailProperties.VerdictOfAddress | src/components/patterns/ContactForm/index.js:50-51 | such an address is accepted exactly when its lowercased local part and its lowercased domain are both accepted |
| EmailProperties.RejectsWithoutAt | src/components/patterns/ContactForm/index.js:50 | a string without `@` is rejected, including the empty string |
| EmailProperties.RejectsDotlessDomain | src/components/patterns/ContactForm/index.js:50 | a domain without a dot is rejected |
| EmailProperties.RejectsBadFinalLabel | src/components/patterns/ContactForm/index.js:50 | a hostname whose last label is not two or more letters is rejected |
| EmailProperties.DotAtomShape | src/components/patterns/ContactForm/index.js:50 | an unquoted local part is accepted exactly when it is well dotted and its other characters are atom characters |
| EmailProperties.RejectsBadDots | src/components/patterns/ContactForm/index.js:50 | an unquoted local part that is empty or has a leading, trailing or doubled dot is rejected |
| EmailProperties.AcceptsDotAtomAtHostname | src/components/patterns/ContactForm/index.js:50-51 | every `atom(.atom)*@label.….tld` address is accepted, in any mix of case |
| EmailProperties.AcceptsQuotedLocal | src/components/patterns/ContactForm/index.js:50 | a quoted local part may contain any character except a line terminator, `@` and `"` included |
| EmailProperties.AcceptsAnyIpGroups | src/components/patterns/ContactForm/index.js:50 | IPv4 groups are not range-checked: any one to three digits per group are accepted |
| EmailExamples.RejectsEmptyAndAtless | src/components/patterns/ContactForm/index.js:49-52 | `""` and `ana.example.com` are rejected |
| EmailExamples.RejectsLocalhost | src/components/patterns/ContactForm/index.js:50 | `a@localhost` is rejected |
| EmailExamples.RejectsShortOrDigitTld | src/components/patterns/ContactForm/index.js:50 | `a@b.c` and `a@b.c1` are rejected |
| EmailExamples.RejectsMisplacedDots | src/components/patterns/ContactForm/index.js:50 | `.a@b.co`, `a.@b.co` and `a..b@b.co` are rejected |
| EmailExamples.AcceptsUncheckedIpGroup | src/components/patterns/ContactForm/index.js:50 | `a@[999.1.1.1]` is accepted |
| EmailExamples.AcceptsQuotedWithAtAndQuote | src/components/patterns/ContactForm/index.js:50 | `"a@b"c"@x.io` is accepted |
| EmailExamples.AcceptsHyphenEdgedLabel | src/components/patterns/ContactForm/index.js:50 | `a@-b-.-.co` is accepted: a label may start and end with `-`, or consist of `-` alone |
| EmailExamples.AcceptsMixedCase | src/components/patterns/ContactForm/index.js:51 | `Ana@Example.COM` is accepted because its lowercase, `ana@example.com`, is accepted |
| EmailExamples.AcceptsPlainAddress | src/components/patterns/ContactForm/index.js:49-52 | `ana@example.com` is accepted |
| ContactForm.Set | src/components/patterns/ContactForm/index.js:70-76 | the spread update sets the named field and leaves the other two as they were |
| ContactForm.ReduceEmptyIff | src/components/patterns/ContactForm/index.js:88-89 | the `reduce` yields true exactly when it starts true or meets a field of length 0 |
| ContactForm.AnyEmptyFields | src/components/patterns/ContactForm/index.js:88-89 | `anyEmptyFields` is true exactly when name, email or message is empty |
| ContactForm.IsFormInvalid | src/components/patterns/ContactForm/index.js:88-93 | the form is invalid exactly when some field is empty or `validateEmail` rejects the email |
| ContactForm.EmptyEmailInvalid | src/components/patterns/ContactForm/index.js:91-93 | an empty email makes the form invalid |
| ContactForm.Step | src/components/patterns/ContactForm/index.js:70-130 | a request is sent exactly on submit; it carries the current fields, which are complete and have a valid email; the pending count goes up by one per submit and down by one per completion |
| ContactForm.FieldChangedSetsOnlyThatField | src/components/patterns/ContactForm/index.js:70-76 | typing sets one field and changes nothing else |
| ContactForm.ResetClears | src/components/patterns/ContactForm/index.js:78-86 | closing clears the fields, `isFormSubmitted` and `formState`, keeps the pending completions, and closing twice is the same as closing once |
| ContactForm.SubmitPostsSnapshot | src/components/patterns/ContactForm/index.js:97-116 | submitting marks the form submitted, sets LOADING, and posts the name, email and message as they are at that moment |
| ContactForm.CompletionOutcome | src/components/patterns/ContactForm/index.js:117-128 | an ok response (200-299) ends in DONE; any other status, or a thrown error, ends in ERROR; `isFormSubmitted` and the fields do not change |
| ContactForm.StepKeepsConsistent | src/components/patterns/ContactForm/index.js:78-130 | every event keeps "submitted implies not DEFAULT; LOADING implies submitted and pending" |
| ContactForm.StepKeepsSettled | src/components/patterns/ContactForm/index.js:78-130 | "submitted exactly when not DEFAULT" survives every event, provided completions arrive only while LOADING |
| ContactForm.LateCompletionUnsettles | src/components/patterns/ContactForm/index.js:78-128 | a completion arriving after a close leaves the form DONE or ERROR but not submitted |
| FormView.Render | src/components/patterns/ContactForm/index.js:144-278 | fields show the data; the button is shown exactly when not submitted and is disabled exactly when the form is invalid; the hint shows exactly when the email is invalid; at most one panel is shown, only when submitted and not DEFAULT, and it matches the state |
| FormView.SubmitNeedsEnabledButton | src/components/patterns/ContactForm/index.js:214-236 | a submit can happen exactly when an enabled submit button is on screen |
| FormView.InitialView | src/components/patterns/ContactForm/index.js:62-236 | a fresh form shows empty fields, the invalid-email hint and a disabled button |
| FormView.OneControlShown | src/components/patterns/ContactForm/index.js:214-278 | in a consistent state the button and a feedback panel are never both shown, and never both absent |
| FormView.SubmittedView | src/components/patterns/ContactForm/index.js:238-278 | a submitted form shows no button and the panel of its state, with the sizes the source gives |
| FormView.UnsubmittedView | src/components/patterns/ContactForm/index.js:214-236 | an unsubmitted form shows the button, disabled exactly when the form is invalid, and no panel |
| FormRuns.RunKeepsConsistent | src/components/patterns/ContactForm/index.js:61-130 | every run of possible events keeps the consistency invariant |
| FormRuns.Reachable | src/components/patterns/ContactForm/index.js:61-278 | every state reachable from a fresh form is consistent and shows exactly one of the button or a panel |
| FormRuns.InFlightBalance | src/components/patterns/ContactForm/index.js:97-130 | one request per submit; the pending count at the end equals the count at the start, plus requests sent, minus completions received |
| FormRuns.PostsAreComplete | src/components/patterns/ContactForm/index.js:91-116 | every message posted along a run has all fields filled and a valid email |
| FormRuns.OutcomeNeedsSubmission | src/components/patterns/ContactForm/index.js:109-128 | DONE or ERROR is only reached by a run that started there, had a completion pending, or posts a request |
| FormRuns.OutcomeFollowsValidPost | src/components/patterns/ContactForm/index.js:97-130 | from a fresh form, DONE or ERROR means a complete, valid message was posted earlier in the run |
| FormRuns.FillInFresh | src/components/patterns/ContactForm/index.js:62-76 | typing the three fields into a fresh form gives exactly the typed message |
| FormRuns.SubmitThenComplete | src/components/patterns/ContactForm/index.js:97-130 | submit, then the response: LOADING, then the response's outcome, with exactly the fields posted |
| FormRuns.SubmissionScenario | src/components/patterns/ContactForm/index.js:62-278 | fill in, submit, respond: the button is enabled then hidden, the loading panel gives way to the outcome's panel, and the typed message is posted |
| FormRuns.LateCompletionReachable | src/components/patterns/ContactForm/index.js:78-128 | submit, close, then the late timer: a reachable state that is DONE but not submitted, showing a disabled button (the close emptied the fields) and no panel |
| FormRuns.AnaScenario | src/components/patterns/ContactForm/index.js:49-130 | the message from "Ana" at `ana@example.com` can be submitted, reaches the response's outcome, and is posted as typed |
| FormRuns.RunAppend | src/components/patterns/ContactForm/index.js:61-130 | running two event sequences one after the other is the same as running their concatenation |
| FormRuns.PostsAppend | src/components/patterns/ContactForm/index.js:97-116 | the posts of a concatenation are the posts of its parts, in order |

## Left out

- Sending the request: the endpoint URL, the headers and the JSON body
  (lines 110-116). `fetch` is replaced by a `Response` value, either a
  status or a thrown error; the model records only which message is posted.
- The one-second `setTimeout` delays (lines 121-128). Each timer firing is
  a completion event that may arrive at any later point, since the timers
  are never cancelled. Time itself is not modelled.
- Concurrency within React: each handler's state updates are applied as
  one step, and re-rendering is the pure function `Render`.
- Layout, styles and text: the `Button` and `Form` styled components
  (lines 17-47), the labels and placeholders, the `ContactForm` wrapper and
  the PropTypes (lines 283-353), and the content of the animation files.
  Only which panel shows and its pixel sizes are kept.
- `src/components/commons/CardImage/index.js`: this file holds only
  styled-component CSS and has no logic to model.
- `CloseButton`: the model keeps only the `resetForm` call it makes. What
  `onClose` does to the modal around the form is not part of this model.
- JsText.Lower: lowercases ASCII letters only and keeps the length.
  JavaScript's `toLowerCase` also lowers other letters. Only one of them
  changes the verdict: KELVIN SIGN (U+212A) lowers to the letter `k`, so a
  hostname label containing it is rejected here but accepted by the
  source. Every other non-ASCII letter lowers to non-ASCII text, which
  stays an atom and quoted-body character and never becomes a label,
  letter or digit character. LATIN CAPITAL LETTER I WITH DOT ABOVE
  (U+0130) lowers to `i` followed by U+0307. That makes the string longer,
  but the verdict is unchanged, because U+0307 is not a label character
  either.
- Strings are sequences of Unicode scalar values, while JavaScript strings
  are UTF-16 code units. No character class of the expression contains a
  surrogate or an astral character, so this cannot change a verdict.
