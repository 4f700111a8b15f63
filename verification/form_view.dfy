/**
 What `FormContent` renders for a state (ContactForm/index.js, lines 144-278),
 leaving out layout: the three text fields, the "Email inválido" hint, the
 submit button, and the feedback animations.
 */
module FormView {
  import EmailValidator
  import opened ContactForm

  datatype Animation = LoadingAnimation | SuccessAnimation | ErrorAnimation

  /** Width and height in pixels at the `xs` and `md` breakpoints. */
  datatype Size = Size(xsWidth: nat, xsHeight: nat, mdWidth: nat, mdHeight: nat)

  /** A `FormFeedback` panel. */
  datatype Feedback = Feedback(animation: Animation, size: Size)

  datatype SubmitButton = Hidden | Shown(disabled: bool)

  datatype View = View(
    fields: ContactMessage,     // the values shown in the three text fields
    emailHint: bool,            // "Email inválido" under the email field
    button: SubmitButton,
    feedback: seq<Feedback>)    // the feedback panels, in render order

  const LoadingFeedback := Feedback(LoadingAnimation, Size(50, 50, 60, 60))
  const SuccessFeedback := Feedback(SuccessAnimation, Size(70, 60, 80, 80))
  const ErrorFeedback := Feedback(ErrorAnimation, Size(70, 60, 80, 80))

  /** The panel that belongs to a form state other than DEFAULT. */
  function FeedbackFor(f: FormState): Feedback
    requires f != Default
  {
    match f
    case Loading => LoadingFeedback
    case Done => SuccessFeedback
    case Error => ErrorFeedback
  }

  /** The three panels are guarded separately; at most one guard holds, and
      it is the one for the current form state. */
  function Render(s: State): (v: View)
    ensures v.fields == s.data
    ensures v.button.Shown? <==> !s.submitted
    ensures v.button.Shown? ==> (v.button.disabled <==> IsFormInvalid(s.data))
    ensures v.emailHint <==> !EmailValidator.ValidateEmail(s.data.email)
    ensures |v.feedback| <= 1
    ensures |v.feedback| == 1 <==> s.submitted && s.formState != Default
    ensures |v.feedback| == 1 ==> v.feedback[0] == FeedbackFor(s.formState)
  {
    var validEmail := EmailValidator.ValidateEmail(s.data.email);
    View(
      s.data,
      !validEmail && |s.data.email| >= 0,
      if !s.submitted then Shown(IsFormInvalid(s.data)) else Hidden,
      (if s.submitted && s.formState == Loading then [LoadingFeedback] else [])
      + (if s.submitted && s.formState == Done then [SuccessFeedback] else [])
      + (if s.submitted && s.formState == Error then [ErrorFeedback] else []))
  }

  /** The submit event is possible exactly when an enabled submit button is
      on screen. */
  lemma SubmitNeedsEnabledButton(s: State)
    ensures Enabled(s, Submit) <==> Render(s).button == Shown(false)
  {
  }

  /** A fresh form shows empty fields, the invalid-email hint (the empty
      email is invalid and the length test never fails) and a disabled
      button, and no panel. */
  lemma InitialView()
    ensures Render(Initial) == View(EmptyMessage, true, Shown(true), [])
  {
    assert !EmailValidator.ValidateEmail(Initial.data.email) by {
      EmptyEmailInvalid(Initial.data);
    }
  }

  /** In a consistent state the user sees either the submit button or exactly
      one feedback panel, never both and never neither. */
  lemma OneControlShown(s: State)
    requires Consistent(s)
    ensures var v := Render(s); v.button.Shown? <==> |v.feedback| == 0
  {
  }

  /** A submitted form shows no button and the panel of its state. */
  lemma SubmittedView(s: State)
    requires s.submitted && s.formState != Default
    ensures Render(s).button == Hidden
    ensures Render(s).feedback == [FeedbackFor(s.formState)]
  {
    var v := Render(s);
    assert v.feedback == [v.feedback[0]];
  }

  /** A form not submitted shows the button, disabled exactly when the form is
      invalid, and no panel. */
  lemma UnsubmittedView(s: State)
    requires !s.submitted
    ensures Render(s).button == Shown(IsFormInvalid(s.data))
    ensures Render(s).feedback == []
  {
  }
}
