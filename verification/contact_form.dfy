/**
 The state of `FormContent` (ContactForm/index.js, lines 54-130) as a reducer
 from a state and an event to the next state and the request it sends.

 Each handler's React state updates happen as one step. The network call and
 the one-second timer that follows it are folded into a single completion
 event, `Succeeded` or `Failed`, that may arrive at any later time: the timer
 is never cancelled, so a completion can land after `Reset` or during a later
 submission. `inFlight` counts the submissions whose completion has not yet
 arrived; it is not a variable of the component but is what makes a
 completion possible at all.
 */
module ContactForm {
  import EmailValidator

  /** The three inputs, by their `name` attribute. */
  datatype Field = Name | Email | Message

  /** The message being written: `contactMessageData`. */
  datatype ContactMessage = ContactMessage(name: string, email: string, message: string)

  /** `formStates`. */
  datatype FormState = Default | Loading | Done | Error

  datatype State = State(
    submitted: bool,            // isFormSubmitted
    formState: FormState,
    data: ContactMessage,
    inFlight: nat)              // submissions whose completion is still pending

  datatype Event =
    | FieldChanged(field: Field, value: string)   // handleChange
    | Submit                                      // onSubmit
    | Succeeded                                   // the DONE timer fires
    | Failed                                      // the ERROR timer fires
    | Reset                                       // resetForm, from the close button

  /** What a submission's `fetch` ends with: a response with an HTTP status,
      or a thrown error (no connection, for one). */
  datatype Response = Responded(status: int) | Threw

  /** What a step sends over the network. */
  datatype Effect = NoRequest | Post(payload: ContactMessage)

  datatype Transition = Transition(next: State, effect: Effect)

  const EmptyMessage := ContactMessage("", "", "")

  /** The state of a freshly mounted form. */
  const Initial := State(false, Default, EmptyMessage, 0)

  function Get(m: ContactMessage, f: Field): string {
    match f
    case Name => m.name
    case Email => m.email
    case Message => m.message
  }

  /** `{ ...contactMessageData, [fieldName]: value }` */
  function Set(m: ContactMessage, f: Field, v: string): (m': ContactMessage)
    ensures Get(m', f) == v
    ensures forall g :: g != f ==> Get(m', g) == Get(m, g)
  {
    match f
    case Name => m.(name := v)
    case Email => m.(email := v)
    case Message => m.(message := v)
  }

  /** `Object.values(contactMessageData)`, in insertion order. */
  function Values(m: ContactMessage): seq<string> {
    [m.name, m.email, m.message]
  }

  /** `values.reduce((valid, field) => (field.length === 0 ? true : valid), acc)` */
  function ReduceEmpty(acc: bool, fields: seq<string>): bool
    decreases |fields|
  {
    if |fields| == 0 then acc
    else ReduceEmpty(if |fields[0]| == 0 then true else acc, fields[1..])
  }

  /** The reduction is true exactly when it started true or meets an empty
      field. */
  lemma {:induction false} ReduceEmptyIff(acc: bool, fields: seq<string>)
    ensures ReduceEmpty(acc, fields) <==> acc || exists i :: 0 <= i < |fields| && |fields[i]| == 0
    decreases |fields|
  {
    if |fields| > 0 {
      var acc' := if |fields[0]| == 0 then true else acc;
      ReduceEmptyIff(acc', fields[1..]);
      if exists i :: 0 <= i < |fields[1..]| && |fields[1..][i]| == 0 {
        var i :| 0 <= i < |fields[1..]| && |fields[1..][i]| == 0;
        assert |fields[i + 1]| == 0;
      }
      if exists i :: 0 <= i < |fields| && |fields[i]| == 0 {
        var i :| 0 <= i < |fields| && |fields[i]| == 0;
        if i > 0 {
          assert fields[1..][i - 1] == fields[i];
        }
      }
    }
  }

  /** `anyEmptyFields`: some field is the empty string. */
  function AnyEmptyFields(m: ContactMessage): (r: bool)
    ensures r <==> m.name == "" || m.email == "" || m.message == ""
  {
    ReduceEmptyIff(false, Values(m));
    var vs := Values(m);
    assert vs[0] == m.name && vs[1] == m.email && vs[2] == m.message;
    ReduceEmpty(false, Values(m))
  }

  /** `isFormInvalid`: an empty field, or an email `validateEmail` rejects. */
  function IsFormInvalid(m: ContactMessage): (r: bool)
    ensures r <==> m.name == "" || m.email == "" || m.message == ""
                   || !EmailValidator.ValidateEmail(m.email)
  {
    AnyEmptyFields(m) || !EmailValidator.ValidateEmail(m.email)
  }

  /** An empty email makes the form invalid, whatever the other fields. */
  lemma EmptyEmailInvalid(m: ContactMessage)
    requires m.email == ""
    ensures IsFormInvalid(m)
  {
  }

  /** When an event can happen. Typing and closing are always possible, as
      the fields and the close button are always rendered. Submitting needs
      the submit button, which is rendered only while not submitted and is
      disabled while the form is invalid; the handler itself checks nothing.
      A completion needs a submission whose completion is still pending. */
  predicate Enabled(s: State, e: Event) {
    match e
    case Submit => !s.submitted && !IsFormInvalid(s.data)
    case Succeeded => s.inFlight > 0
    case Failed => s.inFlight > 0
    case _ => true
  }

  /** The event a submission's completion becomes: an ok status (200-299,
      the `ok` of the Fetch standard) gives `Succeeded`; any other status is
      thrown as an error and, like a thrown error, gives `Failed`. */
  function Completion(r: Response): Event {
    if r.Responded? && 200 <= r.status <= 299 then Succeeded else Failed
  }

  function Step(s: State, e: Event): (t: Transition)
    requires Enabled(s, e)
    ensures t.effect.Post? <==> e.Submit?
    ensures t.effect.Post? ==> t.effect.payload == s.data && !IsFormInvalid(t.effect.payload)
    ensures t.next.inFlight + (if e.Succeeded? || e.Failed? then 1 else 0)
            == s.inFlight + (if e.Submit? then 1 else 0)
  {
    match e
    case FieldChanged(f, v) => Transition(s.(data := Set(s.data, f, v)), NoRequest)
    case Submit =>
      Transition(s.(submitted := true, formState := Loading, inFlight := s.inFlight + 1), Post(s.data))
    case Succeeded => Transition(s.(formState := Done, inFlight := s.inFlight - 1), NoRequest)
    case Failed => Transition(s.(formState := Error, inFlight := s.inFlight - 1), NoRequest)
    case Reset => Transition(s.(submitted := false, formState := Default, data := EmptyMessage), NoRequest)
  }

  // ----- One event at a time -----

  /** Typing sets the one field and changes nothing else. */
  lemma FieldChangedSetsOnlyThatField(s: State, f: Field, v: string)
    ensures var n := Step(s, FieldChanged(f, v)).next;
      && Get(n.data, f) == v
      && (forall g :: g != f ==> Get(n.data, g) == Get(s.data, g))
      && n.submitted == s.submitted && n.formState == s.formState && n.inFlight == s.inFlight
  {
  }

  /** Closing clears everything the user sees, from any state, but cancels no
      pending completion; closing twice is closing once. */
  lemma ResetClears(s: State)
    ensures var n := Step(s, Reset).next;
      && !n.submitted && n.formState == Default
      && n.data.name == "" && n.data.email == "" && n.data.message == ""
      && n.inFlight == s.inFlight
      && Step(n, Reset).next == n
  {
  }

  /** A submission marks the form submitted, shows loading and posts the
      fields exactly as they are at that moment, which are complete and carry
      a valid email. */
  lemma SubmitPostsSnapshot(s: State)
    requires Enabled(s, Submit)
    ensures var t := Step(s, Submit);
      && t.next.submitted && t.next.formState == Loading && t.next.data == s.data
      && t.effect == Post(ContactMessage(s.data.name, s.data.email, s.data.message))
      && t.effect.payload.name != "" && t.effect.payload.message != ""
      && EmailValidator.ValidateEmail(t.effect.payload.email)
  {
  }

  /** A completion sets DONE for an ok response and ERROR for a non-ok
      response or a thrown error, and touches nothing else the user sees. */
  lemma CompletionOutcome(s: State, r: Response)
    requires s.inFlight > 0
    ensures var n := Step(s, Completion(r)).next;
      && (n.formState == Done <==> r.Responded? && 200 <= r.status <= 299)
      && (n.formState == Error <==> !(r.Responded? && 200 <= r.status <= 299))
      && n.submitted == s.submitted && n.data == s.data
  {
  }

  // ----- Invariants -----

  /** Holds in every reachable state: a submitted form is never DEFAULT, and
      LOADING means submitted with a completion still to come. */
  predicate Consistent(s: State) {
    && (s.submitted ==> s.formState != Default)
    && (s.formState == Loading ==> s.submitted && s.inFlight > 0)
  }

  /** "Submitted exactly when not DEFAULT": the invariant the form is meant
      to keep, which a completion arriving after a reset breaks. */
  predicate Settled(s: State) {
    s.submitted <==> s.formState != Default
  }

  lemma StepKeepsConsistent(s: State, e: Event)
    requires Consistent(s) && Enabled(s, e)
    ensures Consistent(Step(s, e).next)
  {
  }

  /** Every event keeps `Settled` provided completions arrive only while
      LOADING. */
  lemma StepKeepsSettled(s: State, e: Event)
    requires Settled(s) && Enabled(s, e)
    requires e.Succeeded? || e.Failed? ==> s.formState == Loading
    ensures Settled(Step(s, e).next)
  {
  }

  /** A completion arriving in a state that is not submitted, as after a
      reset, leaves the form unsubmitted but DONE or ERROR. */
  lemma LateCompletionUnsettles(s: State, e: Event)
    requires !s.submitted && s.inFlight > 0
    requires e.Succeeded? || e.Failed?
    ensures !Settled(Step(s, e).next)
  {
  }
}
