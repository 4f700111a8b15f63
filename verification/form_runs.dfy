/**
 Sequences of events from a state: which are possible, where they lead, and
 what they post. The facts here are about whole runs of the form in
 ContactForm/index.js (lines 61-130).
 */
module FormRuns {
  import EmailValidator
  import EmailExamples
  import opened ContactForm
  import opened FormView

  /** Every event of `es` is possible when it happens. */
  predicate ValidRun(s: State, es: seq<Event>)
    decreases |es|
  {
    |es| == 0 || (Enabled(s, es[0]) && ValidRun(Step(s, es[0]).next, es[1..]))
  }

  function Run(s: State, es: seq<Event>): State
    requires ValidRun(s, es)
    decreases |es|
  {
    if |es| == 0 then s else Run(Step(s, es[0]).next, es[1..])
  }

  /** The payloads sent along the run, in order. */
  function Posts(s: State, es: seq<Event>): seq<ContactMessage>
    requires ValidRun(s, es)
    decreases |es|
  {
    if |es| == 0 then []
    else
      var t := Step(s, es[0]);
      (if t.effect.Post? then [t.effect.payload] else []) + Posts(t.next, es[1..])
  }

  function CountSubmits(es: seq<Event>): nat {
    if |es| == 0 then 0 else (if es[0].Submit? then 1 else 0) + CountSubmits(es[1..])
  }

  function CountCompletions(es: seq<Event>): nat {
    if |es| == 0 then 0
    else (if es[0].Succeeded? || es[0].Failed? then 1 else 0) + CountCompletions(es[1..])
  }

  /** Every run keeps `Consistent`. */
  lemma {:induction false} RunKeepsConsistent(s: State, es: seq<Event>)
    requires Consistent(s) && ValidRun(s, es)
    ensures Consistent(Run(s, es))
    decreases |es|
  {
    if |es| > 0 {
      StepKeepsConsistent(s, es[0]);
      RunKeepsConsistent(Step(s, es[0]).next, es[1..]);
    }
  }

  /** Every state reachable from a fresh form is consistent, so it shows the
      submit button or exactly one feedback panel. */
  lemma Reachable(es: seq<Event>)
    requires ValidRun(Initial, es)
    ensures Consistent(Run(Initial, es))
    ensures var v := Render(Run(Initial, es)); v.button.Shown? <==> |v.feedback| == 0
  {
    RunKeepsConsistent(Initial, es);
    OneControlShown(Run(Initial, es));
  }

  /** One request per submission, and every completion answers one of them:
      what is pending at the end is what was pending at the start plus the
      requests sent minus the completions received. */
  lemma {:induction false} InFlightBalance(s: State, es: seq<Event>)
    requires ValidRun(s, es)
    ensures |Posts(s, es)| == CountSubmits(es)
    ensures Run(s, es).inFlight + CountCompletions(es) == s.inFlight + |Posts(s, es)|
    decreases |es|
  {
    if |es| > 0 {
      InFlightBalance(Step(s, es[0]).next, es[1..]);
    }
  }

  /** The server only ever receives complete messages with a valid email. */
  lemma {:induction false} PostsAreComplete(s: State, es: seq<Event>)
    requires ValidRun(s, es)
    ensures forall i :: 0 <= i < |Posts(s, es)| ==> !IsFormInvalid(Posts(s, es)[i])
    decreases |es|
  {
    if |es| > 0 {
      var t := Step(s, es[0]);
      var rest := Posts(t.next, es[1..]);
      PostsAreComplete(t.next, es[1..]);
      var head := if t.effect.Post? then [t.effect.payload] else [];
      assert Posts(s, es) == head + rest;
      forall i | 0 <= i < |Posts(s, es)| ensures !IsFormInvalid(Posts(s, es)[i]) {
        if i < |head| {
          assert Posts(s, es)[i] == t.effect.payload;
        } else {
          assert Posts(s, es)[i] == rest[i - |head|];
        }
      }
    }
  }

  /** DONE or ERROR is only reached through a submission: either the run
      starts there, or a completion was already pending, or the run posts. */
  lemma {:induction false} OutcomeNeedsSubmission(s: State, es: seq<Event>)
    requires ValidRun(s, es)
    requires Run(s, es).formState in {Done, Error}
    ensures s.formState in {Done, Error} || s.inFlight > 0 || |Posts(s, es)| > 0
    decreases |es|
  {
    if |es| > 0 {
      OutcomeNeedsSubmission(Step(s, es[0]).next, es[1..]);
    }
  }

  /** From a fresh form, DONE or ERROR means a complete, valid message was
      posted earlier in the run. */
  lemma OutcomeFollowsValidPost(es: seq<Event>)
    requires ValidRun(Initial, es)
    requires Run(Initial, es).formState in {Done, Error}
    ensures |Posts(Initial, es)| > 0
    ensures !IsFormInvalid(Posts(Initial, es)[0])
  {
    OutcomeNeedsSubmission(Initial, es);
    PostsAreComplete(Initial, es);
  }

  // ----- Scenarios -----

  /** Typing the three fields of `m` into the form, in order. */
  function FillIn(m: ContactMessage): seq<Event> {
    [FieldChanged(Name, m.name), FieldChanged(Email, m.email), FieldChanged(Message, m.message)]
  }

  /** A run of one event is that event's step. */
  lemma RunOne(s: State, e: Event)
    requires Enabled(s, e)
    ensures ValidRun(s, [e]) && Run(s, [e]) == Step(s, e).next
    ensures Posts(s, [e]) == if e.Submit? then [s.data] else []
  {
    assert [e][1..] == [];
  }

  lemma FillInFresh(m: ContactMessage)
    ensures ValidRun(Initial, FillIn(m))
    ensures Run(Initial, FillIn(m)) == Initial.(data := m)
  {
    var s1 := Initial.(data := EmptyMessage.(name := m.name));
    var s2 := s1.(data := s1.data.(email := m.email));
    RunOne(Initial, FieldChanged(Name, m.name));
    RunOne(s1, FieldChanged(Email, m.email));
    RunOne(s2, FieldChanged(Message, m.message));
    RunAppend(Initial, [FieldChanged(Name, m.name)], [FieldChanged(Email, m.email)]);
    assert [FieldChanged(Name, m.name)] + [FieldChanged(Email, m.email)] + [FieldChanged(Message, m.message)]
      == FillIn(m);
    RunAppend(Initial, [FieldChanged(Name, m.name)] + [FieldChanged(Email, m.email)],
              [FieldChanged(Message, m.message)]);
  }

  /** The outcome a response leads to. */
  function OutcomeOf(r: Response): FormState {
    if r.Responded? && 200 <= r.status <= 299 then Done else Error
  }

  /** Submit then complete, from any state with a complete, valid message:
      LOADING, then the response's outcome, with exactly the message posted. */
  lemma SubmitThenComplete(s: State, r: Response)
    requires !s.submitted && !IsFormInvalid(s.data)
    ensures ValidRun(s, [Submit, Completion(r)])
    ensures Step(s, Submit).next == s.(submitted := true, formState := Loading, inFlight := s.inFlight + 1)
    ensures Run(s, [Submit, Completion(r)])
            == s.(submitted := true, formState := OutcomeOf(r))
    ensures Posts(s, [Submit, Completion(r)]) == [s.data]
  {
    var loading := Step(s, Submit).next;
    RunOne(s, Submit);
    RunOne(loading, Completion(r));
    RunAppend(s, [Submit], [Completion(r)]);
    PostsAppend(s, [Submit], [Completion(r)]);
  }

  /** Fill in a complete message with a valid email, submit, and get an ok
      or failing response: the form goes DEFAULT, LOADING, then DONE or
      ERROR; the button is enabled before and hidden from the submission on,
      the loading panel gives way to the outcome's panel, and exactly the
      typed message is posted. */
  lemma SubmissionScenario(m: ContactMessage, r: Response)
    requires !IsFormInvalid(m)
    ensures ValidRun(Initial, FillIn(m)) && Run(Initial, FillIn(m)) == Initial.(data := m)
    ensures var filled := Initial.(data := m);
      && ValidRun(filled, [Submit, Completion(r)])
      && var loading := Step(filled, Submit).next;
      && var ended := Run(filled, [Submit, Completion(r)]);
      && loading.formState == Loading
      && ended.formState == OutcomeOf(r)
      && Render(filled).button == Shown(false)
      && Render(loading).button == Hidden && Render(loading).feedback == [LoadingFeedback]
      && Render(ended).button == Hidden && Render(ended).feedback == [FeedbackFor(OutcomeOf(r))]
      && Posts(filled, [Submit, Completion(r)]) == [m]
  {
    FillInFresh(m);
    var filled := Initial.(data := m);
    SubmitThenComplete(filled, r);
    UnsubmittedView(filled);
    SubmittedView(Step(filled, Submit).next);
    SubmittedView(Run(filled, [Submit, Completion(r)]));
  }

  /** Submitting, closing, then the late completion: the form ends neither
      submitted nor DEFAULT, so `Settled` does not hold in every reachable
      state. Nothing shows it at once (the panels need `submitted`), but the
      stale DONE stays in `formState`. */
  lemma LateCompletionReachable(m: ContactMessage)
    requires !IsFormInvalid(m)
    ensures var es := FillIn(m) + [Submit, Reset, Succeeded];
      && ValidRun(Initial, es)
      && var s := Run(Initial, es);
      && !s.submitted && s.formState == Done && !Settled(s)
      && Render(s).button == Shown(true) && Render(s).feedback == []
  {
    FillInFresh(m);
    var filled := Initial.(data := m);
    var loading := State(true, Loading, m, 1);
    var closed := State(false, Default, EmptyMessage, 1);
    RunOne(filled, Submit);
    RunOne(loading, Reset);
    RunOne(closed, Succeeded);
    RunAppend(filled, [Submit], [Reset]);
    RunAppend(filled, [Submit, Reset], [Succeeded]);
    RunAppend(Initial, FillIn(m), [Submit, Reset, Succeeded]);
    EmptyEmailInvalid(EmptyMessage);
    UnsubmittedView(State(false, Done, EmptyMessage, 0));
  }

  /** Posts of `a + b` are the posts of `a` then those of `b`. */
  lemma {:induction false} PostsAppend(s: State, a: seq<Event>, b: seq<Event>)
    requires ValidRun(s, a) && ValidRun(Run(s, a), b)
    ensures ValidRun(s, a + b)
    ensures Posts(s, a + b) == Posts(s, a) + Posts(Run(s, a), b)
    decreases |a|
  {
    RunAppend(s, a, b);
    if |a| > 0 {
      assert (a + b)[0] == a[0] && (a + b)[1..] == a[1..] + b;
      PostsAppend(Step(s, a[0]).next, a[1..], b);
    } else {
      assert a + b == b;
    }
  }

  /** The happy path with `{name: "Ana", email: "ana@example.com", message: "hi"}`. */
  lemma AnaScenario(r: Response)
    ensures var m := ContactMessage("Ana", "ana@example.com", "hi");
      var filled := Run(Initial, FillIn(m));
      && ValidRun(filled, [Submit, Completion(r)])
      && Run(filled, [Submit, Completion(r)]).formState == OutcomeOf(r)
      && Posts(filled, [Submit, Completion(r)]) == [m]
  {
    var m := ContactMessage("Ana", "ana@example.com", "hi");
    assert !IsFormInvalid(m) by {
      EmailExamples.AcceptsPlainAddress();
    }
    SubmissionScenario(m, r);
  }

  /** Running `a` then `b` is running `a + b`. */
  lemma {:induction false} RunAppend(s: State, a: seq<Event>, b: seq<Event>)
    requires ValidRun(s, a) && ValidRun(Run(s, a), b)
    ensures ValidRun(s, a + b) && Run(s, a + b) == Run(Run(s, a), b)
    decreases |a|
  {
    if |a| > 0 {
      assert (a + b)[0] == a[0] && (a + b)[1..] == a[1..] + b;
      RunAppend(Step(s, a[0]).next, a[1..], b);
    } else {
      assert a + b == b;
    }
  }
}
