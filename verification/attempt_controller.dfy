/**
 * The attempt view's state as the component keeps it: one field per state
 * hook, updated in place by one method per event. Each method's new state is
 * tied to the corresponding step of the Attempt state machine.
 */
module AttemptController {
  import opened Wrappers
  import opened Answers
  import opened Attempt

  class QuizAttempt {
    var loaded: bool
    var answers: AnswerMap
    var submitted: bool
    var submitting: bool
    var score: Option<int>
    var timeLeft: int
    var intervalActive: bool

    function State(): AttemptState
      reads this
    {
      AttemptState(loaded, answers, submitted, submitting, score, timeLeft, intervalActive)
    }

    ghost predicate Valid()
      reads this
    {
      Consistent(State())
    }

    /** The hooks' initial values: no quiz, no answers, nothing submitted,
        no score, a zero countdown and no interval. */
    constructor ()
      ensures Valid() && State() == Initial
    {
      loaded, answers := false, map[];
      submitted, submitting, score := false, false, None;
      timeLeft, intervalActive := 0, false;
    }

    /** The question set arrived. */
    method QuizLoaded(durationMinutes: int)
      requires Valid()
      modifies this
      ensures Valid()
      ensures loaded && timeLeft == durationMinutes * 60 && intervalActive == !submitted
      ensures answers == old(answers) && submitted == old(submitted)
      ensures submitting == old(submitting) && score == old(score)
      ensures State() == Step(old(State()), Event.QuizLoaded(durationMinutes)).post
    {
      loaded := true;
      timeLeft := durationMinutes * 60;
      intervalActive := !submitted;
    }

    /** `handleChange(q, v)`: only the answer sheet changes. */
    method HandleChange(q: QuestionId, v: Answer)
      requires Valid()
      modifies this`answers
      ensures Valid()
      ensures answers == SetAnswer(old(answers), q, v)
      ensures State() == Step(old(State()), Change(q, v)).post
    {
      answers := answers[q := v];
    }

    /** A checkbox change: the option shows checked exactly as asked. */
    method ToggleCheckbox(q: QuestionId, opt: string, checked: bool)
      requires Valid()
      modifies this`answers
      ensures Valid()
      ensures answers == ToggleOption(old(answers), q, opt, checked)
      ensures IsChecked(answers, q, opt) == checked
      ensures State() == Step(old(State()), Toggle(q, opt, checked)).post
    {
      var prev := PreviousSelection(answers, q);
      var next := if checked then prev + [opt] else Without(prev, opt);
      ToggleOptionChecked(answers, q, opt, checked);
      HandleChange(q, Selection(next));
    }

    /** `handleSubmit` up to its `await`: returns the answers sent, if any. */
    method HandleSubmit() returns (request: Option<AnswerMap>)
      requires Valid()
      modifies this`submitting
      ensures Valid()
      ensures request.Some? <==> !submitted && !old(submitting)
      ensures request.Some? ==> request.value == answers && submitting
      ensures request.None? ==> submitting == old(submitting)
      ensures Transition(State(), request) == Attempt.HandleSubmit(old(State()))
    {
      if submitted || submitting {
        return None;
      }
      submitting := true;
      request := Some(answers);
    }

    /** `handleSubmit` after its `await`: the backend's reply to the request
        in flight. */
    method ReceiveResponse(outcome: Outcome)
      requires Valid() && submitting
      modifies this`submitted, this`score, this`submitting, this`intervalActive
      ensures Valid() && !submitting && answers == old(answers)
      ensures outcome.Success? ==> submitted && score == Some(outcome.score) && !intervalActive
      ensures outcome.Failure? ==> !submitted && score == old(score) && intervalActive == old(intervalActive)
      ensures State() == Step(old(State()), Response(outcome)).post
    {
      match outcome {
        case Success(v) =>
          submitted := true;
          score := Some(v);
          // the interval effect depends on `submitted` and is torn down
          intervalActive := false;
        case Failure =>
      }
      submitting := false;
    }

    /** A click on the submit button. */
    method Click() returns (request: Option<AnswerMap>)
      requires Valid()
      modifies this`submitting
      ensures Valid()
      ensures request.Some? ==> ButtonEnabled(old(State())) && request.value == answers && submitting
      ensures request.None? ==> submitting == old(submitting)
      ensures Transition(State(), request) == Step(old(State()), Event.Click)
    {
      if !(loaded && !submitted && !submitting) {
        return None;
      }
      request := HandleSubmit();
    }

    /** One second of the interval. */
    method Tick() returns (request: Option<AnswerMap>)
      requires Valid()
      modifies this`timeLeft, this`intervalActive, this`submitting
      ensures Valid()
      ensures old(intervalActive) ==> timeLeft >= 0
      ensures old(intervalActive) && old(timeLeft) > 1 ==>
        timeLeft == old(timeLeft) - 1 && intervalActive && request.None?
      ensures old(intervalActive) && old(timeLeft) <= 1 ==>
        timeLeft == 0 && !intervalActive
        && (request.Some? <==> !old(submitting))
      ensures Transition(State(), request) == Step(old(State()), Event.Tick)
    {
      if !intervalActive {
        return None;
      }
      if timeLeft <= 1 {
        intervalActive := false;
        // the updater invokes the submit operation, then yields 0
        request := HandleSubmit();
        timeLeft := 0;
      } else {
        timeLeft := timeLeft - 1;
        request := None;
      }
    }
  }
}
