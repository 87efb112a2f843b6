/**
 * The timed quiz attempt as a state machine over discrete events on one
 * thread: the question set arriving, answer edits, clicks on the submit
 * button, one-second timer ticks and the backend's reply to a submission.
 *
 * `handleSubmit` is asynchronous. The part before its `await` (the guard, the
 * lock and the request) is `HandleSubmit`; the part after it (commit or
 * failure, then the `finally` that releases the lock) is `Settle`, run when
 * the `Response` event arrives. The request itself is an output of the step
 * that sends it; its outcome is an input of the `Response` event.
 *
 * These functions are the specification the `QuizAttempt` class is proved
 * against; the properties of whole event sequences are in AttemptTraces.
 */
module Attempt {
  import opened Wrappers
  import opened Answers

  /** What the backend answers to a submission: a score, or an error. */
  datatype Outcome = Success(score: int) | Failure

  datatype AttemptState = AttemptState(
    loaded: bool,           // the question set has arrived (`quiz` is not null)
    answers: AnswerMap,
    submitted: bool,
    submitting: bool,       // a submission request is in flight
    score: Option<int>,
    timeLeft: int,
    intervalActive: bool)   // the one-second interval is running

  datatype Event =
    | QuizLoaded(durationMinutes: int)
    | Change(question: QuestionId, value: Answer)
    | Toggle(question: QuestionId, option: string, checked: bool)
    | Click
    | Tick
    | Response(outcome: Outcome)

  /** The state after a step and the answers sent to the backend by it, if any. */
  datatype Transition = Transition(post: AttemptState, request: Option<AnswerMap>)

  /** The state when the attempt view is first shown. */
  const Initial := AttemptState(false, map[], false, false, None, 0, false)

  /** The states the view can reach: never committed and in flight at once, a
      score exactly when committed, and a running interval only for a loaded,
      uncommitted quiz. */
  predicate Consistent(s: AttemptState) {
    && !(s.submitted && s.submitting)
    && (s.submitted <==> s.score.Some?)
    && (s.intervalActive ==> s.loaded && !s.submitted)
  }

  /** The question fetch resolved: the quiz is shown, the countdown starts at
      `duration_minutes * 60`, and the interval effect (which depends on the
      quiz and on `submitted`) starts the interval unless already submitted. */
  function Load(s: AttemptState, durationMinutes: int): (r: AttemptState)
    ensures r.loaded && r.timeLeft == durationMinutes * 60
    ensures r.intervalActive == !s.submitted
    ensures r.answers == s.answers && r.submitted == s.submitted
    ensures r.submitting == s.submitting && r.score == s.score
  {
    s.(loaded := true, timeLeft := durationMinutes * 60, intervalActive := !s.submitted)
  }

  /** `handleSubmit` up to its `await`: a request goes out exactly when nothing
      is committed and nothing is in flight; it carries the current answers and
      the lock is taken before it is issued. Otherwise nothing changes. */
  function HandleSubmit(s: AttemptState): (t: Transition)
    ensures t.request.Some? <==> !s.submitted && !s.submitting
    ensures t.request.Some? ==> t.request.value == s.answers && t.post == s.(submitting := true)
    ensures t.request.None? ==> t.post == s
  {
    if s.submitted || s.submitting then Transition(s, None)
    else Transition(s.(submitting := true), Some(s.answers))
  }

  /** `handleSubmit` after its `await`. A success commits: `submitted` is set,
      the returned score is recorded and the interval effect is torn down. A
      failure leaves everything but the lock as it was, answers included. In
      both cases the lock is released. A reply with nothing in flight does
      not exist; such an event changes nothing. */
  function Settle(s: AttemptState, outcome: Outcome): (r: AttemptState)
    ensures !s.submitting ==> r == s
    ensures s.submitting ==> !r.submitting && r.answers == s.answers && r.timeLeft == s.timeLeft
    ensures s.submitting && outcome.Success? ==>
      r.submitted && r.score == Some(outcome.score) && !r.intervalActive
    ensures s.submitting && outcome.Success? ==>
      r == s.(submitted := true, score := Some(outcome.score), submitting := false, intervalActive := false)
    ensures s.submitting && outcome.Failure? ==> r == s.(submitting := false)
  {
    if !s.submitting then s
    else match outcome
      case Success(v) => s.(submitted := true, score := Some(v), submitting := false, intervalActive := false)
      case Failure => s.(submitting := false)
  }

  /** The countdown value after one tick, and whether the tick expired the
      timer (the `setTimeLeft` updater). */
  datatype Countdown = Countdown(next: int, expired: bool)

  function CountDown(prev: int): (c: Countdown)
    ensures c.next >= 0
    ensures c.expired <==> prev <= 1
    ensures c.expired ==> c.next == 0
    ensures !c.expired ==> c.next == prev - 1
  {
    if prev <= 1 then Countdown(0, true) else Countdown(prev - 1, false)
  }

  /** One tick of the interval. Without a running interval nothing happens.
      Above one second left, the countdown goes down by one and nothing is
      sent. At one second or less, the countdown shows 0, the interval is
      cleared and `handleSubmit` is invoked, once. */
  function TickStep(s: AttemptState): (t: Transition)
    ensures !s.intervalActive ==> t == Transition(s, None)
    ensures s.intervalActive && s.timeLeft > 1 ==>
      t == Transition(s.(timeLeft := s.timeLeft - 1), None)
    ensures s.intervalActive && s.timeLeft <= 1 ==>
      t == HandleSubmit(s.(timeLeft := 0, intervalActive := false))
    ensures s.intervalActive ==> t.post.timeLeft >= 0
  {
    if !s.intervalActive then Transition(s, None)
    else
      var c := CountDown(s.timeLeft);
      if c.expired then HandleSubmit(s.(timeLeft := c.next, intervalActive := false))
      else Transition(s.(timeLeft := c.next), None)
  }

  /** The submit button is rendered once the quiz is shown and until it is
      submitted, and is disabled while a request is in flight. */
  predicate ButtonEnabled(s: AttemptState) {
    s.loaded && !s.submitted && !s.submitting
  }

  /** A click reaches `handleSubmit` only through an enabled button. */
  function ClickStep(s: AttemptState): (t: Transition)
    ensures t.request.Some? <==> ButtonEnabled(s)
    ensures t.request.None? ==> t.post == s
  {
    if ButtonEnabled(s) then HandleSubmit(s) else Transition(s, None)
  }

  /** One event. */
  function Step(s: AttemptState, e: Event): (t: Transition)
    ensures t.request.Some? ==> e.Click? || e.Tick?
    ensures !e.Change? && !e.Toggle? ==> t.post.answers == s.answers
  {
    match e
    case QuizLoaded(d) => Transition(Load(s, d), None)
    case Change(q, v) => Transition(s.(answers := SetAnswer(s.answers, q, v)), None)
    case Toggle(q, o, c) => Transition(s.(answers := ToggleOption(s.answers, q, o, c)), None)
    case Click => ClickStep(s)
    case Tick => TickStep(s)
    case Response(o) => Transition(Settle(s, o), None)
  }

  /** Once the quiz is shown, the disabled button and the guard agree: a click
      does exactly what `handleSubmit` does. */
  lemma ClickMatchesGuard(s: AttemptState)
    requires s.loaded
    ensures ClickStep(s) == HandleSubmit(s)
  {
  }

  /** Every event keeps the view in a reachable-looking state. */
  lemma StepConsistent(s: AttemptState, e: Event)
    requires Consistent(s)
    ensures Consistent(Step(s, e).post)
  {
  }

  /** Whatever the event (click or timer), a request is sent only when none is
      in flight and none has succeeded; it carries the answers of that moment
      and leaves a request in flight. */
  lemma SendOnlyWhenIdle(s: AttemptState, e: Event)
    ensures var t := Step(s, e);
      t.request.Some? ==>
        !s.submitted && !s.submitting && t.post.submitting && !t.post.submitted
        && t.request.value == s.answers && t.post.answers == s.answers
  {
  }

  /** Once committed, every event leaves the commitment, the score and the
      silence towards the backend in place. */
  lemma SubmittedStays(s: AttemptState, e: Event)
    requires Consistent(s) && s.submitted
    ensures var t := Step(s, e);
      t.request.None? && t.post.submitted && t.post.score == s.score && !t.post.submitting
  {
  }

  /** A failed submission keeps the answers, leaves the attempt uncommitted and
      unlocked, and the next click is accepted again, sending the same answers. */
  lemma FailureAllowsRetry(s: AttemptState)
    requires Consistent(s) && s.loaded && s.submitting
    ensures var r := Step(s, Response(Failure)).post;
      && r.answers == s.answers && !r.submitted && !r.submitting
      && ClickStep(r) == Transition(r.(submitting := true), Some(s.answers))
  {
  }
}
