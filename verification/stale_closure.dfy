/**
 * The timer's submit as written. The interval callback calls the
 * `handleSubmit` of the render in which the interval effect last ran; that
 * effect re-runs only when the quiz or `submitted` changes, so the callback's
 * `submitted`, `submitting` and `answers` are those of the render right after
 * the quiz arrived. Only the countdown itself (the `setTimeLeft` updater's
 * argument) is live.
 *
 * The rest of the model uses the intended reading, `Attempt.TickStep`, where
 * the expiring tick consults the current state.
 */
module StaleClosure {
  import opened Wrappers
  import opened Answers
  import opened Attempt

  /** One tick as written, given the state the callback captured. */
  function StaleTickStep(s: AttemptState, captured: AttemptState): (t: Transition)
    ensures t.request.Some? <==>
      s.intervalActive && s.timeLeft <= 1 && !captured.submitted && !captured.submitting
    ensures t.request.Some? ==> t.request.value == captured.answers && t.post.submitting
    ensures s.intervalActive ==> t.post.timeLeft >= 0
  {
    if !s.intervalActive then Transition(s, None)
    else if s.timeLeft > 1 then Transition(s.(timeLeft := s.timeLeft - 1), None)
    else if captured.submitted || captured.submitting then
      Transition(s.(timeLeft := 0, intervalActive := false), None)
    else Transition(s.(timeLeft := 0, intervalActive := false, submitting := true), Some(captured.answers))
  }

  /** A zero-minute quiz (the first tick expires it), answered before that
      tick: as written, the automatic submission sends the empty answer sheet
      captured at load, not the answer given; the intended step sends it. */
  lemma StaleAutoSubmitDropsAnswers(q: QuestionId, v: string)
    ensures var loaded := Load(Initial, 0);
      var answered := Step(loaded, Change(q, Choice(v))).post;
      && answered.answers == map[q := Choice(v)]
      && StaleTickStep(answered, loaded).request == Some(map[])
      && TickStep(answered).request == Some(map[q := Choice(v)])
  {
  }

  /** A click whose request is still in flight when the countdown expires: as
      written, the timer sends a second request beside it; the intended step
      sends none. */
  lemma StaleAutoSubmitDuplicates(d: int)
    ensures var loaded := Load(Initial, d);
      var clicked := Step(loaded, Click);
      var expiring := clicked.post.(timeLeft := 1);
      && clicked.request.Some? && expiring.submitting
      && StaleTickStep(expiring, loaded).request.Some?
      && TickStep(expiring).request.None?
  {
  }
}
