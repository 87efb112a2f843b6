# Timed quiz attempt — a Dafny model

This project models the timed-attempt controller of a student quiz client: the
`QuizAttempt` view in `src/QuizAttempt.js`. That view shows a quiz's questions
and collects the student's answers. It counts down the quiz's duration once a
second and submits the answers to the backend, either when the student clicks
the submit button or automatically when the countdown runs out. Two flags guard
the submission. `submitting` is the lock for a request in flight. `submitted`
records a committed attempt. Together they are meant to give at most one
request in flight and at most one successful submission. The `Attempt` model
proves both for the intended reading, where every submit sees the current
state. The code as written breaks the first through the timer's stale closure
(see Findings).

Modules:

- `Wrappers`: the `Option` datatype.
- `Answers`: the answer sheet (question id to answer), `handleChange`, the
  multi-select toggle, and the checked state of radio buttons and checkboxes.
- `TimeFormat`: the `MM:SS` countdown display, `formatTime`, with JavaScript's
  `String`, `padStart` and truncating `%` written out. An independent reader,
  `ParseTime`, states the round trip.
- `Attempt`: the attempt as a pure state machine, used as the specification.
  The state holds the state hooks and an "interval running" flag. The events
  are: the quiz loads, an answer is edited, a checkbox is toggled, the button
  is clicked, a timer tick, and the backend replies. The asynchronous
  `handleSubmit` is split at its `await`. `HandleSubmit` covers the guard,
  the lock and the request. `Settle` covers the commit or failure and the
  `finally`.
- `AttemptController`: the class `QuizAttempt`, with one field per state hook
  and one method per event. Each method updates the fields in place. Each
  method's `ensures` ties the new state to the matching function of `Attempt`
  applied to the old state: `Step` for the events, `HandleSubmit` for the
  submit guard, and `Initial` for the constructor.
- `AttemptTraces`: properties of any sequence of events. At most one success
  is committed. Requests minus replies is 0 or 1. The countdown never goes
  below zero. With no user action, the automatic submission happens on tick
  max(60·d, 1), and nothing is sent after a success.
- `StaleClosure`: the timer's submit as the code is written (see Findings).

The backend's reply is an input: the `Response(outcome)` event, where the
outcome is a score or a failure. The request is an output: the answers a step
sends. Ticks and clicks are discrete events on one thread.

## Model

| member | source | states |
|---|---|---|
| `Answers.SetAnswer` | src/QuizAttempt.js:47-49 | the edited question maps to the new value; every other question keeps its answer; no other key appears |
| `Answers.IsChosen` | src/QuizAttempt.js:93 | a radio option shows checked when the stored answer is its text; its behaviour after an edit is stated by `ChooseChecksOnlyThat` |
| `Answers.Without` | src/QuizAttempt.js:114 | `filter` drops every occurrence of the text and keeps only elements of the input; order and counts are stated by `WithoutKeepsOrder` and `WithoutCounts` |
| `Answers.PreviousSelection` | src/QuizAttempt.js:109-111 | the stored list, or the empty list when unanswered; used and stated by `ToggleOptionChecked` |
| `Answers.ToggleSelection` | src/QuizAttempt.js:112-114 | the option text is in the new list exactly when the box was checked; the full rule is `ToggleSelectionSpec` |
| `Answers.ToggleOption` | src/QuizAttempt.js:108-116 | after the change the option shows checked exactly as asked, and the edited question is added to the keys; the full statement is `ToggleOptionChecked` |
| `Answers.IsChecked` | src/QuizAttempt.js:117-120 | a checkbox shows checked when its text is in the stored list; its behaviour after a change is stated by `ToggleOptionChecked` |
| `Answers.ChooseChecksOnlyThat` | src/QuizAttempt.js:92-93 | after choosing a radio option, that option shows checked and every other option of the question shows unchecked |
| `Answers.WithoutKeepsOrder` | src/QuizAttempt.js:114 | the filtered list is a subsequence of the previous list, so the remaining texts keep their order |
| `Answers.WithoutCounts` | src/QuizAttempt.js:114 | filtering removes every occurrence of the option text and keeps every other text with its multiplicity |
| `Answers.ToggleSelectionSpec` | src/QuizAttempt.js:112-114 | checking appends the text at the end of the previous list; unchecking removes all occurrences and keeps the others, with their counts, in order |
| `Answers.ToggleOptionChecked` | src/QuizAttempt.js:108-120 | after a checkbox change the option shows checked exactly as asked; the other options show as before (starting from the empty list when unanswered); other questions are unchanged |
| `Answers.SelectTwoDeselectOne` | src/QuizAttempt.js:108-116 | checking A, then C, then unchecking A leaves exactly the list [C] |
| `TimeFormat.Decimal` | src/QuizAttempt.js:42-43 | `String(n)` of a non-negative integer below 10^21 is all digits, one digit exactly for n < 10, and has no leading zero for n >= 10 |
| `TimeFormat.ValueOfDecimal` | src/QuizAttempt.js:42-43 | the digits `String(n)` writes denote n |
| `TimeFormat.Rem60` | src/QuizAttempt.js:43 | JavaScript's `secs % 60` lies strictly between -60 and 60, has the sign of `secs` and differs from it by a multiple of 60 |
| `TimeFormat.Field` | src/QuizAttempt.js:42-43 | `padStart(2, '0')` gives at least two characters; the digits are stated by `FieldDigits` |
| `TimeFormat.FormatTime` | src/QuizAttempt.js:41-45 | the display has at least five characters, with ':' right after the minutes field; the shape and the round trip are `FormatTimeShape` and `FormatTimeRoundTrip` |
| `TimeFormat.FieldDigits` | src/QuizAttempt.js:42-43 | a padded field is all digits, at least two, exactly two below 100, starts with '0' only when it has exactly two characters, and denotes its number |
| `TimeFormat.FormatTimeShape` | src/QuizAttempt.js:41-45 | for secs >= 0 the display is m:s with s exactly two digits denoting secs mod 60 (00..59) and m at least two digits, with no leading zero beyond two characters, denoting the whole minutes |
| `TimeFormat.FormatTimeRoundTrip` | src/QuizAttempt.js:41-45 | reading the display back as MM:SS gives the seconds it was made from |
| `TimeFormat.FormatTimeInjective` | src/QuizAttempt.js:41-45 | different non-negative second counts never show the same display |
| `Attempt.Load` | src/QuizAttempt.js:13-27 | loading shows the quiz and starts the countdown at `duration_minutes * 60`; the interval starts unless already submitted; the flags, score and answers are unchanged |
| `Attempt.HandleSubmit` | src/QuizAttempt.js:51-61 | a request goes out exactly when nothing is committed and nothing is in flight; it carries the current answers and takes the lock; otherwise the state is unchanged |
| `Attempt.Settle` | src/QuizAttempt.js:62-69 | a success commits, records the returned score, stops the interval and changes nothing else; a failure changes only the lock; either way the lock is released and the answers are kept |
| `Attempt.CountDown` | src/QuizAttempt.js:28-35 | the tick expires exactly when at most one second is left, and then yields exactly 0; otherwise the countdown goes down by exactly one |
| `Attempt.TickStep` | src/QuizAttempt.js:24-35 | no interval means no effect; above one second the tick only decrements; at one second or less it shows 0, clears the interval and invokes the submit guard once |
| `Attempt.ButtonEnabled` | src/QuizAttempt.js:130-131 | the submit button is rendered before the commit and enabled while nothing is in flight; used by `ClickStep` |
| `Attempt.ClickStep` | src/QuizAttempt.js:130-131 | a click sends a request exactly when the button is enabled, and otherwise changes nothing |
| `Attempt.Step` | src/QuizAttempt.js:13-133 | only clicks and ticks send requests, and only answer edits change the answers; the per-event properties are the lemmas below and the trace lemmas |
| `Attempt.ClickMatchesGuard` | src/QuizAttempt.js:130-133 | once the quiz is shown, the disabled button and the guard agree, so a click does exactly what `handleSubmit` does |
| `Attempt.StepConsistent` | src/QuizAttempt.js:6-11 | no event reaches a state that is committed and in flight at once, has a score without a commit, or runs the interval after a commit |
| `Attempt.SendOnlyWhenIdle` | src/QuizAttempt.js:52-61 | for any event, click or tick, a request is sent only when none is in flight and none succeeded; it leaves one in flight and carries the answers of that moment |
| `Attempt.SubmittedStays` | src/QuizAttempt.js:52 | once committed, every event sends nothing and keeps the commit and the score |
| `Attempt.FailureAllowsRetry` | src/QuizAttempt.js:65-68 | a failed reply keeps the answers and leaves the attempt uncommitted and unlocked; the next click sends the same answers again |
| `AttemptController.QuizAttempt.constructor` | src/QuizAttempt.js:6-11 | the hooks' initial values: no quiz, no answers, no flags, no score, countdown 0, no interval |
| `AttemptController.QuizAttempt.QuizLoaded` | src/QuizAttempt.js:16-17 | sets the countdown to `duration_minutes * 60` and starts the interval unless submitted; equals `Step` on `QuizLoaded` |
| `AttemptController.QuizAttempt.HandleChange` | src/QuizAttempt.js:47-49 | only the answer sheet changes, as `SetAnswer` |
| `AttemptController.QuizAttempt.ToggleCheckbox` | src/QuizAttempt.js:108-116 | the answer sheet becomes the toggled one, and the option shows checked exactly as asked |
| `AttemptController.QuizAttempt.HandleSubmit` | src/QuizAttempt.js:51-61 | returns the answers sent exactly when the guard passes, with the lock then taken; otherwise changes nothing |
| `AttemptController.QuizAttempt.ReceiveResponse` | src/QuizAttempt.js:62-69 | on success, commits with the score and stops the interval; on failure, leaves the commit, score and interval; always releases the lock and keeps the answers |
| `AttemptController.QuizAttempt.Click` | src/QuizAttempt.js:130-133 | sends only through an enabled button; equals `Step` on `Click` |
| `AttemptController.QuizAttempt.Tick` | src/QuizAttempt.js:27-35 | decrements above one second; otherwise shows 0, clears the interval and sends exactly when nothing is in flight; never leaves a negative countdown |
| `AttemptTraces.RunConsistent` | src/QuizAttempt.js:6-11 | every run from a consistent state stays consistent |
| `AttemptTraces.SubmittedIsFinal` | src/QuizAttempt.js:52 | after a success, no later event sends a request or commits again, and the score stays |
| `AttemptTraces.CommitsBound` | src/QuizAttempt.js:52-68 | from a consistent state a run commits at most once, and never once already committed |
| `AttemptTraces.AtMostOneSuccess` | src/QuizAttempt.js:52-68 | from the initial view, any interleaving of clicks, ticks and replies commits at most one successful submission |
| `AttemptTraces.RequestsBalanceReplies` | src/QuizAttempt.js:52-68 | requests sent plus the one in flight at the start equal replies taken up plus the one in flight at the end |
| `AttemptTraces.AtMostOneInFlight` | src/QuizAttempt.js:52-68 | from the initial view, requests without a reply number exactly one while the lock is held and zero otherwise |
| `AttemptTraces.TimeLeftNonNegative` | src/QuizAttempt.js:17-34 | without a negative duration, no sequence of events makes the countdown negative |
| `AttemptTraces.IdleTicks` | src/QuizAttempt.js:30 | once the interval is cleared, ticks change nothing and send nothing |
| `AttemptTraces.CountdownExpires` | src/QuizAttempt.js:27-35 | with only ticks, the countdown drops by one per tick; tick max(timeLeft, 1) sends the one request with the current answers; later ticks send nothing |
| `AttemptTraces.AutoSubmitOnExpiry` | src/QuizAttempt.js:17-35 | a d-minute quiz with no user action sends nothing before tick max(60·d, 1); from that tick on, exactly one request with the (empty) answers has been sent |
| `AttemptTraces.NoSubmitAfterSuccess` | src/QuizAttempt.js:63-64 | a successful reply records the score, and no later click or tick sends anything |
| `StaleClosure.StaleTickStep` | src/QuizAttempt.js:24-39 | as written, the expiring tick sends exactly when the captured flags were idle, and it sends the captured answers |
| `StaleClosure.StaleAutoSubmitDropsAnswers` | src/QuizAttempt.js:31 | as written, an answer given before expiry is missing from the automatic submission |
| `StaleClosure.StaleAutoSubmitDuplicates` | src/QuizAttempt.js:31 | as written, a timer expiring while a clicked request is in flight sends a second request |

## Left out

- The HTTP calls are not modelled. The question fetch (src/QuizAttempt.js:14) becomes the `QuizLoaded` event. The submission POST (src/QuizAttempt.js:57-61) becomes the request a step outputs, and its result becomes the `Response` event. Quiz and student identifiers are not carried.
- A failed question fetch is not modelled. It only logs, and the view stays at "Loading quiz..." with no events.
- The error-message extraction and the `alert` on a failed submission (src/QuizAttempt.js:66) are not modelled. They are user-interface output only.
- React's batching and scheduling of state updates is not modelled. Each event applies its updates at once, in program order, on one thread.
- The stale interval closure is modelled only in `StaleClosure`, as a finding. The rest of the model uses the intended reading.
- Real time, `setInterval` and `clearInterval` are not modelled. They become the `Tick` event and the `intervalActive` flag.
- Unmounting the view (navigating back, which clears the interval in the effect cleanup) is not modelled. The model covers one mounted attempt.
- `JSON.parse` and `JSON.stringify` of multi-select answers are not modelled. A multi-select answer is the list of texts itself (`Answers.Selection`).
- `Answers.PreviousSelection` treats a radio answer stored under a multi-select question as no prior selection. In the code, `JSON.parse` of such a string would throw. This cannot happen in the view, which renders one input kind per question.
- The answer inputs are never disabled in the code, even after a submission. Answer edits are therefore accepted in every state, as in the code. They do not change anything already sent.
- Numbers are modelled as exact, unbounded integers; JavaScript computes with doubles. Durations are assumed far below the two points where this differs, and the model does not capture either of them:
  - above 2^53 the tick's `prev - 1` (src/QuizAttempt.js:34) is no longer exact, and from 2^54 on it gives `prev` back, so the countdown stalls;
  - from 10^21 on, `String(n)` (src/QuizAttempt.js:42-43) writes exponent notation (`"1e+21"`).
- `TimeFormat.Decimal`: describes `String(n)` only below 10^21; above that, JavaScript's exponent notation is not modelled.
- `AttemptTraces.AutoSubmitOnExpiry`: holds for the exact-integer countdown. With doubles, a quiz of more than about 3·10^14 minutes would never count down to its automatic submission.
- `TimeFormat.FormatTime`: seconds are integers. JavaScript numbers are doubles, and fractional seconds do not arise from `duration_minutes * 60` with whole minutes.
- `Attempt.Load`: `duration_minutes` is an integer. A fractional duration from the backend is not modelled.
- Rendering, styling, the quiz list, the summary view, login and the view switching in App.js are not part of this model.

## Findings

| source | as written | input that shows it | evidently intended | confidence | as-written member | corrected member |
|---|---|---|---|---|---|---|
| src/QuizAttempt.js:24-39 | the interval effect depends only on `quiz` and `submitted`. Its callback calls the `handleSubmit` of the render right after loading, so on expiry it sends that render's `answers` | a zero-minute quiz (or any quiz) answered before the timer expires: the automatic submission sends the empty answer sheet | the expiring tick sends the current answers | not executed; high (standard closure semantics of React hooks) | `StaleClosure.StaleAutoSubmitDropsAnswers` | `Attempt.TickStep` |
| src/QuizAttempt.js:24-39 | for the same reason, the expiring tick checks the `submitting` flag of the render right after loading, which is false | the student clicks submit and the timer expires while that request is in flight: a second request is sent | the expiring tick sees the lock and sends nothing, as `Attempt.SendOnlyWhenIdle` states for every event | not executed; high (standard closure semantics of React hooks) | `StaleClosure.StaleAutoSubmitDuplicates` | `Attempt.TickStep` |
