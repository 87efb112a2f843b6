/**
 * Properties of whole runs of the attempt view: any interleaving of answer
 * edits, clicks, timer ticks and backend replies, starting from any state.
 */
module AttemptTraces {
  import opened Wrappers
  import opened Answers
  import opened Attempt

  /** The state after a sequence of events. */
  function Run(s: AttemptState, es: seq<Event>): AttemptState
    decreases |es|
  {
    if es == [] then s else Run(Step(s, es[0]).post, es[1..])
  }

  /** The requests sent to the backend during a sequence of events, in order. */
  function Requests(s: AttemptState, es: seq<Event>): seq<AnswerMap>
    decreases |es|
  {
    if es == [] then []
    else
      var t := Step(s, es[0]);
      (if t.request.Some? then [t.request.value] else []) + Requests(t.post, es[1..])
  }

  /** A reply is taken up when it arrives with a request in flight. */
  predicate TakesReply(s: AttemptState, e: Event) {
    e.Response? && s.submitting
  }

  /** The replies taken up during a sequence of events. */
  function Replies(s: AttemptState, es: seq<Event>): nat
    decreases |es|
  {
    if es == [] then 0
    else (if TakesReply(s, es[0]) then 1 else 0) + Replies(Step(s, es[0]).post, es[1..])
  }

  /** The successful replies taken up during a sequence of events. */
  function Commits(s: AttemptState, es: seq<Event>): nat
    decreases |es|
  {
    if es == [] then 0
    else (if TakesReply(s, es[0]) && es[0].outcome.Success? then 1 else 0)
         + Commits(Step(s, es[0]).post, es[1..])
  }

  function Ticks(n: nat): seq<Event> {
    if n == 0 then [] else [Tick] + Ticks(n - 1)
  }

  lemma {:induction false} RunConsistent(s: AttemptState, es: seq<Event>)
    requires Consistent(s)
    ensures Consistent(Run(s, es))
    decreases |es|
  {
    if es != [] {
      StepConsistent(s, es[0]);
      RunConsistent(Step(s, es[0]).post, es[1..]);
    }
  }

  /** After a successful submission nothing is ever sent again, no further
      success is taken up, and the attempt stays submitted with its score. */
  lemma {:induction false} SubmittedIsFinal(s: AttemptState, es: seq<Event>)
    requires Consistent(s) && s.submitted
    ensures Requests(s, es) == [] && Commits(s, es) == 0
    ensures Run(s, es).submitted && Run(s, es).score == s.score
    decreases |es|
  {
    if es != [] {
      SubmittedStays(s, es[0]);
      StepConsistent(s, es[0]);
      SubmittedIsFinal(Step(s, es[0]).post, es[1..]);
    }
  }

  lemma {:induction false} CommitsBound(s: AttemptState, es: seq<Event>)
    requires Consistent(s)
    ensures Commits(s, es) <= if s.submitted then 0 else 1
    decreases |es|
  {
    if es != [] {
      var t := Step(s, es[0]);
      StepConsistent(s, es[0]);
      if s.submitted {
        SubmittedIsFinal(s, es);
      } else if TakesReply(s, es[0]) && es[0].outcome.Success? {
        SubmittedIsFinal(t.post, es[1..]);
      } else {
        CommitsBound(t.post, es[1..]);
      }
    }
  }

  /** At most one successful submission, whatever the interleaving of clicks,
      ticks and replies. */
  lemma AtMostOneSuccess(es: seq<Event>)
    ensures Commits(Initial, es) <= 1
  {
    CommitsBound(Initial, es);
  }

  /** Requests sent and replies taken up balance, up to the one in flight. */
  lemma {:induction false} RequestsBalanceReplies(s: AttemptState, es: seq<Event>)
    ensures |Requests(s, es)| + (if s.submitting then 1 else 0)
            == Replies(s, es) + (if Run(s, es).submitting then 1 else 0)
    decreases |es|
  {
    if es != [] {
      SendOnlyWhenIdle(s, es[0]);
      RequestsBalanceReplies(Step(s, es[0]).post, es[1..]);
    }
  }

  /** From the initial view, the requests without a reply are exactly the one
      in flight, if any: there is never more than one. */
  lemma AtMostOneInFlight(es: seq<Event>)
    ensures |Requests(Initial, es)| - Replies(Initial, es)
            == if Run(Initial, es).submitting then 1 else 0
  {
    RequestsBalanceReplies(Initial, es);
  }

  /** No event makes a non-negative countdown negative, as long as no quiz
      arrives with a negative duration. */
  lemma {:induction false} TimeLeftNonNegative(s: AttemptState, es: seq<Event>)
    requires s.timeLeft >= 0
    requires forall i :: 0 <= i < |es| && es[i].QuizLoaded? ==> es[i].durationMinutes >= 0
    ensures Run(s, es).timeLeft >= 0
    decreases |es|
  {
    if es != [] {
      var rest := es[1..];
      assert forall i :: 0 <= i < |rest| && rest[i].QuizLoaded? ==> rest[i].durationMinutes >= 0 by {
        forall i | 0 <= i < |rest| ensures rest[i] == es[i + 1] { }
      }
      TimeLeftNonNegative(Step(s, es[0]).post, rest);
    }
  }

  /** Ticks after the interval is cleared do nothing. */
  lemma {:induction false} IdleTicks(s: AttemptState, n: nat)
    requires !s.intervalActive
    ensures Run(s, Ticks(n)) == s && Requests(s, Ticks(n)) == []
  {
    if n > 0 {
      assert Ticks(n)[0] == Tick && Ticks(n)[1..] == Ticks(n - 1);
      IdleTicks(s, n - 1);
    }
  }

  /** With the interval running and nothing in flight, and no other event,
      the countdown goes down one per tick; tick number max(timeLeft, 1) sends
      the one request, carrying the answers, and clears the interval; later
      ticks send nothing. */
  lemma {:induction false} CountdownExpires(s: AttemptState, n: nat)
    requires Consistent(s) && s.intervalActive && !s.submitting
    ensures var k := if s.timeLeft > 1 then s.timeLeft else 1;
      && (n < k ==> Run(s, Ticks(n)) == s.(timeLeft := s.timeLeft - n) && Requests(s, Ticks(n)) == [])
      && (n >= k ==> Run(s, Ticks(n)) == s.(timeLeft := 0, intervalActive := false, submitting := true)
                     && Requests(s, Ticks(n)) == [s.answers])
    decreases n
  {
    if n > 0 {
      assert Ticks(n)[0] == Tick && Ticks(n)[1..] == Ticks(n - 1);
      var t := TickStep(s);
      if s.timeLeft > 1 {
        CountdownExpires(t.post, n - 1);
      } else {
        IdleTicks(t.post, n - 1);
      }
    }
  }

  /** With no user action, a quiz of `d` minutes sends nothing during its
      first max(60 * d, 1) - 1 ticks; the tick after that sends exactly one
      request, carrying whatever answers exist (none here), and none follows. */
  lemma AutoSubmitOnExpiry(d: int, n: nat)
    ensures var k := if d * 60 > 1 then d * 60 else 1;
      var rs := Requests(Initial, [QuizLoaded(d)] + Ticks(n));
      && (n < k ==> rs == [])
      && (n >= k ==> rs == [map[]])
  {
    var es := [QuizLoaded(d)] + Ticks(n);
    assert es[0] == QuizLoaded(d) && es[1..] == Ticks(n);
    CountdownExpires(Load(Initial, d), n);
  }

  /** A successful submission at any point (a click at second 10, say) means no
      later tick or click sends anything. */
  lemma NoSubmitAfterSuccess(s: AttemptState, score: int, es: seq<Event>)
    requires Consistent(s) && s.submitting
    ensures var r := Step(s, Response(Success(score))).post;
      r.submitted && r.score == Some(score) && Requests(r, es) == []
  {
    var r := Step(s, Response(Success(score))).post;
    StepConsistent(s, Response(Success(score)));
    SubmittedIsFinal(r, es);
  }
}
