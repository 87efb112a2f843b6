/**
 * The answer sheet of one quiz attempt: a map from question id to the value
 * the student has entered, the single-key update every input goes through,
 * the multi-select toggle and the "is this input checked" tests.
 *
 * A multi-select answer travels as a JSON-encoded list of option texts; here
 * it is the list itself.
 */
module Answers {

  type QuestionId = int

  /** A radio (single-choice or true/false) answer holds the chosen option's
      text; a multi-select answer holds the list of checked option texts. */
  datatype Answer = Choice(text: string) | Selection(texts: seq<string>)

  type AnswerMap = map<QuestionId, Answer>

  /** `handleChange(questionId, value)`: question `q` now maps to `v`, and every
      other question keeps the answer it had (or stays unanswered). */
  function SetAnswer(answers: AnswerMap, q: QuestionId, v: Answer): (r: AnswerMap)
    ensures q in r && r[q] == v
    ensures r.Keys == answers.Keys + {q}
    ensures forall p :: p in answers && p != q ==> r[p] == answers[p]
  {
    answers[q := v]
  }

  /** A radio button shows as checked when the stored answer is its text. */
  predicate IsChosen(answers: AnswerMap, q: QuestionId, text: string) {
    q in answers && answers[q] == Choice(text)
  }

  /** The list a checkbox change starts from: the stored selection, or the
      empty list when the question has no answer yet. */
  function PreviousSelection(answers: AnswerMap, q: QuestionId): seq<string> {
    if q in answers && answers[q].Selection? then answers[q].texts else []
  }

  /** `prev.filter(v => v !== x)`. */
  function Without(xs: seq<string>, x: string): (r: seq<string>)
    ensures x !in r && |r| <= |xs|
    ensures forall y :: y in r ==> y in xs
  {
    if xs == [] then []
    else if xs[0] == x then Without(xs[1..], x)
    else [xs[0]] + Without(xs[1..], x)
  }

  /** `a` is `b` with some elements dropped and the rest kept in order. */
  predicate IsSubsequence(a: seq<string>, b: seq<string>)
    decreases |b|
  {
    if a == [] then true
    else if b == [] then false
    else (a[0] == b[0] && IsSubsequence(a[1..], b[1..])) || IsSubsequence(a, b[1..])
  }

  /** The new list for a checkbox: checking appends the option text, unchecking
      filters it out. */
  function ToggleSelection(prev: seq<string>, opt: string, checked: bool): (r: seq<string>)
    ensures opt in r <==> checked
  {
    if checked then prev + [opt] else Without(prev, opt)
  }

  /** The whole checkbox handler: read the previous list, toggle, store. */
  function ToggleOption(answers: AnswerMap, q: QuestionId, opt: string, checked: bool): (r: AnswerMap)
    ensures IsChecked(r, q, opt) == checked
    ensures r.Keys == answers.Keys + {q}
  {
    SetAnswer(answers, q, Selection(ToggleSelection(PreviousSelection(answers, q), opt, checked)))
  }

  /** A checkbox shows as checked when its text is in the stored list. */
  predicate IsChecked(answers: AnswerMap, q: QuestionId, opt: string) {
    q in answers && answers[q].Selection? && opt in answers[q].texts
  }

  /** Filtering keeps the other elements in their original order. */
  lemma {:induction false} WithoutKeepsOrder(xs: seq<string>, x: string)
    ensures IsSubsequence(Without(xs, x), xs)
  {
    if xs != [] {
      WithoutKeepsOrder(xs[1..], x);
      var w := Without(xs[1..], x);
      if xs[0] == x {
        SubsequenceOfTail(w, xs);
      } else {
        assert ([xs[0]] + w)[1..] == w;
      }
    }
  }

  /** Dropping the head of the longer sequence keeps a subsequence one. */
  lemma SubsequenceOfTail(a: seq<string>, b: seq<string>)
    requires b != [] && IsSubsequence(a, b[1..])
    ensures IsSubsequence(a, b)
  {
  }

  /** Filtering removes every occurrence of `x` and keeps every other element
      as many times as it occurred. */
  lemma {:induction false} WithoutCounts(xs: seq<string>, x: string)
    ensures multiset(Without(xs, x)) == multiset(xs)[x := 0]
  {
    if xs != [] {
      WithoutCounts(xs[1..], x);
      assert xs == [xs[0]] + xs[1..];
    }
  }

  /** The toggle rule: checking appends `opt` at the end of the previous list;
      unchecking removes every occurrence of `opt` and keeps every other text,
      with its multiplicity, in its original order. */
  lemma ToggleSelectionSpec(prev: seq<string>, opt: string, checked: bool)
    ensures var r := ToggleSelection(prev, opt, checked);
      (checked ==> |r| == |prev| + 1 && r[..|prev|] == prev && r[|prev|] == opt)
      && (!checked ==> opt !in r && IsSubsequence(r, prev)
                       && multiset(r) == multiset(prev)[opt := 0])
  {
    if !checked {
      var r := Without(prev, opt);
      WithoutKeepsOrder(prev, opt);
      WithoutCounts(prev, opt);
      assert multiset(r)[opt] == 0;
    }
  }

  /** After a checkbox change the clicked option shows exactly as the change
      asked, every other option of that question shows as it did before (or,
      for a question answered by a radio choice, as unchecked), and every
      other question keeps its answer. */
  lemma ToggleOptionChecked(answers: AnswerMap, q: QuestionId, opt: string, checked: bool)
    ensures var r := ToggleOption(answers, q, opt, checked);
      && IsChecked(r, q, opt) == checked
      && (forall o :: o != opt ==> (IsChecked(r, q, o) <==> o in PreviousSelection(answers, q)))
      && r.Keys == answers.Keys + {q}
      && (forall p :: p in answers && p != q ==> r[p] == answers[p])
  {
    var prev := PreviousSelection(answers, q);
    var r := ToggleOption(answers, q, opt, checked);
    ToggleSelectionSpec(prev, opt, checked);
    forall o | o != opt
      ensures IsChecked(r, q, o) <==> o in prev
    {
      if !checked {
        WithoutCounts(prev, opt);
        assert o in multiset(r[q].texts) <==> o in multiset(prev);
      } else {
        assert r[q].texts == prev + [opt];
      }
    }
  }

  /** Choosing a radio option checks that option and no other option of the
      same question. */
  lemma ChooseChecksOnlyThat(answers: AnswerMap, q: QuestionId, v: string, o: string)
    ensures IsChosen(SetAnswer(answers, q, Choice(v)), q, o) <==> o == v
  {
  }

  /** Checking A, then C, then unchecking A leaves exactly [C]. */
  lemma {:induction false} SelectTwoDeselectOne(answers: AnswerMap, q: QuestionId, a: string, c: string)
    requires q !in answers && a != c
    ensures ToggleOption(ToggleOption(ToggleOption(answers, q, a, true), q, c, true), q, a, false)[q]
            == Selection([c])
  {
    var m1 := ToggleOption(answers, q, a, true);
    assert m1[q] == Selection([a]);
    var m2 := ToggleOption(m1, q, c, true);
    assert m2[q] == Selection([a, c]);
    assert Without([a, c], a) == Without([c], a) == [c] + Without([], a);
  }
}
