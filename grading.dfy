/**
 * Grading of an attempt: counting answered and correct questions, the
 * per-question review, and the rounded percentage both pages display.
 */
module Grading {
  import opened Wrappers
  import opened Questions

  /** The selection read back for question i: the parsed value of the checked
      radio of group i, or None when the group has none checked (a group the
      page does not hold has none checked either). */
  function Chosen(answers: seq<Option<int>>, i: nat): Option<int> {
    if i < |answers| then answers[i] else None
  }

  /** A question is answered correctly when its selection equals its correctIndex. */
  predicate IsCorrect(q: Question, chosen: Option<int>) {
    chosen == Some(q.correctIndex)
  }

  /** How many of the first n questions have a selection. */
  function AnsweredUpTo(answers: seq<Option<int>>, n: nat): (r: nat)
    ensures r <= n
  {
    if n == 0 then 0
    else AnsweredUpTo(answers, n - 1) + (if Chosen(answers, n - 1).Some? then 1 else 0)
  }

  /** How many of the first n questions are answered correctly. */
  function CorrectUpTo(qs: seq<Question>, answers: seq<Option<int>>, n: nat): (r: nat)
    requires n <= |qs|
    ensures r <= AnsweredUpTo(answers, n)
  {
    if n == 0 then 0
    else CorrectUpTo(qs, answers, n - 1) + (if IsCorrect(qs[n - 1], Chosen(answers, n - 1)) then 1 else 0)
  }

  /** The answered count is the number of questions that have a selection. */
  lemma {:induction false} AnsweredIsCount(answers: seq<Option<int>>, n: nat)
    ensures AnsweredUpTo(answers, n) == |set i | 0 <= i < n && Chosen(answers, i).Some?|
  {
    if n > 0 {
      AnsweredIsCount(answers, n - 1);
      var before := set i | 0 <= i < n - 1 && Chosen(answers, i).Some?;
      if Chosen(answers, n - 1).Some? {
        assert (set i | 0 <= i < n && Chosen(answers, i).Some?) == before + {n - 1};
      } else {
        assert (set i | 0 <= i < n && Chosen(answers, i).Some?) == before;
      }
    }
  }

  /** The correct count is the number of questions whose selection equals
      their correctIndex. */
  lemma {:induction false} CorrectIsCount(qs: seq<Question>, answers: seq<Option<int>>, n: nat)
    requires n <= |qs|
    ensures CorrectUpTo(qs, answers, n) == |set i | 0 <= i < n && IsCorrect(qs[i], Chosen(answers, i))|
  {
    if n > 0 {
      CorrectIsCount(qs, answers, n - 1);
      var before := set i | 0 <= i < n - 1 && IsCorrect(qs[i], Chosen(answers, i));
      if IsCorrect(qs[n - 1], Chosen(answers, n - 1)) {
        assert (set i | 0 <= i < n && IsCorrect(qs[i], Chosen(answers, i))) == before + {n - 1};
      } else {
        assert (set i | 0 <= i < n && IsCorrect(qs[i], Chosen(answers, i))) == before;
      }
    }
  }

  /** Every question is counted as answered exactly when each has a selection. */
  lemma {:induction false} AllAnsweredIff(answers: seq<Option<int>>, n: nat)
    ensures AnsweredUpTo(answers, n) == n <==> forall i :: 0 <= i < n ==> Chosen(answers, i).Some?
  {
    if n > 0 {
      AllAnsweredIff(answers, n - 1);
    }
  }

  /** Full marks exactly when every question carries its correct selection. */
  lemma {:induction false} AllCorrectIff(qs: seq<Question>, answers: seq<Option<int>>, n: nat)
    requires n <= |qs|
    ensures CorrectUpTo(qs, answers, n) == n <==> forall i :: 0 <= i < n ==> IsCorrect(qs[i], Chosen(answers, i))
  {
    if n > 0 {
      AllCorrectIff(qs, answers, n - 1);
      assert CorrectUpTo(qs, answers, n - 1) <= n - 1;
    }
  }

  // ---- percentages ------------------------------------------------------

  /** Math.round(part / whole * 100) in exact arithmetic: the integer nearest
      to 100 * part / whole, a half rounding up. */
  function RoundedPercent(part: nat, whole: nat): (r: nat)
    requires whole > 0
    ensures 2 * whole * r <= 200 * part + whole < 2 * whole * (r + 1)
    ensures part <= whole ==> r <= 100
  {
    var r := (200 * part + whole) / (2 * whole);
    DivBounds(200 * part + whole, 2 * whole);
    if part <= whole then CapAt100(part, whole, r); r else r
  }

  lemma DivBounds(a: nat, b: nat)
    requires b > 0
    ensures b * (a / b) <= a < b * (a / b + 1)
  {
  }

  lemma CapAt100(part: nat, whole: nat, r: nat)
    requires 0 < whole && part <= whole && 2 * whole * r <= 200 * part + whole
    ensures r <= 100
  {
  }

  /** A larger part of the same whole never gets a smaller percentage. */
  lemma RoundedPercentMonotone(part1: nat, part2: nat, whole: nat)
    requires whole > 0 && part1 <= part2
    ensures RoundedPercent(part1, whole) <= RoundedPercent(part2, whole)
  {
    var r1, r2 := RoundedPercent(part1, whole), RoundedPercent(part2, whole);
    assert 2 * whole * r1 < 2 * whole * (r2 + 1);
    ScaledLess(2 * whole, r1, r2 + 1);
  }

  lemma ScaledLess(c: nat, x: nat, y: nat)
    requires c > 0 && c * x < c * y
    ensures x < y
  {
    assert c * (y - x) == c * y - c * x > 0;
  }

  /** The percentage of a finished attempt; None stands for NaN, which
      0 / 0 * 100 gives when there are no questions. */
  function PercentOf(part: nat, whole: nat): (r: Option<nat>)
    requires whole > 0 ==> part <= whole
    ensures r.None? <==> whole == 0
    ensures r.Some? ==> r.value <= 100 && 2 * whole * r.value <= 200 * part + whole < 2 * whole * (r.value + 1)
  {
    if whole == 0 then None else Some(RoundedPercent(part, whole))
  }

  // ---- the review ----------------------------------------------------

  /** What the review shows in "Your answer": the "(no answer)" marker or the
      letter of the chosen index (the lettering itself is not modelled). */
  datatype AnswerLabel = NoAnswer | LetterOf(index: int)

  datatype ReviewItem = ReviewItem(
    prompt: string,
    yours: AnswerLabel,
    yourText: string,
    correctIndex: int,
    correctText: string,
    wasCorrect: bool)

  datatype ScoreReport = ScoreReport(
    total: nat,
    answered: nat,
    correct: nat,
    percent: Option<nat>,
    items: seq<ReviewItem>)

  /** `options[i] ? options[i] : ""`: the option text, or "" where the index
      reads nothing (out of range, null or empty). */
  function OptionText(options: seq<Option<string>>, i: int): (r: string)
    ensures r == "" || (0 <= i < |options| && options[i] == Some(r))
  {
    if 0 <= i < |options| && options[i].Some? then options[i].value else ""
  }

  /** An option that gets a radio button shows its own, non-blank text in
      the review. */
  lemma ShownOptionText(options: seq<Option<string>>, i: int)
    requires 0 <= i < |options| && IsShown(options[i])
    ensures OptionText(options, i) == options[i].value && OptionText(options, i) != ""
  {
  }

  /** The review entry of one question. */
  function ReviewOf(q: Question, chosen: Option<int>): (r: ReviewItem)
    ensures r.wasCorrect <==> IsCorrect(q, chosen)
    ensures r.yours == NoAnswer <==> chosen.None?
    ensures chosen.None? ==> r.yourText == "" && !r.wasCorrect
    ensures r.correctIndex == q.correctIndex && r.prompt == q.prompt
  {
    match chosen
    case None =>
      ReviewItem(q.prompt, NoAnswer, "", q.correctIndex, OptionText(q.options, q.correctIndex), false)
    case Some(k) =>
      ReviewItem(q.prompt, LetterOf(k), OptionText(q.options, k), q.correctIndex,
                 OptionText(q.options, q.correctIndex), k == q.correctIndex)
  }

  /** The report of an attempt: the counts, the percentage (None when there
      are no questions) and one review entry per question. */
  function Grade(qs: seq<Question>, answers: seq<Option<int>>): (r: ScoreReport)
    ensures r.total == |qs| && |r.items| == |qs|
    ensures r.correct <= r.answered <= r.total
    ensures r.percent.Some? <==> r.total > 0
    ensures r.percent.Some? ==> r.percent.value <= 100
    ensures forall i :: 0 <= i < |qs| ==> r.items[i].wasCorrect == IsCorrect(qs[i], Chosen(answers, i))
  {
    var correct := CorrectUpTo(qs, answers, |qs|);
    ScoreReport(|qs|, AnsweredUpTo(answers, |qs|), correct, PercentOf(correct, |qs|),
                seq(|qs|, i requires 0 <= i < |qs| => ReviewOf(qs[i], Chosen(answers, i))))
  }

  /** Selections come from rendered radios only, so a question whose key
      points at an option that is not shown (blank, null or out of range)
      can never be answered correctly. */
  lemma HiddenKeyNeverCorrect(q: Question, chosen: Option<int>)
    requires chosen.Some? ==> chosen.value in SelectableOptions(q.options)
    requires !(0 <= q.correctIndex < |q.options| && IsShown(q.options[q.correctIndex]))
    ensures !IsCorrect(q, chosen)
  {
  }

  /** The grading loop of the timed page: one pass over the exam questions
      counting answered and correct selections and building the review. */
  method GradeAnswers(qs: seq<Question>, answers: seq<Option<int>>) returns (r: ScoreReport)
    ensures r == Grade(qs, answers)
  {
    var correct, answered := 0, 0;
    var items: seq<ReviewItem> := [];
    var i := 0;
    while i < |qs|
      invariant 0 <= i <= |qs|
      invariant answered == AnsweredUpTo(answers, i)
      invariant correct == CorrectUpTo(qs, answers, i)
      invariant |items| == i
      invariant forall k :: 0 <= k < i ==> items[k] == ReviewOf(qs[k], Chosen(answers, k))
    {
      var q := qs[i];
      var selected := if i < |answers| then answers[i] else None;
      var wasCorrect := false;
      if selected.Some? {
        answered := answered + 1;
        wasCorrect := selected.value == q.correctIndex;
        if wasCorrect {
          correct := correct + 1;
        }
      }
      assert selected == Chosen(answers, i);
      items := items + [ReviewOf(q, selected)];
      i := i + 1;
    }
    r := ScoreReport(|qs|, answered, correct, PercentOf(correct, |qs|), items);
  }

  /** Four questions all keyed to option 1, the first two answered with 1 and
      the rest left blank: the report says 4 questions, 2 answered, 2 correct
      and 50 percent. */
  lemma {:induction false} HalfAnsweredScenario(qs: seq<Question>)
    requires |qs| == 4 && forall i :: 0 <= i < 4 ==> qs[i].correctIndex == 1
    ensures var r := Grade(qs, [Some(1), Some(1), None, None]);
      r.total == 4 && r.answered == 2 && r.correct == 2 && r.percent == Some(50)
  {
    var answers := [Some(1), Some(1), None, None];
    assert AnsweredUpTo(answers, 2) == 2;
    assert CorrectUpTo(qs, answers, 2) == 2;
    assert AnsweredUpTo(answers, 4) == 2 && CorrectUpTo(qs, answers, 4) == 2;
    assert RoundedPercent(2, 4) == 50;
  }
}
