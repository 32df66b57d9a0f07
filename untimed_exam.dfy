/**
 * The untimed exam page (script.js): the bank and the exam questions are
 * module-level values; the exam is drawn once after loading and Finish only
 * reads the checked answers and reports a score.
 */
module UntimedExam {
  import opened Wrappers
  import opened Questions
  import opened Grading

  const ExamSize := 50

  class ExamPage {
    var allQuestions: seq<Question>
    var examQuestions: seq<Question>
    /** The Finish button is enabled and wired up only after a successful load. */
    var finishEnabled: bool
    /** The quiz area shows "Error loading questions." */
    var loadFailed: bool

    /** Page load followed by loadQuestions; fetched is what the request
        delivered (None when it failed or did not parse), perm the order
        the shuffle of prepareExam produced. Unlike the timed page this
        one accepts an empty bank. */
    constructor Init(fetched: Option<seq<Question>>, perm: seq<nat>)
      requires fetched.Some? ==> IsPermutation(perm, |fetched.value|)
      ensures fetched.None? ==> allQuestions == [] && examQuestions == [] && !finishEnabled && loadFailed
      ensures fetched.Some? ==>
        allQuestions == fetched.value && examQuestions == Sample(fetched.value, perm, ExamSize) &&
        finishEnabled && !loadFailed
    {
      allQuestions, examQuestions := [], [];
      finishEnabled, loadFailed := false, false;
      new;
      if fetched.Some? {
        allQuestions := fetched.value;
        PrepareExam(perm);
        finishEnabled := true;
      } else {
        loadFailed := true;
      }
    }

    /** prepareExam: the first 50 questions of a shuffled copy of the bank
        (all of them when the bank is smaller); the bank itself is untouched. */
    method PrepareExam(perm: seq<nat>)
      requires IsPermutation(perm, |allQuestions|)
      modifies this`examQuestions
      ensures examQuestions == Sample(allQuestions, perm, ExamSize)
      ensures |examQuestions| == Min(ExamSize, |allQuestions|)
      ensures multiset(examQuestions) <= multiset(allQuestions)
    {
      examQuestions := Sample(allQuestions, perm, ExamSize);
    }

    /** handleFinish: counts the questions whose checked radio parses to
        their correctIndex, skipping unanswered ones, and rounds the share to
        a percentage. Nothing is guarded: with no exam questions the
        percentage is NaN (None). The page state is only read. */
    method Finish(answers: seq<Option<int>>) returns (correct: nat, scorePercent: Option<nat>)
      ensures correct == CorrectUpTo(examQuestions, answers, |examQuestions|)
      ensures correct <= |examQuestions|
      ensures scorePercent.None? <==> examQuestions == []
      ensures scorePercent.Some? ==> scorePercent.value == RoundedPercent(correct, |examQuestions|) <= 100
    {
      correct := 0;
      var i := 0;
      while i < |examQuestions|
        invariant 0 <= i <= |examQuestions|
        invariant correct == CorrectUpTo(examQuestions, answers, i)
      {
        var selected := if i < |answers| then answers[i] else None;
        if selected.Some? {
          if selected.value == examQuestions[i].correctIndex {
            correct := correct + 1;
          }
        }
        i := i + 1;
      }
      scorePercent := PercentOf(correct, |examQuestions|);
    }
  }

  /** Finishing twice with the same selections reports the same score. */
  method FinishTwice(e: ExamPage, answers: seq<Option<int>>)
    returns (first: (nat, Option<nat>), second: (nat, Option<nat>))
    ensures first == second
  {
    var c1, p1 := e.Finish(answers);
    var c2, p2 := e.Finish(answers);
    first, second := (c1, p1), (c2, p2);
  }
}
