/**
 * The timed exam page (app.js): a session with module-level flags, a
 * one-second countdown interval and a finish step that the Finish button
 * and the expiring countdown may both reach.
 *
 * setInterval / clearInterval become interval ids: liveIntervals holds the
 * intervals the host would still call back, and each callback is a call of
 * Tick. The page's DOM reads are inputs: the fetched bank, the shuffle order
 * of each sort, the contents of the name field and the checked radios.
 */
module TimedExam {
  import opened Wrappers
  import opened Text
  import opened Questions
  import opened Grading
  import opened TimerText

  const ExamSize := 25
  const ExamDurationMin := 20
  const ExamDurationSec := ExamDurationMin * 60

  /** The status line under the buttons. */
  datatype Status = Empty | LoadError | NotLoaded | ExamStarted | TimeUp | ExamFinished

  function StatusText(st: Status): string {
    match st
    case Empty => ""
    case LoadError => "Error loading questions. Check that questions.json is in the same folder as index.html."
    case NotLoaded => "Questions not loaded yet."
    case ExamStarted => "Exam started. You have 25 questions."
    case TimeUp => "Time is up. Exam submitted automatically. Review your answers below."
    case ExamFinished => "Exam finished. Review your answers below."
  }

  /** What is handed to the results sheet (the elapsed seconds are not modelled). */
  datatype Payload = Payload(studentName: string, score: nat, total: nat, percent: Option<nat>, answered: nat)

  function PayloadOf(studentName: string, r: ScoreReport): Payload {
    Payload(studentName, r.correct, r.total, r.percent, r.answered)
  }

  /** "Answered a / t" and the bar width in percent. */
  datatype ProgressView = ProgressView(answered: nat, total: nat, percent: nat)

  /** updateProgress: with no exam questions "Answered 0 / 25" and an empty
      bar; otherwise the number of questions with a selection out of the
      number of exam questions, and that fraction as a rounded percentage. */
  method Progress(examQuestions: seq<Question>, answers: seq<Option<int>>) returns (p: ProgressView)
    ensures |examQuestions| == 0 ==> p == ProgressView(0, ExamSize, 0)
    ensures |examQuestions| > 0 ==>
      p.total == |examQuestions| && p.answered == AnsweredUpTo(answers, |examQuestions|) &&
      p.percent == RoundedPercent(p.answered, p.total)
    ensures p.answered <= p.total && p.percent <= 100
  {
    if |examQuestions| == 0 {
      return ProgressView(0, ExamSize, 0);
    }
    var answered := 0;
    var i := 0;
    while i < |examQuestions|
      invariant 0 <= i <= |examQuestions|
      invariant answered == AnsweredUpTo(answers, i)
    {
      var selected := if i < |answers| then answers[i] else None;
      if selected.Some? {
        answered := answered + 1;
      }
      i := i + 1;
    }
    var total := |examQuestions|;
    var percent := if total > 0 then RoundedPercent(answered, total) else 0;
    p := ProgressView(answered, total, percent);
  }

  /** Every field of a session except the status line. */
  datatype SessionState = SessionState(
    allQuestions: seq<Question>,
    examQuestions: seq<Question>,
    examStarted: bool,
    examFinished: bool,
    timerInterval: Option<nat>,
    liveIntervals: set<nat>,
    nextIntervalId: nat,
    remainingSeconds: int,
    startEnabled: bool,
    finishEnabled: bool,
    result: Option<ScoreReport>,
    sent: seq<Payload>)

  class ExamSession {
    var allQuestions: seq<Question>
    var examQuestions: seq<Question>
    var examStarted: bool
    var examFinished: bool
    var timerInterval: Option<nat>
    var liveIntervals: set<nat>
    var nextIntervalId: nat
    var remainingSeconds: int
    var startEnabled: bool
    var finishEnabled: bool
    var status: Status
    /** The score box and answer review, None while the result area is empty. */
    var result: Option<ScoreReport>
    /** Every payload handed to the results sheet, oldest first. */
    var sent: seq<Payload>

    ghost function State(): SessionState
      reads this
    {
      SessionState(allQuestions, examQuestions, examStarted, examFinished, timerInterval,
                   liveIntervals, nextIntervalId, remainingSeconds, startEnabled,
                   finishEnabled, result, sent)
    }

    /** No interval runs but the one timerInterval refers to. */
    ghost predicate TimerTracked()
      reads this
    {
      liveIntervals == (if timerInterval.Some? then {timerInterval.value} else {}) &&
      (timerInterval.Some? ==> timerInterval.value < nextIntervalId)
    }

    /** The session invariant, except that an exam may run with its interval
        already cleared and no time left: the moment inside tickTimer between
        stopTimer and handleFinish. */
    ghost predicate Settled()
      reads this
    {
      TimerTracked() &&
      (timerInterval.Some? ==> examStarted) &&
      (examStarted ==> !examFinished) &&
      (examFinished <==> result.Some?) &&
      0 <= remainingSeconds <= ExamDurationSec &&
      (examStarted ==> 0 < |examQuestions| <= ExamSize && multiset(examQuestions) <= multiset(allQuestions)) &&
      (finishEnabled <==> examStarted) &&
      (startEnabled ==> !examStarted)
    }

    /** The session invariant: an exam runs exactly while its countdown
        interval is live, and the buttons match the state. */
    ghost predicate Valid()
      reads this
    {
      Settled() && (examStarted ==> timerInterval.Some? && 0 < remainingSeconds)
    }

    /** Page load followed by loadQuestions; fetched is what the request
        delivered, None when it failed or did not parse. */
    constructor Init(fetched: Option<seq<Question>>)
      ensures Valid()
      ensures !examStarted && !examFinished && !finishEnabled && remainingSeconds == 0
      ensures examQuestions == [] && liveIntervals == {} && result == None && sent == []
      ensures fetched.Some? && fetched.value != [] ==>
        allQuestions == fetched.value && startEnabled && status == Empty
      ensures !(fetched.Some? && fetched.value != []) ==>
        allQuestions == [] && !startEnabled && status == LoadError
    {
      allQuestions, examQuestions := [], [];
      examStarted, examFinished := false, false;
      timerInterval, liveIntervals, nextIntervalId := None, {}, 0;
      remainingSeconds := 0;
      startEnabled, finishEnabled := false, false;
      result, sent := None, [];
      if fetched.Some? && fetched.value != [] {
        allQuestions := fetched.value;
        status := Empty;
        startEnabled := true;
      } else {
        status := LoadError;
      }
    }

    /** stopTimer: clears the interval timerInterval refers to, if any. */
    method StopTimer()
      modifies this`timerInterval, this`liveIntervals
      ensures timerInterval == None
      ensures old(timerInterval) == None ==> liveIntervals == old(liveIntervals)
      ensures old(timerInterval).Some? ==> liveIntervals == old(liveIntervals) - {old(timerInterval).value}
    {
      if timerInterval.Some? {
        liveIntervals := liveIntervals - {timerInterval.value};
        timerInterval := None;
      }
    }

    /** startTimer: clears any running interval first, then starts a new one,
        so exactly one interval runs afterwards. */
    method StartTimer()
      requires TimerTracked()
      modifies this`timerInterval, this`liveIntervals, this`nextIntervalId
      ensures TimerTracked() && timerInterval.Some? && liveIntervals == {timerInterval.value}
      ensures old(timerInterval).Some? ==> old(timerInterval).value !in liveIntervals
    {
      StopTimer();
      timerInterval := Some(nextIntervalId);
      liveIntervals := liveIntervals + {nextIntervalId};
      nextIntervalId := nextIntervalId + 1;
    }

    /** handleStart, with perm the order the shuffle produced. Without a
        bank only the status changes; otherwise a fresh exam starts, whether
        or not one was running. */
    method Start(perm: seq<nat>)
      requires Valid() && IsPermutation(perm, |allQuestions|)
      modifies this
      ensures Valid()
      ensures old(allQuestions) == [] ==> State() == old(State()) && status == NotLoaded
      ensures old(allQuestions) != [] ==> Started(old(State()), perm)
    {
      if |allQuestions| == 0 {
        status := NotLoaded;
        return;
      }
      Begin(perm);
    }

    /** The state right after handleStart drew an exam from a non-empty bank:
        the exam questions are the sample, the exam runs with 1200 seconds
        left, exactly one interval runs and any earlier one was cleared, the
        result area is empty and nothing was sent. */
    ghost predicate Started(before: SessionState, perm: seq<nat>)
      reads this
      requires IsPermutation(perm, |before.allQuestions|)
    {
      allQuestions == before.allQuestions &&
      examQuestions == Sample(allQuestions, perm, ExamSize) &&
      examStarted && !examFinished && remainingSeconds == ExamDurationSec &&
      timerInterval.Some? && liveIntervals == {timerInterval.value} &&
      (before.timerInterval.Some? ==> before.timerInterval.value !in liveIntervals) &&
      !startEnabled && finishEnabled && result == None && sent == before.sent &&
      status == ExamStarted
    }

    /** handleStart past its guard: draw the exam, then arm the countdown. */
    method Begin(perm: seq<nat>)
      requires Valid() && allQuestions != [] && IsPermutation(perm, |allQuestions|)
      modifies this
      ensures Valid() && Started(old(State()), perm)
    {
      Draw(perm);
      StartTimer();
    }

    /** The assignments of handleStart before the countdown is armed. */
    method Draw(perm: seq<nat>)
      requires IsPermutation(perm, |allQuestions|)
      modifies this`examQuestions, this`examStarted, this`examFinished, this`startEnabled,
               this`finishEnabled, this`result, this`status, this`remainingSeconds
      ensures examQuestions == Sample(allQuestions, perm, ExamSize)
      ensures examStarted && !examFinished && !startEnabled && finishEnabled
      ensures result == None && status == ExamStarted && remainingSeconds == ExamDurationSec
    {
      examQuestions := Sample(allQuestions, perm, ExamSize);
      examStarted := true;
      examFinished := false;
      startEnabled, finishEnabled := false, true;
      result := None;
      status := ExamStarted;
      remainingSeconds := ExamDurationSec;
    }

    /** handleFinish. It acts only while an exam runs and has not finished;
        any other call changes nothing. */
    method Finish(autoSubmit: bool, nameField: string, answers: seq<Option<int>>)
      requires Settled()
      modifies this
      ensures !old(examStarted && !examFinished) ==> State() == old(State()) && status == old(status)
      ensures old(examStarted && !examFinished) ==>
        Valid() && Submitted(old(State()), autoSubmit, Trim(nameField), Grade(examQuestions, answers))
      ensures old(examStarted && !examFinished) ==> result.value.percent.Some?
    {
      if !examStarted || examFinished {
        return;
      }
      Close();
      var report := GradeAnswers(examQuestions, answers);
      var studentName := Trim(nameField);
      Publish(autoSubmit, studentName, report);
    }

    /** What a completed submission leaves behind, given the state before it:
        the exam has ended, no interval runs, the report is shown, exactly one
        payload carrying it was added, Start is enabled again and the status
        names the trigger. */
    ghost predicate Submitted(before: SessionState, autoSubmit: bool, studentName: string, report: ScoreReport)
      reads this
    {
      !examStarted && examFinished &&
      timerInterval == None && liveIntervals == {} && nextIntervalId == before.nextIntervalId &&
      allQuestions == before.allQuestions && examQuestions == before.examQuestions &&
      remainingSeconds == before.remainingSeconds &&
      result == Some(report) &&
      sent == before.sent + [PayloadOf(studentName, report)] &&
      startEnabled && !finishEnabled &&
      status == (if autoSubmit then TimeUp else ExamFinished)
    }

    /** The first effects of handleFinish once its guard has passed: the exam
        is marked finished and no longer started, and the countdown is cleared
        before anything is graded. */
    method Close()
      requires Settled() && examStarted && !examFinished
      modifies this
      ensures State() == old(State()).(examStarted := false, examFinished := true,
                                       timerInterval := None, liveIntervals := {})
      ensures status == old(status)
    {
      examFinished := true;
      examStarted := false;
      StopTimer();
    }

    /** The last effects of handleFinish: show the report, hand one payload
        with the trimmed name to the results sheet, swap the buttons and set
        the status line. */
    method Publish(autoSubmit: bool, studentName: string, report: ScoreReport)
      modifies this`result, this`sent, this`startEnabled, this`finishEnabled, this`status
      ensures result == Some(report) && sent == old(sent) + [PayloadOf(studentName, report)]
      ensures startEnabled && !finishEnabled
      ensures status == (if autoSubmit then TimeUp else ExamFinished)
    {
      result := Some(report);
      sent := sent + [PayloadOf(studentName, report)];
      startEnabled, finishEnabled := true, false;
      status := if autoSubmit then TimeUp else ExamFinished;
    }

    /** tickTimer, one callback of the live interval. Outside an exam it only
        clears the interval; during one it counts down a second, and when
        the counter reaches 0 it clears the interval and submits once. */
    method Tick(nameField: string, answers: seq<Option<int>>)
      requires Valid()
      modifies this
      ensures Valid()
      ensures !old(examStarted) ==> State() == old(State()) && status == old(status)
      ensures old(examStarted) && old(remainingSeconds) > 1 ==>
        State() == old(State()).(remainingSeconds := old(remainingSeconds) - 1) &&
        status == old(status)
      ensures old(examStarted) && old(remainingSeconds) == 1 ==>
        Submitted(old(State()).(remainingSeconds := 0), true, Trim(nameField), Grade(examQuestions, answers))
    {
      if !examStarted {
        StopTimer();
        return;
      }
      remainingSeconds := remainingSeconds - 1;
      if remainingSeconds <= 0 {
        remainingSeconds := 0;
        StopTimer();
        if examStarted && !examFinished {
          Finish(true, nameField, answers);
        }
      }
    }
  }

  /** A fresh exam left alone is submitted by the countdown on exactly its
      1200th tick, once. */
  method RunOut(s: ExamSession, nameField: string, answers: seq<Option<int>>) returns (ticks: nat)
    requires s.Valid() && s.examStarted && s.remainingSeconds == ExamDurationSec
    modifies s
    ensures s.Valid() && ticks == ExamDurationSec
    ensures s.examFinished && !s.examStarted && s.liveIntervals == {}
    ensures s.sent == old(s.sent) + [PayloadOf(Trim(nameField), Grade(old(s.examQuestions), answers))]
    ensures s.status == TimeUp
  {
    ticks := 0;
    while s.examStarted
      invariant s.Valid() && s.examQuestions == old(s.examQuestions)
      invariant s.examStarted ==> s.remainingSeconds == ExamDurationSec - ticks && s.sent == old(s.sent)
      invariant !s.examStarted ==>
                  ticks == ExamDurationSec && s.examFinished && s.status == TimeUp &&
                  s.sent == old(s.sent) + [PayloadOf(Trim(nameField), Grade(old(s.examQuestions), answers))]
      decreases if s.examStarted then s.remainingSeconds else 0
    {
      s.Tick(nameField, answers);
      ticks := ticks + 1;
    }
  }

  /** Finish clicked, then a tick that was already due: one grading, one
      payload, and the manual message stands. */
  method ManualThenTick(s: ExamSession, nameField: string, answers: seq<Option<int>>)
    requires s.Valid() && s.examStarted
    modifies s
    ensures s.Valid() && s.examFinished && |s.sent| == |old(s.sent)| + 1
    ensures s.status == ExamFinished
  {
    s.Finish(false, nameField, answers);
    s.Tick(nameField, answers);
  }

  /** The last tick submits, then Finish is clicked: still one grading, one
      payload, and the time-up message stands. */
  method TimeoutThenManual(s: ExamSession, nameField: string, answers: seq<Option<int>>)
    requires s.Valid() && s.examStarted && s.remainingSeconds == 1
    modifies s
    ensures s.Valid() && s.examFinished && |s.sent| == |old(s.sent)| + 1
    ensures s.status == TimeUp
  {
    s.Tick(nameField, answers);
    s.Finish(false, nameField, answers);
  }

  /** A Finish click with time to spare: the countdown text the page shows
      afterwards is the one it showed while the exam ran, not the placeholder,
      because the counter keeps its value and only examStarted drops. */
  method ManualFinishKeepsCountdown(s: ExamSession, nameField: string, answers: seq<Option<int>>)
    requires s.Valid() && s.examStarted
    modifies s
    ensures s.Valid() && s.examFinished && s.remainingSeconds == old(s.remainingSeconds)
    ensures TimerDisplay(s.examStarted, s.remainingSeconds) == TimerDisplay(true, old(s.remainingSeconds))
    ensures TimerDisplay(s.examStarted, s.remainingSeconds) != Placeholder
  {
    s.Finish(false, nameField, answers);
    PlaceholderIff(s.examStarted, s.remainingSeconds);
  }

  /** The last tick of a running exam: after the automatic submission the
      counter is 0 and no exam runs, so the page shows the placeholder. */
  method TimeoutShowsPlaceholder(s: ExamSession, nameField: string, answers: seq<Option<int>>)
    requires s.Valid() && s.examStarted && s.remainingSeconds == 1
    modifies s
    ensures s.Valid() && s.examFinished && s.status == TimeUp
    ensures TimerDisplay(s.examStarted, s.remainingSeconds) == Placeholder
  {
    s.Tick(nameField, answers);
  }
}
