# Exam session engine — a Dafny model

This project models the core of a browser multiple-choice exam. There are two variants:

- **`app.js`, the timed page.** It draws up to 25 questions from the loaded bank (all
  of them when the bank is smaller), runs a 20-minute countdown with a one-second
  interval, and grades the attempt exactly once.
  That happens either when the test-taker clicks Finish or when the countdown reaches
  zero. It then shows a score box and an answer review, and hands one payload to a
  results sheet.
- **`script.js`, the untimed page.** It draws up to 50 questions once the bank has
  loaded (all of them when the bank is smaller), and its Finish button counts correct
  answers and shows a rounded percentage.

The model has these modules:

- `Text`: JavaScript's `trim`, and `String(n)` for counters, with a digit parser to
  read the numbers back.
- `Questions`: bank entries, the option filter that decides which options get a radio
  button, and the shuffle-and-slice sampler. The shuffle's order is an input.
- `Grading`: answered and correct counts, the review entries, and exact round-half-up
  percentages. `GradeAnswers` is the grading loop.
- `TimerText`: the `mm:ss` countdown text.
- `TimedExam`: the class `ExamSession` holds the module-level state of the timed page.
  Its fields are the bank, the exam questions, `examStarted`, `examFinished`,
  `timerInterval`, `remainingSeconds`, the two buttons, the status line, the result
  area and the log of payloads sent. Each interval callback is a call of `Tick`.
  `setInterval` and `clearInterval` become interval ids: `liveIntervals` is the set of
  intervals the browser would still call back.
- `UntimedExam`: the class `ExamPage` holds the state of the untimed page: its two
  module-level arrays, the bank and the exam questions, and two flags, `finishEnabled`
  for the Finish button and `loadFailed` for the load error message.

The following are inputs rather than computed values:

- the checked radios, as `seq<Option<int>>`, one entry per question; `None` means none
  is checked, and a missing entry also counts as unanswered;
- the name field;
- what the fetch of `questions.json` delivered;
- the order each random sort produced, as a permutation of indices.

`Math.round(p / w * 100)` is computed in exact arithmetic as `(200·p + w) div (2·w)`.
This differs from the source's floating-point computation only in the case named under
`Grading.RoundedPercent` in "## Left out". When there are
no questions the quotient is `0 / 0`, which is NaN in the source; the model gives
`None`. Counters are never negative, so Dafny's `/` and `%` agree with
`Math.floor(r / 60)` and `r % 60`.

Some behaviours of the code are worth stating plainly, because the model follows them:

- Both pages sample by sorting a copy of the bank with a random comparator
  (`sort(() => Math.random() - 0.5)`) and taking a prefix; there is no Fisher–Yates shuffle.
- `handleStart` has no guard against starting while an exam runs. It simply starts a
  fresh exam, clearing the old interval first.
- The untimed page computes `correct / total * 100` without a guard, so an empty exam
  gives NaN rather than 0.
- Nothing validates a recorded answer. Answers can only be the radio values that were
  rendered.

## Model

| member | source | states |
|---|---|---|
| `Text.TrimStartSpec` | app.js:342 | trim's leading part: what it drops is exactly the leading white space, and the rest is a suffix of the input |
| `Text.TrimEndSpec` | app.js:342 | trim's trailing part: what it drops is exactly the trailing white space, and the rest is a prefix of the input |
| `Text.Trim` | app.js:342 | `String.prototype.trim`: the result is never longer than the input, and a non-empty result neither starts nor ends with white space |
| `Text.TrimIsInfix` | app.js:164 | the trimmed string is a contiguous piece of the input, with only white space on either side |
| `Text.TrimEmptyIffAllSpace` | script.js:57 | `s.trim() === ""` holds exactly when every character of `s` is white space |
| `Text.DecimalString` | app.js:237-238 | `String(n)` is a non-empty string of digits with no leading zero; it has one digit exactly when n < 10, and at most two when n < 100 |
| `Text.ParseDecimalString` | app.js:237-238 | reading `String(n)` back as a decimal gives n |
| `Text.ParseLeadingZero` | app.js:237 | the `"0" +` padding does not change the value that is read back |
| `Questions.ShownIffTrimmedNonEmpty` | app.js:164 | an option gets a radio button exactly when it is non-null and does not trim to "" |
| `Questions.ShownFrom` | app.js:163-177 | the radio values rendered from position `from` on: exactly the shown positions, in ascending order |
| `Questions.SelectableOptions` | script.js:55-70 | selectable indices are exactly the shown positions, in ascending order, each keeping its original index as its value |
| `Questions.Sample` | app.js:145-150 | returns exactly min(count, size of bank) questions, each taken from the bank and none more often than the bank holds it |
| `Questions.PickDistinct` | app.js:146-149 | reading distinct positions of the copied bank never repeats a question beyond its multiplicity |
| `Questions.ShuffleIsPermutation` | script.js:37 | the sorted copy holds the same questions as the bank, with the same multiplicities |
| `Grading.AnsweredUpTo` | app.js:282-302 | the answered counter never exceeds the number of questions visited |
| `Grading.CorrectUpTo` | app.js:299-309 | the correct counter never exceeds the answered counter |
| `Grading.AnsweredIsCount` | app.js:253-257 | the answered count equals the number of questions that have a checked radio |
| `Grading.CorrectIsCount` | script.js:84-95 | the correct count equals the number of questions whose selection equals their correctIndex |
| `Grading.AllAnsweredIff` | app.js:301-302 | answered equals total exactly when every question has a selection |
| `Grading.AllCorrectIff` | app.js:308-309 | correct equals total exactly when every question carries its correct selection |
| `Grading.RoundedPercent` | app.js:341 | the result is the integer nearest to 100·part/whole, with a half rounding up, and it is at most 100 when part ≤ whole |
| `Grading.RoundedPercentMonotone` | script.js:97 | more correct answers out of the same total never give a lower percentage |
| `Grading.PercentOf` | app.js:341 | the percentage is NaN (`None`) exactly when there are no questions; otherwise it is the integer nearest to 100·part/whole, a half rounding up, and at most 100 |
| `Grading.OptionText` | app.js:293-295 | the text is either "" or exactly the option at the index |
| `Grading.ShownOptionText` | app.js:303-307 | an option that gets a radio button shows its own text, which is never "" |
| `Grading.ReviewOf` | app.js:287-310 | a review entry is correct exactly when the selection equals correctIndex; an unanswered question shows "(no answer)" with empty text and is never correct |
| `Grading.Grade` | app.js:340-341 | the report satisfies 0 ≤ correct ≤ answered ≤ total; percent is defined exactly when total > 0 and then lies in 0..100; entry i is marked correct exactly when question i is |
| `Grading.HiddenKeyNeverCorrect` | app.js:163-177 | when the key points at an option that is not rendered, no rendered selection can score |
| `Grading.GradeAnswers` | app.js:282-341 | the grading loop yields exactly `Grade` of the exam questions and the checked radios |
| `Grading.HalfAnsweredScenario` | app.js:340-341 | four questions keyed to option 1, with two answered correctly and two blank, give answered 2, correct 2 and 50 percent |
| `TimerText.Pad2` | app.js:237-238 | pads to at least two digits, exactly two below 100, and reads back as the number |
| `TimerText.TimerDisplay` | app.js:227-240 | the timer text is either the placeholder "Time: --:--" or a longer text that opens with "Time left: " |
| `TimerText.PlaceholderIff` | app.js:230-233 | "Time: --:--" is shown exactly when no exam runs and the counter is 0 |
| `TimerText.TimeLeftFields` | app.js:235-239 | otherwise the text is "Time left: mm:ss"; ss is two digits below 60, mm has at least two digits (exactly two below 100 minutes), and mm·60 + ss reads back as the counter |
| `TimedExam.Progress` | app.js:244-264 | with no exam questions the result is "Answered 0 / 25" at 0%; otherwise it is the answered count out of the exam size and its rounded percentage, within 0..100 |
| `TimedExam.ExamSession.Init` | app.js:41-113 | a non-empty fetched bank becomes the bank and enables Start; a failed or empty load shows the error and leaves Start disabled; no exam or interval runs |
| `TimedExam.ExamSession.StopTimer` | app.js:200-205 | afterwards no interval is referenced; the referenced interval, if any, is cleared and no other interval is touched; with none it is a no-op, so a second call changes nothing |
| `TimedExam.ExamSession.StartTimer` | app.js:195-198 | afterwards exactly one interval runs, the referenced one, and any previously referenced interval is cleared |
| `TimedExam.ExamSession.Start` | app.js:117-143 | with an empty bank, only the status line changes; otherwise the exam questions are the sample of the bank and the session is started and not finished, with 1200 seconds left and exactly one interval running; a running exam is simply restarted |
| `TimedExam.ExamSession.Finish` | app.js:272-386 | acts only when started and not finished: it first ends the exam and clears the interval, then records `Grade` of the checked radios (percent defined) and appends exactly one payload with the trimmed name; any other call changes nothing |
| `TimedExam.ExamSession.Begin` | app.js:123-138 | from a valid session with a non-empty bank, the exam questions are the sample of the bank, the session is started and not finished with 1200 seconds left, exactly one fresh interval runs, Start is disabled and Finish enabled, no result is shown, no payload is sent, and the session stays valid |
| `TimedExam.ExamSession.Draw` | app.js:123-136 | the exam questions become the sample of the bank for the given shuffle; the session is started and not finished, Start is disabled and Finish enabled, the old result is cleared and the status says the exam started; the bank, the interval and the sent payloads are untouched |
| `TimedExam.ExamSession.Close` | app.js:277-280 | the session becomes finished and not started, and no interval is referenced or running; every other field keeps its value |
| `TimedExam.ExamSession.Publish` | app.js:357-385 | the report becomes the result, exactly one payload built from the name and the report is appended, Start is enabled again and Finish disabled, and the status is the time-up or the finished message as `autoSubmit` says |
| `TimedExam.ExamSession.Tick` | app.js:207-225 | outside an exam it does nothing; otherwise it counts down one second, and on reaching 0 it clears the interval and submits exactly once with the time-up message |
| `TimedExam.RunOut` | app.js:136-138 | starting from 1200 seconds with no manual finish, the automatic submission happens on exactly the 1200th tick and sends one payload |
| `TimedExam.ManualThenTick` | app.js:272-279 | a Finish click followed by a tick grades once, sends one payload and keeps the manual message |
| `TimedExam.TimeoutThenManual` | app.js:213-221 | a submission by the last tick followed by a Finish click grades once, sends one payload and keeps the time-up message |
| `TimedExam.ManualFinishKeepsCountdown` | app.js:277-280 | after a Finish click with time left, the counter keeps its value and the timer shows the same "Time left" text as during the exam, never the placeholder, although the comment at line 280 says the display resets to "--:--" |
| `TimedExam.TimeoutShowsPlaceholder` | app.js:213-221 | after the last tick submits the exam, the counter is 0, no exam runs and the timer shows the placeholder |
| `UntimedExam.ExamPage.Init` | script.js:11-33 | a delivered bank (possibly empty) becomes `ALL_QUESTIONS`, the exam is prepared and Finish is enabled; a failed load leaves both empty and shows the error |
| `UntimedExam.ExamPage.PrepareExam` | script.js:35-40 | the exam is min(50, size of bank) questions drawn from the bank without reuse beyond multiplicity, and only the exam questions change |
| `UntimedExam.ExamPage.Finish` | script.js:81-105 | correct counts the questions whose selection equals correctIndex, skipping unanswered ones, so it is at most the exam size; the percent is NaN exactly for an empty exam and otherwise the rounded share, at most 100; no state is changed |
| `UntimedExam.FinishTwice` | script.js:81-105 | finishing twice with the same selections yields the same score |

## Left out

- DOM and HTML building are not modelled: `innerHTML`, element creation, labels, colours, scrolling, the back-to-top button and the progress-bar width. The checked radios and the name field are inputs.
- `escapeHtml` and `indexToLetter` are not part of this model. The review keeps the chosen index (`LetterOf`) instead of its letter.
- `sendResultToSheet` is not part of this model: app.js ends at line 394, inside `sendResultToSheet`. `sent` records the payload it is handed, whose name is the trimmed name field unchanged, possibly "".
- The network is left out. The fetch in both `loadQuestions` functions becomes an input (`Option<seq<Question>>`). The `Array.isArray` check and the parse failure are folded into `None`.
- Wall-clock time is left out: `examStartTime`, `new Date()` and `durationSec`. The payload therefore has no elapsed seconds.
- Real timing is left out. `setInterval` is modelled by interval ids. One callback is one `Tick` call, and the model says nothing about the one-second spacing.
- `Questions.Sample`: does not state that the order is uniformly random. `Math.random` is replaced by an arbitrary permutation passed in, and the bias of a random comparator cannot be stated.
- `Grading.RoundedPercent`: is exact rational rounding, while the source computes `Math.round(correct / total * 100)` in IEEE doubles. In doubles `23 / 40 * 100` is 57.49999999999999, so the untimed page shows 57 for 23 correct out of 40 where `RoundedPercent` gives 58. The timed page, whose totals are at most 25, never meets such a case.
- The `q.options || []` fallback on the timed page is not modelled, because a question always has an options list here. For the same reason, the untimed page's failure on a question with no options is not modelled either.
- `parseInt` on a radio value is not modelled separately. The value is always the rendered option index, so a checked radio is `Some(index)`.
- `correctIndex` is an integer. Non-integer JSON values are not modelled.
- `TimedExam.Progress`: the progress computed at every radio change and after each step is not stored in the session. It is a method the caller applies to the current exam questions.
- The transient "Loading questions…" status text is not modelled. `Init` gives the status after the load has settled.
