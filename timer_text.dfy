/**
 * The countdown text of the timed page (updateTimerDisplay): a placeholder
 * before any exam, otherwise "Time left: mm:ss".
 */
module TimerText {
  import opened Text

  const Placeholder := "Time: --:--"
  const TimeLeftPrefix := "Time left: "

  /** `n < 10 ? "0" + n : String(n)`. */
  function Pad2(n: nat): (r: string)
    ensures IsDigits(r) && |r| >= 2 && ParseDecimal(r) == n
    ensures n < 100 ==> |r| == 2
  {
    ParseDecimalString(n);
    if n < 10 then
      ParseLeadingZero(DecimalString(n));
      "0" + DecimalString(n)
    else DecimalString(n)
  }

  /** The text shown for the flag examStarted and the whole-second counter:
      either the placeholder or a longer text that opens with "Time left: ". */
  function TimerDisplay(started: bool, remaining: nat): (r: string)
    ensures r == Placeholder || (|r| > |TimeLeftPrefix| && r[..|TimeLeftPrefix|] == TimeLeftPrefix)
  {
    if !started && remaining == 0 then Placeholder
    else TimeLeftPrefix + Pad2(remaining / 60) + ":" + Pad2(remaining % 60)
  }

  /** The placeholder appears exactly when no exam runs and no time is left. */
  lemma PlaceholderIff(started: bool, remaining: nat)
    ensures TimerDisplay(started, remaining) == Placeholder <==> !started && remaining == 0
  {
  }

  /** Otherwise the text is "Time left: " + mm + ":" + ss with two-digit
      seconds below 60, at least two digits of minutes, and reading the
      fields back as mm * 60 + ss gives the counter. */
  lemma TimeLeftFields(started: bool, remaining: nat) returns (mm: string, ss: string)
    requires started || remaining != 0
    ensures TimerDisplay(started, remaining) == TimeLeftPrefix + mm + ":" + ss
    ensures IsDigits(mm) && |mm| >= 2 && IsDigits(ss) && |ss| == 2
    ensures ParseDecimal(ss) < 60 && ParseDecimal(mm) * 60 + ParseDecimal(ss) == remaining
    ensures remaining < 6000 ==> |mm| == 2
  {
    mm, ss := Pad2(remaining / 60), Pad2(remaining % 60);
  }
}
