/** The queue card of `src/content/components/EmailState.tsx`: a minutes and
    seconds countdown that a one-second interval steps while the card is
    active, its `MM:SS` label, and what the card renders. */
module EmailState {
  import opened Wrappers
  import opened Text
  import Banner

  datatype TimeLeft = TimeLeft(minutes: int, seconds: int)

  /** The initial `timeLeft`. */
  const Initial: TimeLeft := TimeLeft(15, 30)

  /** The `setTimeLeft` updater: count a second down, borrow a minute when the
      seconds are spent, and stay put at zero. */
  function Step(prev: TimeLeft): TimeLeft {
    if prev.seconds > 0 then prev.(seconds := prev.seconds - 1)
    else if prev.minutes > 0 then TimeLeft(prev.minutes - 1, 59)
    else prev
  }

  /** A clock reading: whole minutes and seconds in 0..59. */
  predicate WellFormed(t: TimeLeft) {
    t.minutes >= 0 && 0 <= t.seconds <= 59
  }

  /** The seconds a reading stands for. */
  function Total(t: TimeLeft): int {
    60 * t.minutes + t.seconds
  }

  /** A step keeps a reading well formed, takes exactly one second off while
      there is time left, and changes nothing at zero. */
  lemma StepCountsDown(t: TimeLeft)
    requires WellFormed(t)
    ensures WellFormed(Step(t))
    ensures Total(t) > 0 ==> Total(Step(t)) == Total(t) - 1
    ensures Total(t) == 0 ==> t == TimeLeft(0, 0) && Step(t) == t
    ensures t.seconds > 0 ==> Step(t).minutes == t.minutes
    ensures t.seconds == 0 && t.minutes > 0 ==> Step(t) == TimeLeft(t.minutes - 1, 59)
  {
    if t.seconds > 0 {
      assert Step(t) == TimeLeft(t.minutes, t.seconds - 1);
    } else if t.minutes > 0 {
      assert Step(t) == TimeLeft(t.minutes - 1, 59);
      assert Total(Step(t)) == 60 * t.minutes - 1;
    } else {
      assert t == TimeLeft(0, 0);
    }
  }

  /** `n` ticks of the interval. */
  function Steps(t: TimeLeft, n: nat): TimeLeft {
    if n == 0 then t else Step(Steps(t, n - 1))
  }

  /** After `n` ticks the clock shows the initial total less `n`, and never
      goes below zero. */
  lemma {:induction false} StepsCountDown(t: TimeLeft, n: nat)
    requires WellFormed(t)
    ensures WellFormed(Steps(t, n))
    ensures Total(Steps(t, n)) == if n <= Total(t) then Total(t) - n else 0
  {
    if n > 0 {
      StepsCountDown(t, n - 1);
      StepCountsDown(Steps(t, n - 1));
    }
  }

  /** Two well-formed readings with the same total are the same reading. */
  lemma TotalDetermines(a: TimeLeft, b: TimeLeft)
    requires WellFormed(a) && WellFormed(b) && Total(a) == Total(b)
    ensures a == b
  {
    assert a.minutes == Total(a) / 60 && b.minutes == Total(b) / 60;
  }

  /** The initial 15:30 runs out after exactly 930 ticks and then stays at
      00:00. */
  lemma InitialRunsOut(n: nat)
    ensures n < 930 ==> Steps(Initial, n) != TimeLeft(0, 0)
    ensures n >= 930 ==> Steps(Initial, n) == TimeLeft(0, 0)
  {
    var t := Steps(Initial, n);
    assert Total(Initial) == 930;
    StepsCountDown(Initial, n);
    if n >= 930 {
      assert Total(t) == 0;
      TotalDetermines(t, TimeLeft(0, 0));
    } else {
      assert Total(t) > 0;
    }
  }

  /** The state after `n` seconds: the interval runs only while active. */
  function After(isActive: bool, n: nat): (t: TimeLeft)
    ensures !isActive ==> t == Initial
  {
    if isActive then Steps(Initial, n) else Initial
  }

  /** `formatTime(minutes, seconds)`: both padded to two places, joined by `:`. */
  function FormatTime(minutes: nat, seconds: nat): string {
    Banner.Pad2(minutes) + ":" + Banner.Pad2(seconds)
  }

  /** The label reads back: the seconds are the two digits after the last
      colon, the minutes everything before it. */
  lemma FormatTimeRoundTrip(minutes: nat, seconds: nat)
    requires seconds < 100
    ensures var r := FormatTime(minutes, seconds);
      && |r| >= 5 && r[|r| - 3] == ':'
      && AllDigits(r[..|r| - 3]) && DigitsValue(r[..|r| - 3]) == minutes
      && AllDigits(r[|r| - 2..]) && DigitsValue(r[|r| - 2..]) == seconds
  {
    var pm, ps := Banner.Pad2(minutes), Banner.Pad2(seconds);
    Banner.PadTwo(minutes);
    Banner.PadTwo(seconds);
    Banner.TwoPieces(pm, ps);
    assert FormatTime(minutes, seconds) == pm + ":" + ps;
    assert (pm + ":" + ps)[|pm|] == ':';
  }

  /** Distinct readings get distinct labels. */
  lemma FormatTimeInjective(a: TimeLeft, b: TimeLeft)
    requires WellFormed(a) && WellFormed(b)
    requires FormatTime(a.minutes, a.seconds) == FormatTime(b.minutes, b.seconds)
    ensures a == b
  {
    ReadTimeInverts(a.minutes, a.seconds);
    ReadTimeInverts(b.minutes, b.seconds);
  }

  /** Reading a label back: the digits before the last colon and the two after it. */
  function ReadTime(r: string): (nat, nat) {
    if |r| >= 5 && AllDigits(r[..|r| - 3]) && AllDigits(r[|r| - 2..])
    then (DigitsValue(r[..|r| - 3]), DigitsValue(r[|r| - 2..]))
    else (0, 0)
  }

  lemma ReadTimeInverts(minutes: nat, seconds: nat)
    requires seconds < 100
    ensures ReadTime(FormatTime(minutes, seconds)) == (minutes, seconds)
  {
    FormatTimeRoundTrip(minutes, seconds);
  }

  /** What the card renders. */
  datatype Card =
    | Nothing                                  // inactive: `null`
    | EmptyFragment                            // active with no emails
    | Queue(queued: string, timer: string)     // the count and the `delayTime` prop

  /** The render: nothing when inactive, an empty fragment for a zero count,
      otherwise the queued label and the `delayTime` prop (the countdown
      label is not rendered). */
  function Render(isActive: bool, emailCount: nat, delayTime: nat): (c: Card)
    ensures c.Nothing? <==> !isActive
    ensures c.EmptyFragment? <==> isActive && emailCount == 0
    ensures c.Queue? ==> c.queued == Banner.QueuedLabel(emailCount) && AllDigits(c.timer) && DigitsValue(c.timer) == delayTime
  {
    NatToStringRoundTrip(delayTime);
    if !isActive then Nothing
    else if emailCount == 0 then EmptyFragment
    else Queue(Banner.QueuedLabel(emailCount), NatToString(delayTime))
  }

  /** The props' defaults: three emails, sixty seconds, active. */
  lemma DefaultCard()
    ensures Render(true, 3, 60) == Queue("3 emails queued", "60")
  {
    assert NatToString(3) == "3";
    assert NatToString(6) == "6";
    assert NatToString(60) == NatToString(6) + "0";
  }
}
