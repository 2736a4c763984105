/** The queue banner of `src/content/components/NotificationBanner.tsx`: the
    `formatTime` label of a remaining time in whole seconds, and what the banner
    shows for the list of delayed emails. */
module Banner {
  import opened Wrappers
  import opened Text

  // ---------------------------------------------------------------- counting a character

  function Count(s: string, c: char): nat {
    if s == [] then 0 else (if s[0] == c then 1 else 0) + Count(s[1..], c)
  }

  lemma {:induction false} CountConcat(a: string, b: string, c: char)
    ensures Count(a + b, c) == Count(a, c) + Count(b, c)
  {
    if a == [] {
      assert a + b == b;
    } else {
      assert (a + b)[1..] == a[1..] + b;
      CountConcat(a[1..], b, c);
    }
  }

  lemma {:induction false} CountDigits(s: string, c: char)
    requires AllDigits(s) && !IsDigit(c)
    ensures Count(s, c) == 0
  {
    if s != [] {
      CountDigits(s[1..], c);
    }
  }

  /** A number padded to two places, as `padStart(2, "0")` does. */
  function Pad2(n: nat): string {
    PadZero(NatToString(n), 2)
  }

  /** A number padded to two places is all digits, two of them below 100, and
      reads back as the number. */
  lemma PadTwo(n: nat)
    ensures var p := Pad2(n);
      && AllDigits(p) && DigitsValue(p) == n
      && (n < 100 ==> |p| == 2)
  {
    var d := NatToString(n);
    NatToStringRoundTrip(n);
    if n < 10 {
      var p := PadZero(d, 2);
      assert p == ['0'] + d;
      assert p[..1] == ['0'];
      assert DigitsValue(['0']) == 0;
    } else if n < 100 {
      assert |NatToString(n / 10)| == 1;
    }
  }

  // ---------------------------------------------------------------- formatTime, as written

  /** `formatTime`: an hours segment when there are hours, a minutes segment
      when the minute count is non-zero, then the seconds, padded to two places
      when either segment is present and suffixed with `s` otherwise. */
  function FormatTime(time: nat): string {
    var hour, min, sec := time / 3600, time % 3600 / 60, time % 60;
    (if hour != 0 then NatToString(hour) + ":" else "")
    + (if min != 0 then NatToString(min) + ":" else "")
    + (if hour != 0 || min != 0 then Pad2(sec) else NatToString(sec) + "s")
  }

  /** Under a minute the label is the seconds count and `s`, with no colon. */
  lemma FormatTimeUnderMinute(time: nat)
    requires time < 60
    ensures FormatTime(time) == NatToString(time) + "s"
    ensures Count(FormatTime(time), ':') == 0
  {
    assert time / 3600 == 0 && time % 3600 / 60 == 0 && time % 60 == time;
    assert FormatTime(time) == "" + "" + (NatToString(time) + "s");
    CountConcat(NatToString(time), "s", ':');
    CountDigits(NatToString(time), ':');
  }

  /** From a minute on, the label ends in the seconds padded to two digits
      (no `s`), after a colon. */
  lemma FormatTimeFromMinute(time: nat)
    requires time >= 60
    ensures var r := FormatTime(time);
      && |r| >= 4 && r[|r| - 3] == ':'
      && AllDigits(r[|r| - 2..]) && DigitsValue(r[|r| - 2..]) == time % 60
  {
    var hour, min, sec := time / 3600, time % 3600 / 60, time % 60;
    var head := (if hour != 0 then NatToString(hour) + ":" else "") + (if min != 0 then NatToString(min) + ":" else "");
    var p := Pad2(sec);
    assert FormatTime(time) == head + p;
    assert |head| >= 2 && head[|head| - 1] == ':';
    PadTwo(sec);
    ColonTail(head, p);
  }

  /** Two digits after a text ending in a colon. */
  lemma ColonTail(head: string, p: string)
    requires |head| >= 2 && head[|head| - 1] == ':'
    requires AllDigits(p) && |p| == 2
    ensures var r := head + p;
      && |r| >= 4 && r[|r| - 3] == ':'
      && AllDigits(r[|r| - 2..]) && DigitsValue(r[|r| - 2..]) == DigitsValue(p)
  {
    var r := head + p;
    assert r[|r| - 3] == head[|head| - 1];
    assert r[|r| - 2..] == p;
  }

  /** One colon per segment shown: the minutes segment appears exactly when
      the minute count is non-zero, whether or not there are hours. */
  lemma FormatTimeColons(time: nat)
    ensures Count(FormatTime(time), ':')
      == (if time / 3600 != 0 then 1 else 0) + (if time % 3600 / 60 != 0 then 1 else 0)
  {
    var hour, min, sec := time / 3600, time % 3600 / 60, time % 60;
    var h := if hour != 0 then NatToString(hour) + ":" else "";
    var m := if min != 0 then NatToString(min) + ":" else "";
    var s := if hour != 0 || min != 0 then Pad2(sec) else NatToString(sec) + "s";
    assert FormatTime(time) == h + m + s;
    CountConcat(h + m, s, ':');
    CountConcat(h, m, ':');
    CountDigits(NatToString(hour), ':');
    CountDigits(NatToString(min), ':');
    CountDigits(NatToString(sec), ':');
    CountConcat(NatToString(hour), ":", ':');
    CountConcat(NatToString(min), ":", ':');
    CountConcat(NatToString(sec), "s", ':');
    PadTwo(sec);
    CountDigits(Pad2(sec), ':');
  }

  /** A whole hour of difference disappears when the minute count is zero:
      one minute five seconds and one hour five seconds get the same label. */
  lemma FormatTimeDropsZeroMinutes()
    ensures FormatTime(65) == FormatTime(3605) == "1:05"
  {
    assert NatToString(1) == "1" && NatToString(5) == "5";
    assert Pad2(5) == PadZero("5", 2) == "05";
    assert 65 / 3600 == 0 && 65 % 3600 / 60 == 1 && 65 % 60 == 5;
    assert FormatTime(65) == "" + "1:" + "05";
    assert 3605 / 3600 == 1 && 3605 % 3600 / 60 == 0 && 3605 % 60 == 5;
    assert FormatTime(3605) == "1:" + "" + "05";
  }

  // ---------------------------------------------------------------- formatTime, corrected

  /** The clock label the banner evidently means: `H:MM:SS` with hours,
      `M:SS` with minutes only, `<s>s` under a minute. */
  function FormatClock(time: nat): string {
    var hour, min, sec := time / 3600, time % 3600 / 60, time % 60;
    if hour != 0 then HoursLabel(hour, min, sec)
    else if min != 0 then MinutesLabel(min, sec)
    else SecondsLabel(sec)
  }

  function HoursLabel(h: nat, m: nat, s: nat): string {
    NatToString(h) + ":" + Pad2(m) + ":" + Pad2(s)
  }

  function MinutesLabel(m: nat, s: nat): string {
    NatToString(m) + ":" + Pad2(s)
  }

  function SecondsLabel(s: nat): string {
    NatToString(s) + "s"
  }

  /** Where the pieces sit in `a:b:c` with two-character `b` and `c`, and how
      many colons it holds. */
  lemma ThreePieces(a: string, b: string, c: string)
    requires AllDigits(a) && AllDigits(b) && AllDigits(c)
    requires |b| == 2 && |c| == 2
    ensures var r := a + ":" + b + ":" + c;
      && |r| == |a| + 6 && r[|r| - 1] == c[1]
      && AllDigits(r[..|r| - 6]) && DigitsValue(r[..|r| - 6]) == DigitsValue(a)
      && AllDigits(r[|r| - 5..|r| - 3]) && DigitsValue(r[|r| - 5..|r| - 3]) == DigitsValue(b)
      && AllDigits(r[|r| - 2..]) && DigitsValue(r[|r| - 2..]) == DigitsValue(c)
      && Count(r, ':') == Count(a, ':') + Count(b, ':') + Count(c, ':') + 2
  {
    var r := a + ":" + b + ":" + c;
    assert r[..|r| - 6] == a;
    assert r[|r| - 5..|r| - 3] == b;
    assert r[|r| - 2..] == c;
    CountConcat(a + ":" + b + ":", c, ':');
    CountConcat(a + ":" + b, ":", ':');
    CountConcat(a + ":", b, ':');
    CountConcat(a, ":", ':');
  }

  /** Where the pieces sit in `a:c` with a two-character `c`, and how many
      colons it holds. */
  lemma TwoPieces(a: string, c: string)
    requires AllDigits(a) && AllDigits(c)
    requires |c| == 2
    ensures var r := a + ":" + c;
      && |r| == |a| + 3 && r[|r| - 1] == c[1]
      && AllDigits(r[..|r| - 3]) && DigitsValue(r[..|r| - 3]) == DigitsValue(a)
      && AllDigits(r[|r| - 2..]) && DigitsValue(r[|r| - 2..]) == DigitsValue(c)
      && Count(r, ':') == Count(a, ':') + Count(c, ':') + 1
  {
    var r := a + ":" + c;
    assert r[..|r| - 3] == a;
    assert r[|r| - 2..] == c;
    CountConcat(a + ":", c, ':');
    CountConcat(a, ":", ':');
  }

  /** The three parts of a label with hours: all digits, reading back as the
      hours, minutes and seconds, with no `s` and two colons. */
  lemma HoursParts(h: nat, m: nat, s: nat)
    requires m < 100 && s < 100
    ensures var r := HoursLabel(h, m, s);
      && |r| >= 7 && r[|r| - 1] != 's' && Count(r, ':') == 2
      && AllDigits(r[..|r| - 6]) && DigitsValue(r[..|r| - 6]) == h
      && AllDigits(r[|r| - 5..|r| - 3]) && DigitsValue(r[|r| - 5..|r| - 3]) == m
      && AllDigits(r[|r| - 2..]) && DigitsValue(r[|r| - 2..]) == s
  {
    var dh, pm, ps := NatToString(h), Pad2(m), Pad2(s);
    assert AllDigits(dh) && DigitsValue(dh) == h && Count(dh, ':') == 0 by {
      NatToStringRoundTrip(h);
      CountDigits(dh, ':');
    }
    assert AllDigits(pm) && |pm| == 2 && DigitsValue(pm) == m && Count(pm, ':') == 0 by {
      PadTwo(m);
      CountDigits(pm, ':');
    }
    assert AllDigits(ps) && |ps| == 2 && DigitsValue(ps) == s && Count(ps, ':') == 0 && IsDigit(ps[1]) by {
      PadTwo(s);
      CountDigits(ps, ':');
    }
    ThreePieces(dh, pm, ps);
    assert HoursLabel(h, m, s) == dh + ":" + pm + ":" + ps;
  }

  /** The two parts of a label with minutes only: all digits, reading back as
      the minutes and seconds, with no `s` and one colon. */
  lemma MinutesParts(m: nat, s: nat)
    requires s < 100
    ensures var r := MinutesLabel(m, s);
      && |r| >= 4 && r[|r| - 1] != 's' && Count(r, ':') == 1
      && AllDigits(r[..|r| - 3]) && DigitsValue(r[..|r| - 3]) == m
      && AllDigits(r[|r| - 2..]) && DigitsValue(r[|r| - 2..]) == s
  {
    var dm, ps := NatToString(m), Pad2(s);
    assert AllDigits(dm) && DigitsValue(dm) == m && Count(dm, ':') == 0 by {
      NatToStringRoundTrip(m);
      CountDigits(dm, ':');
    }
    assert AllDigits(ps) && |ps| == 2 && DigitsValue(ps) == s && Count(ps, ':') == 0 && IsDigit(ps[1]) by {
      PadTwo(s);
      CountDigits(ps, ':');
    }
    TwoPieces(dm, ps);
    assert MinutesLabel(m, s) == dm + ":" + ps;
  }

  /** The seconds of a label under a minute: digits and then `s`, no colon. */
  lemma SecondsParts(s: nat)
    ensures var r := SecondsLabel(s);
      && |r| >= 2 && r[|r| - 1] == 's' && Count(r, ':') == 0
      && AllDigits(r[..|r| - 1]) && DigitsValue(r[..|r| - 1]) == s
  {
    NatToStringRoundTrip(s);
    CountDigits(NatToString(s), ':');
    CountConcat(NatToString(s), "s", ':');
    var r := NatToString(s) + "s";
    assert r[..|r| - 1] == NatToString(s);
    assert SecondsLabel(s) == r;
  }

  /** The shape of the corrected label: how many colons, and whether it ends in
      `s`, tell which of the three forms it has. */
  lemma FormatClockShape(time: nat)
    ensures var r, hour, min := FormatClock(time), time / 3600, time % 3600 / 60;
      && |r| >= 2
      && Count(r, ':') == (if hour != 0 then 2 else if min != 0 then 1 else 0)
      && (r[|r| - 1] == 's' <==> time < 60)
  {
    var hour, min, sec := time / 3600, time % 3600 / 60, time % 60;
    assert min < 60 && sec < 60;
    if hour != 0 {
      HoursParts(hour, min, sec);
      assert FormatClock(time) == HoursLabel(hour, min, sec);
      assert time >= 60;
    } else if min != 0 {
      MinutesParts(min, sec);
      assert FormatClock(time) == MinutesLabel(min, sec);
      assert time >= 60;
    } else {
      SecondsParts(sec);
      assert FormatClock(time) == SecondsLabel(sec);
      Decompose(time);
    }
  }

  /** A time is its hours, minutes and seconds. */
  lemma Decompose(time: nat)
    ensures time == 3600 * (time / 3600) + 60 * (time % 3600 / 60) + time % 60
  {
    var h, rest := time / 3600, time % 3600;
    assert time == 3600 * h + rest;
    var m, s := rest / 60, rest % 60;
    assert rest == 60 * m + s;
    assert time == 60 * (60 * h + m) + s;
    assert time % 60 == s;
  }

  /** Reading a corrected label back: the seconds before a final `s`, or
      hours, minutes and seconds by the number of colons. */
  function ReadClock(r: string): nat {
    if |r| >= 2 && r[|r| - 1] == 's' && AllDigits(r[..|r| - 1]) then DigitsValue(r[..|r| - 1])
    else if |r| >= 7 && Count(r, ':') == 2 && AllDigits(r[..|r| - 6])
      && AllDigits(r[|r| - 5..|r| - 3]) && AllDigits(r[|r| - 2..])
    then 3600 * DigitsValue(r[..|r| - 6]) + 60 * DigitsValue(r[|r| - 5..|r| - 3]) + DigitsValue(r[|r| - 2..])
    else if |r| >= 4 && AllDigits(r[..|r| - 3]) && AllDigits(r[|r| - 2..])
    then 60 * DigitsValue(r[..|r| - 3]) + DigitsValue(r[|r| - 2..])
    else 0
  }

  lemma ReadHours(h: nat, m: nat, s: nat)
    requires m < 60 && s < 60
    ensures ReadClock(HoursLabel(h, m, s)) == 3600 * h + 60 * m + s
  {
    HoursParts(h, m, s);
  }

  lemma ReadMinutes(m: nat, s: nat)
    requires s < 60
    ensures ReadClock(MinutesLabel(m, s)) == 60 * m + s
  {
    MinutesParts(m, s);
  }

  lemma ReadSeconds(s: nat)
    ensures ReadClock(SecondsLabel(s)) == s
  {
    SecondsParts(s);
  }

  /** Every corrected label reads back as its remaining time. */
  lemma ReadClockInverts(time: nat)
    ensures ReadClock(FormatClock(time)) == time
  {
    var hour, min, sec := time / 3600, time % 3600 / 60, time % 60;
    assert min < 60 && sec < 60;
    Decompose(time);
    if hour != 0 {
      assert FormatClock(time) == HoursLabel(hour, min, sec);
      ReadHours(hour, min, sec);
    } else if min != 0 {
      assert FormatClock(time) == MinutesLabel(min, sec);
      ReadMinutes(min, sec);
    } else {
      assert FormatClock(time) == SecondsLabel(sec);
      ReadSeconds(sec);
    }
  }

  /** Distinct remaining times get distinct corrected labels. */
  lemma FormatClockInjective(t1: nat, t2: nat)
    requires FormatClock(t1) == FormatClock(t2)
    ensures t1 == t2
  {
    ReadClockInverts(t1);
    ReadClockInverts(t2);
  }

  /** The correction changes only labels with hours: below an hour both agree. */
  lemma FormatClockAgreesBelowHour(time: nat)
    requires time < 3600
    ensures FormatClock(time) == FormatTime(time)
  {
    assert time / 3600 == 0;
    var min, sec := time % 3600 / 60, time % 60;
    var tail := if min != 0 then Pad2(sec) else NatToString(sec) + "s";
    var m := if min != 0 then NatToString(min) + ":" else "";
    assert FormatTime(time) == "" + m + tail;
    assert "" + m + tail == m + tail;
  }

  // ---------------------------------------------------------------- the banner

  /** A delayed email; only its remaining time in seconds is shown. */
  datatype DelayingEmail = DelayingEmail(remainingTime: nat)

  /** `<n> email queued` or `<n> emails queued`. */
  function QueuedLabel(n: nat): string {
    NatToString(n) + (if n != 1 then " emails queued" else " email queued")
  }

  /** The count reads back off the label, and the label is plural exactly when
      the count is not one. */
  lemma QueuedLabelRules(n: nat)
    ensures var l, d := QueuedLabel(n), NatToString(n);
      && |l| > |d| && AllDigits(l[..|d|]) && DigitsValue(l[..|d|]) == n
      && (l[|d|..] == " emails queued" <==> n != 1)
      && (l[|d|..] == " email queued" <==> n == 1)
  {
    NatToStringRoundTrip(n);
    var d := NatToString(n);
    var l := QueuedLabel(n);
    assert l[..|d|] == d;
    assert l[|d|..] == (if n != 1 then " emails queued" else " email queued");
    assert " emails queued"[6] != " email queued"[6];
  }

  datatype BannerText = BannerText(queued: string, timer: string)

  /** What the banner renders: nothing while the list is empty or its root is
      not yet in the page, otherwise the count and the last email's remaining
      time through `formatTime` as written. */
  function BannerView(emails: seq<DelayingEmail>, rootReady: bool): (r: Option<BannerText>)
    ensures r.None? <==> emails == [] || !rootReady
    ensures r.Some? ==> r.value.queued == QueuedLabel(|emails|)
    ensures r.Some? ==> r.value.timer == FormatTime(emails[|emails| - 1].remainingTime)
  {
    if emails == [] || !rootReady then None
    else Some(BannerText(QueuedLabel(|emails|), FormatTime(emails[|emails| - 1].remainingTime)))
  }

  /** Below an hour the banner's timer determines the last email's remaining
      time. */
  lemma BannerShowsLastBelowHour(a: seq<DelayingEmail>, b: seq<DelayingEmail>)
    requires BannerView(a, true).Some? && BannerView(b, true).Some?
    requires a[|a| - 1].remainingTime < 3600 && b[|b| - 1].remainingTime < 3600
    requires BannerView(a, true).value.timer == BannerView(b, true).value.timer
    ensures a[|a| - 1].remainingTime == b[|b| - 1].remainingTime
  {
    var x, y := a[|a| - 1].remainingTime, b[|b| - 1].remainingTime;
    FormatClockAgreesBelowHour(x);
    FormatClockAgreesBelowHour(y);
    FormatClockInjective(x, y);
  }

  /** As written, a queue whose last email has an hour and five seconds left
      shows the same banner as one whose last email has a minute and five
      seconds left. */
  lemma BannerConfusesHours()
    ensures BannerView([DelayingEmail(65)], true) == BannerView([DelayingEmail(3605)], true)
    ensures BannerView([DelayingEmail(65)], true).value.timer == "1:05"
  {
    FormatTimeDropsZeroMinutes();
  }

  /** The banner with the corrected clock label. */
  function CorrectedBannerView(emails: seq<DelayingEmail>, rootReady: bool): (r: Option<BannerText>)
    ensures r.None? <==> emails == [] || !rootReady
    ensures r.Some? ==> r.value.queued == QueuedLabel(|emails|)
    ensures r.Some? ==> r.value.timer == FormatClock(emails[|emails| - 1].remainingTime)
  {
    if emails == [] || !rootReady then None
    else Some(BannerText(QueuedLabel(|emails|), FormatClock(emails[|emails| - 1].remainingTime)))
  }

  /** With the corrected label the timer determines the last email's remaining
      time: two queues whose last emails differ never show the same timer. */
  lemma CorrectedBannerShowsLast(a: seq<DelayingEmail>, b: seq<DelayingEmail>)
    requires CorrectedBannerView(a, true).Some? && CorrectedBannerView(b, true).Some?
    requires CorrectedBannerView(a, true).value.timer == CorrectedBannerView(b, true).value.timer
    ensures a[|a| - 1].remainingTime == b[|b| - 1].remainingTime
  {
    FormatClockInjective(a[|a| - 1].remainingTime, b[|b| - 1].remainingTime);
  }

  /** Below an hour the corrected banner is the banner. */
  lemma CorrectedBannerAgreesBelowHour(emails: seq<DelayingEmail>, rootReady: bool)
    requires emails != [] ==> emails[|emails| - 1].remainingTime < 3600
    ensures CorrectedBannerView(emails, rootReady) == BannerView(emails, rootReady)
  {
    if emails != [] {
      FormatClockAgreesBelowHour(emails[|emails| - 1].remainingTime);
    }
  }
}
