/**
 * `format_duration`: the human-readable AFK duration shown when a user comes
 * back. Durations are whole seconds here.
 *
 * Its partner is `ParseDuration`, a strict reader of the three shapes the
 * formatter produces, with English agreement between a number and its unit.
 */
module Duration {
  import opened Wrappers
  import opened Text

  /** What a formatted duration says: seconds, minutes, or hours and minutes. */
  datatype Reading = Seconds(n: nat) | Minutes(m: nat) | Hours(h: nat, m: nat)

  /** The seconds a reading stands for. */
  function Denotes(r: Reading): nat {
    match r
    case Seconds(n) => n
    case Minutes(m) => 60 * m
    case Hours(h, m) => 3600 * h + 60 * m
  }

  /** Each unit stays below the next larger one, and a leading unit is never zero. */
  predicate Canonical(r: Reading) {
    match r
    case Seconds(n) => n < 60
    case Minutes(m) => 1 <= m < 60
    case Hours(h, m) => 1 <= h && m < 60
  }

  /** The plural ending the bot writes after a count. */
  function Plural(n: int): string {
    if n != 1 then "s" else ""
  }

  function FormatDuration(seconds: int): string {
    if seconds < 60 then
      IntToString(seconds) + " seconds"
    else if seconds < 3600 then
      var minutes := seconds / 60;
      NatToString(minutes) + " minute" + Plural(minutes)
    else
      var hours := seconds / 3600;
      var minutes := (seconds % 3600) / 60;
      if minutes > 0 then
        NatToString(hours) + " hour" + Plural(hours) + " and " + NatToString(minutes) + " minute" + Plural(minutes)
      else
        NatToString(hours) + " hour" + Plural(hours)
  }

  /** Reads "N seconds", "M minute(s)", "H hour(s)" or "H hour(s) and M minute(s)". */
  function ParseDuration(text: string): Option<Reading> {
    match ReadNat(text)
    case None => None
    case Some((n, rest)) => ParseUnit(n, rest)
  }

  /** What may follow a leading count `n`: its unit, and for hours possibly a minute count. */
  function ParseUnit(n: nat, rest: string): Option<Reading> {
    var joint := " hour" + Plural(n) + " and ";
    if rest == " seconds" then Some(Seconds(n))
    else if rest == " minute" + Plural(n) then Some(Minutes(n))
    else if rest == " hour" + Plural(n) then Some(Hours(n, 0))
    else if |joint| <= |rest| && rest[..|joint|] == joint then ParseTrailingMinutes(n, rest[|joint|..])
    else None
  }

  /** The non-zero minute count that may follow `h` hours. */
  function ParseTrailingMinutes(h: nat, text: string): Option<Reading> {
    match ReadNat(text)
    case None => None
    case Some((m, tail)) => if m > 0 && tail == " minute" + Plural(m) then Some(Hours(h, m)) else None
  }

  lemma MinutesText(m: nat)
    ensures ParseDuration(NatToString(m) + " minute" + Plural(m)) == Some(Minutes(m))
  {
    var rest := " minute" + Plural(m);
    assert NatToString(m) + " minute" + Plural(m) == NatToString(m) + rest;
    ReadNatOfNatToString(m, rest);
    assert rest[1] == 'm';
  }

  lemma HoursText(h: nat)
    ensures ParseDuration(NatToString(h) + " hour" + Plural(h)) == Some(Hours(h, 0))
  {
    var rest := " hour" + Plural(h);
    assert NatToString(h) + " hour" + Plural(h) == NatToString(h) + rest;
    ReadNatOfNatToString(h, rest);
    assert rest[1] == 'h';
  }

  lemma TrailingMinutesText(h: nat, m: nat)
    requires m > 0
    ensures ParseTrailingMinutes(h, NatToString(m) + " minute" + Plural(m)) == Some(Hours(h, m))
  {
    var tail := " minute" + Plural(m);
    assert NatToString(m) + " minute" + Plural(m) == NatToString(m) + tail;
    ReadNatOfNatToString(m, tail);
  }

  lemma Regroup(a: string, b: string, c: string, d: string, e: string, f: string, g: string)
    ensures a + b + c + d + e + f + g == a + ((b + c + d) + (e + f + g))
  {
  }

  lemma HoursMinutesText(h: nat, m: nat)
    requires m > 0
    ensures ParseDuration(NatToString(h) + " hour" + Plural(h) + " and " + NatToString(m) + " minute" + Plural(m))
         == Some(Hours(h, m))
  {
    var joint := " hour" + Plural(h) + " and ";
    var minutes := NatToString(m) + " minute" + Plural(m);
    var rest := joint + minutes;
    Regroup(NatToString(h), " hour", Plural(h), " and ", NatToString(m), " minute", Plural(m));
    ReadNatOfNatToString(h, rest);
    assert rest[1] == 'h';
    assert |rest| > |" hour" + Plural(h)|;
    assert rest[..|joint|] == joint && rest[|joint|..] == minutes;
    TrailingMinutesText(h, m);
  }

  /**
   * The text `format_duration` writes for a non-negative duration reads back
   * as the canonical reading of that duration, truncated to whole minutes
   * from one minute up: seconds below a minute, minutes below an hour, and
   * otherwise hours with the minutes shown only when there are any.
   */
  lemma FormatDurationReadsBack(seconds: nat)
    ensures ParseDuration(FormatDuration(seconds)).Some?
    ensures var r := ParseDuration(FormatDuration(seconds)).value;
      && Canonical(r)
      && Denotes(r) == (if seconds < 60 then seconds else seconds - seconds % 60)
      && (r.Seconds? <==> seconds < 60)
      && (r.Minutes? <==> 60 <= seconds < 3600)
  {
    if seconds < 60 {
      ReadNatOfNatToString(seconds, " seconds");
      assert ParseDuration(FormatDuration(seconds)) == Some(Seconds(seconds));
    } else if seconds < 3600 {
      MinutesText(seconds / 60);
      assert ParseDuration(FormatDuration(seconds)) == Some(Minutes(seconds / 60));
    } else {
      var h, m := seconds / 3600, (seconds % 3600) / 60;
      HourSplit(seconds);
      if m > 0 {
        HoursMinutesText(h, m);
        assert ParseDuration(FormatDuration(seconds)) == Some(Hours(h, m));
      } else {
        HoursText(h);
        assert ParseDuration(FormatDuration(seconds)) == Some(Hours(h, 0));
      }
    }
  }

  lemma HourSplit(seconds: nat)
    ensures 3600 * (seconds / 3600) + 60 * ((seconds % 3600) / 60) == seconds - seconds % 60
    ensures (seconds % 3600) / 60 < 60
  {
    var h, r := seconds / 3600, seconds % 3600;
    var m, q := r / 60, r % 60;
    assert seconds == 3600 * h + 60 * m + q;
    assert seconds == 60 * (60 * h + m) + q;
    assert seconds % 60 == q;
  }

  /** The seconds branch never agrees in number: one second reads "1 seconds". */
  lemma OneSecondStaysPlural()
    ensures FormatDuration(1) == "1 seconds"
  {
  }

  /** A negative duration (a start time in the future) is printed with its sign. */
  lemma NegativeDurationShowsSign()
    ensures FormatDuration(-5) == "-5 seconds"
  {
  }

  /**
   * Below a minute, negative durations included, the text is the signed
   * count followed by " seconds", and it reads back as exactly that count.
   */
  lemma SecondsTextReadsBack(seconds: int)
    requires seconds < 60
    ensures ReadInt(FormatDuration(seconds)) == Some((seconds, " seconds"))
  {
    ReadIntOfIntToString(seconds, " seconds");
  }

  lemma SmallNumbers()
    ensures NatToString(1) == "1" && NatToString(2) == "2" && NatToString(30) == "30"
  {
    assert NatToString(30) == NatToString(3) + [DigitChar(0)];
  }

  /** The seconds and minutes cases of the bot's own test script. */
  lemma FormatDurationExamplesBelowHour()
    ensures FormatDuration(30) == "30 seconds"
    ensures FormatDuration(60) == "1 minute"
    ensures FormatDuration(90) == "1 minute"
    ensures FormatDuration(120) == "2 minutes"
  {
    SmallNumbers();
    assert FormatDuration(60) == NatToString(1) + " minute" + "";
    assert FormatDuration(90) == NatToString(1) + " minute" + "";
    assert FormatDuration(120) == NatToString(2) + " minute" + "s";
  }

  /** The whole-hour cases of the bot's own test script. */
  lemma FormatDurationExamplesWholeHours()
    ensures FormatDuration(3600) == "1 hour"
    ensures FormatDuration(7200) == "2 hours"
  {
    SmallNumbers();
    assert FormatDuration(3600) == NatToString(1) + " hour" + "";
    assert FormatDuration(7200) == NatToString(2) + " hour" + "s";
  }

  /** An hour count with a non-zero minute remainder is written with both units. */
  lemma HoursAndMinutesShape(h: nat, m: nat)
    requires 1 <= h && 1 <= m < 60
    ensures FormatDuration(3600 * h + 60 * m)
         == NatToString(h) + " hour" + Plural(h) + " and " + NatToString(m) + " minute" + Plural(m)
  {
    HoursAndMinutesSplit(h, m);
  }

  lemma HoursAndMinutesSplit(h: nat, m: nat)
    requires m < 60
    ensures (3600 * h + 60 * m) / 3600 == h && ((3600 * h + 60 * m) % 3600) / 60 == m
  {
    var s := 3600 * h + 60 * m;
    var r := 60 * m;
    assert 0 <= r < 3600;
    assert s / 3600 == h && s % 3600 == r;
    assert r / 60 == m;
  }

  /** The one-hour-one-minute case of the bot's own test script. */
  lemma FormatDurationExampleHourAndMinute()
    ensures FormatDuration(3660) == "1 hour and 1 minute"
  {
    SmallNumbers();
    HoursAndMinutesShape(1, 1);
    var a := NatToString(1) + " hour" + Plural(1) + " and " + NatToString(1);
    assert a == "1 hour and 1";
    assert a + " minute" + Plural(1) == "1 hour and 1 minute";
  }

  /** The two-hours-two-minutes case of the bot's own test script. */
  lemma FormatDurationExampleHoursAndMinutes()
    ensures FormatDuration(7320) == "2 hours and 2 minutes"
  {
    SmallNumbers();
    HoursAndMinutesShape(2, 2);
    var a := NatToString(2) + " hour" + Plural(2) + " and " + NatToString(2);
    assert a == "2 hours and 2";
    assert a + " minute" + Plural(2) == "2 hours and 2 minutes";
  }
}
