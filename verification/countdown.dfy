/** The clock window's countdown footer (`CountdownTimer.get_time_remaining`):
    the number of seconds until the target date, rendered as
    "D days, HH hrs, MM mins, SS secs", or "Countdown over!" once the target
    is reached. The wall-clock read is the parameter `timeLeft`, the value of
    `secsTo(end_time)`. */
module CountdownTimer {
  import opened Text
  import opened Results

  const SecondsPerDay: nat := 24 * 60 * 60
  const OverText: string := "Countdown over!"

  /** The time left, decomposed: nothing, or whole days plus a time of day. */
  datatype Remaining = Over | Left(days: nat, hours: nat, minutes: nat, seconds: nat)

  /** A time of day in its natural ranges. */
  predicate InRange(r: Remaining)
  {
    r.Left? ==> r.hours < 24 && r.minutes < 60 && r.seconds < 60
  }

  /** The number of seconds a decomposition stands for. */
  function Seconds(r: Remaining): int
  {
    match r
    case Over => 0
    case Left(d, h, m, s) => d * SecondsPerDay + h * 3600 + m * 60 + s
  }

  /** `QTime(0, 0, 0).addSecs(secs)`, as seconds since midnight: Qt wraps the
      clock around at 24 hours. */
  function MidnightPlus(secs: int): (t: nat)
    ensures t < SecondsPerDay
    ensures 0 <= secs < SecondsPerDay ==> t == secs
    ensures (secs - t) % SecondsPerDay == 0
  {
    secs % SecondsPerDay
  }

  /** The arithmetic of `get_time_remaining`: whole days by floor division,
      the rest of the day through a `QTime` starting at midnight. Any positive
      number of seconds is split exactly, with every field in range. */
  function Decompose(timeLeft: int): (r: Remaining)
    ensures timeLeft <= 0 <==> r.Over?
    ensures InRange(r)
    ensures r.Left? ==> Seconds(r) == timeLeft
    ensures r.Left? ==> r.days == timeLeft / SecondsPerDay
  {
    if timeLeft <= 0 then Over
    else
      var days := timeLeft / SecondsPerDay;
      var rest := timeLeft - days * SecondsPerDay;
      var t := MidnightPlus(rest);
      Left(days, t / 3600, t % 3600 / 60, t % 60)
  }

  /** The footer text for a decomposition; Qt's `hh`, `mm` and `ss` formats
      pad to two digits, Python's f-string prints the days as they are. */
  function Render(r: Remaining): string
    requires InRange(r)
  {
    match r
    case Over => OverText
    case Left(d, h, m, s) =>
      NatToString(d) + " days, " + Pad2(h) + " hrs, " + Pad2(m) + " mins, " + Pad2(s) + " secs"
  }

  /** `get_time_remaining()` for a given `secsTo` value. The text is
      "Countdown over!" exactly when no time is left, and otherwise it reads
      back as the days, hours, minutes and seconds the time splits into. */
  function TimeRemaining(timeLeft: int): (text: string)
    ensures text == OverText <==> timeLeft <= 0
    ensures timeLeft > 0 ==> Parse(text) == Some(Decompose(timeLeft))
  {
    var r := Decompose(timeLeft);
    if r.Over? then Render(r)
    else
      RenderRoundTrip(r);
      Render(r)
  }

  /** Reads a rendered countdown back: the days are every digit before the
      fixed-width tail " days, HH hrs, MM mins, SS secs", written as `str`
      writes a number, without leading zeros. Anything else,
      "Countdown over!" included, gives None. */
  function Parse(text: string): Option<Remaining>
  {
    var n := |text|;
    if n < 32 then None
    else
      var days := text[..n - 31];
      var tail := text[n - 31..];
      if && AllDigits(days) && (|days| == 1 || days[0] != '0')
         && tail[..7] == " days, " && AllDigits(tail[7..9])
         && tail[9..15] == " hrs, " && AllDigits(tail[15..17])
         && tail[17..24] == " mins, " && AllDigits(tail[24..26])
         && tail[26..] == " secs"
      then Some(Left(DigitsValue(days), DigitsValue(tail[7..9]), DigitsValue(tail[15..17]), DigitsValue(tail[24..26])))
      else None
  }

  /** Parsing a rendered time left gives back the decomposition it came from. */
  lemma RenderRoundTrip(r: Remaining)
    requires r.Left? && InRange(r)
    ensures Parse(Render(r)) == Some(r)
  {
    var d := NatToString(r.days);
    var h := Pad2(r.hours);
    var m := Pad2(r.minutes);
    var s := Pad2(r.seconds);
    var tail := " days, " + h + " hrs, " + m + " mins, " + s + " secs";
    var text := d + tail;
    assert Render(r) == text;
    assert |tail| == 31;
    assert text[..|text| - 31] == d;
    assert text[|text| - 31..] == tail;
    assert tail[..7] == " days, ";
    assert tail[7..9] == h;
    assert tail[9..15] == " hrs, ";
    assert tail[15..17] == m;
    assert tail[17..24] == " mins, ";
    assert tail[24..26] == s;
    assert tail[26..] == " secs";
    NatToStringRoundTrip(r.days);
  }

  /** The footer text determines the number of seconds left: any positive
      count reads back exactly, and an elapsed countdown reads back as nothing. */
  lemma CountdownReadsBack(timeLeft: int)
    ensures timeLeft > 0 ==>
              (Parse(TimeRemaining(timeLeft)).Some? && Seconds(Parse(TimeRemaining(timeLeft)).value) == timeLeft)
    ensures timeLeft <= 0 ==> Parse(TimeRemaining(timeLeft)).None?
  {
  }

  /** Two different positive counts never show the same text. */
  lemma CountdownTextInjective(a: int, b: int)
    requires a > 0 && b > 0 && a != b
    ensures TimeRemaining(a) != TimeRemaining(b)
  {
    CountdownReadsBack(a);
    CountdownReadsBack(b);
  }
}
