/** Local wall-clock arithmetic on instants given as integer milliseconds
    since the epoch in the browser's time zone, and the `HH:mm` text that
    date-fns and moment produce and the interview form parses back. */
module Clock {
  import opened Types
  import opened Strings

  const MsPerMinute: int := 60 * 1000
  const MsPerHour: int := 60 * MsPerMinute
  const MsPerDay: int := 24 * MsPerHour

  /** The day an instant falls on, counted from the epoch (floor division). */
  function DayOf(t: int): int {
    t / MsPerDay
  }

  /** Local midnight of the instant's day. */
  function StartOfDay(t: int): int {
    DayOf(t) * MsPerDay
  }

  function HourOf(t: int): nat {
    (t % MsPerDay) / MsPerHour
  }

  function MinuteOf(t: int): nat {
    (t % MsPerHour) / MsPerMinute
  }

  /** Seconds and milliseconds past the minute, in milliseconds. */
  function SubMinute(t: int): nat {
    t % MsPerMinute
  }

  /** Quotient and remainder are determined by a split of the dividend. */
  lemma DivModDay(t: int, q: int, r: int)
    requires 0 <= r < MsPerDay && t == q * MsPerDay + r
    ensures t / MsPerDay == q && t % MsPerDay == r
  {
  }

  lemma DivModHour(t: int, q: int, r: int)
    requires 0 <= r < MsPerHour && t == q * MsPerHour + r
    ensures t / MsPerHour == q && t % MsPerHour == r
  {
  }

  lemma DivModMinute(t: int, q: int, r: int)
    requires 0 <= r < MsPerMinute && t == q * MsPerMinute + r
    ensures t / MsPerMinute == q && t % MsPerMinute == r
  {
  }

  /** An instant is its day, hour, minute and the milliseconds past the minute,
      and each of these is determined by the instant. */
  lemma Compose(day: int, h: int, m: int, ms: int)
    requires 0 <= h < 24 && 0 <= m < 60 && 0 <= ms < MsPerMinute
    ensures var t := day * MsPerDay + h * MsPerHour + m * MsPerMinute + ms;
            DayOf(t) == day && HourOf(t) == h && MinuteOf(t) == m && SubMinute(t) == ms
  {
    var inHour := m * MsPerMinute + ms;
    var inDay := h * MsPerHour + inHour;
    var t := day * MsPerDay + inDay;
    DivModDay(t, day, inDay);
    DivModHour(inDay, h, inHour);
    DivModHour(t, day * 24 + h, inHour);
    DivModMinute(inHour, m, ms);
    DivModMinute(t, (day * 24 + h) * 60 + m, ms);
  }

  lemma Decompose(t: int)
    ensures HourOf(t) < 24 && MinuteOf(t) < 60 && SubMinute(t) < MsPerMinute
    ensures t == DayOf(t) * MsPerDay + HourOf(t) * MsPerHour + MinuteOf(t) * MsPerMinute + SubMinute(t)
  {
    var q, r := t / MsPerDay, t % MsPerDay;
    var u := r % MsPerHour;
    assert r == (r / MsPerHour) * MsPerHour + u;
    DivModHour(t, q * 24 + r / MsPerHour, u);
    assert u == (u / MsPerMinute) * MsPerMinute + u % MsPerMinute;
    DivModMinute(t, (q * 24 + r / MsPerHour) * 60 + u / MsPerMinute, u % MsPerMinute);
  }

  /** Date.prototype.setHours with one argument, for an hour of the day: the
      day, the minutes and what lies below them stay. */
  function SetHours(t: int, h: nat): (r: int)
    requires h < 24
    ensures DayOf(r) == DayOf(t) && HourOf(r) == h
    ensures MinuteOf(r) == MinuteOf(t) && SubMinute(r) == SubMinute(t)
  {
    Decompose(t);
    Compose(DayOf(t), h, MinuteOf(t), SubMinute(t));
    DayOf(t) * MsPerDay + h * MsPerHour + MinuteOf(t) * MsPerMinute + SubMinute(t)
  }

  /** Date.prototype.setMinutes with one argument, for a minute of the hour. */
  function SetMinutes(t: int, m: nat): (r: int)
    requires m < 60
    ensures DayOf(r) == DayOf(t) && HourOf(r) == HourOf(t)
    ensures MinuteOf(r) == m && SubMinute(r) == SubMinute(t)
  {
    Decompose(t);
    Compose(DayOf(t), HourOf(t), m, SubMinute(t));
    DayOf(t) * MsPerDay + HourOf(t) * MsPerHour + m * MsPerMinute + SubMinute(t)
  }

  // ----- HH:mm -----

  datatype ClockTime = ClockTime(hours: nat, minutes: nat)

  predicate ValidClockTime(c: ClockTime) {
    c.hours < 24 && c.minutes < 60
  }

  /** A number below a hundred as two digits, zero-padded. */
  function Pad2(n: nat): (s: string)
    requires n < 100
    ensures |s| == 2 && IsDigit(s[0]) && IsDigit(s[1])
    ensures DigitValue(s[0]) * 10 + DigitValue(s[1]) == n
  {
    [DigitChar(n / 10), DigitChar(n % 10)]
  }

  /** `format(d, "HH:mm")` (date-fns) and `moment(d).format('HH:mm')`. */
  function FormatTime(c: ClockTime): string
    requires ValidClockTime(c)
  {
    Pad2(c.hours) + ":" + Pad2(c.minutes)
  }

  /** `/^([01]\d|2[0-3]):([0-5]\d)$/`. */
  predicate TimePattern(s: string) {
    && |s| == 5
    && ((('0' == s[0] || s[0] == '1') && IsDigit(s[1])) || (s[0] == '2' && '0' <= s[1] <= '3'))
    && s[2] == ':'
    && '0' <= s[3] <= '5' && IsDigit(s[4])
  }

  /** `time.split(':').map(Number)` on a string the pattern accepts; None when
      the pattern refuses it. The accepted strings are exactly the formatted
      clock times. */
  function ParseTime(s: string): (r: Option<ClockTime>)
    ensures r.Some? <==> TimePattern(s)
    ensures r.Some? ==> ValidClockTime(r.value) && FormatTime(r.value) == s
  {
    if TimePattern(s) then
      var c := ClockTime(DigitValue(s[0]) * 10 + DigitValue(s[1]), DigitValue(s[3]) * 10 + DigitValue(s[4]));
      assert Pad2(c.hours) == s[..2] && Pad2(c.minutes) == s[3..];
      assert s == s[..2] + ":" + s[3..];
      Some(c)
    else None
  }

  /** Every clock time reads back from its formatted text. */
  lemma ParseFormatted(c: ClockTime)
    requires ValidClockTime(c)
    ensures ParseTime(FormatTime(c)) == Some(c)
  {
    var s := FormatTime(c);
    assert s[0] == Pad2(c.hours)[0] && s[1] == Pad2(c.hours)[1];
    assert s[3] == Pad2(c.minutes)[0] && s[4] == Pad2(c.minutes)[1];
  }
}
