/** Times of day as the opening-hours pickers deliver them, and their
    `strftime("%H:%M")` rendering. */
module Clock {
  import opened Results

  /** The hour and minute of a `datetime.time`; seconds are not rendered. */
  datatype Time = Time(hour: int, minute: int)

  /** `datetime.time` only holds hours 0..23 and minutes 0..59. */
  type TimeOfDay = t: Time | 0 <= t.hour < 24 && 0 <= t.minute < 60 witness Time(0, 0)

  predicate IsDigit(c: char) {
    '0' <= c <= '9'
  }

  function Digit(n: int): char
    requires 0 <= n < 10
  {
    ('0' as int + n) as char
  }

  function DigitValue(c: char): int
    requires IsDigit(c)
  {
    c as int - '0' as int
  }

  /** `%02d`: two decimal digits, zero-padded. */
  function TwoDigits(n: int): (s: string)
    requires 0 <= n < 100
    ensures |s| == 2 && IsDigit(s[0]) && IsDigit(s[1])
    ensures DigitValue(s[0]) * 10 + DigitValue(s[1]) == n
  {
    [Digit(n / 10), Digit(n % 10)]
  }

  /** `t.strftime("%H:%M")`: always five characters, digits around a colon. */
  function FormatHHMM(t: TimeOfDay): (s: string)
    ensures |s| == 5 && s[2] == ':'
    ensures IsDigit(s[0]) && IsDigit(s[1]) && IsDigit(s[3]) && IsDigit(s[4])
  {
    TwoDigits(t.hour) + ":" + TwoDigits(t.minute)
  }

  /** Reads an `HH:MM` string back, rejecting anything that is not a valid
      24-hour time written with exactly two digits on each side. */
  function ParseHHMM(s: string): Option<TimeOfDay> {
    if |s| == 5 && s[2] == ':' && IsDigit(s[0]) && IsDigit(s[1]) && IsDigit(s[3]) && IsDigit(s[4]) then
      var h := DigitValue(s[0]) * 10 + DigitValue(s[1]);
      var m := DigitValue(s[3]) * 10 + DigitValue(s[4]);
      if h < 24 && m < 60 then Some(Time(h, m)) else None
    else
      None
  }

  /** Reading back a rendered time gives the same hour and minute. */
  lemma ParseFormat(t: TimeOfDay)
    ensures ParseHHMM(FormatHHMM(t)) == Some(t)
  {
    var s := FormatHHMM(t);
    assert s[..2] == TwoDigits(t.hour) && s[3..] == TwoDigits(t.minute);
    assert s[0] == s[..2][0] && s[1] == s[..2][1];
    assert s[3] == s[3..][0] && s[4] == s[3..][1];
  }

  /** Every string `ParseHHMM` accepts is exactly the rendering of the time it
      reads: the `HH:MM` form is canonical. */
  lemma FormatParse(s: string)
    requires ParseHHMM(s).Some?
    ensures FormatHHMM(ParseHHMM(s).value) == s
  {
    var t := ParseHHMM(s).value;
    var r := FormatHHMM(t);
    assert r[..2] == TwoDigits(t.hour) && r[3..] == TwoDigits(t.minute);
    assert r[0] == r[..2][0] && r[1] == r[..2][1];
    assert r[3] == r[3..][0] && r[4] == r[3..][1];
  }
}
