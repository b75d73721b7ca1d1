/** `formatTime12h`: the form's "HH:MM" time as the calendar cards and the dashboard
    table show it, "2:30 PM". */
module TimeFormat {
  import opened Wrappers
  import opened DecimalText
  import opened Text

  /** JavaScript's `%` for a positive divisor: the remainder takes the sign of the
      dividend. */
  function TruncRem(a: int, b: int): (r: int)
    requires b > 0
    ensures -b < r < b
    ensures a >= 0 ==> r == a % b
    ensures a < 0 ==> r <= 0 && -r == (-a) % b
  {
    if a >= 0 then a % b else -((-a) % b)
  }

  /** `hour % 12 || 12`: NaN and a zero remainder are falsy and give 12. */
  function Hour12(hour: Option<int>): (r: int)
    ensures hour.None? ==> r == 12
    ensures hour.Some? && hour.value >= 0 ==> 1 <= r <= 12 && r % 12 == hour.value % 12
  {
    match hour
    case None => 12
    case Some(h) => if TruncRem(h, 12) == 0 then 12 else TruncRem(h, 12)
  }

  /** `hour >= 12`, which is false for NaN. */
  function Meridiem(hour: Option<int>): string {
    if hour.Some? && hour.value >= 12 then "PM" else "AM"
  }

  /** `formatTime12h(time)`: empty for an empty time; otherwise the text before the
      first colon read with `parseInt`, the text after it (the word "undefined" when
      there is no colon) and the half of the day. */
  function FormatTime12h(time: string): string {
    if time == "" then ""
    else
      var parts := Split(time, ':');
      var minutes := if |parts| >= 2 then parts[1] else "undefined";
      var hour := ParseInt(parts[0]);
      IntToString(Hour12(hour)) + ":" + minutes + " " + Meridiem(hour)
  }

  /** A well-formed time "HH:MM" shows hour HH on the 12-hour clock (12 for 0 and 12),
      the minutes unchanged, and "PM" from 12 on. */
  lemma FormatTime12hSpec(h: nat, minutes: string)
    requires ':' !in minutes
    ensures FormatTime12h(Digits(h, 2) + ":" + minutes) ==
              Decimal(if h % 12 == 0 then 12 else h % 12) + ":" + minutes + " " + (if h >= 12 then "PM" else "AM")
  {
    var hh := Digits(h, 2);
    DigitsValue(h, 2);
    assert ':' !in hh;
    assert hh + ":" + minutes == hh + [':'] + minutes;
    SplitConcat(hh, ':', minutes);
    SplitNone(minutes, ':');
    ParseIntDigits(h, 2);
  }

  /** For the hours of a day the 12-hour text determines the hour: the shown hour lies
      in 1..12 and, with the half of the day, gives the 24-hour value back. */
  lemma TwelveHourRoundTrip(h: int)
    requires 0 <= h < 24
    ensures 1 <= Hour12(Some(h)) <= 12
    ensures Hour12(Some(h)) % 12 + (if Meridiem(Some(h)) == "PM" then 12 else 0) == h
  {
  }

  lemma EmptyTime()
    ensures FormatTime12h("") == ""
  {
  }

  /** "HH:MM" with a two-digit hour is that hour's `Digits` text, a colon and the
      minutes. */
  lemma TimeText(t: string, h: nat, minutes: string)
    requires h < 24 && |t| == 3 + |minutes| && t[2] == ':' && t[3..] == minutes
    requires t[0] as int - '0' as int == h / 10 && t[1] as int - '0' as int == h % 10
    ensures t == Digits(h, 2) + ":" + minutes
  {
    assert Digits(h, 2) == [t[0], t[1]];
  }

  /** "14:30" shows as "2:30 PM". */
  lemma AfternoonExample(t: string)
    requires t == "14:30"
    ensures FormatTime12h(t) == "2:30 PM"
  {
    TimeText(t, 14, "30");
    FormatTime12hSpec(14, "30");
    assert Decimal(2) == "2";
    assert Decimal(2) + ":" + "30" + " " + "PM" == "2:30 PM";
  }

  /** "00:05" shows as "12:05 AM". */
  lemma MidnightExample(t: string)
    requires t == "00:05"
    ensures FormatTime12h(t) == "12:05 AM"
  {
    TimeText(t, 0, "05");
    FormatTime12hSpec(0, "05");
    assert FormatTime12h(t) == Decimal(12) + ":" + "05" + " " + "AM";
    assert Decimal(12) == "12";
    assert Decimal(12) + ":" + "05" + " " + "AM" == "12:05 AM";
  }

  /** "12:00" shows as "12:00 PM". */
  lemma NoonExample(t: string)
    requires t == "12:00"
    ensures FormatTime12h(t) == "12:00 PM"
  {
    TimeText(t, 12, "00");
    FormatTime12hSpec(12, "00");
    assert Decimal(12) == "12";
  }

  /** A negative hour, which the time input never delivers, keeps its sign. */
  lemma NegativeHourExample(t: string)
    requires t == "-3:00"
    ensures FormatTime12h(t) == "-3:00 AM"
  {
    assert t == "-3" + [':'] + "00";
    SplitConcat("-3", ':', "00");
    SplitNone("00", ':');
    assert Split(t, ':') == ["-3", "00"];
    assert TrimStart("-3") == "-3";
    assert DigitPrefix("3") == "3";
    assert ParseInt("-3") == Some(-3);
    assert Decimal(3) == "3";
    assert IntToString(Hour12(Some(-3))) == "-3";
  }

  /** A time without a colon keeps the destructured `undefined` in the text. */
  lemma NoColonExample(t: string)
    requires t == "9"
    ensures FormatTime12h(t) == "9:undefined AM"
  {
    SplitNone(t, ':');
    assert t == Digits(9, 1);
    ParseIntDigits(9, 1);
    assert IntToString(Hour12(Some(9))) == "9";
  }
}
