/** The proleptic Gregorian calendar that JavaScript's `Date` implements, reduced to
    what the page uses: local calendar dates, stepping one day, the weekday, the
    `YYYY-MM-DD` date key, the header text "January 18, 2023" and month navigation. */
module Calendar {
  import opened Wrappers
  import opened DecimalText
  import opened Text

  /** A local calendar date as `getFullYear()`, `getMonth()` and `getDate()` report
      it: the month counts from 0 (January) to 11 (December). */
  datatype Date = Date(year: int, month: int, day: int)

  predicate IsLeapYear(y: int) {
    y % 4 == 0 && (y % 100 != 0 || y % 400 == 0)
  }

  function DaysInMonth(y: int, m: int): int
    requires 0 <= m < 12
  {
    if m == 1 then (if IsLeapYear(y) then 29 else 28)
    else if m == 3 || m == 5 || m == 8 || m == 10 then 30
    else 31
  }

  function DaysInYear(y: int): int {
    if IsLeapYear(y) then 366 else 365
  }

  /** Every value a `Date` object can report is a valid date. */
  predicate IsValid(d: Date) {
    0 <= d.month < 12 && 1 <= d.day <= DaysInMonth(d.year, d.month)
  }

  /** The days of the months of year y that come before month m (0 <= m <= 12). */
  function DaysBeforeMonth(y: int, m: int): int
    requires 0 <= m <= 12
  {
    [0, 31, 59, 90, 120, 151, 181, 212, 243, 273, 304, 334, 365][m]
    + (if m >= 2 && IsLeapYear(y) then 1 else 0)
  }

  /** Month m of year y is followed by month m + 1, and the twelve months fill the year. */
  lemma DaysBeforeMonthStep(y: int, m: int)
    requires 0 <= m < 12
    ensures DaysBeforeMonth(y, m + 1) == DaysBeforeMonth(y, m) + DaysInMonth(y, m)
    ensures DaysBeforeMonth(y, 12) == DaysInYear(y)
  {
  }

  /** The days from 1 January of year 0 to 1 January of year y (negative for y < 0). */
  function DaysBeforeYear(y: int): int
    decreases if y >= 0 then y else -y
  {
    if y == 0 then 0
    else if y > 0 then DaysBeforeYear(y - 1) + DaysInYear(y - 1)
    else DaysBeforeYear(y + 1) - DaysInYear(y)
  }

  /** The day number of a date: 0 is 1 January of year 0, consecutive days have
      consecutive numbers. */
  function DayNumber(d: Date): int
    requires 0 <= d.month < 12
  {
    DaysBeforeYear(d.year) + DaysBeforeMonth(d.year, d.month) + d.day - 1
  }

  /** A year has as many days as its own calendar says. */
  lemma DaysBeforeNextYear(y: int)
    ensures DaysBeforeYear(y + 1) == DaysBeforeYear(y) + DaysInYear(y)
  {
  }

  /** `getDay()`: 0 for Sunday up to 6 for Saturday. Day number 0, 1 January of
      year 0 in the proleptic Gregorian calendar, was a Saturday. */
  function Weekday(d: Date): (w: int)
    requires 0 <= d.month < 12
    ensures 0 <= w < 7
  {
    (DayNumber(d) + 6) % 7
  }

  /** The page's initial date, 18 January 2023, was a Wednesday, and 1 January 2023 a
      Sunday. */
  lemma InitialDateIsWednesday()
    ensures Weekday(Date(2023, 0, 18)) == 3
    ensures Weekday(Date(2023, 0, 1)) == 0
  {
    WeekdayInJanuary(2023, 18);
    WeekdayInJanuary(2023, 1);
  }

  /** The weekday of a day in January of year y >= 0, by the closed form of the days
      before that year. */
  lemma WeekdayInJanuary(y: nat, day: int)
    requires 1 <= day <= 31
    ensures Weekday(Date(y, 0, day)) == (365 * y + (y + 3) / 4 - (y + 99) / 100 + (y + 399) / 400 + day + 5) % 7
  {
    DaysBeforeYearClosed(y);
  }

  /** The days before year y >= 0: 365 for each year and one more for each leap year. */
  lemma {:induction false} DaysBeforeYearClosed(y: nat)
    ensures DaysBeforeYear(y) == 365 * y + (y + 3) / 4 - (y + 99) / 100 + (y + 399) / 400
  {
    if y > 0 {
      var x := y - 1;
      DaysBeforeYearClosed(x);
      LeapDays(x);
      assert DaysBeforeYear(y) == DaysBeforeYear(x) + DaysInYear(x);
    }
  }

  /** Year x has 365 days, one more if 4 divides it, one less again if 100 does, and
      one more again if 400 does; each counter below steps up exactly at its multiples. */
  lemma LeapDays(x: nat)
    ensures DaysInYear(x) == 365 + ((x + 4) / 4 - (x + 3) / 4)
      - ((x + 100) / 100 - (x + 99) / 100) + ((x + 400) / 400 - (x + 399) / 400)
  {
    CounterStep4(x);
    CounterStep100(x);
    CounterStep400(x);
    if x % 400 == 0 {
      CenturyMultiples(x / 400);
      assert x == 400 * (x / 400);
    }
    if x % 100 == 0 {
      CenturyMultiples(x / 100);
      assert x == 100 * (x / 100);
    }
  }

  /** The counters of multiples of 4, 100 and 400 below x + 1 step up at x exactly when
      x is such a multiple. */
  lemma CounterStep4(x: nat)
    ensures (x + 4) / 4 - (x + 3) / 4 == if x % 4 == 0 then 1 else 0
  {
  }

  lemma CounterStep100(x: nat)
    ensures (x + 100) / 100 - (x + 99) / 100 == if x % 100 == 0 then 1 else 0
  {
  }

  lemma CounterStep400(x: nat)
    ensures (x + 400) / 400 - (x + 399) / 400 == if x % 400 == 0 then 1 else 0
  {
  }

  /** Multiples of 400 are multiples of 100, and multiples of 100 are multiples of 4. */
  lemma CenturyMultiples(q: int)
    ensures (400 * q) % 100 == 0 && (100 * q) % 4 == 0
  {
    assert 400 * q == 100 * (4 * q);
    assert 100 * q == 4 * (25 * q);
  }

  /** The date after d (what `setDate(getDate() + 1)` leaves). */
  function NextDay(d: Date): (r: Date)
    requires IsValid(d)
    ensures IsValid(r)
  {
    if d.day < DaysInMonth(d.year, d.month) then Date(d.year, d.month, d.day + 1)
    else if d.month < 11 then Date(d.year, d.month + 1, 1)
    else Date(d.year + 1, 0, 1)
  }

  /** The date before d (what `setDate(getDate() - 1)` leaves). */
  function PrevDay(d: Date): (r: Date)
    requires IsValid(d)
    ensures IsValid(r)
  {
    if d.day > 1 then Date(d.year, d.month, d.day - 1)
    else if d.month > 0 then Date(d.year, d.month - 1, DaysInMonth(d.year, d.month - 1))
    else Date(d.year - 1, 11, 31)
  }

  /** The next day has the next day number, the previous day the previous one. */
  lemma NextPrevDayNumber(d: Date)
    requires IsValid(d)
    ensures DayNumber(NextDay(d)) == DayNumber(d) + 1
    ensures DayNumber(PrevDay(d)) == DayNumber(d) - 1
  {
    if d.day < DaysInMonth(d.year, d.month) {
    } else if d.month < 11 {
      DaysBeforeMonthStep(d.year, d.month);
    } else {
      DaysBeforeNextYear(d.year);
    }
    if d.day > 1 {
    } else if d.month > 0 {
      DaysBeforeMonthStep(d.year, d.month - 1);
    } else {
      DaysBeforeNextYear(d.year - 1);
    }
  }

  /** Stepping back a day and forward a day returns to the same date. */
  lemma NextPrevInverse(d: Date)
    requires IsValid(d)
    ensures NextDay(PrevDay(d)) == d
    ensures PrevDay(NextDay(d)) == d
  {
    if d.day > 1 {
    } else if d.month > 0 {
      assert PrevDay(d) == Date(d.year, d.month - 1, DaysInMonth(d.year, d.month - 1));
    } else {
      assert PrevDay(d) == Date(d.year - 1, 11, 31);
    }
    if d.day < DaysInMonth(d.year, d.month) {
    } else if d.month < 11 {
      assert NextDay(d) == Date(d.year, d.month + 1, 1);
    } else {
      assert NextDay(d) == Date(d.year + 1, 0, 1);
    }
  }

  /** The date n days after d. */
  function AddDays(d: Date, n: nat): (r: Date)
    requires IsValid(d)
    ensures IsValid(r)
    decreases n
  {
    if n == 0 then d else AddDays(NextDay(d), n - 1)
  }

  /** The date n days before d (what `setDate(getDate() - n)` leaves). */
  function SubDays(d: Date, n: nat): (r: Date)
    requires IsValid(d)
    ensures IsValid(r)
    decreases n
  {
    if n == 0 then d else SubDays(PrevDay(d), n - 1)
  }

  /** n days forward adds n to the day number. */
  lemma {:induction false} AddDaysDayNumber(d: Date, n: nat)
    requires IsValid(d)
    ensures DayNumber(AddDays(d, n)) == DayNumber(d) + n
    decreases n
  {
    if n > 0 {
      var q := NextDay(d);
      NextPrevDayNumber(d);
      AddDaysDayNumber(q, n - 1);
      assert AddDays(d, n) == AddDays(q, n - 1);
    }
  }

  /** n days back subtracts n from the day number. */
  lemma {:induction false} SubDaysDayNumber(d: Date, n: nat)
    requires IsValid(d)
    ensures DayNumber(SubDays(d, n)) == DayNumber(d) - n
    decreases n
  {
    if n > 0 {
      var p := PrevDay(d);
      NextPrevDayNumber(d);
      SubDaysDayNumber(p, n - 1);
      assert SubDays(d, n) == SubDays(p, n - 1);
    }
  }

  /** Going a days forward and then b more is going a + b days forward. */
  lemma {:induction false} AddDaysAdd(d: Date, a: nat, b: nat)
    requires IsValid(d)
    ensures AddDays(AddDays(d, a), b) == AddDays(d, a + b)
    decreases a
  {
    if a > 0 {
      AddDaysAdd(NextDay(d), a - 1, b);
    }
  }

  /** Going n days forward undoes going n days back. */
  lemma {:induction false} AddSubInverse(d: Date, n: nat)
    requires IsValid(d)
    ensures AddDays(SubDays(d, n), n) == d
    decreases n
  {
    if n > 0 {
      var p := PrevDay(d);
      var start := SubDays(p, n - 1);
      assert SubDays(d, n) == start;
      AddSubInverse(p, n - 1);
      AddDaysAdd(start, n - 1, 1);
      assert AddDays(p, 1) == AddDays(NextDay(p), 0);
      NextPrevInverse(d);
    }
  }

  /** Inside a month, going k days forward from day d reaches day d + k of it. */
  lemma {:induction false} AddDaysWithinMonth(y: int, m: int, d: int, k: nat)
    requires 0 <= m < 12 && 1 <= d && d + k <= DaysInMonth(y, m)
    ensures AddDays(Date(y, m, d), k) == Date(y, m, d + k)
  {
    if k > 0 {
      AddDaysWithinMonth(y, m, d, k - 1);
      AddDaysAdd(Date(y, m, d), k - 1, 1);
    }
  }

  /** Inside a month, going k days back from day d reaches day d - k of it. */
  lemma {:induction false} SubDaysWithinMonth(y: int, m: int, d: int, k: nat)
    requires 0 <= m < 12 && k < d <= DaysInMonth(y, m)
    ensures SubDays(Date(y, m, d), k) == Date(y, m, d - k)
    decreases k
  {
    if k > 0 {
      SubDaysWithinMonth(y, m, d - 1, k - 1);
    }
  }

  /** Moving n days moves the weekday n places round the week. */
  lemma WeekdayShift(a: Date, b: Date, n: int)
    requires 0 <= a.month < 12 && 0 <= b.month < 12
    requires DayNumber(b) == DayNumber(a) + n
    ensures Weekday(b) == (Weekday(a) + n) % 7
  {
    var x := DayNumber(a) + 6;
    assert x == 7 * (x / 7) + Weekday(a);
    assert x + n == 7 * (x / 7) + (Weekday(a) + n);
  }

  /** Counting k days on from the Sunday on or before a gives weekday k % 7. */
  lemma WeekFromSunday(a: Date, b: Date, k: nat)
    requires 0 <= a.month < 12 && 0 <= b.month < 12
    requires DayNumber(b) == DayNumber(a) - Weekday(a) + k
    ensures Weekday(b) == k % 7
  {
    var x := DayNumber(a) + 6;
    var q := x / 7;
    assert x == 7 * q + Weekday(a);
    assert DayNumber(b) + 6 == 7 * q + k;
  }

  // ----- the date key -----

  /** The year as `toISOString` writes it: four digits for 0..9999, otherwise a sign
      and six digits. */
  function YearText(y: int): string {
    if 0 <= y <= 9999 then Digits(y, 4)
    else if y > 9999 then "+" + Digits(y, 6)
    else "-" + Digits(-y, 6)
  }

  /** `formatDateKey`: the date as `YYYY-MM-DD` with a one-based, zero-padded month
      and day. */
  function DateKey(d: Date): string
    requires IsValid(d)
  {
    YearText(d.year) + "-" + Digits(d.month + 1, 2) + "-" + Digits(d.day, 2)
  }

  function ParseYear(t: string): Option<int> {
    if |t| > 0 && t[0] == '+' && AllDigits(t[1..]) then Some(Value(t[1..]))
    else if AllDigits(t) then Some(Value(t))
    else None
  }

  /** Reads year, month and day pieces. */
  function ParseUnsigned(y: string, m: string, d: string): Option<Date> {
    if AllDigits(m) && AllDigits(d) then
      match ParseYear(y)
      case Some(year) => Some(Date(year, Value(m) - 1, Value(d)))
      case None => None
    else None
  }

  /** Reads the pieces after the empty piece that a leading '-' leaves. */
  function ParseNegative(y: string, m: string, d: string): Option<Date> {
    if AllDigits(y) && AllDigits(m) && AllDigits(d) then
      Some(Date(-(Value(y) as int), Value(m) - 1, Value(d)))
    else None
  }

  /** Reads the dash-separated pieces of a date key: year, month and day, or an empty
      piece before them for a negative year. */
  function ParsePieces(p: seq<string>): Option<Date> {
    if |p| == 3 then ParseUnsigned(p[0], p[1], p[2])
    else if |p| == 4 && p[0] == "" then ParseNegative(p[1], p[2], p[3])
    else None
  }

  /** Reads a date key back. */
  function ParseDateKey(s: string): Option<Date> {
    ParsePieces(Split(s, '-'))
  }

  lemma NoSignInDigits(s: string)
    requires AllDigits(s)
    ensures '-' !in s && '+' !in s && ' ' !in s && ',' !in s && ':' !in s
  {
  }

  /** Splitting "a-b-c" on '-' when a, b and c hold no dash. */
  lemma SplitThree(a: string, b: string, c: string)
    requires '-' !in a && '-' !in b && '-' !in c
    ensures Split(a + "-" + b + "-" + c, '-') == [a, b, c]
  {
    assert a + "-" + b + "-" + c == a + ['-'] + (b + ['-'] + c);
    SplitConcat(a, '-', b + ['-'] + c);
    SplitConcat(b, '-', c);
    SplitNone(c, '-');
  }

  lemma KeyDigits(d: Date)
    requires IsValid(d)
    ensures AllDigits(Digits(d.month + 1, 2)) && Value(Digits(d.month + 1, 2)) == d.month + 1
    ensures AllDigits(Digits(d.day, 2)) && Value(Digits(d.day, 2)) == d.day
    ensures '-' !in Digits(d.month + 1, 2) && '-' !in Digits(d.day, 2)
  {
    DigitsValue(d.month + 1, 2);
    DigitsValue(d.day, 2);
    NoSignInDigits(Digits(d.month + 1, 2));
    NoSignInDigits(Digits(d.day, 2));
  }

  lemma YearTextParse(y: int)
    requires y >= 0
    ensures '-' !in YearText(y) && ParseYear(YearText(y)) == Some(y)
  {
    if y <= 9999 {
      DigitsValue(y, 4);
      NoSignInDigits(Digits(y, 4));
    } else {
      var ds := Digits(y, 6);
      DigitsValue(y, 6);
      NoSignInDigits(ds);
      assert YearText(y)[1..] == ds;
    }
  }

  lemma KeySplitNonNegative(d: Date)
    requires IsValid(d) && d.year >= 0
    ensures Split(DateKey(d), '-') == [YearText(d.year), Digits(d.month + 1, 2), Digits(d.day, 2)]
  {
    KeyDigits(d);
    YearTextParse(d.year);
    SplitThree(YearText(d.year), Digits(d.month + 1, 2), Digits(d.day, 2));
  }

  /** Splitting "-a-b-c" on '-' when a, b and c hold no dash. */
  lemma SplitSignedThree(a: string, b: string, c: string)
    requires '-' !in a && '-' !in b && '-' !in c
    ensures Split("-" + a + "-" + b + "-" + c, '-') == ["", a, b, c]
  {
    var rest := a + "-" + b + "-" + c;
    assert "-" + a + "-" + b + "-" + c == [] + ['-'] + rest;
    SplitConcat([], '-', rest);
    SplitThree(a, b, c);
  }

  /** The key of a date before year 0: a sign, six year digits, the month and the day. */
  lemma NegativeKeyText(d: Date)
    requires IsValid(d) && d.year < 0
    ensures DateKey(d) == "-" + Digits(-d.year, 6) + "-" + Digits(d.month + 1, 2) + "-" + Digits(d.day, 2)
  {
  }

  lemma KeySplitNegative(d: Date)
    requires IsValid(d) && d.year < 0
    ensures Split(DateKey(d), '-') == ["", Digits(-d.year, 6), Digits(d.month + 1, 2), Digits(d.day, 2)]
  {
    var mm, dd, ds := Digits(d.month + 1, 2), Digits(d.day, 2), Digits(-d.year, 6);
    KeyDigits(d);
    DigitsValue(-d.year, 6);
    NoSignInDigits(ds);
    NegativeKeyText(d);
    SplitSignedThree(ds, mm, dd);
  }

  lemma KeyParseNonNegative(d: Date)
    requires IsValid(d) && d.year >= 0
    ensures ParseDateKey(DateKey(d)) == Some(d)
  {
    var mm, dd := Digits(d.month + 1, 2), Digits(d.day, 2);
    KeyDigits(d);
    KeySplitNonNegative(d);
    YearTextParse(d.year);
    assert ParseUnsigned(YearText(d.year), mm, dd) == Some(d);
  }

  lemma ParseNegativeOf(ys: string, ms: string, ds: string, d: Date)
    requires AllDigits(ys) && AllDigits(ms) && AllDigits(ds)
    requires Value(ys) == -d.year && Value(ms) == d.month + 1 && Value(ds) == d.day
    ensures ParseNegative(ys, ms, ds) == Some(d)
  {
  }

  lemma KeyParseNegative(d: Date)
    requires IsValid(d) && d.year < 0
    ensures ParseDateKey(DateKey(d)) == Some(d)
  {
    var mm, dd, ds := Digits(d.month + 1, 2), Digits(d.day, 2), Digits(-d.year, 6);
    KeyDigits(d);
    DigitsValue(-d.year, 6);
    ParseNegativeOf(ds, mm, dd, d);
    var p := Split(DateKey(d), '-');
    KeySplitNegative(d);
    assert |p| == 4 && p[0] == "" && p[1] == ds && p[2] == mm && p[3] == dd;
    assert ParsePieces(p) == ParseNegative(ds, mm, dd);
  }

  /** Every date key reads back as its date. */
  lemma DateKeyRoundTrip(d: Date)
    requires IsValid(d)
    ensures ParseDateKey(DateKey(d)) == Some(d)
  {
    if d.year >= 0 {
      KeyParseNonNegative(d);
    } else {
      KeyParseNegative(d);
    }
  }

  /** Two dates have the same key only if they are the same date. */
  lemma DateKeyInjective(a: Date, b: Date)
    requires IsValid(a) && IsValid(b) && DateKey(a) == DateKey(b)
    ensures a == b
  {
    DateKeyRoundTrip(a);
    DateKeyRoundTrip(b);
  }

  // ----- the order of date keys -----

  /** Zero-padded numbers of one width compare as text the way they compare as numbers. */
  lemma {:induction false} DigitsOrder(n: nat, m: nat, width: nat)
    requires width >= 1 && n < Pow10(width) && m < Pow10(width)
    ensures LexLe(Digits(n, width), Digits(m, width)) <==> n <= m
    decreases width
  {
    if width == 1 {
      assert Digits(n, 1) == [DigitChar(n)] && Digits(m, 1) == [DigitChar(m)];
    } else {
      var x, y := Digits(n / 10, width - 1), Digits(m / 10, width - 1);
      assert Digits(n, width) == x + [DigitChar(n % 10)];
      assert Digits(m, width) == y + [DigitChar(m % 10)];
      DigitsLength(n / 10, width - 1);
      DigitsLength(m / 10, width - 1);
      LexLeConcat(x, [DigitChar(n % 10)], y, [DigitChar(m % 10)]);
      if x == y {
        DigitsInjective(n / 10, m / 10, width - 1);
      } else {
        DigitsOrder(n / 10, m / 10, width - 1);
      }
    }
  }

  /** Years before year y have fewer days before them. */
  lemma {:induction false} DaysBeforeYearMonotone(x: int, y: int)
    requires x <= y
    ensures DaysBeforeYear(x) + (y - x) * 365 <= DaysBeforeYear(y)
    decreases y - x
  {
    if x < y {
      DaysBeforeYearMonotone(x, y - 1);
      DaysBeforeNextYear(y - 1);
    }
  }

  /** The days before a month grow with the month. */
  lemma DaysBeforeMonthMonotone(y: int, m: int, n: int)
    requires 0 <= m <= n <= 12
    ensures DaysBeforeMonth(y, m) + (n - m) * 28 <= DaysBeforeMonth(y, n)
  {
  }

  /** Day numbers follow the calendar order: by year, then month, then day. */
  lemma DayNumberOrder(a: Date, b: Date)
    requires IsValid(a) && IsValid(b)
    ensures DayNumber(a) <= DayNumber(b) <==>
      a.year < b.year || (a.year == b.year && (a.month < b.month || (a.month == b.month && a.day <= b.day)))
  {
    if a.year != b.year {
      var lo, hi := if a.year < b.year then a else b, if a.year < b.year then b else a;
      DaysBeforeYearMonotone(lo.year + 1, hi.year);
      DaysBeforeNextYear(lo.year);
      DaysBeforeMonthMonotone(lo.year, lo.month + 1, 12);
      DaysBeforeMonthStep(lo.year, lo.month);
    } else if a.month != b.month {
      var lo, hi := if a.month < b.month then a else b, if a.month < b.month then b else a;
      DaysBeforeMonthStep(lo.year, lo.month);
      DaysBeforeMonthMonotone(lo.year, lo.month + 1, hi.month);
    }
  }

  /** The key of a date of the years 0..9999 as the concatenation the comparison walks. */
  lemma KeyPieces(d: Date)
    requires IsValid(d) && 0 <= d.year <= 9999
    ensures DateKey(d) == Digits(d.year, 4) + ("-" + (Digits(d.month + 1, 2) + ("-" + Digits(d.day, 2))))
    ensures |Digits(d.year, 4)| == 4 && |Digits(d.month + 1, 2)| == 2
  {
    DigitsLength(d.year, 4);
    DigitsLength(d.month + 1, 2);
  }

  /** Comparing "MM-DD" texts compares by month, then by day. */
  lemma MonthDayTextOrder(a: Date, b: Date)
    requires IsValid(a) && IsValid(b)
    ensures var ma, da, mb, db := Digits(a.month + 1, 2), Digits(a.day, 2), Digits(b.month + 1, 2), Digits(b.day, 2);
      LexLe(ma + ("-" + da), mb + ("-" + db)) <==> a.month < b.month || (a.month == b.month && a.day <= b.day)
  {
    var ma, da, mb, db := Digits(a.month + 1, 2), Digits(a.day, 2), Digits(b.month + 1, 2), Digits(b.day, 2);
    DigitsLength(a.month + 1, 2);
    DigitsLength(b.month + 1, 2);
    LexLeConcat(ma, "-" + da, mb, "-" + db);
    LexLeConcat("-", da, "-", db);
    DigitsOrder(a.month + 1, b.month + 1, 2);
    DigitsOrder(a.day, b.day, 2);
    if ma == mb { DigitsInjective(a.month + 1, b.month + 1, 2); }
  }

  /** For the years 0..9999, whose keys have four-digit years, comparing two date keys as
      text compares the dates in time. */
  lemma DateKeyOrder(a: Date, b: Date)
    requires IsValid(a) && IsValid(b) && 0 <= a.year <= 9999 && 0 <= b.year <= 9999
    ensures LexLe(DateKey(a), DateKey(b)) <==> DayNumber(a) <= DayNumber(b)
  {
    var ya, yb := Digits(a.year, 4), Digits(b.year, 4);
    var ra := "-" + (Digits(a.month + 1, 2) + ("-" + Digits(a.day, 2)));
    var rb := "-" + (Digits(b.month + 1, 2) + ("-" + Digits(b.day, 2)));
    KeyPieces(a);
    KeyPieces(b);
    LexLeConcat(ya, ra, yb, rb);
    LexLeConcat("-", ra[1..], "-", rb[1..]);
    assert ra == "-" + ra[1..] && rb == "-" + rb[1..];
    MonthDayTextOrder(a, b);
    DigitsOrder(a.year, b.year, 4);
    if ya == yb { DigitsInjective(a.year, b.year, 4); }
    DayNumberOrder(a, b);
  }

  // ----- the header text -----

  const MonthNames: seq<string> := [
    "January", "February", "March", "April", "May", "June",
    "July", "August", "September", "October", "November", "December"
  ]

  /** `formatDisplayDate`: "January 18, 2023". */
  function DisplayDate(d: Date): string
    requires 0 <= d.month < 12
  {
    MonthNames[d.month] + " " + IntToString(d.day) + ", " + IntToString(d.year)
  }

  lemma MonthNamesDistinct()
    ensures forall i, j :: 0 <= i < j < 12 ==> MonthNames[i] != MonthNames[j]
  {
    forall i, j | 0 <= i < j < 12 ensures MonthNames[i] != MonthNames[j] {
      assert |MonthNames[i]| != |MonthNames[j]| || MonthNames[i][0] != MonthNames[j][0]
        || MonthNames[i][2] != MonthNames[j][2];
    }
  }

  function MonthIndex(name: string, from: nat): Option<int>
    requires from <= 12
    decreases 12 - from
  {
    if from == 12 then None
    else if MonthNames[from] == name then Some(from)
    else MonthIndex(name, from + 1)
  }

  /** Reads a header text back: the month name, the day followed by a comma, the year. */
  function ParseDisplayDate(s: string): Option<Date> {
    var p := Split(s, ' ');
    if |p| == 3 && |p[1]| > 0 && p[1][|p[1]| - 1] == ',' then
      match (MonthIndex(p[0], 0), ParseInt(p[1][..|p[1]| - 1]), ParseInt(p[2]))
      case (Some(m), Some(day), Some(y)) => Some(Date(y, m, day))
      case _ => None
    else None
  }

  lemma MonthIndexOf(m: int, from: nat)
    requires from <= m < 12
    ensures MonthIndex(MonthNames[m], from) == Some(m)
    decreases 12 - from
  {
    if from < m {
      MonthNamesDistinct();
      MonthIndexOf(m, from + 1);
    }
  }

  /** Every header text reads back as its date. */
  lemma DisplayDateRoundTrip(d: Date)
    requires 0 <= d.month < 12
    ensures ParseDisplayDate(DisplayDate(d)) == Some(d)
  {
    var name, day, year := MonthNames[d.month], IntToString(d.day), IntToString(d.year);
    assert ' ' !in name;
    IntToStringChars(d.day);
    IntToStringChars(d.year);
    assert ' ' !in day && ' ' !in year by {
      forall k | 0 <= k < |day| ensures day[k] != ' ' { }
      forall k | 0 <= k < |year| ensures year[k] != ' ' { }
    }
    var dayComma := day + ",";
    assert ' ' !in dayComma;
    assert DisplayDate(d) == name + [' '] + (dayComma + [' '] + year);
    SplitConcat(name, ' ', dayComma + [' '] + year);
    SplitConcat(dayComma, ' ', year);
    SplitNone(year, ' ');
    assert dayComma[..|dayComma| - 1] == day;
    MonthIndexOf(d.month, 0);
    ParseIntOfIntToString(d.day);
    ParseIntOfIntToString(d.year);
  }

  /** Two dates with the same header text are the same date. */
  lemma DisplayDateInjective(a: Date, b: Date)
    requires 0 <= a.month < 12 && 0 <= b.month < 12 && DisplayDate(a) == DisplayDate(b)
    ensures a == b
  {
    DisplayDateRoundTrip(a);
    DisplayDateRoundTrip(b);
  }

  // ----- month navigation -----

  /** The Date constructor of ECMA-262 (section 21.4.2.1) reads a year argument of
      0..99 as 1900 + year. */
  function DateCtorYear(y: int): int {
    if 0 <= y <= 99 then 1900 + y else y
  }

  /** The 1st of month m of year y, with a month outside 0..11 carried into the year
      (floor division and modulo by 12, as `new Date(y, m, 1)` does). */
  function FirstOfMonth(y: int, m: int): (r: Date)
    ensures IsValid(r) && r.day == 1
    ensures 12 * r.year + r.month == 12 * y + m
  {
    Date(y + m / 12, m % 12, 1)
  }

  /** `new Date(y, m, 1)` as the page calls it, including the two-digit-year rule. */
  function NewFirstOfMonth(y: int, m: int): Date {
    FirstOfMonth(DateCtorYear(y), m)
  }

  /** The previous-month button as written: `new Date(getFullYear(), getMonth() - 1, 1)`. */
  function PrevMonthAsWritten(d: Date): Date {
    NewFirstOfMonth(d.year, d.month - 1)
  }

  /** The next-month button as written: `new Date(getFullYear(), getMonth() + 1, 1)`. */
  function NextMonthAsWritten(d: Date): Date {
    NewFirstOfMonth(d.year, d.month + 1)
  }

  /** The previous-month button as intended: the 1st of the month before, December of
      the year before when d is in January. */
  function PrevMonth(d: Date): (r: Date)
    requires 0 <= d.month < 12
    ensures r == if d.month == 0 then Date(d.year - 1, 11, 1) else Date(d.year, d.month - 1, 1)
  {
    FirstOfMonth(d.year, d.month - 1)
  }

  /** The next-month button as intended: the 1st of the month after, January of the
      year after when d is in December. */
  function NextMonth(d: Date): (r: Date)
    requires 0 <= d.month < 12
    ensures r == if d.month == 11 then Date(d.year + 1, 0, 1) else Date(d.year, d.month + 1, 1)
  {
    FirstOfMonth(d.year, d.month + 1)
  }

  /** Forward then back (or back then forward) returns to the 1st of the same month. */
  lemma NavigationRoundTrip(d: Date)
    requires 0 <= d.month < 12
    ensures PrevMonth(NextMonth(d)) == Date(d.year, d.month, 1)
    ensures NextMonth(PrevMonth(d)) == Date(d.year, d.month, 1)
  {
  }

  /** Outside the years 0..99 the buttons as written behave as intended. */
  lemma NavigationAsWrittenAgrees(d: Date)
    requires 0 <= d.month < 12 && !(0 <= d.year <= 99)
    ensures PrevMonthAsWritten(d) == PrevMonth(d)
    ensures NextMonthAsWritten(d) == NextMonth(d)
  {
  }

  /** As written, going back from January of year 100 and forward again lands in
      January 2000: the intermediate December of year 99 is read as 1999. */
  lemma NavigationAsWrittenRoundTripFails()
    ensures PrevMonthAsWritten(Date(100, 0, 1)) == Date(99, 11, 1)
    ensures NextMonthAsWritten(PrevMonthAsWritten(Date(100, 0, 1))) == Date(2000, 0, 1)
  {
  }
}
