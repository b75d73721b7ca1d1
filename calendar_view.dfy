/** `renderCalendar`: the header texts and the 42-day grid of the month shown, each
    day with its flags, its label and the appointments booked on it. */
module CalendarView {
  import opened Wrappers
  import opened DecimalText
  import opened Lists
  import opened Calendar
  import opened Appointments

  /** One entry of the `days` array: a date and whether it lies in the month shown. */
  datatype DayInfo = DayInfo(date: Date, isCurrentMonth: bool)

  /** The 1st of the month shown, as `new Date(year, month, 1)` builds it. */
  function FirstShown(shown: Date): (r: Date)
    requires IsValid(shown)
    ensures IsValid(r) && r.day == 1 && r.month == shown.month
    ensures r.year == DateCtorYear(shown.year)
  {
    NewFirstOfMonth(shown.year, shown.month)
  }

  /** The date in cell k (0 <= k < 42): the grid starts on the Sunday on or before the
      1st and runs through consecutive days. */
  function GridDate(first: Date, k: nat): (r: Date)
    requires IsValid(first)
    ensures IsValid(r)
  {
    AddDays(SubDays(first, Weekday(first)), k)
  }

  /** Cell k lies k days after the first cell, which lies Weekday(first) days before
      the 1st. */
  lemma GridDayNumber(first: Date, k: nat)
    requires IsValid(first)
    ensures DayNumber(GridDate(first, k)) == DayNumber(first) - Weekday(first) + k
  {
    var start := SubDays(first, Weekday(first));
    SubDaysDayNumber(first, Weekday(first));
    AddDaysDayNumber(start, k);
  }

  /** The grid's columns are the days of the week from Sunday: cell k falls on weekday
      k % 7, so the first cell is a Sunday and the Friday cells are those with
      k % 7 == 5. */
  lemma GridWeekday(first: Date, k: nat)
    requires IsValid(first)
    ensures Weekday(GridDate(first, k)) == k % 7
    ensures Weekday(GridDate(first, k)) == 5 <==> k % 7 == 5
  {
    GridDayNumber(first, k);
    WeekFromSunday(first, GridDate(first, k), k);
  }

  /** Consecutive cells hold consecutive days. */
  lemma GridNext(first: Date, k: nat)
    requires IsValid(first)
    ensures GridDate(first, k + 1) == NextDay(GridDate(first, k))
  {
    var start := SubDays(first, Weekday(first));
    var here := AddDays(start, k);
    AddDaysAdd(start, k, 1);
    assert AddDays(here, 1) == AddDays(NextDay(here), 0);
  }

  /** Distinct cells hold distinct dates. */
  lemma GridDistinct(first: Date, j: nat, k: nat)
    requires IsValid(first)
    ensures GridDate(first, j) == GridDate(first, k) ==> j == k
  {
    GridDayNumber(first, j);
    GridDayNumber(first, k);
  }

  /** Going back w days (1 <= w <= 28) from the 1st of a month lands in the previous
      month, w days before its end. */
  lemma BackFromFirst(first: Date, w: nat)
    requires IsValid(first) && first.day == 1 && 1 <= w <= 28
    ensures var p := PrevMonth(first);
      SubDays(first, w) == Date(p.year, p.month, DaysInMonth(p.year, p.month) - w + 1)
  {
    var p := PrevMonth(first);
    var dp := DaysInMonth(p.year, p.month);
    assert PrevDay(first) == Date(p.year, p.month, dp);
    assert SubDays(first, w) == SubDays(PrevDay(first), w - 1);
    SubDaysWithinMonth(p.year, p.month, dp, w - 1);
  }

  /** Going forward k days from the 1st of a month: day k + 1 of it while that exists,
      then the first days of the next month (up to 28 of them). */
  lemma ForwardFromFirst(first: Date, k: nat)
    requires IsValid(first) && first.day == 1
    requires k < DaysInMonth(first.year, first.month) + 28
    ensures var dim, n := DaysInMonth(first.year, first.month), NextMonth(first);
      && (k < dim ==> AddDays(first, k) == Date(first.year, first.month, k + 1))
      && (dim <= k ==> AddDays(first, k) == Date(n.year, n.month, k - dim + 1))
  {
    var dim := DaysInMonth(first.year, first.month);
    if k < dim {
      AddDaysWithinMonth(first.year, first.month, 1, k);
    } else {
      var j: nat := k - dim;
      var n := NextMonth(first);
      var last := Date(first.year, first.month, dim);
      AddDaysWithinMonth(first.year, first.month, 1, dim - 1);
      AddDaysAdd(first, dim - 1, j + 1);
      assert AddDays(last, j + 1) == AddDays(NextDay(last), j);
      assert NextDay(last) == Date(n.year, n.month, 1);
      AddDaysWithinMonth(n.year, n.month, 1, j);
    }
  }

  /** Going back w days and then forward k >= w days is going forward k - w days. */
  lemma BackThenForward(first: Date, w: nat, k: nat)
    requires IsValid(first) && w <= k
    ensures AddDays(SubDays(first, w), k) == AddDays(first, k - w)
  {
    AddDaysAdd(SubDays(first, w), w, k - w);
    AddSubInverse(first, w);
  }

  /** A 42-cell grid that starts w <= 6 days before the 1st. */
  lemma Layout(first: Date, w: nat, k: nat)
    requires IsValid(first) && first.day == 1 && w <= 6 && k < 42
    ensures var dim := DaysInMonth(first.year, first.month);
      var p, n := PrevMonth(first), NextMonth(first);
      && (k < w ==> AddDays(SubDays(first, w), k) == Date(p.year, p.month, DaysInMonth(p.year, p.month) - w + 1 + k))
      && (w <= k < w + dim ==> AddDays(SubDays(first, w), k) == Date(first.year, first.month, k - w + 1))
      && (w + dim <= k ==> AddDays(SubDays(first, w), k) == Date(n.year, n.month, k - w - dim + 1))
  {
    if k < w {
      var p := PrevMonth(first);
      BackFromFirst(first, w);
      AddDaysWithinMonth(p.year, p.month, DaysInMonth(p.year, p.month) - w + 1, k);
    } else {
      BackThenForward(first, w, k);
      ForwardFromFirst(first, k - w);
    }
  }

  /** In a grid starting w <= 6 days before the 1st, a cell has the 1st's month exactly
      when it is one of the month's own days, and then it has the 1st's year too. */
  lemma LayoutMonth(first: Date, w: nat, k: nat)
    requires IsValid(first) && first.day == 1 && w <= 6 && k < 42
    ensures var g, dim := AddDays(SubDays(first, w), k), DaysInMonth(first.year, first.month);
      && (g.month == first.month <==> w <= k < w + dim)
      && (g.month == first.month ==> g.year == first.year)
  {
    var g, dim := AddDays(SubDays(first, w), k), DaysInMonth(first.year, first.month);
    Layout(first, w, k);
    if k < w {
      assert g.month == PrevMonth(first).month;
    } else if k >= w + dim {
      assert g.month == NextMonth(first).month;
    }
  }

  /** The first cell is the 1st when that is a Sunday; otherwise it is the day of the
      previous month Weekday(first) days before. */
  lemma GridStart(first: Date)
    requires IsValid(first) && first.day == 1
    ensures Weekday(first) == 0 ==> GridDate(first, 0) == first
    ensures Weekday(first) > 0 ==>
              var p := PrevMonth(first);
              GridDate(first, 0) == Date(p.year, p.month, DaysInMonth(p.year, p.month) - Weekday(first) + 1)
  {
    var w := Weekday(first);
    Layout(first, w, 0);
    assert GridDate(first, 0) == AddDays(SubDays(first, w), 0);
  }

  /** What each cell holds: the last Weekday(first) days of the previous month, then the
      days of the month in order, then the first days of the next month. */
  lemma GridCell(first: Date, k: nat)
    requires IsValid(first) && first.day == 1 && k < 42
    ensures var w, dim := Weekday(first), DaysInMonth(first.year, first.month);
      var p, n := PrevMonth(first), NextMonth(first);
      && (k < w ==> GridDate(first, k) == Date(p.year, p.month, DaysInMonth(p.year, p.month) - w + 1 + k))
      && (w <= k < w + dim ==> GridDate(first, k) == Date(first.year, first.month, k - w + 1))
      && (w + dim <= k ==> GridDate(first, k) == Date(n.year, n.month, k - w - dim + 1))
  {
    var w := Weekday(first);
    Layout(first, w, k);
    assert GridDate(first, k) == AddDays(SubDays(first, w), k);
  }

  /** A cell belongs to the month of the 1st exactly when it is one of the month's own
      days, and day d of that month sits in cell Weekday(first) + d - 1, which fits the
      42 cells. */
  lemma GridMonth(first: Date, k: nat)
    requires IsValid(first) && first.day == 1 && k < 42
    ensures var w, dim := Weekday(first), DaysInMonth(first.year, first.month);
      && (GridDate(first, k).month == first.month <==> w <= k < w + dim)
      && (GridDate(first, k).month == first.month ==> GridDate(first, k).year == first.year)
      && w <= 6 && w + dim <= 42
  {
    var w := Weekday(first);
    LayoutMonth(first, w, k);
    assert GridDate(first, k) == AddDays(SubDays(first, w), k);
  }

  /** Every day of the month appears in the grid exactly once, at the cell GridMonth
      names. */
  lemma GridCoversMonth(first: Date, d: Date)
    requires IsValid(first) && first.day == 1 && IsValid(d)
    requires d.year == first.year && d.month == first.month
    ensures Weekday(first) + d.day - 1 < 42
    ensures forall k: nat :: k < 42 ==> (GridDate(first, k) == d <==> k == Weekday(first) + d.day - 1)
  {
    var i: nat := Weekday(first) + d.day - 1;
    GridCell(first, i);
    forall k: nat | k < 42 ensures GridDate(first, k) == d <==> k == i {
      GridDistinct(first, k, i);
    }
  }

  /** The entry of `days` at index k. */
  function DayInfoAt(shown: Date, k: nat): (r: DayInfo)
    requires IsValid(shown)
    ensures IsValid(r.date)
  {
    var date := GridDate(FirstShown(shown), k);
    DayInfo(date, date.month == shown.month)
  }

  /** The loop of `renderCalendar` that fills `days`: start at the Sunday on or before
      the 1st and record 42 consecutive dates, flagging those whose month is the month
      shown. */
  method BuildDays(shown: Date) returns (days: seq<DayInfo>)
    requires IsValid(shown)
    ensures |days| == 42
    ensures forall k :: 0 <= k < 42 ==> days[k] == DayInfoAt(shown, k)
    ensures forall k :: 0 <= k < 42 ==> days[k].date == GridDate(FirstShown(shown), k)
    ensures forall k :: 0 <= k < 42 ==> (days[k].isCurrentMonth <==> days[k].date.month == shown.month)
    ensures forall k :: 0 <= k < 42 ==>
              (days[k].isCurrentMonth <==>
                 days[k].date.year == FirstShown(shown).year && days[k].date.month == shown.month)
  {
    var first := FirstShown(shown);
    var start := SubDays(first, Weekday(first));
    days := [];
    var current := start;
    var i := 0;
    while i < 42
      invariant 0 <= i <= 42
      invariant |days| == i
      invariant current == GridDate(first, i)
      invariant forall k :: 0 <= k < i ==> days[k] == DayInfoAt(shown, k)
    {
      days := days + [DayInfo(current, current.month == shown.month)];
      GridNext(first, i);
      current := NextDay(current);
      i := i + 1;
    }
    forall k | 0 <= k < 42
      ensures days[k].isCurrentMonth <==> days[k].date.year == first.year && days[k].date.month == shown.month
    {
      GridMonth(first, k);
    }
  }

  /** The text of a cell's day number: "Jan 1" on the 1st of a month, the bare day
      otherwise. */
  function Label(d: Date): string
    requires IsValid(d)
  {
    if d.day == 1 then MonthNames[d.month][..3] + " " + Decimal(d.day) else Decimal(d.day)
  }

  /** A label other than a 1st reads back as its day; the 1st carries its month's
      three-letter abbreviation, which differs from month to month. */
  lemma LabelSpec(d: Date, e: Date)
    requires IsValid(d) && IsValid(e)
    ensures d.day != 1 ==> ParseInt(Label(d)) == Some(d.day) && AllDigits(Label(d))
    ensures d.day != 1 ==> Label(d)[0] != '0'
    ensures d.day == 1 ==> Label(d) == MonthNames[d.month][..3] + " 1"
    ensures d.day == 1 && e.day == 1 && d.month != e.month ==> Label(d) != Label(e)
  {
    DigitsValue(d.day, 1);
    ParseIntDigits(d.day, 1);
    DecimalNoLeadingZero(d.day);
    if d.day == 1 && e.day == 1 && d.month != e.month {
      var i, j := d.month, e.month;
      assert MonthNames[i][0] != MonthNames[j][0] || MonthNames[i][1] != MonthNames[j][1]
        || MonthNames[i][2] != MonthNames[j][2];
      assert Label(d)[..3] == MonthNames[i][..3];
      assert Label(e)[..3] == MonthNames[j][..3];
    }
  }

  /** A rendered day cell. */
  datatype DayCell = DayCell(
    date: Date,
    otherMonth: bool,
    isToday: bool,
    isFriday: bool,
    dayText: string,
    appointments: seq<Appointment>)

  /** The appointments booked on date d: those whose date text is d's key, in list order. */
  function BookedOn(apts: seq<Appointment>, d: Date): seq<Appointment>
    requires IsValid(d)
  {
    Keep(apts, (a: Appointment) => a.date == DateKey(d))
  }

  /** One pass of the `days.forEach` rendering loop. `today` stands for `new Date()`. */
  function CellOf(info: DayInfo, today: Date, apts: seq<Appointment>): (r: DayCell)
    requires IsValid(info.date) && IsValid(today)
    ensures r.date == info.date && r.otherMonth == !info.isCurrentMonth
    ensures r.isToday <==> info.date == today
    ensures r.isFriday <==> Weekday(info.date) == 5
    ensures r.dayText == Label(info.date)
    ensures forall a :: a in r.appointments <==> a in apts && a.date == DateKey(info.date)
    ensures IsSublist(r.appointments, apts)
    ensures forall a :: multiset(r.appointments)[a] == if a.date == DateKey(info.date) then multiset(apts)[a] else 0
  {
    var d := info.date;
    var isToday := DateKey(d) == DateKey(today);
    assert isToday ==> d == today by {
      if isToday { DateKeyInjective(d, today); }
    }
    KeepMembership(apts, (a: Appointment) => a.date == DateKey(d));
    KeepSublist(apts, (a: Appointment) => a.date == DateKey(d));
    KeepCount(apts, (a: Appointment) => a.date == DateKey(d));
    DayCell(d, !info.isCurrentMonth, isToday, Weekday(d) == 5, Label(d), BookedOn(apts, d))
  }

  /** An appointment is shown in at most one cell of the grid. */
  lemma BookedOnceInGrid(first: Date, apts: seq<Appointment>, a: Appointment, j: nat, k: nat)
    requires IsValid(first)
    requires a in BookedOn(apts, GridDate(first, j)) && a in BookedOn(apts, GridDate(first, k))
    ensures j == k
  {
    KeepMembership(apts, (b: Appointment) => b.date == DateKey(GridDate(first, j)));
    KeepMembership(apts, (b: Appointment) => b.date == DateKey(GridDate(first, k)));
    DateKeyInjective(GridDate(first, j), GridDate(first, k));
    GridDistinct(first, j, k);
  }

  /** An appointment booked on a day of the month shown appears in that day's cell. */
  lemma BookedInItsCell(first: Date, apts: seq<Appointment>, a: Appointment, d: Date)
    requires IsValid(first) && first.day == 1 && IsValid(d)
    requires d.year == first.year && d.month == first.month
    requires a in apts && a.date == DateKey(d)
    ensures a in BookedOn(apts, GridDate(first, Weekday(first) + d.day - 1))
  {
    GridCoversMonth(first, d);
    GridCell(first, Weekday(first) + d.day - 1);
    KeepMembership(apts, (b: Appointment) => b.date == DateKey(d));
  }

  /** The doctor named in the header: the first distinct doctor name, falling back to
      "James Marry" when there is none or it is empty. */
  function HeaderDoctor(apts: seq<Appointment>): (r: string)
    ensures r == if |apts| > 0 && apts[0].doctorName != "" then apts[0].doctorName else "James Marry"
  {
    var names := seq(|apts|, k requires 0 <= k < |apts| => apts[k].doctorName);
    var doctors := Dedup(names);
    DedupSpec(names);
    if |doctors| > 0 && doctors[0] != "" then doctors[0] else "James Marry"
  }

  /** The Friday cells of the grid are its sixth column. */
  lemma FridayColumn(shown: Date, today: Date, apts: seq<Appointment>, k: nat)
    requires IsValid(shown) && IsValid(today)
    ensures CellOf(DayInfoAt(shown, k), today, apts).isFriday <==> k % 7 == 5
  {
    GridWeekday(FirstShown(shown), k);
  }

  /** The `days.forEach` loop of `renderCalendar`: one cell per entry, in order. */
  method RenderCells(days: seq<DayInfo>, today: Date, apts: seq<Appointment>) returns (cells: seq<DayCell>)
    requires IsValid(today)
    requires forall k :: 0 <= k < |days| ==> IsValid(days[k].date)
    ensures |cells| == |days|
    ensures forall k :: 0 <= k < |days| ==> cells[k] == CellOf(days[k], today, apts)
  {
    cells := [];
    var i := 0;
    while i < |days|
      invariant 0 <= i <= |days| && |cells| == i
      invariant forall k :: 0 <= k < i ==> cells[k] == CellOf(days[k], today, apts)
    {
      cells := cells + [CellOf(days[i], today, apts)];
      i := i + 1;
    }
  }

  /** `renderCalendar` without the DOM: the header date and doctor, and the 42 cells. */
  method RenderCalendar(shown: Date, today: Date, apts: seq<Appointment>)
    returns (header: string, doctor: string, cells: seq<DayCell>)
    requires IsValid(shown) && IsValid(today)
    ensures header == DisplayDate(shown) && doctor == HeaderDoctor(apts)
    ensures |cells| == 42
    ensures forall k :: 0 <= k < 42 ==> cells[k] == CellOf(DayInfoAt(shown, k), today, apts)
    ensures forall k :: 0 <= k < 42 ==> (cells[k].isFriday <==> k % 7 == 5)
  {
    header := DisplayDate(shown);
    doctor := HeaderDoctor(apts);
    var days := BuildDays(shown);
    cells := RenderCells(days, today, apts);
    forall k | 0 <= k < 42 ensures cells[k].isFriday <==> k % 7 == 5 {
      FridayColumn(shown, today, apts, k);
    }
  }
}
