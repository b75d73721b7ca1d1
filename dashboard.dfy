/** The dashboard's filter in `renderDashboard`: a case-insensitive search on the
    patient and the doctor name and an inclusive date range, applied with
    `Array.filter`. */
module Dashboard {
  import opened Wrappers
  import opened Text
  import opened Lists
  import opened Calendar
  import opened Appointments

  /** The raw values of the four filter inputs; an empty value means "no
      restriction". */
  datatype Criteria = Criteria(patientSearch: string, doctorSearch: string, startDate: string, endDate: string)

  const NoCriteria := Criteria("", "", "", "")

  /** `matchesDateRange`: the date text against the bounds that are set, compared as
      strings, with both bounds included. */
  predicate InDateRange(date: string, startDate: string, endDate: string) {
    if startDate != "" && endDate != "" then LexLe(startDate, date) && LexLe(date, endDate)
    else if startDate != "" then LexLe(startDate, date)
    else if endDate != "" then LexLe(date, endDate)
    else true
  }

  /** The three-way branch is one check per bound: a bound that is set must hold. */
  lemma InDateRangeSpec(date: string, startDate: string, endDate: string)
    ensures InDateRange(date, startDate, endDate) <==>
              (startDate == "" || LexLe(startDate, date)) && (endDate == "" || LexLe(date, endDate))
  {
  }

  /** `!search || name.toLowerCase().includes(search)` with the search lower-cased. */
  predicate MatchesText(name: string, search: string) {
    var s := Lower(search);
    s == [] || Contains(Lower(name), s)
  }

  /** The callback passed to `appointments.filter`. */
  predicate Matches(c: Criteria, a: Appointment) {
    MatchesText(a.patientName, c.patientSearch)
    && MatchesText(a.doctorName, c.doctorSearch)
    && InDateRange(a.date, c.startDate, c.endDate)
  }

  function FilterAppointments(apts: seq<Appointment>, c: Criteria): seq<Appointment> {
    Keep(apts, (a: Appointment) => Matches(c, a))
  }

  /** A name matches an empty search and otherwise exactly when the lower-cased search
      occurs in the lower-cased name: the test for an empty search is only a shortcut,
      because every string includes the empty string. */
  lemma MatchesTextSpec(name: string, search: string)
    ensures search == "" ==> MatchesText(name, search)
    ensures MatchesText(name, search) <==> exists i :: OccursAt(Lower(name), Lower(search), i)
  {
    LowerIdempotent(search);
    ContainsEmpty(Lower(name));
    ContainsIff(Lower(name), Lower(search));
  }

  /** Matching ignores the case of ASCII letters on both sides. */
  lemma MatchesTextCaseInsensitive(name: string, name2: string, search: string, search2: string)
    requires Lower(name) == Lower(name2) && Lower(search) == Lower(search2)
    ensures MatchesText(name, search) == MatchesText(name2, search2)
  {
  }

  /** The table lists, in stored order, exactly the appointments that satisfy every
      filter that is set. */
  lemma FilterSpec(apts: seq<Appointment>, c: Criteria)
    ensures IsSublist(FilterAppointments(apts, c), apts)
    ensures forall a :: a in FilterAppointments(apts, c) <==>
      && a in apts
      && (exists i :: OccursAt(Lower(a.patientName), Lower(c.patientSearch), i))
      && (exists i :: OccursAt(Lower(a.doctorName), Lower(c.doctorSearch), i))
      && (c.startDate == "" || LexLe(c.startDate, a.date))
      && (c.endDate == "" || LexLe(a.date, c.endDate))
    ensures forall a :: multiset(FilterAppointments(apts, c))[a] == if Matches(c, a) then multiset(apts)[a] else 0
  {
    KeepCount(apts, (a: Appointment) => Matches(c, a));
    KeepMembership(apts, (a: Appointment) => Matches(c, a));
    KeepSublist(apts, (a: Appointment) => Matches(c, a));
    forall a ensures Matches(c, a) <==>
      && (exists i :: OccursAt(Lower(a.patientName), Lower(c.patientSearch), i))
      && (exists i :: OccursAt(Lower(a.doctorName), Lower(c.doctorSearch), i))
      && (c.startDate == "" || LexLe(c.startDate, a.date))
      && (c.endDate == "" || LexLe(a.date, c.endDate))
    {
      MatchesTextSpec(a.patientName, c.patientSearch);
      MatchesTextSpec(a.doctorName, c.doctorSearch);
      InDateRangeSpec(a.date, c.startDate, c.endDate);
    }
  }

  /** With every input empty the table shows the whole list. */
  lemma FilterNoCriteria(apts: seq<Appointment>)
    ensures FilterAppointments(apts, NoCriteria) == apts
  {
    KeepAll(apts, (a: Appointment) => Matches(NoCriteria, a));
  }

  /** Applying the same filter to its own output changes nothing. */
  lemma FilterIdempotent(apts: seq<Appointment>, c: Criteria)
    ensures FilterAppointments(FilterAppointments(apts, c), c) == FilterAppointments(apts, c)
  {
    KeepIdempotent(apts, (a: Appointment) => Matches(c, a));
  }

  /** For well-formed date keys of the years 0..9999 the string range is the calendar
      range: an appointment on day d is listed between days s and e exactly when d lies
      from s to e. */
  lemma DateRangeIsChronological(d: Date, s: Date, e: Date)
    requires IsValid(d) && IsValid(s) && IsValid(e)
    requires 0 <= d.year <= 9999 && 0 <= s.year <= 9999 && 0 <= e.year <= 9999
    ensures InDateRange(DateKey(d), DateKey(s), DateKey(e)) <==>
              DayNumber(s) <= DayNumber(d) <= DayNumber(e)
  {
    KeyPieces(s);
    KeyPieces(e);
    DateKeyOrder(s, d);
    DateKeyOrder(d, e);
  }

  /** The edit button of a listed row finds a record with the row's id, and the row's own
      record when ids are distinct. */
  lemma EditFindsRow(apts: seq<Appointment>, c: Criteria, a: Appointment)
    requires a in FilterAppointments(apts, c)
    ensures FindById(apts, a.id).Some?
    ensures IdsDistinct(apts) ==> FindById(apts, a.id) == Some(a)
  {
    KeepSubset(apts, (b: Appointment) => Matches(c, b));
    var k :| 0 <= k < |apts| && apts[k] == a;
  }

  function SampleAppointment(date: string): Appointment {
    Appointment("id", "John Smith", "Dr. Brown", "City Hospital", "Cardiology", date, "10:00", "", "")
  }

  /** Two dates of January 2023 compare by their days. */
  lemma JanuaryKeys(x: string, y: string)
    requires |x| == 2 && |y| == 2
    ensures LexLe("2023-01-" + x, "2023-01-" + y) <==> LexLe(x, y)
  {
    LexLeConcat("2023-01-", x, "2023-01-", y);
  }

  function SampleList(): seq<Appointment> {
    [SampleAppointment("2023-01-10"), SampleAppointment("2023-01-18"), SampleAppointment("2023-01-25")]
  }

  lemma RangeExampleBefore()
    ensures !InDateRange("2023-01-10", "2023-01-15", "2023-01-20")
  {
    JanuaryKeys("15", "10");
    assert "2023-01-15" == "2023-01-" + "15" && "2023-01-10" == "2023-01-" + "10";
  }

  lemma RangeExampleInside()
    ensures InDateRange("2023-01-18", "2023-01-15", "2023-01-20")
  {
    JanuaryKeys("15", "18");
    JanuaryKeys("18", "20");
    assert "2023-01-15" == "2023-01-" + "15" && "2023-01-18" == "2023-01-" + "18";
    assert "2023-01-20" == "2023-01-" + "20";
  }

  lemma RangeExampleAfter()
    ensures !InDateRange("2023-01-25", "2023-01-15", "2023-01-20")
  {
    JanuaryKeys("25", "20");
    assert "2023-01-25" == "2023-01-" + "25" && "2023-01-20" == "2023-01-" + "20";
  }

  /** The filter visits the list front to back. */
  lemma FilterCons(a: Appointment, rest: seq<Appointment>, c: Criteria)
    ensures FilterAppointments([a] + rest, c) ==
              (if Matches(c, a) then [a] else []) + FilterAppointments(rest, c)
  {
    assert ([a] + rest)[1..] == rest;
  }

  /** A three-element list filtered down to its middle element. */
  lemma FilterMiddle(apts: seq<Appointment>, c: Criteria)
    requires |apts| == 3
    requires !Matches(c, apts[0]) && Matches(c, apts[1]) && !Matches(c, apts[2])
    ensures FilterAppointments(apts, c) == [apts[1]]
  {
    FilterCons(apts[0], [apts[1], apts[2]], c);
    FilterCons(apts[1], [apts[2]], c);
    FilterCons(apts[2], [], c);
    assert apts == [apts[0]] + [apts[1], apts[2]];
    assert [apts[1], apts[2]] == [apts[1]] + [apts[2]];
    assert [apts[2]] == [apts[2]] + [];
  }

  /** Of three appointments on 2023-01-10, 2023-01-18 and 2023-01-25, the range from
      2023-01-15 to 2023-01-20 keeps only the one on the 18th. */
  lemma FilterRangeExample()
    ensures FilterAppointments(SampleList(), Criteria("", "", "2023-01-15", "2023-01-20")) == [SampleList()[1]]
  {
    var apts := SampleList();
    var range := Criteria("", "", "2023-01-15", "2023-01-20");
    RangeExampleBefore();
    RangeExampleInside();
    RangeExampleAfter();
    assert !Matches(range, apts[0]) && Matches(range, apts[1]) && !Matches(range, apts[2]);
    FilterMiddle(apts, range);
  }

  /** A search for "SMITH" finds "John Smith": the search ignores case. */
  lemma FilterSearchExample()
    ensures FilterAppointments(SampleList(), Criteria("SMITH", "", "", "")) == SampleList()
  {
    var apts := SampleList();
    var search := Criteria("SMITH", "", "", "");
    assert Lower("SMITH") == "smith";
    assert Lower("John Smith") == "john smith";
    assert Lower("John Smith")[5..10] == "smith";
    MatchesTextSpec("John Smith", "SMITH");
    assert OccursAt(Lower("John Smith"), Lower("SMITH"), 5);
    KeepAll(apts, (a: Appointment) => Matches(search, a));
  }
}
