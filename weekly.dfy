/** The weekly summary: the five-day window after today, the collection of
    the rows of the window's month files, the combined-event check, and the
    rendering of the summary lines with the seasonal overwrite and the
    missing-month warning. */
module WeeklySummary {
  import opened Opt
  import opened PyInt
  import opened Calendar
  import opened EventFields
  import opened CsvRows

  // ------------------------------------------------------------ window

  /** The window needs `today + 5 days` to exist (Python would raise
      `OverflowError` in the last days of year 9999). */
  predicate TodayOk(today: Date) {
    Valid(today) && today.year < MaxYear
  }

  /** `start_date`: tomorrow. */
  function StartDate(today: Date): (r: Date)
    requires TodayOk(today)
    ensures Valid(r) && Ordinal(r) == Ordinal(today) + 1
  {
    RoomBeforeLastYear(today);
    AddDays(today, 1)
  }

  /** `end_date`: five days from today. */
  function EndDate(today: Date): (r: Date)
    requires TodayOk(today)
    ensures Valid(r) && Ordinal(r) == Ordinal(today) + 5
  {
    RoomBeforeLastYear(today);
    AddDays(today, 5)
  }

  /** Dates of the window, inclusive at both ends. */
  predicate InWindow(d: Date, today: Date)
    requires TodayOk(today)
  {
    Valid(d) && InRange(d, StartDate(today), EndDate(today))
  }

  lemma InWindowByOrdinal(d: Date, today: Date)
    requires TodayOk(today) && Valid(d)
    ensures InWindow(d, today) <==> Ordinal(today) + 1 <= Ordinal(d) <= Ordinal(today) + 5
  {
    BeforeIsOrdinalOrder(StartDate(today), d);
    BeforeIsOrdinalOrder(d, EndDate(today));
  }

  /** The `while current <= end_date` loop: `date_to_month` maps every date of
      the window to its (year, month), and `required_months` is the set of
      those months. */
  method BuildWindow(today: Date) returns (requiredMonths: set<(int, int)>, dateToMonth: map<Date, (int, int)>)
    requires TodayOk(today)
    ensures forall d :: d in dateToMonth <==> InWindow(d, today)
    ensures forall d :: d in dateToMonth ==> dateToMonth[d] == (d.year, d.month)
    ensures forall ym :: ym in requiredMonths <==> exists d :: d in dateToMonth && dateToMonth[d] == ym
  {
    var start, end := StartDate(today), EndDate(today);
    requiredMonths, dateToMonth := {}, map[];
    var current := start;
    RoomBeforeLastYear(today);
    while NotAfter(current, end)
      invariant Valid(current) && Ordinal(today) + 1 <= Ordinal(current) <= Ordinal(today) + 6
      invariant forall d :: d in dateToMonth <==> Valid(d) && Ordinal(today) + 1 <= Ordinal(d) < Ordinal(current)
      invariant forall d :: d in dateToMonth ==> dateToMonth[d] == (d.year, d.month)
      invariant forall ym :: ym in requiredMonths <==> exists d :: d in dateToMonth && dateToMonth[d] == ym
      decreases Ordinal(today) + 6 - Ordinal(current)
    {
      BeforeIsOrdinalOrder(current, end);
      requiredMonths := requiredMonths + {(current.year, current.month)};
      forall d | Valid(d) ensures Ordinal(d) == Ordinal(current) ==> d == current {
        BeforeIsOrdinalOrder(d, current);
      }
      dateToMonth := dateToMonth[current := (current.year, current.month)];
      current := NextDay(current);
    }
    BeforeIsOrdinalOrder(current, end);
    forall d | Valid(d) ensures InWindow(d, today) <==> Ordinal(today) + 1 <= Ordinal(d) <= Ordinal(today) + 5 {
      InWindowByOrdinal(d, today);
    }
  }

  // ------------------------------------------------------------ collection

  /** The rows of the month file of `ym`, as the row loop treats them. */
  function FileOuts(files: map<(int, int), seq<Row>>, ym: (int, int), start: Date, end: Date): seq<Outcome>
    requires ym in files
  {
    ReadRows(ym.0, ym.1, files[ym], start, end)
  }

  /** Some month visited has a file with a row that stops the script. */
  predicate WeekCrashes(months: seq<(int, int)>, files: map<(int, int), seq<Row>>, start: Date, end: Date) {
    exists i :: 0 <= i < |months| && months[i] in files && AnyStop(FileOuts(files, months[i], start, end))
  }

  /** The events the window collects on date `d`: those of the rows of `d`'s
      month file, when that month is visited and its file exists. */
  function Expected(months: seq<(int, int)>, files: map<(int, int), seq<Row>>, start: Date, end: Date, d: Date): seq<Event> {
    var ym := (d.year, d.month);
    if ym in months && ym in files then DayEvents(FileOuts(files, ym, start, end), d) else []
  }

  /** `events` holds, for each date, the events the months `order` collect. */
  ghost predicate Collected(events: map<Date, seq<Event>>, order: seq<(int, int)>, files: map<(int, int), seq<Row>>, start: Date, end: Date) {
    NoEmpty(events) && forall d :: Get(events, d) == Expected(order, files, start, end, d)
  }

  /** The months of `order` that have no file. */
  function Missing(order: seq<(int, int)>, files: map<(int, int), seq<Row>>): set<(int, int)> {
    set ym | ym in order && ym !in files
  }

  lemma NoCrashStep(order: seq<(int, int)>, files: map<(int, int), seq<Row>>, start: Date, end: Date, i: nat)
    requires i < |order| && !WeekCrashes(order[..i], files, start, end)
    requires order[i] in files ==> !AnyStop(FileOuts(files, order[i], start, end))
    ensures !WeekCrashes(order[..i + 1], files, start, end)
  {
    assert order[..i + 1] == order[..i] + [order[i]];
  }

  /** A month without a file collects nothing and is one more missing month. */
  lemma MissingStep(events: map<Date, seq<Event>>, order: seq<(int, int)>, files: map<(int, int), seq<Row>>, start: Date, end: Date, i: nat)
    requires i < |order| && order[i] !in files
    requires Collected(events, order[..i], files, start, end)
    ensures Collected(events, order[..i + 1], files, start, end)
    ensures Missing(order[..i + 1], files) == Missing(order[..i], files) + {order[i]}
  {
    assert order[..i + 1] == order[..i] + [order[i]];
  }

  /** A month file keeps no row dated in another month. */
  lemma {:induction false} ReadRowsOtherMonth(year: int, month: int, rows: seq<Row>, start: Date, end: Date, d: Date)
    requires (d.year, d.month) != (year, month)
    ensures DayEvents(ReadRows(year, month, rows, start, end), d) == []
    decreases |rows|
  {
    if rows != [] {
      var n := |rows| - 1;
      ReadRowsOtherMonth(year, month, rows[..n], start, end, d);
      assert ReadRows(year, month, rows, start, end)[..n] == ReadRows(year, month, rows[..n], start, end);
    }
  }

  /** A month with a file adds its rows and no missing month. */
  lemma FileStep(events: map<Date, seq<Event>>, events': map<Date, seq<Event>>, order: seq<(int, int)>,
                 files: map<(int, int), seq<Row>>, start: Date, end: Date, i: nat)
    requires i < |order| && order[i] in files
    requires forall a, b :: 0 <= a < b < |order| ==> order[a] != order[b]
    requires Collected(events, order[..i], files, start, end)
    requires Appended(events', events, FileOuts(files, order[i], start, end))
    ensures Collected(events', order[..i + 1], files, start, end)
    ensures Missing(order[..i + 1], files) == Missing(order[..i], files)
  {
    var ym := order[i];
    assert order[..i + 1] == order[..i] + [ym];
    assert ym !in order[..i];
    forall d ensures Get(events', d) == Expected(order[..i + 1], files, start, end, d) {
      var outs := FileOuts(files, ym, start, end);
      assert Get(events', d) == Get(events, d) + DayEvents(outs, d);
      assert Get(events, d) == Expected(order[..i], files, start, end, d);
      if (d.year, d.month) == ym {
        assert Expected(order[..i], files, start, end, d) == [];
        assert Expected(order[..i + 1], files, start, end, d) == DayEvents(outs, d);
      } else {
        ReadRowsOtherMonth(ym.0, ym.1, files[ym], start, end, d);
        assert Expected(order[..i + 1], files, start, end, d) == Expected(order[..i], files, start, end, d);
      }
    }
  }

  /** One pass of the loop over `required_months`: the month `order[i]`. */
  method VisitMonth(order: seq<(int, int)>, files: map<(int, int), seq<Row>>, start: Date, end: Date, i: nat,
                    events: map<Date, seq<Event>>, missing: set<(int, int)>)
    returns (crashed: bool, events': map<Date, seq<Event>>, missing': set<(int, int)>)
    requires i < |order| && forall a, b :: 0 <= a < b < |order| ==> order[a] != order[b]
    requires missing == Missing(order[..i], files)
    requires Collected(events, order[..i], files, start, end)
    ensures crashed <==> order[i] in files && AnyStop(FileOuts(files, order[i], start, end))
    ensures !crashed ==> missing' == Missing(order[..i + 1], files)
    ensures !crashed ==> Collected(events', order[..i + 1], files, start, end)
  {
    var ym := order[i];
    if ym !in files {
      MissingStep(events, order, files, start, end, i);
      crashed, events', missing' := false, events, missing + {ym};
    } else {
      crashed, events' := CollectMonth(ym, files[ym], start, end, events);
      missing' := missing;
      if !crashed {
        FileStep(events, events', order, files, start, end, i);
      }
    }
  }

  lemma CrashStep(order: seq<(int, int)>, files: map<(int, int), seq<Row>>, start: Date, end: Date, i: nat)
    requires i < |order| && order[i] in files && AnyStop(FileOuts(files, order[i], start, end))
    ensures WeekCrashes(order, files, start, end)
  {
  }

  /** The loop over `required_months`, visited in `order`, the set's iteration
      order (lines 90-116). A month without a file is recorded as missing.
      When no row stops the script, each date holds the events of its rows,
      in row order, and a date without events has no entry. */
  method CollectWeek(order: seq<(int, int)>, files: map<(int, int), seq<Row>>, start: Date, end: Date)
    returns (crashed: bool, events: map<Date, seq<Event>>, missing: set<(int, int)>)
    requires forall i, j :: 0 <= i < j < |order| ==> order[i] != order[j]
    ensures crashed <==> WeekCrashes(order, files, start, end)
    ensures !crashed ==> missing == Missing(order, files)
    ensures !crashed ==> Collected(events, order, files, start, end)
  {
    crashed, events, missing := false, map[], {};
    var i := 0;
    while i < |order|
      invariant 0 <= i <= |order|
      invariant missing == Missing(order[..i], files)
      invariant !WeekCrashes(order[..i], files, start, end)
      invariant Collected(events, order[..i], files, start, end)
    {
      crashed, events, missing := VisitMonth(order, files, start, end, i, events, missing);
      if crashed {
        CrashStep(order, files, start, end, i);
        return;
      }
      NoCrashStep(order, files, start, end, i);
      i := i + 1;
    }
    assert order[..|order|] == order;
  }
}
