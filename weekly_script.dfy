/** The weekly summary script as a whole: the window, the collection of the
    month files, the summary lines and the chunks they are sent in. */
module WeeklyScript {
  import opened Calendar
  import opened EventFields
  import opened CsvRows
  import opened WeeklySummary
  import opened WeeklyRender
  import opened Chunking

  /** Every date the collection keeps is a window date of a visited month
      that has a file. */
  lemma CollectedDates(events: map<Date, seq<Event>>, order: seq<(int, int)>, files: map<(int, int), seq<Row>>,
                       start: Date, end: Date)
    requires Collected(events, order, files, start, end)
    ensures forall d :: d in events ==>
      Valid(d) && InRange(d, start, end) && (d.year, d.month) in order && (d.year, d.month) in files
  {
    forall d | d in events
      ensures Valid(d) && InRange(d, start, end) && (d.year, d.month) in order && (d.year, d.month) in files
    {
      var ym := (d.year, d.month);
      assert Get(events, d) == events[d] != [];
      assert Get(events, d) == Expected(order, files, start, end, d);
      var outs := FileOuts(files, ym, start, end);
      DayEventsFrom(outs, d);
      var j :| 0 <= j < |outs| && outs[j].Keep? && outs[j].date == d;
      ReadRowsAt(ym.0, ym.1, files[ym], start, end, j);
    }
  }

  /** `missing_dates` is exactly the set of window dates whose month has no
      file, once every window month has been visited. */
  lemma WindowMissingDates(today: Date, dateToMonth: map<Date, (int, int)>, order: seq<(int, int)>,
                           files: map<(int, int), seq<Row>>)
    requires TodayOk(today)
    requires forall d :: d in dateToMonth <==> InWindow(d, today)
    requires forall d :: d in dateToMonth ==> dateToMonth[d] == (d.year, d.month) && dateToMonth[d] in order
    ensures forall d :: d in MissingDates(dateToMonth, Missing(order, files)) <==>
      InWindow(d, today) && (d.year, d.month) !in files
  {
    forall d ensures d in MissingDates(dateToMonth, Missing(order, files)) <==>
      InWindow(d, today) && (d.year, d.month) !in files
    {
      if InWindow(d, today) {
        assert d in dateToMonth && dateToMonth[d] == (d.year, d.month);
      }
    }
  }

  /** Lines 72-213: the window, the loop over the months in `order` (the
      iteration order of `required_months`), the summary and its chunks.
      The script stops when a row stops it; otherwise each window date
      holds the events of its rows, the warning names exactly the window
      dates whose month has no file, and the chunks are those of the
      summary. */
  method Weekly(today: Date, files: map<(int, int), seq<Row>>, order: seq<(int, int)>)
    returns (crashed: bool, events: map<Date, seq<Event>>, dateToMonth: map<Date, (int, int)>,
             lines: seq<string>, chunks: seq<string>)
    requires TodayOk(today)
    requires forall i, j :: 0 <= i < j < |order| ==> order[i] != order[j]
    requires forall ym :: ym in order <==> exists d :: InWindow(d, today) && (d.year, d.month) == ym
    ensures crashed <==> WeekCrashes(order, files, StartDate(today), EndDate(today))
    ensures forall d :: d in dateToMonth <==> InWindow(d, today)
    ensures forall d :: d in dateToMonth ==> dateToMonth[d] == (d.year, d.month)
    ensures !crashed ==>
      && ValidDates(events) && ValidDates(dateToMonth)
      && Collected(events, order, files, StartDate(today), EndDate(today))
      && lines == SummaryLines(today, events, dateToMonth, Missing(order, files))
      && chunks == Chunks(lines)
    ensures !crashed ==> forall d :: d in MissingDates(dateToMonth, Missing(order, files)) <==>
      InWindow(d, today) && (d.year, d.month) !in files
  {
    var requiredMonths;
    requiredMonths, dateToMonth := BuildWindow(today);
    var missing;
    crashed, events, missing := CollectWeek(order, files, StartDate(today), EndDate(today));
    if crashed {
      return crashed, events, dateToMonth, [], [];
    }
    CollectedDates(events, order, files, StartDate(today), EndDate(today));
    forall d | d in dateToMonth ensures dateToMonth[d] in order {
      assert InWindow(d, today) && (d.year, d.month) == dateToMonth[d];
    }
    WindowMissingDates(today, dateToMonth, order, files);
    lines := Summarize(today, events, dateToMonth, missing);
    chunks := Chunk(lines);
  }
}
