/** Reading one CSV row of a month file, as both alert scripts do: the day
    number becomes a date of the file's month or the row is skipped, and an
    in-range row becomes an event record. The two ways the scripts stop with
    an uncaught exception are modelled as a `Crash` outcome. */
module CsvRows {
  import opened Opt
  import opened PyInt
  import opened Calendar
  import opened EventFields

  /** A row of a month file, as `csv.DictReader` yields it. */
  datatype Row = Row(date: string, location: string, eventName: string, time: string, attendance: string)

  /** The range of a C `int`, which `datetime()` requires of its arguments
      before it checks the date. */
  const CIntMin: int := -0x8000_0000
  const CIntMax: int := 0x7FFF_FFFF

  /** What `datetime(year, month, int(row['Date']))` does. */
  datatype RowDay = Skip | Crash | At(date: Date)

  /** `int()` raising `ValueError` or an invalid date skips the row; a day
      number outside the C `int` range raises `OverflowError`, which the
      `except ValueError` does not catch. */
  function ReadRowDay(year: int, month: int, row: Row): (r: RowDay)
    ensures r.At? ==> Valid(r.date) && r.date.year == year && r.date.month == month
    ensures r.At? ==> Parse(row.date) == Some(r.date.day)
    ensures r.Skip? <==> Parse(row.date).None? || (CIntMin <= Parse(row.date).value <= CIntMax && !Valid(Date(year, month, Parse(row.date).value)))
  {
    match Parse(row.date)
    case None => Skip
    case Some(n) =>
      if n < CIntMin || n > CIntMax then Crash
      else if Valid(Date(year, month, n)) then At(Date(year, month, n))
      else Skip
  }

  /** The event record of a row kept on date `d`; `None` when
      `int(row["Attendance"])` raises, which stops the script. */
  function RowEvent(row: Row): (r: Option<Event>)
    ensures r.Some? <==> Parse(row.attendance).Some?
    ensures r.Some? ==> r.value.attendance == Parse(row.attendance).value
  {
    match Parse(row.attendance)
    case None => None
    case Some(a) => Some(NewEvent(row.time, row.eventName, row.location, a))
  }

  /** `lo <= d <= hi` on dates. */
  predicate InRange(d: Date, lo: Date, hi: Date) {
    NotAfter(lo, d) && NotAfter(d, hi)
  }

  /** What one pass of the row loop does with a row when the rows kept are
      those dated `lo..hi`: stop the script, skip the row, or append its event
      record to the list of its date. */
  datatype Outcome = Stop | Ignore | Keep(date: Date, event: Event)

  /** The body of the row loop: `datetime(year, month, int(row['Date']))`
      under `except ValueError: continue`, the range test, and the record
      with `int(row["Attendance"])`. */
  function ReadRow(year: int, month: int, row: Row, lo: Date, hi: Date): (r: Outcome)
    ensures r.Keep? ==> Valid(r.date) && r.date.year == year && r.date.month == month && InRange(r.date, lo, hi)
  {
    match ReadRowDay(year, month, row)
    case Skip => Ignore
    case Crash => Stop
    case At(d) =>
      if !InRange(d, lo, hi) then Ignore
      else match RowEvent(row)
        case None => Stop
        case Some(e) => Keep(d, e)
  }

  /** A row stops the script exactly when its day number overflows, or when
      it is kept and its attendance is not an integer; a kept row's record
      holds its own fields and attendance. */
  lemma ReadRowCases(year: int, month: int, row: Row, lo: Date, hi: Date)
    ensures var r, n := ReadRow(year, month, row, lo, hi), Parse(row.date);
      r.Stop? <==> (n.Some? && (n.value < CIntMin || CIntMax < n.value
                                || (Valid(Date(year, month, n.value)) && InRange(Date(year, month, n.value), lo, hi) && Parse(row.attendance).None?)))
    ensures var r, n := ReadRow(year, month, row, lo, hi), Parse(row.date);
      r.Keep? <==> (n.Some? && CIntMin <= n.value <= CIntMax
                    && Valid(Date(year, month, n.value)) && InRange(Date(year, month, n.value), lo, hi) && Parse(row.attendance).Some?)
    ensures var r := ReadRow(year, month, row, lo, hi);
      r.Keep? ==> Parse(row.date) == Some(r.date.day) && r.event == NewEvent(row.time, row.eventName, row.location, Parse(row.attendance).value)
  {
  }

  /** The rows of a month file, each as the row loop treats it. */
  function ReadRows(year: int, month: int, rows: seq<Row>, lo: Date, hi: Date): (r: seq<Outcome>)
    ensures |r| == |rows|
  {
    seq(|rows|, k requires 0 <= k < |rows| => ReadRow(year, month, rows[k], lo, hi))
  }

  lemma ReadRowsAt(year: int, month: int, rows: seq<Row>, lo: Date, hi: Date, j: nat)
    requires j < |rows|
    ensures ReadRows(year, month, rows, lo, hi)[j] == ReadRow(year, month, rows[j], lo, hi)
    ensures ReadRows(year, month, rows, lo, hi)[..j + 1] == ReadRows(year, month, rows[..j + 1], lo, hi)
  {
  }

  /** Some row stops the script. */
  predicate AnyStop(outs: seq<Outcome>) {
    exists k :: 0 <= k < |outs| && outs[k].Stop?
  }

  /** The events the rows append on date `d`, in row order. */
  function DayEvents(outs: seq<Outcome>, d: Date): (r: seq<Event>)
    ensures |r| <= |outs|
  {
    if outs == [] then []
    else
      var before := DayEvents(outs[..|outs| - 1], d);
      var o := outs[|outs| - 1];
      if o.Keep? && o.date == d then before + [o.event] else before
  }

  /** A row's event goes to the date it was kept on. */
  lemma DayEventsStep(outs: seq<Outcome>, j: nat, d: Date)
    requires j < |outs|
    ensures DayEvents(outs[..j + 1], d) == DayEvents(outs[..j], d) + (if outs[j].Keep? && outs[j].date == d then [outs[j].event] else [])
  {
    assert outs[..j + 1][..j] == outs[..j];
  }

  /** Every event appended on `d` comes from a row kept on `d`. */
  lemma {:induction false} DayEventsFrom(outs: seq<Outcome>, d: Date)
    requires DayEvents(outs, d) != []
    ensures exists j :: 0 <= j < |outs| && outs[j].Keep? && outs[j].date == d
  {
    var n := |outs| - 1;
    if !(outs[n].Keep? && outs[n].date == d) {
      DayEventsFrom(outs[..n], d);
      var j :| 0 <= j < n && outs[..n][j].Keep? && outs[..n][j].date == d;
      assert outs[j] == outs[..n][j];
    }
  }

  // ----------------------------------------------------------- the row loop

  /** `events_by_date[d]` of the `defaultdict`, which is `[]` for a date never appended to. */
  function Get(events: map<Date, seq<Event>>, d: Date): seq<Event> {
    if d in events then events[d] else []
  }

  /** A `defaultdict(list)` only gets a key by an append, so no list is empty. */
  ghost predicate NoEmpty(events: map<Date, seq<Event>>) {
    forall d :: d in events ==> events[d] != []
  }

  /** `events` is `events0` with the events of the rows `outs` appended. */
  ghost predicate Appended(events: map<Date, seq<Event>>, events0: map<Date, seq<Event>>, outs: seq<Outcome>) {
    NoEmpty(events) && forall d :: Get(events, d) == Get(events0, d) + DayEvents(outs, d)
  }

  lemma AppendAssoc(a: seq<Event>, b: seq<Event>, c: seq<Event>)
    ensures (a + b) + c == a + (b + c)
  {
  }

  /** One more row that does not stop the script keeps `Appended`. */
  lemma RowStep(events: map<Date, seq<Event>>, events': map<Date, seq<Event>>, events0: map<Date, seq<Event>>, outs: seq<Outcome>, j: nat)
    requires j < |outs| && Appended(events, events0, outs[..j])
    requires events' == if outs[j].Keep? then events[outs[j].date := Get(events, outs[j].date) + [outs[j].event]] else events
    ensures Appended(events', events0, outs[..j + 1])
  {
    var o := outs[j];
    forall d ensures Get(events', d) == Get(events0, d) + DayEvents(outs[..j + 1], d) {
      DayEventsStep(outs, j, d);
      AppendAssoc(Get(events0, d), DayEvents(outs[..j], d), if o.Keep? && o.date == d then [o.event] else []);
    }
  }

  lemma NoStopStep(outs: seq<Outcome>, j: nat)
    requires j < |outs| && !AnyStop(outs[..j]) && !outs[j].Stop?
    ensures !AnyStop(outs[..j + 1])
  {
    assert outs[..j + 1] == outs[..j] + [outs[j]];
  }

  /** The append of a kept row to the list of its date. */
  method AddRow(events: map<Date, seq<Event>>, o: Outcome) returns (events': map<Date, seq<Event>>)
    requires !o.Stop?
    ensures events' == if o.Keep? then events[o.date := Get(events, o.date) + [o.event]] else events
  {
    events' := events;
    if o.Keep? {
      events' := events[o.date := Get(events, o.date) + [o.event]];
    }
  }

  /** The row loop over a month file of `ym`: each row kept appends its event
      to its date's list, in row order; the first row that stops the script
      ends the loop. */
  method CollectMonth(ym: (int, int), rows: seq<Row>, start: Date, end: Date, events0: map<Date, seq<Event>>)
    returns (crashed: bool, events: map<Date, seq<Event>>)
    requires NoEmpty(events0)
    ensures crashed <==> AnyStop(ReadRows(ym.0, ym.1, rows, start, end))
    ensures !crashed ==> Appended(events, events0, ReadRows(ym.0, ym.1, rows, start, end))
  {
    ghost var outs := ReadRows(ym.0, ym.1, rows, start, end);
    crashed, events := false, events0;
    var j := 0;
    while j < |rows|
      invariant 0 <= j <= |rows|
      invariant !AnyStop(outs[..j])
      invariant Appended(events, events0, outs[..j])
    {
      var o := ReadRow(ym.0, ym.1, rows[j], start, end);
      ReadRowsAt(ym.0, ym.1, rows, start, end, j);
      if o.Stop? {
        assert outs[j].Stop?;
        return true, events;
      }
      var before := events;
      events := AddRow(events, o);
      RowStep(before, events, events0, outs, j);
      NoStopStep(outs, j);
      j := j + 1;
    }
    assert outs[..|rows|] == outs;
  }
}
