/** The daily alert: the rows of today's month file dated today, and one
    line for each of today's events that is early or large, under a
    reminder header. */
module DailyAlert {
  import opened Calendar
  import opened EventFields
  import opened CsvRows
  import opened Chunking

  /** The tags exactly as the daily script writes them: its emoji are UTF-8
      bytes read back as Windows-1252 text. */
  const EarlyTag: string := "\t*\U{E2}\U{2DC}\U{20AC}\U{EF}\U{B8} Early event warning \U{E2}\U{2DC}\U{20AC}\U{EF}\U{B8}*"
  const LargeTag: string := "\t*\U{F0}\U{178}\U{161}\U{A8} Large event \U{F0}\U{178}\U{161}\U{A8}*"

  const Reminder: string := "## Reminder! There are potentially disruptive events today."

  /** The line of an event: the early tag, then the large tag, each only
      when its condition holds. */
  function AlertLine(d: Date, e: Event): string
    requires Valid(d)
  {
    DatedLine(d, e) + (if IsEarly(e) then EarlyTag else "") + (if IsLarge(e) then LargeTag else "")
  }

  /** The lines of the flagged events of `evs`, in order. */
  function DayAlerts(d: Date, evs: seq<Event>): (r: seq<string>)
    requires Valid(d)
    ensures |r| <= |evs|
  {
    if evs == [] then []
    else
      var n := |evs| - 1;
      DayAlerts(d, evs[..n]) + if Flagged(evs[n]) then [AlertLine(d, evs[n])] else []
  }

  /** The lines of each day of `days`, one day after another. */
  function DaysAlerts(days: seq<Date>, events: map<Date, seq<Event>>): seq<string>
    requires forall k :: 0 <= k < |days| ==> days[k] in events && Valid(days[k])
  {
    if days == [] then []
    else
      var n := |days| - 1;
      DaysAlerts(days[..n], events) + DayAlerts(days[n], events[days[n]])
  }

  /** `summary_lines`: the event lines under the header and a blank line,
      or nothing at all. */
  function AlertLines(events: map<Date, seq<Event>>): seq<string>
    requires forall d :: d in events ==> Valid(d)
  {
    var body := DaysAlerts(SortedDates(events.Keys), events);
    if body != [] then [Reminder, ""] + body else []
  }

  /** The events the rows of today's month file add to today, when the file
      exists. */
  function TodayEvents(today: Date, files: map<(int, int), seq<Row>>): seq<Event> {
    var ym := (today.year, today.month);
    if ym in files then DayEvents(ReadRows(ym.0, ym.1, files[ym], today, today), today) else []
  }

  /** Some row of today's month file stops the script. */
  predicate TodayCrashes(today: Date, files: map<(int, int), seq<Row>>) {
    var ym := (today.year, today.month);
    ym in files && AnyStop(ReadRows(ym.0, ym.1, files[ym], today, today))
  }

  /** `events_by_date` after the row loop: today's events under today, and
      no other date. */
  function TodayMap(today: Date, files: map<(int, int), seq<Row>>): map<Date, seq<Event>> {
    if TodayEvents(today, files) == [] then map[] else map[today := TodayEvents(today, files)]
  }

  // ------------------------------------------------------------ collection

  /** The only date from `today` to `today` is today. */
  lemma InRangeOfToday(d: Date, today: Date)
    ensures InRange(d, today, today) <==> d == today
  {
  }

  /** A row is kept on a date only when that date is today. */
  lemma {:induction false} KeptOnlyToday(year: int, month: int, rows: seq<Row>, today: Date, d: Date)
    requires d != today
    ensures DayEvents(ReadRows(year, month, rows, today, today), d) == []
    decreases |rows|
  {
    if rows != [] {
      var n := |rows| - 1;
      KeptOnlyToday(year, month, rows[..n], today, d);
      var outs := ReadRows(year, month, rows, today, today);
      assert outs[..n] == ReadRows(year, month, rows[..n], today, today);
      if outs[n].Keep? {
        InRangeOfToday(outs[n].date, today);
      }
    }
  }

  lemma TodayMapOfAppended(today: Date, files: map<(int, int), seq<Row>>, events: map<Date, seq<Event>>)
    requires (today.year, today.month) in files
    requires var ym := (today.year, today.month); Appended(events, map[], ReadRows(ym.0, ym.1, files[ym], today, today))
    ensures events == TodayMap(today, files)
  {
    var ym := (today.year, today.month);
    forall d | d != today ensures d !in events {
      KeptOnlyToday(ym.0, ym.1, files[ym], today, d);
      assert Get(events, d) == [];
    }
    assert Get(events, today) == TodayEvents(today, files);
  }

  /** Lines 75-106: today's month file, if there is one, read row by row
      keeping the rows dated today. */
  method CollectToday(today: Date, files: map<(int, int), seq<Row>>) returns (crashed: bool, events: map<Date, seq<Event>>)
    ensures crashed <==> TodayCrashes(today, files)
    ensures !crashed ==> events == TodayMap(today, files)
  {
    var ym := (today.year, today.month);
    if ym in files {
      crashed, events := CollectMonth(ym, files[ym], today, today, map[]);
      if !crashed {
        TodayMapOfAppended(today, files, events);
      }
    } else {
      crashed, events := false, map[];
    }
  }

  // ------------------------------------------------------------ rendering

  lemma DayAlertsStep(d: Date, evs: seq<Event>, i: nat, before: seq<string>)
    requires Valid(d) && i < |evs| && before == DayAlerts(d, evs[..i])
    ensures DayAlerts(d, evs[..i + 1]) == before + if Flagged(evs[i]) then [AlertLine(d, evs[i])] else []
  {
    assert evs[..i + 1][..i] == evs[..i];
  }

  /** The inner loop over the events of one date. */
  method RenderDate(d: Date, evs: seq<Event>) returns (lines: seq<string>)
    requires Valid(d)
    ensures lines == DayAlerts(d, evs)
  {
    lines := [];
    var i := 0;
    while i < |evs|
      invariant 0 <= i <= |evs| && lines == DayAlerts(d, evs[..i])
    {
      var ev := evs[i];
      var line := TaggedLine(d, ev);
      DayAlertsStep(d, evs, i, lines);
      if IsEarly(ev) || IsLarge(ev) {
        lines := lines + [line];
      }
      i := i + 1;
    }
    assert evs[..|evs|] == evs;
  }

  /** Lines 116-125: the line of an event, with its tags. */
  method TaggedLine(d: Date, ev: Event) returns (line: string)
    requires Valid(d)
    ensures line == AlertLine(d, ev)
  {
    line := DatedLine(d, ev);
    if IsEarly(ev) {
      line := line + EarlyTag;
    }
    if IsLarge(ev) {
      line := line + LargeTag;
    }
  }

  lemma DaysAlertsStep(days: seq<Date>, events: map<Date, seq<Event>>, i: nat, before: seq<string>)
    requires i < |days| && forall k :: 0 <= k < |days| ==> days[k] in events && Valid(days[k])
    requires before == DaysAlerts(days[..i], events)
    ensures DaysAlerts(days[..i + 1], events) == before + DayAlerts(days[i], events[days[i]])
  {
    var p := days[..i + 1];
    assert p[..i] == days[..i];
    assert p[i] == days[i];
  }

  /** Lines 109-129: every date in order. */
  method RenderDates(events: map<Date, seq<Event>>) returns (lines: seq<string>)
    requires forall d :: d in events ==> Valid(d)
    ensures lines == DaysAlerts(SortedDates(events.Keys), events)
  {
    var days := SortedDates(events.Keys);
    assert forall k :: 0 <= k < |days| ==> days[k] in events && Valid(days[k]);
    lines := RenderDayList(days, events);
  }

  /** The loop over the sorted dates. */
  method RenderDayList(days: seq<Date>, events: map<Date, seq<Event>>) returns (lines: seq<string>)
    requires forall k :: 0 <= k < |days| ==> days[k] in events && Valid(days[k])
    ensures lines == DaysAlerts(days, events)
  {
    lines := [];
    var i := 0;
    while i < |days|
      invariant 0 <= i <= |days| && lines == DaysAlerts(days[..i], events)
    {
      var d := days[i];
      var dayLines := RenderDate(d, events[d]);
      DaysAlertsStep(days, events, i, lines);
      lines := lines + dayLines;
      i := i + 1;
    }
    assert days[..|days|] == days;
  }

  /** Lines 109-133: the event lines, then the header and the blank line in
      front when something was emitted. */
  method RenderAlert(events: map<Date, seq<Event>>) returns (lines: seq<string>)
    requires forall d :: d in events ==> Valid(d)
    ensures lines == AlertLines(events)
  {
    lines := RenderDates(events);
    if lines != [] {
      lines := [""] + lines;
      lines := [Reminder] + lines;
    }
  }

  /** The whole script up to the messages sent: the lines, and the chunks
      they are sent in. */
  method Alert(today: Date, files: map<(int, int), seq<Row>>) returns (crashed: bool, lines: seq<string>, chunks: seq<string>)
    requires Valid(today)
    ensures crashed <==> TodayCrashes(today, files)
    ensures !crashed ==> lines == AlertLines(TodayMap(today, files)) && chunks == Chunks(lines)
  {
    var events;
    crashed, events := CollectToday(today, files);
    if crashed {
      return crashed, [], [];
    }
    lines := RenderAlert(events);
    chunks := Chunk(lines);
  }

  // ------------------------------------------------------------ properties

  /** Exactly the flagged events get a line, in collection order. */
  lemma {:induction false} DayAlertsAreFlagged(d: Date, evs: seq<Event>)
    requires Valid(d)
    ensures DayAlerts(d, evs) == [] <==> forall k :: 0 <= k < |evs| ==> !Flagged(evs[k])
  {
    if evs != [] {
      var n := |evs| - 1;
      DayAlertsAreFlagged(d, evs[..n]);
      assert forall k :: 0 <= k < n ==> evs[..n][k] == evs[k];
    }
  }

  /** The alert is empty when no event of today is early or large;
      otherwise it opens with the header and one blank line, followed by
      the lines of today's flagged events in row order. */
  lemma AlertOfToday(today: Date, files: map<(int, int), seq<Row>>)
    requires Valid(today)
    ensures var evs := TodayEvents(today, files);
      AlertLines(TodayMap(today, files)) == if DayAlerts(today, evs) == [] then [] else [Reminder, ""] + DayAlerts(today, evs)
  {
    var events := TodayMap(today, files);
    var evs := TodayEvents(today, files);
    if evs == [] {
      assert events.Keys == {};
    } else {
      assert events.Keys == {today};
      OnlyDate(events, today);
    }
  }

  lemma OnlyDate(events: map<Date, seq<Event>>, today: Date)
    requires Valid(today) && events.Keys == {today}
    ensures DaysAlerts(SortedDates(events.Keys), events) == DayAlerts(today, events[today])
  {
    var days := SortedDates(events.Keys);
    assert days[0] == today;
    assert days == [today];
    assert days[..0] == [];
    assert DaysAlerts(days, events) == DaysAlerts(days[..0], events) + DayAlerts(today, events[today]);
  }
}
