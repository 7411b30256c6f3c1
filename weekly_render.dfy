/** The text of the weekly summary: a header, the days with events in date
    order with their tags, the seasonal message that replaces everything
    when nothing is disruptive, and the warning about months not uploaded. */
module WeeklyRender {
  import opened PyInt
  import opened Calendar
  import opened EventFields
  import opened CombinedEvents
  import opened WeeklySummary

  const CombinedTag: string := "\t*\U{1F4E3}\U{1F4E3} Large combined events \U{1F4E3}\U{1F4E3}*"
  const EarlyTag: string := "\t*\U{2600}\U{FE0F} Early event warning \U{2600}\U{FE0F}*"
  const LargeTag: string := "\t*\U{1F6A8} Large event \U{1F6A8}*"

  /** The tags an event line gets: early first, then large. */
  function Tags(e: Event): string {
    (if IsEarly(e) then EarlyTag else "") + (if IsLarge(e) then LargeTag else "")
  }

  /** The line of the only event of a day. */
  function SingleLine(d: Date, e: Event): string
    requires Valid(d)
  {
    DatedLine(d, e) + Tags(e)
  }

  /** The line that opens a day of several events. */
  function DayHeader(d: Date, n: nat, combined: bool): string
    requires Valid(d)
  {
    "* **" + WeekdayAbbr(d) + ", " + MonthDay(d) + "**, there are " + NatToString(n) + " events:"
      + (if combined then "\t" + CombinedTag else "")
  }

  /** The indented line of one of several events of a day. */
  function NestedLine(e: Event): string {
    "   * **at " + e.timeStr + ":** " + e.name + " at " + e.location + Tags(e)
  }

  function NestedLines(evs: seq<Event>): (r: seq<string>)
    ensures |r| == |evs|
  {
    seq(|evs|, k requires 0 <= k < |evs| => NestedLine(evs[k]))
  }

  /** The lines of one day: a single line for a single event, otherwise a
      header and one line per event in collection order. */
  function DayLines(d: Date, evs: seq<Event>): seq<string>
    requires Valid(d)
  {
    if |evs| == 1 then [SingleLine(d, evs[0])]
    else [DayHeader(d, |evs|, CombinedLarge(evs))] + NestedLines(evs)
  }

  /** A day that sets `disruptive_event_found`: an early or large event, or
      the combined tag. */
  predicate DayDisruptive(evs: seq<Event>) {
    CombinedLarge(evs) || AnyFlagged(evs, |evs|)
  }

  /** One of the first `n` events is early or large. */
  predicate AnyFlagged(evs: seq<Event>, n: nat)
    requires n <= |evs|
  {
    exists k :: 0 <= k < n && Flagged(evs[k])
  }

  lemma AnyFlaggedStep(evs: seq<Event>, i: nat)
    requires i < |evs|
    ensures AnyFlagged(evs, i + 1) <==> AnyFlagged(evs, i) || Flagged(evs[i])
  {
    if Flagged(evs[i]) {
      assert 0 <= i < i + 1 && Flagged(evs[i]);
    }
  }

  /** `days` are dates of `events`. */
  predicate DaysOf(days: seq<Date>, events: map<Date, seq<Event>>) {
    forall k :: 0 <= k < |days| ==> days[k] in events && Valid(days[k])
  }

  /** The lines of each day of `days`, one day after another. */
  function DaysLines(days: seq<Date>, events: map<Date, seq<Event>>): seq<string>
    requires DaysOf(days, events)
  {
    if days == [] then []
    else
      var n := |days| - 1;
      DaysLines(days[..n], events) + DayLines(days[n], events[days[n]])
  }

  /** Dates of the collected events are real dates. */
  predicate ValidDates<V>(events: map<Date, V>) {
    forall d :: d in events ==> Valid(d)
  }

  /** `disruptive_event_found` after the render loop. */
  predicate WeekDisruptive(events: map<Date, seq<Event>>) {
    exists d :: d in events && DayDisruptive(events[d])
  }

  /** The first line, naming the window. */
  function Header(today: Date): string
    requires TodayOk(today)
  {
    "## Welcome to your weekly Navy Yard traffic disruptions summary for "
      + MonthDay(StartDate(today)) + "-" + MonthDay(EndDate(today))
  }

  const PhilsMessage: string := "## There are no disruptive events at the stadiums this week. Go Phils!"
  const BirdsMessage: string := "## There are no disruptive events at the stadiums this week. Go Birds!"

  /** The only line left when nothing is disruptive: baseball season from
      March to August, football season otherwise. */
  function QuietMessage(month: int): string {
    if 3 <= month <= 8 then PhilsMessage else BirdsMessage
  }

  /** `summary_lines` before the missing-month warning. */
  function SummaryBody(today: Date, events: map<Date, seq<Event>>): seq<string>
    requires TodayOk(today) && ValidDates(events)
  {
    if WeekDisruptive(events) then
      [Header(today), ""] + DaysLines(SortedDates(events.Keys), events) + ["", ""]
    else [QuietMessage(today.month)]
  }

  /** `missing_dates`: the window dates whose month has no file. */
  function MissingDates(dateToMonth: map<Date, (int, int)>, missing: set<(int, int)>): set<Date> {
    set d | d in dateToMonth && dateToMonth[d] in missing
  }

  /** The warning naming the earliest and latest dates not uploaded. */
  function Warning(dates: set<Date>): string
    requires dates != {} && forall d :: d in dates ==> Valid(d)
  {
    "Warning: events for dates " + MonthDay(Earliest(dates)) + "-" + MonthDay(Latest(dates))
      + " have not yet been uploaded."
  }

  /** The whole summary. */
  function SummaryLines(today: Date, events: map<Date, seq<Event>>, dateToMonth: map<Date, (int, int)>,
                        missing: set<(int, int)>): seq<string>
    requires TodayOk(today) && ValidDates(events) && ValidDates(dateToMonth)
  {
    var dates := MissingDates(dateToMonth, missing);
    SummaryBody(today, events) + if dates != {} then [Warning(dates)] else []
  }

  // ------------------------------------------------------------ the loops

  /** The tag checks of one event line, which also set the flag. */
  method AddTags(line: string, e: Event) returns (tagged: string, flagged: bool)
    ensures tagged == line + Tags(e)
    ensures flagged <==> Flagged(e)
  {
    tagged, flagged := line, false;
    if IsEarly(e) {
      tagged, flagged := tagged + EarlyTag, true;
    }
    if IsLarge(e) {
      tagged, flagged := tagged + LargeTag, true;
    }
  }

  /** The body of the render loop for one date (lines 126-170). */
  method RenderDay(d: Date, evs: seq<Event>) returns (lines: seq<string>, flagged: bool)
    requires Valid(d)
    ensures lines == DayLines(d, evs)
    ensures flagged <==> DayDisruptive(evs)
  {
    var combined := CombinedCheck(evs);
    flagged := combined;
    if |evs| == 1 {
      var line, f := AddTags(DatedLine(d, evs[0]), evs[0]);
      flagged := flagged || f;
      lines := [line];
      AnyFlaggedStep(evs, 0);
    } else {
      lines := [DayHeader(d, |evs|, combined)];
      var i := 0;
      while i < |evs|
        invariant 0 <= i <= |evs|
        invariant lines == [DayHeader(d, |evs|, combined)] + NestedLines(evs[..i])
        invariant flagged <==> combined || AnyFlagged(evs, i)
      {
        var e := evs[i];
        var line, f := AddTags("   * **at " + e.timeStr + ":** " + e.name + " at " + e.location, e);
        NestedLinesStep(evs, i);
        AnyFlaggedStep(evs, i);
        flagged := flagged || f;
        lines := lines + [line];
        i := i + 1;
      }
      assert evs[..|evs|] == evs;
    }
  }

  lemma NestedLinesStep(evs: seq<Event>, i: nat)
    requires i < |evs|
    ensures NestedLines(evs[..i + 1]) == NestedLines(evs[..i]) + [NestedLine(evs[i])]
  {
    assert forall k :: 0 <= k < i ==> evs[..i + 1][k] == evs[..i][k];
  }

  lemma DaysOfPrefix(days: seq<Date>, events: map<Date, seq<Event>>, i: nat)
    requires i <= |days| && DaysOf(days, events)
    ensures DaysOf(days[..i], events)
  {
  }

  lemma DaysLinesStep(days: seq<Date>, events: map<Date, seq<Event>>, i: nat, before: seq<string>, dayLines: seq<string>)
    requires i < |days| && DaysOf(days, events)
    requires DaysOf(days[..i], events) && before == DaysLines(days[..i], events)
    requires dayLines == DayLines(days[i], events[days[i]])
    ensures DaysOf(days[..i + 1], events)
    ensures before + dayLines == DaysLines(days[..i + 1], events)
  {
    var p := days[..i + 1];
    DaysOfPrefix(days, events, i + 1);
    assert p[..i] == days[..i];
    assert p[i] == days[i];
    assert DaysLines(p, events) == DaysLines(p[..i], events) + DayLines(p[i], events[p[i]]);
  }

  /** One of the first `n` days is disruptive. */
  predicate AnyDisruptive(days: seq<Date>, events: map<Date, seq<Event>>, n: nat)
    requires n <= |days| && DaysOf(days, events)
  {
    exists k :: 0 <= k < n && DayDisruptive(events[days[k]])
  }

  lemma AnyDisruptiveStep(days: seq<Date>, events: map<Date, seq<Event>>, i: nat)
    requires i < |days| && DaysOf(days, events)
    ensures AnyDisruptive(days, events, i + 1) <==> AnyDisruptive(days, events, i) || DayDisruptive(events[days[i]])
  {
    if DayDisruptive(events[days[i]]) {
      assert 0 <= i < i + 1 && DayDisruptive(events[days[i]]);
    }
  }

  /** `for event_date in sorted(events_by_date.keys())`: the lines of every
      day in turn, and whether any of them is disruptive. */
  method RenderDays(days: seq<Date>, events: map<Date, seq<Event>>) returns (lines: seq<string>, disruptive: bool)
    requires DaysOf(days, events)
    ensures lines == DaysLines(days, events)
    ensures disruptive <==> AnyDisruptive(days, events, |days|)
  {
    lines, disruptive := [], false;
    var i := 0;
    while i < |days|
      invariant 0 <= i <= |days| && DaysOf(days[..i], events)
      invariant lines == DaysLines(days[..i], events)
      invariant disruptive <==> AnyDisruptive(days, events, i)
    {
      var d := days[i];
      var dayLines, flagged := RenderDay(d, events[d]);
      DaysLinesStep(days, events, i, lines, dayLines);
      AnyDisruptiveStep(days, events, i);
      lines := lines + dayLines;
      disruptive := disruptive || flagged;
      i := i + 1;
    }
    assert days[..|days|] == days;
  }

  /** Every date of `events` is rendered, so the flag of the loop is the
      flag of the week. */
  lemma SortedDaysDisruptive(events: map<Date, seq<Event>>)
    requires ValidDates(events)
    ensures DaysOf(SortedDates(events.Keys), events)
    ensures WeekDisruptive(events) <==> AnyDisruptive(SortedDates(events.Keys), events, |events|)
  {
    var days := SortedDates(events.Keys);
    if WeekDisruptive(events) {
      var d :| d in events && DayDisruptive(events[d]);
      assert d in days;
      var k :| 0 <= k < |days| && days[k] == d;
    }
  }

  /** Lines 122-187: the header, the render loop, the two blank lines, the
      overwrite when nothing was disruptive, and the missing-month warning. */
  method Summarize(today: Date, events: map<Date, seq<Event>>, dateToMonth: map<Date, (int, int)>,
                   missing: set<(int, int)>) returns (lines: seq<string>)
    requires TodayOk(today) && ValidDates(events) && ValidDates(dateToMonth)
    ensures lines == SummaryLines(today, events, dateToMonth, missing)
  {
    var days := SortedDates(events.Keys);
    SortedDaysDisruptive(events);
    var dayLines, disruptive := RenderDays(days, events);
    lines := [Header(today), ""] + dayLines + ["", ""];
    if !disruptive {
      lines := [QuietMessage(today.month)];
    }
    BodyOfRender(today, events, dayLines, disruptive, lines);
    var body := lines;
    if missing != {} {
      var missingDates := MissingDates(dateToMonth, missing);
      if missingDates != {} {
        lines := lines + [Warning(missingDates)];
      }
    }
    WarningOfRender(today, events, dateToMonth, missing, body, lines);
  }

  lemma BodyOfRender(today: Date, events: map<Date, seq<Event>>, dayLines: seq<string>, disruptive: bool, body: seq<string>)
    requires TodayOk(today) && ValidDates(events)
    requires DaysOf(SortedDates(events.Keys), events) && dayLines == DaysLines(SortedDates(events.Keys), events)
    requires disruptive <==> WeekDisruptive(events)
    requires body == if disruptive then [Header(today), ""] + dayLines + ["", ""] else [QuietMessage(today.month)]
    ensures body == SummaryBody(today, events)
  {
  }

  lemma WarningOfRender(today: Date, events: map<Date, seq<Event>>, dateToMonth: map<Date, (int, int)>,
                        missing: set<(int, int)>, body: seq<string>, lines: seq<string>)
    requires TodayOk(today) && ValidDates(events) && ValidDates(dateToMonth)
    requires body == SummaryBody(today, events)
    requires var dates := MissingDates(dateToMonth, missing);
      lines == if missing != {} && dates != {} then body + [Warning(dates)] else body
    ensures lines == SummaryLines(today, events, dateToMonth, missing)
  {
    if missing == {} {
      assert MissingDates(dateToMonth, missing) == {};
    }
  }

  // ------------------------------------------------------------ properties

  /** With nothing disruptive the summary is the seasonal line alone,
      followed only by the warning when months are missing. */
  lemma QuietWeek(today: Date, events: map<Date, seq<Event>>, dateToMonth: map<Date, (int, int)>, missing: set<(int, int)>)
    requires TodayOk(today) && ValidDates(events) && ValidDates(dateToMonth)
    requires !WeekDisruptive(events)
    ensures var lines := SummaryLines(today, events, dateToMonth, missing);
      1 <= |lines| <= 2 && lines[0] == (if 3 <= today.month <= 8 then PhilsMessage else BirdsMessage)
  {
  }

  /** With something disruptive the summary opens with the header and a
      blank line, then the days with events in increasing date order, then
      two blank lines. */
  lemma BusyWeek(today: Date, events: map<Date, seq<Event>>, dateToMonth: map<Date, (int, int)>, missing: set<(int, int)>)
    requires TodayOk(today) && ValidDates(events) && ValidDates(dateToMonth)
    requires WeekDisruptive(events)
    ensures var days := SortedDates(events.Keys);
      Increasing(days) && (forall d :: d in days <==> d in events) && DaysOf(days, events)
      && SummaryBody(today, events) == [Header(today), ""] + DaysLines(days, events) + ["", ""]
  {
    SortedDaysDisruptive(events);
  }

  /** The warning comes last, after the overwrite too, exactly when some
      window date's month has no file, and it names the earliest and the
      latest such date. */
  lemma WarningLast(today: Date, events: map<Date, seq<Event>>, dateToMonth: map<Date, (int, int)>, missing: set<(int, int)>)
    requires TodayOk(today) && ValidDates(events) && ValidDates(dateToMonth)
    ensures var lines, dates := SummaryLines(today, events, dateToMonth, missing), MissingDates(dateToMonth, missing);
      (dates == {} ==> lines == SummaryBody(today, events))
      && (dates != {} ==> exists lo, hi ::
            lo in dates && hi in dates && (forall d :: d in dates ==> NotAfter(lo, d) && NotAfter(d, hi))
            && lines == SummaryBody(today, events)
                        + ["Warning: events for dates " + MonthDay(lo) + "-" + MonthDay(hi) + " have not yet been uploaded."])
  {
    var dates := MissingDates(dateToMonth, missing);
    if dates != {} {
      var lo, hi := Earliest(dates), Latest(dates);
      assert lo in dates && hi in dates;
    }
  }
}
