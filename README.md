# Philadelphia stadium events: a verified model of the calendar and alert scripts

The stadium complex next to the Navy Yard publishes a monthly calendar of
events. One set of scripts turns it into traffic alerts for people who
commute by the stadiums:

- the calendar-links step reads the month label of each calendar entry on
  the complex's page. It keeps the entries of the current month, plus the
  next month once that is at most six days away, each with the URL of its
  PDF;
- the entry parser splits the calendar text into entries, one per closing
  parenthesis. A regular expression then cuts each entry into a date, a
  start time, an event name and an attendance;
- the weekly summary reads the month CSV files for the five days after
  today. It lists every day with events and tags early events (before
  18:00), large events (more than 50000 people) and large combined events
  (several events over 50000 in total, two of them at most two hours
  apart). When nothing is disruptive it prints a seasonal line instead, and
  it warns about months whose file has not been uploaded;
- the daily alert reads today's rows and lists today's early or large events
  under a reminder header;
- both alert scripts split their lines into messages of at most 1900
  characters.

The model is written in Dafny, one module per concern.

| file | module | what it holds |
|---|---|---|
| option.dfy | `Opt` | the `Option` type |
| text.dfy | `PyText` | the Python `str` operations the scripts use (`strip`, `split`, `join`, `find`, `replace`, `lower`, `capitalize`) |
| pyint.dfy | `PyInt` | `int(text)` and `str(n)` |
| calendar.dfy | `Calendar` | `datetime` dates: validity, order, ordinals, adding days, `%a`, `%-m/%-d`, `sorted`, `min`, `max` |
| normalize.dfy | `EventFields` | `clean_event_name`, `normalize_time_display`, `parse_event_time`, `LOCATION_MAP`, the early and large tests |
| rows.dfy | `CsvRows` | the row loop both alert scripts share |
| weekly.dfy | `WeeklySummary` | the five-day window and the loop over the required months |
| combined.dfy | `CombinedEvents` | the large-combined-events test |
| weekly_render.dfy | `WeeklyRender` | the text of the weekly summary |
| daily.dfy | `DailyAlert` | the daily alert |
| chunking.dfy | `Chunking` | the message splitter |
| entry_text.dfy | `CalendarText` | `parse_entries` and `parse_entry` |
| entry_roundtrip.dfy | `EntryRoundTrip` | `parse_entry` on entries laid out as a day number, a time, an event and an attendance |
| url_match.dfy | `UrlMatch` | the search for the PDF address in an entry's block |
| pdf_links.dfy | `PdfLinks` | `parse_month_str` and the loop that selects the calendar links |
| weekly_script.dfy | `WeeklyScript` | the weekly summary script put together |

The scripts change state step by step: they run loops that append to lists
and fill dictionaries. Those loops are Dafny methods with loop invariants,
and each is proved equal to a function that states the result directly.
Further lemmas then state the properties of those functions. Pure helpers
(`clean_event_name`, `parse_month_str`, `parse_entry`) are functions.

Regular expressions are modelled by what they match. `re.match` and
`re.search` follow Python's backtracking order: greedy repetition tries the
longest run first, lazy repetition the shortest, and an optional group is
tried present first. The expression of `parse_entry` is modelled as the
list of all its matches in that order. The match Python returns is the head
of that list.

## Model

| member | source | states |
|---|---|---|
| PyText.Strip | traffic-alerts/4-weekly-traffic-summary.py:57 | `strip()` leaves no whitespace at either end and removes only whitespace margins |
| PyText.StripOfStripped | traffic-alerts/4-weekly-traffic-summary.py:57 | stripping text with no whitespace at its ends changes nothing |
| PyText.StripUnique | traffic-alerts/4-weekly-traffic-summary.py:57 | any stripped text that sits between two whitespace margins of the text is what `strip()` gives |
| PyText.StripMargins | traffic-alerts/4-weekly-traffic-summary.py:57 | whitespace added at either end does not change what `strip()` gives |
| PyText.BeforeFirst | traffic-alerts/4-weekly-traffic-summary.py:57 | `split(p)[0]` is the text up to the first start of `p`: a prefix without `p`, the whole text when `p` does not occur, and otherwise followed by `p` with no earlier start of `p` |
| PyText.Find | working/3-attempt-to-parse-files.py:9 | `find` gives the first occurrence, and none exactly when the pattern does not occur |
| PyText.ReplaceAbsent | traffic-alerts/4-weekly-traffic-summary.py:53-56 | replacing a word the text does not contain changes nothing |
| PyText.RewriteRemovesWord | traffic-alerts/4-weekly-traffic-summary.py:53-56 | after rewriting a capitalised team name, the capitalised name no longer occurs |
| PyText.RewriteKeepsAbsentWord | traffic-alerts/4-weekly-traffic-summary.py:53-56 | a rewrite adds no capitalised word that was not already there |
| PyText.UpperWordFromSource | traffic-alerts/4-weekly-traffic-summary.py:53-56 | every all-capitals word of two or more letters in the rewritten text was already in the text, and is not the rewritten word |
| PyText.RemoveChar | working/1-get-pdf-links.py:17 | `replace(c, "")` removes every `c` and keeps every other character |
| PyText.RemoveCharCounts | working/1-get-pdf-links.py:17 | `replace(c, "")` keeps every other character exactly as many times as the text has it, and drops every `c` |
| PyText.RemoveCharAppend | working/1-get-pdf-links.py:17 | removal works piece by piece, so the kept characters stay in their order |
| PyText.Collapse | working/3-attempt-to-parse-files.py:19 | `" ".join(e.split())` is stripped, has only single spaces between words, and has the same words as the text |
| PyText.CollapseOfCollapsed | working/3-attempt-to-parse-files.py:19 | collapsing collapsed text changes nothing |
| PyText.JoinIsCollapsed | working/3-attempt-to-parse-files.py:19 | joining non-empty space-free words with one space gives collapsed text |
| PyText.WordsSplit | working/3-attempt-to-parse-files.py:19 | `split()` cuts the text into its maximal runs of non-whitespace, in order: the text is whitespace gaps and the words interleaved, each word non-empty without whitespace and each inner gap non-empty |
| PyText.WordsUnique | working/3-attempt-to-parse-files.py:19 | any cutting of a text into such words and gaps gives exactly the words of `split()` |
| PyText.WordsOfJoin | working/3-attempt-to-parse-files.py:19 | splitting non-empty space-free words joined by single spaces gives back the words |
| PyText.LStrip | working/3-attempt-to-parse-files.py:19 | the text after the leading whitespace starts with a non-space |
| PyInt.Parse | traffic-alerts/4-weekly-traffic-summary.py:100 | `int(text)` fails on blank text, and a negative result comes from a leading minus |
| PyInt.ParseDigits | traffic-alerts/4-weekly-traffic-summary.py:100 | `int()` of a digit string is its decimal value, and fails when it has more than 4300 digits |
| PyInt.ParseIgnoresMargins | traffic-alerts/4-weekly-traffic-summary.py:100 | whitespace around the text does not change what `int()` reads |
| PyInt.ParsePlusSign | traffic-alerts/4-weekly-traffic-summary.py:108 | a `+` in front of unsigned text changes nothing |
| PyInt.ParseMinusSign | traffic-alerts/4-weekly-traffic-summary.py:108 | a `-` in front of unsigned text succeeds exactly when the text alone does, and negates its value |
| PyInt.ParseNegatedNatToString | traffic-alerts/4-weekly-traffic-summary.py:108 | `int("-" + str(n)) == -n` for every `n` of at most 4300 digits, and fails beyond |
| PyInt.ParseLeadingZeros | traffic-alerts/4-weekly-traffic-summary.py:100 | leading zeros do not change the value, but count toward the 4300-digit limit |
| PyInt.ParseUnderscore | traffic-alerts/4-weekly-traffic-summary.py:108 | a single underscore between two digit groups does not change the value |
| PyInt.ParseStrayUnderscore | traffic-alerts/4-weekly-traffic-summary.py:108 | an underscore in front, at the end or doubled makes `int()` fail |
| PyInt.NatToString | traffic-alerts/4-weekly-traffic-summary.py:122 | `str(n)` is digits only, without a leading zero, and has the value `n` |
| PyInt.ParseNatToString | traffic-alerts/4-weekly-traffic-summary.py:100 | `int(str(n)) == n` |
| Calendar.DaysInMonth | traffic-alerts/4-weekly-traffic-summary.py:100 | every month has 28 to 31 days |
| Calendar.FirstOfMonth | working/1-get-pdf-links.py:59 | the first of a date's month is a valid date on day 1, not after the date |
| Calendar.BeforeIsOrdinalOrder | traffic-alerts/4-weekly-traffic-summary.py:103 | dates compare exactly as their ordinals do |
| Calendar.NextDay | traffic-alerts/4-weekly-traffic-summary.py:80 | `+ timedelta(days=1)` gives a valid later date with the next ordinal |
| Calendar.AddDays | traffic-alerts/4-weekly-traffic-summary.py:49-50 | `+ timedelta(days=n)` gives a valid date `n` ordinals later |
| Calendar.RoomBeforeLastYear | traffic-alerts/4-weekly-traffic-summary.py:49-50 | any date before year 9999 leaves room for a year of additions |
| Calendar.AddFewDays | working/1-get-pdf-links.py:62-63 | adding fewer than 28 days stays in the month or lands in the next one, with the day carried over |
| Calendar.Weekday | traffic-alerts/4-weekly-traffic-summary.py:126 | the weekday is in 0..6 |
| Calendar.DaysBeforeYearFormula | traffic-alerts/4-weekly-traffic-summary.py:126 | the days before a year are 365 a year plus one per Gregorian leap year before it |
| Calendar.WeekdayOfNextDay | traffic-alerts/4-weekly-traffic-summary.py:126 | the day after a date has the next weekday, Sunday followed by Monday |
| Calendar.NewYearWeekday | traffic-alerts/4-weekly-traffic-summary.py:126 | 1 January 2024 is a Monday, and `%a` prints `Mon` for it |
| Calendar.SortedDates | traffic-alerts/4-weekly-traffic-summary.py:125 | `sorted(keys)` lists each key exactly once, in increasing order |
| Calendar.Earliest | traffic-alerts/4-weekly-traffic-summary.py:185 | `min` is a member not after any other |
| Calendar.Latest | traffic-alerts/4-weekly-traffic-summary.py:186 | `max` is a member not before any other |
| Calendar.EarliestExists | traffic-alerts/4-weekly-traffic-summary.py:185 | every non-empty set of dates has an earliest member |
| EventFields.CleanEventName | traffic-alerts/4-weekly-traffic-summary.py:52-57 | a cleaned name has no `>>>`, no whitespace at its ends and no capitalised team name |
| EventFields.CleanEventNameIdempotent | traffic-alerts/4-weekly-traffic-summary.py:52-57 | cleaning a cleaned name changes nothing |
| EventFields.ProperCaseTeamsShape | traffic-alerts/4-weekly-traffic-summary.py:53-56 | after the four rewrites no team name is left in capitals |
| EventFields.NormalizeTimeDisplay | traffic-alerts/4-weekly-traffic-summary.py:68-69 | the display time has no spaces and no capitals, and keeps every other character of the lower-cased time as many times as it occurs |
| EventFields.NormalizeTimeDisplayIdempotent | traffic-alerts/4-weekly-traffic-summary.py:68-69 | normalising a display time again changes nothing |
| EventFields.HourField | traffic-alerts/4-weekly-traffic-summary.py:61 | `%I` reads one or two digits with a value in 1..12 |
| EventFields.MinuteField | traffic-alerts/4-weekly-traffic-summary.py:61 | `%M` reads one or two digits with a value in 0..59 |
| EventFields.HourFieldReadsHourText | traffic-alerts/4-weekly-traffic-summary.py:61 | `%I` reads exactly an hour spelling followed by a non-digit |
| EventFields.MinuteFieldReadsMinuteText | traffic-alerts/4-weekly-traffic-summary.py:61 | `%M` reads exactly a minute spelling followed by a non-digit |
| EventFields.ParseEventTime | traffic-alerts/4-weekly-traffic-summary.py:59-66 | a parsed time is a minute of the day |
| EventFields.StrptimeClockSound | traffic-alerts/4-weekly-traffic-summary.py:59-66 | whenever the left-to-right `strptime` reading succeeds, it agrees with the reference reading of the accepted forms |
| EventFields.ClockSpecComplete | traffic-alerts/4-weekly-traffic-summary.py:59-66 | whenever the reference reading succeeds, the two `strptime` attempts give the same time |
| EventFields.ParseEventTimeIsClockSpec | traffic-alerts/4-weekly-traffic-summary.py:59-66 | `parse_event_time` is exactly the reference reading of the text after its leading spaces |
| EventFields.ParseEventTimeRoundTrip | traffic-alerts/4-weekly-traffic-summary.py:59-66 | `H:MMam` and `H:MMpm` read back as the clock time they name |
| EventFields.StrptimeRoundTrip | traffic-alerts/4-weekly-traffic-summary.py:61 | the `%I:%M%p` format reads `H:MMam` and `H:MMpm` as the clock time they name |
| EventFields.ParseEventTimeHourRoundTrip | traffic-alerts/4-weekly-traffic-summary.py:59-66 | `Ham` and `Hpm` read back as the full hour they name |
| EventFields.ParseEventTimeRejectsHour | traffic-alerts/4-weekly-traffic-summary.py:59-66 | an hour of 0 or above 12 gives no time |
| EventFields.LocationName | traffic-alerts/4-weekly-traffic-summary.py:104 | `LOCATION_MAP.get(code, code)` replaces every venue code of the table by a name that is no code, and passes any other code through |
| EventFields.LocationNameProperties | traffic-alerts/4-weekly-traffic-summary.py:38-45 | looking up a display name again leaves it alone, and distinct venue codes have distinct names |
| EventFields.NewEvent | traffic-alerts/4-weekly-traffic-summary.py:104-116 | the record's parsed time, when present, is a minute of the day |
| EventFields.EarlyMeansBeforeSix | traffic-alerts/4-weekly-traffic-summary.py:145 | an event is early exactly when its time parsed to before 18:00 |
| CsvRows.ReadRowDay | traffic-alerts/4-weekly-traffic-summary.py:99-102 | a read day is a valid date of the file's month with that day number. The row is skipped exactly when `int` fails, or when the day fits a C int but names no date of that month |
| CsvRows.RowEvent | traffic-alerts/4-weekly-traffic-summary.py:104-116 | a record exists exactly when the attendance is an integer, and it holds that integer |
| CsvRows.ReadRow | traffic-alerts/4-weekly-traffic-summary.py:98-116 | a kept row has a valid date in the file's month and in the window |
| CsvRows.ReadRowCases | traffic-alerts/4-weekly-traffic-summary.py:98-116 | a row stops the script exactly when its day overflows a C int, or when it is kept and its attendance is not an integer; it is kept exactly when its date is valid, in the window and its attendance parses |
| CsvRows.AddRow | traffic-alerts/4-weekly-traffic-summary.py:110-116 | a kept row's record is appended to its date's list; any other row leaves the map alone |
| CsvRows.CollectMonth | traffic-alerts/4-weekly-traffic-summary.py:96-116 | the row loop stops exactly when some row stops it; otherwise every kept row's record is appended under its date, in row order |
| CsvRows.DayEventsFrom | traffic-alerts/4-weekly-traffic-summary.py:110-116 | every record collected under a date comes from a kept row of that date |
| WeeklySummary.StartDate | traffic-alerts/4-weekly-traffic-summary.py:49 | `start_date` is the day after today |
| WeeklySummary.EndDate | traffic-alerts/4-weekly-traffic-summary.py:50 | `end_date` is five days after today |
| WeeklySummary.InWindowByOrdinal | traffic-alerts/4-weekly-traffic-summary.py:103 | a date is in the window exactly when it is 1 to 5 days after today |
| WeeklySummary.BuildWindow | traffic-alerts/4-weekly-traffic-summary.py:73-80 | `date_to_month` maps exactly the window's dates to their months, and `required_months` is exactly the set of those months |
| WeeklySummary.ReadRowsOtherMonth | traffic-alerts/4-weekly-traffic-summary.py:100 | a month file keeps no row dated in another month |
| WeeklySummary.VisitMonth | traffic-alerts/4-weekly-traffic-summary.py:91-116 | one month of the loop: it stops the script exactly when the month has a file with a stopping row. Otherwise a month without a file is added to the missing ones, and a month with a file adds its rows' records |
| WeeklySummary.CollectWeek | traffic-alerts/4-weekly-traffic-summary.py:90-116 | the script stops exactly when some visited file has a stopping row. Otherwise `missing_months` is exactly the months without a file, and each date holds the records of its month file's rows |
| CombinedEvents.Sort | traffic-alerts/4-weekly-traffic-summary.py:134 | `sorted` gives an increasing permutation of the times |
| CombinedEvents.Insert | traffic-alerts/4-weekly-traffic-summary.py:134 | inserting into a sorted list keeps it sorted and adds exactly that element |
| CombinedEvents.SortedAdjacentNear | traffic-alerts/4-weekly-traffic-summary.py:135-140 | on sorted times, comparing neighbours finds two times at most two hours apart exactly when some pair is |
| CombinedEvents.SortKeepsNearPair | traffic-alerts/4-weekly-traffic-summary.py:134 | sorting neither adds nor removes a near pair |
| CombinedEvents.SomesNearPair | traffic-alerts/4-weekly-traffic-summary.py:134 | dropping the unparsed times keeps exactly the near pairs of parsed times |
| CombinedEvents.EventsNearPairIsSlots | traffic-alerts/4-weekly-traffic-summary.py:134 | two events are near exactly when their parsed times are |
| CombinedEvents.CombinedLargeMeaning | traffic-alerts/4-weekly-traffic-summary.py:130-140 | the combined tag fires exactly when the day has several events, more than 50000 attendees in total and two distinct events whose parsed times are at most two hours apart |
| CombinedEvents.ScanNeighbours | traffic-alerts/4-weekly-traffic-summary.py:135-140 | the scan with `break` finds a near pair exactly when some neighbours are near |
| CombinedEvents.CombinedCheck | traffic-alerts/4-weekly-traffic-summary.py:130-140 | the count, the sum, the sort and the scan fire exactly when the combined test holds |
| WeeklyRender.AddTags | traffic-alerts/4-weekly-traffic-summary.py:145-150 | the early tag comes before the large tag, and the flag is set exactly when the event is early or large |
| WeeklyRender.RenderDay | traffic-alerts/4-weekly-traffic-summary.py:126-165 | a day's lines: one line for a single event, else a header and one indented line per event. The flag is set exactly when some event is early or large, or the combined tag fires |
| WeeklyRender.RenderDays | traffic-alerts/4-weekly-traffic-summary.py:125-165 | every date's lines, one date after another, and the flag of any disruptive date |
| WeeklyRender.SortedDaysDisruptive | traffic-alerts/4-weekly-traffic-summary.py:125 | the render loop visits every date, so its flag is set exactly when some date is disruptive |
| WeeklyRender.Summarize | traffic-alerts/4-weekly-traffic-summary.py:119-187 | the script's summary text is the summary function of its inputs |
| WeeklyRender.QuietWeek | traffic-alerts/4-weekly-traffic-summary.py:172-178 | with nothing disruptive, the summary is the seasonal line (Phillies in March to August, Eagles otherwise), then at most the warning |
| WeeklyRender.BusyWeek | traffic-alerts/4-weekly-traffic-summary.py:119-168 | with something disruptive, the summary is the header, a blank line, the days in increasing date order and two blank lines |
| WeeklyRender.WarningLast | traffic-alerts/4-weekly-traffic-summary.py:181-187 | the warning comes last exactly when some window date's month has no file, and it names the earliest and latest such dates |
| WeeklyScript.CollectedDates | traffic-alerts/4-weekly-traffic-summary.py:91-116 | every date the collection holds is a valid window date of a visited month that has a file |
| WeeklyScript.WindowMissingDates | traffic-alerts/4-weekly-traffic-summary.py:183 | once every window month has been visited, `missing_dates` is exactly the window dates whose month has no file |
| WeeklyScript.Weekly | traffic-alerts/4-weekly-traffic-summary.py:72-210 | the whole weekly script up to sending: it stops exactly when a row of a window month's file stops it. Otherwise `date_to_month` maps exactly the window's dates to their months, each date holds its rows' records, the warning is about exactly the window dates whose month has no file, and the chunks are those of the summary's lines |
| DailyAlert.InRangeOfToday | traffic-alerts/4-daily-traffic-alerts.py:93 | the only date from today to today is today |
| DailyAlert.KeptOnlyToday | traffic-alerts/4-daily-traffic-alerts.py:93 | no row is kept on a date other than today |
| DailyAlert.CollectToday | traffic-alerts/4-daily-traffic-alerts.py:75-106 | the script stops exactly when a row of today's file stops it; otherwise today's records are under today, and no other date has any |
| DailyAlert.TaggedLine | traffic-alerts/4-daily-traffic-alerts.py:117-125 | an event's line, then the early tag, then the large tag, each only when its test holds |
| DailyAlert.RenderDate | traffic-alerts/4-daily-traffic-alerts.py:116-129 | the lines of a date are the lines of its early or large events, in order |
| DailyAlert.RenderDates | traffic-alerts/4-daily-traffic-alerts.py:111-129 | the lines of every date, in increasing date order |
| DailyAlert.RenderDayList | traffic-alerts/4-daily-traffic-alerts.py:111-129 | the loop over the sorted dates yields each date's lines in turn |
| DailyAlert.RenderAlert | traffic-alerts/4-daily-traffic-alerts.py:109-133 | the reminder header and a blank line go in front exactly when some line was emitted |
| DailyAlert.Alert | traffic-alerts/4-daily-traffic-alerts.py:75-177 | the whole daily script up to sending: the crash condition, the alert lines and their chunks |
| DailyAlert.DayAlertsAreFlagged | traffic-alerts/4-daily-traffic-alerts.py:128-129 | a date has no lines exactly when none of its events is early or large |
| DailyAlert.AlertOfToday | traffic-alerts/4-daily-traffic-alerts.py:109-133 | the alert is empty when no event of today is early or large; otherwise it is the header, a blank line and the lines of today's flagged events in row order |
| Chunking.ChunksConcat | traffic-alerts/4-weekly-traffic-summary.py:202-210 | the chunks put together are the lines, each followed by a newline: nothing is lost, reordered or added |
| Chunking.ChunksKeepLines | traffic-alerts/4-weekly-traffic-summary.py:202-210 | each chunk is a run of whole consecutive lines. A chunk over the budget holds at most one line. Only the first chunk can be empty. Every chunk but the last was closed because the next line would have taken it over the budget, and the last one is not empty |
| Chunking.ChunksWithinBudget | traffic-alerts/4-weekly-traffic-summary.py:205 | when every line is shorter than 1900 characters, every chunk is non-empty and at most 1900 characters long |
| Chunking.Chunk | traffic-alerts/4-weekly-traffic-summary.py:202-210 | the chunk loop yields the chunks of the lines, whose concatenation is the whole text |
| CalendarText.Content | working/3-attempt-to-parse-files.py:8-13 | the content is all of the text without the header, or what follows the header's first occurrence |
| CalendarText.SegmentsCover | working/3-attempt-to-parse-files.py:16 | the `(.*?\))` matches put together are the content up to its last `)`, and no `)` follows |
| CalendarText.SegmentsShape | working/3-attempt-to-parse-files.py:16 | each match ends with `)` and has no `)` before that |
| CalendarText.SegmentsCount | working/3-attempt-to-parse-files.py:16 | there are as many matches as closing parentheses |
| CalendarText.Cleaned | working/3-attempt-to-parse-files.py:19 | blank segments are dropped and the rest collapsed to single-spaced non-empty lines |
| CalendarText.CleanedKeepsAll | working/3-attempt-to-parse-files.py:16-19 | segments that end with `)` are never blank, so the filter drops none: the k-th entry is the k-th segment collapsed |
| CalendarText.CleanedIsCollapseAll | working/3-attempt-to-parse-files.py:19 | on such segments the comprehension is the segment-by-segment collapse |
| CalendarText.ParseEntries | working/3-attempt-to-parse-files.py:3-20 | there is one entry per `)` of the content, and the k-th entry is the k-th `(.*?\))` match with its whitespace collapsed: non-empty and single-spaced |
| CalendarText.InMatches | working/3-attempt-to-parse-files.py:31-39 | every match of the entry expression has the date, time, range, event and attendance shape |
| CalendarText.FirstMatch | working/3-attempt-to-parse-files.py:41 | `pattern.match` gives a match of that shape, and nothing exactly when there is no match |
| CalendarText.FirstMatchOrder | working/3-attempt-to-parse-files.py:32-36 | the lazy date stops at the first word boundary from which the rest matches, and a time range is left unmatched only when no range can lead to a match |
| CalendarText.RemoveLetters | working/3-attempt-to-parse-files.py:45 | `re.sub("[A-Za-z]", "")` leaves no ASCII letter |
| CalendarText.DateTextShape | working/3-attempt-to-parse-files.py:44-47 | the date field is never empty, has no letters and has no whitespace at its ends |
| CalendarText.TimeTextStripped | working/3-attempt-to-parse-files.py:50 | `strip()` leaves a time token unchanged |
| CalendarText.AttendanceDigits | working/3-attempt-to-parse-files.py:56 | the attendance field is the attendance group without commas, and digits only |
| CalendarText.FieldsShape | working/3-attempt-to-parse-files.py:42-58 | a match gives a time token equal to the time group, a stripped one-line event, and an attendance of digits |
| CalendarText.ParseEntry | working/3-attempt-to-parse-files.py:22-66 | on both branches the date is non-empty, letter-free and stripped, and the attendance is digits. The time is empty exactly when the expression did not match |
| CalendarText.ParseEntryUnmatched | working/3-attempt-to-parse-files.py:59-66 | without a match: no time, no attendance, the entry as the event, and the first word as the date when it is a number, else "0" |
| EntryRoundTrip.ParseEntryRoundTrip | working/3-attempt-to-parse-files.py:22-58 | an entry `d t e (n)` (a day number, a time token, a one-line event without parentheses and an attendance of digits and commas) is matched, and gives back `d`, `t`, `e` and `n` without its commas |
| EntryRoundTrip.EntryGroups | working/3-attempt-to-parse-files.py:32-39 | the first match of such an entry has the date group up to `d`'s space, the time group `t`, no range, the event `e` with at most its neighbouring spaces, and the attendance `n` |
| EntryRoundTrip.LaidOutInMatches | working/3-attempt-to-parse-files.py:32-39 | the groups of the entry's own layout are one of the expression's matches |
| EntryRoundTrip.TimeEndUnique | working/3-attempt-to-parse-files.py:34 | a time token read from a position ends where its hour, minutes, whitespace and meridiem put it: two characters after the first non-space past the minutes |
| EntryRoundTrip.NoTimeInDate | working/3-attempt-to-parse-files.py:33-34 | no time token starts inside a day number that a space and a digit follow, so the lazy date cannot stop early |
| EntryRoundTrip.StripAround | working/3-attempt-to-parse-files.py:44-56 | `strip()` of a text with whitespace margins around a core that starts and ends with non-space is that core |
| EntryRoundTrip.FieldsAre | working/3-attempt-to-parse-files.py:42-58 | the fields read from those groups are `d`, `t`, `e` and `n` without its commas |
| PdfLinks.AbbrIndex | working/1-get-pdf-links.py:27-28 | `list(month_abbr).index(a)` finds `a` at its index, and there is no index exactly when `a` is not an abbreviation |
| PdfLinks.AbbrIndexOf | working/1-get-pdf-links.py:28 | each abbreviation is found at its own month number |
| PdfLinks.FirstDay | working/1-get-pdf-links.py:23 | `datetime(year, month, 1)` exists exactly for years 1..9999 and months 1..12 |
| PdfLinks.ParseMonthStr | working/1-get-pdf-links.py:7-35 | a parsed label is the first day of a valid month |
| PdfLinks.BackslashesIgnored | working/1-get-pdf-links.py:17 | removing the backslashes from a label first changes nothing |
| PdfLinks.BeforeSlash | working/1-get-pdf-links.py:20-21 | `split("/")[0]` of `a/b` is `a` when `a` has no slash |
| PdfLinks.SlashedRoundTrip | working/1-get-pdf-links.py:18-23 | the label `M/YYYY` that `str` gives reads back as the first of that month |
| PdfLinks.MonthOutOfRangeFails | working/1-get-pdf-links.py:23 | a slashed label whose month is outside 1..12 gives None |
| PdfLinks.SlashedMeaning | working/1-get-pdf-links.py:18-23 | a label read through the slash branch has its month before the first slash and its year after it |
| PdfLinks.AbbreviatedRoundTrip | working/1-get-pdf-links.py:25-32 | three letters that capitalise to a month's abbreviation, followed by the year, read back as the first of that month |
| PdfLinks.CapitalizeIgnoresCase | working/1-get-pdf-links.py:26 | upper or lower case in the abbreviation makes no difference |
| PdfLinks.AbbreviatedMeaning | working/1-get-pdf-links.py:25-32 | a label read through the abbreviation branch starts with the month's abbreviation in any case, and the rest is the year |
| PdfLinks.EmptyLabelFails | working/1-get-pdf-links.py:26-31 | an empty label fails: the empty abbreviation is found at index 0, but `int("")` raises |
| PdfLinks.UnknownAbbreviationFails | working/1-get-pdf-links.py:27-30 | a label without a slash whose first three characters name no month gives None |
| UrlMatch.QuoteFreeRun | working/1-get-pdf-links.py:74 | a greedy `[^"]+` takes the longest quote-free run, which ends at a quote or at the end |
| UrlMatch.UrlAtMeaning | working/1-get-pdf-links.py:74 | a match at a start is the value of a `"url"` property written there, with any whitespace around the colon |
| UrlMatch.SearchUrl | working/1-get-pdf-links.py:74-75 | `re.search` returns the match at a start that has one, with no match at any earlier start, and nothing exactly when no start has one |
| UrlMatch.UrlAtProperty | working/1-get-pdf-links.py:74 | a `"url"` property, with any whitespace around its colon, is matched where it starts, with its value as the group |
| UrlMatch.UrlOfLeadingProperty | working/1-get-pdf-links.py:74-77 | a block that opens with a `url` property yields that property's value |
| PdfLinks.SixDaysLater | working/1-get-pdf-links.py:62 | `today + timedelta(days=6)` is a valid date six ordinals later |
| PdfLinks.ReferenceDate | working/1-get-pdf-links.py:59 | `reference_date` is day 1 of today's month |
| PdfLinks.NextMonthDate | working/1-get-pdf-links.py:63 | `next_month_date` is day 1 of the month six days ahead |
| PdfLinks.SixDaysAheadMonth | working/1-get-pdf-links.py:62-63 | six days ahead falls in this month, or in the next month exactly when fewer than six days of this month remain after today |
| PdfLinks.WindowMonths | working/1-get-pdf-links.py:72 | a month's first day passes the test exactly when it is this month, or next month during the last six days of this one |
| PdfLinks.LinkOf | working/1-get-pdf-links.py:74-80 | a kept entry's label loses its backslashes and keeps every other character as often as it had it; its target is a URL exactly when some start of the block matches, and then it is the leftmost match without backslashes and has no quote; otherwise it is the raw block |
| PdfLinks.CleanedMatch | working/1-get-pdf-links.py:74-77 | the URL found, cleaned of backslashes, is the leftmost match so cleaned and has neither quotes nor backslashes |
| PdfLinks.CollectLinks | working/1-get-pdf-links.py:65-81 | the loop yields the link of each kept entry, in page order |
| PdfLinks.SelectedAppend | working/1-get-pdf-links.py:65-81 | the results of two parts of the page follow one another: page order is kept |
| PdfLinks.SelectedEmpty | working/1-get-pdf-links.py:65-81 | there are no results exactly when no entry is kept |
| PdfLinks.LinkClean | working/1-get-pdf-links.py:77-80 | links carry no backslash in the month or the URL, and no quote in the URL |
| PdfLinks.SelectedLinks | working/1-get-pdf-links.py:65-81 | every result is the link of some kept entry, with no backslash in its month or URL |
| PdfLinks.KeptMonth | working/1-get-pdf-links.py:66-72 | an entry is kept exactly when its label parses to this month, or to next month during the last six days of this one |

## Left out

- Git, the file system and CSV: cloning or updating the calendar repository, `glob` over the folder and `csv.DictReader` are outside the model. The month files are a map from (year, month) to their rows, and the file names are not matched against `(\d{4})-(\d{2})\.csv`.
- Discord and `asyncio`: sending the chunks and the daily "no events today" message to the debugging channel are left out. The model stops at the lines and their chunks.
- `print` of the lines, and `print_table` and `main` of the entry parser, are left out.
- The file read of `parse_entries` is left out: the model takes the file's text.
- Fetching the complex's page (`requests.get`) and the `findall` that extracts each month label and its `pdf_file` block are left out. `PdfLinks.CollectLinks` takes the extracted pairs.
- `working/2-download-pdf-and-convert-to-png.py` is not part of this model.
- The clock: `datetime.now()` and `datetime.today()` are a `today` parameter.
- `WeeklySummary.StartDate`, `WeeklySummary.EndDate` and `PdfLinks.SixDaysLater` require today to be before year 9999. In the last days of year 9999 Python raises `OverflowError` when it adds the days. The model does not cover that crash.
- `EventFields.ParseEventTime`: `time_dt` is kept as minutes after midnight. The date part of the `datetime` is left out, so the gap between two events is computed in whole minutes instead of the float division of `total_seconds()`. The result is the same because both times fall on the same day.
- Unicode: `str.lower`, `str.capitalize`, `str.isdigit`, `int()` and the `\d` of regular expressions are modelled for ASCII. `\w` covers ASCII and the Latin-1 letters, and whitespace is the `str.isspace` set.
- Locale: `calendar.month_abbr`, `%a` and `%p` are the C-locale names.
- The emoji in the daily alert's tags are copied as the script writes them: UTF-8 bytes read back as Windows-1252 text.
- Set iteration order: the weekly summary visits `required_months` in an order given as a parameter, any list of distinct months. `WeeklySummary.CollectWeek`'s contract holds for every such order.
- CSV rows with missing columns are not modelled. Every row has the five fields.
- The documentation of the entry parser describes the attendance as a non-empty number. The code accepts an attendance group made only of commas, which leaves an empty string, and `CalendarText.AttendanceDigits` follows the code.
- EntryRoundTrip.ParseEntryRoundTrip: covers entries with single spaces between their parts, an event that does not open with a dash and has no parentheses or line break, and no leftover text before the date. Other entries are described by `CalendarText.ParseEntry` and `CalendarText.FirstMatch` only.
- `CalendarText.FirstMatchOrder` states the order of the date group and of the optional time range. It does not separately state the order of the optional prefix group.
