/** The per-row helpers the weekly summary and the daily alert share (the two
    scripts carry identical copies): event-name clean-up, the time display
    form, the `strptime` reading of a time, the venue table, and the early /
    large classification. Times of day are minutes after midnight. */
module EventFields {
  import opened Opt
  import opened PyText
  import opened PyInt
  import opened Calendar

  // ------------------------------------------------------ event names

  /** `clean_event_name`: the four team names in capitals are rewritten in
      proper case, in this order, then the name is cut at the first `>>>`
      and stripped. What is left has no `>>>`, no whitespace at its ends and
      no team name in capitals. */
  function CleanEventName(name: string): (r: string)
    ensures !Contains(r, ">>>")
    ensures IsStripped(r)
    ensures !HasCapitalTeam(r)
  {
    var d := ProperCaseTeams(name);
    ProperCaseTeamsShape(name);
    var e := BeforeFirst(d, ">>>");
    var r := Strip(e);
    PrefixIsPiece(d, e);
    StripIsPiece(e);
    ContainsTransitive(d, e, r);
    AbsentInPiece(e, r, ">>>");
    AbsentInPiece(d, r, "PHILLIES");
    AbsentInPiece(d, r, "FLYERS");
    AbsentInPiece(d, r, "EAGLES");
    AbsentInPiece(d, r, "SIXERS");
    r
  }

  /** The four rewrites of `clean_event_name`, in order. */
  function ProperCaseTeams(name: string): string {
    var a := ReplaceAll(name, "PHILLIES", "Phillies");
    var b := ReplaceAll(a, "FLYERS", "Flyers");
    var c := ReplaceAll(b, "EAGLES", "Eagles");
    ReplaceAll(c, "SIXERS", "Sixers")
  }

  predicate HasCapitalTeam(s: string) {
    Contains(s, "PHILLIES") || Contains(s, "FLYERS") || Contains(s, "EAGLES") || Contains(s, "SIXERS")
  }

  /** A substring of a string without `p` is without `p`. */
  lemma {:induction false} AbsentInPiece(s: string, piece: string, p: string)
    requires Contains(s, piece) && !Contains(s, p)
    ensures !Contains(piece, p)
  {
    if Contains(piece, p) {
      ContainsTransitive(s, piece, p);
    }
  }

  lemma {:induction false} StripIsPiece(s: string)
    ensures Contains(s, Strip(s))
  {
    var i :| Occurs(s, Strip(s), i) && AllSpace(s[..i]) && AllSpace(s[i + |Strip(s)|..]);
    assert 0 <= i <= |s|;
  }

  lemma {:induction false} PrefixIsPiece(s: string, r: string)
    requires r <= s
    ensures Contains(s, r)
  {
    assert Occurs(s, r, 0);
  }

  /** After the four rewrites no team name is left in capitals. */
  lemma {:induction false} ProperCaseTeamsShape(name: string)
    ensures !HasCapitalTeam(ProperCaseTeams(name))
  {
    var a := ReplaceAll(name, "PHILLIES", "Phillies");
    var b := ReplaceAll(a, "FLYERS", "Flyers");
    var c := ReplaceAll(b, "EAGLES", "Eagles");
    assert ProperCaseRewrite("PHILLIES", "Phillies");
    assert ProperCaseRewrite("FLYERS", "Flyers");
    assert ProperCaseRewrite("EAGLES", "Eagles");
    assert ProperCaseRewrite("SIXERS", "Sixers");
    RewriteRemovesWord(name, "PHILLIES", "Phillies");
    RewriteKeepsAbsentWord(a, "FLYERS", "Flyers", "PHILLIES");
    RewriteKeepsAbsentWord(b, "EAGLES", "Eagles", "PHILLIES");
    RewriteKeepsAbsentWord(c, "SIXERS", "Sixers", "PHILLIES");
    RewriteRemovesWord(a, "FLYERS", "Flyers");
    RewriteKeepsAbsentWord(b, "EAGLES", "Eagles", "FLYERS");
    RewriteKeepsAbsentWord(c, "SIXERS", "Sixers", "FLYERS");
    RewriteRemovesWord(b, "EAGLES", "Eagles");
    RewriteKeepsAbsentWord(c, "SIXERS", "Sixers", "EAGLES");
    RewriteRemovesWord(c, "SIXERS", "Sixers");
  }

  /** Cleaning a cleaned name changes nothing. */
  lemma {:induction false} CleanEventNameIdempotent(name: string)
    ensures CleanEventName(CleanEventName(name)) == CleanEventName(name)
  {
    var r := CleanEventName(name);
    ReplaceAbsent(r, "PHILLIES", "Phillies");
    ReplaceAbsent(r, "FLYERS", "Flyers");
    ReplaceAbsent(r, "EAGLES", "Eagles");
    ReplaceAbsent(r, "SIXERS", "Sixers");
    StripOfStripped(r);
  }

  // ------------------------------------------------------ time display

  /** `normalize_time_display`: lower-case, then every plain space removed. */
  function NormalizeTimeDisplay(t: string): (r: string)
    ensures ' ' !in r && NoUpper(r)
    ensures multiset(r) == multiset(Lower(t))[' ' := 0]
  {
    var r := RemoveChar(Lower(t), ' ');
    assert forall k :: 0 <= k < |r| ==> r[k] in Lower(t);
    RemoveCharCounts(Lower(t), ' ');
    r
  }

  lemma {:induction false} LowerOfNoUpper(s: string)
    requires NoUpper(s)
    ensures Lower(s) == s
  {
  }

  /** Normalising a display time again changes nothing. */
  lemma {:induction false} NormalizeTimeDisplayIdempotent(t: string)
    ensures NormalizeTimeDisplay(NormalizeTimeDisplay(t)) == NormalizeTimeDisplay(t)
  {
    LowerOfNoUpper(NormalizeTimeDisplay(t));
  }

  // ------------------------------------------------------ parsing a time

  /** The hour field of `%I`: `1[0-2]|0[1-9]|[1-9]`, as (value, length). The
      alternatives the regular expression would backtrack to can never be
      followed by `:` or a meridiem, so the first one that fits decides. */
  function HourField(u: string): (r: Option<(nat, nat)>)
    ensures r.Some? ==> 1 <= r.value.1 <= 2 && r.value.1 <= |u| && AllDigits(u[..r.value.1])
    ensures r.Some? ==> r.value.0 == DigitsValue(u[..r.value.1]) && 1 <= r.value.0 <= 12
  {
    if |u| >= 2 && u[0] == '1' && '0' <= u[1] <= '2' then
      TwoDigitValue(u[..2]);
      Some((10 + DigitValue(u[1]), 2))
    else if |u| >= 2 && u[0] == '0' && '1' <= u[1] <= '9' then
      TwoDigitValue(u[..2]);
      Some((DigitValue(u[1]), 2))
    else if |u| >= 1 && '1' <= u[0] <= '9' then
      OneDigitValue(u[..1]);
      Some((DigitValue(u[0]), 1))
    else None
  }

  /** The minute field of `%M`: `[0-5]\d|\d`, as (value, length). */
  function MinuteField(u: string): (r: Option<(nat, nat)>)
    ensures r.Some? ==> 1 <= r.value.1 <= 2 && r.value.1 <= |u| && AllDigits(u[..r.value.1])
    ensures r.Some? ==> r.value.0 == DigitsValue(u[..r.value.1]) && r.value.0 <= 59
  {
    if |u| >= 2 && '0' <= u[0] <= '5' && IsAsciiDigit(u[1]) then
      TwoDigitValue(u[..2]);
      Some((10 * DigitValue(u[0]) + DigitValue(u[1]), 2))
    else if |u| >= 1 && IsAsciiDigit(u[0]) then
      OneDigitValue(u[..1]);
      Some((DigitValue(u[0]), 1))
    else None
  }

  /** `%p` in the C locale under `re.IGNORECASE`: `am` or `pm` in any case. */
  predicate IsMeridiem(s: string) {
    |s| == 2 && (s[0] in "aApP") && (s[1] in "mM")
  }

  predicate IsPm(s: string)
    requires IsMeridiem(s)
  {
    s[0] in "pP"
  }

  /** `strptime`'s clock hour: 12am is hour 0, and pm adds 12 except to 12pm. */
  function Clock24(hour: int, pm: bool): int {
    if !pm then (if hour == 12 then 0 else hour)
    else (if hour == 12 then 12 else hour + 12)
  }

  /** The time part of `%I:%M%p` (when `withMinutes`) or `%I%p`, matched
      against the whole remaining text. */
  function StrptimeClock(u: string, withMinutes: bool): (r: Option<int>)
  {
    match HourField(u)
    case None => None
    case Some((h, n)) =>
      if withMinutes then
        if n < |u| && u[n] == ':' then
          match MinuteField(u[n + 1..])
          case None => None
          case Some((m, k)) =>
            var ap := u[n + 1 + k..];
            if IsMeridiem(ap) then Some(Clock24(h, IsPm(ap)) * 60 + m) else None
        else None
      else
        var ap := u[n..];
        if IsMeridiem(ap) then Some(Clock24(h, IsPm(ap)) * 60) else None
  }

  /** `parse_event_time`: `strptime` of `"<date> " + t` with `%I:%M%p`, then
      with `%I%p`, `None` when both raise `ValueError`. The single space of the
      format matches the whole whitespace run before the time, so leading
      whitespace of `t` is skipped. The result is minutes after midnight. */
  function ParseEventTime(t: string): (r: Option<int>)
    ensures r.Some? ==> 0 <= r.value < 24 * 60
  {
    var u := t[LeadingSpaces(t)..];
    var first := StrptimeClock(u, true);
    if first.Some? then first else StrptimeClock(u, false)
  }

  /** The `.hour` of a parsed time. */
  function Hour(minutes: int): int {
    minutes / 60
  }

  // --------------------------------------------- a reference reading of times

  /** One or two digits whose value is an hour `1..12`: what `%I` accepts. */
  predicate HourText(s: string) {
    1 <= |s| <= 2 && AllDigits(s) && 1 <= DigitsValue(s) <= 12
  }

  /** One or two digits whose value is a minute `0..59`: what `%M` accepts. */
  predicate MinuteText(s: string) {
    1 <= |s| <= 2 && AllDigits(s) && DigitsValue(s) <= 59
  }

  /** The accepted time forms read from the right: the last two characters are
      the meridiem, and what precedes them is `H` or `H:MM`, split at the first
      colon. */
  function ClockSpec(u: string): (r: Option<int>)
  {
    if |u| < 3 || !IsMeridiem(u[|u| - 2..]) then None
    else
      var body, pm := u[..|u| - 2], IsPm(u[|u| - 2..]);
      match Find(body, ":")
      case Some(i) =>
        var hs, ms := body[..i], body[i + 1..];
        if HourText(hs) && MinuteText(ms) then Some(Clock24(DigitsValue(hs), pm) * 60 + DigitsValue(ms))
        else None
      case None =>
        if HourText(body) then Some(Clock24(DigitsValue(body), pm) * 60) else None
  }

  lemma {:induction false} DigitsNoColon(s: string)
    requires AllDigits(s)
    ensures !Contains(s, ":")
  {
    forall k ensures !Occurs(s, ":", k) {
      if 0 <= k && k + 1 <= |s| {
        assert s[k..k + 1] == [s[k]];
        assert s[k] != ':';
      }
    }
  }

  lemma {:induction false} TwoDigitValue(s: string)
    requires |s| == 2 && AllDigits(s)
    ensures DigitsValue(s) == 10 * DigitValue(s[0]) + DigitValue(s[1])
  {
    assert s[..1] == [s[0]];
    assert s[..1][..0] == [];
    assert DigitsValue(s[..1]) == DigitValue(s[0]);
  }

  lemma {:induction false} OneDigitValue(s: string)
    requires |s| == 1 && AllDigits(s)
    ensures DigitsValue(s) == DigitValue(s[0])
  {
    assert s[..0] == [];
  }

  /** The hour field reads exactly an `HourText` prefix followed by a non-digit. */
  lemma {:induction false} HourFieldReadsHourText(u: string, n: nat)
    requires n <= |u| && HourText(u[..n]) && (n == |u| || !IsAsciiDigit(u[n]))
    ensures HourField(u) == Some((DigitsValue(u[..n]), n))
  {
    var s := u[..n];
    if n == 2 {
      TwoDigitValue(s);
      assert s[0] == u[0] && s[1] == u[1];
    } else {
      OneDigitValue(s);
      assert s[0] == u[0];
    }
  }

  /** Likewise for the minute field. */
  lemma {:induction false} MinuteFieldReadsMinuteText(u: string, n: nat)
    requires n <= |u| && MinuteText(u[..n]) && (n == |u| || !IsAsciiDigit(u[n]))
    ensures MinuteField(u) == Some((DigitsValue(u[..n]), n))
  {
    var s := u[..n];
    if n == 2 {
      TwoDigitValue(s);
      assert s[0] == u[0] && s[1] == u[1];
    } else {
      OneDigitValue(s);
      assert s[0] == u[0];
    }
  }

  /** Whenever the left-to-right `strptime` reading succeeds, the reference
      reading agrees. */
  lemma {:induction false} StrptimeClockSound(u: string, withMinutes: bool)
    ensures StrptimeClock(u, withMinutes).Some? ==> ClockSpec(u) == StrptimeClock(u, withMinutes)
  {
    if StrptimeClock(u, withMinutes).Some? {
      if withMinutes {
        SoundWithMinutes(u);
      } else {
        SoundHourOnly(u);
      }
    }
  }

  lemma {:induction false} SoundWithMinutes(u: string)
    requires StrptimeClock(u, true).Some?
    ensures ClockSpec(u) == StrptimeClock(u, true)
  {
    var (h, n) := HourField(u).value;
    var hs := u[..n];
    var (m, k) := MinuteField(u[n + 1..]).value;
    var ms := u[n + 1..][..k];
    assert |u| == n + 1 + k + 2;
    var body := u[..|u| - 2];
    assert body == hs + ":" + ms;
    DigitsNoColon(hs);
    assert Occurs(body, ":", n);
    assert forall j :: 0 <= j < n ==> !Occurs(body, ":", j) by {
      forall j | 0 <= j < n ensures !Occurs(body, ":", j) {
        assert body[j] == hs[j];
        assert body[j..j + 1] == [body[j]];
      }
    }
    assert Find(body, ":") == Some(n);
    assert body[..n] == hs && body[n + 1..] == ms;
  }

  lemma {:induction false} SoundHourOnly(u: string)
    requires StrptimeClock(u, false).Some?
    ensures ClockSpec(u) == StrptimeClock(u, false)
  {
    var (h, n) := HourField(u).value;
    var hs := u[..n];
    assert |u| == n + 2;
    var body := u[..|u| - 2];
    assert body == hs;
    DigitsNoColon(hs);
  }

  /** Whenever the reference reading succeeds, `parse_event_time` agrees. */
  lemma {:induction false} ClockSpecComplete(u: string)
    requires ClockSpec(u).Some?
    ensures (if StrptimeClock(u, true).Some? then StrptimeClock(u, true) else StrptimeClock(u, false)) == ClockSpec(u)
  {
    var body := u[..|u| - 2];
    match Find(body, ":")
    case Some(i) =>
      var hs, ms := body[..i], body[i + 1..];
      assert hs == u[..i];
      assert body[i] == ':' by { assert body[i..i + 1] == ":"; }
      HourFieldReadsHourText(u, i);
      var v := u[i + 1..];
      assert ms == v[..|ms|];
      assert |ms| == |v| - 2;
      MinuteFieldReadsMinuteText(v, |ms|);
      assert u[i + 1 + |ms|..] == u[|u| - 2..];
    case None =>
      assert body == u[..|body|];
      HourFieldReadsHourText(u, |body|);
      assert u[|body|..] == u[|u| - 2..];
      assert StrptimeClock(u, true).None? by {
        assert |body| == |u| - 2;
        assert u[|body|] == u[|u| - 2..][0];
        assert u[|body|] != ':';
      }
  }

  /** `parse_event_time` is exactly the reference reading of the text after its
      leading whitespace. In particular it never fails for any other reason,
      and only `H`/`HH` with an hour `1..12`, or that with `:M`/`:MM` for a
      minute `0..59`, followed by `am`/`pm` in any case, yields a time. */
  lemma {:induction false} ParseEventTimeIsClockSpec(t: string)
    ensures ParseEventTime(t) == ClockSpec(t[LeadingSpaces(t)..])
  {
    var u := t[LeadingSpaces(t)..];
    StrptimeClockSound(u, true);
    StrptimeClockSound(u, false);
    if ClockSpec(u).Some? {
      ClockSpecComplete(u);
    }
  }

  lemma HourSpelling(hour: nat)
    requires 1 <= hour <= 12
    ensures HourText(NatToString(hour))
  {
    if hour >= 10 {
      assert NatToString(hour / 10) == [DigitChar(hour / 10)];
    }
  }

  /** The spelling `H:MMam` / `H:MMpm` reads back to the clock time it names. */
  lemma {:induction false} ParseEventTimeRoundTrip(hour: nat, minute: nat, pm: bool)
    requires 1 <= hour <= 12 && minute <= 59
    ensures ParseEventTime(NatToString(hour) + ":" + TwoDigits(minute) + (if pm then "pm" else "am"))
         == Some(Clock24(hour, pm) * 60 + minute)
  {
    var hs := NatToString(hour);
    var t := hs + ":" + TwoDigits(minute) + (if pm then "pm" else "am");
    assert LeadingSpaces(t) == 0 by { assert t[0] == hs[0]; }
    assert t[0..] == t;
    StrptimeRoundTrip(hour, minute, pm);
  }

  /** The `%I:%M%p` reading of `H:MMam` / `H:MMpm`. */
  lemma {:induction false} StrptimeRoundTrip(hour: nat, minute: nat, pm: bool)
    requires 1 <= hour <= 12 && minute <= 59
    ensures StrptimeClock(NatToString(hour) + ":" + TwoDigits(minute) + (if pm then "pm" else "am"), true)
         == Some(Clock24(hour, pm) * 60 + minute)
  {
    var ap := if pm then "pm" else "am";
    var hs := NatToString(hour);
    HourSpelling(hour);
    var t := hs + ":" + TwoDigits(minute) + ap;
    var n := |hs|;
    assert t[..n] == hs && t[n] == ':';
    HourFieldReadsHourText(t, n);
    var v := t[n + 1..];
    assert v == TwoDigits(minute) + ap;
    assert v[..2] == TwoDigits(minute);
    MinuteFieldReadsMinuteText(v, 2);
    assert v[2..] == ap;
    assert t[n + 1 + 2..] == ap;
    StrptimeOfFields(t, DigitsValue(t[..n]), n, DigitsValue(v[..2]), ap);
  }

  /** `%I:%M%p` once the hour field has taken `n` characters and the minute
      field two: the rest must be the meridiem. */
  lemma StrptimeOfFields(u: string, h: int, n: nat, m: int, ap: string)
    requires HourField(u) == Some((h, n)) && n < |u| && u[n] == ':'
    requires MinuteField(u[n + 1..]) == Some((m, 2)) && u[n + 3..] == ap && IsMeridiem(ap)
    ensures StrptimeClock(u, true) == Some(Clock24(h, IsPm(ap)) * 60 + m)
  {
  }

  /** The spelling `Ham` / `Hpm` reads back to the full hour it names. */
  lemma {:induction false} ParseEventTimeHourRoundTrip(hour: nat, pm: bool)
    requires 1 <= hour <= 12
    ensures ParseEventTime(NatToString(hour) + (if pm then "pm" else "am")) == Some(Clock24(hour, pm) * 60)
  {
    var ap := if pm then "pm" else "am";
    var hs := NatToString(hour);
    HourSpelling(hour);
    var t := hs + ap;
    assert LeadingSpaces(t) == 0 by { assert t[0] == hs[0]; }
    assert t[0..] == t;
    var n := |hs|;
    assert t[..n] == hs;
    HourFieldReadsHourText(t, n);
    assert t[n..] == ap;
    assert StrptimeClock(t, true).None? by {
      assert t[n] == ap[0];
    }
  }

  /** `%M`-style two-digit minute. */
  function TwoDigits(m: nat): (s: string)
    requires m <= 99
    ensures |s| == 2 && AllDigits(s) && DigitsValue(s) == m
  {
    var s := [DigitChar(m / 10), DigitChar(m % 10)];
    TwoDigitValue(s);
    s
  }

  /** An hour after 12 (or 0) read as `Ham`/`Hpm` gives no time. */
  lemma {:induction false} ParseEventTimeRejectsHour(hour: nat, pm: bool)
    requires hour == 0 || hour > 12
    ensures ParseEventTime(NatToString(hour) + (if pm then "pm" else "am")).None?
  {
    var t := NatToString(hour) + (if pm then "pm" else "am");
    ParseEventTimeIsClockSpec(t);
    var hs := NatToString(hour);
    assert LeadingSpaces(t) == 0 by { assert t[0] == hs[0]; }
    assert t[0..] == t;
    assert t[..|t| - 2] == hs;
    DigitsNoColon(hs);
  }

  // ------------------------------------------------------ venues

  /** `LOCATION_MAP`: venue codes and their display names. */
  const LocationMap: map<string, string> := map[
    "CBP" := "the Bank",
    "LFF" := "the Linc",
    "WFC" := "the Wells Fargo Center",
    "XF!" := "Xfinity Live",
    "XMA" := "Xfinity Mobile Arena (fka the Wells Fargo Center)",
    "SL!" := "Stateside Live! (fka Xfinity Live!)"
  ]

  /** `LOCATION_MAP.get(code, code)`: a known code becomes its display name;
      any other code passes through unchanged. */
  function LocationName(code: string): (r: string)
    ensures r !in LocationMap
    ensures r == code <==> code !in LocationMap
  {
    if code in LocationMap then LocationMap[code] else code
  }

  /** Looking up a display name again leaves it alone, and distinct codes of
      the table have distinct display names. */
  lemma LocationNameProperties(code: string, other: string)
    ensures LocationName(LocationName(code)) == LocationName(code)
    ensures code in LocationMap && other in LocationMap && code != other ==> LocationName(code) != LocationName(other)
  {
  }

  // ------------------------------------------------------ classification

  /** Attendance strictly above this is a large event. */
  const LargeAttendance: int := 50000
  /** An event starting before this hour is an early event. */
  const EarlyHour: int := 18
  /** Two events of a day at most this many minutes apart make a combined event. */
  const CombinedGapMinutes: int := 120

  /** One collected event, the record the row loop appends:
      `time_str`, `time_dt` (as minutes since midnight), `event`, `location`
      and `attendance`. */
  datatype Event = Event(timeStr: string, time: Option<int>, name: string, location: string, attendance: int)

  /** The record built from a row's time, event name and location fields and
      its attendance. */
  function NewEvent(timeRaw: string, nameRaw: string, locationRaw: string, attendance: int): (e: Event)
    ensures e.time.Some? ==> 0 <= e.time.value < 24 * 60
  {
    var timeClean := NormalizeTimeDisplay(timeRaw);
    Event(timeClean, ParseEventTime(timeClean), CleanEventName(nameRaw), LocationName(locationRaw), attendance)
  }

  /** `ev["time_dt"] and ev["time_dt"].hour < 18` */
  predicate IsEarly(e: Event) {
    e.time.Some? && Hour(e.time.value) < EarlyHour
  }

  /** `ev["attendance"] > 50000` */
  predicate IsLarge(e: Event) {
    e.attendance > LargeAttendance
  }

  /** An early or a large event: the ones both scripts tag. */
  predicate Flagged(e: Event) {
    IsEarly(e) || IsLarge(e)
  }

  /** An early event is one whose time parses to before 18:00. */
  lemma EarlyMeansBeforeSix(e: Event)
    ensures IsEarly(e) <==> e.time.Some? && e.time.value < 18 * 60
  {
  }

  /** `f"* **{weekday}, {formatted_date} at {ev['time_str']}:** {ev['event']} at {ev['location']}"`,
      the line of an event under its date, before any tag. */
  function DatedLine(d: Date, e: Event): string
    requires Valid(d)
  {
    "* **" + WeekdayAbbr(d) + ", " + MonthDay(d) + " at " + e.timeStr + ":** " + e.name + " at " + e.location
  }
}
