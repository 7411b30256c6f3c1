/** The calendar-links step: the month label of each calendar entry on the
    complex's page is read as the first day of a month, and the entries of
    the current month, and of the next one when it starts within six days,
    are kept with the URL of their PDF. */
module PdfLinks {
  import opened Opt
  import opened PyText
  import opened PyInt
  import opened Calendar
  import opened UrlMatch

  // ------------------------------------------------------------ month labels

  /** `calendar.month_abbr` in the C locale: index 0 is the empty string. */
  const MonthAbbr: seq<string> := ["", "Jan", "Feb", "Mar", "Apr", "May", "Jun", "Jul", "Aug", "Sep", "Oct", "Nov", "Dec"]

  /** `list(calendar.month_abbr).index(a)`, when `a` is in the list. */
  function AbbrIndex(a: string): (r: Option<nat>)
    ensures r.Some? ==> r.value < |MonthAbbr| && MonthAbbr[r.value] == a
    ensures r.None? <==> a !in MonthAbbr
  {
    if a == MonthAbbr[0] then Some(0)
    else if a == MonthAbbr[1] then Some(1)
    else if a == MonthAbbr[2] then Some(2)
    else if a == MonthAbbr[3] then Some(3)
    else if a == MonthAbbr[4] then Some(4)
    else if a == MonthAbbr[5] then Some(5)
    else if a == MonthAbbr[6] then Some(6)
    else if a == MonthAbbr[7] then Some(7)
    else if a == MonthAbbr[8] then Some(8)
    else if a == MonthAbbr[9] then Some(9)
    else if a == MonthAbbr[10] then Some(10)
    else if a == MonthAbbr[11] then Some(11)
    else if a == MonthAbbr[12] then Some(12)
    else None
  }

  /** `datetime.datetime(year, month, 1)`, with `None` where it raises. */
  function FirstDay(year: int, month: int): (r: Option<Date>)
    ensures r.Some? <==> MinYear <= year <= MaxYear && 1 <= month <= 12
    ensures r.Some? ==> Valid(r.value) && r.value == Date(year, month, 1)
  {
    if MinYear <= year <= MaxYear && 1 <= month <= 12 then Some(Date(year, month, 1)) else None
  }

  /** The first (at most) three characters. */
  function Take3(s: string): (r: string)
    ensures r <= s && |r| == if |s| < 3 then |s| else 3
  {
    if |s| < 3 then s else s[..3]
  }

  /** What follows the first three characters. */
  function Drop3(s: string): (r: string)
    ensures Take3(s) + r == s
  {
    if |s| < 3 then [] else s[3..]
  }

  /** The `MM/YYYY` reading: `split("/")` gives the month before the first
      slash and the year between the first slash and the next one. */
  function ParseSlashed(s: string): (r: Option<Date>)
    ensures r.Some? ==> Valid(r.value) && r.value.day == 1
  {
    var first := BeforeFirst(s, "/");
    var second := if |first| < |s| then BeforeFirst(s[|first| + 1..], "/") else [];
    match (Parse(first), Parse(second))
    case (Some(month), Some(year)) => FirstDay(year, month)
    case _ => None
  }

  /** The `jan2024` reading: the capitalized first three characters name the
      month and the rest is the year. */
  function ParseAbbreviated(s: string): (r: Option<Date>)
    ensures r.Some? ==> Valid(r.value) && r.value.day == 1
  {
    match AbbrIndex(Capitalize(Take3(s)))
    case None => None
    case Some(month) =>
      match Parse(Drop3(s))
      case None => None
      case Some(year) => FirstDay(year, month)
  }

  /** `parse_month_str`: the first day of the month the label names, or
      `None` for every label it cannot read. */
  function ParseMonthStr(raw: string): (r: Option<Date>)
    ensures r.Some? ==> Valid(r.value) && r.value.day == 1
  {
    var s := RemoveChar(raw, '\\');
    if '/' in s then ParseSlashed(s) else ParseAbbreviated(s)
  }

  // ------------------------------------------------------------ label lemmas

  lemma NoSlashNotContained(s: string)
    requires '/' !in s
    ensures !Contains(s, "/")
  {
    forall k | 0 <= k <= |s| ensures !Occurs(s, "/", k) {
      if k < |s| {
        assert s[k..k + 1] == [s[k]];
      }
    }
  }

  /** The text before the first slash of `a + "/" + b` is `a` when `a` has
      no slash. */
  lemma BeforeSlash(a: string, b: string)
    requires '/' !in a
    ensures BeforeFirst(a + "/" + b, "/") == a
  {
    var s := a + "/" + b;
    var r := BeforeFirst(s, "/");
    assert s[..|a|] == a;
    assert forall k :: 0 <= k < |a| ==> s[k] == a[k];
    assert |r| < |s| ==> s[|r|..|r| + 1][0] == s[|r|];
    if |r| > |a| {
      assert r[|a|..|a| + 1] == s[|a|..|a| + 1] == "/";
      assert Occurs(r, "/", |a|);
    }
  }

  lemma NoSlashInNumber(n: nat)
    ensures '/' !in NatToString(n) && '\\' !in NatToString(n)
  {
    var s := NatToString(n);
    assert forall k :: 0 <= k < |s| ==> IsAsciiDigit(s[k]);
  }

  /** Removing backslashes twice is removing them once. */
  lemma RemoveCharTwice(s: string, c: char)
    ensures RemoveChar(RemoveChar(s, c), c) == RemoveChar(s, c)
  {
  }

  /** Backslashes in the label never matter. */
  lemma BackslashesIgnored(raw: string)
    ensures ParseMonthStr(RemoveChar(raw, '\\')) == ParseMonthStr(raw)
  {
    RemoveCharTwice(raw, '\\');
  }

  /** A label without backslashes is read as it stands. */
  lemma CleanLabel(s: string)
    requires '\\' !in s
    ensures ParseMonthStr(s) == if '/' in s then ParseSlashed(s) else ParseAbbreviated(s)
  {
  }

  /** `"M/YYYY"` for numbers printed by `str`. */
  lemma SlashedNumbers(month: nat, year: nat)
    ensures ParseMonthStr(NatToString(month) + "/" + NatToString(year))
      == if |NatToString(month)| <= MaxStrDigits && |NatToString(year)| <= MaxStrDigits then FirstDay(year, month) else None
  {
    NoSlashInNumber(month);
    NoSlashInNumber(year);
    SlashedOfParts(NatToString(month), NatToString(year));
    ParseNatToString(month);
    ParseNatToString(year);
  }

  /** `"M/Y"` with no slash or backslash in `M` or `Y` reads `M` as the
      month and `Y` as the year. */
  lemma SlashedOfParts(m: string, y: string)
    requires '/' !in m && '/' !in y && '\\' !in m && '\\' !in y
    ensures ParseMonthStr(m + "/" + y)
      == match (Parse(m), Parse(y)) case (Some(month), Some(year)) => FirstDay(year, month) case _ => None
  {
    var s := m + "/" + y;
    assert '\\' !in s;
    assert s[|m|] == '/';
    CleanLabel(s);
    BeforeSlash(m, y);
    assert s[|m| + 1..] == y;
    NoSlashNotContained(y);
  }

  /** `"M/YYYY"` round trip: the label a month prints as is read back as the
      first of that month. */
  lemma SlashedRoundTrip(d: Date)
    requires Valid(d)
    ensures ParseMonthStr(NatToString(d.month) + "/" + NatToString(d.year)) == Some(Date(d.year, d.month, 1))
  {
    ShortNatToString(d.month);
    ShortNatToString(d.year);
    SlashedNumbers(d.month, d.year);
  }

  /** A slashed label whose month number is outside 1..12 fails. */
  lemma MonthOutOfRangeFails(month: nat, year: nat)
    requires month < 1 || 12 < month
    ensures ParseMonthStr(NatToString(month) + "/" + NatToString(year)) == None
  {
    SlashedNumbers(month, year);
  }

  /** `"jan2024"` round trip: three characters that capitalize to a
      month's abbreviation, then the year, give the first of that month. */
  lemma AbbreviatedRoundTrip(t: string, d: Date)
    requires Valid(d) && |t| == 3 && Capitalize(t) == MonthAbbr[d.month]
    requires '/' !in t && '\\' !in t
    ensures ParseMonthStr(t + NatToString(d.year)) == Some(Date(d.year, d.month, 1))
  {
    var y := NatToString(d.year);
    var s := t + y;
    NoSlashInNumber(d.year);
    assert '/' !in s && '\\' !in s;
    CleanLabel(s);
    assert Take3(s) == t;
    assert Drop3(s) == y;
    AbbrIndexOf(d.month);
    ShortNatToString(d.year);
    ParseNatToString(d.year);
  }

  /** Upper or lower case in the abbreviation makes no difference. */
  lemma CapitalizeIgnoresCase(a: string, b: string)
    requires Lower(a) == Lower(b)
    ensures Capitalize(a) == Capitalize(b)
  {
    if a != [] {
      assert LowerChar(a[0]) == LowerChar(b[0]);
      assert Lower(a[1..]) == Lower(b[1..]) by {
        forall k | 0 <= k < |a| - 1 ensures Lower(a[1..])[k] == Lower(b[1..])[k] {
          assert Lower(a)[k + 1] == Lower(b)[k + 1];
        }
      }
    }
  }

  /** Each month's abbreviation is found at its own index. */
  lemma AbbrIndexOf(month: nat)
    requires month < |MonthAbbr|
    ensures AbbrIndex(MonthAbbr[month]) == Some(month)
  {
    if month == 0 {
    } else if month == 1 {
    } else if month == 2 {
    } else if month == 3 {
    } else if month == 4 {
    } else if month == 5 {
    } else if month == 6 {
    } else if month == 7 {
    } else if month == 8 {
    } else if month == 9 {
    } else if month == 10 {
    } else if month == 11 {
    } else {
    }
  }

  lemma AbbrLength(month: nat)
    requires 1 <= month < |MonthAbbr|
    ensures |MonthAbbr[month]| == 3
  {
  }

  /** What a successful slash reading consists of. */
  lemma SlashedParts(s: string)
    requires ParseSlashed(s).Some?
    ensures var first := BeforeFirst(s, "/"); var d := ParseSlashed(s).value;
      && |first| < |s|
      && Parse(first) == Some(d.month)
      && Parse(BeforeFirst(s[|first| + 1..], "/")) == Some(d.year)
  {
    assert Strip([]) == [];
  }

  /** A label the slash branch reads holds the month before its first slash
      and the year after it. */
  lemma SlashedMeaning(raw: string)
    requires '/' in RemoveChar(raw, '\\') && ParseMonthStr(raw).Some?
    ensures var s := RemoveChar(raw, '\\'); var d := ParseMonthStr(raw).value;
      var first := BeforeFirst(s, "/");
      && |first| < |s| && s[|first|] == '/'
      && Parse(first) == Some(d.month)
      && Parse(BeforeFirst(s[|first| + 1..], "/")) == Some(d.year)
  {
    var s := RemoveChar(raw, '\\');
    assert ParseMonthStr(raw) == ParseSlashed(s);
    SlashedParts(s);
    var first := BeforeFirst(s, "/");
    assert Occurs(s, "/", |first|);
    assert s[|first|..|first| + 1][0] == s[|first|];
  }

  /** What a successful abbreviation reading consists of. */
  lemma AbbreviatedParts(s: string)
    requires ParseAbbreviated(s).Some?
    ensures var d := ParseAbbreviated(s).value;
      && |s| >= 3
      && Capitalize(s[..3]) == MonthAbbr[d.month]
      && Parse(s[3..]) == Some(d.year)
  {
    var a := Capitalize(Take3(s));
    var month := AbbrIndex(a).value;
    var year := Parse(Drop3(s)).value;
    assert FirstDay(year, month).Some?;
    AbbrLength(month);
  }

  /** A label the abbreviation branch reads starts with the month's
      abbreviation in any case, and the rest is the year. */
  lemma AbbreviatedMeaning(raw: string)
    requires '/' !in RemoveChar(raw, '\\') && ParseMonthStr(raw).Some?
    ensures var s := RemoveChar(raw, '\\'); var d := ParseMonthStr(raw).value;
      && |s| >= 3
      && Capitalize(s[..3]) == MonthAbbr[d.month]
      && Parse(s[3..]) == Some(d.year)
  {
    var s := RemoveChar(raw, '\\');
    assert ParseMonthStr(raw) == ParseAbbreviated(s);
    AbbreviatedParts(s);
  }

  lemma {:induction false} RemoveEvery(s: string, c: char)
    requires forall k :: 0 <= k < |s| ==> s[k] == c
    ensures RemoveChar(s, c) == []
  {
    if s != [] {
      RemoveEvery(s[1..], c);
    }
  }

  /** The empty label, and a label of backslashes only, fail: the empty
      abbreviation is `month_abbr[0]`, but `int("")` raises. */
  lemma EmptyLabelFails(raw: string)
    requires forall k :: 0 <= k < |raw| ==> raw[k] == '\\'
    ensures ParseMonthStr(raw) == None
  {
    var s := RemoveChar(raw, '\\');
    RemoveEvery(raw, '\\');
    assert Take3(s) == [] && Drop3(s) == [];
    assert Strip([]) == [];
  }

  /** A label without a slash whose first three characters are no month's
      abbreviation fails. */
  lemma UnknownAbbreviationFails(raw: string)
    requires var s := RemoveChar(raw, '\\'); '/' !in s && Capitalize(Take3(s)) !in MonthAbbr
    ensures ParseMonthStr(raw) == None
  {
  }

  // ------------------------------------------------------------ the window

  /** `today + timedelta(days=6)`; Python raises `OverflowError` in the last
      days of year 9999, which `today` is kept out of. */
  function SixDaysLater(today: Date): (r: Date)
    requires Valid(today) && today.year < MaxYear
    ensures Valid(r) && Ordinal(r) == Ordinal(today) + 6
  {
    RoomBeforeLastYear(today);
    AddDays(today, 6)
  }

  /** `reference_date`: the first of the current month. */
  function ReferenceDate(today: Date): (r: Date)
    requires Valid(today) && today.year < MaxYear
    ensures Valid(r) && r.day == 1 && MonthIndex(r) == MonthIndex(today)
  {
    FirstOfMonth(today)
  }

  /** `next_month_date`: the first of the month six days ahead. */
  function NextMonthDate(today: Date): (r: Date)
    requires Valid(today) && today.year < MaxYear
    ensures Valid(r) && r.day == 1 && MonthIndex(r) == MonthIndex(SixDaysLater(today))
  {
    FirstOfMonth(SixDaysLater(today))
  }

  /** The test of line 72 on an entry's date. */
  predicate InWindow(d: Date, today: Date)
    requires Valid(today) && today.year < MaxYear
  {
    NotAfter(ReferenceDate(today), d) && (Before(d, NextMonthDate(today)) || d == NextMonthDate(today))
  }

  /** Six days ahead is in this month, or in the next one exactly when fewer
      than six days of this month follow today. */
  lemma SixDaysAheadMonth(today: Date)
    requires Valid(today) && today.year < MaxYear
    ensures var ahead := MonthIndex(SixDaysLater(today));
      && (ahead == MonthIndex(today) || ahead == MonthIndex(today) + 1)
      && (ahead == MonthIndex(today) + 1 <==> today.day + 6 > DaysInMonth(today.year, today.month))
  {
    RoomBeforeLastYear(today);
    AddFewDays(today, 6);
  }

  /** First days of months are ordered as their months. */
  lemma FirstDaysOrder(a: Date, b: Date)
    requires Valid(a) && Valid(b) && a.day == 1 && b.day == 1
    ensures NotAfter(a, b) <==> MonthIndex(a) <= MonthIndex(b)
    ensures a == b <==> MonthIndex(a) == MonthIndex(b)
  {
  }

  /** A month's first day passes the test exactly when it is this month, or
      next month while today is among the month's last six days. */
  lemma WindowMonths(d: Date, today: Date)
    requires Valid(d) && d.day == 1 && Valid(today) && today.year < MaxYear
    ensures InWindow(d, today) <==>
      || MonthIndex(d) == MonthIndex(today)
      || (MonthIndex(d) == MonthIndex(today) + 1 && today.day + 6 > DaysInMonth(today.year, today.month))
  {
    var lo, hi := ReferenceDate(today), NextMonthDate(today);
    SixDaysAheadMonth(today);
    FirstDaysOrder(lo, d);
    FirstDaysOrder(d, hi);
  }

  // ------------------------------------------------------------ the links

  /** One `findall` match: the month label and the text of the `pdf_file`
      object. */
  datatype RawEntry = RawEntry(month: string, pdfBlock: string)

  /** The `url` of the PDF, or the raw block when it has none. */
  datatype Target = Url(url: string) | PdfFile(block: string)

  /** One entry of the results: the label without backslashes, and its
      target. */
  datatype Link = Link(month: string, target: Target)

  /** The result an entry contributes when it is kept: the label without
      its backslashes, and the leftmost `url` match of the block, cleaned of
      backslashes, or the raw block when nothing matches. */
  function LinkOf(e: RawEntry): (l: Link)
    ensures l.month == RemoveChar(e.month, '\\')
    ensures '\\' !in l.month && multiset(l.month) == multiset(e.month)['\\' := 0]
    ensures l.target.Url? <==> exists i :: 0 <= i <= |e.pdfBlock| && UrlAt(e.pdfBlock, i).Some?
    ensures l.target.Url? ==> exists i ::
      && 0 <= i <= |e.pdfBlock| && UrlAt(e.pdfBlock, i).Some?
      && (forall j :: 0 <= j < i ==> UrlAt(e.pdfBlock, j).None?)
      && l.target.url == RemoveChar(UrlAt(e.pdfBlock, i).value, '\\')
    ensures l.target.Url? ==> '"' !in l.target.url && '\\' !in l.target.url
    ensures l.target.PdfFile? ==> l.target.block == e.pdfBlock
  {
    var month := RemoveChar(e.month, '\\');
    RemoveCharCounts(e.month, '\\');
    match SearchUrl(e.pdfBlock, 0)
    case Some(u) =>
      CleanedMatch(e.pdfBlock, u);
      Link(month, Url(RemoveChar(u, '\\')))
    case None => Link(month, PdfFile(e.pdfBlock))
  }

  /** The match `re.search` finds, without its backslashes, is the leftmost
      match so cleaned, and has neither quotes nor backslashes. */
  lemma CleanedMatch(b: string, u: string)
    requires SearchUrl(b, 0) == Some(u)
    ensures exists i ::
      && 0 <= i <= |b| && UrlAt(b, i).Some?
      && (forall j :: 0 <= j < i ==> UrlAt(b, j).None?)
      && RemoveChar(u, '\\') == RemoveChar(UrlAt(b, i).value, '\\')
    ensures '"' !in RemoveChar(u, '\\') && '\\' !in RemoveChar(u, '\\')
  {
  }

  /** An entry whose label reads as a month in the window. */
  predicate Kept(e: RawEntry, today: Date) {
    && Valid(today) && today.year < MaxYear
    && ParseMonthStr(e.month).Some? && InWindow(ParseMonthStr(e.month).value, today)
  }

  /** The test of `Kept` as a value. */
  function KeptOn(today: Date): RawEntry -> bool {
    e => Kept(e, today)
  }

  /** `[f(x) for x in xs if keep(x)]`. */
  function FilterMap<A, B>(xs: seq<A>, keep: A -> bool, f: A -> B): (r: seq<B>)
    ensures |r| <= |xs|
  {
    if xs == [] then []
    else
      var n := |xs| - 1;
      FilterMap(xs[..n], keep, f) + if keep(xs[n]) then [f(xs[n])] else []
  }

  lemma FilterMapStep<A, B>(xs: seq<A>, keep: A -> bool, f: A -> B, i: nat)
    requires i < |xs|
    ensures FilterMap(xs[..i + 1], keep, f) == FilterMap(xs[..i], keep, f) + if keep(xs[i]) then [f(xs[i])] else []
  {
    assert xs[..i + 1][..i] == xs[..i];
  }

  lemma {:induction false} FilterMapAppend<A, B>(xs: seq<A>, ys: seq<A>, keep: A -> bool, f: A -> B)
    ensures FilterMap(xs + ys, keep, f) == FilterMap(xs, keep, f) + FilterMap(ys, keep, f)
    decreases |ys|
  {
    if ys == [] {
      assert xs + ys == xs;
    } else {
      var n := |ys| - 1;
      FilterMapAppend(xs, ys[..n], keep, f);
      assert (xs + ys)[..|xs + ys| - 1] == xs + ys[..n];
      assert (xs + ys)[|xs + ys| - 1] == ys[n];
    }
  }

  lemma {:induction false} FilterMapEmpty<A, B>(xs: seq<A>, keep: A -> bool, f: A -> B)
    ensures FilterMap(xs, keep, f) == [] <==> forall k :: 0 <= k < |xs| ==> !keep(xs[k])
  {
    if xs != [] {
      var n := |xs| - 1;
      FilterMapEmpty(xs[..n], keep, f);
      assert forall k :: 0 <= k < n ==> xs[..n][k] == xs[k];
    }
  }

  lemma {:induction false} FilterMapFrom<A, B>(xs: seq<A>, keep: A -> bool, f: A -> B)
    ensures forall y :: y in FilterMap(xs, keep, f) ==> exists k :: 0 <= k < |xs| && keep(xs[k]) && y == f(xs[k])
  {
    if xs != [] {
      var n := |xs| - 1;
      FilterMapFrom(xs[..n], keep, f);
      assert forall k :: 0 <= k < n ==> xs[..n][k] == xs[k];
    }
  }

  /** The links of the kept entries, in page order. */
  function Selected(entries: seq<RawEntry>, today: Date): (r: seq<Link>)
    ensures |r| <= |entries|
  {
    FilterMap(entries, KeptOn(today), LinkOf)
  }

  /** Lines 57-81, after the page is fetched and its entries found: the loop
      over the entries. */
  method CollectLinks(entries: seq<RawEntry>, today: Date) returns (results: seq<Link>)
    requires Valid(today) && today.year < MaxYear
    ensures results == Selected(entries, today)
  {
    var referenceDate := Date(today.year, today.month, 1);
    RoomBeforeLastYear(today);
    var sixDaysLater := AddDays(today, 6);
    var nextMonthDate := Date(sixDaysLater.year, sixDaysLater.month, 1);
    assert referenceDate == ReferenceDate(today) && nextMonthDate == NextMonthDate(today);
    results := [];
    for i := 0 to |entries|
      invariant results == Selected(entries[..i], today)
    {
      var e := entries[i];
      FilterMapStep(entries, KeptOn(today), LinkOf, i);
      var entryDate := ParseMonthStr(e.month);
      if entryDate.None? {
        assert !Kept(e, today);
        continue;
      }
      var d := entryDate.value;
      assert Kept(e, today) <==> NotAfter(referenceDate, d) && (Before(d, nextMonthDate) || d == nextMonthDate);
      if NotAfter(referenceDate, d) && (Before(d, nextMonthDate) || d == nextMonthDate) {
        var month := RemoveChar(e.month, '\\');
        var urlMatch := SearchUrl(e.pdfBlock, 0);
        if urlMatch.Some? {
          var calendarUrl := RemoveChar(urlMatch.value, '\\');
          results := results + [Link(month, Url(calendarUrl))];
        } else {
          results := results + [Link(month, PdfFile(e.pdfBlock))];
        }
      }
    }
    assert entries[..|entries|] == entries;
  }

  // ------------------------------------------------------------ properties

  /** The results of a page split in two are the results of its parts, one
      after the other: entries keep their page order. */
  lemma SelectedAppend(a: seq<RawEntry>, b: seq<RawEntry>, today: Date)
    ensures Selected(a + b, today) == Selected(a, today) + Selected(b, today)
  {
    FilterMapAppend(a, b, KeptOn(today), LinkOf);
  }

  /** Nothing is kept exactly when no entry is. */
  lemma SelectedEmpty(entries: seq<RawEntry>, today: Date)
    ensures Selected(entries, today) == [] <==> forall k :: 0 <= k < |entries| ==> !Kept(entries[k], today)
  {
    FilterMapEmpty(entries, KeptOn(today), LinkOf);
  }

  /** Labels and URLs of links carry no backslash, and URLs no quote. */
  lemma LinkClean(e: RawEntry)
    ensures var l := LinkOf(e);
      && '\\' !in l.month
      && (l.target.Url? ==> '\\' !in l.target.url && '"' !in l.target.url)
  {
    var l := LinkOf(e);
    if l.target.Url? {
      var u := SearchUrl(e.pdfBlock, 0).value;
      assert forall x :: x in l.target.url ==> x in u;
    }
  }

  /** Every result is some kept entry's link; labels and URLs carry no
      backslash and URLs no quote. */
  lemma SelectedLinks(entries: seq<RawEntry>, today: Date)
    ensures forall l :: l in Selected(entries, today) ==>
      && (exists k :: 0 <= k < |entries| && Kept(entries[k], today) && l == LinkOf(entries[k]))
      && '\\' !in l.month
      && (l.target.Url? ==> '\\' !in l.target.url && '"' !in l.target.url)
  {
    FilterMapFrom(entries, KeptOn(today), LinkOf);
    forall k | 0 <= k < |entries| {
      LinkClean(entries[k]);
    }
  }

  /** A kept entry's label names this month, or next month in its last six
      days; every other label is dropped. */
  lemma KeptMonth(e: RawEntry, today: Date)
    requires Valid(today) && today.year < MaxYear
    ensures Kept(e, today) <==>
      && ParseMonthStr(e.month).Some?
      && var d := ParseMonthStr(e.month).value;
      || MonthIndex(d) == MonthIndex(today)
      || (MonthIndex(d) == MonthIndex(today) + 1 && today.day + 6 > DaysInMonth(today.year, today.month))
  {
    if ParseMonthStr(e.month).Some? {
      WindowMonths(ParseMonthStr(e.month).value, today);
    }
  }
}
