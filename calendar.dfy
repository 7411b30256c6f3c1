/** Proleptic Gregorian dates as Python's `datetime.date` has them: the range
    check of the `datetime(year, month, day)` constructor, date order, adding
    days, the weekday, and the `%a` and `%-m/%-d` renderings. */
module Calendar {
  import opened PyInt

  datatype Date = Date(year: int, month: int, day: int)

  /** `datetime.MINYEAR` and `datetime.MAXYEAR`. */
  const MinYear: int := 1
  const MaxYear: int := 9999

  predicate IsLeap(y: int) {
    y % 4 == 0 && (y % 100 != 0 || y % 400 == 0)
  }

  function DaysInMonth(y: int, m: int): (n: int)
    requires 1 <= m <= 12
    ensures 28 <= n <= 31
  {
    if m == 2 then (if IsLeap(y) then 29 else 28)
    else if m == 4 || m == 6 || m == 9 || m == 11 then 30
    else 31
  }

  /** The arguments `datetime(year, month, day)` accepts without `ValueError`. */
  predicate Valid(d: Date) {
    MinYear <= d.year <= MaxYear && 1 <= d.month <= 12 && 1 <= d.day <= DaysInMonth(d.year, d.month)
  }

  /** `a < b` on dates: by year, then month, then day. */
  predicate Before(a: Date, b: Date) {
    a.year < b.year || (a.year == b.year && (a.month < b.month || (a.month == b.month && a.day < b.day)))
  }

  /** `a <= b` on dates. */
  predicate NotAfter(a: Date, b: Date) {
    a == b || Before(a, b)
  }

  /** The first day of the date's month: `datetime(d.year, d.month, 1)`. */
  function FirstOfMonth(d: Date): (r: Date)
    requires Valid(d)
    ensures Valid(r) && r.day == 1 && NotAfter(r, d)
  {
    Date(d.year, d.month, 1)
  }

  // --------------------------------------------------------- ordinals

  /** Days before January 1st of year `y`: the lengths of the years before it. */
  function DaysBeforeYear(y: int): int
    requires y >= 1
  {
    if y == 1 then 0 else DaysBeforeYear(y - 1) + DaysBeforeMonth(y - 1, 13)
  }

  /** Days of year `y` before the first of month `m` (`m == 13` gives the year length). */
  function DaysBeforeMonth(y: int, m: int): (n: int)
    requires 1 <= m <= 13
    ensures n >= 0
  {
    [0, 31, 59, 90, 120, 151, 181, 212, 243, 273, 304, 334, 365][m - 1]
      + (if m > 2 && IsLeap(y) then 1 else 0)
  }

  /** `date.toordinal()`: 0001-01-01 is day 1. */
  function Ordinal(d: Date): int
    requires Valid(d)
  {
    DaysBeforeYear(d.year) + DaysBeforeMonth(d.year, d.month) + d.day
  }

  /** Each month takes up exactly its own days of the year. */
  lemma MonthStep(y: int, m: int)
    requires 1 <= m <= 12
    ensures DaysBeforeMonth(y, m + 1) == DaysBeforeMonth(y, m) + DaysInMonth(y, m)
  {
  }

  lemma {:induction false} MonthsFit(y: int, m: int, m': int)
    requires 1 <= m < m' <= 13
    ensures DaysBeforeMonth(y, m) + DaysInMonth(y, m) <= DaysBeforeMonth(y, m')
  {
    MonthStep(y, m);
  }

  lemma {:induction false} YearsFit(y: int, y': int)
    requires 1 <= y <= y'
    ensures DaysBeforeYear(y) <= DaysBeforeYear(y')
    ensures y < y' ==> DaysBeforeYear(y) + DaysBeforeMonth(y, 13) <= DaysBeforeYear(y')
    decreases y' - y
  {
    if y < y' {
      YearsFit(y + 1, y');
    }
  }

  /** Python orders dates the way their ordinals are ordered. */
  lemma {:induction false} BeforeIsOrdinalOrder(a: Date, b: Date)
    requires Valid(a) && Valid(b)
    ensures Before(a, b) <==> Ordinal(a) < Ordinal(b)
    ensures a == b <==> Ordinal(a) == Ordinal(b)
  {
    if a.year != b.year {
      var (x, y) := if a.year < b.year then (a, b) else (b, a);
      if x.month < 12 { MonthsFit(x.year, x.month, 13); } else { MonthStep(x.year, 12); }
      YearsFit(x.year, y.year);
      assert Ordinal(x) < Ordinal(y);
    } else if a.month != b.month {
      var (x, y) := if a.month < b.month then (a, b) else (b, a);
      MonthsFit(x.year, x.month, y.month);
      assert Ordinal(x) < Ordinal(y);
    }
  }

  // --------------------------------------------------------- adding days

  /** The last day `datetime` can represent. */
  const LastDate: Date := Date(MaxYear, 12, 31)

  /** `d + timedelta(days=1)`; Python raises `OverflowError` after `LastDate`. */
  function NextDay(d: Date): (r: Date)
    requires Valid(d) && d != LastDate
    ensures Valid(r) && Before(d, r) && Ordinal(r) == Ordinal(d) + 1
  {
    var r := if d.day < DaysInMonth(d.year, d.month) then Date(d.year, d.month, d.day + 1)
             else if d.month < 12 then Date(d.year, d.month + 1, 1)
             else Date(d.year + 1, 1, 1);
    assert Ordinal(r) == Ordinal(d) + 1 by {
      MonthStep(d.year, d.month);
    }
    r
  }

  /** `d + timedelta(days=n)`, one day at a time. */
  function AddDays(d: Date, n: nat): (r: Date)
    requires Valid(d) && Ordinal(d) + n <= Ordinal(LastDate)
    ensures Valid(r) && Ordinal(r) == Ordinal(d) + n
    decreases n
  {
    if n == 0 then d
    else
      assert d != LastDate;
      AddDays(NextDay(d), n - 1)
  }

  /** Any date before the last year leaves room for a year of additions. */
  lemma {:induction false} RoomBeforeLastYear(d: Date)
    requires Valid(d) && d.year < MaxYear
    ensures Ordinal(d) + 365 <= Ordinal(LastDate)
  {
    MonthStep(d.year, d.month);
    if d.month < 12 { MonthsFit(d.year, d.month, 13); }
    YearsFit(d.year, MaxYear);
  }

  /** Months counted from year 0: consecutive months have consecutive
      indices, across a year's end too. */
  function MonthIndex(d: Date): int {
    d.year * 12 + d.month - 1
  }

  /** `d` moved `n` days forward within its month or into the next one. */
  function ShiftInMonth(d: Date, n: int): Date
    requires 1 <= d.month <= 12
  {
    var dim := DaysInMonth(d.year, d.month);
    if d.day + n <= dim then Date(d.year, d.month, d.day + n)
    else if d.month < 12 then Date(d.year, d.month + 1, d.day + n - dim)
    else Date(d.year + 1, 1, d.day + n - dim)
  }

  lemma ShiftStep(d: Date, n: int)
    requires Valid(d) && d != LastDate && 0 < n < 28
    ensures ShiftInMonth(NextDay(d), n - 1) == ShiftInMonth(d, n)
  {
    var dim := DaysInMonth(d.year, d.month);
    var e := NextDay(d);
    if d.day == dim {
      assert e.day == 1 && n - 1 < DaysInMonth(e.year, e.month);
    }
  }

  /** Adding fewer than 28 days stays in the month or reaches the next one,
      with the day number carried over. */
  lemma {:induction false} AddFewDays(d: Date, n: nat)
    requires Valid(d) && n < 28 && Ordinal(d) + n <= Ordinal(LastDate)
    ensures AddDays(d, n) == ShiftInMonth(d, n)
    decreases n
  {
    if n > 0 {
      var e := NextDay(d);
      assert AddDays(d, n) == AddDays(e, n - 1);
      AddFewDays(e, n - 1);
      assert AddDays(e, n - 1) == ShiftInMonth(e, n - 1);
      ShiftStep(d, n);
    }
  }

  // --------------------------------------------------------- rendering

  /** `d.weekday()`: 0 is Monday, since 0001-01-01 was a Monday. */
  function Weekday(d: Date): (w: int)
    requires Valid(d)
    ensures 0 <= w < 7
  {
    (Ordinal(d) + 6) % 7
  }

  /** `d.strftime("%a")` in the C locale. */
  function WeekdayAbbr(d: Date): string
    requires Valid(d)
  {
    ["Mon", "Tue", "Wed", "Thu", "Fri", "Sat", "Sun"][Weekday(d)]
  }

  /** The days before a year in closed form: 365 a year plus one for each
      leap year before it. */
  lemma {:induction false} DaysBeforeYearFormula(y: int)
    requires y >= 1
    ensures DaysBeforeYear(y) == 365 * (y - 1) + (y - 1) / 4 - (y - 1) / 100 + (y - 1) / 400
    decreases y
  {
    if y > 1 {
      DaysBeforeYearFormula(y - 1);
      LeapYears(y - 1);
    }
  }

  /** Year `n` adds one to the count of leap years exactly when it is one. */
  lemma LeapYears(n: int)
    requires n >= 1
    ensures n / 4 - (n - 1) / 4 - (n / 100 - (n - 1) / 100) + (n / 400 - (n - 1) / 400) == if IsLeap(n) then 1 else 0
  {
    FoursStep(n);
    HundredsStep(n);
    FourHundredsStep(n);
  }

  /** The count of multiples of 4 up to `n` grows at `n` exactly when 4
      divides `n`; likewise for 100 and 400 below. */
  lemma FoursStep(n: int)
    ensures n / 4 - (n - 1) / 4 == if n % 4 == 0 then 1 else 0
  {
    var q, r := (n - 1) / 4, (n - 1) % 4;
    if r == 3 { DivFour(n, q + 1, 0); } else { DivFour(n, q, r + 1); }
  }

  lemma HundredsStep(n: int)
    ensures n / 100 - (n - 1) / 100 == if n % 100 == 0 then 1 else 0
    ensures n % 100 == 0 ==> n % 4 == 0
  {
    var q, r := (n - 1) / 100, (n - 1) % 100;
    if r == 99 {
      DivHundred(n, q + 1, 0);
      DivFour(n, 25 * q + 25, 0);
    } else {
      DivHundred(n, q, r + 1);
    }
  }

  lemma FourHundredsStep(n: int)
    ensures n / 400 - (n - 1) / 400 == if n % 400 == 0 then 1 else 0
    ensures n % 400 == 0 ==> n % 100 == 0
  {
    var q, r := (n - 1) / 400, (n - 1) % 400;
    if r == 399 {
      DivFourHundred(n, q + 1, 0);
      DivHundred(n, 4 * q + 4, 0);
    } else {
      DivFourHundred(n, q, r + 1);
    }
  }

  /** Division recovers the quotient and the remainder. */
  lemma DivFour(n: int, q: int, r: int)
    requires n == 4 * q + r && 0 <= r < 4
    ensures n / 4 == q && n % 4 == r
  {
  }

  lemma DivHundred(n: int, q: int, r: int)
    requires n == 100 * q + r && 0 <= r < 100
    ensures n / 100 == q && n % 100 == r
  {
  }

  lemma DivFourHundred(n: int, q: int, r: int)
    requires n == 400 * q + r && 0 <= r < 400
    ensures n / 400 == q && n % 400 == r
  {
  }

  /** The next day has the next weekday. */
  lemma WeekdayOfNextDay(d: Date)
    requires Valid(d) && d != LastDate
    ensures Weekday(NextDay(d)) == (Weekday(d) + 1) % 7
  {
    ModSevenStep(Ordinal(d) + 6);
  }

  /** One more day moves the remainder by seven one place on. */
  lemma ModSevenStep(x: int)
    ensures (x + 1) % 7 == (x % 7 + 1) % 7
  {
  }

  /** 1 January 2024 was a Monday, and `%a` prints it so. */
  lemma NewYearWeekday(y: int)
    requires y == 2024
    ensures Weekday(Date(y, 1, 1)) == 0 && WeekdayAbbr(Date(y, 1, 1)) == "Mon"
  {
    DaysBeforeYearFormula(y);
    assert DaysBeforeYear(y) == 738885;
    assert Ordinal(Date(y, 1, 1)) == 738886;
  }

  /** `d.strftime("%-m/%-d")`: month and day without zero padding. */
  function MonthDay(d: Date): string
    requires Valid(d)
  {
    NatToString(d.month) + "/" + NatToString(d.day)
  }

  // --------------------------------------------------------- sorting dates

  /** Strictly increasing dates. */
  predicate Increasing(ds: seq<Date>) {
    forall i, j :: 0 <= i < j < |ds| ==> Before(ds[i], ds[j])
  }

  lemma NotAfterTotal(a: Date, b: Date)
    ensures NotAfter(a, b) || NotAfter(b, a)
  {
  }

  lemma NotAfterTransitive(a: Date, b: Date, c: Date)
    requires NotAfter(a, b) && NotAfter(b, c)
    ensures NotAfter(a, c)
  {
  }

  /** A finite set of dates has an earliest one. */
  lemma {:induction false} EarliestExists(s: set<Date>)
    requires s != {}
    ensures exists m :: m in s && forall y :: y in s ==> NotAfter(m, y)
    decreases |s|
  {
    var x :| x in s;
    if s == {x} {
      assert forall y :: y in s ==> y == x;
    } else {
      var t := s - {x};
      EarliestExists(t);
      var m :| m in t && forall y :: y in t ==> NotAfter(m, y);
      EarliestOfOneMore(t, x, m);
      assert t + {x} == s;
    }
  }

  lemma EarliestOfOneMore(t: set<Date>, x: Date, m: Date)
    requires m in t && forall y :: y in t ==> NotAfter(m, y)
    ensures var z := if NotAfter(m, x) then m else x;
      z in t + {x} && forall y :: y in t + {x} ==> NotAfter(z, y)
  {
    if !NotAfter(m, x) {
      NotAfterTotal(m, x);
      forall y | y in t ensures NotAfter(x, y) {
        NotAfterTransitive(x, m, y);
      }
    }
  }

  /** `sorted(dates)`: the dates of `s`, earliest first. */
  function SortedDates(s: set<Date>): (r: seq<Date>)
    ensures |r| == |s| && Increasing(r)
    ensures forall d :: d in r <==> d in s
    decreases |s|
  {
    if s == {} then []
    else
      EarliestExists(s);
      var m :| m in s && forall y :: y in s ==> NotAfter(m, y);
      var rest := SortedDates(s - {m});
      var r := [m] + rest;
      assert forall k :: 0 < k < |r| ==> r[k] == rest[k - 1] && r[k] in s - {m};
      r
  }

  /** `min(dates)` */
  function Earliest(s: set<Date>): (m: Date)
    requires s != {}
    ensures m in s && forall d :: d in s ==> NotAfter(m, d)
  {
    var r := SortedDates(s);
    assert r[0] in r;
    assert forall d :: d in s ==> d == r[0] || exists k :: 0 < k < |r| && r[k] == d;
    r[0]
  }

  /** `max(dates)` */
  function Latest(s: set<Date>): (m: Date)
    requires s != {}
    ensures m in s && forall d :: d in s ==> NotAfter(d, m)
  {
    var r := SortedDates(s);
    var n := |r| - 1;
    assert r[n] in r;
    assert forall d :: d in s ==> d == r[n] || exists k :: 0 <= k < n && r[k] == d;
    r[n]
  }
}
