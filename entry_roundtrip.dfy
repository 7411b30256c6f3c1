/** The calendar entry parser on the entries it was written for: a day
    number, a time, an event and an attendance in parentheses. Such an entry
    is matched by the expression, and its fields are the parts it was made
    of. */
module EntryRoundTrip {
  import opened Opt
  import opened PyText
  import opened CalendarText

  // ------------------------------------------------------------ entries

  /** A day number: one or more digits. */
  predicate DayNumber(d: string) { d != [] && AllDigits(d) }

  /** The pieces of a time token `\d{1,2}(?::\d{2})?\s*(?:AM|PM)`: the hour
      digits, the minutes (with their colon) or nothing, the whitespace on
      one line, and `am` or `pm` in any case. */
  predicate TimeParts(h: string, c: string, sp: string, ap: string) {
    && 1 <= |h| <= 2 && AllDigits(h)
    && (c == [] || (|c| == 3 && c[0] == ':' && AllDigits(c[1..])))
    && AllSpace(sp) && '\n' !in sp && IsMeridiem(ap)
  }

  /** An event name on one line, with no whitespace around it and no
      parentheses, that does not open with a dash (which would read as a
      time range). */
  predicate EventText(e: string) {
    e != [] && IsStripped(e) && '(' !in e && ')' !in e && '\n' !in e && !IsDashStart(e[0])
  }

  /** The entry `d t e (n)`, single spaces between its parts. */
  function EntryText(d: string, t: string, e: string, n: string): string {
    d + " " + t + " " + e + " (" + n + ")"
  }

  /** Where each part of `EntryText(d, t, e, n)` sits. */
  predicate Layout(s: string, d: string, t: string, e: string, n: string) {
    var q := |d| + 1;
    var e1 := q + |t| + 1;
    var c1 := e1 + |e| + 2;
    && |s| == c1 + |n| + 1
    && s[..|d|] == d && s[|d|] == ' '
    && s[q..q + |t|] == t && s[q + |t|] == ' '
    && s[e1..e1 + |e|] == e && s[e1 + |e|] == ' ' && s[e1 + |e| + 1] == '('
    && s[c1..c1 + |n|] == n && s[c1 + |n|] == ')'
  }

  lemma EntryLayout(d: string, t: string, e: string, n: string)
    ensures Layout(EntryText(d, t, e, n), d, t, e, n)
  {
    var s := EntryText(d, t, e, n);
    var q := |d| + 1;
    var e1 := q + |t| + 1;
    var c1 := e1 + |e| + 2;
    var a := d + " " + t + " " + e + " (";
    assert s == a + n + ")";
    assert s[..c1] == a;
    assert s[c1..c1 + |n|] == n;
    var b := d + " " + t + " ";
    assert a == b + e + " (";
    assert a[..e1] == b && a[e1..e1 + |e|] == e;
    assert s[e1..e1 + |e|] == a[e1..e1 + |e|];
    var f := d + " ";
    assert b == f + t + " ";
    assert b[..q] == f && b[q..q + |t|] == t;
    assert s[q..q + |t|] == b[q..q + |t|];
    assert s[..|d|] == f[..|d|];
  }

  // ------------------------------------------------------------ characters

  /** No character of a time token is a newline or a parenthesis. */
  lemma TokenChars(h: string, c: string, sp: string, ap: string)
    requires TimeParts(h, c, sp, ap)
    ensures var t := h + c + sp + ap;
      forall k :: 0 <= k < |t| ==> t[k] != '\n' && t[k] != '(' && t[k] != ')'
  {
    var t := h + c + sp + ap;
    forall k | 0 <= k < |t| ensures t[k] != '\n' && t[k] != '(' && t[k] != ')' {
      if k < |h| {
        assert t[k] == h[k];
      } else if k < |h| + |c| {
        assert t[k] == c[k - |h|];
        if k > |h| {
          assert c[1..][k - |h| - 1] == c[k - |h|];
        }
      } else if k < |h| + |c| + |sp| {
        assert t[k] == sp[k - |h| - |c|];
      } else {
        assert t[k] == ap[k - |h| - |c| - |sp|];
      }
    }
  }

  /** The characters of an entry: no newline anywhere, and its only
      parentheses are the two around the attendance. */
  lemma EntryChars(s: string, d: string, h: string, c: string, sp: string, ap: string, e: string, n: string)
    requires DayNumber(d) && TimeParts(h, c, sp, ap) && EventText(e) && IsAmount(n)
    requires Layout(s, d, h + c + sp + ap, e, n)
    ensures var t := h + c + sp + ap; var P := |d| + |t| + |e| + 3;
      forall k :: 0 <= k < |s| ==>
        && s[k] != '\n'
        && (s[k] == '(' ==> k == P)
        && (s[k] == ')' ==> k == |s| - 1)
  {
    var t := h + c + sp + ap;
    TokenChars(h, c, sp, ap);
    var q := |d| + 1;
    var e1 := q + |t| + 1;
    var c1 := e1 + |e| + 2;
    forall k | 0 <= k < |s| ensures s[k] != '\n' && (s[k] == '(' ==> k == c1 - 1) && (s[k] == ')' ==> k == |s| - 1) {
      if k < |d| {
        assert s[..|d|][k] == s[k];
      } else if q <= k < q + |t| {
        assert s[q..q + |t|][k - q] == s[k];
      } else if e1 <= k < e1 + |e| {
        assert s[e1..e1 + |e|][k - e1] == s[k];
        assert e[k - e1] in e;
      } else if c1 <= k < c1 + |n| {
        assert s[c1..c1 + |n|][k - c1] == s[k];
        assert IsAmountChar(n[k - c1]);
      }
    }
  }

  /** `.` runs to the end of a text without newlines. */
  lemma {:induction false} LineRunToEnd(s: string, i: nat)
    requires i <= |s| && forall k :: i <= k < |s| ==> s[k] != '\n'
    ensures LineRun(s, i) == |s| - i
    decreases |s| - i
  {
    if i < |s| {
      LineRunToEnd(s, i + 1);
    }
  }

  /** `[\d,]+` takes all of the attendance, up to the closing parenthesis. */
  lemma {:induction false} AmountRunOf(s: string, i: nat, m: nat)
    requires i + m < |s| && (forall k :: i <= k < i + m ==> IsAmountChar(s[k])) && !IsAmountChar(s[i + m])
    ensures AmountRun(s, i) == m
    decreases m
  {
    if m > 0 {
      AmountRunOf(s, i + 1, m - 1);
    }
  }

  // ------------------------------------------------------------ lists

  lemma {:induction false} ToFlatMap<A, B>(xs: seq<A>, f: A -> seq<B>, x: A, y: B)
    requires x in xs && y in f(x)
    ensures y in FlatMap(xs, f)
    decreases |xs|
  {
    if xs[0] != x {
      ToFlatMap(xs[1..], f, x, y);
    }
  }

  lemma InUpAt(i: nat, n: nat, j: nat)
    requires i <= j <= i + n
    ensures j in Up(i, n)
  {
    assert Up(i, n)[j - i] == j;
  }

  /** The longest choice of `\s*` is among its choices. */
  lemma LongestSpaces(s: string, i: nat, m: nat)
    requires i <= |s| && SpaceRun(s, i) == m
    ensures i + m in Spaces(s, i)
  {
    assert Down(i, m)[0] == i + m;
  }

  // ------------------------------------------------------------ the time

  /** The token `h + c + sp + ap` written at `q`. */
  predicate TokenAt(s: string, q: nat, h: string, c: string, sp: string, ap: string) {
    var t := h + c + sp + ap;
    q + |t| <= |s| && s[q..q + |t|] == t
  }

  /** The characters a time token puts at `q`: `hn` hour digits, a colon
      and two digits when `cn` is 3, `sn` whitespace characters, and a
      character that opens `am` or `pm`. */
  predicate PiecesAt(s: string, q: nat, hn: nat, cn: nat, sn: nat) {
    var m := q + hn + cn;
    && 1 <= hn <= 2 && (cn == 0 || cn == 3) && m + sn + 2 <= |s|
    && (forall k :: q <= k < q + hn ==> IsAsciiDigit(s[k])) && !IsAsciiDigit(s[q + hn])
    && (cn == 3 ==> s[q + hn] == ':' && IsAsciiDigit(s[q + hn + 1]) && IsAsciiDigit(s[q + hn + 2]))
    && (cn == 0 ==> s[q + hn] != ':')
    && (forall k :: m <= k < m + sn ==> IsSpace(s[k]))
    && !IsSpace(s[m + sn]) && MeridiemStart(s[m + sn])
  }

  /** A token written at `q` puts each of its parts at its own offset. */
  lemma TokenSplit(s: string, q: nat, h: string, c: string, sp: string, ap: string)
    requires |ap| == 2 && TokenAt(s, q, h, c, sp, ap)
    ensures var m := q + |h| + |c|;
      && (forall k :: 0 <= k < |h| ==> s[q + k] == h[k])
      && (forall k :: 0 <= k < |c| ==> s[q + |h| + k] == c[k])
      && (forall k :: 0 <= k < |sp| ==> s[m + k] == sp[k])
      && m + |sp| + 2 <= |s| && s[m + |sp|] == ap[0] && s[m + |sp| + 1] == ap[1]
  {
    var t := h + c + sp + ap;
    assert forall k :: 0 <= k < |t| ==> s[q + k] == t[k];
    assert forall k :: 0 <= k < |h| ==> t[k] == h[k];
    assert forall k :: 0 <= k < |c| ==> t[|h| + k] == c[k];
    assert forall k :: 0 <= k < |sp| ==> t[|h| + |c| + k] == sp[k];
    assert t[|h| + |c| + |sp|] == ap[0] && t[|h| + |c| + |sp| + 1] == ap[1];
  }

  /** The characters of a token written at `q`. */
  lemma TokenAtChars(s: string, q: nat, h: string, c: string, sp: string, ap: string)
    requires TimeParts(h, c, sp, ap) && TokenAt(s, q, h, c, sp, ap)
    ensures var w := q + |h| + |c| + |sp|;
      PiecesAt(s, q, |h|, |c|, |sp|) && s[w..w + 2] == ap && IsWordChar(s[w + 1])
  {
    TokenSplit(s, q, h, c, sp, ap);
    var m := q + |h| + |c|;
    var w := m + |sp|;
    assert forall k :: q <= k < q + |h| ==> IsAsciiDigit(s[k]) by {
      forall k | q <= k < q + |h| ensures IsAsciiDigit(s[k]) {
        assert s[q + (k - q)] == h[k - q];
      }
    }
    assert forall k :: m <= k < m + |sp| ==> IsSpace(s[k]) by {
      forall k | m <= k < m + |sp| ensures IsSpace(s[k]) {
        assert s[m + (k - m)] == sp[k - m];
      }
    }
    if c != [] {
      assert s[q + |h|] == c[0] && s[q + |h| + 1] == c[1] && s[q + |h| + 2] == c[2];
      assert c[1..][0] == c[1] && c[1..][1] == c[2];
    } else if sp != [] {
      assert s[q + |h|] == sp[0];
    }
    assert s[w..w + 2] == [s[w], s[w + 1]];
  }

  /** `\d{1,2}` can take exactly the hour digits. */
  lemma HourIn(s: string, q: nat, n: nat)
    requires 1 <= n <= 2 && q + n < |s| && (forall k :: q <= k < q + n ==> IsAsciiDigit(s[k]))
    requires !IsAsciiDigit(s[q + n])
    ensures q + n in Digits12(s, q)
  {
  }

  /** `(?::\d{2})?` can take the minutes when there are any, and can always
      be skipped. */
  lemma MinutesIn(s: string, d: nat, n: nat)
    requires n == 0 || (n == 3 && d + 3 <= |s| && s[d] == ':' && IsAsciiDigit(s[d + 1]) && IsAsciiDigit(s[d + 2]))
    ensures d + n in Minutes(s, d)
  {
  }

  /** `\s*(?:AM|PM)` can take all the whitespace and the meridiem. */
  lemma MeridiemIn(s: string, m: nat, n: nat, t: nat)
    requires t == m + n + 2 <= |s| && (forall k :: m <= k < m + n ==> IsSpace(s[k])) && !IsSpace(s[m + n])
    requires IsMeridiem(s[m + n..t])
    ensures t in AfterMinutes(s)(m)
  {
    SpaceRunOf(s, m, n);
    LongestSpaces(s, m, n);
    assert t in Meridiem(s)(m + n);
    ToFlatMap<nat, nat>(Spaces(s, m), Meridiem(s), m + n, t);
  }

  /** The token written at `q` is among the ends `<time>` can reach. */
  lemma TokenInTimes(s: string, q: nat, h: string, c: string, sp: string, ap: string, t: nat)
    requires TimeParts(h, c, sp, ap) && TokenAt(s, q, h, c, sp, ap) && t == q + |h + c + sp + ap|
    ensures t in Times(s, q)
  {
    TokenAtChars(s, q, h, c, sp, ap);
    var d := q + |h|;
    var m := d + |c|;
    HourIn(s, q, |h|);
    MinutesIn(s, d, |c|);
    MeridiemIn(s, m, |sp|, t);
    ToFlatMap<nat, nat>(Minutes(s, d), AfterMinutes(s), m, t);
    assert t in AfterHour(s)(d);
    ToFlatMap<nat, nat>(Digits12(s, q), AfterHour(s), d, t);
  }

  // ------------------------------------------------------------ the tail

  /** `\)\s*$` closes the attendance at the last character. */
  lemma ClosingIn(s: string, e1: nat, e2: nat, c1: nat)
    requires |s| > 0 && s[|s| - 1] == ')'
    ensures Tail(e1, e2, c1, |s| - 1) in Closing(s, e1, e2, c1)(|s| - 1)
  {
    assert Spaces(s, |s|) == [|s|];
  }

  /** `\((?P<attendance>[\d,]+)\)\s*$` reads the parenthesis at `w` and the
      attendance after it to the last character. */
  lemma ParenIn(s: string, e1: nat, e2: nat, w: nat)
    requires w + 2 < |s| && s[w] == '(' && s[|s| - 1] == ')'
    requires forall k :: w < k < |s| - 1 ==> IsAmountChar(s[k])
    ensures Tail(e1, e2, w + 1, |s| - 1) in Paren(s, e1, e2)(w)
  {
    var c2 := |s| - 1;
    AmountRunOf(s, w + 1, c2 - w - 1);
    assert Down(w + 2, c2 - w - 2)[0] == c2;
    ClosingIn(s, e1, e2, w + 1);
    ToFlatMap<nat, Tail>(Amounts(s, w + 1), Closing(s, e1, e2, w + 1), c2, Tail(e1, e2, w + 1, c2));
  }

  /** After the event, one space, then the parenthesised attendance. */
  lemma AfterEventIn(s: string, e1: nat, e2: nat)
    requires e2 + 3 < |s| && s[e2] == ' ' && s[e2 + 1] == '(' && s[|s| - 1] == ')'
    requires forall k :: e2 + 1 < k < |s| - 1 ==> IsAmountChar(s[k])
    ensures Tail(e1, e2, e2 + 2, |s| - 1) in AfterEvent(s, e1)(e2)
  {
    SpaceRunOf(s, e2, 1);
    LongestSpaces(s, e2, 1);
    ParenIn(s, e1, e2, e2 + 1);
    ToFlatMap<nat, Tail>(Spaces(s, e2), Paren(s, e1, e2), e2 + 1, Tail(e1, e2, e2 + 2, |s| - 1));
  }

  /** `(?P<event>.*?)` can end at `e2` on a text without newlines. */
  lemma EventFromIn(s: string, e1: nat, e2: nat)
    requires e1 <= e2 && e2 + 3 < |s| && s[e2] == ' ' && s[e2 + 1] == '(' && s[|s| - 1] == ')'
    requires forall k :: e2 + 1 < k < |s| - 1 ==> IsAmountChar(s[k])
    requires forall k :: e1 <= k < |s| ==> s[k] != '\n'
    ensures Tail(e1, e2, e2 + 2, |s| - 1) in EventFrom(s)(e1)
  {
    var n := LineRun(s, e1);
    LineRunToEnd(s, e1);
    InUpAt(e1, n, e2);
    AfterEventIn(s, e1, e2);
    ToFlatMap<nat, Tail>(Up(e1, n), AfterEvent(s, e1), e2, Tail(e1, e2, e2 + 2, |s| - 1));
  }

  /** What follows a time that ends at `r`: one space, the event up to
      `e2`, one space, and the attendance in parentheses to the end, all on
      one line. */
  predicate TailText(s: string, r: nat, e2: nat) {
    && r + 1 <= e2 && e2 + 3 < |s| && s[r] == ' ' && !IsSpace(s[r + 1])
    && s[e2] == ' ' && s[e2 + 1] == '(' && IsAmount(s[e2 + 2..|s| - 1]) && s[|s| - 1] == ')'
    && NoNewline(s)
  }

  /** The characters of a tail: the attendance's and no newline. */
  lemma TailChars(s: string, r: nat, e2: nat)
    requires TailText(s, r, e2)
    ensures forall k :: e2 + 1 < k < |s| - 1 ==> IsAmountChar(s[k])
    ensures forall k :: r < k < |s| ==> s[k] != '\n'
  {
    forall k | e2 + 1 < k < |s| - 1 ensures IsAmountChar(s[k]) {
      assert s[e2 + 2..|s| - 1][k - e2 - 2] == s[k];
    }
    forall k | r < k < |s| ensures s[k] != '\n' {
      assert s[k] in s;
    }
  }

  /** After the time, one space, then the event and the attendance. */
  lemma TailsIn(s: string, r: nat, e2: nat)
    requires TailText(s, r, e2)
    ensures Tail(r + 1, e2, e2 + 2, |s| - 1) in Tails(s, r)
  {
    TailChars(s, r, e2);
    SpaceRunOf(s, r, 1);
    LongestSpaces(s, r, 1);
    EventFromIn(s, r + 1, e2);
    ToFlatMap<nat, Tail>(Spaces(s, r), EventFrom(s), r + 1, Tail(r + 1, e2, e2 + 2, |s| - 1));
  }

  // ------------------------------------------------------------ the match

  /** A time ending at `t` on word boundaries, with no range after it and
      an event and an attendance read after it. */
  lemma AfterDateIn(s: string, a: nat, q: nat, t: nat, tl: Tail)
    requires t <= |s| && t in Times(s, q) && Boundary(s, t) && tl in Tails(s, t)
    ensures Groups(a, q, t, t, tl) in AfterDate(s, a, q)
  {
    var g := Groups(a, q, t, t, tl);
    ToFlatMap<Tail, Groups>(Tails(s, t), Whole(a, q, t, t), tl, g);
    var ends := RangeEnds(s, t);
    assert ends[|ends| - 1] == t;
    ToFlatMap<nat, Groups>(ends, AfterRange(s, a, q, t), t, g);
    ToFlatMap<nat, nat>(Times(s, q), BoundaryAt(s), t, t);
    ToFlatMap<nat, Groups>(BoundedTimes(s)(q), AfterTime(s, a, q), t, g);
  }

  /** A date from the start of a one-line text, ending at a boundary `q`. */
  lemma MatchesIn(s: string, q: nat, g: Groups)
    requires g.start == 0 && q <= |s| && Boundary(s, q) && g in AfterDate(s, 0, q) && NoNewline(s)
    ensures g in Matches(s)
  {
    forall k | 0 <= k < |s| ensures s[k] != '\n' {
      assert s[k] in s;
    }
    var n := LineRun(s, 0);
    LineRunToEnd(s, 0);
    InUpAt(0, n, q);
    ToFlatMap<nat, Groups>(Up(0, n), DateEnd(s, 0), q, g);
    var starts := Starts(s);
    assert starts[|starts| - 1] == 0;
    ToFlatMap<nat, Groups>(starts, DateMatches(s), 0, g);
  }

  /** The landmarks of an entry laid out with its time at `q..t` and its
      event ending at `e2`: the word boundaries around the time, the
      characters next to the spaces, and the event and the attendance after
      the time. */
  lemma EntryPoints(s: string, d: string, h: string, c: string, sp: string, ap: string, e: string, n: string,
                    q: nat, t: nat, e2: nat)
    requires DayNumber(d) && TimeParts(h, c, sp, ap) && EventText(e) && IsAmount(n)
    requires Layout(s, d, h + c + sp + ap, e, n)
    requires q == |d| + 1 && t == q + |h + c + sp + ap| && e2 == t + 1 + |e|
    ensures TokenAt(s, q, h, c, sp, ap) && Boundary(s, q) && Boundary(s, t) && TailText(s, t, e2)
    ensures (forall k :: 0 <= k < |d| ==> IsAsciiDigit(s[k])) && s[q - 1] == ' ' && IsAsciiDigit(s[q])
    ensures s[t + 1] == e[0] && s[e2 - 1] == e[|e| - 1]
    ensures s[..|d|] == d && s[q..t] == h + c + sp + ap && s[t + 1..e2] == e && s[e2 + 2..|s| - 1] == n
  {
    var e1 := t + 1;
    var c1 := e1 + |e| + 2;
    EntryChars(s, d, h, c, sp, ap, e, n);
    TokenAtChars(s, q, h, c, sp, ap);
    var w := q + |h| + |c| + |sp|;
    assert s[w..w + 2][1] == s[t - 1];
    assert s[e1..e1 + |e|][0] == s[e1];
    assert s[e1..e1 + |e|][|e| - 1] == s[e2 - 1];
    assert s[c1..|s| - 1] == n;
    assert '\n' !in s;
    assert forall k :: 0 <= k < |d| ==> s[..|d|][k] == s[k];
  }

  /** A text laid out as `d t e (n)` is matched: there is a match whose
      date ends where the time starts, whose time is `t` with no range
      after it, whose event is `e` and whose attendance is `n`. */
  lemma LaidOutInMatches(s: string, q: nat, t: nat, e2: nat, h: string, c: string, sp: string, ap: string)
    requires TimeParts(h, c, sp, ap) && TokenAt(s, q, h, c, sp, ap) && t == q + |h + c + sp + ap|
    requires Boundary(s, q) && Boundary(s, t) && TailText(s, t, e2)
    ensures Groups(0, q, t, t, Tail(t + 1, e2, e2 + 2, |s| - 1)) in AfterDate(s, 0, q)
    ensures Groups(0, q, t, t, Tail(t + 1, e2, e2 + 2, |s| - 1)) in Matches(s)
  {
    var tl := Tail(t + 1, e2, e2 + 2, |s| - 1);
    TokenInTimes(s, q, h, c, sp, ap, t);
    TailsIn(s, t, e2);
    AfterDateIn(s, 0, q, t, tl);
    MatchesIn(s, q, Groups(0, q, t, t, tl));
  }

  // ------------------------------------------------------------ uniqueness

  /** A character `(?:AM|PM)` can open, in any case. */
  predicate MeridiemStart(c: char) { LowerChar(c) == 'a' || LowerChar(c) == 'p' }

  /** The characters of a time token, position by position. */
  lemma TimeSplitChars(x: string, dd: nat, m: nat)
    requires TimeSplit(x, dd, m)
    ensures forall i :: 0 <= i < dd ==> IsAsciiDigit(x[i])
    ensures m == dd || (m == dd + 3 && x[dd] == ':')
    ensures forall i :: m <= i < |x| - 2 ==> IsSpace(x[i])
    ensures MeridiemStart(x[|x| - 2])
  {
    assert forall i :: 0 <= i < dd ==> x[..dd][i] == x[i];
    assert forall i :: m <= i < |x| - 2 ==> x[m..|x| - 2][i - m] == x[i];
    assert x[|x| - 2..][0] == x[|x| - 2];
  }

  /** Inside a token read from `q`, the hour digits, the minutes and the
      whitespace are where the pieces of `s` put them: the token ends two
      characters after the first character from `q + h + c` that is not
      whitespace. */
  lemma TimeEndUnique(s: string, q: nat, y: nat, h: nat, c: nat, sp: nat)
    requires q <= y <= |s| && IsTimeText(s[q..y]) && PiecesAt(s, q, h, c, sp)
    ensures y == q + h + c + sp + 2
  {
    var x := s[q..y];
    var dd: nat, m: nat :| dd <= 2 && m <= |x| && TimeSplit(x, dd, m);
    TimeSplitAt(s, q, y, dd, m);
    SameHour(s, q, y, h, c, sp, dd, m);
    SameMinutes(s, q, y, h, c, sp, m);
    SameSpaces(s, q, y, h, c, sp, m);
  }

  /** The characters of a time token read from `q` to `y`, as positions of
      `s`. */
  predicate SplitAt(s: string, q: nat, y: nat, dd: nat, m: nat) {
    && q <= y <= |s| && 1 <= dd <= m && q + m + 2 <= y
    && (forall k :: q <= k < q + dd ==> IsAsciiDigit(s[k]))
    && (m == dd || (m == dd + 3 && s[q + dd] == ':'))
    && (forall k :: q + m <= k < y - 2 ==> IsSpace(s[k]))
    && MeridiemStart(s[y - 2])
  }

  lemma TimeSplitAt(s: string, q: nat, y: nat, dd: nat, m: nat)
    requires q <= y <= |s| && TimeSplit(s[q..y], dd, m)
    ensures SplitAt(s, q, y, dd, m)
  {
    var x := s[q..y];
    TimeSplitChars(x, dd, m);
    assert forall i :: 0 <= i < |x| ==> x[i] == s[q + i];
    forall k | q <= k < q + dd ensures IsAsciiDigit(s[k]) {
      assert x[k - q] == s[k];
    }
    forall k | q + m <= k < y - 2 ensures IsSpace(s[k]) {
      assert x[k - q] == s[k];
    }
  }

  /** The token's hour digits are the hour digits of the pieces. */
  lemma SameHour(s: string, q: nat, y: nat, h: nat, c: nat, sp: nat, dd: nat, m: nat)
    requires SplitAt(s, q, y, dd, m) && PiecesAt(s, q, h, c, sp)
    ensures dd == h
  {
  }

  /** The token's minutes are the minutes of the pieces. */
  lemma SameMinutes(s: string, q: nat, y: nat, h: nat, c: nat, sp: nat, m: nat)
    requires SplitAt(s, q, y, h, m) && PiecesAt(s, q, h, c, sp)
    ensures m == h + c
  {
  }

  /** The token's whitespace is the whitespace of the pieces. */
  lemma SameSpaces(s: string, q: nat, y: nat, h: nat, c: nat, sp: nat, m: nat)
    requires SplitAt(s, q, y, h, m) && PiecesAt(s, q, h, c, sp) && m == h + c
    ensures y == q + m + sp + 2
  {
  }

  /** No time token starts among the digits of a day number that a space
      and another digit follow. */
  lemma NoTimeInDate(s: string, a: nat, y: nat, dEnd: nat)
    requires a <= dEnd && dEnd + 1 < |s| && a <= y <= |s|
    requires (forall k :: a <= k < dEnd ==> IsAsciiDigit(s[k])) && s[dEnd] == ' ' && IsAsciiDigit(s[dEnd + 1])
    ensures !IsTimeText(s[a..y])
  {
    var x := s[a..y];
    assert forall i :: 0 <= i < |x| ==> x[i] == s[a + i];
    forall dd: nat, m: nat | dd <= 2 && m <= |x| ensures !TimeSplit(x, dd, m) {
      NoSplitInDate(x, dEnd - a, dd, m);
    }
  }

  /** A text whose first `p` characters are digits, followed by a space
      and a digit, splits nowhere into a time token. */
  lemma NoSplitInDate(x: string, p: nat, dd: nat, m: nat)
    requires (forall i :: 0 <= i < p && i < |x| ==> IsAsciiDigit(x[i]))
    requires p < |x| ==> x[p] == ' '
    requires p + 1 < |x| ==> IsAsciiDigit(x[p + 1])
    ensures !TimeSplit(x, dd, m)
  {
    SplitChars(x, dd, m);
  }

  /** The characters of a time token, when the split is one. */
  lemma SplitChars(x: string, dd: nat, m: nat)
    ensures TimeSplit(x, dd, m) ==>
      && (forall i :: 0 <= i < dd ==> IsAsciiDigit(x[i]))
      && (m == dd || (m == dd + 3 && x[dd] == ':'))
      && (forall i :: m <= i < |x| - 2 ==> IsSpace(x[i]))
      && MeridiemStart(x[|x| - 2])
  {
    if TimeSplit(x, dd, m) {
      TimeSplitChars(x, dd, m);
    }
  }

  // ------------------------------------------------------------ the fields

  /** Only one span of a text has nothing but whitespace around it and
      non-whitespace at both of its ends. */
  lemma SpanUnique(x: string, i: nat, j: nat, k: nat, z: nat)
    requires i < j <= |x| && AllSpace(x[..i]) && AllSpace(x[j..]) && !IsSpace(x[i]) && !IsSpace(x[j - 1])
    requires k <= z <= |x| && AllSpace(x[..k]) && AllSpace(x[z..])
    requires k == z || (!IsSpace(x[k]) && !IsSpace(x[z - 1]))
    ensures k == i && z == j
  {
    assert forall p :: 0 <= p < k ==> x[..k][p] == x[p];
    assert forall p :: z <= p < |x| ==> x[z..][p - z] == x[p];
    assert forall p :: 0 <= p < i ==> x[..i][p] == x[p];
    assert forall p :: j <= p < |x| ==> x[j..][p - j] == x[p];
  }

  /** `strip()` of a text that is whitespace around `x[i..j]`, which starts
      and ends with something else, is `x[i..j]`. */
lemma StripAround(x: string, i: nat, j: nat)
    requires i < j <= |x| && AllSpace(x[..i]) && AllSpace(x[j..]) && !IsSpace(x[i]) && !IsSpace(x[j - 1])
    ensures Strip(x) == x[i..j]
  {
    var r := Strip(x);
    var k :| Occurs(x, r, k) && AllSpace(x[..k]) && AllSpace(x[k + |r|..]);
    StrippedAround(x, r, i, j, k);
  }

  /** A stripped text found in `x` with only whitespace around it is the
      span `x[i..j]`. */
  lemma StrippedAround(x: string, r: string, i: nat, j: nat, k: nat)
    requires i < j <= |x| && AllSpace(x[..i]) && AllSpace(x[j..]) && !IsSpace(x[i]) && !IsSpace(x[j - 1])
    requires IsStripped(r) && Occurs(x, r, k) && AllSpace(x[..k]) && AllSpace(x[k + |r|..])
    ensures r == x[i..j]
  {
    var z := k + |r|;
    if r != [] {
      assert r[0] == x[k] && r[|r| - 1] == x[z - 1];
    }
    SpanUnique(x, i, j, k, z);
  }

  // ------------------------------------------------------------ the groups

  /** The date of a match starts at the beginning of a text whose only `)`
      is its last character, since the prefix must end with a `)` before
      the date. */
  lemma StartIsZero(s: string, g: Groups)
    requires MatchShape(s, g) && forall k :: 0 <= k < |s| && s[k] == ')' ==> k == |s| - 1
    ensures g.start == 0
  {
  }

  /** The time of the first match starts right after the day number: a
      shorter date leaves no time token after it, and the first match takes
      the shortest date that works. */
  lemma DateEndIs(s: string, g: Groups, dEnd: nat)
    requires FirstMatch(s) == Some(g) && g.start == 0 && dEnd + 2 < |s|
    requires Boundary(s, dEnd + 1) && AfterDate(s, 0, dEnd + 1) != []
    requires (forall k :: 0 <= k < dEnd ==> IsAsciiDigit(s[k])) && s[dEnd] == ' ' && IsAsciiDigit(s[dEnd + 1])
    ensures g.dateEnd == dEnd + 1
  {
    FirstMatchOrder(s, g);
    if g.dateEnd < dEnd + 1 {
      NoTimeInDate(s, g.dateEnd, g.timeEnd, dEnd);
    }
  }

  /** No range is read after the time: the first character after its space
      is the event's, which does not open a dash. */
  lemma RangeEndIs(s: string, t: nat, r: nat)
    requires RangeShape(s, t, r) && t + 1 < |s| && s[t] == ' ' && !IsSpace(s[t + 1]) && !IsDashStart(s[t + 1])
    ensures r == t
  {
    SpaceRunOf(s, t, 1);
  }

  /** The event group is the event with at most its two neighbouring
      spaces, and the attendance group is all between the parentheses. */
  lemma TailIs(s: string, t: nat, e2: nat, tl: Tail)
    requires TailShape(s, t, tl) && t + 1 <= e2 && e2 + 3 < |s|
    requires s[t] == ' ' && !IsSpace(s[t + 1]) && !IsSpace(s[e2 - 1]) && s[e2] == ' '
    requires forall k :: 0 <= k < |s| && s[k] == '(' ==> k == e2 + 1
    requires forall k :: 0 <= k < |s| && s[k] == ')' ==> k == |s| - 1
    ensures t <= tl.eventStart <= t + 1 && e2 <= tl.eventEnd <= e2 + 1
    ensures tl.attStart == e2 + 2 && tl.attEnd == |s| - 1
  {
    assert tl.attStart == e2 + 2 && tl.attEnd == |s| - 1;
    assert forall p :: t <= p < tl.eventStart ==> s[t..tl.eventStart][p - t] == s[p];
    assert forall p :: tl.eventEnd <= p < e2 + 1 ==> s[tl.eventEnd..e2 + 1][p - tl.eventEnd] == s[p];
  }

  /** The first match of a text with a match, whose only `)` is its last
      character and that opens with a day number and its space, takes that
      day number for its date. */
  lemma FirstDate(s: string, dEnd: nat)
    requires Matches(s) != [] && forall k :: 0 <= k < |s| && s[k] == ')' ==> k == |s| - 1
    requires dEnd + 2 < |s| && Boundary(s, dEnd + 1) && AfterDate(s, 0, dEnd + 1) != []
    requires (forall k :: 0 <= k < dEnd ==> IsAsciiDigit(s[k])) && s[dEnd] == ' ' && IsAsciiDigit(s[dEnd + 1])
    ensures FirstMatch(s).Some?
    ensures FirstMatch(s).value.start == 0 && FirstMatch(s).value.dateEnd == dEnd + 1
  {
    var g := FirstMatch(s).value;
    StartIsZero(s, g);
    DateEndIs(s, g, dEnd);
  }

  /** The first match of a text laid out as a day number, a time token and
      a tail takes that day number for its date. */
  lemma PointsDate(s: string, q: nat, t: nat, e2: nat, h: string, c: string, sp: string, ap: string)
    requires TimeParts(h, c, sp, ap) && TokenAt(s, q, h, c, sp, ap) && t == q + |h + c + sp + ap|
    requires Boundary(s, q) && Boundary(s, t) && TailText(s, t, e2)
    requires 0 < q && (forall k :: 0 <= k < q - 1 ==> IsAsciiDigit(s[k])) && s[q - 1] == ' ' && IsAsciiDigit(s[q])
    requires forall k :: 0 <= k < |s| && s[k] == ')' ==> k == |s| - 1
    ensures FirstMatch(s).Some?
    ensures FirstMatch(s).value.start == 0 && FirstMatch(s).value.dateEnd == q
  {
    LaidOutInMatches(s, q, t, e2, h, c, sp, ap);
    FirstDate(s, q - 1);
  }

  /** The date of the first match of an entry `d t e (n)`: `d` and its
      space. */
  lemma EntryDate(s: string, d: string, h: string, c: string, sp: string, ap: string, e: string, n: string,
                  q: nat, t: nat, e2: nat)
    requires DayNumber(d) && TimeParts(h, c, sp, ap) && EventText(e) && IsAmount(n)
    requires Layout(s, d, h + c + sp + ap, e, n)
    requires q == |d| + 1 && t == q + |h + c + sp + ap| && e2 == t + 1 + |e|
    ensures FirstMatch(s).Some?
    ensures var g := FirstMatch(s).value; g.start == 0 && g.dateEnd == q
  {
    EntryChars(s, d, h, c, sp, ap, e, n);
    EntryPoints(s, d, h, c, sp, ap, e, n, q, t, e2);
    PointsDate(s, q, t, e2, h, c, sp, ap);
  }

  /** The date and the time of the first match of an entry `d t e (n)`:
      the date is `d` and its space, and the time is `t`. */
  lemma EntryHead(s: string, d: string, h: string, c: string, sp: string, ap: string, e: string, n: string,
                  q: nat, t: nat, e2: nat)
    requires DayNumber(d) && TimeParts(h, c, sp, ap) && EventText(e) && IsAmount(n)
    requires Layout(s, d, h + c + sp + ap, e, n)
    requires q == |d| + 1 && t == q + |h + c + sp + ap| && e2 == t + 1 + |e|
    ensures FirstMatch(s).Some?
    ensures var g := FirstMatch(s).value; g.start == 0 && g.dateEnd == q && g.timeEnd == t
  {
    EntryDate(s, d, h, c, sp, ap, e, n, q, t, e2);
    EntryPoints(s, d, h, c, sp, ap, e, n, q, t, e2);
    var g := FirstMatch(s).value;
    TokenAtChars(s, q, h, c, sp, ap);
    TimeEndUnique(s, q, g.timeEnd, |h|, |c|, |sp|);
  }

  /** The groups of the first match of an entry `d t e (n)`: the date is
      `d` and its space, the time is `t` and no range follows it, the event
      is `e` with at most the spaces beside it, and the attendance is `n`. */
  lemma EntryGroups(s: string, d: string, h: string, c: string, sp: string, ap: string, e: string, n: string,
                    q: nat, t: nat, e2: nat)
    requires DayNumber(d) && TimeParts(h, c, sp, ap) && EventText(e) && IsAmount(n)
    requires Layout(s, d, h + c + sp + ap, e, n)
    requires q == |d| + 1 && t == q + |h + c + sp + ap| && e2 == t + 1 + |e|
    ensures FirstMatch(s).Some?
    ensures var g := FirstMatch(s).value;
      && g.start == 0 && g.dateEnd == q && g.timeEnd == t && g.rangeEnd == t
      && t <= g.tail.eventStart <= t + 1 && e2 <= g.tail.eventEnd <= e2 + 1
      && g.tail.attStart == e2 + 2 && g.tail.attEnd == |s| - 1
  {
    EntryHead(s, d, h, c, sp, ap, e, n, q, t, e2);
    EntryChars(s, d, h, c, sp, ap, e, n);
    EntryPoints(s, d, h, c, sp, ap, e, n, q, t, e2);
    var g := FirstMatch(s).value;
    RangeEndIs(s, t, g.rangeEnd);
    TailIs(s, t, e2, g.tail);
  }

  // ------------------------------------------------------------ the fields

  /** Removing the letters of a text that has none leaves it as it is. */
  lemma {:induction false} RemoveLettersKeeps(x: string)
    requires NoLetters(x)
    ensures RemoveLetters(x) == x
  {
    if x != [] {
      assert NoLetters(x[1..]) by {
        assert forall k :: 0 <= k < |x| - 1 ==> x[1..][k] == x[k + 1];
      }
      RemoveLettersKeeps(x[1..]);
      assert x == [x[0]] + x[1..];
    }
  }

  /** The date field of the entry is its day number. */
  lemma DateField(s: string, d: string, q: nat)
    requires DayNumber(d) && q == |d| + 1 <= |s| && s[..|d|] == d && s[|d|] == ' '
    ensures DateText(s[0..q]) == d
  {
    var x := s[0..q];
    assert x[..0] == [];
    assert x[|d|..] == [' '];
    assert x[0] == d[0] && x[|d| - 1] == d[|d| - 1];
    StripAround(x, 0, |d|);
    assert x[0..|d|] == d;
    assert NoLetters(d);
    RemoveLettersKeeps(d);
    StripOfStripped(d);
  }

  /** A time token has no whitespace at either end. */
  lemma TokenStripped(h: string, c: string, sp: string, ap: string)
    requires TimeParts(h, c, sp, ap)
    ensures IsStripped(h + c + sp + ap)
  {
    var t := h + c + sp + ap;
    assert t[0] == h[0];
    assert t[|t| - 1] == ap[1];
  }

  /** The event field of the entry is its event, whichever of the spaces
      beside it the event group took. */
  lemma EventField(s: string, e: string, t: nat, e2: nat, a: nat, b: nat)
    requires EventText(e) && e2 == t + 1 + |e| && e2 < |s| && s[t] == ' ' && s[e2] == ' '
    requires s[t + 1..e2] == e
    requires t <= a <= t + 1 && e2 <= b <= e2 + 1
    ensures Strip(s[a..b]) == e
  {
    var e1 := t + 1;
    var x := s[a..b];
    var i := e1 - a;
    var j := e2 - a;
    assert x[..i] == [] || x[..i] == [s[t]];
    assert x[j..] == [] || x[j..] == [s[e2]];
    SliceOfSlice(s, a, b, i, j);
    assert x[i..j] == e;
    assert x[i] == e[0] && x[j - 1] == e[|e| - 1];
    StripAround(x, i, j);
  }

  /** The fields of a match whose groups are the parts of an entry, up to
      the spaces beside the event. */
  lemma FieldsAre(s: string, g: Groups, d: string, tok: string, e: string, n: string, q: nat, t: nat, e2: nat)
    requires MatchShape(s, g) && DayNumber(d) && IsStripped(tok) && EventText(e) && IsAmount(n)
    requires q == |d| + 1 && e2 == t + 1 + |e| && e2 < |s|
    requires g.start == 0 && g.dateEnd == q && g.timeEnd == t
    requires t <= g.tail.eventStart <= t + 1 && e2 <= g.tail.eventEnd <= e2 + 1
    requires g.tail.attStart == e2 + 2 && g.tail.attEnd == |s| - 1
    requires s[..|d|] == d && s[|d|] == ' ' && s[q..t] == tok && s[t] == ' ' && s[t + 1..e2] == e && s[e2] == ' '
    requires s[e2 + 2..|s| - 1] == n
    ensures Fields(s, g) == Entry(d, tok, e, RemoveChar(n, ','))
  {
    FieldValues(s, d, tok, e, n, q, t, e2, g.start, g.dateEnd, g.timeEnd,
                g.tail.eventStart, g.tail.eventEnd, g.tail.attStart, g.tail.attEnd);
  }

  /** The four fields read from the given group bounds. */
  lemma FieldValues(s: string, d: string, tok: string, e: string, n: string, q: nat, t: nat, e2: nat,
                    a0: nat, a1: nat, a2: nat, b1: nat, b2: nat, c1: nat, c2: nat)
    requires DayNumber(d) && IsStripped(tok) && EventText(e) && IsAmount(n)
    requires q == |d| + 1 && e2 == t + 1 + |e| && e2 + 2 < |s| && q <= t
    requires a0 == 0 && a1 == q && a2 == t && t <= b1 <= t + 1 && e2 <= b2 <= e2 + 1
    requires c1 == e2 + 2 && c2 == |s| - 1 && c1 <= c2
    requires s[..|d|] == d && s[|d|] == ' ' && s[q..t] == tok && s[t] == ' ' && s[t + 1..e2] == e && s[e2] == ' '
    requires s[e2 + 2..|s| - 1] == n
    ensures DateText(s[a0..a1]) == d && Strip(s[a1..a2]) == tok && Strip(s[b1..b2]) == e
    ensures Strip(RemoveChar(s[c1..c2], ',')) == RemoveChar(n, ',')
  {
    HeadFields(s, d, tok, e, q, t, e2, a0, a1, a2, b1, b2);
    var w := s[c1..c2];
    assert w == n;
    AttendanceField(s, n, c1, c2);
  }

  /** The date, time and event fields read from the given group bounds. */
  lemma HeadFields(s: string, d: string, tok: string, e: string, q: nat, t: nat, e2: nat,
                   a0: nat, a1: nat, a2: nat, b1: nat, b2: nat)
    requires DayNumber(d) && IsStripped(tok) && EventText(e)
    requires q == |d| + 1 && e2 == t + 1 + |e| && e2 < |s| && q <= t
    requires a0 == 0 && a1 == q && a2 == t && t <= b1 <= t + 1 && e2 <= b2 <= e2 + 1
    requires s[..|d|] == d && s[|d|] == ' ' && s[q..t] == tok && s[t] == ' ' && s[t + 1..e2] == e && s[e2] == ' '
    ensures DateText(s[a0..a1]) == d && Strip(s[a1..a2]) == tok && Strip(s[b1..b2]) == e
  {
    DateField(s, d, q);
    StripOfStripped(tok);
    EventField(s, e, t, e2, b1, b2);
  }

  /** The attendance field read from the given group bounds. */
  lemma AttendanceField(s: string, n: string, c1: nat, c2: nat)
    requires IsAmount(n) && c1 <= c2 <= |s| && s[c1..c2] == n
    ensures Strip(RemoveChar(s[c1..c2], ',')) == RemoveChar(n, ',')
  {
    AttendanceDigits(n);
  }

  /** The fields of the first match of a laid-out entry are its parts. */
  lemma LaidOutFields(s: string, d: string, h: string, c: string, sp: string, ap: string, e: string, n: string,
                      q: nat, t: nat, e2: nat)
    requires DayNumber(d) && TimeParts(h, c, sp, ap) && EventText(e) && IsAmount(n)
    requires Layout(s, d, h + c + sp + ap, e, n)
    requires q == |d| + 1 && t == q + |h + c + sp + ap| && e2 == t + 1 + |e|
    ensures FirstMatch(s).Some?
    ensures ParseEntry(s) == Entry(d, h + c + sp + ap, e, RemoveChar(n, ','))
  {
    EntryGroups(s, d, h, c, sp, ap, e, n, q, t, e2);
    EntryPoints(s, d, h, c, sp, ap, e, n, q, t, e2);
    TokenStripped(h, c, sp, ap);
    FieldsAre(s, FirstMatch(s).value, d, h + c + sp + ap, e, n, q, t, e2);
  }

  /** `parse_entry` on an entry written as `d t e (n)` (a day number, a
      time, an event on one line and an attendance, single spaces between
      them) gives back exactly those parts, the attendance without its
      commas: the expression matches such an entry, and its groups are the
      parts. */
  lemma ParseEntryRoundTrip(d: string, h: string, c: string, sp: string, ap: string, e: string, n: string)
    requires DayNumber(d) && TimeParts(h, c, sp, ap) && EventText(e) && IsAmount(n)
    ensures FirstMatch(EntryText(d, h + c + sp + ap, e, n)).Some?
    ensures ParseEntry(EntryText(d, h + c + sp + ap, e, n)) == Entry(d, h + c + sp + ap, e, RemoveChar(n, ','))
  {
    var t := h + c + sp + ap;
    var q: nat := |d| + 1;
    var te: nat := q + |t|;
    EntryLayout(d, t, e, n);
    LaidOutFields(EntryText(d, t, e, n), d, h, c, sp, ap, e, n, q, te, te + 1 + |e|);
  }
}
