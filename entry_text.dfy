/** The text parser of the calendar experiments: the extracted text of a
    schedule is cut into entries, one per closing parenthesis, and each entry
    is split by one regular expression into a date, a time, an event and an
    attendance, with a word-splitting fallback when the expression does not
    match. */
module CalendarText {
  import opened Opt
  import opened PyText

  // ============================================================ entries

  /** The row of weekday names printed above the calendar grid. */
  const Header: string := "SUN MON TUES WED THURS FRI SAT"

  /** The text after the first header, or all of the text when there is no
      header. */
  function Content(text: string): (c: string)
    ensures !Contains(text, Header) ==> c == text
    ensures Contains(text, Header) ==>
      exists i :: (Occurs(text, Header, i) && (forall k :: 0 <= k < i ==> !Occurs(text, Header, k))
        && c == text[i + |Header|..])
  {
    match Find(text, Header)
    case None => text
    case Some(i) => text[i + |Header|..]
  }

  /** `re.findall(r'(.*?\))', s, flags=re.DOTALL)`: the shortest pieces that
      end with a closing parenthesis, one after another from the start. */
  function Segments(s: string): (r: seq<string>)
    decreases |s|
  {
    match Find(s, ")")
    case None => []
    case Some(i) => [s[..i + 1]] + Segments(s[i + 1..])
  }

  /** The number of occurrences of `c` in `s`. */
  function CountChar(s: string, c: char): nat {
    if s == [] then 0 else (if s[0] == c then 1 else 0) + CountChar(s[1..], c)
  }

  /** `[" ".join(e.split()) for e in segs if e.strip()]` */
  function Cleaned(segs: seq<string>): (r: seq<string>)
    ensures |r| <= |segs|
    ensures forall k :: 0 <= k < |r| ==> r[k] != [] && IsCollapsed(r[k])
  {
    if segs == [] then []
    else if Strip(segs[0]) != [] then
      CollapseNonBlank(segs[0]);
      [Collapse(segs[0])] + Cleaned(segs[1..])
    else Cleaned(segs[1..])
  }

  /** `parse_entries`, once the file has been read into `text`. */
  function ParseEntries(text: string): (r: seq<string>)
    ensures var segs := Segments(Content(text));
      && |r| == |segs| == CountChar(Content(text), ')')
      && forall k :: 0 <= k < |segs| ==> r[k] == Collapse(segs[k])
    ensures forall k :: 0 <= k < |r| ==> r[k] != [] && IsCollapsed(r[k])
  {
    SegmentsShape(Content(text));
    SegmentsCount(Content(text));
    CleanedKeepsAll(Segments(Content(text)));
    Cleaned(Segments(Content(text)))
  }

  lemma {:induction false} ConcatCons(x: string, rest: seq<string>)
    ensures Concat([x] + rest) == x + Concat(rest)
    decreases |rest|
  {
    if rest != [] {
      var n := |rest| - 1;
      var all := [x] + rest;
      assert all[..|all| - 1] == [x] + rest[..n];
      ConcatCons(x, rest[..n]);
    } else {
      assert [x] + rest == [x];
      assert [x][..0] == [];
    }
  }

  /** The segments, put back together, are the text up to and including its
      last closing parenthesis: what follows has none. */
  lemma {:induction false} SegmentsCover(s: string)
    ensures var c := Concat(Segments(s));
      && c <= s && ')' !in s[|c|..]
      && (c == [] || c[|c| - 1] == ')')
    decreases |s|
  {
    match Find(s, ")")
    case None =>
      forall k | 0 <= k < |s| ensures s[k] != ')' {
        assert !Occurs(s, ")", k);
      }
      assert s[0..] == s;
    case Some(i) =>
      var a, rest := s[..i + 1], s[i + 1..];
      SegmentsCover(rest);
      ConcatCons(a, Segments(rest));
      var c := Concat(Segments(rest));
      assert Concat(Segments(s)) == a + c;
      assert s[i..i + 1] == ")";
      CoverStep(s, i, a, rest, c);
  }

  /** The text up to the first `)`, then a cover of the rest, covers the text. */
  lemma CoverStep(s: string, i: nat, a: string, rest: string, c: string)
    requires i < |s| && s[i] == ')' && a == s[..i + 1] && rest == s[i + 1..]
    requires c <= rest && ')' !in rest[|c|..] && (c == [] || c[|c| - 1] == ')')
    ensures var w := a + c; w <= s && ')' !in s[|w|..] && w[|w| - 1] == ')'
  {
    assert s == a + rest;
    assert s[|a + c|..] == rest[|c|..];
  }

  /** Each segment ends with its one closing parenthesis. */
  lemma {:induction false} SegmentsShape(s: string)
    ensures forall k :: 0 <= k < |Segments(s)| ==>
      var seg := Segments(s)[k];
      seg != [] && seg[|seg| - 1] == ')' && ')' !in seg[..|seg| - 1]
    decreases |s|
  {
    match Find(s, ")")
    case None =>
    case Some(i) =>
      SegmentsShape(s[i + 1..]);
      assert s[i..i + 1] == ")";
      var seg := s[..i + 1];
      forall k | 0 <= k < i ensures seg[k] != ')' {
        assert !Occurs(s, ")", k);
      }
      assert seg[..|seg| - 1] == s[..i];
  }

  /** There are as many segments as closing parentheses. */
  lemma {:induction false} SegmentsCount(s: string)
    ensures |Segments(s)| == CountChar(s, ')')
    decreases |s|
  {
    match Find(s, ")")
    case None =>
      forall k | 0 <= k < |s| ensures s[k] != ')' {
        assert !Occurs(s, ")", k);
      }
      NoCount(s, ')');
    case Some(i) =>
      SegmentsCount(s[i + 1..]);
      assert s[i..i + 1] == ")";
      forall k | 0 <= k < i ensures s[k] != ')' {
        assert !Occurs(s, ")", k);
      }
      CountSplit(s, ')', i);
  }

  lemma {:induction false} NoCount(s: string, c: char)
    requires forall k :: 0 <= k < |s| ==> s[k] != c
    ensures CountChar(s, c) == 0
    decreases |s|
  {
    if s != [] {
      NoCount(s[1..], c);
    }
  }

  /** A text whose first `c` is at `i` counts one more `c` than its rest. */
  lemma {:induction false} CountSplit(s: string, c: char, i: nat)
    requires i < |s| && s[i] == c && forall k :: 0 <= k < i ==> s[k] != c
    ensures CountChar(s, c) == 1 + CountChar(s[i + 1..], c)
    decreases i
  {
    if i > 0 {
      CountSplit(s[1..], c, i - 1);
      assert s[1..][i..] == s[i + 1..];
    }
  }

  /** A segment with something besides whitespace in it is never cleaned
      away to the empty string. */
  lemma CollapseNonBlank(s: string)
    requires Strip(s) != []
    ensures Collapse(s) != []
  {
    assert LeadingSpaces(s) < |s|;
    assert Words(s) != [];
  }

  /** Segments that end with a non-space character all survive the filter. */
  lemma {:induction false} CleanedKeepsAll(segs: seq<string>)
    requires forall k :: 0 <= k < |segs| ==> segs[k] != [] && segs[k][|segs[k]| - 1] == ')'
    ensures |Cleaned(segs)| == |segs|
    ensures forall k :: 0 <= k < |segs| ==> Cleaned(segs)[k] == Collapse(segs[k])
  {
    CleanedIsCollapseAll(segs);
  }

  /** Every segment collapsed, in order. */
  function CollapseAll(segs: seq<string>): (r: seq<string>)
    ensures |r| == |segs|
    ensures forall k :: 0 <= k < |segs| ==> r[k] == Collapse(segs[k])
  {
    if segs == [] then [] else [Collapse(segs[0])] + CollapseAll(segs[1..])
  }

  lemma {:induction false} CleanedIsCollapseAll(segs: seq<string>)
    requires forall k :: 0 <= k < |segs| ==> segs[k] != [] && segs[k][|segs[k]| - 1] == ')'
    ensures Cleaned(segs) == CollapseAll(segs)
    decreases |segs|
  {
    if segs != [] {
      NotBlank(segs[0]);
      CleanedIsCollapseAll(segs[1..]);
      CleanedKeeps(segs);
    }
  }

  /** A segment that does not strip to nothing is kept, collapsed. */
  lemma CleanedKeeps(segs: seq<string>)
    requires segs != [] && Strip(segs[0]) != []
    ensures Cleaned(segs) == [Collapse(segs[0])] + Cleaned(segs[1..])
  {
  }

  /** A text ending in a non-space character does not strip to nothing. */
  lemma NotBlank(s: string)
    requires s != [] && !IsSpace(s[|s| - 1])
    ensures Strip(s) != []
  {
    var r := Strip(s);
    var i :| Occurs(s, r, i) && AllSpace(s[..i]) && AllSpace(s[i + |r|..]);
    SpacedTailLast(s, i + |r|);
    SpacedHeadLast(s, i);
  }

  /** Whitespace from `j` on takes in the last character, if there is one. */
  lemma SpacedTailLast(s: string, j: nat)
    requires j <= |s| && AllSpace(s[j..])
    ensures j < |s| ==> IsSpace(s[|s| - 1])
  {
    if j < |s| {
      assert s[j..][|s| - 1 - j] == s[|s| - 1];
    }
  }

  /** Whitespace up to `i` takes in the last character when it reaches the
      end. */
  lemma SpacedHeadLast(s: string, i: nat)
    requires i <= |s| && AllSpace(s[..i])
    ensures i == |s| && s != [] ==> IsSpace(s[|s| - 1])
  {
    if i == |s| && s != [] {
      assert s[..i][|s| - 1] == s[|s| - 1];
    }
  }

  // ======================================================= the expression
  //
  // `pattern.match(entry)` is modelled by the list of all the ways the
  // expression can match, in the order the backtracking matcher tries
  // them: a greedy repetition lists its longest choice first, a lazy one its
  // shortest, an optional group the choice with the group first, an
  // alternation its left branch first. The match Python returns is the
  // head of that list.

  /** All the results of `f` on `xs`, in order. */
  function FlatMap<A, B>(xs: seq<A>, f: A -> seq<B>): seq<B>
    decreases |xs|
  {
    if xs == [] then [] else f(xs[0]) + FlatMap(xs[1..], f)
  }

  lemma {:induction false} FromFlatMap<A, B>(xs: seq<A>, f: A -> seq<B>, y: B)
    requires y in FlatMap(xs, f)
    ensures exists x :: x in xs && y in f(x)
    decreases |xs|
  {
    if y !in f(xs[0]) {
      FromFlatMap(xs[1..], f, y);
      var x :| x in xs[1..] && y in f(x);
      assert x in xs;
    }
  }

  /** The index of the first element of `xs` with any result: the head of
      the list is its first result, and the elements before it have none. */
  function HeadIndex<A, B>(xs: seq<A>, f: A -> seq<B>): (i: nat)
    requires FlatMap(xs, f) != []
    ensures i < |xs| && f(xs[i]) != [] && FlatMap(xs, f)[0] == f(xs[i])[0]
    ensures forall j :: 0 <= j < i ==> f(xs[j]) == []
    decreases |xs|
  {
    if f(xs[0]) != [] then 0
    else
      var i := HeadIndex(xs[1..], f);
      assert forall j :: 0 < j <= i ==> xs[j] == xs[1..][j - 1];
      1 + i
  }

  /** A first element with a result makes the whole list non-empty. */
  lemma FirstNonEmpty<A, B>(xs: seq<A>, f: A -> seq<B>)
    requires xs != [] && f(xs[0]) != []
    ensures FlatMap(xs, f) != []
  {
  }

  /** The positions `i + n` down to `i`: the choices of a greedy repetition. */
  function Down(i: nat, n: nat): (r: seq<nat>)
    ensures |r| == n + 1 && forall k :: 0 <= k < |r| ==> r[k] == i + n - k
  {
    seq(n + 1, k requires 0 <= k < n + 1 => i + n - k)
  }

  /** The positions `i` up to `i + n`: the choices of a lazy repetition. */
  function Up(i: nat, n: nat): (r: seq<nat>)
    ensures |r| == n + 1 && forall k :: 0 <= k < |r| ==> r[k] == i + k
  {
    seq(n + 1, k requires 0 <= k < n + 1 => i + k)
  }

  lemma InDown(i: nat, n: nat, j: nat)
    requires j in Down(i, n)
    ensures i <= j <= i + n
  {
  }

  lemma InUp(i: nat, n: nat, j: nat)
    requires j in Up(i, n)
    ensures i <= j <= i + n
  {
  }

  /** `s[i..j]` read inside `s[q..t]`. */
  lemma SliceOfSlice(s: string, q: nat, t: nat, i: nat, j: nat)
    requires q <= t <= |s| && i <= j <= t - q
    ensures s[q..t][i..j] == s[q + i..q + j]
  {
    var x, y := s[q..t][i..j], s[q + i..q + j];
    forall k | 0 <= k < |x| ensures x[k] == y[k] {
      assert x[k] == s[q..t][i + k];
    }
  }

  /** The number of characters from `i` on that `.` matches: all but the
      newline. */
  function LineRun(s: string, i: nat): (n: nat)
    ensures n > 0 ==> i + n <= |s|
    ensures forall k :: i <= k < i + n ==> s[k] != '\n'
    decreases |s| - i
  {
    if i < |s| && s[i] != '\n' then 1 + LineRun(s, i + 1) else 0
  }

  predicate IsAmountChar(c: char) { IsAsciiDigit(c) || c == ',' }

  /** The attendance group's characters, `[\d,]+`. */
  predicate IsAmount(x: string) {
    x != [] && forall k :: 0 <= k < |x| ==> IsAmountChar(x[k])
  }

  /** The number of `[\d,]` characters from `i` on. */
  function AmountRun(s: string, i: nat): (n: nat)
    ensures n > 0 ==> i + n <= |s|
    ensures forall k :: i <= k < i + n ==> IsAmountChar(s[k])
    decreases |s| - i
  {
    if i < |s| && IsAmountChar(s[i]) then 1 + AmountRun(s, i + 1) else 0
  }

  /** `\w` on `str`: letters, digits and numerals, and the underscore. Code
      points above U+00FF are taken as non-word characters. */
  predicate IsWordChar(c: char) {
    IsAsciiLetter(c) || IsAsciiDigit(c) || c == '_'
    || c == '\U{AA}' || c == '\U{B2}' || c == '\U{B3}' || c == '\U{B5}' || c == '\U{B9}' || c == '\U{BA}'
    || ('\U{BC}' <= c <= '\U{BE}') || ('\U{C0}' <= c <= '\U{D6}') || ('\U{D8}' <= c <= '\U{F6}')
    || ('\U{F8}' <= c <= '\U{FF}')
  }

  /** `\b` at position `i`: a word character on exactly one side. */
  predicate Boundary(s: string, i: nat) {
    (0 < i <= |s| && IsWordChar(s[i - 1])) != (i < |s| && IsWordChar(s[i]))
  }

  /** `\s*` from `i`. */
  function Spaces(s: string, i: nat): seq<nat> {
    if i <= |s| then Down(i, SpaceRun(s, i)) else []
  }

  lemma InSpaces(s: string, i: nat, j: nat)
    requires j in Spaces(s, i)
    ensures i <= j <= |s| && AllSpace(s[i..j])
  {
    InDown(i, SpaceRun(s, i), j);
    assert forall k :: 0 <= k < j - i ==> s[i..j][k] == s[i + k];
  }

  // The continuations below are the rest of the expression after each
  // piece, as functions of the position where that piece ends.

  /** `\d{1,2}` from `i`. */
  function Digits12(s: string, i: nat): seq<nat> {
    if i + 2 <= |s| && IsAsciiDigit(s[i]) && IsAsciiDigit(s[i + 1]) then [i + 2, i + 1]
    else if i < |s| && IsAsciiDigit(s[i]) then [i + 1]
    else []
  }

  /** `(?::\d{2})?` from `i`. */
  function Minutes(s: string, i: nat): seq<nat> {
    if i + 3 <= |s| && s[i] == ':' && IsAsciiDigit(s[i + 1]) && IsAsciiDigit(s[i + 2]) then [i + 3, i] else [i]
  }

  /** `am` or `pm` in any case. */
  predicate IsMeridiem(x: string) {
    |x| == 2 && (LowerChar(x[0]) == 'a' || LowerChar(x[0]) == 'p') && LowerChar(x[1]) == 'm'
  }

  /** `(?:AM|PM)` from `i`, case-insensitively: at most one branch matches. */
  function Meridiem(s: string): nat -> seq<nat> {
    (i: nat) => if i + 2 <= |s| && IsMeridiem(s[i..i + 2]) then [i + 2] else []
  }

  /** `\s*(?:AM|PM)` after the minutes. */
  function AfterMinutes(s: string): nat -> seq<nat> {
    (m: nat) => FlatMap(Spaces(s, m), Meridiem(s))
  }

  /** `(?::\d{2})?\s*(?:AM|PM)` after the hour digits. */
  function AfterHour(s: string): nat -> seq<nat> {
    (d: nat) => FlatMap(Minutes(s, d), AfterMinutes(s))
  }

  /** `\d{1,2}(?::\d{2})?\s*(?:AM|PM)` from `q`. */
  function Times(s: string, q: nat): seq<nat> {
    FlatMap(Digits12(s, q), AfterHour(s))
  }

  /** `\b` after a time token. */
  function BoundaryAt(s: string): nat -> seq<nat> {
    (t: nat) => if Boundary(s, t) then [t] else []
  }

  /** A time token followed by `\b`, from `q`. */
  function BoundedTimes(s: string): nat -> seq<nat> {
    (q: nat) => FlatMap(Times(s, q), BoundaryAt(s))
  }

  /** `(?:-|â€“)` from `i`; under IGNORECASE the `â` also matches `Â`. */
  function Dashes(s: string, i: nat): seq<nat> {
    (if i < |s| && s[i] == '-' then [i + 1] else [])
    + (if i + 3 <= |s| && (s[i] == '\U{E2}' || s[i] == '\U{C2}') && s[i + 1] == '\U{20AC}' && s[i + 2] == '\U{201C}'
       then [i + 3] else [])
  }

  /** `\s*<time>\b` after the dash of a range. */
  function AfterDash(s: string): nat -> seq<nat> {
    (d: nat) => FlatMap(Spaces(s, d), BoundedTimes(s))
  }

  /** `(?:-|â€“)\s*<time>\b` after the spaces that open a range. */
  function RangeDash(s: string): nat -> seq<nat> {
    (w: nat) => FlatMap(Dashes(s, w), AfterDash(s))
  }

  /** The optional range `\s*(?:-|â€“)\s*<time>\b` taken. */
  function RangeTaken(s: string, t: nat): seq<nat> {
    FlatMap(Spaces(s, t), RangeDash(s))
  }

  /** The optional range: taken first, then skipped. */
  function RangeEnds(s: string, t: nat): seq<nat> {
    RangeTaken(s, t) + [t]
  }

  /** The event and attendance groups of a match. */
  datatype Tail = Tail(eventStart: nat, eventEnd: nat, attStart: nat, attEnd: nat)

  /** `$`: the end, or just before a newline that ends the text. */
  predicate AtEnd(s: string, z: nat) {
    z == |s| || (z + 1 == |s| && s[z] == '\n')
  }

  /** `$` after the closing spaces. */
  function EndAt(s: string, tl: Tail): nat -> seq<Tail> {
    (z: nat) => if AtEnd(s, z) then [tl] else []
  }

  /** `\)\s*$` after the attendance digits, which end at `c2`. */
  function Closing(s: string, e1: nat, e2: nat, c1: nat): nat -> seq<Tail> {
    (c2: nat) =>
      if c2 < |s| && s[c2] == ')' then FlatMap(Spaces(s, c2 + 1), EndAt(s, Tail(e1, e2, c1, c2))) else []
  }

  /** `[\d,]+` from `c1`. */
  function Amounts(s: string, c1: nat): seq<nat> {
    var n := AmountRun(s, c1);
    if n == 0 then [] else Down(c1 + 1, n - 1)
  }

  /** `\((?P<attendance>[\d,]+)\)\s*$` after the spaces that follow the
      event. */
  function Paren(s: string, e1: nat, e2: nat): nat -> seq<Tail> {
    (w: nat) => if w < |s| && s[w] == '(' then FlatMap(Amounts(s, w + 1), Closing(s, e1, e2, w + 1)) else []
  }

  /** `\s*\((?P<attendance>[\d,]+)\)\s*$` after the event `s[e1..e2]`. */
  function AfterEvent(s: string, e1: nat): nat -> seq<Tail> {
    (e2: nat) => FlatMap(Spaces(s, e2), Paren(s, e1, e2))
  }

  /** `(?P<event>.*?)` and the rest, from `e1`. */
  function EventFrom(s: string): nat -> seq<Tail> {
    (e1: nat) => FlatMap(Up(e1, LineRun(s, e1)), AfterEvent(s, e1))
  }

  /** `\s*(?P<event>.*?)` and the rest, from `r`. */
  function Tails(s: string, r: nat): seq<Tail> {
    FlatMap(Spaces(s, r), EventFrom(s))
  }

  /** The positions of a whole match: the date starts at `start` and ends
      where the time starts, the range (when taken) runs from `timeEnd` to
      `rangeEnd`. */
  datatype Groups = Groups(start: nat, dateEnd: nat, timeEnd: nat, rangeEnd: nat, tail: Tail)

  /** The match made of these positions. */
  function Whole(a: nat, q: nat, t: nat, r: nat): Tail -> seq<Groups> {
    (tl: Tail) => [Groups(a, q, t, r, tl)]
  }

  /** The event and attendance after the range, or the time, ends at `r`. */
  function AfterRange(s: string, a: nat, q: nat, t: nat): nat -> seq<Groups> {
    (r: nat) => FlatMap(Tails(s, r), Whole(a, q, t, r))
  }

  /** The range and the rest after the time ends at `t`. */
  function AfterTime(s: string, a: nat, q: nat): nat -> seq<Groups> {
    (t: nat) => FlatMap(RangeEnds(s, t), AfterRange(s, a, q, t))
  }

  /** Everything after a date that ends at `q`. */
  function AfterDate(s: string, a: nat, q: nat): seq<Groups> {
    FlatMap(BoundedTimes(s)(q), AfterTime(s, a, q))
  }

  /** `\b` and the rest after a date that ends at `q`. */
  function DateEnd(s: string, a: nat): nat -> seq<Groups> {
    (q: nat) => if Boundary(s, q) then AfterDate(s, a, q) else []
  }

  /** `(?P<date>.*?)\b` and the rest, for a date that starts at `a`. */
  function DateMatches(s: string): nat -> seq<Groups> {
    (a: nat) => FlatMap(Up(a, LineRun(s, a)), DateEnd(s, a))
  }

  /** `\)` after the `.*` of the prefix, which ends at `n`. */
  function PrefixParen(s: string): nat -> seq<nat> {
    (n: nat) => if n < |s| && s[n] == ')' then [n + 1 as nat] else []
  }

  /** Where `(?P<prefix>.*\))` can end: after a `)` before the first
      newline, the longest first. */
  function PrefixEnds(s: string): seq<nat> {
    FlatMap(Down(0, LineRun(s, 0)), PrefixParen(s))
  }

  /** `\s*` after the prefix. */
  function AfterPrefix(s: string): nat -> seq<nat> {
    (p: nat) => Spaces(s, p)
  }

  /** Where the date can start: after the optional `(?:<prefix>\s*)?`. */
  function Starts(s: string): seq<nat> {
    FlatMap(PrefixEnds(s), AfterPrefix(s)) + [0]
  }

  /** Every match of the expression, in the order they are tried. */
  function Matches(s: string): seq<Groups> {
    FlatMap(Starts(s), DateMatches(s))
  }

  // ------------------------------------------------- shape of a match

  /** `d` leading digits (one or two), then `:` and two digits when
      `m == d + 3`, whitespace, and `am` or `pm` to the end. */
  predicate TimeSplit(x: string, d: nat, m: nat) {
    && 1 <= d <= 2 && d <= m && m + 2 <= |x|
    && AllDigits(x[..d])
    && (m == d || (m == d + 3 && x[d] == ':' && AllDigits(x[d + 1..m])))
    && AllSpace(x[m..|x| - 2]) && IsMeridiem(x[|x| - 2..])
  }

  /** A time token: `\d{1,2}(?::\d{2})?\s*(?:AM|PM)` in any case. */
  predicate IsTimeText(x: string) {
    exists d: nat, m: nat | d <= 2 && m <= |x| :: TimeSplit(x, d, m)
  }

  predicate NoNewline(x: string) { '\n' !in x }

  /** The attendance part, once the event ends at `e2`. */
  predicate TailAfter(s: string, e2: nat, tl: Tail) {
    && e2 <= tl.attStart - 1 && tl.attStart < tl.attEnd < |s|
    && s[tl.attStart - 1] == '(' && IsAmount(s[tl.attStart..tl.attEnd]) && s[tl.attEnd] == ')'
    && AllSpace(s[e2..tl.attStart - 1]) && AllSpace(s[tl.attEnd + 1..])
  }

  /** The event and attendance part, once the time (and the range, if any)
      end at `r`. */
  predicate TailShape(s: string, r: nat, tl: Tail) {
    && r <= tl.eventStart <= tl.eventEnd && tl.eventStart <= |s|
    && AllSpace(s[r..tl.eventStart])
    && TailAfter(s, tl.eventEnd, tl)
    && NoNewline(s[tl.eventStart..tl.eventEnd])
  }

  /** The characters that can open the dash of a range. */
  predicate IsDashStart(c: char) { c == '-' || c == '\U{E2}' || c == '\U{C2}' }

  /** A range is taken only where the first character after the time and
      its whitespace opens a dash. */
  predicate RangeShape(s: string, t: nat, r: nat) {
    r == t || (t + SpaceRun(s, t) < |s| && IsDashStart(s[t + SpaceRun(s, t)]))
  }

  /** The date, time and range part of a match. */
  predicate HeadShape(s: string, a: nat, q: nat, g: Groups) {
    && g.start == a && g.dateEnd == q && q < g.timeEnd <= g.rangeEnd <= |s|
    && Boundary(s, q) && Boundary(s, g.timeEnd)
    && IsTimeText(s[q..g.timeEnd]) && RangeShape(s, g.timeEnd, g.rangeEnd)
    && TailShape(s, g.rangeEnd, g.tail)
  }

  /** What any match says about the entry. */
  predicate MatchShape(s: string, g: Groups) {
    && g.start <= g.dateEnd
    && HeadShape(s, g.start, g.dateEnd, g)
    && (g.start == 0 || ')' in s[..g.start])
  }

  lemma InEndAt(s: string, c2: nat, tl: Tail, y: Tail)
    requires c2 < |s| && y in FlatMap(Spaces(s, c2 + 1), EndAt(s, tl))
    ensures y == tl && AllSpace(s[c2 + 1..])
  {
    FromFlatMap(Spaces(s, c2 + 1), EndAt(s, tl), y);
    var z :| z in Spaces(s, c2 + 1) && y in EndAt(s, tl)(z);
    InSpaces(s, c2 + 1, z);
    SpacesToEnd(s, c2 + 1, z);
  }

  /** Whitespace up to `$` is whitespace to the end. */
  lemma SpacesToEnd(s: string, u: nat, z: nat)
    requires u <= z <= |s| && AllSpace(s[u..z]) && AtEnd(s, z)
    ensures AllSpace(s[u..])
  {
    var rest := s[u..];
    forall k | 0 <= k < |rest| ensures IsSpace(rest[k]) {
      if k < z - u {
        assert rest[k] == s[u..z][k];
      } else {
        assert rest[k] == s[z] == '\n';
      }
    }
  }

  lemma InAmounts(s: string, c1: nat, c2: nat)
    requires c2 in Amounts(s, c1)
    ensures c1 < c2 <= |s| && IsAmount(s[c1..c2])
  {
    var n := AmountRun(s, c1);
    InDown(c1 + 1, n - 1, c2);
    assert forall k :: 0 <= k < c2 - c1 ==> s[c1..c2][k] == s[c1 + k];
  }

  lemma InParen(s: string, e1: nat, e2: nat, w: nat, tl: Tail)
    requires w < |s| && s[w] == '(' && tl in FlatMap(Amounts(s, w + 1), Closing(s, e1, e2, w + 1))
    ensures tl.eventStart == e1 && tl.eventEnd == e2 && tl.attStart == w + 1 && w + 1 < tl.attEnd < |s|
    ensures IsAmount(s[w + 1..tl.attEnd]) && s[tl.attEnd] == ')' && AllSpace(s[tl.attEnd + 1..])
  {
    FromFlatMap(Amounts(s, w + 1), Closing(s, e1, e2, w + 1), tl);
    var c2 :| c2 in Amounts(s, w + 1) && tl in Closing(s, e1, e2, w + 1)(c2);
    InClosing(s, e1, e2, w + 1, c2, tl);
    InAmounts(s, w + 1, c2);
  }

  lemma InClosing(s: string, e1: nat, e2: nat, c1: nat, c2: nat, tl: Tail)
    requires tl in Closing(s, e1, e2, c1)(c2)
    ensures c2 < |s| && s[c2] == ')' && tl == Tail(e1, e2, c1, c2) && AllSpace(s[c2 + 1..])
  {
    InEndAt(s, c2, Tail(e1, e2, c1, c2), tl);
  }

  lemma InAfterEvent(s: string, e1: nat, e2: nat, tl: Tail)
    requires tl in AfterEvent(s, e1)(e2)
    ensures tl.eventStart == e1 && tl.eventEnd == e2 && TailAfter(s, e2, tl)
  {
    FromFlatMap(Spaces(s, e2), Paren(s, e1, e2), tl);
    var w :| w in Spaces(s, e2) && tl in Paren(s, e1, e2)(w);
    InSpaces(s, e2, w);
    InParen(s, e1, e2, w, tl);
  }

  lemma InEventFrom(s: string, e1: nat, tl: Tail)
    requires tl in EventFrom(s)(e1)
    ensures tl.eventStart == e1 && tl.eventStart <= tl.eventEnd
    ensures TailAfter(s, tl.eventEnd, tl) && NoNewline(s[tl.eventStart..tl.eventEnd])
  {
    var n := LineRun(s, e1);
    FromFlatMap(Up(e1, n), AfterEvent(s, e1), tl);
    var e2 :| e2 in Up(e1, n) && tl in AfterEvent(s, e1)(e2);
    InUp(e1, n, e2);
    InAfterEvent(s, e1, e2, tl);
    LineFree(s, e1, e2);
  }

  /** What `.*` matches has no newline in it. */
  lemma LineFree(s: string, i: nat, j: nat)
    requires i <= j <= i + LineRun(s, i) && j <= |s|
    ensures NoNewline(s[i..j])
  {
    var x := s[i..j];
    forall k | 0 <= k < |x| ensures x[k] != '\n' {
      assert x[k] == s[i + k];
    }
  }

  lemma InTails(s: string, r: nat, tl: Tail)
    requires tl in Tails(s, r)
    ensures TailShape(s, r, tl)
  {
    FromFlatMap(Spaces(s, r), EventFrom(s), tl);
    var e1 :| e1 in Spaces(s, r) && tl in EventFrom(s)(e1);
    InSpaces(s, r, e1);
    InEventFrom(s, e1, tl);
  }

  lemma InDigits12(s: string, q: nat, d: nat)
    requires d in Digits12(s, q)
    ensures q < d <= q + 2 && d <= |s| && AllDigits(s[q..d])
  {
    assert forall k :: 0 <= k < d - q ==> s[q..d][k] == s[q + k];
  }

  lemma InMinutes(s: string, d: nat, m: nat)
    requires m in Minutes(s, d)
    ensures m == d || (m == d + 3 && m <= |s| && s[d] == ':' && AllDigits(s[d + 1..m]))
  {
    if m != d {
      assert s[d + 1..m] == [s[d + 1], s[d + 2]];
    }
  }

  /** The pieces of a time token found in `s`, read inside the token. */
  lemma TimeOfPieces(s: string, q: nat, d: nat, m: nat, w: nat, t: nat)
    requires q < d <= q + 2 && d <= m && m <= w && t == w + 2 && t <= |s|
    requires AllDigits(s[q..d])
    requires m == d || (m == d + 3 && s[d] == ':' && AllDigits(s[d + 1..m]))
    requires AllSpace(s[m..w]) && IsMeridiem(s[w..t])
    ensures IsTimeText(s[q..t])
  {
    var x := s[q..t];
    SliceOfSlice(s, q, t, 0, d - q);
    SliceOfSlice(s, q, t, m - q, w - q);
    SliceOfSlice(s, q, t, w - q, t - q);
    assert x[..d - q] == x[0..d - q];
    assert x[w - q..] == x[w - q..t - q];
    if m != d {
      SliceOfSlice(s, q, t, d - q + 1, m - q);
      assert x[d - q] == s[d];
    }
    assert TimeSplit(x, d - q, m - q);
  }

  lemma InMeridiem(s: string, m: nat, t: nat)
    requires t in FlatMap(Spaces(s, m), Meridiem(s))
    ensures exists w :: m <= w && t == w + 2 && t <= |s| && AllSpace(s[m..w]) && IsMeridiem(s[w..t])
  {
    FromFlatMap(Spaces(s, m), Meridiem(s), t);
    var w :| w in Spaces(s, m) && t in Meridiem(s)(w);
    InSpaces(s, m, w);
  }

  lemma InTimes(s: string, q: nat, t: nat)
    requires t in Times(s, q)
    ensures q < t <= |s| && IsTimeText(s[q..t])
  {
    FromFlatMap(Digits12(s, q), AfterHour(s), t);
    var d :| d in Digits12(s, q) && t in AfterHour(s)(d);
    InDigits12(s, q, d);
    FromFlatMap(Minutes(s, d), AfterMinutes(s), t);
    var m :| m in Minutes(s, d) && t in AfterMinutes(s)(m);
    InMinutes(s, d, m);
    InMeridiem(s, m, t);
    var w :| m <= w && t == w + 2 && t <= |s| && AllSpace(s[m..w]) && IsMeridiem(s[w..t]);
    TimeOfPieces(s, q, d, m, w, t);
  }

  lemma InBoundedTimes(s: string, q: nat, t: nat)
    requires t in BoundedTimes(s)(q)
    ensures q < t <= |s| && IsTimeText(s[q..t]) && Boundary(s, t)
  {
    FromFlatMap(Times(s, q), BoundaryAt(s), t);
    var t' :| t' in Times(s, q) && t in BoundaryAt(s)(t');
    InTimes(s, q, t');
  }

  lemma InAfterDash(s: string, d: nat, r: nat)
    requires r in AfterDash(s)(d)
    ensures d < r <= |s|
  {
    FromFlatMap(Spaces(s, d), BoundedTimes(s), r);
    var w2 :| w2 in Spaces(s, d) && r in BoundedTimes(s)(w2);
    InSpaces(s, d, w2);
    InBoundedTimes(s, w2, r);
  }

  lemma InRangeDash(s: string, w: nat, r: nat)
    requires r in RangeDash(s)(w)
    ensures w < r <= |s| && IsDashStart(s[w])
  {
    FromFlatMap(Dashes(s, w), AfterDash(s), r);
    var d :| d in Dashes(s, w) && r in AfterDash(s)(d);
    InDashes(s, w, d);
    InAfterDash(s, d, r);
  }

  lemma InDashes(s: string, w: nat, d: nat)
    requires d in Dashes(s, w)
    ensures w < d <= |s| && IsDashStart(s[w])
  {
  }

  lemma InRangeTaken(s: string, t: nat, r: nat)
    requires r in RangeTaken(s, t)
    ensures t < r <= |s| && RangeShape(s, t, r)
  {
    FromFlatMap(Spaces(s, t), RangeDash(s), r);
    var w :| w in Spaces(s, t) && r in RangeDash(s)(w);
    InSpaces(s, t, w);
    InRangeDash(s, w, r);
    InDown(t, SpaceRun(s, t), w);
    DashEndsSpaces(s, t, w);
  }

  /** A dash inside `\s*`'s choices is where the run stops. */
  lemma DashEndsSpaces(s: string, t: nat, w: nat)
    requires t <= w <= t + SpaceRun(s, t) && w < |s| && IsDashStart(s[w])
    ensures w == t + SpaceRun(s, t)
  {
  }

  lemma InRangeEnds(s: string, t: nat, r: nat)
    requires t <= |s| && r in RangeEnds(s, t)
    ensures t <= r <= |s| && RangeShape(s, t, r)
  {
    if r in RangeTaken(s, t) {
      InRangeTaken(s, t, r);
    }
  }

  lemma InAfterRange(s: string, a: nat, q: nat, t: nat, r: nat, g: Groups)
    requires g in AfterRange(s, a, q, t)(r)
    ensures g.start == a && g.dateEnd == q && g.timeEnd == t && g.rangeEnd == r
    ensures TailShape(s, r, g.tail)
  {
    FromFlatMap(Tails(s, r), Whole(a, q, t, r), g);
    var tl :| tl in Tails(s, r) && g in Whole(a, q, t, r)(tl);
    InTails(s, r, tl);
  }

  lemma InAfterTime(s: string, a: nat, q: nat, t: nat, g: Groups)
    requires t <= |s| && g in AfterTime(s, a, q)(t)
    ensures g.start == a && g.dateEnd == q && g.timeEnd == t && t <= g.rangeEnd <= |s|
    ensures RangeShape(s, t, g.rangeEnd) && TailShape(s, g.rangeEnd, g.tail)
  {
    FromFlatMap(RangeEnds(s, t), AfterRange(s, a, q, t), g);
    var r :| r in RangeEnds(s, t) && g in AfterRange(s, a, q, t)(r);
    InRangeEnds(s, t, r);
    InAfterRange(s, a, q, t, r, g);
  }

  lemma InAfterDate(s: string, a: nat, q: nat, g: Groups)
    requires Boundary(s, q) && g in AfterDate(s, a, q)
    ensures HeadShape(s, a, q, g)
  {
    FromFlatMap(BoundedTimes(s)(q), AfterTime(s, a, q), g);
    var t :| t in BoundedTimes(s)(q) && g in AfterTime(s, a, q)(t);
    InBoundedTimes(s, q, t);
    InAfterTime(s, a, q, t, g);
  }

  lemma InDateMatches(s: string, a: nat, g: Groups)
    requires g in DateMatches(s)(a)
    ensures a <= g.dateEnd && HeadShape(s, a, g.dateEnd, g)
  {
    var n := LineRun(s, a);
    FromFlatMap(Up(a, n), DateEnd(s, a), g);
    var q :| q in Up(a, n) && g in DateEnd(s, a)(q);
    InUp(a, n, q);
    InAfterDate(s, a, q, g);
  }

  /** Every match in the list has the shape of a match. */
  lemma InMatches(s: string, g: Groups)
    requires g in Matches(s)
    ensures MatchShape(s, g)
  {
    FromFlatMap(Starts(s), DateMatches(s), g);
    var a :| a in Starts(s) && g in DateMatches(s)(a);
    InDateMatches(s, a, g);
    InStarts(s, a);
  }

  /** A date starts at the beginning, or after a `)` of the prefix. */
  lemma InStarts(s: string, a: nat)
    requires a in Starts(s)
    ensures a == 0 || (a <= |s| && ')' in s[..a])
  {
    if a != 0 && a in FlatMap(PrefixEnds(s), AfterPrefix(s)) {
      FromFlatMap(PrefixEnds(s), AfterPrefix(s), a);
      var p :| p in PrefixEnds(s) && a in AfterPrefix(s)(p);
      InSpaces(s, p, a);
      InPrefixEnds(s, p);
      assert s[..p] == s[..a][..p];
    }
  }

  /** The prefix ends just after a `)`. */
  lemma InPrefixEnds(s: string, p: nat)
    requires p in PrefixEnds(s)
    ensures 0 < p <= |s| && s[p - 1] == ')' && ')' in s[..p]
  {
    FromFlatMap(Down(0, LineRun(s, 0)), PrefixParen(s), p);
    var n :| n in Down(0, LineRun(s, 0)) && p in PrefixParen(s)(n);
    assert s[..p][n] == ')';
  }

  /** `pattern.match(entry)`: the first way the expression matches. */
  function FirstMatch(s: string): (r: Option<Groups>)
    ensures r.Some? ==> MatchShape(s, r.value)
    ensures r.None? <==> Matches(s) == []
  {
    if Matches(s) == [] then None
    else
      InMatches(s, Matches(s)[0]);
      Some(Matches(s)[0])
  }

  // ------------------------------------------------- the parsed entry

  /** The four fields `parse_entry` returns. */
  datatype Entry = Entry(date: string, time: string, event: string, attendance: string)

  /** `re.sub(r"[A-Za-z]", "", x)` */
  function RemoveLetters(x: string): (r: string)
    ensures forall k :: 0 <= k < |r| ==> !IsAsciiLetter(r[k])
  {
    if x == [] then []
    else (if IsAsciiLetter(x[0]) then [] else [x[0]]) + RemoveLetters(x[1..])
  }

  predicate NoLetters(x: string) { forall k :: 0 <= k < |x| ==> !IsAsciiLetter(x[k]) }

  /** The date field: the date group stripped, without its letters, and
      `"0"` when nothing is left. */
  function DateText(raw: string): string {
    var d := Strip(RemoveLetters(Strip(raw)));
    if d == [] then "0" else d
  }

  /** `parts[0].isdigit()` for a word of the fallback split. */
  predicate IsDigitWord(w: string) { w != [] && AllDigits(w) }

  /** The fallback: the first word when it is a number, and the whole entry
      as the event. */
  function Fallback(entry: string): Entry {
    var parts := Words(entry);
    var date := if parts != [] && IsDigitWord(parts[0]) then parts[0] else "0";
    Entry(date, "", entry, "")
  }

  /** The fields of a match: each group stripped, the date without its
      letters, the attendance without its commas. */
  function Fields(entry: string, g: Groups): Entry
    requires MatchShape(entry, g)
  {
    Entry(DateText(entry[g.start..g.dateEnd]),
          Strip(entry[g.dateEnd..g.timeEnd]),
          Strip(entry[g.tail.eventStart..g.tail.eventEnd]),
          Strip(RemoveChar(entry[g.tail.attStart..g.tail.attEnd], ',')))
  }

  /** `parse_entry`. Whichever branch produces them, the date is never
      empty and has no letters, the attendance is digits only, and the time
      is empty exactly when the expression did not match. */
  function ParseEntry(entry: string): (r: Entry)
    ensures r.date != [] && NoLetters(r.date) && IsStripped(r.date)
    ensures AllDigits(r.attendance)
    ensures r.time == [] <==> FirstMatch(entry).None?
  {
    match FirstMatch(entry)
    case Some(g) =>
      FieldsShape(entry, g);
      Fields(entry, g)
    case None => Fallback(entry)
  }

  // ------------------------------------------------------- properties

  lemma StripKeepsChars(x: string, P: char -> bool)
    requires forall k :: 0 <= k < |x| ==> P(x[k])
    ensures forall k :: 0 <= k < |Strip(x)| ==> P(Strip(x)[k])
  {
    var r := Strip(x);
    var i :| Occurs(x, r, i) && AllSpace(x[..i]) && AllSpace(x[i + |r|..]);
    assert forall k :: 0 <= k < |r| ==> r[k] == x[i + k];
  }

  /** The date field is never empty, has no letters and no surrounding
      whitespace. */
  lemma DateTextShape(raw: string)
    ensures var d := DateText(raw); d != [] && NoLetters(d) && IsStripped(d)
  {
    var x := RemoveLetters(Strip(raw));
    StripKeepsChars(x, (c: char) => !IsAsciiLetter(c));
  }

  /** A time token has no whitespace around it, so `strip()` keeps it. */
  lemma TimeTextStripped(x: string)
    requires IsTimeText(x)
    ensures Strip(x) == x
  {
    var d: nat, m: nat :| d <= 2 && m <= |x| && TimeSplit(x, d, m);
    assert x[..d][0] == x[0];
    assert x[|x| - 2..][1] == x[|x| - 1];
    StripOfStripped(x);
  }

  /** The attendance field: the digits of the attendance group, its commas
      removed. */
  lemma AttendanceDigits(x: string)
    requires IsAmount(x)
    ensures var r := Strip(RemoveChar(x, ',')); r == RemoveChar(x, ',') && AllDigits(r)
  {
    var y := RemoveChar(x, ',');
    forall k | 0 <= k < |y| ensures IsAsciiDigit(y[k]) {
      assert y[k] in y;
      assert y[k] in x;
    }
    if y != [] {
      StripOfStripped(y);
    }
  }

  /** The fields of any match: the time is a time token, the event is
      stripped text of one line, the attendance is the digits of the group
      inside the final parentheses, and the date is as for every entry. */
  lemma FieldsShape(entry: string, g: Groups)
    requires MatchShape(entry, g)
    ensures var r := Fields(entry, g);
      && r.date != [] && NoLetters(r.date) && IsStripped(r.date)
      && IsTimeText(r.time) && r.time == entry[g.dateEnd..g.timeEnd]
      && IsStripped(r.event) && NoNewline(r.event)
      && r.attendance == RemoveChar(entry[g.tail.attStart..g.tail.attEnd], ',') && AllDigits(r.attendance)
  {
    DateTextShape(entry[g.start..g.dateEnd]);
    TimeTextStripped(entry[g.dateEnd..g.timeEnd]);
    AttendanceDigits(entry[g.tail.attStart..g.tail.attEnd]);
    StripKeepsChars(entry[g.tail.eventStart..g.tail.eventEnd], (c: char) => c != '\n');
  }

  // ------------------------------------------- which match comes first

  lemma HeadOfAfterRange(s: string, a: nat, q: nat, t: nat, r: nat)
    requires AfterRange(s, a, q, t)(r) != []
    ensures var g := AfterRange(s, a, q, t)(r)[0];
      g.start == a && g.dateEnd == q && g.timeEnd == t && g.rangeEnd == r
  {
    var i := HeadIndex(Tails(s, r), Whole(a, q, t, r));
  }

  /** No match after a range means no event and attendance after it. */
  lemma NoTails(s: string, a: nat, q: nat, t: nat, r: nat)
    requires AfterRange(s, a, q, t)(r) == []
    ensures Tails(s, r) == []
  {
    if Tails(s, r) != [] {
      FirstNonEmpty(Tails(s, r), Whole(a, q, t, r));
    }
  }

  lemma HeadOfAfterTime(s: string, a: nat, q: nat, t: nat)
    requires t <= |s| && AfterTime(s, a, q)(t) != []
    ensures var g := AfterTime(s, a, q)(t)[0];
      && g.start == a && g.dateEnd == q && g.timeEnd == t
      && (g.rangeEnd == t ==> forall r :: r in RangeTaken(s, t) ==> Tails(s, r) == [])
  {
    var ends := RangeEnds(s, t);
    var p := HeadIndex(ends, AfterRange(s, a, q, t));
    HeadOfAfterRange(s, a, q, t, ends[p]);
    var taken := RangeTaken(s, t);
    if p < |taken| {
      assert ends[p] == taken[p];
      InRangeTaken(s, t, taken[p]);
    }
    if ends[p] == t {
      TakenHaveNoTails(s, a, q, t, taken, ends, p);
    }
  }

  /** Every range end before the head is one whose tails all fail. */
  lemma TakenHaveNoTails(s: string, a: nat, q: nat, t: nat, taken: seq<nat>, ends: seq<nat>, p: nat)
    requires ends == taken + [t] && |taken| <= p < |ends|
    requires forall j :: 0 <= j < p ==> AfterRange(s, a, q, t)(ends[j]) == []
    ensures forall r :: r in taken ==> Tails(s, r) == []
  {
    forall r | r in taken ensures Tails(s, r) == [] {
      var j :| 0 <= j < |taken| && taken[j] == r;
      assert ends[j] == r;
      NoTails(s, a, q, t, r);
    }
  }

  lemma HeadOfAfterDate(s: string, a: nat, q: nat)
    requires AfterDate(s, a, q) != []
    ensures var g := AfterDate(s, a, q)[0];
      && g.start == a && g.dateEnd == q
      && (g.rangeEnd == g.timeEnd ==> forall r :: r in RangeTaken(s, g.timeEnd) ==> Tails(s, r) == [])
  {
    var times := BoundedTimes(s)(q);
    var i := HeadIndex(times, AfterTime(s, a, q));
    InBoundedTimes(s, q, times[i]);
    HeadOfAfterTime(s, a, q, times[i]);
  }

  lemma HeadOfDateMatches(s: string, a: nat)
    requires DateMatches(s)(a) != []
    ensures var g := DateMatches(s)(a)[0];
      && g.start == a && a <= g.dateEnd
      && (forall q :: a <= q < g.dateEnd ==> !Boundary(s, q) || AfterDate(s, a, q) == [])
      && (g.rangeEnd == g.timeEnd ==> forall r :: r in RangeTaken(s, g.timeEnd) ==> Tails(s, r) == [])
  {
    var ends := Up(a, LineRun(s, a));
    assert DateMatches(s)(a) == FlatMap(ends, DateEnd(s, a));
    var k := HeadIndex(ends, DateEnd(s, a));
    DateEndHead(s, a, ends[k]);
    HeadOfAfterDate(s, a, ends[k]);
    BeforeHead(s, a, LineRun(s, a), k);
  }

  lemma DateEndHead(s: string, a: nat, q: nat)
    requires DateEnd(s, a)(q) != []
    ensures Boundary(s, q) && DateEnd(s, a)(q) == AfterDate(s, a, q)
  {
  }

  /** The date ends tried before the `k`-th gave no match. */
  lemma BeforeHead(s: string, a: nat, n: nat, k: nat)
    requires k <= n && forall j :: 0 <= j < k ==> DateEnd(s, a)(Up(a, n)[j]) == []
    ensures forall q :: a <= q < a + k ==> !Boundary(s, q) || AfterDate(s, a, q) == []
  {
    forall q | a <= q < a + k ensures !Boundary(s, q) || AfterDate(s, a, q) == [] {
      assert Up(a, n)[q - a] == q;
      assert DateEnd(s, a)(q) == [];
    }
  }

  /** The match Python returns: its date is the shortest after the start
      that lets the rest match (the time is the first time token that does),
      and it leaves a time range out of the event only when no range
      followed by an event and an attendance can be read after the time. */
  lemma FirstMatchOrder(s: string, g: Groups)
    requires FirstMatch(s) == Some(g)
    ensures forall q :: g.start <= q < g.dateEnd ==> !Boundary(s, q) || AfterDate(s, g.start, q) == []
    ensures g.rangeEnd == g.timeEnd ==> forall r :: r in RangeTaken(s, g.timeEnd) ==> Tails(s, r) == []
  {
    var starts := Starts(s);
    var i := HeadIndex(starts, DateMatches(s));
    HeadOfDateMatches(s, starts[i]);
  }

  /** An entry the expression does not match: no time, no attendance, the
      entry itself as the event, and the first word as the date only when it
      is a number. */
  lemma ParseEntryUnmatched(entry: string)
    requires FirstMatch(entry).None?
    ensures var r := ParseEntry(entry);
      && r.time == "" && r.attendance == "" && r.event == entry
      && (r.date != "0" ==> Words(entry) != [] && r.date == Words(entry)[0] && IsDigitWord(r.date))
      && (Words(entry) != [] && IsDigitWord(Words(entry)[0]) ==> r.date == Words(entry)[0])
  {
  }
}
