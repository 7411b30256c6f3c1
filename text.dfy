/** The Python `str` built-ins the scripts rely on, modelled on `seq<char>`:
    `isspace`, `strip`, `split()`, `" ".join`, `find`, `split(sep)[0]`,
    `replace`, `lower` and `capitalize`. */
module PyText {
  import opened Opt

  /** `c.isspace()`: the whitespace set Python uses for `strip()`, `split()`
      and the regular-expression class `\s` on `str`. */
  predicate IsSpace(c: char) {
    ('\t' <= c <= '\r') || ('\U{1C}' <= c <= '\U{1F}') || c == ' ' || c == '\U{85}'
    || c == '\U{A0}' || c == '\U{1680}' || ('\U{2000}' <= c <= '\U{200A}')
    || c == '\U{2028}' || c == '\U{2029}' || c == '\U{202F}' || c == '\U{205F}'
    || c == '\U{3000}'
  }

  predicate IsAsciiUpper(c: char) { 'A' <= c <= 'Z' }
  predicate IsAsciiLower(c: char) { 'a' <= c <= 'z' }
  predicate IsAsciiLetter(c: char) { IsAsciiUpper(c) || IsAsciiLower(c) }
  predicate IsAsciiDigit(c: char) { '0' <= c <= '9' }

  predicate AllSpace(s: string) { forall k :: 0 <= k < |s| ==> IsSpace(s[k]) }
  predicate NoSpaces(s: string) { forall k :: 0 <= k < |s| ==> !IsSpace(s[k]) }
  predicate AllDigits(s: string) { forall k :: 0 <= k < |s| ==> IsAsciiDigit(s[k]) }
  predicate NoUpper(s: string) { forall k :: 0 <= k < |s| ==> !IsAsciiUpper(s[k]) }
  predicate AllUpper(s: string) { forall k :: 0 <= k < |s| ==> IsAsciiUpper(s[k]) }

  /** No whitespace at either end: what `strip()` leaves. */
  predicate IsStripped(s: string) { s == [] || (!IsSpace(s[0]) && !IsSpace(s[|s| - 1])) }

  /** `p` occurs in `s` starting at index `k`. */
  predicate Occurs(s: string, p: string, k: int) {
    0 <= k && k + |p| <= |s| && s[k..k + |p|] == p
  }

  /** `p in s` for strings. */
  predicate Contains(s: string, p: string) { exists k :: 0 <= k <= |s| && Occurs(s, p, k) }

  // ---------------------------------------------------------------- strip

  /** Number of leading whitespace characters. */
  function LeadingSpaces(s: string): (n: nat)
    ensures n <= |s| && AllSpace(s[..n])
    ensures n < |s| ==> !IsSpace(s[n])
  {
    if s == [] || !IsSpace(s[0]) then 0 else 1 + LeadingSpaces(s[1..])
  }

  /** The number of whitespace characters from `i` on: what a greedy `\s*`
      at `i` consumes. */
  function SpaceRun(s: string, i: nat): (n: nat)
    ensures n > 0 ==> i + n <= |s|
    ensures forall k :: i <= k < i + n ==> IsSpace(s[k])
    ensures i + n < |s| ==> !IsSpace(s[i + n])
    decreases |s| - i
  {
    if i < |s| && IsSpace(s[i]) then 1 + SpaceRun(s, i + 1) else 0
  }

  /** Index where the trailing whitespace run starts. */
  function TrailingStart(s: string): (n: nat)
    ensures n <= |s| && AllSpace(s[n..])
    ensures n > 0 ==> !IsSpace(s[n - 1])
  {
    if s == [] || !IsSpace(s[|s| - 1]) then |s|
    else
      var n := TrailingStart(s[..|s| - 1]);
      assert s[n..] == s[..|s| - 1][n..] + [s[|s| - 1]];
      n
  }

  /** `s.lstrip()` */
  function LStrip(s: string): (r: string)
    ensures r == [] || !IsSpace(r[0])
    ensures exists i :: Occurs(s, r, i) && i + |r| == |s| && AllSpace(s[..i])
  {
    var n := LeadingSpaces(s);
    assert Occurs(s, s[n..], n);
    s[n..]
  }

  /** `s.strip()`: the slice of `s` between its whitespace margins. */
  function Strip(s: string): (r: string)
    ensures IsStripped(r)
    ensures exists i :: Occurs(s, r, i) && AllSpace(s[..i]) && AllSpace(s[i + |r|..])
  {
    var a := LeadingSpaces(s);
    var t := s[a..];
    var b := TrailingStart(t);
    assert s[a..a + b] == t[..b];
    assert s[a + b..] == t[b..];
    assert Occurs(s, t[..b], a);
    t[..b]
  }

  lemma {:induction false} StripOfStripped(s: string)
    requires IsStripped(s)
    ensures Strip(s) == s
  {
    assert LeadingSpaces(s) == 0;
    assert TrailingStart(s) == |s|;
  }

  /** `r` is found at `i` in `s` with only whitespace around it. */
  predicate Margined(s: string, r: string, i: nat) {
    Occurs(s, r, i) && AllSpace(s[..i]) && AllSpace(s[i + |r|..])
  }

  /** A stripped text with only whitespace around it in `s` is empty exactly
      when `s` is all whitespace, and otherwise spans from the end of the
      leading whitespace to the start of the trailing whitespace. */
  lemma MarginsAt(s: string, r: string, i: nat)
    requires IsStripped(r) && Margined(s, r, i)
    ensures r == [] ==> AllSpace(s)
    ensures r != [] ==> !AllSpace(s) && i == LeadingSpaces(s) && i + |r| == TrailingStart(s)
  {
    var j := i + |r|;
    assert forall x :: 0 <= x < i ==> IsSpace(s[x]) by {
      assert forall x :: 0 <= x < i ==> s[..i][x] == s[x];
    }
    assert forall x :: j <= x < |s| ==> IsSpace(s[x]) by {
      assert forall x :: j <= x < |s| ==> s[j..][x - j] == s[x];
    }
    if r != [] {
      assert s[i] == r[0] && s[j - 1] == r[|r| - 1];
      var n, m := LeadingSpaces(s), TrailingStart(s);
      assert forall x :: 0 <= x < n ==> s[..n][x] == s[x];
      assert forall x :: m <= x < |s| ==> s[m..][x - m] == s[x];
    }
  }

  /** Where `strip()` finds its result. */
  lemma StripAt(t: string) returns (i: nat)
    ensures IsStripped(Strip(t)) && Margined(t, Strip(t), i)
  {
    i :| Occurs(t, Strip(t), i) && AllSpace(t[..i]) && AllSpace(t[i + |Strip(t)|..]);
  }

  /** `strip()` gives the one stripped text that has only whitespace around
      it. */
  lemma StripUnique(s: string, r: string, i: nat)
    requires IsStripped(r) && Margined(s, r, i)
    ensures Strip(s) == r
  {
    var k := StripAt(s);
    MarginsAt(s, r, i);
    MarginsAt(s, Strip(s), k);
  }

  /** Whitespace added around a text does not change its `strip()`. */
  lemma StripMargins(a: string, t: string, b: string)
    requires AllSpace(a) && AllSpace(b)
    ensures Strip(a + t + b) == Strip(t)
  {
    var s := a + t + b;
    assert s[|a|..|a| + |t|] == t;
    assert s[..|a|] == a;
    assert s[|a| + |t|..] == b;
    StripInside(s, t, |a|);
  }

  /** The `strip()` of a text with only whitespace around `t` is that of `t`. */
  lemma StripInside(s: string, t: string, k: nat)
    requires Margined(s, t, k)
    ensures Strip(s) == Strip(t)
  {
    var i := StripAt(t);
    MarginsShift(s, t, k, Strip(t), i);
    StripUnique(s, Strip(t), k + i);
  }

  /** Whitespace around `t` in `s` extends the whitespace around a text
      found in `t`. */
  lemma MarginsShift(s: string, t: string, k: nat, r: string, i: nat)
    requires Margined(s, t, k) && Margined(t, r, i)
    ensures Margined(s, r, k + i)
  {
    var j := i + |r|;
    OccursShift(s, t, r, k, i);
    assert s[k..k + i] == t[..i];
    assert s[..k + i] == s[..k] + t[..i];
    assert s[k + j..k + |t|] == t[j..];
    assert s[k + j..] == t[j..] + s[k + |t|..];
  }

  /** A character other than whitespace in front of a text that does not
      start with whitespace stays in front of its `strip()`. */
  lemma StripAfter(c: char, t: string)
    requires !IsSpace(c) && (t == [] || !IsSpace(t[0]))
    ensures Strip([c] + t) == [c] + Strip(t)
    ensures Strip(t) != [] ==> Strip(t)[0] == t[0]
  {
    var r := Strip(t);
    var i := StripAt(t);
    MarginsAt(t, r, i);
    var s := [c] + t;
    assert s[1..1 + |r|] == t[i..i + |r|];
    assert s[..0] == [];
    assert s[1 + |r|..] == t[i + |r|..];
    StripUnique(s, [c] + r, 0);
  }

  /** An occurrence inside a slice is an occurrence in the whole string. */
  lemma {:induction false} OccursShift(s: string, t: string, p: string, i: int, k: int)
    requires 0 <= i && i + |t| <= |s| && s[i..i + |t|] == t
    ensures Occurs(t, p, k) ==> Occurs(s, p, i + k)
  {
    if Occurs(t, p, k) {
      forall x | 0 <= x < |p| ensures s[i + k + x] == p[x] {
        assert s[i + k + x] == s[i..i + |t|][k + x];
        assert t[k..k + |p|][x] == t[k + x];
      }
      assert s[i + k..i + k + |p|] == p;
    }
  }

  /** An occurrence of `a + b` is an occurrence of `a` followed by one of
      `b`, and the other way round. */
  lemma OccursConcat(s: string, a: string, b: string, k: int)
    ensures Occurs(s, a + b, k) <==> Occurs(s, a, k) && Occurs(s, b, k + |a|)
  {
    if Occurs(s, a, k) && Occurs(s, b, k + |a|) {
      assert s[k..k + |a| + |b|] == s[k..k + |a|] + s[k + |a|..k + |a| + |b|];
    }
    if Occurs(s, a + b, k) {
      assert s[k..k + |a|] == s[k..k + |a| + |b|][..|a|];
      assert s[k + |a|..k + |a| + |b|] == s[k..k + |a| + |b|][|a|..];
    }
  }

  /** The number of whitespace characters from `i` on, when the run of
      `m` of them is followed by something else. */
  lemma {:induction false} SpaceRunOf(s: string, i: nat, m: nat)
    requires i + m < |s| && (forall x :: i <= x < i + m ==> IsSpace(s[x])) && !IsSpace(s[i + m])
    ensures SpaceRun(s, i) == m
    decreases m
  {
    if m > 0 {
      SpaceRunOf(s, i + 1, m - 1);
    }
  }

  lemma {:induction false} ContainsTransitive(s: string, t: string, p: string)
    requires Contains(s, t) && Contains(t, p)
    ensures Contains(s, p)
  {
    var i :| 0 <= i <= |s| && Occurs(s, t, i);
    var k :| 0 <= k <= |t| && Occurs(t, p, k);
    OccursShift(s, t, p, i, k);
  }

  // ---------------------------------------------------------------- find

  /** `s.find(p, i)` as an option: the first occurrence at or after `i`. */
  function FindFrom(s: string, p: string, i: nat): (r: Option<nat>)
    requires i <= |s|
    decreases |s| - i
    ensures r.Some? ==> i <= r.value && Occurs(s, p, r.value)
    ensures r.Some? ==> forall k :: i <= k < r.value ==> !Occurs(s, p, k)
    ensures r.None? ==> forall k :: i <= k ==> !Occurs(s, p, k)
  {
    if Occurs(s, p, i) then Some(i)
    else if i == |s| then None
    else FindFrom(s, p, i + 1)
  }

  /** `s.find(p)`, with `None` for Python's `-1`. */
  function Find(s: string, p: string): (r: Option<nat>)
    ensures r.None? <==> !Contains(s, p)
    ensures r.Some? ==> Occurs(s, p, r.value) && forall k :: 0 <= k < r.value ==> !Occurs(s, p, k)
  {
    FindFrom(s, p, 0)
  }

  /** `s.split(p)[0]`: the text before the first `p`, or all of `s`. */
  function BeforeFirst(s: string, p: string): (r: string)
    requires |p| > 0
    ensures r <= s && !Contains(r, p)
    ensures !Contains(s, p) ==> r == s
    ensures |r| < |s| ==> Occurs(s, p, |r|)
    ensures forall k :: 0 <= k < |r| ==> !Occurs(s, p, k)
  {
    match Find(s, p)
    case None => s
    case Some(k) =>
      assert forall j :: !Occurs(s[..k], p, j) by {
        forall j ensures !Occurs(s[..k], p, j) { OccursShift(s, s[..k], p, 0, j); }
      }
      s[..k]
  }

  // ------------------------------------------------------------- replace

  /** `s.replace(p, r)`: every non-overlapping occurrence, scanning left to right. */
  function ReplaceAll(s: string, p: string, r: string): string
    requires |p| > 0
    decreases |s|
  {
    if |p| <= |s| && s[..|p|] == p then r + ReplaceAll(s[|p|..], p, r)
    else if s == [] then []
    else [s[0]] + ReplaceAll(s[1..], p, r)
  }

  lemma {:induction false} ContainsTail(s: string, p: string)
    requires s != [] && !Contains(s, p)
    ensures !Contains(s[1..], p)
  {
    forall k ensures !Occurs(s[1..], p, k) { OccursShift(s, s[1..], p, 1, k); }
  }

  /** `replace` leaves a string without the pattern unchanged. */
  lemma {:induction false} ReplaceAbsent(s: string, p: string, r: string)
    requires |p| > 0 && !Contains(s, p)
    ensures ReplaceAll(s, p, r) == s
    decreases |s|
  {
    assert !Occurs(s, p, 0);
    if s != [] {
      ContainsTail(s, p);
      ReplaceAbsent(s[1..], p, r);
    }
  }

  /** A team-name rewrite: an all-capitals word of two or more letters is replaced
      by a word with the same first letter and no capitals after it. */
  predicate ProperCaseRewrite(p: string, r: string) {
    |p| >= 2 && AllUpper(p) && |r| >= 2 && r[0] == p[0] && NoUpper(r[1..])
  }

  /** An all-capitals prefix of the rewritten text was already a prefix of the input. */
  lemma {:induction false} UpperPrefixFromSource(u: string, p: string, r: string, w: string)
    requires ProperCaseRewrite(p, r)
    requires w != [] && AllUpper(w) && w <= ReplaceAll(u, p, r)
    ensures w <= u
    decreases |u|
  {
    var t := ReplaceAll(u, p, r);
    if |p| <= |u| && u[..|p|] == p {
      assert t == r + ReplaceAll(u[|p|..], p, r);
      assert r[1] == r[1..][0] && !IsAsciiUpper(r[1]);
      assert forall x :: 0 <= x < |w| ==> w[x] == t[x];
      assert forall x :: 0 <= x < |r| ==> t[x] == r[x];
      assert |w| == 1;
      assert w[0] == p[0] == u[0];
    } else {
      assert u != [];
      assert t == [u[0]] + ReplaceAll(u[1..], p, r);
      if |w| > 1 {
        assert w[1..] <= ReplaceAll(u[1..], p, r);
        UpperPrefixFromSource(u[1..], p, r, w[1..]);
      }
    }
  }

  /** After a proper-case rewrite, an all-capitals word of two or more letters
      occurs only where it occurred before, and the rewritten word never occurs. */
  lemma {:induction false} UpperWordFromSource(s: string, p: string, r: string, q: string, k: int)
    requires ProperCaseRewrite(p, r)
    requires |q| >= 2 && AllUpper(q)
    ensures Occurs(ReplaceAll(s, p, r), q, k) ==> Contains(s, q) && q != p
    decreases |s|, 1
  {
    if Occurs(ReplaceAll(s, p, r), q, k) {
      if |p| <= |s| && s[..|p|] == p {
        UpperWordAfterRewrite(s, p, r, q, k);
      } else {
        UpperWordAfterKeep(s, p, r, q, k);
      }
    }
  }

  /** `UpperWordFromSource` when the text starts with the rewritten word. */
  lemma {:induction false} UpperWordAfterRewrite(s: string, p: string, r: string, q: string, k: int)
    requires ProperCaseRewrite(p, r) && |q| >= 2 && AllUpper(q)
    requires |p| <= |s| && s[..|p|] == p && Occurs(ReplaceAll(s, p, r), q, k)
    ensures Contains(s, q) && q != p
    decreases |s|, 0
  {
    var t := ReplaceAll(s, p, r);
    var rest := ReplaceAll(s[|p|..], p, r);
    assert t == r + rest;
    assert k >= |r| by {
      assert q == t[k..k + |q|];
      assert forall x :: 0 <= x < |r| ==> t[x] == r[x];
      assert forall x :: 1 <= x < |r| ==> r[x] == r[1..][x - 1] && !IsAsciiUpper(r[x]);
      assert IsAsciiUpper(q[0]) && IsAsciiUpper(q[1]);
      assert q[0] == t[k] && q[1] == t[k + 1];
    }
    assert Occurs(rest, q, k - |r|) by {
      assert t[k..k + |q|] == rest[k - |r|..k - |r| + |q|];
    }
    UpperWordFromSource(s[|p|..], p, r, q, k - |r|);
    var j :| 0 <= j <= |s[|p|..]| && Occurs(s[|p|..], q, j);
    OccursShift(s, s[|p|..], q, |p|, j);
  }

  /** `UpperWordFromSource` when the text does not start with the rewritten
      word, so its first character is kept. */
  lemma {:induction false} UpperWordAfterKeep(s: string, p: string, r: string, q: string, k: int)
    requires ProperCaseRewrite(p, r) && |q| >= 2 && AllUpper(q)
    requires !(|p| <= |s| && s[..|p|] == p) && Occurs(ReplaceAll(s, p, r), q, k)
    ensures Contains(s, q) && q != p
    decreases |s|, 0
  {
    var t := ReplaceAll(s, p, r);
    assert s != [];
    var rest := ReplaceAll(s[1..], p, r);
    assert t == [s[0]] + rest;
    if k >= 1 {
      assert Occurs(rest, q, k - 1) by {
        assert t[k..k + |q|] == rest[k - 1..k - 1 + |q|];
      }
      UpperWordFromSource(s[1..], p, r, q, k - 1);
      var j :| 0 <= j <= |s[1..]| && Occurs(s[1..], q, j);
      OccursShift(s, s[1..], q, 1, j);
    } else {
      assert q[1..] <= rest by {
        assert t[..|q|] == q;
        assert rest[..|q| - 1] == t[1..|q|];
      }
      UpperPrefixFromSource(s[1..], p, r, q[1..]);
      assert s[..|q|] == [s[0]] + s[1..][..|q| - 1];
      assert Occurs(s, q, 0);
    }
  }


  lemma {:induction false} RewriteRemovesWord(s: string, p: string, r: string)
    requires ProperCaseRewrite(p, r)
    ensures !Contains(ReplaceAll(s, p, r), p)
  {
    forall k ensures !Occurs(ReplaceAll(s, p, r), p, k) {
      UpperWordFromSource(s, p, r, p, k);
    }
  }

  lemma {:induction false} RewriteKeepsAbsentWord(s: string, p: string, r: string, q: string)
    requires ProperCaseRewrite(p, r)
    requires |q| >= 2 && AllUpper(q) && !Contains(s, q)
    ensures !Contains(ReplaceAll(s, p, r), q)
  {
    forall k ensures !Occurs(ReplaceAll(s, p, r), q, k) {
      UpperWordFromSource(s, p, r, q, k);
    }
  }

  // ---------------------------------------------------------- case maps

  function LowerChar(c: char): char {
    if IsAsciiUpper(c) then (c as int + 32) as char else c
  }

  function UpperChar(c: char): char {
    if IsAsciiLower(c) then (c as int - 32) as char else c
  }

  /** `s.lower()` (ASCII letters only). */
  function Lower(s: string): (r: string)
    ensures |r| == |s| && NoUpper(r)
    ensures forall k :: 0 <= k < |s| ==> r[k] == LowerChar(s[k])
  {
    seq(|s|, k requires 0 <= k < |s| => LowerChar(s[k]))
  }

  /** `s.capitalize()` (ASCII letters only): first letter upper, the rest lower. */
  function Capitalize(s: string): (r: string)
    ensures |r| == |s|
    ensures |s| > 0 ==> r[0] == UpperChar(s[0]) && r[1..] == Lower(s[1..])
  {
    if s == [] then [] else [UpperChar(s[0])] + Lower(s[1..])
  }

  /** `s.replace(c, "")` for a one-character string `c`. */
  function RemoveChar(s: string, c: char): (r: string)
    ensures c !in r
    ensures forall x :: x in r <==> x in s && x != c
    ensures c !in s ==> r == s
  {
    if s == [] then [] else (if s[0] == c then [] else [s[0]]) + RemoveChar(s[1..], c)
  }

  /** Every other character is kept as often as it occurs. */
  lemma {:induction false} RemoveCharCounts(s: string, c: char)
    ensures multiset(RemoveChar(s, c)) == multiset(s)[c := 0]
    decreases |s|
  {
    if s != [] {
      assert s == [s[0]] + s[1..];
      RemoveCharCounts(s[1..], c);
    }
  }

  /** Removing a character works piece by piece, so the kept characters stay
      in their order. */
  lemma {:induction false} RemoveCharAppend(a: string, b: string, c: char)
    ensures RemoveChar(a + b, c) == RemoveChar(a, c) + RemoveChar(b, c)
    decreases |a|
  {
    if a != [] {
      var t := a[1..];
      assert a == [a[0]] + t;
      assert a + b == [a[0]] + (t + b);
      RemoveCharCons(a[0], t + b, c);
      RemoveCharCons(a[0], t, c);
      RemoveCharAppend(t, b, c);
    } else {
      assert a + b == b;
    }
  }

  /** One step of `RemoveChar`. */
  lemma RemoveCharCons(h: char, t: string, c: char)
    ensures RemoveChar([h] + t, c) == (if h == c then [] else [h]) + RemoveChar(t, c)
  {
    assert ([h] + t)[0] == h && ([h] + t)[1..] == t;
  }

  // ------------------------------------------------ split() and join

  /** `"".join(parts)`: the parts one after another. */
  function Concat(parts: seq<string>): string {
    if parts == [] then "" else Concat(parts[..|parts| - 1]) + parts[|parts| - 1]
  }

  /** Length of the leading run of non-whitespace characters. */
  function WordLen(s: string): (n: nat)
    ensures n <= |s| && NoSpaces(s[..n])
    ensures n < |s| ==> IsSpace(s[n])
  {
    if s == [] || IsSpace(s[0]) then 0 else 1 + WordLen(s[1..])
  }

  /** `s.split()`: the maximal non-whitespace runs, in order. */
  function Words(s: string): (w: seq<string>)
    ensures forall i :: 0 <= i < |w| ==> w[i] != [] && NoSpaces(w[i])
    decreases |s|
  {
    var t := s[LeadingSpaces(s)..];
    if t == [] then []
    else
      var n := WordLen(t);
      [t[..n]] + Words(t[n..])
  }

  /** `gaps[0] + ws[0] + gaps[1] + ... + ws[n - 1] + gaps[n]`. */
  function Interleave(gaps: seq<string>, ws: seq<string>): string
    requires |gaps| == |ws| + 1
    decreases |ws|
  {
    if ws == [] then gaps[0] else gaps[0] + ws[0] + Interleave(gaps[1..], ws[1..])
  }

  /** `s` is the words `ws` with whitespace `gaps` around them, as in
      `Interleave(gaps, ws)`: each word is non-empty without whitespace, and
      the gaps between two words are not empty. */
  predicate SplitInto(s: string, gaps: seq<string>, ws: seq<string>)
    decreases |ws|
  {
    && |gaps| == |ws| + 1 && AllSpace(gaps[0])
    && if ws == [] then s == gaps[0]
       else
         var rest := Interleave(gaps[1..], ws[1..]);
         && ws[0] != [] && NoSpaces(ws[0]) && (|ws| > 1 ==> gaps[1] != [])
         && s == gaps[0] + ws[0] + rest && SplitInto(rest, gaps[1..], ws[1..])
  }

  /** A split text is its gaps and words interleaved. */
  lemma SplitIsInterleave(s: string, gaps: seq<string>, ws: seq<string>)
    requires SplitInto(s, gaps, ws)
    ensures s == Interleave(gaps, ws)
  {
  }

  /** The whitespace around and between the words of `s`. */
  ghost function Gaps(s: string): seq<string>
    decreases |s|
  {
    var l := LeadingSpaces(s);
    var t := s[l..];
    if t == [] then [s] else [s[..l]] + Gaps(t[WordLen(t)..])
  }

  /** Every text splits into its words. */
  lemma {:induction false} WordsSplit(s: string)
    ensures SplitInto(s, Gaps(s), Words(s))
    decreases |s|
  {
    var l := LeadingSpaces(s);
    if l == |s| {
      BlankSplit(s);
    } else {
      var t := s[l..];
      var n := WordLen(t);
      var rest := t[n..];
      WordsSplit(rest);
      WordThenRest(s, l, t, n);
      SplitStep(s, s[..l], t[..n], rest, Gaps(rest), Words(rest));
    }
  }

  lemma BlankSplit(s: string)
    requires LeadingSpaces(s) == |s|
    ensures SplitInto(s, Gaps(s), Words(s))
  {
    assert s == s[..|s|] && s[|s|..] == [];
  }

  /** The first word of a text that is not blank, and what follows it. */
  lemma WordThenRest(s: string, l: nat, t: string, n: nat)
    requires l == LeadingSpaces(s) < |s| && t == s[l..] && n == WordLen(t)
    ensures s == s[..l] + t[..n] + t[n..] && 0 < n && (n < |t| ==> IsSpace(t[n]))
    ensures Words(s) == [t[..n]] + Words(t[n..]) && Gaps(s) == [s[..l]] + Gaps(t[n..])
  {
    WordThenRestText(s, l, t, n);
    WordsUnfold(s, l, t, n);
    GapsUnfold(s, l, t, n);
  }

  lemma WordThenRestText(s: string, l: nat, t: string, n: nat)
    requires l == LeadingSpaces(s) < |s| && t == s[l..] && n == WordLen(t)
    ensures s == s[..l] + t[..n] + t[n..] && 0 < n && (n < |t| ==> IsSpace(t[n]))
  {
    ThreePieces(s, l, n);
    assert t[0] == s[l];
  }

  /** A text cut at `l` and `n` characters later. */
  lemma ThreePieces(s: string, l: nat, n: nat)
    requires l + n <= |s|
    ensures s == s[..l] + s[l..][..n] + s[l..][n..]
  {
    assert s == s[..l] + s[l..];
    assert s[l..] == s[l..][..n] + s[l..][n..];
  }

  lemma WordsUnfold(s: string, l: nat, t: string, n: nat)
    requires l == LeadingSpaces(s) < |s| && t == s[l..] && n == WordLen(t)
    ensures Words(s) == [t[..n]] + Words(t[n..])
  {
  }

  lemma GapsUnfold(s: string, l: nat, t: string, n: nat)
    requires l == LeadingSpaces(s) < |s| && t == s[l..] && n == WordLen(t)
    ensures Gaps(s) == [s[..l]] + Gaps(t[n..])
  {
  }

  /** The first character of interleaved text: the first gap's, or the first
      word's when that gap is empty. */
  lemma InterleaveHead(gaps: seq<string>, ws: seq<string>)
    requires |gaps| == |ws| + 1 && ws != [] && ws[0] != []
    ensures Interleave(gaps, ws) != []
    ensures Interleave(gaps, ws)[0] == if gaps[0] == [] then ws[0][0] else gaps[0][0]
  {
    assert Interleave(gaps, ws) == gaps[0] + ws[0] + Interleave(gaps[1..], ws[1..]);
  }

  /** A gap and a word in front of a split text. */
  lemma SplitStep(s: string, g0: string, w: string, rest: string, gaps: seq<string>, ws: seq<string>)
    requires s == g0 + w + rest && AllSpace(g0) && w != [] && NoSpaces(w)
    requires SplitInto(rest, gaps, ws)
    requires ws != [] ==> rest != [] && IsSpace(rest[0])
    ensures SplitInto(s, [g0] + gaps, [w] + ws)
  {
    SplitIsInterleave(rest, gaps, ws);
    if ws != [] {
      InterleaveHead(gaps, ws);
    }
    var gaps', ws' := [g0] + gaps, [w] + ws;
    assert gaps'[1..] == gaps && ws'[1..] == ws;
  }

  /** The words are the only way to split a text: whatever words and
      whitespace gaps make up `s`, the words are `s.split()`. */
  lemma {:induction false} WordsUnique(s: string, gaps: seq<string>, ws: seq<string>)
    requires SplitInto(s, gaps, ws)
    ensures ws == Words(s)
    decreases |ws|
  {
    var g0 := gaps[0];
    if ws == [] {
      LeadingSpacesOf(s, []);
      assert s[|s|..] == [];
    } else {
      var w0 := ws[0];
      var rest := Interleave(gaps[1..], ws[1..]);
      if |ws| > 1 {
        InterleaveHead(gaps[1..], ws[1..]);
      }
      WordsOfParts(g0, w0, rest);
      WordsUnique(rest, gaps[1..], ws[1..]);
      assert ws == [w0] + ws[1..];
    }
  }

  /** Whitespace, a word, and text that starts with whitespace. */
  lemma WordsOfParts(g0: string, w0: string, rest: string)
    requires AllSpace(g0) && w0 != [] && NoSpaces(w0) && (rest == [] || IsSpace(rest[0]))
    ensures Words(g0 + w0 + rest) == [w0] + Words(rest)
  {
    ConcatParts(g0, w0, rest);
    LeadingSpacesOf(g0, w0 + rest);
    WordLenOfWord(w0, rest);
  }

  /** Where the pieces of `a + b + c` are. */
  lemma ConcatParts(a: string, b: string, c: string)
    ensures (a + b + c)[|a|..] == b + c && (b + c)[..|b|] == b && (b + c)[|b|..] == c
    ensures a + b + c == a + (b + c)
  {
  }

  /** Whitespace in front of a text that does not begin with whitespace is
      exactly its leading whitespace. */
  lemma {:induction false} LeadingSpacesOf(a: string, rest: string)
    requires AllSpace(a) && (rest == [] || !IsSpace(rest[0]))
    ensures LeadingSpaces(a + rest) == |a|
    decreases |a|
  {
    if a != [] {
      assert (a + rest)[1..] == a[1..] + rest;
      LeadingSpacesOf(a[1..], rest);
    } else {
      assert a + rest == rest;
    }
  }

  /** `sep.join(ws)` */
  function Join(ws: seq<string>, sep: string): string {
    if ws == [] then "" else if |ws| == 1 then ws[0] else ws[0] + sep + Join(ws[1..], sep)
  }

  /** What `" ".join(s.split())` produces: stripped, the only whitespace is the
      plain space, and no two spaces are adjacent. */
  predicate IsCollapsed(s: string) {
    && IsStripped(s)
    && (forall k :: 0 <= k < |s| && IsSpace(s[k]) ==> s[k] == ' ')
    && (forall i, j :: 0 <= i && j == i + 1 < |s| && s[i] == ' ' ==> s[j] != ' ')
  }

  /** `" ".join(s.split())` */
  function Collapse(s: string): (r: string)
    ensures IsCollapsed(r)
    ensures Words(r) == Words(s)
  {
    JoinIsCollapsed(Words(s));
    WordsOfJoin(Words(s));
    Join(Words(s), " ")
  }

  /** Splitting words joined by single spaces gives the words back. */
  lemma {:induction false} WordsOfJoin(ws: seq<string>)
    requires forall i :: 0 <= i < |ws| ==> ws[i] != [] && NoSpaces(ws[i])
    ensures Words(Join(ws, " ")) == ws
    decreases |ws|
  {
    if |ws| == 1 {
      assert SplitInto(ws[0], ["", ""], ws);
      WordsUnique(ws[0], ["", ""], ws);
    } else if |ws| > 1 {
      WordsOfJoin(ws[1..]);
      WordsOfWordThenRest(ws[0], Join(ws[1..], " "));
    }
  }

  lemma {:induction false} JoinIsCollapsed(ws: seq<string>)
    requires forall i :: 0 <= i < |ws| ==> ws[i] != [] && NoSpaces(ws[i])
    ensures IsCollapsed(Join(ws, " "))
  {
    if |ws| > 1 {
      JoinIsCollapsed(ws[1..]);
      var w, j := ws[0], Join(ws[1..], " ");
      var s := w + " " + j;
      assert j != [] && !IsSpace(j[0]);
      assert forall k :: 0 <= k < |w| ==> s[k] == w[k];
      assert forall k :: |w| < k < |s| ==> s[k] == j[k - |w| - 1];
    }
  }

  /** A leading space does not change the words. */
  lemma {:induction false} WordsAfterSpace(rest: string)
    ensures Words([' '] + rest) == Words(rest)
  {
    var s := [' '] + rest;
    assert s[1..] == rest;
    var l := LeadingSpaces(rest);
    assert LeadingSpaces(s) == 1 + l;
    assert s[1 + l..] == rest[l..];
  }

  /** A non-empty word followed by a space and more text. */
  lemma {:induction false} WordsOfWordThenRest(w: string, rest: string)
    requires w != [] && NoSpaces(w)
    ensures Words(w + " " + rest) == [w] + Words(rest)
  {
    var s := w + " " + rest;
    assert LeadingSpaces(s) == 0;
    assert s[0..] == s;
    WordLenOfWord(w, " " + rest);
    assert s == w + ([' '] + rest);
    assert s[|w|..] == [' '] + rest && s[..|w|] == w;
    WordsAfterSpace(rest);
  }

  lemma {:induction false} WordLenOfWord(w: string, rest: string)
    requires NoSpaces(w)
    requires rest == [] || IsSpace(rest[0])
    ensures WordLen(w + rest) == |w|
    decreases |w|
  {
    if w != [] {
      assert (w + rest)[1..] == w[1..] + rest;
      WordLenOfWord(w[1..], rest);
    } else {
      assert w + rest == rest;
    }
  }

  /** Collapsing text that is already collapsed changes nothing. */
  lemma {:induction false} CollapseOfCollapsed(s: string)
    requires IsCollapsed(s)
    ensures Collapse(s) == s
    decreases |s|
  {
    if s != [] {
      assert LeadingSpaces(s) == 0;
      var n := WordLen(s);
      var w := s[..n];
      if n == |s| {
        assert s[n..] == [] && s == w;
        assert Words(s) == [w];
      } else {
        assert s[n] == ' ';
        assert n + 1 < |s| by { assert !IsSpace(s[|s| - 1]); }
        var rest := s[n + 1..];
        assert rest[0] == s[n + 1] && rest[|rest| - 1] == s[|s| - 1];
        assert forall k :: 0 <= k < |rest| ==> rest[k] == s[n + 1 + k];
        assert IsCollapsed(rest);
        assert s == w + " " + rest;
        WordsOfWordThenRest(w, rest);
        CollapseOfCollapsed(rest);
        assert Words(rest) != [] by { assert LeadingSpaces(rest) == 0; }
      }
    }
  }
}
