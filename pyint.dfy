/** Python's `int(text)` for decimal text, and the decimal rendering of a
    natural number that `str()` and `strftime('%-d')` produce. */
module PyInt {
  import opened Opt
  import opened PyText

  function DigitValue(c: char): nat
    requires IsAsciiDigit(c)
  {
    c as int - '0' as int
  }

  function DigitChar(n: nat): (c: char)
    requires n < 10
    ensures IsAsciiDigit(c) && DigitValue(c) == n
  {
    ('0' as int + n) as char
  }

  /** Value of a string of ASCII digits, most significant digit first. */
  function DigitsValue(s: string): nat
    requires AllDigits(s)
  {
    if s == [] then 0 else DigitsValue(s[..|s| - 1]) * 10 + DigitValue(s[|s| - 1])
  }

  /** The body `int()` accepts after the sign: digits, with single underscores
      allowed between two digits. */
  predicate IsDigitGroup(s: string) {
    && |s| > 0 && IsAsciiDigit(s[0]) && IsAsciiDigit(s[|s| - 1])
    && (forall k :: 0 <= k < |s| ==> IsAsciiDigit(s[k]) || s[k] == '_')
    && (forall k :: 0 <= k < |s| - 1 && s[k] == '_' ==> s[k + 1] != '_')
  }

  /** The digits of a digit group, without its underscores. */
  function GroupDigits(s: string): (d: string)
    requires IsDigitGroup(s)
    ensures AllDigits(d) && |d| > 0
  {
    var d := RemoveChar(s, '_');
    assert s[0] in d;
    assert forall k :: 0 <= k < |d| ==> d[k] in s;
    d
  }

  /** The default of `sys.get_int_max_str_digits()` (Python 3.11 on): `int()`
      raises `ValueError` on decimal text with more digits than this, and
      `str()` on a number that would print with more. */
  const MaxStrDigits: nat := 4300

  /** The text after one leading sign, if it has one. */
  function Unsigned(t: string): (u: string)
    ensures t != [] && (t[0] == '-' || t[0] == '+') ==> t == [t[0]] + u
    ensures !(t != [] && (t[0] == '-' || t[0] == '+')) ==> u == t
  {
    if t != [] && (t[0] == '-' || t[0] == '+') then t[1..] else t
  }

  /** The value of the text after the sign, where `int()` accepts it: a
      digit group of at most `MaxStrDigits` digits. */
  function GroupValue(body: string): (v: Option<nat>)
    ensures v.Some? ==> IsDigitGroup(body)
  {
    if IsDigitGroup(body) && |GroupDigits(body)| <= MaxStrDigits then Some(DigitsValue(GroupDigits(body)))
    else None
  }

  /** The value, negated where the text had a minus sign. */
  function Signed(negative: bool, v: Option<nat>): (r: Option<int>)
    ensures r.Some? <==> v.Some?
  {
    match v
    case None => None
    case Some(n) => Some(if negative then -(n as int) else n as int)
  }

  /** `int()` on stripped text: one leading sign allowed, then a digit
      group. */
  function ParseStripped(t: string): (r: Option<int>)
    ensures r.Some? ==> t != []
    ensures r.Some? && r.value < 0 ==> t[0] == '-'
  {
    if t == [] then None else Signed(t[0] == '-', GroupValue(Unsigned(t)))
  }

  /** `int(s)`: `None` where Python raises `ValueError`. Surrounding whitespace
      and one leading sign are allowed; the body is a digit group of at most
      `MaxStrDigits` digits. */
  function Parse(s: string): (r: Option<int>)
    ensures r.Some? ==> Strip(s) != []
    ensures r.Some? && r.value < 0 ==> Strip(s)[0] == '-'
  {
    ParseStripped(Strip(s))
  }

  /** `str(n)` for a natural number: shortest decimal, no leading zero. */
  function NatToString(n: nat): (r: string)
    ensures |r| > 0 && AllDigits(r) && DigitsValue(r) == n
    ensures |r| == 1 || r[0] != '0'
  {
    if n < 10 then [DigitChar(n)]
    else
      var h := NatToString(n / 10);
      var r := h + [DigitChar(n % 10)];
      assert r[..|r| - 1] == h;
      r
  }

  /** Numbers below 10000 print with at most four digits. */
  lemma ShortNatToString(n: nat)
    requires n < 10000
    ensures |NatToString(n)| <= 4
  {
    if n >= 10 {
      var a := n / 10;
      assert |NatToString(n)| == |NatToString(a)| + 1;
      if a >= 10 {
        var b := a / 10;
        assert |NatToString(a)| == |NatToString(b)| + 1;
        if b >= 10 {
          assert |NatToString(b)| == |NatToString(b / 10)| + 1;
        }
      }
    }
  }

  /** `int(str(n)) == n`, for every `n` short enough for `int` to read. */
  lemma {:induction false} ParseNatToString(n: nat)
    ensures Parse(NatToString(n)) == if |NatToString(n)| <= MaxStrDigits then Some(n) else None
  {
    ParseDigits(NatToString(n));
  }

  /** `int()` of stripped text that does not start with a sign. */
  lemma ParseUnsigned(t: string)
    requires t == [] || (t[0] != '+' && t[0] != '-')
    ensures ParseStripped(t) == GroupValue(t)
  {
  }

  /** `int()` of stripped text that starts with a sign. */
  lemma ParseWithSign(c: char, body: string)
    requires c == '+' || c == '-'
    ensures ParseStripped([c] + body) == Signed(c == '-', GroupValue(body))
  {
    assert ([c] + body)[0] == c && ([c] + body)[1..] == body;
  }

  /** A string of digits is its own digit group. */
  lemma DigitsGroup(d: string)
    requires d != [] && AllDigits(d)
    ensures GroupValue(d) == if |d| <= MaxStrDigits then Some(DigitsValue(d)) else None
  {
    assert '_' !in d;
    assert IsDigitGroup(d);
    assert GroupDigits(d) == d;
  }

  /** Digits are no whitespace, so `strip()` keeps them. */
  lemma DigitsStripped(d: string)
    requires d != [] && AllDigits(d)
    ensures Strip(d) == d
  {
    assert IsAsciiDigit(d[0]) && IsAsciiDigit(d[|d| - 1]);
    StripOfStripped(d);
  }

  /** `int()` of a digit string: its value, unless it is too long. */
  lemma ParseDigits(d: string)
    requires d != [] && AllDigits(d)
    ensures Parse(d) == if |d| <= MaxStrDigits then Some(DigitsValue(d)) else None
  {
    DigitsStripped(d);
    assert Unsigned(d) == d;
    DigitsGroup(d);
  }

  /** Surrounding whitespace is ignored: `int(" 7\n") == int("7")`. */
  lemma ParseIgnoresMargins(a: string, t: string, b: string)
    requires AllSpace(a) && AllSpace(b)
    ensures Parse(a + t + b) == Parse(t)
  {
    StripMargins(a, t, b);
  }

  /** A `+` in front of unsigned text changes nothing. */
  lemma ParsePlusSign(t: string)
    requires t == [] || (!IsSpace(t[0]) && t[0] != '+' && t[0] != '-')
    ensures Parse("+" + t) == Parse(t)
  {
    UnsignedParse(t);
    SignedParse('+', t);
  }

  /** A `-` in front of unsigned text negates its value, and fails where the
      text alone fails. */
  lemma ParseMinusSign(t: string)
    requires t == [] || (!IsSpace(t[0]) && t[0] != '+' && t[0] != '-')
    ensures Parse("-" + t).Some? <==> Parse(t).Some?
    ensures Parse(t).Some? ==> Parse("-" + t).value == -Parse(t).value
  {
    UnsignedParse(t);
    SignedParse('-', t);
  }

  /** `int()` of text that starts with neither whitespace nor a sign. */
  lemma UnsignedParse(t: string)
    requires t == [] || (!IsSpace(t[0]) && t[0] != '+' && t[0] != '-')
    ensures Parse(t) == GroupValue(Strip(t))
  {
    SignNotSpace('+');
    StripAfter('+', t);
    ParseUnsigned(Strip(t));
  }

  /** Signs are no whitespace. */
  lemma SignNotSpace(c: char)
    requires c == '+' || c == '-'
    ensures !IsSpace(c)
  {
  }

  /** `int()` of a sign in front of text that does not start with
      whitespace. */
  lemma SignedParse(c: char, t: string)
    requires (c == '+' || c == '-') && (t == [] || !IsSpace(t[0]))
    ensures Parse([c] + t) == Signed(c == '-', GroupValue(Strip(t)))
  {
    SignNotSpace(c);
    StripAfter(c, t);
    ParseWithSign(c, Strip(t));
  }

  /** `int("-" + str(n)) == -n`, for every `n` short enough for `int` to read. */
  lemma ParseNegatedNatToString(n: nat)
    ensures Parse("-" + NatToString(n)) == if |NatToString(n)| <= MaxStrDigits then Some(-(n as int)) else None
  {
    var s := NatToString(n);
    assert IsAsciiDigit(s[0]);
    ParseMinusSign(s);
    ParseNatToString(n);
  }

  /** `k` zeros. */
  function Zeros(k: nat): (z: string)
    ensures |z| == k && AllDigits(z)
  {
    seq(k, _ => '0')
  }

  /** Leading zeros do not change the value of digits. */
  lemma {:induction false} DigitsValueZeros(k: nat, d: string)
    requires AllDigits(d)
    ensures DigitsValue(Zeros(k) + d) == DigitsValue(d)
    decreases |d|, k
  {
    var z := Zeros(k);
    if d == [] {
      assert z + d == z;
      if k > 0 {
        assert z[..k - 1] == Zeros(k - 1);
        DigitsValueZeros(k - 1, []);
        assert Zeros(k - 1) + [] == Zeros(k - 1);
      }
    } else {
      var n := |d| - 1;
      assert (z + d)[..|z + d| - 1] == z + d[..n];
      DigitsValueZeros(k, d[..n]);
    }
  }

  /** `int("00" + str(n)) == n`: leading zeros are read and do not change
      the value, though they count toward the digit limit. */
  lemma ParseLeadingZeros(k: nat, n: nat)
    ensures Parse(Zeros(k) + NatToString(n)) == if k + |NatToString(n)| <= MaxStrDigits then Some(n) else None
  {
    DigitsValueZeros(k, NatToString(n));
    ParseDigits(Zeros(k) + NatToString(n));
  }

  /** Two digit groups joined with an underscore, or without one, form a
      digit group, whose digits are theirs. */
  lemma JoinedGroups(x: string, y: string)
    requires IsDigitGroup(x) && IsDigitGroup(y)
    ensures IsDigitGroup(x + "_" + y) && IsDigitGroup(x + y)
    ensures GroupDigits(x + "_" + y) == GroupDigits(x + y)
  {
    JoinedIsGroup(x, y);
    RemoveUnderscore(x, y);
  }

  /** Removing the underscores of `x + "_" + y` removes the middle one too. */
  lemma RemoveUnderscore(x: string, y: string)
    ensures RemoveChar(x + "_" + y, '_') == RemoveChar(x + y, '_')
  {
    var rx, ry := RemoveChar(x, '_'), RemoveChar(y, '_');
    assert RemoveChar(x + "_", '_') == rx by {
      RemoveCharAppend(x, "_", '_');
      RemoveCharCons('_', [], '_');
      assert ['_'] + [] == "_";
    }
    RemoveCharAppend(x + "_", y, '_');
    RemoveCharAppend(x, y, '_');
  }

  /** Joining two digit groups, with one underscore or none, gives a digit group. */
  lemma JoinedIsGroup(x: string, y: string)
    requires IsDigitGroup(x) && IsDigitGroup(y)
    ensures IsDigitGroup(x + "_" + y) && IsDigitGroup(x + y)
  {
    var s1, s2 := x + "_" + y, x + y;
    assert forall k :: 0 <= k < |x| ==> s1[k] == x[k] && s2[k] == x[k];
    assert forall k :: 0 <= k < |y| ==> s1[|x| + 1 + k] == y[k] && s2[|x| + k] == y[k];
  }

  /** A digit group parses as its own stripped text. */
  lemma ParseGroup(g: string)
    requires IsDigitGroup(g)
    ensures Parse(g) == GroupValue(g)
  {
    DigitsAndUnderscoresStripped(g);
    ParseUnsigned(g);
  }

  /** Text that starts and ends with a digit or an underscore is stripped. */
  lemma DigitsAndUnderscoresStripped(s: string)
    requires s != [] && (IsAsciiDigit(s[0]) || s[0] == '_') && (IsAsciiDigit(s[|s| - 1]) || s[|s| - 1] == '_')
    ensures Strip(s) == s
  {
    StripOfStripped(s);
  }

  /** Single underscores between digits are ignored: `int("1_000") == 1000`. */
  lemma ParseUnderscore(x: string, y: string)
    requires IsDigitGroup(x) && IsDigitGroup(y)
    ensures Parse(x + "_" + y) == Parse(x + y)
  {
    JoinedGroups(x, y);
    ParseGroup(x + "_" + y);
    ParseGroup(x + y);
  }

  /** An underscore that does not stand between two digits is a
      `ValueError`: in front, at the end, or doubled. */
  lemma ParseStrayUnderscore(x: string, y: string)
    requires IsDigitGroup(x) && IsDigitGroup(y)
    ensures Parse("_" + x) == None && Parse(x + "_") == None && Parse(x + "__" + y) == None
  {
    var s := x + "__" + y;
    assert ("_" + x)[0] == '_' && ("_" + x)[|x|] == x[|x| - 1];
    assert (x + "_")[0] == x[0] && (x + "_")[|x|] == '_';
    assert s[0] == x[0] && s[|s| - 1] == y[|y| - 1] && s[|x|] == '_' && s[|x| + 1] == '_';
    NoGroupParse("_" + x);
    NoGroupParse(x + "_");
    NoGroupParse(s);
  }

  /** Text of digits and underscores that starts and ends with one of them
      and is no digit group is a `ValueError`. */
  lemma NoGroupParse(s: string)
    requires s != [] && (IsAsciiDigit(s[0]) || s[0] == '_') && (IsAsciiDigit(s[|s| - 1]) || s[|s| - 1] == '_')
    requires !IsDigitGroup(s)
    ensures Parse(s) == None
  {
    DigitsAndUnderscoresStripped(s);
    ParseUnsigned(s);
  }
}
