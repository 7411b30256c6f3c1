/** The search for the PDF address in a calendar entry's block: the
    pattern `"url"\s*:\s*"([^"]+)"`, its match at one position, the
    leftmost match, and what a match means. */
module UrlMatch {
  import opened Opt
  import opened PyText

  /** The number of characters other than `"` from `i` on: what a greedy
      `[^"]+` at `i` consumes. */
  function QuoteFreeRun(s: string, i: nat): (n: nat)
    ensures n > 0 ==> i + n <= |s|
    ensures forall k :: i <= k < i + n ==> s[k] != '"'
    ensures i + n < |s| ==> s[i + n] == '"'
    decreases |s| - i
  {
    if i < |s| && s[i] != '"' then 1 + QuoteFreeRun(s, i + 1) else 0
  }

  const UrlKey: string := "\"url\""

  /** A `url` property written at `k`: the key, whitespace `sp1`, the colon,
      whitespace `sp2`, and the value `u` between quotes. */
  predicate PropertyAt(b: string, k: nat, sp1: string, sp2: string, u: string) {
    AllSpace(sp1) && AllSpace(sp2) && Occurs(b, UrlKey + sp1 + ":" + sp2 + "\"" + u + "\"", k)
  }

  /** The match of `"url"\s*:\s*"([^"]+)"` starting at `k`, as its group.
      Each repetition is followed by a character it cannot consume, so only
      its longest run can lead to a match: there is at most one. */
  function UrlAt(b: string, k: nat): (r: Option<string>)
    ensures r.Some? ==> r.value != [] && '"' !in r.value
  {
    if !Occurs(b, UrlKey, k) then None
    else ColonValue(b, k + |UrlKey| + SpaceRun(b, k + |UrlKey|))
  }

  /** The rest of the match once `"url"\s*` has put us at `colon`. */
  function ColonValue(b: string, colon: nat): (r: Option<string>)
    ensures r.Some? ==> r.value != [] && '"' !in r.value
  {
    if colon >= |b| || b[colon] != ':' then None
    else QuotedValue(b, colon + 1 + SpaceRun(b, colon + 1))
  }

  /** `"([^"]+)"` at `quote`: the group between the quotes. */
  function QuotedValue(b: string, quote: nat): (r: Option<string>)
    ensures r.Some? ==> r.value != [] && '"' !in r.value
  {
    if quote >= |b| || b[quote] != '"' then None
    else
      var n := QuoteFreeRun(b, quote + 1);
      if n == 0 || quote + 1 + n >= |b| then None
      else
        var g := b[quote + 1..quote + 1 + n];
        assert forall x :: 0 <= x < |g| ==> g[x] == b[quote + 1 + x];
        Some(g)
  }

  /** A match at `k` is the value of a `url` property written there. */
  lemma UrlAtMeaning(b: string, k: nat)
    requires UrlAt(b, k).Some?
    ensures exists sp1, sp2 :: PropertyAt(b, k, sp1, sp2, UrlAt(b, k).value)
  {
    var colon, quote, n := MatchPositions(b, k);
    PropertyOfPositions(b, k, colon, quote, n);
  }

  /** Where the colon, the opening quote and the closing quote of a match are. */
  lemma MatchPositions(b: string, k: nat) returns (colon: nat, quote: nat, n: nat)
    requires UrlAt(b, k).Some?
    ensures Occurs(b, UrlKey, k) && k + 5 <= colon < quote && quote + 1 + n < |b|
    ensures AllSpace(b[k + 5..colon]) && AllSpace(b[colon + 1..quote])
    ensures b[colon] == ':' && b[quote] == '"' && b[quote + 1 + n] == '"'
    ensures UrlAt(b, k) == Some(b[quote + 1..quote + 1 + n])
  {
    colon := UrlAtSome(b, k);
    quote := ColonSome(b, colon);
    QuotedSome(b, quote);
    n := QuoteFreeRun(b, quote + 1);
  }

  /** A match at `k` starts with the key and `\s*`. */
  lemma UrlAtSome(b: string, k: nat) returns (colon: nat)
    requires UrlAt(b, k).Some?
    ensures Occurs(b, UrlKey, k) && k + 5 <= colon <= |b| && AllSpace(b[k + 5..colon])
    ensures UrlAt(b, k) == ColonValue(b, colon)
  {
    assert |UrlKey| == 5;
    colon := k + 5 + SpaceRun(b, k + 5);
    SpaceRunSlice(b, k + 5);
  }

  /** A match from the colon on goes through `\s*` to the opening quote. */
  lemma ColonSome(b: string, colon: nat) returns (quote: nat)
    requires ColonValue(b, colon).Some?
    ensures colon < |b| && b[colon] == ':' && colon < quote <= |b| && AllSpace(b[colon + 1..quote])
    ensures ColonValue(b, colon) == QuotedValue(b, quote)
  {
    quote := colon + 1 + SpaceRun(b, colon + 1);
    SpaceRunSlice(b, colon + 1);
  }

  /** A quoted value: the group runs up to the closing quote. */
  lemma QuotedSome(b: string, quote: nat)
    requires QuotedValue(b, quote).Some?
    ensures var n := QuoteFreeRun(b, quote + 1);
      && quote < |b| && b[quote] == '"' && quote + 1 + n < |b| && b[quote + 1 + n] == '"'
      && QuotedValue(b, quote) == Some(b[quote + 1..quote + 1 + n])
  {
  }

  /** What `\s*` consumes at `i` is whitespace. */
  lemma SpaceRunSlice(b: string, i: nat)
    requires i <= |b|
    ensures i + SpaceRun(b, i) <= |b| && AllSpace(b[i..i + SpaceRun(b, i)])
  {
  }

  /** The pieces UrlAt finds make up a `url` property. */
  lemma PropertyOfPositions(b: string, k: nat, colon: nat, quote: nat, n: nat)
    requires Occurs(b, UrlKey, k) && k + 5 <= colon < quote && quote + 1 + n < |b|
    requires AllSpace(b[k + 5..colon]) && AllSpace(b[colon + 1..quote])
    requires b[colon] == ':' && b[quote] == '"' && b[quote + 1 + n] == '"'
    ensures PropertyAt(b, k, b[k + 5..colon], b[colon + 1..quote], b[quote + 1..quote + 1 + n])
  {
    PiecesAt(b, k, colon, quote, n);
  }

  /** The key, the colon, the quotes and the slices between them, in order. */
  lemma PiecesAt(b: string, k: nat, colon: nat, quote: nat, n: nat)
    requires Occurs(b, UrlKey, k) && k + 5 <= colon < quote && quote + 1 + n < |b|
    requires b[colon] == ':' && b[quote] == '"' && b[quote + 1 + n] == '"'
    ensures Occurs(b, UrlKey + b[k + 5..colon] + ":" + b[colon + 1..quote] + "\"" + b[quote + 1..quote + 1 + n] + "\"", k)
  {
    assert b[colon..colon + 1] == ":" && b[quote..quote + 1] == "\"" && b[quote + 1 + n..quote + 2 + n] == "\"";
    SlicesJoin(b, k, k + 5, colon);
    SlicesJoin(b, k, colon, colon + 1);
    SlicesJoin(b, k, colon + 1, quote);
    SlicesJoin(b, k, quote, quote + 1);
    SlicesJoin(b, k, quote + 1, quote + 1 + n);
    SlicesJoin(b, k, quote + 1 + n, quote + 2 + n);
  }

  /** Adjacent slices make up the slice spanning both. */
  lemma SlicesJoin(b: string, i: nat, j: nat, l: nat)
    requires i <= j <= l <= |b|
    ensures b[i..j] + b[j..l] == b[i..l]
  {
  }

  /** `re.search` from `k` on: the leftmost start with a match. */
  function SearchUrl(b: string, k: nat): (r: Option<string>)
    ensures r.Some? ==> r.value != [] && '"' !in r.value
    ensures r.Some? ==> exists i :: k <= i <= |b| && UrlAt(b, i) == r && forall j :: k <= j < i ==> UrlAt(b, j).None?
    ensures r.None? ==> forall i :: k <= i <= |b| ==> UrlAt(b, i).None?
    decreases |b| - k
  {
    if k > |b| then None
    else if UrlAt(b, k).Some? then UrlAt(b, k)
    else SearchUrl(b, k + 1)
  }

  /** A quote-free text followed by a quote is exactly one `[^"]+` run. */
  lemma QuoteRunOf(b: string, i: nat, u: string)
    requires i + |u| < |b| && b[i..i + |u|] == u && '"' !in u && b[i + |u|] == '"'
    ensures QuoteFreeRun(b, i) == |u|
  {
    assert forall x :: 0 <= x < |u| ==> b[i + x] == u[x];
  }

  /** The characters of a `url` property written at `k`. */
  lemma PropertyChars(b: string, k: nat, sp1: string, sp2: string, u: string)
    requires PropertyAt(b, k, sp1, sp2, u)
    ensures var colon := k + 5 + |sp1|; var quote := colon + 1 + |sp2|;
      && Occurs(b, UrlKey, k) && Occurs(b, sp1, k + 5) && Occurs(b, sp2, colon + 1)
      && quote + 1 + |u| < |b| && b[colon] == ':' && b[quote] == '"'
      && b[quote + 1..quote + 1 + |u|] == u && b[quote + 1 + |u|] == '"'
  {
    var colon := k + 5 + |sp1|;
    var quote := colon + 1 + |sp2|;
    OccursConcat(b, UrlKey + sp1 + ":" + sp2 + "\"" + u, "\"", k);
    OccursConcat(b, UrlKey + sp1 + ":" + sp2 + "\"", u, k);
    OccursConcat(b, UrlKey + sp1 + ":" + sp2, "\"", k);
    OccursConcat(b, UrlKey + sp1 + ":", sp2, k);
    OccursConcat(b, UrlKey + sp1, ":", k);
    OccursConcat(b, UrlKey, sp1, k);
    assert b[colon..colon + 1][0] == b[colon];
    assert b[quote..quote + 1][0] == b[quote];
    assert b[quote + 1 + |u|..quote + 2 + |u|][0] == b[quote + 1 + |u|];
  }

  /** A `url` property is matched where it starts, with its value as the
      group, whatever whitespace surrounds its colon. */
  lemma UrlAtProperty(b: string, k: nat, sp1: string, sp2: string, u: string)
    requires u != [] && '"' !in u && PropertyAt(b, k, sp1, sp2, u)
    ensures UrlAt(b, k) == Some(u)
  {
    PropertyChars(b, k, sp1, sp2, u);
    PiecesUrl(b, k, sp1, sp2, u, k + 5 + |sp1|, k + 6 + |sp1| + |sp2|);
  }

  /** The match at `k` from the characters of a `url` property. */
  lemma PiecesUrl(b: string, k: nat, sp1: string, sp2: string, u: string, colon: nat, quote: nat)
    requires u != [] && '"' !in u && AllSpace(sp1) && AllSpace(sp2)
    requires colon == k + 5 + |sp1| && quote == colon + 1 + |sp2|
    requires Occurs(b, UrlKey, k) && Occurs(b, sp1, k + 5) && Occurs(b, sp2, colon + 1)
    requires quote + 1 + |u| < |b| && b[colon] == ':' && b[quote] == '"'
    requires b[quote + 1..quote + 1 + |u|] == u && b[quote + 1 + |u|] == '"'
    ensures UrlAt(b, k) == Some(u)
  {
    PieceRuns(b, k, sp1, sp2, u, colon, quote);
    UrlAtOfPieces(b, k, colon, quote, u);
  }

  /** The runs `\s*`, `\s*` and `[^"]+` take in a `url` property. */
  lemma PieceRuns(b: string, k: nat, sp1: string, sp2: string, u: string, colon: nat, quote: nat)
    requires '"' !in u && AllSpace(sp1) && AllSpace(sp2)
    requires colon == k + 5 + |sp1| && quote == colon + 1 + |sp2|
    requires Occurs(b, sp1, k + 5) && Occurs(b, sp2, colon + 1)
    requires quote + 1 + |u| < |b| && b[colon] == ':' && b[quote] == '"'
    requires b[quote + 1..quote + 1 + |u|] == u && b[quote + 1 + |u|] == '"'
    ensures SpaceRun(b, k + 5) == |sp1| && SpaceRun(b, colon + 1) == |sp2| && QuoteFreeRun(b, quote + 1) == |u|
  {
    SpacesThen(b, k + 5, sp1);
    SpacesThen(b, colon + 1, sp2);
    QuoteRunOf(b, quote + 1, u);
  }

  /** The match at `k` from the positions `\s*` and `[^"]+` stop at. */
  lemma UrlAtOfPieces(b: string, k: nat, colon: nat, quote: nat, u: string)
    requires Occurs(b, UrlKey, k) && colon == k + 5 + SpaceRun(b, k + 5) && colon < |b| && b[colon] == ':'
    requires quote == colon + 1 + SpaceRun(b, colon + 1) && quote < |b| && b[quote] == '"'
    requires u != [] && QuoteFreeRun(b, quote + 1) == |u| && quote + 1 + |u| < |b| && b[quote + 1..quote + 1 + |u|] == u
    ensures UrlAt(b, k) == Some(u)
  {
    QuotedValueOf(b, quote, u);
    ColonValueOf(b, colon, quote);
    UrlAtOfColon(b, k, colon);
  }

  /** The group of a quoted value that `[^"]+` consumes whole. */
  lemma QuotedValueOf(b: string, quote: nat, u: string)
    requires quote < |b| && b[quote] == '"'
    requires u != [] && QuoteFreeRun(b, quote + 1) == |u| && quote + 1 + |u| < |b| && b[quote + 1..quote + 1 + |u|] == u
    ensures QuotedValue(b, quote) == Some(u)
  {
  }

  /** One step of UrlAt: past the colon and `\s*`. */
  lemma ColonValueOf(b: string, colon: nat, quote: nat)
    requires colon < |b| && b[colon] == ':' && quote == colon + 1 + SpaceRun(b, colon + 1)
    ensures ColonValue(b, colon) == QuotedValue(b, quote)
  {
  }

  /** One step of UrlAt: past the key and `\s*`. */
  lemma UrlAtOfColon(b: string, k: nat, colon: nat)
    requires Occurs(b, UrlKey, k) && colon == k + 5 + SpaceRun(b, k + 5)
    ensures UrlAt(b, k) == ColonValue(b, colon)
  {
    assert |UrlKey| == 5;
  }

  /** Whitespace written at `i` and followed by something else is the whole
      run `\s*` consumes there. */
  lemma SpacesThen(b: string, i: nat, sp: string)
    requires AllSpace(sp) && Occurs(b, sp, i) && i + |sp| < |b| && !IsSpace(b[i + |sp|])
    ensures SpaceRun(b, i) == |sp|
  {
    assert forall x :: i <= x < i + |sp| ==> b[x] == sp[x - i];
    SpaceRunOf(b, i, |sp|);
  }

  /** A block that opens with a `url` property yields that property's value. */
  lemma UrlOfLeadingProperty(u: string, rest: string)
    requires u != [] && '"' !in u
    ensures SearchUrl(UrlKey + ":\"" + u + "\"" + rest, 0) == Some(u)
  {
    var b := UrlKey + ":\"" + u + "\"" + rest;
    assert b[0..8 + |u|] == UrlKey + "" + ":" + "" + "\"" + u + "\"";
    UrlAtProperty(b, 0, "", "", u);
  }
}
