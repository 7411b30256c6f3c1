/** The "large combined events" test of the weekly summary: a day with more
    than one event, a total attendance over 50000, and two of its parsed
    start times at most two hours apart, found by sorting the times and
    comparing neighbours. */
module CombinedEvents {
  import opened Opt
  import opened EventFields

  /** `sum(ev["attendance"] for ev in day_events)` */
  function TotalAttendance(evs: seq<Event>): int {
    if evs == [] then 0 else TotalAttendance(evs[..|evs| - 1]) + evs[|evs| - 1].attendance
  }

  /** `ev["time_dt"]` of each event, in event order. */
  function Parsed(evs: seq<Event>): (r: seq<Option<int>>)
    ensures |r| == |evs|
  {
    seq(|evs|, k requires 0 <= k < |evs| => evs[k].time)
  }

  /** The parsed times among `ts`, in order. */
  function Somes(ts: seq<Option<int>>): (r: seq<int>)
    ensures |r| <= |ts|
  {
    if ts == [] then []
    else
      var before := Somes(ts[..|ts| - 1]);
      match ts[|ts| - 1]
      case None => before
      case Some(t) => before + [t]
  }

  /** `[ev["time_dt"] for ev in day_events if ev["time_dt"]]`, in minutes:
      the parsed times in event order, the unparsed ones left out. */
  function Times(evs: seq<Event>): (r: seq<int>)
    ensures |r| <= |evs|
  {
    Somes(Parsed(evs))
  }

  // ------------------------------------------------------------ sorting

  predicate SortedInts(s: seq<int>) {
    forall i, j :: 0 <= i < j < |s| ==> s[i] <= s[j]
  }

  /** Where `x` goes in `s`: after every element below it. */
  function InsertPos(x: int, s: seq<int>): (p: nat)
    ensures p <= |s|
    ensures forall k :: 0 <= k < p ==> s[k] < x
    ensures p < |s| ==> x <= s[p]
  {
    if s == [] || x <= s[0] then 0 else 1 + InsertPos(x, s[1..])
  }

  function Insert(x: int, s: seq<int>): (r: seq<int>)
    ensures multiset(r) == multiset(s) + multiset{x}
    ensures SortedInts(s) ==> SortedInts(r)
  {
    var p := InsertPos(x, s);
    InsertAt(x, s, p);
    s[..p] + [x] + s[p..]
  }

  lemma InsertAt(x: int, s: seq<int>, p: nat)
    requires p <= |s| && (forall k :: 0 <= k < p ==> s[k] < x) && (p < |s| ==> x <= s[p])
    ensures multiset(s[..p] + [x] + s[p..]) == multiset(s) + multiset{x}
    ensures SortedInts(s) ==> SortedInts(s[..p] + [x] + s[p..])
  {
    assert s == s[..p] + s[p..];
    if SortedInts(s) {
      InsertSorted(x, s, p, s[..p] + [x] + s[p..]);
    }
  }

  lemma InsertSorted(x: int, s: seq<int>, p: nat, r: seq<int>)
    requires p <= |s| && (forall k :: 0 <= k < p ==> s[k] < x) && (p < |s| ==> x <= s[p])
    requires SortedInts(s) && r == s[..p] + [x] + s[p..]
    ensures SortedInts(r)
  {
    assert |r| == |s| + 1;
    assert forall k :: 0 <= k < p ==> r[k] == s[k];
    assert r[p] == x;
    assert forall k :: p < k < |r| ==> r[k] == s[k - 1];
    forall i, j | 0 <= i < j < |r| ensures r[i] <= r[j] {
      if j > p {
        assert s[p] <= s[j - 1];
      }
    }
  }

  /** `sorted(times)`: insertion from the left gives the one sorted
      permutation of the times. */
  function Sort(t: seq<int>): (r: seq<int>)
    ensures SortedInts(r) && multiset(r) == multiset(t)
  {
    if t == [] then []
    else
      var r := Insert(t[|t| - 1], Sort(t[..|t| - 1]));
      assert t == t[..|t| - 1] + [t[|t| - 1]];
      r
  }

  // ------------------------------------------------------------ near pairs

  /** `abs((b - a).total_seconds()) / 3600 <= 2`, in whole minutes. */
  predicate Near(a: int, b: int) {
    -CombinedGapMinutes <= b - a <= CombinedGapMinutes
  }

  /** Two distinct positions of `s` hold times at most two hours apart. */
  predicate HasNearPair(s: seq<int>) {
    exists i, j :: 0 <= i < j < |s| && Near(s[i], s[j])
  }

  /** Some neighbours of `s` are at most two hours apart. */
  predicate AdjacentNear(s: seq<int>) {
    exists i :: 0 <= i < |s| - 1 && Near(s[i], s[i + 1])
  }

  /** `x` is near some element of `s`. */
  predicate NearAny(x: int, s: seq<int>) {
    exists k :: 0 <= k < |s| && Near(x, s[k])
  }

  /** On sorted times, comparing neighbours finds a near pair exactly when
      there is one. */
  lemma SortedAdjacentNear(s: seq<int>)
    requires SortedInts(s)
    ensures AdjacentNear(s) <==> HasNearPair(s)
  {
    if HasNearPair(s) {
      var i, j :| 0 <= i < j < |s| && Near(s[i], s[j]);
      assert s[i] <= s[i + 1] <= s[j];
      assert Near(s[i], s[i + 1]);
    }
  }

  lemma NearAnyOfSameElements(x: int, a: seq<int>, b: seq<int>)
    requires multiset(a) == multiset(b)
    ensures NearAny(x, a) ==> NearAny(x, b)
  {
    if NearAny(x, a) {
      var k :| 0 <= k < |a| && Near(x, a[k]);
      assert a[k] in multiset(b);
      var k' :| 0 <= k' < |b| && b[k'] == a[k];
    }
  }

  /** A near pair of `s[..p] + [x] + s[p..]` is a near pair of `s` or pairs
      `x` with an element of `s`. */
  lemma NearPairInserted(s: seq<int>, p: nat, x: int)
    requires p <= |s|
    ensures HasNearPair(s[..p] + [x] + s[p..]) <==> HasNearPair(s) || NearAny(x, s)
  {
    var r := s[..p] + [x] + s[p..];
    InsertedAt(s, p, x, r);
    NearPairFromInserted(s, p, x, r);
    NearPairToInserted(s, p, x, r);
  }

  lemma InsertedAt(s: seq<int>, p: nat, x: int, r: seq<int>)
    requires p <= |s| && r == s[..p] + [x] + s[p..]
    ensures |r| == |s| + 1 && r[p] == x
    ensures forall k :: 0 <= k < p ==> r[k] == s[k]
    ensures forall k :: p <= k < |s| ==> r[k + 1] == s[k]
  {
  }

  lemma NearPairFromInserted(s: seq<int>, p: nat, x: int, r: seq<int>)
    requires p <= |s| && |r| == |s| + 1 && r[p] == x
    requires forall k :: 0 <= k < p ==> r[k] == s[k]
    requires forall k :: p <= k < |s| ==> r[k + 1] == s[k]
    ensures HasNearPair(r) ==> HasNearPair(s) || NearAny(x, s)
  {
    if HasNearPair(r) {
      var i, j :| 0 <= i < j < |r| && Near(r[i], r[j]);
      if i == p {
        assert Near(x, s[j - 1]);
      } else if j == p {
        assert Near(x, s[i]);
      } else {
        var i', j' := if i < p then i else i - 1, if j < p then j else j - 1;
        assert Near(s[i'], s[j']);
      }
    }
  }

  lemma NearPairToInserted(s: seq<int>, p: nat, x: int, r: seq<int>)
    requires p <= |s| && |r| == |s| + 1 && r[p] == x
    requires forall k :: 0 <= k < p ==> r[k] == s[k]
    requires forall k :: p <= k < |s| ==> r[k + 1] == s[k]
    ensures HasNearPair(s) || NearAny(x, s) ==> HasNearPair(r)
  {
    if HasNearPair(s) {
      var i, j :| 0 <= i < j < |s| && Near(s[i], s[j]);
      var i', j' := if i < p then i else i + 1, if j < p then j else j + 1;
      assert Near(r[i'], r[j']);
    } else if NearAny(x, s) {
      var k :| 0 <= k < |s| && Near(x, s[k]);
      if k < p {
        assert Near(r[k], r[p]);
      } else {
        assert Near(r[p], r[k + 1]);
      }
    }
  }

  /** Sorting keeps the near pairs. */
  lemma {:induction false} SortKeepsNearPair(t: seq<int>)
    ensures HasNearPair(Sort(t)) <==> HasNearPair(t)
  {
    if t != [] {
      var t', x := t[..|t| - 1], t[|t| - 1];
      var s := Sort(t');
      SortKeepsNearPair(t');
      var p := InsertPos(x, s);
      NearPairInserted(s, p, x);
      NearPairInserted(t', |t'|, x);
      assert t'[..|t'|] + [x] + t'[|t'|..] == t;
      NearAnyOfSameElements(x, s, t');
      NearAnyOfSameElements(x, t', s);
    }
  }

  // ------------------------------------------------------------ the test

  /** Both times were parsed, and are at most two hours apart. */
  predicate BothNear(a: Option<int>, b: Option<int>) {
    a.Some? && b.Some? && Near(a.value, b.value)
  }

  /** Two distinct positions hold parsed times near each other. */
  predicate SlotsNearPair(ts: seq<Option<int>>) {
    exists i, j :: 0 <= i < j < |ts| && BothNear(ts[i], ts[j])
  }

  /** Two distinct events of the day have parsed times near each other. */
  predicate EventsNearPair(evs: seq<Event>) {
    exists i, j :: 0 <= i < j < |evs| && BothNear(evs[i].time, evs[j].time)
  }

  lemma EventsNearPairIsSlots(evs: seq<Event>)
    ensures EventsNearPair(evs) <==> SlotsNearPair(Parsed(evs))
  {
    var ts := Parsed(evs);
    assert forall k :: 0 <= k < |evs| ==> ts[k] == evs[k].time;
  }

  /** `day_events` fires the combined tag. */
  predicate CombinedLarge(evs: seq<Event>) {
    |evs| > 1 && TotalAttendance(evs) > LargeAttendance && AdjacentNear(Sort(Times(evs)))
  }

  /** `x` is near a parsed time of `ts` exactly when it is near one of the
      times kept. */
  lemma {:induction false} SomesNearAny(ts: seq<Option<int>>, x: int)
    ensures NearAny(x, Somes(ts)) <==> exists i :: 0 <= i < |ts| && BothNear(Some(x), ts[i])
  {
    if ts != [] {
      var ts', o := ts[..|ts| - 1], ts[|ts| - 1];
      SomesNearAny(ts', x);
      if o.Some? {
        NearPairInsertedAny(Somes(ts'), x, o.value);
      }
      assert forall i :: 0 <= i < |ts'| ==> ts'[i] == ts[i];
    }
  }

  lemma NearPairInsertedAny(s: seq<int>, x: int, y: int)
    ensures NearAny(x, s + [y]) <==> NearAny(x, s) || Near(x, y)
  {
    var r := s + [y];
    if NearAny(x, r) {
      var k :| 0 <= k < |r| && Near(x, r[k]);
      if k < |s| { assert Near(x, s[k]); }
    }
    if NearAny(x, s) {
      var k :| 0 <= k < |s| && Near(x, s[k]);
      assert Near(x, r[k]);
    }
    if Near(x, y) {
      assert Near(x, r[|s|]);
    }
  }

  /** The near pairs of the times kept are the near pairs of parsed times:
      an unparsed time never takes part. */
  lemma {:induction false} SomesNearPair(ts: seq<Option<int>>)
    ensures HasNearPair(Somes(ts)) <==> SlotsNearPair(ts)
  {
    if ts != [] {
      var ts', o := ts[..|ts| - 1], ts[|ts| - 1];
      SomesNearPair(ts');
      var t' := Somes(ts');
      match o {
        case None =>
          SlotsNearPairNone(ts);
        case Some(t) =>
          NearPairInserted(t', |t'|, t);
          assert t'[..|t'|] + [t] + t'[|t'|..] == Somes(ts);
          SomesNearAny(ts', t);
          SlotsNearPairLast(ts, t);
      }
    }
  }

  lemma SlotsNearPairNone(ts: seq<Option<int>>)
    requires ts != [] && ts[|ts| - 1].None?
    ensures SlotsNearPair(ts) <==> SlotsNearPair(ts[..|ts| - 1])
  {
    var ts' := ts[..|ts| - 1];
    assert forall i :: 0 <= i < |ts'| ==> ts'[i] == ts[i];
    if SlotsNearPair(ts) {
      var i, j :| 0 <= i < j < |ts| && BothNear(ts[i], ts[j]);
      assert BothNear(ts'[i], ts'[j]);
    }
    if SlotsNearPair(ts') {
      var i, j :| 0 <= i < j < |ts'| && BothNear(ts'[i], ts'[j]);
      assert BothNear(ts[i], ts[j]);
    }
  }

  lemma SlotsNearPairLast(ts: seq<Option<int>>, t: int)
    requires ts != [] && ts[|ts| - 1] == Some(t)
    ensures SlotsNearPair(ts) <==> (SlotsNearPair(ts[..|ts| - 1]) || exists i :: 0 <= i < |ts| - 1 && BothNear(Some(t), ts[i]))
  {
    var ts', n := ts[..|ts| - 1], |ts| - 1;
    assert forall i :: 0 <= i < |ts'| ==> ts'[i] == ts[i];
    if SlotsNearPair(ts) {
      var i, j :| 0 <= i < j < |ts| && BothNear(ts[i], ts[j]);
      if j == n {
        assert BothNear(Some(t), ts[i]);
      } else {
        assert BothNear(ts'[i], ts'[j]);
      }
    }
    if SlotsNearPair(ts') {
      var i, j :| 0 <= i < j < |ts'| && BothNear(ts'[i], ts'[j]);
      assert BothNear(ts[i], ts[j]);
    }
    if exists i :: 0 <= i < n && BothNear(Some(t), ts[i]) {
      var i :| 0 <= i < n && BothNear(Some(t), ts[i]);
      assert BothNear(ts[i], ts[n]);
    }
  }

  /** The combined tag fires exactly when the day has more than one event,
      more than 50000 people in total, and two timed events at most two
      hours apart, whatever their order in the file. */
  lemma CombinedLargeMeaning(evs: seq<Event>)
    ensures CombinedLarge(evs) <==> |evs| > 1 && TotalAttendance(evs) > LargeAttendance && EventsNearPair(evs)
  {
    SortedAdjacentNear(Sort(Times(evs)));
    SortKeepsNearPair(Times(evs));
    SomesNearPair(Parsed(evs));
    EventsNearPairIsSlots(evs);
  }

  /** The scan of neighbours of lines 133-139, which stops at the first pair
      two hours apart or less. */
  method ScanNeighbours(sorted: seq<int>) returns (found: bool)
    ensures found <==> AdjacentNear(sorted)
  {
    found := false;
    var i := 0;
    while i < |sorted| - 1
      invariant 0 <= i && (i == 0 || i < |sorted|)
      invariant forall k :: 0 <= k < i ==> !Near(sorted[k], sorted[k + 1])
    {
      var delta := if sorted[i + 1] >= sorted[i] then sorted[i + 1] - sorted[i] else sorted[i] - sorted[i + 1];
      if delta <= CombinedGapMinutes {
        assert Near(sorted[i], sorted[i + 1]);
        found := true;
        break;
      }
      i := i + 1;
    }
  }

  /** The check of lines 130-140: the count, the sum, the sort and the scan. */
  method CombinedCheck(evs: seq<Event>) returns (combined: bool)
    ensures combined <==> CombinedLarge(evs)
  {
    combined := false;
    if |evs| > 1 {
      var total := TotalAttendance(evs);
      if total > LargeAttendance {
        combined := ScanNeighbours(Sort(Times(evs)));
      }
    }
  }
}
