/** The message splitter both alert scripts run before sending: lines are
    packed, each followed by a newline, into chunks of at most 1900
    characters, a new chunk being started when the next line would not fit. */
module Chunking {
  import opened PyText

  /** The per-message character budget. */
  const Budget: int := 1900

  /** The text of `lines` sent as one message: every line followed by `"\n"`. */
  function Flatten(lines: seq<string>): string {
    if lines == [] then "" else Flatten(lines[..|lines| - 1]) + lines[|lines| - 1] + "\n"
  }

  lemma FlattenNonEmpty(lines: seq<string>)
    ensures Flatten(lines) == "" <==> lines == []
  {
  }

  lemma FlattenExtend(lines: seq<string>, start: nat, i: nat)
    requires start <= i < |lines|
    ensures Flatten(lines[start..i + 1]) == Flatten(lines[start..i]) + lines[i] + "\n"
  {
    assert lines[start..i + 1][..i - start] == lines[start..i];
  }

  /** `bounds[j]` is the index of the first line of chunk `j`, and `bounds` ends
      at `end`: the chunks hold lines `0..end` in order, none of them split. */
  predicate Splits(lines: seq<string>, chunks: seq<string>, bounds: seq<nat>, end: nat) {
    && |bounds| == |chunks| + 1 && bounds[0] == 0 && bounds[|chunks|] == end && end <= |lines|
    && (forall j :: 0 <= j < |bounds| ==> bounds[j] <= end)
    && (forall j :: 0 <= j < |chunks| ==> bounds[j] <= bounds[j + 1])
    && (forall j :: 0 <= j < |chunks| ==> chunks[j] == Flatten(lines[bounds[j]..bounds[j + 1]]))
  }

  /** A chunk longer than the budget holds at most one line. */
  predicate OverOnlyIfSingle(chunks: seq<string>, bounds: seq<nat>)
    requires |bounds| == |chunks| + 1
  {
    forall j :: 0 <= j < |chunks| ==> |chunks[j]| <= Budget || bounds[j + 1] <= bounds[j] + 1
  }

  /** Every chunk after the first holds at least one line. */
  predicate OnlyFirstEmpty(chunks: seq<string>, bounds: seq<nat>)
    requires |bounds| == |chunks| + 1
  {
    forall j :: 0 < j < |chunks| ==> bounds[j] < bounds[j + 1] && chunks[j] != ""
  }

  /** Each of the first `n` chunks was closed because the line after it would
      have taken it over the budget. */
  predicate ClosedWhenFull(lines: seq<string>, chunks: seq<string>, bounds: seq<nat>, n: nat)
    requires |bounds| == |chunks| + 1 && n <= |chunks|
  {
    forall j :: 0 <= j < n ==> bounds[j + 1] < |lines| && |chunks[j]| + |lines[bounds[j + 1]]| + 1 > Budget
  }

  lemma AppendLine(lines: seq<string>, i: nat, done: string, chunk: string)
    requires i < |lines| && done + chunk == Flatten(lines[..i])
    ensures done + (chunk + lines[i] + "\n") == Flatten(lines[..i + 1])
  {
    FlattenExtend(lines, 0, i);
    assert lines[0..i] == lines[..i] && lines[0..i + 1] == lines[..i + 1];
    assert done + (chunk + lines[i] + "\n") == (done + chunk) + lines[i] + "\n";
  }

  lemma ConcatAppend(chunks: seq<string>, chunk: string)
    ensures Concat(chunks + [chunk]) == Concat(chunks) + chunk
  {
    assert (chunks + [chunk])[..|chunks|] == chunks;
  }

  lemma CloseChunk(lines: seq<string>, chunks: seq<string>, bounds: seq<nat>, start: nat, i: nat)
    requires Splits(lines, chunks, bounds, start) && start <= i <= |lines|
    ensures Splits(lines, chunks + [Flatten(lines[start..i])], bounds + [i], i)
  {
  }

  /** Closing the current chunk because line `i` does not fit keeps every
      property of the chunks closed so far. */
  lemma CloseFullChunk(lines: seq<string>, chunks: seq<string>, bounds: seq<nat>, start: nat, i: nat, chunk: string)
    requires Splits(lines, chunks, bounds, start) && start <= i < |lines|
    requires OverOnlyIfSingle(chunks, bounds) && OnlyFirstEmpty(chunks, bounds)
    requires ClosedWhenFull(lines, chunks, bounds, |chunks|)
    requires chunk == Flatten(lines[start..i]) && (|chunk| <= Budget || i - start <= 1)
    requires |chunks| > 0 ==> start < i
    requires |chunk| + |lines[i]| + 1 > Budget
    ensures Splits(lines, chunks + [chunk], bounds + [i], i)
    ensures OverOnlyIfSingle(chunks + [chunk], bounds + [i]) && OnlyFirstEmpty(chunks + [chunk], bounds + [i])
    ensures ClosedWhenFull(lines, chunks + [chunk], bounds + [i], |chunks| + 1)
  {
    CloseChunk(lines, chunks, bounds, start, i);
    if |chunks| > 0 {
      FlattenNonEmpty(lines[start..i]);
    }
  }

  /** The loop state after the first `i` lines: the chunks closed so far and
      the chunk being filled. A line that would take the current chunk over
      the budget first closes it, even when it is still empty. */
  function Pack(lines: seq<string>, i: nat): (seq<string>, string)
    requires i <= |lines|
  {
    if i == 0 then ([], "")
    else
      var (done, chunk) := Pack(lines, i - 1);
      var line := lines[i - 1];
      if |chunk| + |line| + 1 > Budget then (done + [chunk], line + "\n")
      else (done, chunk + line + "\n")
  }

  /** The chunks sent: the closed ones, then the last one unless it is empty. */
  function Chunks(lines: seq<string>): seq<string> {
    var (done, chunk) := Pack(lines, |lines|);
    if chunk != "" then done + [chunk] else done
  }

  /** The first line of every closed chunk, and of the chunk being filled. */
  ghost function PackBounds(lines: seq<string>, i: nat): (seq<nat>, nat)
    requires i <= |lines|
  {
    if i == 0 then ([0], 0)
    else
      var (done, chunk) := Pack(lines, i - 1);
      var (bounds, start) := PackBounds(lines, i - 1);
      if |chunk| + |lines[i - 1]| + 1 > Budget then (bounds + [i - 1], i - 1) else (bounds, start)
  }

  /** The first line of every chunk sent. */
  ghost function ChunkBounds(lines: seq<string>): seq<nat> {
    var (done, chunk) := Pack(lines, |lines|);
    var (bounds, start) := PackBounds(lines, |lines|);
    if chunk != "" then bounds + [|lines|] else bounds
  }

  /** What holds of a loop state `(done, chunk)` after line `i`, with
      `bounds` the first lines of the closed chunks and `start` the first
      line of the chunk being filled. */
  ghost predicate StateInvariant(lines: seq<string>, done: seq<string>, chunk: string, bounds: seq<nat>, start: nat, i: nat) {
    && start <= i <= |lines|
    && Splits(lines, done, bounds, start)
    && OverOnlyIfSingle(done, bounds) && OnlyFirstEmpty(done, bounds)
    && ClosedWhenFull(lines, done, bounds, |done|)
    && chunk == Flatten(lines[start..i])
    && (|chunk| <= Budget || i - start <= 1)
    && (|done| > 0 ==> start < i)
    && Concat(done) + chunk == Flatten(lines[..i])
  }

  /** What holds of the loop state after every line. */
  ghost predicate PackInvariant(lines: seq<string>, i: nat)
    requires i <= |lines|
  {
    StateInvariant(lines, Pack(lines, i).0, Pack(lines, i).1, PackBounds(lines, i).0, PackBounds(lines, i).1, i)
  }

  lemma {:induction false} PackKeepsInvariant(lines: seq<string>, i: nat)
    requires i <= |lines|
    ensures PackInvariant(lines, i)
  {
    if i > 0 {
      PackKeepsInvariant(lines, i - 1);
      PackInvariantStep(lines, i);
    } else {
      PackInvariantStart(lines);
    }
  }

  /** Before the first line: no chunk closed, an empty chunk being filled. */
  lemma PackInvariantStart(lines: seq<string>)
    ensures PackInvariant(lines, 0)
  {
    assert Pack(lines, 0) == ([], "") && PackBounds(lines, 0) == ([0], 0);
    assert lines[0..0] == [] && lines[..0] == [];
  }

  /** The pass of the loop over line `i - 1` keeps the invariant. */
  lemma PackInvariantStep(lines: seq<string>, i: nat)
    requires 0 < i <= |lines| && PackInvariant(lines, i - 1)
    ensures PackInvariant(lines, i)
  {
    if |Pack(lines, i - 1).1| + |lines[i - 1]| + 1 > Budget {
      PackInvariantClosing(lines, i);
    } else {
      PackInvariantFilling(lines, i);
    }
  }

  lemma PackInvariantClosing(lines: seq<string>, i: nat)
    requires 0 < i <= |lines| && PackInvariant(lines, i - 1)
    requires |Pack(lines, i - 1).1| + |lines[i - 1]| + 1 > Budget
    ensures PackInvariant(lines, i)
  {
    var p, b := Pack(lines, i - 1), PackBounds(lines, i - 1);
    var q, c := Pack(lines, i), PackBounds(lines, i);
    PackStep(lines, i);
    StateClosing(lines, p.0, p.1, b.0, b.1, i);
    assert q.0 == p.0 + [p.1] && q.1 == lines[i - 1] + "\n" && c.0 == b.0 + [i - 1] && c.1 == i - 1;
  }

  lemma PackInvariantFilling(lines: seq<string>, i: nat)
    requires 0 < i <= |lines| && PackInvariant(lines, i - 1)
    requires |Pack(lines, i - 1).1| + |lines[i - 1]| + 1 <= Budget
    ensures PackInvariant(lines, i)
  {
    var p, b := Pack(lines, i - 1), PackBounds(lines, i - 1);
    var q, c := Pack(lines, i), PackBounds(lines, i);
    PackStep(lines, i);
    StateFilling(lines, p.0, p.1, b.0, b.1, i);
    assert q.0 == p.0 && q.1 == p.1 + lines[i - 1] + "\n" && c == b;
  }

  /** Closing a chunk before line `i - 1` keeps the text intact. */
  lemma CloseKeepsText(lines: seq<string>, i: nat, done: seq<string>, chunk: string)
    requires 0 < i <= |lines| && Concat(done) + chunk == Flatten(lines[..i - 1])
    ensures Concat(done + [chunk]) + (lines[i - 1] + "\n") == Flatten(lines[..i])
    ensures lines[i - 1] + "\n" == Flatten(lines[i - 1..i])
  {
    var k := i - 1;
    ConcatAppend(done, chunk);
    AppendLine(lines, k, Concat(done + [chunk]), "");
    assert "" + lines[k] + "\n" == lines[k] + "\n";
    FlattenExtend(lines, k, k);
    assert lines[k..k] == [];
    assert k + 1 == i;
  }

  /** Line `i - 1` closes the current chunk and starts the next one. */
  lemma StateClosing(lines: seq<string>, done: seq<string>, chunk: string, bounds: seq<nat>, start: nat, i: nat)
    requires 0 < i <= |lines| && StateInvariant(lines, done, chunk, bounds, start, i - 1)
    requires |chunk| + |lines[i - 1]| + 1 > Budget
    ensures StateInvariant(lines, done + [chunk], lines[i - 1] + "\n", bounds + [i - 1], i - 1, i)
  {
    CloseFullChunk(lines, done, bounds, start, i - 1, chunk);
    CloseKeepsText(lines, i, done, chunk);
  }

  /** Line `i - 1` fits in the current chunk. */
  lemma StateFilling(lines: seq<string>, done: seq<string>, chunk: string, bounds: seq<nat>, start: nat, i: nat)
    requires 0 < i <= |lines| && StateInvariant(lines, done, chunk, bounds, start, i - 1)
    requires |chunk| + |lines[i - 1]| + 1 <= Budget
    ensures StateInvariant(lines, done, chunk + lines[i - 1] + "\n", bounds, start, i)
  {
    FlattenExtend(lines, start, i - 1);
    AppendLine(lines, i - 1, Concat(done), chunk);
  }

  /** The state after line `i - 1` follows from the state before it. */
  lemma PackStep(lines: seq<string>, i: nat)
    requires 0 < i <= |lines|
    ensures var p := Pack(lines, i - 1);
      Pack(lines, i) == if |p.1| + |lines[i - 1]| + 1 > Budget then (p.0 + [p.1], lines[i - 1] + "\n") else (p.0, p.1 + lines[i - 1] + "\n")
    ensures var p, b := Pack(lines, i - 1), PackBounds(lines, i - 1);
      PackBounds(lines, i) == if |p.1| + |lines[i - 1]| + 1 > Budget then (b.0 + [i - 1], i - 1) else b
  {
  }

  /** The chunks concatenate to the whole text, so nothing is lost, reordered
      or added. */
  lemma {:induction false} ChunksConcat(lines: seq<string>)
    ensures Concat(Chunks(lines)) == Flatten(lines)
  {
    PackKeepsInvariant(lines, |lines|);
    var (done, chunk) := Pack(lines, |lines|);
    assert lines[..|lines|] == lines;
    if chunk != "" {
      ConcatAppend(done, chunk);
    }
  }

  /** No line is split: chunk `j` is exactly lines `bounds[j]..bounds[j+1]`,
      each with its newline. A chunk over the budget holds one line; only the
      first chunk can be empty (the first line alone overflows); and every
      chunk but the last was closed because the next line would not fit. */
  lemma {:induction false} ChunksKeepLines(lines: seq<string>)
    ensures Splits(lines, Chunks(lines), ChunkBounds(lines), |lines|)
    ensures OverOnlyIfSingle(Chunks(lines), ChunkBounds(lines))
    ensures OnlyFirstEmpty(Chunks(lines), ChunkBounds(lines))
    ensures |Chunks(lines)| > 0 ==> ClosedWhenFull(lines, Chunks(lines), ChunkBounds(lines), |Chunks(lines)| - 1)
    ensures |Chunks(lines)| > 0 ==> Chunks(lines)[|Chunks(lines)| - 1] != ""
  {
    PackKeepsInvariant(lines, |lines|);
    var (done, chunk) := Pack(lines, |lines|);
    var (bounds, start) := PackBounds(lines, |lines|);
    if chunk != "" {
      FlattenNonEmpty(lines[start..|lines|]);
      assert lines[start..|lines|] == lines[start..];
      CloseLastChunk(lines, done, bounds, start, chunk);
    } else {
      FlattenNonEmpty(lines[start..|lines|]);
    }
  }

  lemma FlattenOne(piece: seq<string>)
    ensures |piece| == 1 ==> Flatten(piece) == piece[0] + "\n"
  {
    if |piece| == 1 {
      assert piece[..0] == [];
    }
  }

  /** When every line leaves room for its newline, every chunk sent is
      non-empty and within the budget. */
  lemma {:induction false} ChunksWithinBudget(lines: seq<string>)
    requires forall k :: 0 <= k < |lines| ==> |lines[k]| < Budget
    ensures forall j :: 0 <= j < |Chunks(lines)| ==> 0 < |Chunks(lines)[j]| <= Budget
  {
    ChunksKeepLines(lines);
    var chunks, bounds := Chunks(lines), ChunkBounds(lines);
    forall j | 0 <= j < |chunks| ensures 0 < |chunks[j]| <= Budget {
      var piece := lines[bounds[j]..bounds[j + 1]];
      FlattenNonEmpty(piece);
      FlattenOne(piece);
      if j == 0 && |chunks| > 1 {
        assert |chunks[0]| + |lines[bounds[1]]| + 1 > Budget;
      }
    }
  }

  /** Closing the last chunk after the final line. */
  lemma CloseLastChunk(lines: seq<string>, chunks: seq<string>, bounds: seq<nat>, start: nat, chunk: string)
    requires Splits(lines, chunks, bounds, start) && start < |lines|
    requires OverOnlyIfSingle(chunks, bounds) && OnlyFirstEmpty(chunks, bounds)
    requires ClosedWhenFull(lines, chunks, bounds, |chunks|)
    requires chunk == Flatten(lines[start..]) && (|chunk| <= Budget || |lines| - start <= 1)
    ensures Splits(lines, chunks + [chunk], bounds + [|lines|], |lines|)
    ensures OverOnlyIfSingle(chunks + [chunk], bounds + [|lines|]) && OnlyFirstEmpty(chunks + [chunk], bounds + [|lines|])
    ensures ClosedWhenFull(lines, chunks + [chunk], bounds + [|lines|], |chunks|)
  {
    assert lines[start..] == lines[start..|lines|];
    CloseChunk(lines, chunks, bounds, start, |lines|);
    FlattenNonEmpty(lines[start..]);
  }

  /** The chunking loop of both alert scripts. */
  method Chunk(lines: seq<string>) returns (chunks: seq<string>)
    ensures chunks == Chunks(lines)
    ensures Concat(chunks) == Flatten(lines)
  {
    chunks := [];
    var chunk := "";
    var i := 0;
    while i < |lines|
      invariant 0 <= i <= |lines|
      invariant (chunks, chunk) == Pack(lines, i)
    {
      var line := lines[i];
      if |chunk| + |line| + 1 > Budget {
        chunks := chunks + [chunk];
        chunk := "";
      }
      chunk := chunk + line + "\n";
      assert "" + line + "\n" == line + "\n";
      i := i + 1;
    }
    if chunk != "" {
      chunks := chunks + [chunk];
    }
    ChunksConcat(lines);
  }
}
