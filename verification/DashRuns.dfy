/** Runs of dashes in rendered text (readerDocument.ts). */
module DashRuns {
  import opened Arithmetic
  import opened Graphemes

  const DASH := "\U{2015}"
  const MAX_INLINE_LENGTH := 12

  /** Chunks of 1 to 12 dashes that add up to the run, all but the last of them full. */
  ghost predicate Chunked(chunks: seq<int>, total: int) {
    && Sum(chunks) == total
    && (forall i | 0 <= i < |chunks| :: 0 < chunks[i] <= MAX_INLINE_LENGTH)
    && (forall i | 0 <= i < |chunks| - 1 :: chunks[i] == MAX_INLINE_LENGTH)
  }

  function Sum(chunks: seq<int>): int {
    if chunks == [] then 0 else Sum(chunks[..|chunks| - 1]) + chunks[|chunks| - 1]
  }

  function DashChunks(runLength: int): seq<int>
    decreases runLength
  {
    if runLength <= 0 then [] else [Min(runLength, MAX_INLINE_LENGTH)] + DashChunks(runLength - MAX_INLINE_LENGTH)
  }

  lemma {:induction false} SumConcat(a: seq<int>, b: seq<int>)
    ensures Sum(a + b) == Sum(a) + Sum(b)
  {
    if b == [] {
      assert a + b == a;
    } else {
      assert (a + b)[..|a + b| - 1] == a + b[..|b| - 1];
      SumConcat(a, b[..|b| - 1]);
    }
  }

  lemma {:induction false} DashChunksAreChunked(runLength: nat)
    ensures Chunked(DashChunks(runLength), runLength)
  {
    if runLength > MAX_INLINE_LENGTH {
      DashChunksAreChunked(runLength - MAX_INLINE_LENGTH);
      SumConcat([MAX_INLINE_LENGTH], DashChunks(runLength - MAX_INLINE_LENGTH));
    } else if runLength > 0 {
      assert DashChunks(runLength) == [runLength];
      assert [runLength][..0] == [];
    }
  }

  lemma ChunkedSnoc(chunks: seq<int>, total: int, length: int)
    requires Chunked(chunks, total) && (forall i | 0 <= i < |chunks| :: chunks[i] == MAX_INLINE_LENGTH)
    requires 0 < length <= MAX_INLINE_LENGTH
    ensures Chunked(chunks + [length], total + length)
  {
    assert (chunks + [length])[..|chunks|] == chunks;
  }

  method SplitDashRunLength(runLength: nat) returns (chunks: seq<int>)
    ensures chunks == DashChunks(runLength) && Chunked(chunks, runLength)
  {
    chunks := [];
    var remaining: int := runLength;
    while remaining > 0
      invariant Chunked(chunks, runLength - Max(remaining, 0))
      invariant remaining > 0 ==> forall i | 0 <= i < |chunks| :: chunks[i] == MAX_INLINE_LENGTH
      invariant chunks + DashChunks(remaining) == DashChunks(runLength)
    {
      ChunkedSnoc(chunks, runLength - remaining, Min(remaining, MAX_INLINE_LENGTH));
      chunks := chunks + [Min(remaining, MAX_INLINE_LENGTH)];
      remaining := remaining - MAX_INLINE_LENGTH;
    }
  }

  datatype Edge = Whole | Start | Middle | End

  /** Which edges of a split run are drawn. */
  function EdgeOf(index: nat, count: nat): Edge {
    if count == 1 then Whole else if index == 0 then Start else if index + 1 == count then End else Middle
  }

  // ----- visible text -----

  /** A piece of rendered text: wrapped dashes, or one segment. */
  datatype Part = Run(edge: Edge, length: int) | Single(segment: string)

  function Repeat(s: string, n: int): string decreases n { if n <= 0 then "" else Repeat(s, n - 1) + s }

  function PartText(part: Part): string { if part.Run? then Repeat(DASH, part.length) else part.segment }

  function PartsText(parts: seq<Part>): string {
    if parts == [] then "" else PartsText(parts[..|parts| - 1]) + PartText(parts[|parts| - 1])
  }

  predicate DashAt(segments: seq<string>, i: int) { 0 <= i < |segments| && segments[i] == DASH }

  /** A dash without a dash on either side. */
  predicate Isolated(segments: seq<string>, i: int) {
    DashAt(segments, i) && !DashAt(segments, i - 1) && !DashAt(segments, i + 1)
  }

  /** The first `n` segments without the isolated dashes. */
  function KeptText(segments: seq<string>, n: nat): string
    requires n <= |segments|
  {
    if n == 0 then "" else KeptText(segments, n - 1) + if Isolated(segments, n - 1) then "" else segments[n - 1]
  }

  lemma {:induction false} RepeatAdd(s: string, a: nat, b: nat)
    ensures Repeat(s, a + b) == Repeat(s, a) + Repeat(s, b)
  {
    if b > 0 { RepeatAdd(s, a, b - 1); }
  }

  lemma {:induction false} PartsTextSnoc(parts: seq<Part>, part: Part)
    ensures PartsText(parts + [part]) == PartsText(parts) + PartText(part)
  {
    assert (parts + [part])[..|parts|] == parts;
  }

  /** A run of at least two dashes is kept. */
  lemma {:induction false} KeptRun(segments: seq<string>, start: nat, index: nat, end: nat)
    requires start <= index <= end <= |segments| && end - start >= 2 && forall i | start <= i < end ::
      DashAt(segments, i)
    ensures KeptText(segments, index) == KeptText(segments, start) + Repeat(DASH, index - start)
    decreases index
  {
    if start < index {
      KeptRun(segments, start, index - 1, end);
      assert DashAt(segments, index - 1);
      assert DashAt(segments, if index - 1 == start then index else index - 2);
    }
  }

  lemma {:induction false} PartsTextConcat(a: seq<Part>, b: seq<Part>)
    ensures PartsText(a + b) == PartsText(a) + PartsText(b)
  {
    if b == [] {
      assert a + b == a;
    } else {
      assert (a + b)[..|a + b| - 1] == a + b[..|b| - 1];
      PartsTextConcat(a, b[..|b| - 1]);
    }
  }

  /** One part for each chunk, with the edges of its place. */
  function RunParts(chunks: seq<int>): seq<Part> {
    seq(|chunks|, i requires 0 <= i < |chunks| => Run(EdgeOf(i, |chunks|), chunks[i]))
  }

  lemma {:induction false} RunPartsText(chunks: seq<int>, parts: seq<Part>)
    requires |parts| == |chunks| && forall i | 0 <= i < |chunks| :: parts[i].Run? && parts[i].length == chunks[i] >= 0
    ensures Sum(chunks) >= 0 && PartsText(parts) == Repeat(DASH, Sum(chunks))
  {
    if chunks != [] {
      RunPartsText(chunks[..|chunks| - 1], parts[..|parts| - 1]);
      RepeatAdd(DASH, Sum(chunks[..|chunks| - 1]), chunks[|chunks| - 1]);
    }
  }

  method RenderDashRunFragments(runLength: nat) returns (parts: seq<Part>)
    ensures parts == RunParts(DashChunks(runLength))
    ensures PartsText(parts) == Repeat(DASH, runLength)
  {
    var lengths := SplitDashRunLength(runLength);
    parts := RunParts(lengths);
    RunPartsText(lengths, parts);
  }

  /** A run of up to twelve dashes is drawn whole; a longer one as a start, middles and an end. */
  lemma {:induction false} EdgesOnce(runLength: nat)
    ensures var parts := RunParts(DashChunks(runLength));
      && (parts != [] <==> runLength > 0) && (|parts| > 1 <==> runLength > MAX_INLINE_LENGTH)
      && (|parts| == 1 ==> parts[0].edge == Whole)
      && (|parts| > 1 ==> parts[0].edge == Start && parts[|parts| - 1].edge == End)
      && (forall i | 0 < i < |parts| - 1 :: parts[i].edge == Middle)
      && forall i | 0 <= i < |parts| :: 0 < parts[i].length <= MAX_INLINE_LENGTH
  {
    DashChunksAreChunked(runLength);
  }

  /** How many of the first `n` segments are dashes next to another. */
  function JoinedCount(segments: seq<string>, n: nat): nat
    requires n <= |segments|
  {
    if n == 0 then 0
    else JoinedCount(segments, n - 1) + if DashAt(segments, n - 1) && !Isolated(segments, n - 1) then 1 else 0
  }

  /** How many dashes are wrapped. */
  function WrappedCount(parts: seq<Part>): int {
    if parts == [] then 0
    else WrappedCount(parts[..|parts| - 1]) + if parts[|parts| - 1].Run? then parts[|parts| - 1].length else 0
  }

  lemma {:induction false} WrappedConcat(a: seq<Part>, b: seq<Part>)
    ensures WrappedCount(a + b) == WrappedCount(a) + WrappedCount(b)
  {
    if b == [] {
      assert a + b == a;
    } else {
      assert (a + b)[..|a + b| - 1] == a + b[..|b| - 1];
      WrappedConcat(a, b[..|b| - 1]);
    }
  }

  lemma {:induction false} WrappedChunks(chunks: seq<int>, parts: seq<Part>)
    requires |parts| == |chunks| && forall i | 0 <= i < |chunks| :: parts[i].Run? && parts[i].length == chunks[i]
    ensures WrappedCount(parts) == Sum(chunks)
  {
    if chunks != [] { WrappedChunks(chunks[..|chunks| - 1], parts[..|parts| - 1]); }
  }

  lemma {:induction false} JoinedRun(segments: seq<string>, start: nat, index: nat, end: nat)
    requires start <= index <= end <= |segments| && end - start >= 2 && forall i | start <= i < end ::
      DashAt(segments, i)
    ensures JoinedCount(segments, index) == JoinedCount(segments, start) + (index - start)
    decreases index
  {
    if start < index {
      JoinedRun(segments, start, index - 1, end);
      assert DashAt(segments, index - 1);
      assert DashAt(segments, if index - 1 == start then index else index - 2);
    }
  }

  /** A segment that is no dash by itself, or all parts of one run of two dashes or more. */
  ghost predicate Drawn(group: seq<Part>) {
    || (|group| == 1 && group[0].Single? && group[0].segment != DASH)
    || exists n: nat :: n >= 2 && group == RunParts(DashChunks(n))
  }

  function AllParts(groups: seq<seq<Part>>): seq<Part> {
    if groups == [] then [] else AllParts(groups[..|groups| - 1]) + groups[|groups| - 1]
  }

  /** The end of the dashes that start here. */
  method RunEnd(segments: seq<string>, start: nat) returns (end: nat)
    requires start < |segments|
    ensures start <= end <= |segments| && !DashAt(segments, end) && forall i | start <= i < end :: DashAt(segments, i)
  {
    end := start;
    while end < |segments| && segments[end] == DASH
      invariant start <= end <= |segments| && forall i | start <= i < end :: DashAt(segments, i)
    {
      end := end + 1;
    }
  }

  /** Between two pieces: not inside a run. */
  predicate Between(segments: seq<string>, index: int) { DashAt(segments, index - 1) ==> !DashAt(segments, index) }

  /** One turn of the loop below: a run of dashes, or one segment, before which a single dash is skipped. */
  method RenderNext(segments: seq<string>, start: nat) returns (parts: seq<Part>, index: nat)
    requires start < |segments| && Between(segments, start)
    ensures start < index <= |segments| && Between(segments, index)
    ensures KeptText(segments, index) == KeptText(segments, start) + PartsText(parts)
    ensures JoinedCount(segments, index) == JoinedCount(segments, start) + WrappedCount(parts) && Drawn(parts)
  {
    index := start;
    if segments[start] == DASH {
      index := RunEnd(segments, start);
      if index - start >= 2 {
        parts := RenderRun(segments, start, index);
        return;
      }
      assert DashAt(segments, start) && index == start + 1;
    }
    parts, index := RenderSegment(segments, start, index);
  }

  method RenderRun(segments: seq<string>, start: nat, end: nat) returns (parts: seq<Part>)
    requires start + 2 <= end <= |segments| && forall i | start <= i < end :: DashAt(segments, i)
    ensures KeptText(segments, end) == KeptText(segments, start) + PartsText(parts)
    ensures JoinedCount(segments, end) == JoinedCount(segments, start) + WrappedCount(parts) && Drawn(parts)
  {
    parts := RenderDashRunFragments(end - start);
    KeptRun(segments, start, end, end);
    JoinedRun(segments, start, end, end);
    DashChunksAreChunked(end - start);
    WrappedChunks(DashChunks(end - start), parts);
  }

  method RenderSegment(segments: seq<string>, ghost start: nat, index: nat) returns (parts: seq<Part>, next: nat)
    requires start < |segments| && start <= index <= start + 1 && !DashAt(segments, index)
    requires index == start + 1 ==> DashAt(segments, start) && !DashAt(segments, start - 1)
    ensures start < next <= |segments| && Between(segments, next)
    ensures KeptText(segments, next) == KeptText(segments, start) + PartsText(parts)
    ensures JoinedCount(segments, next) == JoinedCount(segments, start) + WrappedCount(parts) && Drawn(parts)
  {
    NoneJoined(segments, start, index);
    StepOver(segments, start, index);
    if index < |segments| { return [Single(segments[index])], index + 1; }
    return [Single("")], index;
  }

  /** Stepping over at most one dash and past the next segment, no dash next to another is passed. */
  lemma NoneJoined(segments: seq<string>, start: nat, index: nat)
    requires start < |segments| && start <= index <= start + 1 && !DashAt(segments, index)
    requires index == start + 1 ==> DashAt(segments, start) && !DashAt(segments, start - 1)
    ensures var next := if index < |segments| then index + 1 else index;
      JoinedCount(segments, next) == JoinedCount(segments, start)
    ensures forall segment :: WrappedCount([Single(segment)]) == 0
  {
    forall segment ensures WrappedCount([Single(segment)]) == 0 { assert [Single(segment)][..0] == []; }
    if index == start + 1 { assert Isolated(segments, start); }
  }

  /** The parts after some turns: the text so far without the isolated dashes, whole runs and single segments, and as
      many dashes wrapped as there are next to another. */
  ghost predicate Drawing(segments: seq<string>, index: nat, parts: seq<Part>, groups: seq<seq<Part>>)
    requires index <= |segments|
  {
    && PartsText(parts) == KeptText(segments, index) && WrappedCount(parts) == JoinedCount(segments, index)
    && parts == AllParts(groups) && AllDrawn(groups)
  }

  ghost predicate AllDrawn(groups: seq<seq<Part>>) { forall i | 0 <= i < |groups| :: Drawn(groups[i]) }

  lemma DrawnSnoc(groups: seq<seq<Part>>, more: seq<Part>)
    requires AllDrawn(groups) && Drawn(more)
    ensures AllDrawn(groups + [more]) && AllParts(groups + [more]) == AllParts(groups) + more
  {
    var all := groups + [more];
    assert all[..|groups|] == groups;
    forall i | 0 <= i < |all| ensures Drawn(all[i]) { if i < |groups| { assert all[i] == groups[i]; } }
  }

  lemma DrawNext(segments: seq<string>, start: nat, index: nat, parts: seq<Part>, groups: seq<seq<Part>>,
                 more: seq<Part>)
    requires start <= index <= |segments| && Drawing(segments, start, parts, groups)
    requires KeptText(segments, index) == KeptText(segments, start) + PartsText(more) && Drawn(more)
    requires JoinedCount(segments, index) == JoinedCount(segments, start) + WrappedCount(more)
    ensures Drawing(segments, index, parts + more, groups + [more])
  {
    PartsTextConcat(parts, more);
    WrappedConcat(parts, more);
    DrawnSnoc(groups, more);
  }

  /** The visible text is that of the segments without the isolated dashes: each run of two dashes or more is wrapped
      as a whole and nothing else is; no dash is left bare. */
  method RenderVisibilityFragments(cut: Segmenter, text: string)
    returns (parts: seq<Part>, ghost groups: seq<seq<Part>>)
    ensures Drawing(cut(text), |cut(text)|, parts, groups)
  {
    var segments := cut(text);
    parts, groups := [], [];
    var index := 0;
    while index < |segments|
      invariant 0 <= index <= |segments| && Drawing(segments, index, parts, groups) && Between(segments, index)
    {
      ghost var start := index;
      var more;
      more, index := RenderNext(segments, index);
      DrawNext(segments, start, index, parts, groups, more);
      parts, groups := parts + more, groups + [more];
    }
  }

  /** Stepping over at most one dash and past the next segment, only the dash is dropped. */
  lemma StepOver(segments: seq<string>, start: nat, index: nat)
    requires start < |segments| && start <= index <= start + 1 && !DashAt(segments, index)
    requires index == start + 1 ==> DashAt(segments, start) && !DashAt(segments, start - 1)
    ensures var next := if index < |segments| then index + 1 else index;
      Between(segments, next) && KeptText(segments, next)
        == KeptText(segments, start) + PartsText([Single(if index < |segments| then segments[index] else "")])
  {
    assert KeptText(segments, index) == KeptText(segments, start) by {
      if index == start + 1 { DropsIsolated(segments, start); }
    }
    SingleText(if index < |segments| then segments[index] else "");
    if index < |segments| { KeepsSegment(segments, index); }
  }

  lemma DropsIsolated(segments: seq<string>, i: nat)
    requires i < |segments| && Isolated(segments, i)
    ensures KeptText(segments, i + 1) == KeptText(segments, i)
  {
    assert KeptText(segments, i) + "" == KeptText(segments, i);
  }

  lemma KeepsSegment(segments: seq<string>, i: nat)
    requires i < |segments| && !DashAt(segments, i)
    ensures KeptText(segments, i + 1) == KeptText(segments, i) + segments[i]
  {
    assert !Isolated(segments, i);
  }

  lemma SingleText(segment: string)
    ensures PartsText([Single(segment)]) == segment
  {
    PartsTextSnoc([], Single(segment));
    assert [] + [Single(segment)] == [Single(segment)];
    assert "" + segment == segment;
  }

  /** Rendering keeps the text exactly if it has no isolated dash. */
  lemma KeptIffNoneIsolated(cut: Segmenter, text: string)
    requires Segments(cut)
    ensures KeptText(cut(text), |cut(text)|) == text <==> forall i :: !Isolated(cut(text), i)
  {
    var segments := cut(text);
    assert Join(segments) == text && segments[..|segments|] == segments;
    KeptLength(segments, |segments|);
    if i :| Isolated(segments, i) {
      assert i < |segments|;
    } else {
      NothingDropped(segments, |segments|);
    }
  }

  lemma {:induction false} NothingDropped(segments: seq<string>, n: nat)
    requires n <= |segments| && forall i | 0 <= i < n :: !Isolated(segments, i)
    ensures KeptText(segments, n) == Join(segments[..n])
  {
    if n > 0 {
      NothingDropped(segments, n - 1);
      assert segments[..n][..n - 1] == segments[..n - 1];
    }
  }

  lemma {:induction false} KeptLength(segments: seq<string>, n: nat)
    requires n <= |segments|
    ensures |KeptText(segments, n)| <= |Join(segments[..n])|
    ensures (exists i | 0 <= i < n :: Isolated(segments, i)) ==> |KeptText(segments, n)| < |Join(segments[..n])|
  {
    if n > 0 {
      KeptLength(segments, n - 1);
      assert segments[..n][..n - 1] == segments[..n - 1];
    }
  }

  /** A text of one dash, cut into one segment, is rendered as nothing. */
  lemma SingleDashIsLost(cut: Segmenter)
    requires Segments(cut) && cut(DASH) == [DASH]
    ensures KeptText(cut(DASH), |cut(DASH)|) == ""
  {
    assert Isolated([DASH], 0);
    assert KeptText([DASH], 0) == "";
  }
}
