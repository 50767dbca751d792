/** Grouping speech fragments into chunks (readerSpeech.ts). */
module SpeechChunks {
  import opened Ordering
  import opened Arithmetic
  import opened Graphemes
  import opened SpeechFragments
  import opened SpeechMaps
  import opened SpeechAnchors

  type Group = seq<Fragment>

  function Flatten(groups: seq<Group>): seq<Fragment> {
    if groups == [] then [] else Flatten(groups[..|groups| - 1]) + groups[|groups| - 1]
  }

  function Size(cut: Segmenter, group: Group): nat {
    if group == [] then 0 else Size(cut, group[..|group| - 1]) + CountGraphemes(cut, group[|group| - 1].text)
  }

  /** Long enough and at the end of a line. */
  predicate Complete(cut: Segmenter, group: Group, target: int) {
    group != [] && Size(cut, group) >= target && EndsLine(group[|group| - 1].text)
  }

  predicate EndsLine(text: string) { text != "" && text[|text| - 1] == '\n' }

  /** A group within the maximum, unless it is one fragment, that was not complete before its last fragment. */
  ghost predicate Built(cut: Segmenter, group: Group, max: int, target: int) {
    && group != []
    && (|group| > 1 ==>
          var before := group[..|group| - 1];
          Built(cut, before, max, target) && !Complete(cut, before, target) && Size(cut, group) <= max)
  }

  /** A group ends where it is complete or the next fragment would exceed the maximum. */
  ghost predicate Ends(cut: Segmenter, group: Group, next: Group, max: int, target: int) {
    next != [] && (Complete(cut, group, target) || Size(cut, group) + CountGraphemes(cut, next[0].text) > max)
  }

  ghost predicate Grouped(cut: Segmenter, groups: seq<Group>, max: int, target: int) {
    groups != [] ==>
      && Grouped(cut, groups[..|groups| - 1], max, target) && Built(cut, groups[|groups| - 1], max, target)
      && (|groups| > 1 ==> Ends(cut, groups[|groups| - 2], groups[|groups| - 1], max, target))
  }

  /** Enough graphemes, the last fragment ending with a line feed. */
  ghost predicate EnoughAt(cut: Segmenter, group: Group, k: nat, target: int)
    requires 0 < k <= |group|
  {
    var last := group[k - 1].text;
    Size(cut, group[..k]) >= target && last != "" && last[|last| - 1] == '\n'
  }

  lemma {:induction false} BuiltUp(cut: Segmenter, group: Group, max: int, target: int, k: nat)
    requires Built(cut, group, max, target) && 0 < k < |group|
    ensures !EnoughAt(cut, group, k, target) && Size(cut, group) <= max
  {
    var before := group[..|group| - 1];
    assert before[..k] == group[..k];
    if k < |before| { BuiltUp(cut, before, max, target, k); } else { assert group[..k] == before; }
  }

  /** Each group of two fragments or more is within the maximum; none has enough before its last fragment; and each but
      the last has enough with it or could not take the next fragment. */
  lemma {:induction false} GroupsClose(cut: Segmenter, groups: seq<Group>, max: int, target: int, i: nat)
    requires Grouped(cut, groups, max, target) && i < |groups|
    ensures groups[i] != [] && (|groups[i]| > 1 ==> Size(cut, groups[i]) <= max)
    ensures forall k | 0 < k < |groups[i]| :: !EnoughAt(cut, groups[i], k, target)
    ensures i + 1 < |groups| ==>
      groups[i + 1] != [] && (EnoughAt(cut, groups[i], |groups[i]|, target)
        || Size(cut, groups[i]) + CountGraphemes(cut, groups[i + 1][0].text) > max)
  {
    var before, group := groups[..|groups| - 1], groups[i];
    if i < |before| {
      GroupsClose(cut, before, max, target, i);
      if i + 1 == |before| { assert group[..|group|] == group; } else { assert before[i + 1] == groups[i + 1]; }
    } else {
      forall k | 0 < k < |group| ensures !EnoughAt(cut, group, k, target) { BuiltUp(cut, group, max, target, k); }
      if |group| > 1 { BuiltUp(cut, group, max, target, 1); }
    }
  }

  type Maker = Group -> Option<Chunk>

  /** The chunks that `make` makes of the groups. */
  function ChunksOf(make: Maker, groups: seq<Group>): seq<Chunk> {
    if groups == [] then [] else ChunksOf(make, groups[..|groups| - 1]) + ToSeq(make(groups[|groups| - 1]))
  }

  function ToSeq(chunk: Option<Chunk>): seq<Chunk> { if chunk.Some? then [chunk.value] else [] }

  /** A group makes a chunk if it leaves something to say. */
  function MakeChunk(group: Group): Option<Chunk> {
    if group == [] || ChunkOf(group).text == "" then None else Some(ChunkOf(group))
  }

  /** Groups so far, the last of which is open if `current` is not empty. */
  ghost predicate Collecting(cut: Segmenter, make: Maker, groups: seq<Group>, current: Group, chunks: seq<Chunk>,
                             max: int, target: int)
  {
    && Grouped(cut, groups, max, target)
    && (if current == [] then
          chunks == ChunksOf(make, groups) && (groups != [] ==> Complete(cut, groups[|groups| - 1], target))
        else
          && groups != [] && groups[|groups| - 1] == current
          && chunks == ChunksOf(make, groups[..|groups| - 1]) && !Complete(cut, current, target))
  }

  lemma {:induction false} AddGroup(cut: Segmenter, groups: seq<Group>, f: Fragment, max: int, target: int)
    requires Grouped(cut, groups, max, target)
    requires groups != [] ==> Ends(cut, groups[|groups| - 1], [f], max, target)
    ensures Grouped(cut, groups + [[f]], max, target) && Flatten(groups + [[f]]) == Flatten(groups) + [f]
  {
    assert (groups + [[f]])[..|groups|] == groups;
  }

  lemma {:induction false} ExtendGroup(cut: Segmenter, groups: seq<Group>, open: Group, f: Fragment, max: int,
                                       target: int)
    requires Grouped(cut, groups + [open], max, target) && !Complete(cut, open, target)
    requires Size(cut, open) + CountGraphemes(cut, f.text) <= max
    ensures Grouped(cut, groups + [open + [f]], max, target)
      && Flatten(groups + [open + [f]]) == Flatten(groups + [open]) + [f]
  {
    assert (groups + [open])[..|groups|] == groups && (groups + [open + [f]])[..|groups|] == groups;
    assert (open + [f])[..|open|] == open;
    assert Built(cut, open, max, target);
    assert Built(cut, open + [f], max, target);
    assert Flatten(groups) + (open + [f]) == Flatten(groups) + open + [f];
    if groups != [] { assert Ends(cut, groups[|groups| - 1], open + [f], max, target); }
  }

  lemma {:induction false} SizeSnoc(cut: Segmenter, group: Group, f: Fragment)
    ensures Size(cut, group + [f]) == Size(cut, group) + CountGraphemes(cut, f.text)
  {
    assert (group + [f])[..|group|] == group;
  }

  /** The fragment may open a group or join the open one. */
  ghost predicate Takes(cut: Segmenter, make: Maker, groups: seq<Group>, current: Group, chunks: seq<Chunk>,
                        f: Fragment, max: int, target: int)
  {
    && Grouped(cut, groups, max, target)
    && (if current == [] then groups != [] ==> Ends(cut, groups[|groups| - 1], [f], max, target)
        else
          && groups != [] && groups[|groups| - 1] == current
          && !Complete(cut, current, target) && Size(cut, current) + CountGraphemes(cut, f.text) <= max)
    && chunks == ChunksOf(make, if current == [] then groups else groups[..|groups| - 1])
  }

  /** The next fragment opens a group or joins the open one. */
  lemma JoinGroup(cut: Segmenter, make: Maker, groups: seq<Group>, current: Group, chunks: seq<Chunk>, f: Fragment,
                  max: int, target: int)
    returns (closed: seq<Group>)
    requires Takes(cut, make, groups, current, chunks, f, max, target)
    ensures Grouped(cut, closed + [current + [f]], max, target)
      && Flatten(closed + [current + [f]]) == Flatten(groups) + [f]
    ensures chunks == ChunksOf(make, closed)
  {
    if current == [] {
      closed := groups;
      AddGroup(cut, groups, f, max, target);
      assert current + [f] == [f];
    } else {
      closed := groups[..|groups| - 1];
      assert closed + [current] == groups;
      ExtendGroup(cut, closed, current, f, max, target);
    }
  }

  /** `make` makes the chunks; in the proofs below it does not matter how. */
  ghost predicate Makes(make: Maker) { forall group {:trigger MakeChunk(group)} :: make(group) == MakeChunk(group) }

  method Flush(ghost make: Maker, current: Group, chunks: seq<Chunk>) returns (chunks': seq<Chunk>)
    requires Makes(make)
    ensures chunks' == chunks + ToSeq(make(current))
  {
    assert make(current) == MakeChunk(current);
    if current == [] { return chunks; }
    var text, anchors := BuildReaderSpeechChunkTextAndAnchors(current);
    MakeChunkIs(current, text, anchors);
    if text == "" { return chunks; }
    chunks' := chunks + [Chunk(current[0].start, current[|current| - 1].end, text, anchors)];
  }

  lemma {:induction false} MakeChunkIs(group: Group, text: string, anchors: seq<Anchor>)
    requires group != [] && text == Normalized(RawText(group)) && anchors == Deduped(Sorted(AnchorsOf(group)))
    ensures ToSeq(MakeChunk(group)) == if text == "" then []
      else [Chunk(group[0].start, group[|group| - 1].end, text, anchors)]
  {
  }

  /** The last group stays open, or is closed because it is complete. */
  lemma {:induction false} OpenOrClosed(cut: Segmenter, make: Maker, closed: seq<Group>, group: Group,
                                        chunks: seq<Chunk>, max: int,
                     target: int)
    requires group != [] && Grouped(cut, closed + [group], max, target) && chunks == ChunksOf(make, closed)
    ensures if Complete(cut, group, target)
      then Collecting(cut, make, closed + [group], [], chunks + ToSeq(make(group)), max, target)
      else Collecting(cut, make, closed + [group], group, chunks, max, target)
  {
    assert (closed + [group])[..|closed|] == closed;
  }

  /** The open group is closed if the fragment would make it too large. */
  method CloseIfTooLong(cut: Segmenter, ghost make: Maker, ghost groups: seq<Group>, current: Group, length: nat,
                        chunks: seq<Chunk>, f: Fragment, max: int, ghost target: int)
    returns (current': Group, length': nat, chunks': seq<Chunk>)
    requires Makes(make) && Collecting(cut, make, groups, current, chunks, max, target) && length == Size(cut, current)
    ensures Takes(cut, make, groups, current', chunks', f, max, target) && length' == Size(cut, current')
  {
    current', length', chunks' := current, length, chunks;
    if current != [] && length + CountGraphemes(cut, f.text) > max {
      chunks' := Flush(make, current, chunks);
      current', length' := [], 0;
    }
  }

  /** The group is closed if it is complete. */
  method CloseIfComplete(cut: Segmenter, ghost make: Maker, ghost closed: seq<Group>, group: Group, length: nat,
                         chunks: seq<Chunk>, ghost max: int, target: int)
    returns (current: Group, length': nat, chunks': seq<Chunk>)
    requires Makes(make) && group != [] && length == Size(cut, group)
    requires Grouped(cut, closed + [group], max, target) && chunks == ChunksOf(make, closed)
    ensures Collecting(cut, make, closed + [group], current, chunks', max, target) && length' == Size(cut, current)
  {
    OpenOrClosed(cut, make, closed, group, chunks, max, target);
    current, length', chunks' := group, length, chunks;
    if length >= target && EndsLine(group[|group| - 1].text) {
      chunks' := Flush(make, group, chunks);
      current, length' := [], 0;
    }
  }

  /** Taking in one fragment: the open group is closed before it if it would grow too large, and after it if it
      is complete. */
  method AddFragment(cut: Segmenter, ghost make: Maker, ghost groups: seq<Group>, current: Group, length: nat,
                     chunks: seq<Chunk>, f: Fragment, max: int, target: int)
    returns (ghost groups': seq<Group>, current': Group, length': nat, chunks': seq<Chunk>)
    requires Makes(make) && Collecting(cut, make, groups, current, chunks, max, target) && length == Size(cut, current)
    ensures Collecting(cut, make, groups', current', chunks', max, target) && length' == Size(cut, current')
    ensures Flatten(groups') == Flatten(groups) + [f]
  {
    current', length', chunks' := CloseIfTooLong(cut, make, groups, current, length, chunks, f, max, target);
    ghost var closed := JoinGroup(cut, make, groups, current', chunks', f, max, target);
    SizeSnoc(cut, current', f);
    current', length' := current' + [f], length' + CountGraphemes(cut, f.text);
    groups' := closed + [current'];
    current', length', chunks' := CloseIfComplete(cut, make, closed, current', length', chunks', max, target);
  }

  method CollectChunks(cut: Segmenter, ghost make: Maker, fragments: seq<Fragment>, max: int, target: int)
    returns (chunks: seq<Chunk>, ghost groups: seq<Group>)
    requires Makes(make)
    ensures Grouped(cut, groups, max, target) && Flatten(groups) == fragments
    ensures chunks == ChunksOf(make, groups)
  {
    chunks, groups := [], [];
    var current, length := [], 0;
    for i := 0 to |fragments|
      invariant Collecting(cut, make, groups, current, chunks, max, target) && Flatten(groups) == fragments[..i]
        && length == Size(cut, current)
    {
      assert fragments[..i + 1] == fragments[..i] + [fragments[i]];
      groups, current, length, chunks :=
        AddFragment(cut, make, groups, current, length, chunks, fragments[i], max, target);
    }
    assert fragments[..|fragments|] == fragments;
    if current == [] { return; }
    chunks := Flush(make, current, chunks);
  }

  // ----- what the chunks are -----

  /** Valid chunks in document order, without overlap. */
  ghost predicate InDocumentOrder(chunks: seq<Chunk>) {
    && (forall i | 0 <= i < |chunks| :: ValidChunk(chunks[i]))
    && (forall i, j | 0 <= i < j < |chunks| :: chunks[i].endPosition <= chunks[j].startPosition)
  }

  ghost predicate EndBy(chunks: seq<Chunk>, position: int) {
    forall i | 0 <= i < |chunks| :: chunks[i].endPosition <= position
  }

  /** What is made of a group in document order is valid and keeps its place. */
  ghost predicate MakesValid(make: Maker) {
    forall group: Group | Ordered(group) && make(group).Some? ::
      group != [] && ValidChunk(make(group).value)
      && make(group).value.startPosition == group[0].start && make(group).value.endPosition == group[|group| - 1].end
  }

  lemma MakeChunkMakesValid()
    ensures MakesValid(MakeChunk)
  {
    forall group: Group | Ordered(group) && MakeChunk(group).Some? ensures ValidChunk(MakeChunk(group).value) {
      ChunkOfIsValid(group);
    }
  }

  ghost predicate PlacedBy(chunks: seq<Chunk>, fragments: seq<Fragment>) {
    && InDocumentOrder(chunks)
    && (if fragments == [] then chunks == [] else EndBy(chunks, fragments[|fragments| - 1].end))
  }

  lemma {:induction false} ChunksInOrder(make: Maker, groups: seq<Group>)
    requires Ordered(Flatten(groups)) && MakesValid(make)
    ensures PlacedBy(ChunksOf(make, groups), Flatten(groups))
  {
    if groups != [] {
      var before, group := groups[..|groups| - 1], groups[|groups| - 1];
      OrderedParts(Flatten(before), group);
      ChunksInOrder(make, before);
      PlaceNext(ChunksOf(make, before), Flatten(before), group, make(group));
    }
  }

  lemma PlaceNext(chunks: seq<Chunk>, fragments: seq<Fragment>, group: Group, chunk: Option<Chunk>)
    requires PlacedBy(chunks, fragments)
      && (fragments != [] && group != [] ==> fragments[|fragments| - 1].end <= group[0].start)
    requires chunk.Some? ==>
      && group != [] && ValidChunk(chunk.value)
      && chunk.value.startPosition == group[0].start && chunk.value.endPosition == group[|group| - 1].end
    requires group != [] ==> group[0].start <= group[|group| - 1].end
    ensures PlacedBy(chunks + ToSeq(chunk), fragments + group)
  {
  }

  lemma OrderedParts(a: seq<Fragment>, b: seq<Fragment>)
    requires Ordered(a + b)
    ensures Ordered(a) && Ordered(b)
    ensures a != [] && b != [] ==> a[|a| - 1].end <= b[0].start
    ensures b != [] ==> b[0].start <= b[|b| - 1].end
  {
    var all := a + b;
    forall i | 0 <= i < |a| ensures all[i] == a[i] {}
    forall i | 0 <= i < |b| ensures all[|a| + i] == b[i] {}
    if b != [] { assert Proper(all[|a|]) && Proper(all[|all| - 1]); }
  }

  // ----- from fragments to chunks -----

  const DEFAULT_MAX_GRAPHEMES := 220
  const DEFAULT_TARGET_GRAPHEMES := 160

  function MaxGraphemes(option: Option<int>): int {
    Max(40, if option.Some? then option.value else DEFAULT_MAX_GRAPHEMES)
  }

  function TargetGraphemes(option: Option<int>, max: int): int {
    Min(max, Max(20, if option.Some? then option.value else DEFAULT_TARGET_GRAPHEMES))
  }

  /** The maximum is 220 graphemes unless given, and at least 40; the target is 160 unless given, at least 20, and at
      most the maximum. */
  lemma OptionsAre(option: Option<int>, max: int)
    ensures MaxGraphemes(option) ==
      if option.None? then 220 else if option.value < 40 then 40 else option.value
    ensures TargetGraphemes(option, max) <= max
    ensures TargetGraphemes(option, max) == max
      || TargetGraphemes(option, max) == if option.None? then 160 else if option.value < 20 then 20 else option.value
    ensures option.Some? && 20 <= option.value <= max ==> TargetGraphemes(option, max) == option.value
  {
  }

  /** The fragments, the oversized ones in parts. */
  ghost predicate IsFitted(cut: Segmenter, fragments: seq<Fragment>, max: int, parts: seq<Fragment>)
    requires max > 0
  {
    if fragments == [] then parts == []
    else exists k | 0 <= k <= |parts| ::
      IsFitted(cut, fragments[..|fragments| - 1], max, parts[..k])
        && IsSplit(cut, fragments[|fragments| - 1], max, parts[k..])
  }

  method SplitFragments(cut: Segmenter, fragments: seq<Fragment>, max: int) returns (parts: seq<Fragment>)
    requires Segments(cut) && max > 0 && Ordered(fragments)
    ensures IsFitted(cut, fragments, max, parts)
  {
    parts := [];
    for i := 0 to |fragments|
      invariant IsFitted(cut, fragments[..i], max, parts)
    {
      assert Proper(fragments[i]);
      var split := SplitOversizedFragment(cut, fragments[i], max);
      assert fragments[..i + 1][..i] == fragments[..i];
      assert (parts + split)[..|parts|] == parts && (parts + split)[|parts|..] == split;
      parts := parts + split;
    }
    assert fragments[..|fragments|] == fragments;
  }

  ghost predicate FittedWithin(fragments: seq<Fragment>, parts: seq<Fragment>) {
    Ordered(parts) && if fragments == [] then parts == []
      else Within(parts, fragments[0].start, fragments[|fragments| - 1].end)
  }

  lemma {:induction false} FittedInOrder(cut: Segmenter, fragments: seq<Fragment>, max: int, parts: seq<Fragment>)
    requires Segments(cut) && max > 0 && Ordered(fragments) && IsFitted(cut, fragments, max, parts)
    ensures FittedWithin(fragments, parts)
  {
    if fragments != [] {
      var before, f := fragments[..|fragments| - 1], fragments[|fragments| - 1];
      var k := LastSplit(cut, fragments, max, parts);
      assert Proper(f);
      FittedInOrder(cut, before, max, parts[..k]);
      SplitKeepsText(cut, f, max, parts[k..]);
      FittedJoin(fragments, parts, k);
    }
  }

  ghost predicate AllRoomy(cut: Segmenter, fragments: seq<Fragment>, max: int) {
    forall i | 0 <= i < |fragments| :: Roomy(cut, fragments[i], max)
  }

  /** All of the text if each fragment has enough positions, less of it otherwise. */
  ghost predicate KeepsRoomy(cut: Segmenter, fragments: seq<Fragment>, max: int, parts: seq<Fragment>) {
    if AllRoomy(cut, fragments, max) then RawText(parts) == RawText(fragments)
      else |RawText(parts)| < |RawText(fragments)|
  }

  lemma LastSplit(cut: Segmenter, fragments: seq<Fragment>, max: int, parts: seq<Fragment>) returns (k: nat)
    requires max > 0 && fragments != [] && IsFitted(cut, fragments, max, parts)
    ensures k <= |parts| && IsFitted(cut, fragments[..|fragments| - 1], max, parts[..k])
    ensures IsSplit(cut, fragments[|fragments| - 1], max, parts[k..])
  {
    k :| 0 <= k <= |parts| &&
      IsFitted(cut, fragments[..|fragments| - 1], max, parts[..k])
        && IsSplit(cut, fragments[|fragments| - 1], max, parts[k..]);
  }

  /** Fitting keeps the text of all fragments exactly if each has enough positions. */
  lemma {:induction false} FittedKeepsText(cut: Segmenter, fragments: seq<Fragment>, max: int, parts: seq<Fragment>)
    requires Segments(cut) && max > 0 && AllProper(fragments) && IsFitted(cut, fragments, max, parts)
    ensures KeepsRoomy(cut, fragments, max, parts)
  {
    if fragments == [] {
      assert parts == [];
    } else {
      var before, f := fragments[..|fragments| - 1], fragments[|fragments| - 1];
      var k := LastSplit(cut, fragments, max, parts);
      ProperParts(fragments);
      FittedKeepsText(cut, before, max, parts[..k]);
      FitOneMore(cut, before, max, parts[..k], f, parts[k..]);
      Rejoin(parts, k);
      Rejoin(fragments, |fragments| - 1);
    }
  }

  ghost predicate AllProper(fragments: seq<Fragment>) { forall i | 0 <= i < |fragments| :: Proper(fragments[i]) }

  lemma ProperParts(fragments: seq<Fragment>)
    requires AllProper(fragments) && fragments != []
    ensures AllProper(fragments[..|fragments| - 1]) && Proper(fragments[|fragments| - 1])
  {
  }

  lemma FitOneMore(cut: Segmenter, fragments: seq<Fragment>, max: int, parts: seq<Fragment>, f: Fragment,
                   split: seq<Fragment>)
    requires Segments(cut) && max > 0 && Proper(f) && IsSplit(cut, f, max, split)
      && KeepsRoomy(cut, fragments, max, parts)
    ensures KeepsRoomy(cut, fragments + [f], max, parts + split)
  {
    SplitKeepsText(cut, f, max, split);
    RawTextConcat(parts, split);
    RawTextSnoc(fragments, f);
    RoomySnoc(cut, fragments, f, max);
    JoinedText(RawText(fragments), f.text, RawText(parts), RawText(split));
  }

  lemma RoomySnoc(cut: Segmenter, fragments: seq<Fragment>, f: Fragment, max: int)
    ensures AllRoomy(cut, fragments + [f], max) <==> AllRoomy(cut, fragments, max) && Roomy(cut, f, max)
  {
    assert (fragments + [f])[|fragments|] == f && forall i | 0 <= i < |fragments| ::
      (fragments + [f])[i] == fragments[i];
  }

  /** What is kept of two texts put together. */
  lemma JoinedText(a: string, b: string, a': string, b': string)
    requires (a' == a || |a'| < |a|) && (b' == b || |b'| < |b|)
    ensures if a' == a && b' == b then a' + b' == a + b else |a' + b'| < |a + b|
  {
  }

  lemma FittedJoin(fragments: seq<Fragment>, parts: seq<Fragment>, k: nat)
    requires fragments != [] && Ordered(fragments) && k <= |parts| && Ordered(parts[k..])
    requires var (before, f) := (fragments[..|fragments| - 1], fragments[|fragments| - 1]);
      FittedWithin(before, parts[..k]) && Within(parts[k..], f.start, f.end)
    ensures FittedWithin(fragments, parts)
  {
    var before, f := fragments[..|fragments| - 1], fragments[|fragments| - 1];
    JoinInOrder(parts, k, if before == [] then f.start else before[|before| - 1].end, f);
    assert Proper(f) && Proper(fragments[0]);
    forall i | 0 <= i < |parts| ensures fragments[0].start <= parts[i].start && parts[i].end <= f.end {
      if i < k { assert parts[i] == parts[..k][i]; } else { assert parts[i] == parts[k..][i - k]; }
    }
  }

  lemma JoinInOrder(parts: seq<Fragment>, k: nat, middle: int, f: Fragment)
    requires k <= |parts| && Ordered(parts[..k]) && Ordered(parts[k..]) && middle <= f.start
      && Within(parts[k..], f.start, f.end)
    requires forall i | 0 <= i < k :: parts[..k][i].end <= middle
    ensures Ordered(parts)
  {
    forall i | 0 <= i < |parts| ensures Proper(parts[i]) {
      if i < k { assert parts[i] == parts[..k][i]; } else { assert parts[i] == parts[k..][i - k]; }
    }
    forall i, j | 0 <= i < j < |parts| ensures parts[i].end <= parts[j].start {
      if i < k { assert parts[i] == parts[..k][i]; } else { assert parts[i] == parts[k..][i - k]; }
      if j < k { assert parts[j] == parts[..k][j]; } else { assert parts[j] == parts[k..][j - k]; }
    }
  }

  /** From fragments in document order come valid chunks in document order: on each of them the maps connect. */
  method BuildReaderSpeechChunks(cut: Segmenter, fragments: seq<Fragment>, maxOption: Option<int>,
                                 targetOption: Option<int>)
    returns (chunks: seq<Chunk>, ghost parts: seq<Fragment>, ghost groups: seq<Group>)
    requires Segments(cut) && Ordered(fragments)
    ensures var max := MaxGraphemes(maxOption);
      && IsFitted(cut, fragments, max, parts) && Flatten(groups) == parts
      && Grouped(cut, groups, max, TargetGraphemes(targetOption, max)) && chunks == ChunksOf(MakeChunk, groups)
      && (RawText(parts) == RawText(fragments) <==> AllRoomy(cut, fragments, max))
    ensures InDocumentOrder(chunks)
  {
    var max := MaxGraphemes(maxOption);
    var fitted := SplitFragments(cut, fragments, max);
    parts := fitted;
    FittedInOrder(cut, fragments, max, fitted);
    FittedKeepsText(cut, fragments, max, fitted);
    chunks, groups := CollectChunks(cut, MakeChunk, fitted, max, TargetGraphemes(targetOption, max));
    MakeChunkMakesValid();
    ChunksInOrder(MakeChunk, groups);
  }
}
