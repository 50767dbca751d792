/** The two maps between the characters of a speech chunk and positions in the document (readerSpeech.ts). */
module SpeechMaps {
  import opened Ordering
  import opened Arithmetic
  import opened Graphemes

  datatype Anchor = Anchor(charIndex: nat, position: int)

  datatype Chunk = Chunk(startPosition: int, endPosition: int, text: string, anchors: seq<Anchor>)

  predicate AnchorLess(a: Anchor, b: Anchor) {
    a.charIndex < b.charIndex || (a.charIndex == b.charIndex && a.position < b.position)
  }

  /** The part of the text between two indices, as String.prototype.slice cuts it. */
  function Slice(text: string, from: nat, to: nat): string {
    if from < to && from < |text| then text[from..Min(to, |text|)] else ""
  }

  // ----- one interval -----

  /** Linear interpolation rounded down, and back rounded up. */
  function PositionOffset(positions: int, graphemes: int, k: int): int requires graphemes > 0 {
    positions * k / graphemes
  }
  function GraphemesFor(positions: int, graphemes: int, q: int): int requires positions > 0 {
    CeilingDiv(graphemes * q, positions)
  }

  function PositionBetween(pieces: seq<string>, prev: Anchor, next: Anchor, c: int): int
    requires pieces != []
  {
    var offset := PositionOffset(next.position - prev.position, |pieces|, GraphemeOffset(pieces, c - prev.charIndex));
    Min(next.position, Max(prev.position, prev.position + offset))
  }

  function CharIndexBetween(pieces: seq<string>, prev: Anchor, next: Anchor, p: int, length: nat): int
    requires next.position > prev.position
  {
    var graphemes := GraphemesFor(next.position - prev.position, |pieces|, p - prev.position);
    Min(Min(Max(prev.charIndex + CodeUnitOffset(pieces, graphemes), prev.charIndex), next.charIndex), length)
  }

  // ----- all intervals -----

  /** The position of character `c` after the anchor `prev`. */
  function PositionFrom(cut: Segmenter, text: string, prev: Anchor, rest: seq<Anchor>, c: int): int
    decreases |rest|
  {
    if rest == [] then prev.position
    else if c > rest[0].charIndex then PositionFrom(cut, text, rest[0], rest[1..], c)
    else if rest[0].charIndex <= prev.charIndex || rest[0].position <= prev.position then rest[0].position
    else
      var pieces := cut(Slice(text, prev.charIndex, rest[0].charIndex));
      if pieces == [] then rest[0].position else PositionBetween(pieces, prev, rest[0], c)
  }

  function CharIndexFrom(cut: Segmenter, text: string, prev: Anchor, rest: seq<Anchor>, p: int): int
    decreases |rest|
  {
    if rest == [] then Clamp(prev.charIndex, 0, |text|)
    else if p > rest[0].position then CharIndexFrom(cut, text, rest[0], rest[1..], p)
    else if rest[0].position <= prev.position || rest[0].charIndex <= prev.charIndex
      then Clamp(rest[0].charIndex, 0, |text|)
    else
      var pieces := cut(Slice(text, prev.charIndex, rest[0].charIndex));
      if pieces == [] then Clamp(rest[0].charIndex, 0, |text|) else CharIndexBetween(pieces, prev, rest[0], p, |text|)
  }

  /** The position of a character: between the anchors if there are two, else in proportion over the whole chunk. */
  function PositionOf(cut: Segmenter, chunk: Chunk, charIndex: int): int {
    var c := Clamp(charIndex, 0, |chunk.text|);
    if |chunk.anchors| >= 2 then
      var anchors := Sorted(chunk.anchors);
      if c <= anchors[0].charIndex then anchors[0].position
        else PositionFrom(cut, chunk.text, anchors[0], anchors[1..], c)
    else
      var pieces := cut(chunk.text);
      if chunk.endPosition <= chunk.startPosition || chunk.text == "" || pieces == [] then chunk.startPosition
      else PositionBetween(pieces, Anchor(0, chunk.startPosition), Anchor(|chunk.text|, chunk.endPosition), c)
  }

  function CharIndexOf(cut: Segmenter, chunk: Chunk, position: int): int {
    var p := Clamp(position, chunk.startPosition, chunk.endPosition);
    if |chunk.anchors| >= 2 then
      var anchors := Sorted(chunk.anchors);
      if p <= anchors[0].position then Clamp(anchors[0].charIndex, 0, |chunk.text|)
        else CharIndexFrom(cut, chunk.text, anchors[0], anchors[1..], p)
    else
      var pieces := cut(chunk.text);
      if chunk.endPosition <= chunk.startPosition || chunk.text == "" || pieces == [] then 0
      else
        Min(CodeUnitOffset(pieces,
          GraphemesFor(chunk.endPosition - chunk.startPosition, |pieces|, p - chunk.startPosition)), |chunk.text|)
  }

  function Sorted(anchors: seq<Anchor>): (r: seq<Anchor>)
    ensures |r| == |anchors|
  {
    PermutationElems(SortBy(anchors, AnchorLess), anchors);
    SortBy(anchors, AnchorLess)
  }

  /** Interpolating between two anchors whose interval has graphemes. */
  method InterpolatePosition(cut: Segmenter, interval: string, prev: Anchor, next: Anchor, c: int)
    returns (position: int)
    requires Segments(cut) && cut(interval) != []
    ensures position == PositionBetween(cut(interval), prev, next, c)
  {
    var graphemes := CountGraphemes(cut, interval);
    var graphemeOffset := GetGraphemeOffsetFromCodeUnitOffset(cut, interval, c - prev.charIndex);
    var offset := (next.position - prev.position) * graphemeOffset / graphemes;
    position := Min(next.position, Max(prev.position, prev.position + offset));
  }

  method InterpolateCharIndex(cut: Segmenter, interval: string, prev: Anchor, next: Anchor, p: int, length: nat)
    returns (charIndex: int)
    requires Segments(cut) && cut(interval) != [] && next.position > prev.position
    ensures charIndex == CharIndexBetween(cut(interval), prev, next, p, length)
  {
    var graphemes := CountGraphemes(cut, interval);
    var graphemeOffset := CeilingDiv(graphemes * (p - prev.position), next.position - prev.position);
    var offset := GetCodeUnitOffsetFromGraphemeOffset(cut, interval, graphemeOffset);
    charIndex := Min(Min(Max(prev.charIndex + offset, prev.charIndex), next.charIndex), length);
  }

  method GetReaderSpeechPositionForCharIndex(cut: Segmenter, chunk: Chunk, charIndex: int) returns (position: int)
    requires Segments(cut)
    ensures position == PositionOf(cut, chunk, charIndex)
  {
    var c := Clamp(charIndex, 0, |chunk.text|);
    if |chunk.anchors| >= 2 {
      var anchors := Sorted(chunk.anchors);
      if c <= anchors[0].charIndex { return anchors[0].position; }
      for index := 1 to |anchors|
        invariant PositionOf(cut, chunk, charIndex)
          == PositionFrom(cut, chunk.text, anchors[index - 1], anchors[index..], c)
      {
        var prev, next := anchors[index - 1], anchors[index];
        assert anchors[index..][1..] == anchors[index + 1..];
        if c > next.charIndex { continue; }
        if next.charIndex <= prev.charIndex || next.position <= prev.position { return next.position; }
        var interval := Slice(chunk.text, prev.charIndex, next.charIndex);
        if CountGraphemes(cut, interval) <= 0 { return next.position; }
        position := InterpolatePosition(cut, interval, prev, next, c);
        return;
      }
      return anchors[|anchors| - 1].position;
    }
    if chunk.endPosition <= chunk.startPosition || chunk.text == "" { return chunk.startPosition; }
    if CountGraphemes(cut, chunk.text) <= 0 { return chunk.startPosition; }
    var first, last := Anchor(0, chunk.startPosition), Anchor(|chunk.text|, chunk.endPosition);
    position := InterpolatePosition(cut, chunk.text, first, last, c);
  }

  method GetReaderSpeechCharIndexForPosition(cut: Segmenter, chunk: Chunk, position: int) returns (charIndex: int)
    requires Segments(cut)
    ensures charIndex == CharIndexOf(cut, chunk, position)
  {
    var p := Clamp(position, chunk.startPosition, chunk.endPosition);
    if |chunk.anchors| >= 2 {
      var anchors := Sorted(chunk.anchors);
      if p <= anchors[0].position { return Clamp(anchors[0].charIndex, 0, |chunk.text|); }
      for index := 1 to |anchors|
        invariant CharIndexOf(cut, chunk, position)
          == CharIndexFrom(cut, chunk.text, anchors[index - 1], anchors[index..], p)
      {
        var prev, next := anchors[index - 1], anchors[index];
        assert anchors[index..][1..] == anchors[index + 1..];
        if p > next.position { continue; }
        if next.position <= prev.position || next.charIndex <= prev.charIndex {
          return Clamp(next.charIndex, 0, |chunk.text|);
        }
        var interval := Slice(chunk.text, prev.charIndex, next.charIndex);
        if CountGraphemes(cut, interval) <= 0 { return Clamp(next.charIndex, 0, |chunk.text|); }
        charIndex := InterpolateCharIndex(cut, interval, prev, next, p, |chunk.text|);
        return;
      }
      return Clamp(anchors[|anchors| - 1].charIndex, 0, |chunk.text|);
    }
    if chunk.endPosition <= chunk.startPosition || chunk.text == "" { return 0; }
    var graphemes := CountGraphemes(cut, chunk.text);
    if graphemes <= 0 { return 0; }
    var graphemeOffset := CeilingDiv(graphemes * (p - chunk.startPosition), chunk.endPosition - chunk.startPosition);
    var offset := GetCodeUnitOffsetFromGraphemeOffset(cut, chunk.text, graphemeOffset);
    return Min(offset, |chunk.text|);
  }

  // ----- chunks as they are built -----

  /** Characters and positions both rise from anchor to anchor. */
  ghost predicate Rising(prev: Anchor, rest: seq<Anchor>)
    decreases |rest|
  {
    rest != [] ==> prev.charIndex < rest[0].charIndex && prev.position < rest[0].position && Rising(rest[0], rest[1..])
  }

  /** The anchors rise from the start of the text to its end, which is the end of the chunk. */
  ghost predicate WellAnchored(chunk: Chunk) {
    && |chunk.anchors| >= 2 && Rising(chunk.anchors[0], chunk.anchors[1..])
    && chunk.anchors[0].charIndex == 0 && chunk.startPosition <= chunk.anchors[0].position
    && chunk.anchors[|chunk.anchors| - 1] == Anchor(|chunk.text|, chunk.endPosition)
  }

  /** Every chunk that is built is one of these, and so is every chunk cut for playback. */
  ghost predicate ValidChunk(chunk: Chunk) {
    chunk.text != "" && chunk.startPosition < chunk.endPosition && (chunk.anchors == [] || WellAnchored(chunk))
  }

  lemma {:induction false} RisingInOrder(prev: Anchor, rest: seq<Anchor>, i: nat)
    requires Rising(prev, rest) && i < |rest|
    ensures prev.charIndex < rest[i].charIndex && prev.position < rest[i].position
    ensures Rising(rest[i], rest[i + 1..])
    decreases i
  {
    if i > 0 {
      RisingInOrder(rest[0], rest[1..], i - 1);
      assert rest[1..][i..] == rest[i + 1..];
    }
  }

  lemma ValidStays(chunk: Chunk)
    requires WellAnchored(chunk)
    ensures Sorted(chunk.anchors) == chunk.anchors
  {
    var anchors := chunk.anchors;
    forall i, j | 0 <= i < j < |anchors| ensures !AnchorLess(anchors[j], anchors[i]) {
      if i > 0 { RisingInOrder(anchors[0], anchors[1..], i - 1); }
      RisingInOrder(anchors[i], anchors[i + 1..], j - i - 1);
    }
    InOrderStays(anchors, AnchorLess);
  }

  // ----- the connection within an interval -----

  lemma FloorCeil(positions: int, graphemes: int, k: int, q: int)
    requires positions > 0 && graphemes > 0
    ensures GraphemesFor(positions, graphemes, q) <= k <==> q <= PositionOffset(positions, graphemes, k)
  {
    CeilingIsLeast(graphemes * q, positions, k);
    FloorIsGreatest(positions * k, graphemes, q);
  }

  /** What cutting an interval of a text gives. */
  lemma IntervalPieces(cut: Segmenter, text: string, prev: Anchor, next: Anchor) returns (pieces: seq<string>)
    requires Segments(cut) && prev.charIndex < next.charIndex <= |text|
    ensures pieces == cut(Slice(text, prev.charIndex, next.charIndex)) && pieces != [] && NonEmpty(pieces)
    ensures PieceStart(pieces, |pieces|) == next.charIndex - prev.charIndex
  {
    pieces := cut(Slice(text, prev.charIndex, next.charIndex));
    SegmentsEnd(cut, Slice(text, prev.charIndex, next.charIndex));
  }

  /** The start of the first grapheme at or after character `c`. */
  function RoundUpBetween(pieces: seq<string>, prev: Anchor, c: int): int {
    prev.charIndex + PieceStart(pieces, GraphemeOffset(pieces, c - prev.charIndex))
  }

  lemma {:induction false} PieceStartOrder(pieces: seq<string>, i: nat, j: nat)
    requires NonEmpty(pieces) && i <= |pieces| && j <= |pieces|
    ensures i <= j <==> PieceStart(pieces, i) <= PieceStart(pieces, j)
  {
    if i < j { PieceStartGrows(pieces, i, j); }
    if j < i { PieceStartGrows(pieces, j, i); }
  }

  lemma CharIndexBetweenIs(pieces: seq<string>, prev: Anchor, next: Anchor, p: int, length: nat) returns (g: nat)
    requires pieces != [] && NonEmpty(pieces) && PieceStart(pieces, |pieces|) == next.charIndex - prev.charIndex
    requires prev.position < p <= next.position && next.charIndex <= length
    ensures g == GraphemesFor(next.position - prev.position, |pieces|, p - prev.position) && 0 < g <= |pieces|
    ensures CharIndexBetween(pieces, prev, next, p, length) == prev.charIndex + PieceStart(pieces, g)
    ensures prev.charIndex < prev.charIndex + PieceStart(pieces, g) <= next.charIndex
  {
    var positions, q := next.position - prev.position, p - prev.position;
    var gg := GraphemesFor(positions, |pieces|, q);
    CeilingIsLeast(|pieces| * q, positions, 0);
    assert |pieces| * q > 0;
    CeilingIsLeast(|pieces| * q, positions, |pieces|);
    assert |pieces| * q <= |pieces| * positions;
    g := gg;
    PieceStartOrder(pieces, g, |pieces|);
    PieceStartOrder(pieces, g, 0);
  }

  lemma PositionBetweenIs(pieces: seq<string>, prev: Anchor, next: Anchor, c: int)
    requires pieces != [] && prev.position < next.position
    ensures PositionBetween(pieces, prev, next, c)
         == prev.position + PositionOffset(next.position - prev.position, |pieces|,
           GraphemeOffset(pieces, c - prev.charIndex))
    ensures prev.position <= PositionBetween(pieces, prev, next, c) <= next.position
  {
    var positions, k := next.position - prev.position, GraphemeOffset(pieces, c - prev.charIndex);
    OffsetFromZero(positions, |pieces|, k);
    OffsetBelow(positions, |pieces|, k);
  }

  lemma OffsetFromZero(positions: int, graphemes: int, k: int)
    requires 0 <= k && positions > 0 && graphemes > 0
    ensures 0 <= PositionOffset(positions, graphemes, k)
  {
    FloorIsGreatest(positions * k, graphemes, 0);
    assert positions * k >= 0;
  }

  lemma {:induction false} ConnectedBetween(pieces: seq<string>, prev: Anchor, next: Anchor, c: int, p: int,
                                            length: nat)
    requires pieces != [] && NonEmpty(pieces) && PieceStart(pieces, |pieces|) == next.charIndex - prev.charIndex
    requires prev.position < p <= next.position && next.charIndex <= length
    ensures CharIndexBetween(pieces, prev, next, p, length) <= RoundUpBetween(pieces, prev, c)
      <==> p <= PositionBetween(pieces, prev, next, c)
  {
    var g := CharIndexBetweenIs(pieces, prev, next, p, length);
    PositionBetweenIs(pieces, prev, next, c);
    var k := GraphemeOffset(pieces, c - prev.charIndex);
    PieceStartOrder(pieces, g, k);
    FloorCeil(next.position - prev.position, |pieces|, k, p - prev.position);
  }

  lemma {:induction false} RoundUpBetweenIs(pieces: seq<string>, prev: Anchor, next: Anchor, c: int)
    requires NonEmpty(pieces) && PieceStart(pieces, |pieces|) == next.charIndex - prev.charIndex
      && prev.charIndex < c <= next.charIndex
    ensures c <= RoundUpBetween(pieces, prev, c) <= next.charIndex
  {
    var k := GraphemeOffset(pieces, c - prev.charIndex);
    GraphemeOffsetIsLeast(pieces, c - prev.charIndex, k);
    PieceStartOrder(pieces, k, |pieces|);
  }

  // ----- the connection over all intervals -----

  /** The start of the first grapheme at or after character `c`, graphemes being counted from each anchor. */
  function RoundUpFrom(cut: Segmenter, text: string, prev: Anchor, rest: seq<Anchor>, c: int): int
    decreases |rest|
  {
    if rest == [] then prev.charIndex
    else if c > rest[0].charIndex then RoundUpFrom(cut, text, rest[0], rest[1..], c)
    else RoundUpBetween(cut(Slice(text, prev.charIndex, rest[0].charIndex)), prev, c)
  }

  /** Anchors that rise up to `last`, within the text. */
  ghost predicate RisingTo(text: string, prev: Anchor, rest: seq<Anchor>, last: Anchor) {
    rest != [] && Rising(prev, rest) && rest[|rest| - 1] == last && last.charIndex <= |text|
  }

  lemma RisingStep(text: string, prev: Anchor, rest: seq<Anchor>, last: Anchor)
    requires RisingTo(text, prev, rest, last)
    ensures rest[0].charIndex <= last.charIndex && rest[0].position <= last.position
    ensures |rest| > 1 ==> RisingTo(text, rest[0], rest[1..], last)
    ensures |rest| == 1 ==> rest[0] == last
  {
    if |rest| > 1 { RisingInOrder(rest[0], rest[1..], |rest| - 2); }
  }

  lemma {:induction false} CharIndexFromBounds(cut: Segmenter, text: string, prev: Anchor, rest: seq<Anchor>,
                                               last: Anchor, p: int)
    requires Segments(cut) && RisingTo(text, prev, rest, last) && prev.position < p <= last.position
    ensures prev.charIndex < CharIndexFrom(cut, text, prev, rest, p) <= last.charIndex
    ensures p <= rest[0].position ==> CharIndexFrom(cut, text, prev, rest, p) <= rest[0].charIndex
    ensures p > rest[0].position ==> CharIndexFrom(cut, text, prev, rest, p) > rest[0].charIndex
    decreases |rest|
  {
    RisingStep(text, prev, rest, last);
    if p > rest[0].position {
      CharIndexFromBounds(cut, text, rest[0], rest[1..], last, p);
    } else {
      var pieces := IntervalPieces(cut, text, prev, rest[0]);
      var g := CharIndexBetweenIs(pieces, prev, rest[0], p, |text|);
    }
  }

  lemma {:induction false} PositionFromBounds(cut: Segmenter, text: string, prev: Anchor, rest: seq<Anchor>,
                                              last: Anchor, c: int)
    requires Segments(cut) && RisingTo(text, prev, rest, last) && prev.charIndex < c <= last.charIndex
    ensures prev.position <= PositionFrom(cut, text, prev, rest, c) <= last.position
    ensures c <= RoundUpFrom(cut, text, prev, rest, c) <= last.charIndex
    ensures c <= rest[0].charIndex ==> PositionFrom(cut, text, prev, rest, c) <= rest[0].position
    ensures c <= rest[0].charIndex ==> RoundUpFrom(cut, text, prev, rest, c) <= rest[0].charIndex
    ensures c > rest[0].charIndex ==> PositionFrom(cut, text, prev, rest, c) >= rest[0].position
    decreases |rest|
  {
    RisingStep(text, prev, rest, last);
    if c > rest[0].charIndex {
      PositionFromBounds(cut, text, rest[0], rest[1..], last, c);
    } else {
      var pieces := IntervalPieces(cut, text, prev, rest[0]);
      PositionBetweenIs(pieces, prev, rest[0], c);
      RoundUpBetweenIs(pieces, prev, rest[0], c);
    }
  }

  lemma {:induction false} ConnectedFrom(cut: Segmenter, text: string, prev: Anchor, rest: seq<Anchor>, last: Anchor,
                                         c: int, p: int)
    requires Segments(cut) && RisingTo(text, prev, rest, last)
    requires prev.charIndex < c <= last.charIndex && prev.position < p <= last.position
    ensures CharIndexFrom(cut, text, prev, rest, p) <= RoundUpFrom(cut, text, prev, rest, c)
      <==> p <= PositionFrom(cut, text, prev, rest, c)
    decreases |rest|
  {
    RisingStep(text, prev, rest, last);
    PositionFromBounds(cut, text, prev, rest, last, c);
    CharIndexFromBounds(cut, text, prev, rest, last, p);
    if c > rest[0].charIndex && p > rest[0].position {
      ConnectedFrom(cut, text, rest[0], rest[1..], last, c, p);
    } else if c <= rest[0].charIndex && p <= rest[0].position {
      var pieces := IntervalPieces(cut, text, prev, rest[0]);
      ConnectedBetween(pieces, prev, rest[0], c, p, |text|);
    }
  }

  // ----- the connection on a chunk -----

  /** The first anchor of the chunk and the others; without two anchors, the two ends. */
  function FirstAnchor(chunk: Chunk): Anchor {
    if |chunk.anchors| >= 2 then chunk.anchors[0] else Anchor(0, chunk.startPosition)
  }

  function LaterAnchors(chunk: Chunk): seq<Anchor> {
    if |chunk.anchors| >= 2 then chunk.anchors[1..] else [Anchor(|chunk.text|, chunk.endPosition)]
  }

  function LastAnchor(chunk: Chunk): Anchor { Anchor(|chunk.text|, chunk.endPosition) }

  /** The start of the first grapheme at or after a character. */
  function RoundUp(cut: Segmenter, chunk: Chunk, c: int): int {
    if c <= 0 then 0 else RoundUpFrom(cut, chunk.text, FirstAnchor(chunk), LaterAnchors(chunk), c)
  }

  /** Both maps of a valid chunk, with and without anchors, in terms of intervals. */
  lemma {:induction false} MapsOf(cut: Segmenter, chunk: Chunk, c: int, p: int)
    requires Segments(cut) && ValidChunk(chunk) && 0 <= c <= |chunk.text| && p <= chunk.endPosition
    ensures RisingTo(chunk.text, FirstAnchor(chunk), LaterAnchors(chunk), LastAnchor(chunk))
    ensures FirstAnchor(chunk).charIndex == 0
    ensures PositionOf(cut, chunk, c) ==
      if c == 0 then FirstAnchor(chunk).position
        else PositionFrom(cut, chunk.text, FirstAnchor(chunk), LaterAnchors(chunk), c)
    ensures CharIndexOf(cut, chunk, p) ==
      if p <= FirstAnchor(chunk).position then 0
        else CharIndexFrom(cut, chunk.text, FirstAnchor(chunk), LaterAnchors(chunk), p)
  {
    if chunk.anchors != [] {
      ValidStays(chunk);
    } else {
      PlainPosition(cut, chunk, c);
      PlainCharIndex(cut, chunk, p);
    }
  }

  /** The whole text is one interval. */
  lemma WholeInterval(cut: Segmenter, chunk: Chunk) returns (pieces: seq<string>)
    requires Segments(cut) && ValidChunk(chunk)
    ensures pieces == cut(chunk.text) == cut(Slice(chunk.text, 0, |chunk.text|))
    ensures pieces != [] && NonEmpty(pieces) && PieceStart(pieces, |pieces|) == |chunk.text|
  {
    pieces := IntervalPieces(cut, chunk.text, Anchor(0, chunk.startPosition), LastAnchor(chunk));
    assert chunk.text[0..|chunk.text|] == chunk.text;
  }

  lemma {:induction false} PlainPosition(cut: Segmenter, chunk: Chunk, c: int)
    requires Segments(cut) && ValidChunk(chunk) && chunk.anchors == [] && 0 <= c <= |chunk.text|
    ensures var (first, last) := (FirstAnchor(chunk), LastAnchor(chunk));
      PositionOf(cut, chunk, c) == if c == 0 then first.position else PositionFrom(cut, chunk.text, first, [last], c)
  {
    var pieces := WholeInterval(cut, chunk);
    if c == 0 {
      StartOfPieces(pieces);
      PositionBetweenIs(pieces, FirstAnchor(chunk), LastAnchor(chunk), 0);
    }
  }

  lemma {:induction false} PlainCharIndex(cut: Segmenter, chunk: Chunk, p: int)
    requires Segments(cut) && ValidChunk(chunk) && chunk.anchors == [] && p <= chunk.endPosition
    ensures var (first, last) := (FirstAnchor(chunk), LastAnchor(chunk));
      CharIndexOf(cut, chunk, p) == if p <= first.position then 0 else CharIndexFrom(cut, chunk.text, first, [last], p)
  {
    var first, last := FirstAnchor(chunk), LastAnchor(chunk);
    var pieces := WholeInterval(cut, chunk);
    if p <= first.position {
      assert GraphemesFor(last.position - first.position, |pieces|, 0) == 0;
    } else {
      var g := CharIndexBetweenIs(pieces, first, last, p, |chunk.text|);
    }
  }

  lemma StartOfPieces(pieces: seq<string>)
    requires NonEmpty(pieces)
    ensures GraphemeOffset(pieces, 0) == 0
  {
    forall j | 0 < j <= |pieces| ensures PieceStart(pieces, j) > 0 { PieceStartGrows(pieces, 0, j); }
    GraphemeOffsetIsLeast(pieces, 0, 0);
  }

  /** For every character and position of the chunk: the character of a position comes no later than the
      character's grapheme is complete exactly if the position comes no later than that of the character. */
  lemma RoundedConnection(cut: Segmenter, chunk: Chunk, c: int, p: int)
    requires Segments(cut) && ValidChunk(chunk) && 0 <= c <= |chunk.text| && p <= chunk.endPosition
    ensures CharIndexOf(cut, chunk, p) <= RoundUp(cut, chunk, c) <==> p <= PositionOf(cut, chunk, c)
    ensures c <= RoundUp(cut, chunk, c) <= |chunk.text|
  {
    MapsOf(cut, chunk, c, p);
    var first, rest, last := FirstAnchor(chunk), LaterAnchors(chunk), LastAnchor(chunk);
    if c > 0 { PositionFromBounds(cut, chunk.text, first, rest, last, c); }
    if p > first.position { CharIndexFromBounds(cut, chunk.text, first, rest, last, p); }
    if c > 0 && p > first.position { ConnectedFrom(cut, chunk.text, first, rest, last, c, p); }
  }

  /** A grapheme starts here, or the text ends. */
  ghost predicate Boundary(cut: Segmenter, chunk: Chunk, c: int) {
    0 <= c <= |chunk.text| && RoundUp(cut, chunk, c) == c
  }

  /** The Galois connection of the two maps at grapheme boundaries. */
  lemma GaloisConnection(cut: Segmenter, chunk: Chunk, c: int, p: int)
    requires Segments(cut) && ValidChunk(chunk) && Boundary(cut, chunk, c) && p <= chunk.endPosition
    ensures CharIndexOf(cut, chunk, p) <= c <==> p <= PositionOf(cut, chunk, c)
  {
    RoundedConnection(cut, chunk, c, p);
  }

  lemma {:induction false} CharIndexFromIsBoundary(cut: Segmenter, text: string, prev: Anchor, rest: seq<Anchor>,
                                                   last: Anchor, p: int)
    requires Segments(cut) && RisingTo(text, prev, rest, last) && prev.position < p <= last.position
    ensures var c := CharIndexFrom(cut, text, prev, rest, p); RoundUpFrom(cut, text, prev, rest, c) == c
    decreases |rest|
  {
    RisingStep(text, prev, rest, last);
    CharIndexFromBounds(cut, text, prev, rest, last, p);
    if p > rest[0].position {
      CharIndexFromIsBoundary(cut, text, rest[0], rest[1..], last, p);
    } else {
      var pieces := IntervalPieces(cut, text, prev, rest[0]);
      var g := CharIndexBetweenIs(pieces, prev, rest[0], p, |text|);
      OffsetsInvert(pieces, g);
    }
  }

  /** The map to characters always ends at a grapheme boundary. */
  lemma CharIndexIsBoundary(cut: Segmenter, chunk: Chunk, p: int)
    requires Segments(cut) && ValidChunk(chunk) && p <= chunk.endPosition
    ensures Boundary(cut, chunk, CharIndexOf(cut, chunk, p))
  {
    MapsOf(cut, chunk, 0, p);
    var first, rest, last := FirstAnchor(chunk), LaterAnchors(chunk), LastAnchor(chunk);
    if p > first.position {
      CharIndexFromBounds(cut, chunk.text, first, rest, last, p);
      CharIndexFromIsBoundary(cut, chunk.text, first, rest, last, p);
    }
  }

  lemma {:induction false} RoundUpFromMonotone(cut: Segmenter, text: string, prev: Anchor, rest: seq<Anchor>,
                                               last: Anchor, c: int, c': int)
    requires Segments(cut) && RisingTo(text, prev, rest, last) && prev.charIndex < c <= c' <= last.charIndex
    ensures RoundUpFrom(cut, text, prev, rest, c) <= RoundUpFrom(cut, text, prev, rest, c')
    decreases |rest|
  {
    RisingStep(text, prev, rest, last);
    PositionFromBounds(cut, text, prev, rest, last, c);
    PositionFromBounds(cut, text, prev, rest, last, c');
    if c > rest[0].charIndex {
      RoundUpFromMonotone(cut, text, rest[0], rest[1..], last, c, c');
    } else if c' <= rest[0].charIndex {
      var pieces := IntervalPieces(cut, text, prev, rest[0]);
      var k, k' := GraphemeOffset(pieces, c - prev.charIndex), GraphemeOffset(pieces, c' - prev.charIndex);
      GraphemeOffsetIsLeast(pieces, c' - prev.charIndex, k');
      GraphemeOffsetIsLeast(pieces, c - prev.charIndex, k');
      PieceStartOrder(pieces, k, k');
    }
  }

  lemma RoundUpMonotone(cut: Segmenter, chunk: Chunk, c: int, c': int)
    requires Segments(cut) && ValidChunk(chunk) && 0 <= c <= c' <= |chunk.text|
    ensures RoundUp(cut, chunk, c) <= RoundUp(cut, chunk, c')
  {
    RoundedConnection(cut, chunk, c', chunk.startPosition);
    MapsOf(cut, chunk, c, chunk.startPosition);
    if c > 0 {
      RoundUpFromMonotone(cut, chunk.text, FirstAnchor(chunk), LaterAnchors(chunk), LastAnchor(chunk), c, c');
    }
  }

  /** Off the boundaries the connection holds exactly where no position leads to the end of the grapheme. */
  lemma ConnectionExactly(cut: Segmenter, chunk: Chunk, c: int)
    requires Segments(cut) && ValidChunk(chunk) && 0 <= c <= |chunk.text|
    ensures (forall p | p <= chunk.endPosition :: CharIndexOf(cut, chunk, p) <= c <==> p <= PositionOf(cut, chunk, c))
       <==> Boundary(cut, chunk, c) || forall p | p <= chunk.endPosition ::
         CharIndexOf(cut, chunk, p) != RoundUp(cut, chunk, c)
  {
    forall p | p <= chunk.endPosition
      ensures CharIndexOf(cut, chunk, p) <= RoundUp(cut, chunk, c) <==> p <= PositionOf(cut, chunk, c)
      ensures c <= RoundUp(cut, chunk, c)
      ensures CharIndexOf(cut, chunk, p) > c ==> CharIndexOf(cut, chunk, p) >= RoundUp(cut, chunk, c)
    {
      RoundedConnection(cut, chunk, c, p);
      CharIndexIsBoundary(cut, chunk, p);
      if CharIndexOf(cut, chunk, p) > c { RoundUpMonotone(cut, chunk, c, CharIndexOf(cut, chunk, p)); }
    }
    assert CharIndexOf(cut, chunk, chunk.startPosition) <= c || CharIndexOf(cut, chunk, chunk.startPosition) > c;
  }

  /** Both maps are monotone. */
  lemma MapsAreMonotone(cut: Segmenter, chunk: Chunk, c: int, c': int, p: int, p': int)
    requires Segments(cut) && ValidChunk(chunk) && 0 <= c <= c' <= |chunk.text| && p <= p' <= chunk.endPosition
    ensures PositionOf(cut, chunk, c) <= PositionOf(cut, chunk, c')
    ensures CharIndexOf(cut, chunk, p) <= CharIndexOf(cut, chunk, p')
  {
    var q := PositionOf(cut, chunk, c);
    PositionInChunk(cut, chunk, c);
    RoundedConnection(cut, chunk, c, q);
    RoundedConnection(cut, chunk, c', q);
    RoundUpMonotone(cut, chunk, c, c');
    var d := CharIndexOf(cut, chunk, p');
    CharIndexIsBoundary(cut, chunk, p');
    GaloisConnection(cut, chunk, d, p');
    GaloisConnection(cut, chunk, d, p);
  }

  lemma PositionInChunk(cut: Segmenter, chunk: Chunk, c: int)
    requires Segments(cut) && ValidChunk(chunk) && 0 <= c <= |chunk.text|
    ensures chunk.startPosition <= PositionOf(cut, chunk, c) <= chunk.endPosition
  {
    MapsOf(cut, chunk, c, chunk.startPosition);
    var first, rest, last := FirstAnchor(chunk), LaterAnchors(chunk), LastAnchor(chunk);
    RisingInOrder(first, rest, |rest| - 1);
    if c > 0 { PositionFromBounds(cut, chunk.text, first, rest, last, c); }
  }

  /** Resuming at a position starts at a character whose position is not before it, and at the first such
      character that starts a grapheme. */
  lemma ResumeNeverEarly(cut: Segmenter, chunk: Chunk, p: int)
    requires Segments(cut) && ValidChunk(chunk) && p <= chunk.endPosition
    ensures p <= PositionOf(cut, chunk, CharIndexOf(cut, chunk, p))
    ensures forall c | Boundary(cut, chunk, c) && p <= PositionOf(cut, chunk, c) :: CharIndexOf(cut, chunk, p) <= c
  {
    CharIndexIsBoundary(cut, chunk, p);
    GaloisConnection(cut, chunk, CharIndexOf(cut, chunk, p), p);
    forall c | Boundary(cut, chunk, c) && p <= PositionOf(cut, chunk, c) ensures CharIndexOf(cut, chunk, p) <= c {
      GaloisConnection(cut, chunk, c, p);
    }
  }

  // ----- where the anchors are -----

  /** At the end of an interval both maps are at its anchor. */
  lemma IntervalEnds(pieces: seq<string>, prev: Anchor, next: Anchor, length: nat)
    requires pieces != [] && NonEmpty(pieces) && PieceStart(pieces, |pieces|) == next.charIndex - prev.charIndex
    requires prev.position < next.position && next.charIndex <= length
    ensures PositionBetween(pieces, prev, next, next.charIndex) == next.position
    ensures CharIndexBetween(pieces, prev, next, next.position, length) == next.charIndex
  {
    var positions := next.position - prev.position;
    OffsetsInvert(pieces, |pieces|);
    PositionBetweenIs(pieces, prev, next, next.charIndex);
    OffsetBelow(positions, |pieces|, |pieces|);
    var g := CharIndexBetweenIs(pieces, prev, next, next.position, length);
    FloorCeil(positions, |pieces|, |pieces| - 1, positions);
    OffsetBelow(positions, |pieces|, |pieces| - 1);
  }

  lemma {:induction false} AnchorKeptFrom(cut: Segmenter, text: string, prev: Anchor, rest: seq<Anchor>, last: Anchor,
                                          j: nat)
    requires Segments(cut) && RisingTo(text, prev, rest, last) && j < |rest|
    ensures PositionFrom(cut, text, prev, rest, rest[j].charIndex) == rest[j].position
    ensures CharIndexFrom(cut, text, prev, rest, rest[j].position) == rest[j].charIndex
    decreases |rest|
  {
    RisingStep(text, prev, rest, last);
    if j == 0 {
      var pieces := IntervalPieces(cut, text, prev, rest[0]);
      IntervalEnds(pieces, prev, rest[0], |text|);
    } else {
      RisingInOrder(rest[0], rest[1..], j - 1);
      AnchorKeptFrom(cut, text, rest[0], rest[1..], last, j - 1);
    }
  }

  /** The maps meet every anchor: its character is at its position and its position leads to its character. */
  lemma AnchorsAreKept(cut: Segmenter, chunk: Chunk, j: nat)
    requires Segments(cut) && ValidChunk(chunk) && j < |chunk.anchors|
    ensures PositionOf(cut, chunk, chunk.anchors[j].charIndex) == chunk.anchors[j].position
    ensures CharIndexOf(cut, chunk, chunk.anchors[j].position) == chunk.anchors[j].charIndex
  {
    var a, first, rest := chunk.anchors[j], FirstAnchor(chunk), LaterAnchors(chunk);
    if j > 0 {
      RisingInOrder(first, rest, j - 1);
      if j < |chunk.anchors| - 1 { RisingInOrder(a, rest[j..], |rest| - 1 - j); }
      AnchorKeptFrom(cut, chunk.text, first, rest, LastAnchor(chunk), j - 1);
    } else {
      RisingInOrder(first, rest, |rest| - 1);
    }
    MapsOf(cut, chunk, a.charIndex, a.position);
  }

  /** The start of the interval that ends with the j-th later anchor. */
  function Before(chunk: Chunk, j: nat): Anchor
    requires j < |LaterAnchors(chunk)|
  {
    if j == 0 then FirstAnchor(chunk) else LaterAnchors(chunk)[j - 1]
  }

  lemma {:induction false} PositionInInterval(cut: Segmenter, text: string, prev: Anchor, rest: seq<Anchor>,
                                              last: Anchor, j: nat, c: int)
    requires Segments(cut) && RisingTo(text, prev, rest, last) && j < |rest|
    requires var from := if j == 0 then prev else rest[j - 1]; from.charIndex < c <= rest[j].charIndex
    ensures var from := if j == 0 then prev else rest[j - 1];
      var pieces := cut(Slice(text, from.charIndex, rest[j].charIndex));
      && from.charIndex < rest[j].charIndex && from.position < rest[j].position && rest[j].charIndex <= |text|
      && pieces != [] && PositionFrom(cut, text, prev, rest, c) == PositionBetween(pieces, from, rest[j], c)
    decreases |rest|
  {
    RisingStep(text, prev, rest, last);
    if j == 0 {
      var pieces := IntervalPieces(cut, text, prev, rest[0]);
    } else {
      RisingInOrder(rest[0], rest[1..], j - 1);
      if j > 1 { RisingInOrder(rest[0], rest[1..], j - 2); }
      PositionInInterval(cut, text, rest[0], rest[1..], last, j - 1, c);
    }
  }

  lemma PositionWithin(cut: Segmenter, chunk: Chunk, j: nat, c: int)
    requires Segments(cut) && ValidChunk(chunk) && j < |LaterAnchors(chunk)| && c <= |chunk.text|
    requires Before(chunk, j).charIndex < c <= LaterAnchors(chunk)[j].charIndex
    ensures var (prev, next) := (Before(chunk, j), LaterAnchors(chunk)[j]);
      var pieces := cut(Slice(chunk.text, prev.charIndex, next.charIndex));
      && pieces != [] && prev.position < next.position
      && PositionOf(cut, chunk, c) == PositionBetween(pieces, prev, next, c)
  {
    var first, rest := FirstAnchor(chunk), LaterAnchors(chunk);
    MapsOf(cut, chunk, 0, chunk.startPosition);
    if j > 0 { RisingInOrder(first, rest, j - 1); }
    MapsOf(cut, chunk, c, chunk.startPosition);
    PositionInInterval(cut, chunk.text, first, rest, LastAnchor(chunk), j, c);
  }

  /** Between two anchors positions go with graphemes in proportion, rounded down: the character's share of the
      positions is that of the graphemes that start before it. */
  lemma InProportion(cut: Segmenter, chunk: Chunk, j: nat, c: int)
    requires Segments(cut) && ValidChunk(chunk) && j < |LaterAnchors(chunk)| && c <= |chunk.text|
    requires Before(chunk, j).charIndex < c <= LaterAnchors(chunk)[j].charIndex
    ensures var (prev, next) := (Before(chunk, j), LaterAnchors(chunk)[j]);
      var pieces, offset := cut(Slice(chunk.text, prev.charIndex, next.charIndex)),
                            PositionOf(cut, chunk, c) - prev.position;
      var before := GraphemeOffset(pieces, c - prev.charIndex);
      |pieces| * offset <= (next.position - prev.position) * before < |pieces| * (offset + 1)
  {
    var prev, next := Before(chunk, j), LaterAnchors(chunk)[j];
    PositionWithin(cut, chunk, j, c);
    var pieces := cut(Slice(chunk.text, prev.charIndex, next.charIndex));
    PositionBetweenIs(pieces, prev, next, c);
    ShareRoundedDown(next.position - prev.position, |pieces|, GraphemeOffset(pieces, c - prev.charIndex));
  }

  lemma ShareRoundedDown(positions: int, length: nat, k: nat)
    requires length > 0
    ensures var offset := PositionOffset(positions, length, k);
      length * offset <= positions * k < length * (offset + 1)
  {
    var offset := positions * k / length;
    FloorIsGreatest(positions * k, length, offset);
    FloorIsGreatest(positions * k, length, offset + 1);
  }

  /** Beyond the chunk both maps stay at its ends. */
  lemma OutsideStays(cut: Segmenter, chunk: Chunk, c: int, p: int)
    requires chunk.startPosition <= chunk.endPosition
    ensures c <= 0 ==> PositionOf(cut, chunk, c) == PositionOf(cut, chunk, 0)
    ensures c >= |chunk.text| ==> PositionOf(cut, chunk, c) == PositionOf(cut, chunk, |chunk.text|)
    ensures p <= chunk.startPosition ==> CharIndexOf(cut, chunk, p) == CharIndexOf(cut, chunk, chunk.startPosition)
    ensures p >= chunk.endPosition ==> CharIndexOf(cut, chunk, p) == CharIndexOf(cut, chunk, chunk.endPosition)
  {
  }

  // ----- resuming playback -----

  /** The anchors after character `c`, counted from it. */
  function AnchorsAfter(anchors: seq<Anchor>, c: nat): seq<Anchor> {
    if anchors == [] then []
    else if anchors[0].charIndex > c
      then [Anchor(anchors[0].charIndex - c, anchors[0].position)] + AnchorsAfter(anchors[1..], c)
    else AnchorsAfter(anchors[1..], c)
  }

  /** What is left of a chunk from character `c` on. */
  function PlaybackFrom(cut: Segmenter, chunk: Chunk, c: nat): Chunk
    requires c <= |chunk.text|
  {
    var start, text, sorted := PositionOf(cut, chunk, c), chunk.text[c..], Sorted(chunk.anchors);
    if sorted == [] then chunk.(startPosition := start, text := text)
    else
      var anchors := [Anchor(0, start)] + AnchorsAfter(sorted, c);
      chunk.(startPosition := start, text := text, anchors := WithEnd(anchors, Anchor(|text|, chunk.endPosition)))
  }

  /** The anchors with one more at the end, unless they go as far already. */
  function WithEnd(anchors: seq<Anchor>, end: Anchor): seq<Anchor>
    requires anchors != []
  {
    var last := anchors[|anchors| - 1];
    if last.charIndex < end.charIndex || last.position < end.position then anchors + [end] else anchors
  }

  /** The chunk from the character that the position leads to, and that character; the whole chunk if there is
      nothing to skip or nothing would remain. */
  function PlaybackChunk(cut: Segmenter, chunk: Chunk, startPosition: Option<int>): (Chunk, int) {
    if startPosition.None? || startPosition.value <= chunk.startPosition || startPosition.value >= chunk.endPosition
      || chunk.text == ""
    then (chunk, 0)
    else
      var c := CharIndexOf(cut, chunk, startPosition.value);
      if c <= 0 || c >= |chunk.text| then (chunk, 0) else (PlaybackFrom(cut, chunk, c), c)
  }

  lemma {:induction false} AllAfter(prev: Anchor, rest: seq<Anchor>, c: nat)
    requires Rising(prev, rest) && prev.charIndex >= c
    ensures |AnchorsAfter(rest, c)| == |rest|
      && Rising(Anchor(prev.charIndex - c, prev.position), AnchorsAfter(rest, c))
    ensures rest != [] ==>
      var (a, b) := (AnchorsAfter(rest, c)[|rest| - 1], rest[|rest| - 1]);
      a.charIndex + c == b.charIndex && a.position == b.position
    decreases |rest|
  {
    if rest != [] { AllAfter(rest[0], rest[1..], c); }
  }

  /** At a boundary inside an interval the position is still before the end of the interval. */
  lemma {:induction false} BoundaryPosition(pieces: seq<string>, prev: Anchor, next: Anchor, c: int)
    requires pieces != [] && NonEmpty(pieces) && PieceStart(pieces, |pieces|) == next.charIndex - prev.charIndex
    requires prev.position < next.position && prev.charIndex < c <= next.charIndex
      && RoundUpBetween(pieces, prev, c) == c
    ensures if c < next.charIndex then PositionBetween(pieces, prev, next, c) < next.position
            else PositionBetween(pieces, prev, next, c) == next.position
  {
    var k, positions := GraphemeOffset(pieces, c - prev.charIndex), next.position - prev.position;
    PositionBetweenIs(pieces, prev, next, c);
    PieceStartOrder(pieces, |pieces|, k);
    OffsetBelow(positions, |pieces|, k);
  }

  lemma OffsetBelow(positions: int, graphemes: int, k: int)
    requires 0 <= k <= graphemes && positions > 0 && graphemes > 0
    ensures if k < graphemes then PositionOffset(positions, graphemes, k) < positions
      else PositionOffset(positions, graphemes, k) == positions
  {
    FloorIsGreatest(positions * k, graphemes, positions);
    FloorIsGreatest(positions * k, graphemes, positions + 1);
    if k < graphemes { ProductBelow(positions, k, graphemes); }
    assert graphemes * (positions + 1) == graphemes * positions + graphemes;
  }

  lemma ProductBelow(a: int, b: int, c: int)
    requires a > 0 && b < c
    ensures a * b < a * c == c * a
  {
  }

  /** The anchors after a character at or before the first of them. */
  lemma {:induction false} AfterHere(rest: seq<Anchor>, last: Anchor, c: nat, position: int)
    requires rest != [] && Rising(rest[0], rest[1..]) && rest[|rest| - 1] == last
    requires c <= rest[0].charIndex && c < last.charIndex
    requires if c < rest[0].charIndex then position < rest[0].position else position == rest[0].position
    ensures AnchorsAfter(rest, c) != [] && Rising(Anchor(0, position), AnchorsAfter(rest, c))
    ensures AnchorsAfter(rest, c)[|AnchorsAfter(rest, c)| - 1] == Anchor(last.charIndex - c, last.position)
  {
    var later := AnchorsAfter(rest[1..], c);
    AllAfter(rest[0], rest[1..], c);
    if c < rest[0].charIndex {
      var first := Anchor(rest[0].charIndex - c, rest[0].position);
      assert AnchorsAfter(rest, c) == [first] + later && ([first] + later)[1..] == later;
    }
  }

  lemma {:induction false} AfterBoundary(cut: Segmenter, text: string, prev: Anchor, rest: seq<Anchor>, last: Anchor,
                                         c: nat)
    requires Segments(cut) && RisingTo(text, prev, rest, last) && prev.charIndex < c < last.charIndex
      && RoundUpFrom(cut, text, prev, rest, c) == c
    ensures AnchorsAfter(rest, c) != []
      && Rising(Anchor(0, PositionFrom(cut, text, prev, rest, c)), AnchorsAfter(rest, c))
    ensures var after := AnchorsAfter(rest, c); after[|after| - 1] == Anchor(last.charIndex - c, last.position)
    decreases |rest|
  {
    RisingStep(text, prev, rest, last);
    if c > rest[0].charIndex {
      AfterBoundary(cut, text, rest[0], rest[1..], last, c);
    } else {
      var pieces := IntervalPieces(cut, text, prev, rest[0]);
      BoundaryPosition(pieces, prev, rest[0], c);
      AfterHere(rest, last, c, PositionBetween(pieces, prev, rest[0], c));
    }
  }

  lemma {:induction false} AnchoredFrom(first: Anchor, after: seq<Anchor>, last: Anchor)
    requires Rising(first, after) && after != [] && after[|after| - 1] == last
    ensures WithEnd([first] + after, last) == [first] + after && ([first] + after)[1..] == after
    ensures first.position < last.position
  {
    RisingInOrder(first, after, |after| - 1);
  }

  /** The chunk cut at a character, from what is left of its anchors. */
  lemma {:induction false} PlaybackFromIs(cut: Segmenter, chunk: Chunk, c: nat, start: Anchor, after: seq<Anchor>)
    requires ValidChunk(chunk) && c < |chunk.text| && start == Anchor(0, PositionOf(cut, chunk, c))
    requires after == AnchorsAfter(LaterAnchors(chunk), c) && FirstAnchor(chunk).charIndex <= c
    requires WithEnd([start] + after, Anchor(|chunk.text| - c, chunk.endPosition)) == [start] + after
    ensures PlaybackFrom(cut, chunk, c) ==
      Chunk(start.position, chunk.endPosition, chunk.text[c..], if chunk.anchors == [] then [] else [start] + after)
  {
    if chunk.anchors != [] {
      ValidStays(chunk);
      assert AnchorsAfter(chunk.anchors, c) == after;
    }
  }

  lemma CutChunkIsValid(chunk: Chunk, c: nat, start: Anchor, after: seq<Anchor>, playback: Chunk)
    requires c < |chunk.text| && start.charIndex == 0 && after != [] && Rising(start, after)
    requires after[|after| - 1] == Anchor(|chunk.text| - c, chunk.endPosition)
    requires playback == Chunk(start.position, chunk.endPosition, chunk.text[c..],
                               if chunk.anchors == [] then [] else [start] + after)
    ensures ValidChunk(playback) && FirstAnchor(playback) == start
  {
    AnchoredFrom(start, after, after[|after| - 1]);
  }

  /** Cut at a grapheme boundary, a valid chunk stays valid. */
  lemma CutIsValid(cut: Segmenter, chunk: Chunk, c: nat)
    requires Segments(cut) && ValidChunk(chunk) && 0 < c < |chunk.text| && Boundary(cut, chunk, c)
    ensures ValidChunk(PlaybackFrom(cut, chunk, c))
    ensures FirstAnchor(PlaybackFrom(cut, chunk, c)) == Anchor(0, PositionOf(cut, chunk, c))
  {
    MapsOf(cut, chunk, c, chunk.startPosition);
    var first, rest, last := FirstAnchor(chunk), LaterAnchors(chunk), LastAnchor(chunk);
    AfterBoundary(cut, chunk.text, first, rest, last, c);
    var after, start := AnchorsAfter(rest, c), Anchor(0, PositionOf(cut, chunk, c));
    AnchoredFrom(start, after, Anchor(last.charIndex - c, last.position));
    PlaybackFromIs(cut, chunk, c, start, after);
    CutChunkIsValid(chunk, c, start, after, PlaybackFrom(cut, chunk, c));
  }

  /** A chunk cut for playback is as valid as the chunk it is cut from: the maps connect on it as well. */
  lemma PlaybackIsValid(cut: Segmenter, chunk: Chunk, startPosition: Option<int>)
    requires Segments(cut) && ValidChunk(chunk)
    ensures var (playback, offset) := PlaybackChunk(cut, chunk, startPosition);
      && 0 <= offset < |chunk.text| && playback.text == chunk.text[offset..]
        && playback.endPosition == chunk.endPosition
      && ValidChunk(playback)
  {
    var (playback, c) := PlaybackChunk(cut, chunk, startPosition);
    if c > 0 {
      CharIndexIsBoundary(cut, chunk, startPosition.value);
      CutIsValid(cut, chunk, c);
    }
  }

  /** What follows the j-th anchor follows it among the shifted anchors. */
  lemma {:induction false} AfterAt(rest: seq<Anchor>, c: nat, j: nat) returns (k: nat)
    requires j < |rest| && rest[j].charIndex > c
    ensures k < |AnchorsAfter(rest, c)|
    ensures AnchorsAfter(rest, c)[k] == Anchor(rest[j].charIndex - c, rest[j].position)
    ensures AnchorsAfter(rest, c)[k + 1..] == AnchorsAfter(rest[j + 1..], c)
    decreases j
  {
    var later := AnchorsAfter(rest[1..], c);
    if j == 0 {
      k := 0;
    } else {
      k := AfterAt(rest[1..], c, j - 1);
      assert rest[1..][j..] == rest[j + 1..];
      if rest[0].charIndex > c {
        k := k + 1;
        assert AnchorsAfter(rest, c)[k + 1..] == later[k..];
      }
    }
  }

  /** Past an anchor the search goes on from it. */
  lemma {:induction false} SkipTo(cut: Segmenter, text: string, prev: Anchor, rest: seq<Anchor>, j: nat, c: int, p: int)
    requires Rising(prev, rest) && j < |rest| && c > rest[j].charIndex && p > rest[j].position
    ensures PositionFrom(cut, text, prev, rest, c) == PositionFrom(cut, text, rest[j], rest[j + 1..], c)
    ensures CharIndexFrom(cut, text, prev, rest, p) == CharIndexFrom(cut, text, rest[j], rest[j + 1..], p)
    decreases |rest|
  {
    if j > 0 {
      RisingInOrder(rest[0], rest[1..], j - 1);
      SkipTo(cut, text, rest[0], rest[1..], j - 1, c, p);
      assert rest[1..][j..] == rest[j + 1..];
    }
  }

  lemma SliceShifts(text: string, c: nat, from: nat, to: nat)
    requires c <= from < to <= |text|
    ensures Slice(text[c..], from - c, to - c) == Slice(text, from, to)
  {
    SliceOfSlice(text, c, |text|, from - c, to - c);
    assert text[c..|text|] == text[c..];
  }

  function Shifted(a: Anchor, c: nat): Anchor
    requires c <= a.charIndex
  {
    Anchor(a.charIndex - c, a.position)
  }

  /** The first interval of the search, or the rest of it. */
  lemma PositionStep(cut: Segmenter, text: string, prev: Anchor, rest: seq<Anchor>, pieces: seq<string>, c: int)
    requires rest != [] && prev.charIndex < rest[0].charIndex && prev.position < rest[0].position
    requires pieces == cut(Slice(text, prev.charIndex, rest[0].charIndex)) && pieces != []
    ensures PositionFrom(cut, text, prev, rest, c) ==
      if c > rest[0].charIndex then PositionFrom(cut, text, rest[0], rest[1..], c)
      else PositionBetween(pieces, prev, rest[0], c)
  {
  }

  lemma CharIndexStep(cut: Segmenter, text: string, prev: Anchor, rest: seq<Anchor>, pieces: seq<string>, p: int)
    requires rest != [] && prev.charIndex < rest[0].charIndex && prev.position < rest[0].position
    requires pieces == cut(Slice(text, prev.charIndex, rest[0].charIndex)) && pieces != []
    ensures CharIndexFrom(cut, text, prev, rest, p) ==
      if p > rest[0].position then CharIndexFrom(cut, text, rest[0], rest[1..], p)
      else CharIndexBetween(pieces, prev, rest[0], p, |text|)
  {
  }

  lemma ShiftedBetween(pieces: seq<string>, prev: Anchor, next: Anchor, c: nat, y: int)
    requires pieces != [] && c <= prev.charIndex <= next.charIndex
    ensures PositionBetween(pieces, Shifted(prev, c), Shifted(next, c), y - c) == PositionBetween(pieces, prev, next, y)
  {
  }

  lemma ShiftedBack(pieces: seq<string>, prev: Anchor, next: Anchor, c: nat, p: int, length: nat)
    requires pieces != [] && NonEmpty(pieces) && PieceStart(pieces, |pieces|) == next.charIndex - prev.charIndex
    requires prev.position < p <= next.position && next.charIndex <= length
    requires c <= prev.charIndex <= next.charIndex
    ensures CharIndexBetween(pieces, Shifted(prev, c), Shifted(next, c), p, length - c)
      == CharIndexBetween(pieces, prev, next, p, length) - c
  {
    var g := CharIndexBetweenIs(pieces, prev, next, p, length);
    var h := CharIndexBetweenIs(pieces, Shifted(prev, c), Shifted(next, c), p, length - c);
  }

  /** The anchors after one that comes after the cut. */
  lemma {:induction false} AfterStep(rest: seq<Anchor>, c: nat)
    requires rest != [] && rest[0].charIndex > c
    ensures AnchorsAfter(rest, c) != [] && AnchorsAfter(rest, c)[0] == Shifted(rest[0], c)
    ensures AnchorsAfter(rest, c)[1..] == AnchorsAfter(rest[1..], c)
  {
  }

  /** From an anchor on, positions do not depend on where the text was cut before it. */
  lemma {:induction false} ShiftedPosition(cut: Segmenter, text: string, rear: string, c: nat, prev: Anchor,
                                           rest: seq<Anchor>, after: seq<Anchor>, last: Anchor, y: int)
    requires Segments(cut) && RisingTo(text, prev, rest, last) && c <= prev.charIndex < y <= last.charIndex
    requires rear == text[c..] && after == AnchorsAfter(rest, c)
    ensures PositionFrom(cut, rear, Shifted(prev, c), after, y - c) == PositionFrom(cut, text, prev, rest, y)
    decreases |rest|
  {
    RisingStep(text, prev, rest, last);
    AfterStep(rest, c);
    SliceShifts(text, c, prev.charIndex, rest[0].charIndex);
    var pieces := IntervalPieces(cut, text, prev, rest[0]);
    PositionStep(cut, text, prev, rest, pieces, y);
    PositionStep(cut, rear, Shifted(prev, c), after, pieces, y - c);
    if y > rest[0].charIndex {
      ShiftedPosition(cut, text, rear, c, rest[0], rest[1..], after[1..], last, y);
    } else {
      ShiftedBetween(pieces, prev, rest[0], c, y);
    }
  }

  /** Nor do the characters that positions lead to. */
  lemma {:induction false} ShiftedCharIndex(cut: Segmenter, text: string, rear: string, c: nat, prev: Anchor,
                                            rest: seq<Anchor>, after: seq<Anchor>, last: Anchor, p: int)
    requires Segments(cut) && RisingTo(text, prev, rest, last) && c <= prev.charIndex
    requires prev.position < p <= last.position && c <= |text| && rear == text[c..] && after == AnchorsAfter(rest, c)
    ensures CharIndexFrom(cut, rear, Shifted(prev, c), after, p) == CharIndexFrom(cut, text, prev, rest, p) - c
    decreases |rest|
  {
    RisingStep(text, prev, rest, last);
    AfterStep(rest, c);
    SliceShifts(text, c, prev.charIndex, rest[0].charIndex);
    var pieces := IntervalPieces(cut, text, prev, rest[0]);
    CharIndexStep(cut, text, prev, rest, pieces, p);
    CharIndexStep(cut, rear, Shifted(prev, c), after, pieces, p);
    if p > rest[0].position {
      ShiftedCharIndex(cut, text, rear, c, rest[0], rest[1..], after[1..], last, p);
    } else {
      ShiftedBack(pieces, prev, rest[0], c, p, |text|);
    }
  }

  /** The search from the first of the anchors that remain, in the cut text and in the whole. */
  lemma {:induction false} SameAfter(cut: Segmenter, text: string, c: nat, first: Anchor, rest: seq<Anchor>,
                                     last: Anchor, start: Anchor, j: nat, y: int, p: int)
    requires Segments(cut) && RisingTo(text, first, rest, last) && j < |rest| && rest[j].charIndex > c
    requires Rising(start, AnchorsAfter(rest, c))
    requires rest[j].charIndex < y <= last.charIndex && rest[j].position < p <= last.position
    ensures PositionFrom(cut, text[c..], start, AnchorsAfter(rest, c), y - c) == PositionFrom(cut, text, first, rest, y)
    ensures CharIndexFrom(cut, text[c..], start, AnchorsAfter(rest, c), p)
      == CharIndexFrom(cut, text, first, rest, p) - c
  {
    var k := AfterAt(rest, c, j);
    RisingInOrder(first, rest, j);
    SkipTo(cut, text, first, rest, j, y, p);
    SkipTo(cut, text[c..], start, AnchorsAfter(rest, c), k, y - c, p);
    RisingInOrder(first, rest, |rest| - 1);
    assert rest[j + 1..] != [] && rest[j + 1..][|rest[j + 1..]| - 1] == last;
    ShiftedPosition(cut, text, text[c..], c, rest[j], rest[j + 1..], AnchorsAfter(rest[j + 1..], c), last, y);
    ShiftedCharIndex(cut, text, text[c..], c, rest[j], rest[j + 1..], AnchorsAfter(rest[j + 1..], c), last, p);
  }

  /** The anchors of a chunk cut for playback. */
  lemma {:induction false} PlaybackAnchors(cut: Segmenter, chunk: Chunk, c: nat)
    requires Segments(cut) && ValidChunk(chunk) && 0 < c < |chunk.text| && Boundary(cut, chunk, c)
      && chunk.anchors != []
    ensures var playback := PlaybackFrom(cut, chunk, c);
      && ValidChunk(playback) && playback.text == chunk.text[c..] && playback.endPosition == chunk.endPosition
      && FirstAnchor(playback) == Anchor(0, PositionOf(cut, chunk, c))
      && LaterAnchors(playback) == AnchorsAfter(LaterAnchors(chunk), c)
      && Rising(FirstAnchor(playback), LaterAnchors(playback))
  {
    var first, rest, last := FirstAnchor(chunk), LaterAnchors(chunk), LastAnchor(chunk);
    var start, after := Anchor(0, PositionOf(cut, chunk, c)), AnchorsAfter(LaterAnchors(chunk), c);
    MapsOf(cut, chunk, c, chunk.startPosition);
    CutIsValid(cut, chunk, c);
    AfterBoundary(cut, chunk.text, first, rest, last, c);
    AnchoredFrom(start, after, Anchor(last.charIndex - c, last.position));
    PlaybackFromIs(cut, chunk, c, start, after);
  }

  /** A valid chunk with the rest of the text and of the anchors of another. */
  ghost predicate RestOf(playback: Chunk, chunk: Chunk, c: nat) {
    && c < |chunk.text| && playback.text == chunk.text[c..] && playback.endPosition == chunk.endPosition
    && ValidChunk(playback) && FirstAnchor(playback).charIndex == 0
    && LaterAnchors(playback) == AnchorsAfter(LaterAnchors(chunk), c)
    && Rising(FirstAnchor(playback), LaterAnchors(playback))
  }

  /** Past an anchor both maps go on from the first anchor of the chunk. */
  lemma {:induction false} MapsPast(cut: Segmenter, chunk: Chunk, first: Anchor, rest: seq<Anchor>, k: nat, y: int,
                                    p: int)
    requires Segments(cut) && ValidChunk(chunk) && first == FirstAnchor(chunk) && rest == LaterAnchors(chunk)
    requires k < |rest| && Rising(first, rest) && 0 <= first.charIndex
    requires rest[k].charIndex < y <= |chunk.text| && rest[k].position < p <= chunk.endPosition
    ensures PositionOf(cut, chunk, y) == PositionFrom(cut, chunk.text, first, rest, y)
    ensures CharIndexOf(cut, chunk, p) == CharIndexFrom(cut, chunk.text, first, rest, p)
  {
    RisingInOrder(first, rest, k);
    MapsOf(cut, chunk, y, p);
  }

  /** What both maps come to past an anchor, given as numbers. */
  lemma {:induction false} ValuesPast(cut: Segmenter, chunk: Chunk, first: Anchor, rest: seq<Anchor>, k: nat, y: int,
                                      p: int, position: int, charIndex: int)
    requires Segments(cut) && ValidChunk(chunk) && first == FirstAnchor(chunk) && rest == LaterAnchors(chunk)
    requires k < |rest| && Rising(first, rest) && 0 <= first.charIndex
    requires rest[k].charIndex < y <= |chunk.text| && rest[k].position < p <= chunk.endPosition
    requires position == PositionFrom(cut, chunk.text, first, rest, y)
    requires charIndex == CharIndexFrom(cut, chunk.text, first, rest, p)
    ensures PositionOf(cut, chunk, y) == position && CharIndexOf(cut, chunk, p) == charIndex
  {
    MapsPast(cut, chunk, first, rest, k, y, p);
  }

  /** The same searches in the cut text and in the whole. */
  lemma {:induction false} ValuesAfter(cut: Segmenter, text: string, rear: string, c: nat, first: Anchor,
                                       rest: seq<Anchor>, last: Anchor, start: Anchor, after: seq<Anchor>, j: nat,
                                       y: int, p: int) returns (k: nat, position: int, charIndex: int)
    requires Segments(cut) && RisingTo(text, first, rest, last) && j < |rest| && rest[j].charIndex > c
    requires c <= |text| && rear == text[c..] && after == AnchorsAfter(rest, c) && Rising(start, after)
    requires rest[j].charIndex < y <= last.charIndex && rest[j].position < p <= last.position
    ensures k < |after| && after[k] == Anchor(rest[j].charIndex - c, rest[j].position)
    ensures position == PositionFrom(cut, text, first, rest, y) == PositionFrom(cut, rear, start, after, y - c)
    ensures charIndex == CharIndexFrom(cut, text, first, rest, p) == CharIndexFrom(cut, rear, start, after, p) + c
  {
    k := AfterAt(rest, c, j);
    SameAfter(cut, text, c, first, rest, last, start, j, y, p);
    position := PositionFrom(cut, text, first, rest, y);
    charIndex := CharIndexFrom(cut, text, first, rest, p);
  }

  lemma {:induction false} RestAgrees(cut: Segmenter, chunk: Chunk, playback: Chunk, c: nat, j: nat, y: int, p: int)
    requires Segments(cut) && ValidChunk(chunk) && RestOf(playback, chunk, c) && j < |LaterAnchors(chunk)|
    requires c < LaterAnchors(chunk)[j].charIndex < y <= |chunk.text|
    requires LaterAnchors(chunk)[j].position < p <= chunk.endPosition
    ensures PositionOf(cut, playback, y - c) == PositionOf(cut, chunk, y)
    ensures CharIndexOf(cut, playback, p) == CharIndexOf(cut, chunk, p) - c
  {
    var first, rest, start, after :=
      FirstAnchor(chunk), LaterAnchors(chunk), FirstAnchor(playback), LaterAnchors(playback);
    RisesToEnd(chunk);
    var k, position, charIndex :=
      ValuesAfter(cut, chunk.text, playback.text, c, first, rest, LastAnchor(chunk), start, after, j, y, p);
    ValuesPast(cut, chunk, first, rest, j, y, p, position, charIndex);
    ValuesPast(cut, playback, start, after, k, y - c, p, position, charIndex - c);
  }

  lemma {:induction false} RisesToEnd(chunk: Chunk)
    requires ValidChunk(chunk)
    ensures RisingTo(chunk.text, FirstAnchor(chunk), LaterAnchors(chunk), LastAnchor(chunk))
    ensures FirstAnchor(chunk).charIndex == 0
  {
  }

  /** Cut for playback, a chunk has the rest of its text where it was: from the next anchor on, both maps are those of
      the whole chunk, characters being counted from the cut. */
  lemma {:induction false} PlaybackAgrees(cut: Segmenter, chunk: Chunk, c: nat, j: nat, y: int, p: int)
    requires Segments(cut) && ValidChunk(chunk) && 0 < c < |chunk.text| && Boundary(cut, chunk, c)
    requires 0 < j < |chunk.anchors| && c < chunk.anchors[j].charIndex < y <= |chunk.text|
    requires chunk.anchors[j].position < p <= chunk.endPosition
    ensures PositionOf(cut, PlaybackFrom(cut, chunk, c), y - c) == PositionOf(cut, chunk, y)
    ensures CharIndexOf(cut, PlaybackFrom(cut, chunk, c), p) == CharIndexOf(cut, chunk, p) - c
  {
    PlaybackAnchors(cut, chunk, c);
    RestAgrees(cut, chunk, PlaybackFrom(cut, chunk, c), c, j - 1, y, p);
  }

  /** The last grapheme boundary up to a character. */
  ghost function LastBoundary(cut: Segmenter, chunk: Chunk, c: nat): (b: nat)
    requires c <= |chunk.text|
    ensures b <= c && Boundary(cut, chunk, b) && forall d | b < d <= c :: !Boundary(cut, chunk, d)
  {
    if c == 0 || Boundary(cut, chunk, c) then c else LastBoundary(cut, chunk, c - 1)
  }

  /** The position of the last grapheme of the chunk. */
  ghost function LastStart(cut: Segmenter, chunk: Chunk): int
    requires chunk.text != ""
  {
    PositionOf(cut, chunk, LastBoundary(cut, chunk, |chunk.text| - 1))
  }

  /** A position leads to the start of the text exactly if it is not after the position of its first character,
      and to the end exactly if it is after that of its last grapheme. */
  lemma CharIndexAtEnds(cut: Segmenter, chunk: Chunk, p: int)
    requires Segments(cut) && ValidChunk(chunk) && p <= chunk.endPosition
    ensures 0 <= CharIndexOf(cut, chunk, p) <= |chunk.text|
    ensures CharIndexOf(cut, chunk, p) == 0 <==> p <= PositionOf(cut, chunk, 0)
    ensures CharIndexOf(cut, chunk, p) == |chunk.text| <==> p > LastStart(cut, chunk)
  {
    var b := LastBoundary(cut, chunk, |chunk.text| - 1);
    CharIndexIsBoundary(cut, chunk, p);
    GaloisConnection(cut, chunk, 0, p);
    GaloisConnection(cut, chunk, b, p);
  }

  /** Playback asked to start inside a chunk speaks nothing from before there exactly if there is at or before the
      position of the last grapheme; asked to start after it, it speaks the whole chunk again. */
  lemma PlaybackSpeaks(cut: Segmenter, chunk: Chunk, p: int)
    requires Segments(cut) && ValidChunk(chunk) && chunk.startPosition < p < chunk.endPosition
    ensures p <= PositionOf(cut, PlaybackChunk(cut, chunk, Some(p)).0, 0) <==> p <= LastStart(cut, chunk)
    ensures p > LastStart(cut, chunk) ==> PlaybackChunk(cut, chunk, Some(p)) == (chunk, 0)
  {
    var c := CharIndexOf(cut, chunk, p);
    CharIndexAtEnds(cut, chunk, p);
    if 0 < c < |chunk.text| {
      CharIndexIsBoundary(cut, chunk, p);
      CutIsValid(cut, chunk, c);
      var playback := PlaybackFrom(cut, chunk, c);
      MapsOf(cut, playback, 0, playback.startPosition);
      ResumeNeverEarly(cut, chunk, p);
    }
  }

  /** The start position that playback reports is no earlier than asked exactly if the position asked for lies
      after that of the first character, too; at or before that, the start of the chunk is reported. */
  lemma PlaybackReports(cut: Segmenter, chunk: Chunk, p: int)
    requires Segments(cut) && ValidChunk(chunk) && chunk.startPosition < p < chunk.endPosition
    ensures p <= PlaybackChunk(cut, chunk, Some(p)).0.startPosition
      <==> PositionOf(cut, chunk, 0) < p <= LastStart(cut, chunk)
  {
    CharIndexAtEnds(cut, chunk, p);
    ResumeNeverEarly(cut, chunk, p);
  }
}
