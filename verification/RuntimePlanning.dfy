/** Fitting batches at run time against an arbitrary test, bisecting chunks that are too big on their own
    (extraction/core.go). A runtime batch is determined by its template and its chunks, so the planners work on
    chunk lists and a test of chunk lists. */
module RuntimePlanning {
  import opened Ordering
  import opened GreedySplit
  import opened Batching

  datatype Fit = Fits | TooBig | FitFailed(error: string)
  datatype Result<T> = Ok(value: T) | Err(error: string)

  type Test = seq<Chunk> -> Fit

  // ----- what bisection does to the chunks -----

  function TextOf(chunks: seq<Chunk>): string {
    if chunks == [] then "" else TextOf(chunks[..|chunks| - 1]) + chunks[|chunks| - 1].text
  }

  predicate SameOrigin(a: Chunk, b: Chunk) {
    a.episode == b.episode && a.title == b.title && a.chapter == b.chapter && a.subchapter == b.subchapter
  }

  /** Non-empty pieces of the origin of c that make up its text. */
  ghost predicate CutFrom(pieces: seq<Chunk>, c: Chunk) {
    pieces != [] && TextOf(pieces) == c.text && forall i | 0 <= i < |pieces| ::
      pieces[i].text != "" && SameOrigin(pieces[i], c)
  }

  /** The chunk itself, or two or more pieces cut from it. */
  ghost predicate PiecesOf(pieces: seq<Chunk>, c: Chunk) {
    pieces == [c] || (|pieces| >= 2 && CutFrom(pieces, c))
  }

  ghost predicate Regroups(groups: seq<seq<Chunk>>, whole: seq<Chunk>) {
    |groups| == |whole| && forall i | 0 <= i < |whole| :: PiecesOf(groups[i], whole[i])
  }

  /** `parts` are the chunks of `whole` in order, some of them cut into pieces. */
  ghost predicate Resplits(parts: seq<Chunk>, whole: seq<Chunk>) {
    exists groups :: Flatten(groups) == parts && Regroups(groups, whole)
  }

  lemma ResplitsOne(pieces: seq<Chunk>, c: Chunk)
    requires PiecesOf(pieces, c)
    ensures Resplits(pieces, [c])
  {
    FlattenSnoc([], pieces);
    assert [] + [pieces] == [pieces];
    assert Flatten([pieces]) == pieces && Regroups([pieces], [c]);
  }

  lemma ResplitsConcat(a: seq<Chunk>, x: seq<Chunk>, b: seq<Chunk>, y: seq<Chunk>)
    requires Resplits(a, x) && Resplits(b, y)
    ensures Resplits(a + b, x + y)
  {
    var ga :| Flatten(ga) == a && Regroups(ga, x);
    var gb :| Flatten(gb) == b && Regroups(gb, y);
    FlattenConcat(ga, gb);
    assert Regroups(ga + gb, x + y);
  }

  function Singles(pieces: seq<Chunk>): seq<seq<Chunk>> {
    seq(|pieces|, i requires 0 <= i < |pieces| => [pieces[i]])
  }

  lemma {:induction false} FlattenSingles(pieces: seq<Chunk>)
    ensures Flatten(Singles(pieces)) == pieces
  {
    if pieces != [] {
      var init := pieces[..|pieces| - 1];
      FlattenSingles(init);
      assert Singles(pieces)[..|pieces| - 1] == Singles(init);
      assert init + [pieces[|pieces| - 1]] == pieces;
    }
  }

  lemma ResplitsSelf(chunks: seq<Chunk>)
    ensures Resplits(chunks, chunks)
  {
    FlattenSingles(chunks);
    assert Regroups(Singles(chunks), chunks);
  }

  lemma {:induction false} TextConcat(a: seq<Chunk>, b: seq<Chunk>)
    ensures TextOf(a + b) == TextOf(a) + TextOf(b)
  {
    if b == [] {
      assert a + b == a;
    } else {
      assert (a + b)[..|a + b| - 1] == a + b[..|b| - 1];
      TextConcat(a, b[..|b| - 1]);
    }
  }

  lemma TextOfOne(c: Chunk)
    ensures TextOf([c]) == c.text
  {
    assert [c][..0] == [];
  }

  lemma {:induction false} RegroupsKeepsText(groups: seq<seq<Chunk>>, whole: seq<Chunk>)
    requires Regroups(groups, whole)
    ensures TextOf(Flatten(groups)) == TextOf(whole)
  {
    if groups != [] {
      var n := |groups| - 1;
      RegroupsKeepsText(groups[..n], whole[..n]);
      TextConcat(Flatten(groups[..n]), groups[n]);
      assert PiecesOf(groups[n], whole[n]);
      TextOfOne(whole[n]);
    }
  }

  /** Cutting chunks into pieces keeps the concatenated text. */
  lemma {:induction false} ResplitsKeepsText(parts: seq<Chunk>, whole: seq<Chunk>)
    requires Resplits(parts, whole)
    ensures TextOf(parts) == TextOf(whole)
  {
    var groups :| Flatten(groups) == parts && Regroups(groups, whole);
    RegroupsKeepsText(groups, whole);
  }

  /** Pieces cut once more are still pieces. */
  lemma {:induction false} CutAgain(groups: seq<seq<Chunk>>, pieces: seq<Chunk>, c: Chunk)
    requires Regroups(groups, pieces)
    requires forall i | 0 <= i < |pieces| :: pieces[i].text != "" && SameOrigin(pieces[i], c)
    ensures |Flatten(groups)| >= |pieces|
    ensures forall i | 0 <= i < |Flatten(groups)| :: Flatten(groups)[i].text != "" && SameOrigin(Flatten(groups)[i], c)
  {
    if groups != [] {
      var n := |groups| - 1;
      CutAgain(groups[..n], pieces[..n], c);
      assert PiecesOf(groups[n], pieces[n]);
    }
  }

  /** A group of pieces, each cut again, is a group of pieces. */
  lemma {:induction false} PiecesAgain(inner: seq<seq<Chunk>>, pieces: seq<Chunk>, c: Chunk)
    requires Regroups(inner, pieces) && PiecesOf(pieces, c)
    ensures PiecesOf(Flatten(inner), c)
  {
    if pieces == [c] {
      FlattenOne(inner);
      assert PiecesOf(inner[0], pieces[0]);
    } else {
      CutAgain(inner, pieces, c);
      RegroupsKeepsText(inner, pieces);
    }
  }

  lemma FlattenOne<T>(groups: seq<seq<T>>)
    requires |groups| == 1
    ensures Flatten(groups) == groups[0]
  {
    FlattenSnoc([], groups[0]);
    assert groups == [] + [groups[0]];
  }

  /** The inner groups gathered along the outer ones. */
  ghost function Compose(inner: seq<seq<Chunk>>, outer: seq<seq<Chunk>>): seq<seq<Chunk>>
    requires |inner| == |Flatten(outer)|
    decreases |outer|
  {
    if outer == [] then []
    else
      var k := |Flatten(outer[..|outer| - 1])|;
      Compose(inner[..k], outer[..|outer| - 1]) + [Flatten(inner[k..])]
  }

  lemma {:induction false} RegroupsParts(groups: seq<seq<Chunk>>, a: seq<Chunk>, b: seq<Chunk>)
    requires Regroups(groups, a + b)
    ensures Regroups(groups[..|a|], a) && Regroups(groups[|a|..], b)
    ensures Flatten(groups) == Flatten(groups[..|a|]) + Flatten(groups[|a|..])
  {
    var front, back := groups[..|a|], groups[|a|..];
    forall i | 0 <= i < |a| ensures PiecesOf(front[i], a[i]) { assert front[i] == groups[i] && a[i] == (a + b)[i]; }
    forall i | 0 <= i < |b| ensures PiecesOf(back[i], b[i]) {
      assert back[i] == groups[|a| + i] && b[i] == (a + b)[|a| + i];
    }
    assert groups == front + back;
    FlattenConcat(front, back);
  }

  lemma {:induction false} ComposeRegroups(inner: seq<seq<Chunk>>, outer: seq<seq<Chunk>>, whole: seq<Chunk>)
    requires Regroups(inner, Flatten(outer)) && Regroups(outer, whole)
    ensures Flatten(Compose(inner, outer)) == Flatten(inner) && Regroups(Compose(inner, outer), whole)
  {
    if outer != [] {
      var n := |outer| - 1;
      var k := |Flatten(outer[..n])|;
      RegroupsParts(inner, Flatten(outer[..n]), outer[n]);
      ComposeRegroups(inner[..k], outer[..n], whole[..n]);
      assert PiecesOf(outer[n], whole[n]);
      PiecesAgain(inner[k..], outer[n], whole[n]);
      RegroupsSnoc(Compose(inner[..k], outer[..n]), Flatten(inner[k..]), whole);
      FlattenSnoc(Compose(inner[..k], outer[..n]), Flatten(inner[k..]));
    }
  }

  lemma RegroupsSnoc(groups: seq<seq<Chunk>>, last: seq<Chunk>, whole: seq<Chunk>)
    requires whole != [] && Regroups(groups, whole[..|whole| - 1]) && PiecesOf(last, whole[|whole| - 1])
    ensures Regroups(groups + [last], whole)
  {
    var before, all := whole[..|whole| - 1], groups + [last];
    forall i | 0 <= i < |all| ensures PiecesOf(all[i], whole[i]) {
      if i < |groups| { assert PiecesOf(groups[i], before[i]); }
    }
  }

  lemma ResplitsTransitive(a: seq<Chunk>, b: seq<Chunk>, c: seq<Chunk>)
    requires Resplits(a, b) && Resplits(b, c)
    ensures Resplits(a, c)
  {
    var inner :| Flatten(inner) == a && Regroups(inner, b);
    var outer :| Flatten(outer) == b && Regroups(outer, c);
    ComposeRegroups(inner, outer, c);
  }

  // ----- bisection -----

  /** A stretch of the chunk's text. */
  ghost predicate PartOf(p: Chunk, c: Chunk) {
    SameOrigin(p, c) && exists from, to :: StretchOf(p.text, c.text, from, to)
  }

  ghost predicate StretchOf(part: string, text: string, from: int, to: int) {
    0 <= from <= to <= |text| && part == text[from..to]
  }

  /** A part of c at which the test fails, or that it rejects although it is a single rune. */
  ghost predicate BlockedAt(p: Chunk, c: Chunk, test: Test) {
    PartOf(p, c) && p.text != "" && (test([p]).FitFailed? || (test([p]).TooBig? && |p.text| == 1))
  }

  /** What can stop a bisection of c: having nothing to bisect, or such a part. */
  ghost predicate Blocked(c: Chunk, test: Test) {
    |c.text| <= 1 || exists p: Chunk :: BlockedAt(p, c, test)
  }

  lemma PartOfItself(c: Chunk)
    ensures PartOf(c, c)
  {
    assert StretchOf(c.text, c.text, 0, |c.text|);
  }

  lemma PartOfHalf(p: Chunk, half: Chunk, c: Chunk, from: nat, to: nat)
    requires PartOf(p, half) && SameOrigin(half, c) && from <= to <= |c.text| && half.text == c.text[from..to]
    ensures PartOf(p, c)
  {
    var i, j :| StretchOf(p.text, half.text, i, j);
    SliceOfSlice(c.text, from, to, i, j);
    assert StretchOf(p.text, c.text, from + i, from + j);
  }

  /** A half in which the test is blocked blocks the whole. */
  lemma BlockedHalf(half: Chunk, c: Chunk, from: nat, to: nat, test: Test)
    requires SameOrigin(half, c) && from <= to <= |c.text| && half.text == c.text[from..to]
    requires exists p: Chunk :: BlockedAt(p, half, test)
    ensures Blocked(c, test)
  {
    var p: Chunk :| BlockedAt(p, half, test);
    PartOfHalf(p, half, c, from, to);
    assert BlockedAt(p, c, test);
  }

  function MaxInt(a: int, b: int): int { if a > b then a else b }

  lemma CutJoins(a: seq<Chunk>, left: Chunk, b: seq<Chunk>, right: Chunk, c: Chunk)
    requires CutFrom(a, left) && CutFrom(b, right) && SameOrigin(left, c) && SameOrigin(right, c)
    requires left.text + right.text == c.text
    ensures CutFrom(a + b, c) && |a + b| >= 2
  {
    TextConcat(a, b);
  }

  ghost predicate EachFits(pieces: seq<Chunk>, test: Test) {
    forall i | 0 <= i < |pieces| :: test([pieces[i]]).Fits?
  }

  function LeftHalf(c: Chunk): Chunk
    requires |c.text| >= 2
  {
    c.(text := c.text[..|c.text| / 2], count := MaxInt(c.count, 2))
  }

  function RightHalf(c: Chunk): Chunk
    requires |c.text| >= 2
  {
    c.(text := c.text[|c.text| / 2..], index := c.index + 1, count := MaxInt(c.count, 2))
  }

  /** The pieces of a chunk of two runes or more are those of its left half and then those of its right half. */
  ghost predicate Halved(pieces: seq<Chunk>, c: Chunk, test: Test)
    decreases |c.text|, 0
  {
    |c.text| >= 2 && exists k | 0 <= k <= |pieces| ::
      HalfDone(pieces[..k], LeftHalf(c), test) && HalfDone(pieces[k..], RightHalf(c), test)
  }

  /** A half that fits is a piece; only one that the test finds too big is cut again. */
  ghost predicate HalfDone(pieces: seq<Chunk>, half: Chunk, test: Test)
    decreases |half.text|, 1
  {
    if test([half]).Fits? then pieces == [half] else test([half]).TooBig? && Halved(pieces, half, test)
  }

  /** The halves make up the text and differ by at most one rune, the right one being the longer one; they keep where
      the chunk comes from, the right one has the next number, and both count two chunks at least. */
  lemma HalvesAreEven(c: Chunk)
    requires |c.text| >= 2
    ensures LeftHalf(c).text + RightHalf(c).text == c.text
    ensures |LeftHalf(c).text| <= |RightHalf(c).text| <= |LeftHalf(c).text| + 1
    ensures SameOrigin(LeftHalf(c), c) && SameOrigin(RightHalf(c), c)
    ensures LeftHalf(c).index == c.index && RightHalf(c).index == c.index + 1
    ensures LeftHalf(c).count == RightHalf(c).count == if c.count < 2 then 2 else c.count
  {
  }

  /** What halving gives: two pieces or more that fit and make up the chunk. */
  lemma {:induction false} HalvedFits(pieces: seq<Chunk>, c: Chunk, test: Test)
    requires Halved(pieces, c, test)
    ensures |pieces| >= 2 && CutFrom(pieces, c) && EachFits(pieces, test)
    decreases |c.text|, 0
  {
    var k :| 0 <= k <= |pieces| &&
      HalfDone(pieces[..k], LeftHalf(c), test) && HalfDone(pieces[k..], RightHalf(c), test);
    HalvesAreEven(c);
    HalfFits(pieces[..k], LeftHalf(c), test);
    HalfFits(pieces[k..], RightHalf(c), test);
    Rejoin(pieces, k);
    CutJoins(pieces[..k], LeftHalf(c), pieces[k..], RightHalf(c), c);
  }

  lemma {:induction false} HalfFits(pieces: seq<Chunk>, half: Chunk, test: Test)
    requires half.text != "" && HalfDone(pieces, half, test)
    ensures CutFrom(pieces, half) && EachFits(pieces, test)
    decreases |half.text|, 1
  {
    if test([half]).Fits? { TextOfOne(half); } else { HalvedFits(pieces, half, test); }
  }

  /** The test accepts a single chunk exactly if it has at most `limit` runes. */
  ghost predicate ByLength(test: Test, limit: nat) {
    forall c: Chunk {:trigger test([c])} :: test([c]) == if |c.text| <= limit then Fits else TooBig
  }

  /** For a test by length no piece is shorter than half the limit. */
  lemma {:induction false} HalvedNotTooSmall(pieces: seq<Chunk>, c: Chunk, test: Test, limit: nat)
    requires Halved(pieces, c, test) && ByLength(test, limit) && |c.text| > limit
    ensures forall i | 0 <= i < |pieces| :: limit <= 2 * |pieces[i].text| && |pieces[i].text| <= limit
    decreases |c.text|, 0
  {
    var k :| 0 <= k <= |pieces| &&
      HalfDone(pieces[..k], LeftHalf(c), test) && HalfDone(pieces[k..], RightHalf(c), test);
    HalvesAreEven(c);
    assert |LeftHalf(c).text| + |RightHalf(c).text| == |c.text|;
    HalfNotTooSmall(pieces[..k], LeftHalf(c), test, limit);
    HalfNotTooSmall(pieces[k..], RightHalf(c), test, limit);
    forall i | 0 <= i < |pieces| ensures limit <= 2 * |pieces[i].text| && |pieces[i].text| <= limit {
      if i < k { assert pieces[i] == pieces[..k][i]; } else { assert pieces[i] == pieces[k..][i - k]; }
    }
  }

  lemma {:induction false} HalfNotTooSmall(pieces: seq<Chunk>, half: Chunk, test: Test, limit: nat)
    requires HalfDone(pieces, half, test) && ByLength(test, limit) && limit <= 2 * |half.text|
    ensures forall i | 0 <= i < |pieces| :: limit <= 2 * |pieces[i].text| && |pieces[i].text| <= limit
    decreases |half.text|, 1
  {
    if |half.text| > limit { HalvedNotTooSmall(pieces, half, test, limit); }
  }

  lemma {:induction false} TextAtLeast(pieces: seq<Chunk>, limit: nat)
    requires forall i | 0 <= i < |pieces| :: limit <= 2 * |pieces[i].text|
    ensures limit * |pieces| <= 2 * |TextOf(pieces)|
  {
    if pieces != [] {
      var before := pieces[..|pieces| - 1];
      TextAtLeast(before, limit);
      assert limit * |pieces| == limit * |before| + limit;
    }
  }

  /** So a chunk is cut into at most twice as many pieces as there must be. */
  lemma {:induction false} HalvedIntoFew(pieces: seq<Chunk>, c: Chunk, test: Test, limit: nat)
    requires Halved(pieces, c, test) && ByLength(test, limit) && |c.text| > limit
    ensures limit * |pieces| <= 2 * |c.text|
  {
    HalvedFits(pieces, c, test);
    HalvedNotTooSmall(pieces, c, test, limit);
    TextAtLeast(pieces, limit);
  }

  /** Bisecting an oversized chunk until every piece fits: the pieces are those of halving, they fit one by one and make
      up the chunk; or the bisection was blocked. */
  method BisectChunk(chunk: Chunk, test: Test) returns (r: Result<seq<Chunk>>)
    ensures r.Ok? ==> Halved(r.value, chunk, test)
    ensures r.Ok? ==> |r.value| >= 2 && CutFrom(r.value, chunk) && EachFits(r.value, test)
    ensures r.Err? ==> Blocked(chunk, test)
    decreases |chunk.text|, 0
  {
    if |chunk.text| <= 1 { return Err("cannot fit even after splitting: " + chunk.episode); }
    var mid := |chunk.text| / 2;
    if mid < 1 { mid := 1; }
    var left := chunk.(text := chunk.text[..mid], count := MaxInt(chunk.count, 2));
    var right := chunk.(text := chunk.text[mid..], index := chunk.index + 1, count := MaxInt(chunk.count, 2));
    var first := FitOrBisect(left, test);
    if first.Err? {
      BlockedHalf(left, chunk, 0, mid, test);
      return first;
    }
    var second := FitOrBisect(right, test);
    if second.Err? {
      BlockedHalf(right, chunk, mid, |chunk.text|, test);
      return second;
    }
    ghost var pieces := first.value + second.value;
    assert pieces[..|first.value|] == first.value && pieces[|first.value|..] == second.value;
    HalvedFits(pieces, chunk, test);
    return Ok(first.value + second.value);
  }

  /** One of the two halves. */
  method FitOrBisect(piece: Chunk, test: Test) returns (r: Result<seq<Chunk>>)
    requires piece.text != ""
    ensures r.Ok? ==> HalfDone(r.value, piece, test)
    ensures r.Err? ==> exists p: Chunk :: BlockedAt(p, piece, test)
    decreases |piece.text|, 1
  {
    PartOfItself(piece);
    match test([piece])
    case FitFailed(e) =>
      assert BlockedAt(piece, piece, test);
      return Err(e);
    case Fits =>
      return Ok([piece]);
    case TooBig =>
      if |piece.text| == 1 { assert BlockedAt(piece, piece, test); }
      r := BisectChunk(piece, test);
  }

  // ----- planning one batch -----

  function Runes(chunks: seq<Chunk>): nat { |TextOf(chunks)| }

  /** Less text, or as much text in fewer chunks. */
  predicate Smaller(rest: seq<Chunk>, chunks: seq<Chunk>) {
    Runes(rest) < Runes(chunks) || (Runes(rest) == Runes(chunks) && |rest| < |chunks|)
  }

  /** A planned batch is the longest prefix all of whose prefixes fit, or, when not even the first chunk fits, the
      first of its pieces. */
  ghost predicate Planned(now: seq<Chunk>, rest: seq<Chunk>, chunks: seq<Chunk>, test: Test) {
    || (0 < |now| <= |chunks| && now == chunks[..|now|] && rest == chunks[|now|..]
        && (forall k | 0 < k <= |now| :: test(chunks[..k]).Fits?)
        && (rest != [] ==> test(chunks[..|now| + 1]).TooBig?))
    || (chunks != [] && test(chunks[..1]).TooBig? && exists pieces :: FirstPiece(pieces, now, rest, chunks, test))
  }

  ghost predicate FirstPiece(pieces: seq<Chunk>, now: seq<Chunk>, rest: seq<Chunk>, chunks: seq<Chunk>, test: Test)
    requires chunks != []
  {
    |pieces| >= 2 && Halved(pieces, chunks[0], test) && now == pieces[..1] && rest == pieces[1..] + chunks[1..]
  }

  method PlanBatch(chunks: seq<Chunk>, test: Test) returns (r: Result<(seq<Chunk>, seq<Chunk>)>)
    ensures chunks == [] ==> r == Ok(([], []))
    ensures chunks != [] && r.Ok? ==> Planned(r.value.0, r.value.1, chunks, test)
    ensures r.Err? ==> chunks != [] &&
                       (Blocked(chunks[0], test) || exists k | 0 < k <= |chunks| :: test(chunks[..k]).FitFailed?)
  {
    if chunks == [] { return Ok(([], [])); }
    var current: seq<Chunk> := [];
    for i := 0 to |chunks|
      invariant current == chunks[..i]
      invariant forall k | 0 < k <= i :: test(chunks[..k]).Fits?
    {
      var candidate := current + [chunks[i]];
      assert candidate == chunks[..i + 1];
      match test(candidate)
      case FitFailed(e) =>
        return Err(e);
      case Fits =>
        current := candidate;
      case TooBig =>
        if current != [] {
          return Ok((current, chunks[i..]));
        }
        var split := BisectChunk(chunks[i], test);
        if split.Err? { return Err(split.error); }
        var pieces := split.value;
        assert FirstPiece(pieces, pieces[..1], pieces[1..] + chunks[1..], chunks, test);
        return Ok((pieces[..1], pieces[1..] + chunks[i + 1..]));
    }
    assert chunks[..|chunks|] == chunks && chunks[|chunks|..] == [];
    return Ok((current, []));
  }

  lemma FirstPieceFacts(pieces: seq<Chunk>, now: seq<Chunk>, rest: seq<Chunk>, chunks: seq<Chunk>, test: Test)
    requires chunks != [] && FirstPiece(pieces, now, rest, chunks, test)
    ensures |now| == 1 && test(now).Fits? && now[0].text != ""
    ensures Resplits(now + rest, chunks)
  {
    HalvedFits(pieces, chunks[0], test);
    assert now == [pieces[0]];
    assert chunks == [chunks[0]] + chunks[1..];
    assert now + rest == pieces + chunks[1..];
    FirstCut(pieces, chunks[0], chunks[1..]);
  }

  lemma FirstCut(pieces: seq<Chunk>, c: Chunk, others: seq<Chunk>)
    requires PiecesOf(pieces, c)
    ensures Resplits(pieces + others, [c] + others)
  {
    ResplitsOne(pieces, c);
    ResplitsSelf(others);
    ResplitsConcat(pieces, [c], others, others);
  }

  /** A planned batch fits, loses nothing, and leaves less to do. */
  lemma PlannedFacts(now: seq<Chunk>, rest: seq<Chunk>, chunks: seq<Chunk>, test: Test)
    requires Planned(now, rest, chunks, test)
    ensures now != [] && test(now).Fits?
    ensures Resplits(now + rest, chunks) && Smaller(rest, chunks)
  {
    if 0 < |now| <= |chunks| && now == chunks[..|now|] && rest == chunks[|now|..] && test(chunks[..|now|]).Fits? {
      assert now + rest == chunks;
      ResplitsSelf(chunks);
      TextConcat(now, rest);
    } else {
      var pieces :| FirstPiece(pieces, now, rest, chunks, test);
      PlannedPiece(pieces, now, rest, chunks, test);
    }
  }

  lemma PlannedPiece(pieces: seq<Chunk>, now: seq<Chunk>, rest: seq<Chunk>, chunks: seq<Chunk>, test: Test)
    requires chunks != [] && FirstPiece(pieces, now, rest, chunks, test)
    ensures now != [] && test(now).Fits?
    ensures Resplits(now + rest, chunks) && Smaller(rest, chunks)
  {
    FirstPieceFacts(pieces, now, rest, chunks, test);
    ResplitsKeepsText(now + rest, chunks);
    TextConcat(now, rest);
    TextOfOne(now[0]);
    assert now == [now[0]];
  }

  // ----- planning all batches -----

  ghost predicate AllFit(groups: seq<seq<Chunk>>, test: Test) {
    forall i | 0 <= i < |groups| :: groups[i] != [] && test(groups[i]).Fits?
  }

  /** The batches so far and the open one are the chunks so far, possibly cut. */
  ghost predicate Progress(result: seq<seq<Chunk>>, current: seq<Chunk>, done: seq<Chunk>, test: Test) {
    AllFit(result, test) && (current != [] ==> test(current).Fits?) && Resplits(Flatten(result) + current, done)
  }

  lemma CloseOpen(result: seq<seq<Chunk>>, current: seq<Chunk>, done: seq<Chunk>, test: Test)
    requires Progress(result, current, done, test) && current != []
    ensures Progress(result + [current], [], done, test)
  {
    FlattenSnoc(result, current);
    assert Flatten(result + [current]) + [] == Flatten(result) + current;
  }

  lemma AddWhole(result: seq<seq<Chunk>>, current: seq<Chunk>, done: seq<Chunk>, c: Chunk, test: Test)
    requires Progress(result, current, done, test) && test(current + [c]).Fits?
    ensures Progress(result, current + [c], done + [c], test)
  {
    ResplitsOne([c], c);
    ResplitsConcat(Flatten(result) + current, done, [c], [c]);
    assert Flatten(result) + current + [c] == Flatten(result) + (current + [c]);
  }

  lemma AddPieces(result: seq<seq<Chunk>>, done: seq<Chunk>, c: Chunk, pieces: seq<Chunk>, test: Test)
    requires Progress(result, [], done, test) && |pieces| >= 2 && CutFrom(pieces, c) && EachFits(pieces, test)
    ensures Progress(result + Singles(pieces), [], done + [c], test)
  {
    ResplitsOne(pieces, c);
    ResplitsConcat(Flatten(result) + [], done, pieces, [c]);
    PiecesAdded(result, pieces);
    var all := result + Singles(pieces);
    forall i | 0 <= i < |all| ensures all[i] != [] && test(all[i]).Fits? {
      if i >= |result| { assert test([pieces[i - |result|]]).Fits?; }
    }
  }

  lemma {:induction false} PiecesAdded(result: seq<seq<Chunk>>, pieces: seq<Chunk>)
    ensures Flatten(result) + [] + pieces == Flatten(result + Singles(pieces)) + []
  {
    FlattenSingles(pieces);
    FlattenConcat(result, Singles(pieces));
  }

  // ----- why a batch is closed and a chunk is cut -----

  function Opened(result: seq<seq<Chunk>>, current: seq<Chunk>): seq<seq<Chunk>> {
    if current == [] then result else result + [current]
  }

  /** A chunk joins the open batch if it fits there; else it opens one if it fits alone; only a chunk that does not is
      cut, into batches of one piece. */
  ghost predicate PlanStep(result: seq<seq<Chunk>>, current: seq<Chunk>, c: Chunk, result': seq<seq<Chunk>>,
                           current': seq<Chunk>, test: Test)
  {
    if test(current + [c]).Fits? then result' == result && current' == current + [c]
    else
      && test(current + [c]).TooBig?
      && if test([c]).Fits? then result' == Opened(result, current) && current' == [c]
         else test([c]).TooBig? && current' == [] && exists pieces ::
           Halved(pieces, c, test) && result' == Opened(result, current) + Singles(pieces)
  }

  /** The batches closed and the one open after these chunks. */
  ghost predicate Planning(result: seq<seq<Chunk>>, current: seq<Chunk>, chunks: seq<Chunk>, test: Test)
    decreases |chunks|
  {
    if chunks == [] then result == [] && current == []
    else
      exists before, open {:trigger PlanStep(before, open, chunks[|chunks| - 1], result, current, test)} ::
        Planning(before, open, chunks[..|chunks| - 1], test)
          && PlanStep(before, open, chunks[|chunks| - 1], result, current, test)
  }

  ghost predicate IsPlan(groups: seq<seq<Chunk>>, chunks: seq<Chunk>, test: Test) {
    exists result, current :: Planning(result, current, chunks, test) && groups == Opened(result, current)
  }

  function TooMuchFor(test: Test): seq<Chunk> -> bool { (group: seq<Chunk>) => !test(group).Fits? }

  lemma {:induction false} PlanningIsGreedy(result: seq<seq<Chunk>>, current: seq<Chunk>, chunks: seq<Chunk>,
                                            test: Test)
    requires Planning(result, current, chunks, test) && forall i | 0 <= i < |chunks| :: test([chunks[i]]).Fits?
    ensures Opened(result, current) == Greedy(chunks, TooMuchFor(test)) && (current == [] ==> chunks == [])
    decreases |chunks|
  {
    if chunks != [] {
      var prefix, c := chunks[..|chunks| - 1], chunks[|chunks| - 1];
      var before, open :| Planning(before, open, prefix, test) && PlanStep(before, open, c, result, current, test);
      assert forall i | 0 <= i < |prefix| :: prefix[i] == chunks[i];
      PlanningIsGreedy(before, open, prefix, test);
      StepIsGreedy(before, open, c, result, current, test);
    }
  }

  lemma StepIsGreedy(before: seq<seq<Chunk>>, open: seq<Chunk>, c: Chunk, result: seq<seq<Chunk>>,
                     current: seq<Chunk>, test: Test)
    requires PlanStep(before, open, c, result, current, test) && test([c]).Fits?
    requires open == [] ==> Opened(before, open) == []
    ensures Opened(result, current) == Place(Opened(before, open), c, TooMuchFor(test)) && current != []
  {
    if open == [] { assert before == [] && open + [c] == [c] && [] + [[c]] == [[c]]; }
    assert (before + [open])[..|before|] == before;
  }

  /** Where every chunk fits alone none is cut, and the batches are as few as can be: where taking in more chunks never
      makes a batch fit again, no division of the chunks in order into batches that fit has fewer. */
  lemma {:induction false} PlanIsFewest(groups: seq<seq<Chunk>>, chunks: seq<Chunk>, test: Test,
                                        parts: seq<seq<Chunk>>)
    requires IsPlan(groups, chunks, test) && forall i | 0 <= i < |chunks| :: test([chunks[i]]).Fits?
    requires forall a, b :: test(a + b).Fits? ==> test(a).Fits? && test(b).Fits?
    requires Flatten(parts) == chunks && forall i | 0 <= i < |parts| :: parts[i] != [] && test(parts[i]).Fits?
    ensures Flatten(groups) == chunks && |groups| <= |parts|
  {
    var result, current :| Planning(result, current, chunks, test) && groups == Opened(result, current);
    PlanningIsGreedy(result, current, chunks, test);
    GreedyIsOptimal(chunks, TooMuchFor(test));
    assert Division(parts, chunks, TooMuchFor(test));
  }

  lemma PlanningSnoc(result: seq<seq<Chunk>>, current: seq<Chunk>, chunks: seq<Chunk>, c: Chunk,
                     result': seq<seq<Chunk>>, current': seq<Chunk>, test: Test)
    requires Planning(result, current, chunks, test) && PlanStep(result, current, c, result', current', test)
    ensures Planning(result', current', chunks + [c], test)
  {
    var all := chunks + [c];
    assert all[..|all| - 1] == chunks;
    assert PlanStep(result, current, all[|all| - 1], result', current', test);
  }

  /** One iteration of the loop. */
  method PlanOne(result: seq<seq<Chunk>>, current: seq<Chunk>, c: Chunk, test: Test, ghost done: seq<Chunk>)
    returns (r: Result<(seq<seq<Chunk>>, seq<Chunk>)>)
    requires Progress(result, current, done, test)
    ensures r.Ok? ==> Progress(r.value.0, r.value.1, done + [c], test)
    ensures r.Ok? ==> PlanStep(result, current, c, r.value.0, r.value.1, test)
    ensures r.Err? ==> Blocked(c, test) || exists open :: test(open + [c]).FitFailed?
  {
    var fit := test(current + [c]);
    if fit.FitFailed? { return Err(fit.error); }
    if fit.Fits? {
      AddWhole(result, current, done, c, test);
      return Ok((result, current + [c]));
    }
    var closed := result;
    if current != [] {
      CloseOpen(result, current, done, test);
      closed := result + [current];
    }
    assert [] + [c] == [c];
    var single := test([c]);
    if single.FitFailed? { return Err(single.error); }
    if single.Fits? {
      AddWhole(closed, [], done, c, test);
      return Ok((closed, [c]));
    }
    var split := BisectChunk(c, test);
    if split.Err? { return Err(split.error); }
    AddPieces(closed, done, c, split.value, test);
    return Ok((closed + Singles(split.value), []));
  }

  /** All chunks in batches that fit, nothing lost or reordered, each closed and each chunk cut only if it has to be. */
  method PlanBatches(chunks: seq<Chunk>, test: Test) returns (r: Result<seq<seq<Chunk>>>)
    ensures r.Ok? ==> AllFit(r.value, test) && Resplits(Flatten(r.value), chunks) && IsPlan(r.value, chunks, test)
    ensures r.Err? ==> exists i | 0 <= i < |chunks| ::
      Blocked(chunks[i], test) || exists current :: test(current + [chunks[i]]).FitFailed?
  {
    var result: seq<seq<Chunk>> := [];
    var current: seq<Chunk> := [];
    ResplitsSelf([]);
    assert Flatten(result) + current == [];
    for i := 0 to |chunks|
      invariant Progress(result, current, chunks[..i], test) && Planning(result, current, chunks[..i], test)
    {
      TakeNext(chunks, i);
      var next := PlanOne(result, current, chunks[i], test, chunks[..i]);
      if next.Err? { return Err(next.error); }
      PlanningSnoc(result, current, chunks[..i], chunks[i], next.value.0, next.value.1, test);
      result, current := next.value.0, next.value.1;
    }
    assert chunks[..|chunks|] == chunks;
    assert IsPlan(Opened(result, current), chunks, test);
    if current != [] {
      CloseOpen(result, current, chunks, test);
      result := result + [current];
    }
    assert Flatten(result) + [] == Flatten(result);
    return Ok(result);
  }

  // ----- the planners as called, on batches -----

  function RuntimeBatch(template: Batch, chunks: seq<Chunk>): Batch {
    Batch(template.index, template.count, UniqueEpisodes(chunks), chunks)
  }

  /** A runtime batch keeps the number and count of its template, and lists the episodes of its chunks once each, in the
      order of their first chunks. */
  lemma RuntimeBatchKeeps(template: Batch, chunks: seq<Chunk>)
    ensures var batch := RuntimeBatch(template, chunks);
      && batch.index == template.index && batch.count == template.count && batch.chunks == chunks
      && NoDup(batch.episodes)
      && (forall e :: e in batch.episodes <==> exists i :: 0 <= i < |chunks| && chunks[i].episode == e)
      && forall i, j | 0 <= i < j < |batch.episodes| ::
        ComesFirst(EpisodesOf(chunks), batch.episodes[i], batch.episodes[j])
  {
    var batch, episodes := RuntimeBatch(template, chunks), EpisodesOf(chunks);
    DistinctInOrder(episodes, Any);
    forall e ensures e in batch.episodes <==> exists i :: 0 <= i < |chunks| && chunks[i].episode == e {
      assert e in batch.episodes <==> e in Elems(batch.episodes);
      if i :| 0 <= i < |chunks| && chunks[i].episode == e { assert episodes[i] == e; }
    }
  }

  /** One batch that fits per piece of the batch's only chunk. */
  ghost predicate SplitInto(batches: seq<Batch>, pieces: seq<Chunk>, batch: Batch, fits: Batch -> Fit)
    requires |batch.chunks| == 1
  {
    && |pieces| == |batches| >= 2 && CutFrom(pieces, batch.chunks[0])
    && Halved(pieces, batch.chunks[0], TestOf(batch, fits))
    && forall i | 0 <= i < |pieces| :: batches[i] == RuntimeBatch(batch, [pieces[i]]) && fits(batches[i]).Fits?
  }

  method SplitOversizedChunkBatch(batch: Batch, fits: Batch -> Fit) returns (r: Result<seq<Batch>>)
    ensures |batch.chunks| != 1 ==> r == Ok([batch])
    ensures |batch.chunks| == 1 && r.Ok? ==> exists pieces :: SplitInto(r.value, pieces, batch, fits)
  {
    if |batch.chunks| != 1 { return Ok([batch]); }
    var test := TestOf(batch, fits);
    var pieces := BisectChunk(batch.chunks[0], test);
    if pieces.Err? { return Err(pieces.error); }
    forall i | 0 <= i < |pieces.value| ensures fits(RuntimeBatch(batch, [pieces.value[i]])).Fits? {
      assert test([pieces.value[i]]).Fits?;
    }
    var batches := seq(|pieces.value|, i requires 0 <= i < |pieces.value| => RuntimeBatch(batch, [pieces.value[i]]));
    assert SplitInto(batches, pieces.value, batch, fits);
    return Ok(batches);
  }

  method PlanRuntimeBatch(template: Batch, chunks: seq<Chunk>, fits: Batch -> Fit)
    returns (r: Result<(Batch, seq<Chunk>)>)
    ensures chunks == [] ==> r == Ok((RuntimeBatch(template, []), []))
    ensures chunks != [] && r.Ok? ==>
      && r.value.0 == RuntimeBatch(template, r.value.0.chunks) && r.value.0.chunks != [] && fits(r.value.0).Fits?
      && Resplits(r.value.0.chunks + r.value.1, chunks) && Smaller(r.value.1, chunks)
      && Planned(r.value.0.chunks, r.value.1, chunks, TestOf(template, fits))
  {
    var test := TestOf(template, fits);
    var plan := PlanBatch(chunks, test);
    if plan.Err? { return Err(plan.error); }
    if chunks != [] { PlannedFacts(plan.value.0, plan.value.1, chunks, test); }
    return Ok((RuntimeBatch(template, plan.value.0), plan.value.1));
  }

  function ChunksOf(batches: seq<Batch>): seq<seq<Chunk>> {
    seq(|batches|, i requires 0 <= i < |batches| => batches[i].chunks)
  }

  /** The test of chunk lists that goes with a test of batches. */
  function TestOf(batch: Batch, fits: Batch -> Fit): Test { (chunks: seq<Chunk>) => fits(RuntimeBatch(batch, chunks)) }

  ghost predicate PlansBatch(batches: seq<Batch>, batch: Batch, fits: Batch -> Fit) {
    && IsPlan(ChunksOf(batches), batch.chunks, TestOf(batch, fits))
    && forall i | 0 <= i < |batches| :: batches[i] == RuntimeBatch(batch, batches[i].chunks)
  }

  /** A batch that fits is left as it is, one of a single chunk is cut by halving, any other planned chunk by chunk. */
  method PlanRuntimeBatches(batch: Batch, fits: Batch -> Fit) returns (r: Result<seq<Batch>>)
    ensures batch.chunks == [] || fits(batch).Fits? ==> r == Ok([batch])
    ensures |batch.chunks| == 1 && !fits(batch).Fits? && r.Ok? ==>
      exists pieces :: SplitInto(r.value, pieces, batch, fits)
    ensures |batch.chunks| > 1 && !fits(batch).Fits? && r.Ok? ==> PlansBatch(r.value, batch, fits)
    ensures batch.chunks != [] && r.Ok? ==>
      && (forall i | 0 <= i < |r.value| :: fits(r.value[i]).Fits? && r.value[i].chunks != [])
      && Resplits(Flatten(ChunksOf(r.value)), batch.chunks)
  {
    if batch.chunks == [] { return Ok([batch]); }
    var fit := fits(batch);
    if fit.FitFailed? { return Err(fit.error); }
    if fit.Fits? {
      ResplitsSelf(batch.chunks);
      assert ChunksOf([batch]) == [batch.chunks];
      FlattenSnoc([], batch.chunks);
      assert [] + [batch.chunks] == [batch.chunks];
      return Ok([batch]);
    }
    if |batch.chunks| == 1 {
      r := SplitOversizedChunkBatch(batch, fits);
      if r.Ok? {
        ghost var pieces :| SplitInto(r.value, pieces, batch, fits);
        assert ChunksOf(r.value) == Singles(pieces);
        FlattenSingles(pieces);
        ResplitsOne(pieces, batch.chunks[0]);
        assert [batch.chunks[0]] == batch.chunks;
      }
      return;
    }
    r := PlanManyChunks(batch, fits);
  }

  method PlanManyChunks(batch: Batch, fits: Batch -> Fit) returns (r: Result<seq<Batch>>)
    requires batch.chunks != []
    ensures r.Ok? ==> PlansBatch(r.value, batch, fits)
    ensures r.Ok? ==>
      && (forall i | 0 <= i < |r.value| :: fits(r.value[i]).Fits? && r.value[i].chunks != [])
      && Resplits(Flatten(ChunksOf(r.value)), batch.chunks)
  {
    var test := TestOf(batch, fits);
    var plan := PlanBatches(batch.chunks, test);
    if plan.Err? { return Err(plan.error); }
    forall i | 0 <= i < |plan.value| ensures fits(RuntimeBatch(batch, plan.value[i])).Fits? && plan.value[i] != [] {
      assert test(plan.value[i]).Fits?;
    }
    var batches := seq(|plan.value|, i requires 0 <= i < |plan.value| => RuntimeBatch(batch, plan.value[i]));
    assert ChunksOf(batches) == plan.value;
    return Ok(batches);
  }

  /** The batches planned so far and the remainder are the chunks, possibly cut. */
  ghost predicate Covers(batches: seq<Batch>, remaining: seq<Chunk>, chunks: seq<Chunk>) {
    Resplits(Flatten(ChunksOf(batches)) + remaining, chunks)
  }

  ghost predicate FitInTurn(batches: seq<Batch>, fitsAt: nat -> (Batch -> Fit)) {
    forall i | 0 <= i < |batches| :: fitsAt(i)(batches[i]).Fits? && batches[i].chunks != []
  }

  /** One more planned batch. */
  lemma DrainStep(batches: seq<Batch>, remaining: seq<Chunk>, batch: Batch, rest: seq<Chunk>, chunks: seq<Chunk>,
                  fitsAt: nat -> (Batch -> Fit))
    requires Covers(batches, remaining, chunks) && Resplits(batch.chunks + rest, remaining)
    requires FitInTurn(batches, fitsAt) && fitsAt(|batches|)(batch).Fits? && batch.chunks != []
    ensures Covers(batches + [batch], rest, chunks) && FitInTurn(batches + [batch], fitsAt)
  {
    assert ChunksOf(batches + [batch]) == ChunksOf(batches) + [batch.chunks];
    FlattenSnoc(ChunksOf(batches), batch.chunks);
    ReplanTail(Flatten(ChunksOf(batches)), remaining, batch.chunks, rest, chunks);
  }

  lemma ReplanTail(done: seq<Chunk>, remaining: seq<Chunk>, now: seq<Chunk>, rest: seq<Chunk>, chunks: seq<Chunk>)
    requires Resplits(done + remaining, chunks) && Resplits(now + rest, remaining)
    ensures Resplits(done + now + rest, chunks)
  {
    ResplitsSelf(done);
    ResplitsConcat(done, done, now + rest, remaining);
    assert done + (now + rest) == done + now + rest;
    ResplitsTransitive(done + now + rest, done + remaining, chunks);
  }

  lemma DrainStart(chunks: seq<Chunk>)
    ensures Covers([], chunks, chunks)
  {
    assert Flatten(ChunksOf([])) + chunks == chunks;
    ResplitsSelf(chunks);
  }

  lemma DrainEnd(batches: seq<Batch>, chunks: seq<Chunk>)
    requires Covers(batches, [], chunks)
    ensures Resplits(Flatten(ChunksOf(batches)), chunks)
  {
    assert Flatten(ChunksOf(batches)) + [] == Flatten(ChunksOf(batches));
  }

  /** Planning again and again on the remainder, as the generation loop does, with a test that may change between
      the calls: it ends, and its batches fit the test of their own round and make up the chunks. */
  method DrainBatches(template: Batch, chunks: seq<Chunk>, fitsAt: nat -> (Batch -> Fit))
    returns (r: Result<seq<Batch>>)
    ensures r.Ok? ==> Resplits(Flatten(ChunksOf(r.value)), chunks) && FitInTurn(r.value, fitsAt)
  {
    var remaining := chunks;
    var batches: seq<Batch> := [];
    DrainStart(chunks);
    while remaining != []
      invariant Covers(batches, remaining, chunks) && FitInTurn(batches, fitsAt)
      decreases Runes(remaining), |remaining|
    {
      var plan := PlanRuntimeBatch(template, remaining, fitsAt(|batches|));
      if plan.Err? { return Err(plan.error); }
      DrainStep(batches, remaining, plan.value.0, plan.value.1, chunks, fitsAt);
      batches := batches + [plan.value.0];
      remaining := plan.value.1;
    }
    DrainEnd(batches, chunks);
    return Ok(batches);
  }
}
