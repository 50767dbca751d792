/** Speech fragments and the splitting of oversized ones (readerSpeech.ts). */
module SpeechFragments {
  import opened Ordering
  import opened Arithmetic
  import opened Graphemes

  datatype Fragment = Fragment(text: string, start: int, end: int)

  /** Something to say at a place of the document. */
  predicate Proper(f: Fragment) { f.text != "" && f.start < f.end }

  function CreateFragment(text: string, start: int, end: int): (r: Option<Fragment>)
    ensures r.Some? <==> text != "" && start < end
    ensures r.Some? ==> r.value == Fragment(text, start, end)
  {
    if end <= start || text == "" then None else Some(Fragment(text, start, end))
  }

  /** Proper fragments in document order, without overlap. */
  ghost predicate Ordered(fragments: seq<Fragment>) {
    && (forall i | 0 <= i < |fragments| :: Proper(fragments[i]))
    && (forall i, j | 0 <= i < j < |fragments| :: fragments[i].end <= fragments[j].start)
  }

  function RawText(fragments: seq<Fragment>): string {
    if fragments == [] then "" else RawText(fragments[..|fragments| - 1]) + fragments[|fragments| - 1].text
  }

  lemma {:induction false} RawTextConcat(a: seq<Fragment>, b: seq<Fragment>)
    ensures RawText(a + b) == RawText(a) + RawText(b)
  {
    if b == [] {
      assert a + b == a;
    } else {
      assert (a + b)[..|a + b| - 1] == a + b[..|b| - 1];
      RawTextConcat(a, b[..|b| - 1]);
    }
  }

  /** The i-th of `n` bounds that divide a length evenly. */
  function Bound(length: int, i: int, n: int): int requires n > 0 { length * i / n }

  /** The bounds that cut a length into `n` parts: they rise from 0 to the length, in steps of at most `step`,
      and each above the one before if there are enough to go round; else the first step is empty. */
  ghost predicate Divides(bounds: seq<int>, length: int, n: int, step: int) {
    && n > 0 && |bounds| == n + 1 && bounds[0] == 0 && bounds[n] == length
    && (forall i, j | 0 <= i <= j <= n :: 0 <= bounds[i] <= bounds[j] <= length)
    && (length <= step * n ==> forall i, j | 0 <= i && j == i + 1 && j <= n :: bounds[j] - bounds[i] <= step)
    && (if length >= n then forall i, j | 0 <= i && j == i + 1 && j <= n :: bounds[i] < bounds[j] else bounds[1] == 0)
  }

  function Bounds(length: int, n: int): seq<int> requires n > 0 {
    seq(n + 1, i requires 0 <= i <= n => Bound(length, i, n))
  }

  lemma BoundStep(length: int, i: int, n: int, step: int)
    requires n > 0 && 0 <= length
    ensures length >= n ==> Bound(length, i, n) < Bound(length, i + 1, n)
    ensures length <= step * n ==> Bound(length, i + 1, n) - Bound(length, i, n) <= step
  {
    var b := Bound(length, i, n);
    assert length * (i + 1) == length * i + length;
    FloorIsGreatest(length * i, n, b);
    FloorIsGreatest(length * (i + 1), n, b + 1);
    assert n * (b + 1) == n * b + n;
    if length <= step * n {
      FloorIsGreatest(length * i, n, b + 1);
      FloorIsGreatest(length * (i + 1), n, b + 1 + step);
      assert n * (b + 1 + step) == n * (b + 1) + step * n;
    }
  }

  lemma BoundRises(length: int, i: int, j: int, n: int)
    requires n > 0 && 0 <= length && i <= j
    ensures Bound(length, i, n) <= Bound(length, j, n)
  {
    var b := Bound(length, i, n);
    assert length * i <= length * j;
    FloorIsGreatest(length * i, n, b);
    FloorIsGreatest(length * j, n, b);
  }

  lemma BoundEnds(length: int, n: int)
    requires n > 0
    ensures Bound(length, 0, n) == 0 && Bound(length, n, n) == length
    ensures 0 <= length < n ==> Bound(length, 1, n) == 0
  {
    FloorIsGreatest(length * n, n, length);
    FloorIsGreatest(length * n, n, length + 1);
    assert n * (length + 1) == length * n + n;
    FloorIsGreatest(length, n, 1);
    FloorIsGreatest(length, n, 0);
  }

  lemma BoundsDivide(length: int, n: int, step: int)
    requires n > 0 && 0 <= length
    ensures Divides(Bounds(length, n), length, n, step)
  {
    BoundEnds(length, n);
    forall i, j | 0 <= i <= j <= n ensures 0 <= Bound(length, i, n) <= Bound(length, j, n) <= length {
      BoundRises(length, 0, i, n);
      BoundRises(length, i, j, n);
      BoundRises(length, j, n, n);
    }
    forall i, j | 0 <= i && j == i + 1 && j <= n
      ensures length <= step * n ==> Bound(length, j, n) - Bound(length, i, n) <= step
      ensures length >= n ==> Bound(length, i, n) < Bound(length, j, n)
    {
      BoundStep(length, i, n, step);
    }
  }

  /** How many parts an oversized fragment is cut into. */
  function TotalParts(speech: nat, positions: int, max: int): int
    requires max > 0
  {
    Max(CeilingDiv(Max(speech, 1), max), CeilingDiv(Max(positions, 1), max))
  }

  lemma ProductGrows(a: int, b: int)
    requires a >= 0 && b > 0
    ensures a <= b * a
  {
  }

  lemma CeilingBounds(a: int, max: int)
    requires a > 0 && max > 0
    ensures 0 < CeilingDiv(a, max) <= a && a <= max * CeilingDiv(a, max)
  {
    ProductGrows(a, max);
    CeilingIsLeast(a, max, 0);
    CeilingIsLeast(a, max, a);
    CeilingIsLeast(a, max, CeilingDiv(a, max));
  }

  lemma TotalPartsIs(speech: nat, positions: int, max: int) returns (n: int)
    requires max > 0 && speech > 0 && positions > 0
    ensures n == TotalParts(speech, positions, max) && n > 0 && positions <= max * n
    ensures n <= positions <==> speech <= max * positions
    ensures n > positions ==> n <= speech
  {
    CeilingBounds(speech, max);
    CeilingBounds(positions, max);
    CeilingIsLeast(speech, max, positions);
    n := TotalParts(speech, positions, max);
    CeilingIsLeast(positions, max, n);
  }

  /** Bounds that a text is cut at. */
  ghost predicate Slices(pieces: seq<string>, speech: seq<int>) {
    forall j, k | 0 <= j <= k < |speech| :: 0 <= speech[j] <= speech[k] <= |pieces|
  }

  /** Positions that rise in steps of at most `max`. */
  ghost predicate Steps(positions: seq<int>, max: int) {
    positions != [] && positions[0] == 0 &&
    forall j, k | 0 <= j && k == j + 1 && k < |positions| :: positions[j] <= positions[k] <= positions[j] + max
  }

  /** Taking in one more part. */
  function AddPart(before: seq<Fragment>, pieces: seq<string>, f: Fragment, from: int, to: int, start: int,
                   end: int): seq<Fragment>
    requires 0 <= from <= to <= |pieces|
  {
    var part := CreateFragment(Join(pieces[from..to]), f.start + start, f.start + end);
    if part.Some? then before + [part.value] else before
  }

  /** The first `i` parts: those with text and positions between their bounds. */
  function Parts(pieces: seq<string>, f: Fragment, speech: seq<int>, positions: seq<int>, i: nat): seq<Fragment>
    requires i < |speech| == |positions| && Slices(pieces, speech)
  {
    if i == 0 then []
    else AddPart(Parts(pieces, f, speech, positions, i - 1), pieces, f, speech[i - 1], speech[i], positions[i - 1],
      positions[i])
  }

  /** The fragment itself if it is small enough, else its graphemes and positions divided evenly. */
  ghost predicate IsSplit(cut: Segmenter, f: Fragment, max: int, parts: seq<Fragment>)
    requires max > 0
  {
    var pieces, n := cut(f.text), TotalParts(CountGraphemes(cut, f.text), f.end - f.start, max);
    if |pieces| <= max && f.end - f.start <= max
    then parts == [f]
    else
      && n > 0 && Slices(pieces, Bounds(|pieces|, n))
      && parts == Parts(pieces, f, Bounds(|pieces|, n), Bounds(f.end - f.start, n), n)
  }

  method SplitOversizedFragment(cut: Segmenter, f: Fragment, max: int) returns (parts: seq<Fragment>)
    requires Segments(cut) && max > 0 && Proper(f)
    ensures IsSplit(cut, f, max, parts)
  {
    var pieces := cut(f.text);
    SegmentsEnd(cut, f.text);
    ghost var n := TotalPartsIs(|pieces|, f.end - f.start, max);
    if |pieces| <= max && f.end - f.start <= max { return [f]; }
    var totalParts := Max(CeilingDiv(Max(|pieces|, 1), max), CeilingDiv(Max(f.end - f.start, 1), max));
    parts := DivideFragment(pieces, f, totalParts);
  }

  method DivideFragment(pieces: seq<string>, f: Fragment, totalParts: int) returns (parts: seq<Fragment>)
    requires totalParts > 0 && Proper(f)
    ensures Slices(pieces, Bounds(|pieces|, totalParts))
    ensures parts == Parts(pieces, f, Bounds(|pieces|, totalParts), Bounds(f.end - f.start, totalParts), totalParts)
  {
    var length := f.end - f.start;
    ghost var speech, positions := Bounds(|pieces|, totalParts), Bounds(length, totalParts);
    BoundsDivide(|pieces|, totalParts, 0);
    parts := [];
    for index := 0 to totalParts
      invariant parts == Parts(pieces, f, speech, positions, index)
    {
      var startPosition, endPosition := Bound(length, index, totalParts), Bound(length, index + 1, totalParts);
      var startSpeech, endSpeech := Bound(|pieces|, index, totalParts), Bound(|pieces|, index + 1, totalParts);
      assert startSpeech == speech[index] && endSpeech == speech[index + 1];
      assert startPosition == positions[index] && endPosition == positions[index + 1];
      var text := Join(pieces[startSpeech..endSpeech]);
      var next := CreateFragment(text, f.start + startPosition, f.start + endPosition);
      if next.Some? { parts := parts + [next.value]; }
    }
  }

  ghost predicate Within(parts: seq<Fragment>, from: int, to: int) {
    forall i | 0 <= i < |parts| :: from <= parts[i].start && parts[i].end <= to
  }

  ghost predicate Short(parts: seq<Fragment>, max: int) {
    forall i | 0 <= i < |parts| :: parts[i].end - parts[i].start <= max
  }

  /** In order, in place and short enough. */
  ghost predicate Placed(parts: seq<Fragment>, from: int, to: int, max: int) {
    Ordered(parts) && Within(parts, from, to) && Short(parts, max)
  }

  lemma PlacedSnoc(parts: seq<Fragment>, part: Option<Fragment>, from: int, middle: int, to: int, max: int)
    requires Placed(parts, from, middle, max) && from <= middle <= to
    requires part.Some? ==>
      Proper(part.value) && part.value.start == middle && part.value.end == to && to - middle <= max
    ensures Placed(if part.Some? then parts + [part.value] else parts, from, to, max)
  {
  }

  /** A part of at most `max` positions, or none. */
  lemma AddPartPlaced(before: seq<Fragment>, pieces: seq<string>, f: Fragment, from: int, to: int, start: int, end: int,
                      max: int)
    requires 0 <= from <= to <= |pieces| && start <= end <= start + max
    requires Placed(before, f.start, f.start + start, max) && 0 <= start
    ensures Placed(AddPart(before, pieces, f, from, to, start, end), f.start, f.start + end, max)
  {
    PlacedSnoc(before, CreateFragment(Join(pieces[from..to]), f.start + start, f.start + end), f.start, f.start
      + start, f.start + end, max);
  }

  lemma {:induction false} PartsOrdered(pieces: seq<string>, f: Fragment, speech: seq<int>, positions: seq<int>, i: nat,
                                        max: int)
    requires i < |speech| == |positions| && Slices(pieces, speech) && Steps(positions, max)
    ensures Placed(Parts(pieces, f, speech, positions, i), f.start, f.start + positions[i], max)
  {
    if i > 0 {
      PartsOrdered(pieces, f, speech, positions, i - 1, max);
      StepRises(positions, i - 1, max);
      AddPartPlaced(Parts(pieces, f, speech, positions, i - 1), pieces, f, speech[i - 1], speech[i], positions[i - 1],
        positions[i], max);
    }
  }

  lemma {:induction false} StepRises(positions: seq<int>, i: nat, max: int)
    requires Steps(positions, max) && i + 1 < |positions|
    ensures 0 <= positions[i] <= positions[i + 1] <= positions[i] + max
  {
    if i > 0 { StepRises(positions, i - 1, max); }
  }

  lemma {:induction false} RawTextSnoc(parts: seq<Fragment>, f: Fragment)
    ensures RawText(parts + [f]) == RawText(parts) + f.text
  {
    assert (parts + [f])[..|parts|] == parts;
  }

  /** What one more part adds to the text: its share of the graphemes, if it has a position. */
  lemma PartsSnoc(pieces: seq<string>, f: Fragment, speech: seq<int>, positions: seq<int>, i: nat)
    requires 0 < i < |speech| == |positions| && Slices(pieces, speech)
    ensures RawText(Parts(pieces, f, speech, positions, i))
         == RawText(Parts(pieces, f, speech, positions, i - 1)) +
            if positions[i - 1] < positions[i] then Join(pieces[speech[i - 1]..speech[i]]) else ""
  {
    var before, text := Parts(pieces, f, speech, positions, i - 1), Join(pieces[speech[i - 1]..speech[i]]);
    RawTextSnoc(before, Fragment(text, f.start + positions[i - 1], f.start + positions[i]));
    assert RawText(before) + "" == RawText(before);
  }

  /** Bounds that a text is cut at: rising, from nothing to all of it. */
  ghost predicate Cuts(pieces: seq<string>, speech: seq<int>, n: int) {
    && 0 < n && |speech| == n + 1 && speech[0] == 0 && speech[n] == |pieces|
    && Slices(pieces, speech)
  }

  /** With a position for every part, no text is lost. */
  lemma {:induction false} PartsKeepText(pieces: seq<string>, f: Fragment, speech: seq<int>, positions: seq<int>,
                                         n: int, i: nat)
    requires Cuts(pieces, speech, n) && |positions| == n + 1 && i <= n
    requires forall j, k | 0 <= j && k == j + 1 && k <= n :: positions[j] < positions[k]
    ensures RawText(Parts(pieces, f, speech, positions, i)) == Join(pieces[..speech[i]])
  {
    if i > 0 {
      PartsKeepText(pieces, f, speech, positions, n, i - 1);
      assert positions[i - 1] < positions[i];
      PartsSnoc(pieces, f, speech, positions, i);
      JoinExtends(pieces, speech[i - 1], speech[i]);
    } else {
      assert pieces[..speech[0]] == [];
    }
  }

  /** With fewer positions than parts, the first part is dropped, text and all. */
  lemma {:induction false} PartsLoseText(pieces: seq<string>, f: Fragment, speech: seq<int>, positions: seq<int>,
                                         n: int, i: nat)
    requires Cuts(pieces, speech, n) && |positions| == n + 1 && 0 < i <= n && positions[0] == positions[1]
    ensures |RawText(Parts(pieces, f, speech, positions, i))|
      + |Join(pieces[..speech[1]])| <= |Join(pieces[..speech[i]])|
  {
    PartsSnoc(pieces, f, speech, positions, i);
    if i == 1 {
      assert Parts(pieces, f, speech, positions, 0) == [];
    } else {
      PartsLoseText(pieces, f, speech, positions, n, i - 1);
      JoinExtends(pieces, speech[i - 1], speech[i]);
    }
  }

  lemma {:induction false} DividedKeepsText(pieces: seq<string>, f: Fragment, speech: seq<int>, positions: seq<int>,
                                            n: int)
    requires NonEmpty(pieces) && Divides(speech, |pieces|, n, 0) && Divides(positions, f.end - f.start, n, 0)
    requires 0 < f.end - f.start && (n > f.end - f.start ==> n <= |pieces|)
    ensures var text := RawText(Parts(pieces, f, speech, positions, n));
      if n <= f.end - f.start then text == Join(pieces) else |text| < |Join(pieces)|
  {
    assert pieces[..|pieces|] == pieces;
    assert Cuts(pieces, speech, n);
    if n <= f.end - f.start {
      PartsKeepText(pieces, f, speech, positions, n, n);
    } else {
      PartsLoseText(pieces, f, speech, positions, n, n);
      assert speech[0] < speech[1];
      PieceStartIsLength(pieces, speech[1]);
      PieceStartGrows(pieces, 0, speech[1]);
    }
  }

  /** Enough positions for the text: one for every `max` graphemes. */
  predicate Roomy(cut: Segmenter, f: Fragment, max: int) { CountGraphemes(cut, f.text) <= max * (f.end - f.start) }

  /** Parts in order, in place and short enough, with the whole text if it is roomy enough and less of it otherwise. */
  ghost predicate SplitWell(parts: seq<Fragment>, f: Fragment, max: int, roomy: bool) {
    Placed(parts, f.start, f.end, max) && if roomy then RawText(parts) == f.text else |RawText(parts)| < |f.text|
  }

  lemma WholeKeepsText(f: Fragment, max: int)
    requires Proper(f) && f.end - f.start <= max
    ensures SplitWell([f], f, max, true)
  {
    RawTextSnoc([], f);
    assert [] + [f] == [f];
  }

  lemma SmallIsRoomy(cut: Segmenter, f: Fragment, max: int)
    requires Proper(f) && 0 < max && CountGraphemes(cut, f.text) <= max
    ensures Roomy(cut, f, max)
  {
    ProductGrows(max, f.end - f.start);
  }

  /** What dividing a fragment takes, from how many parts there are. */
  lemma DivisionIs(cut: Segmenter, f: Fragment, max: int, parts: seq<Fragment>) returns (n: int)
    requires Segments(cut) && max > 0 && Proper(f) && IsSplit(cut, f, max, parts)
    requires !(CountGraphemes(cut, f.text) <= max && f.end - f.start <= max)
    ensures n == TotalParts(CountGraphemes(cut, f.text), f.end - f.start, max)
    ensures n > 0 && f.end - f.start <= max * n && (n > f.end - f.start ==> n <= |cut(f.text)|)
    ensures Roomy(cut, f, max) <==> n <= f.end - f.start
    ensures Slices(cut(f.text), Bounds(|cut(f.text)|, n))
    ensures parts == Parts(cut(f.text), f, Bounds(|cut(f.text)|, n), Bounds(f.end - f.start, n), n)
  {
    SegmentsEnd(cut, f.text);
    n := TotalPartsIs(CountGraphemes(cut, f.text), f.end - f.start, max);
  }

  lemma BoundsSlice(pieces: seq<string>, n: int)
    requires n > 0
    ensures Slices(pieces, Bounds(|pieces|, n))
  {
    BoundsDivide(|pieces|, n, 0);
  }

  lemma BoundsStep(length: int, n: int, max: int)
    requires n > 0 && 0 <= length <= max * n
    ensures Steps(Bounds(length, n), max) && Bounds(length, n)[n] == length
  {
    BoundsDivide(length, n, max);
  }

  lemma {:induction false} DivisionPlaced(pieces: seq<string>, f: Fragment, max: int, n: int)
    requires n > 0 && 0 <= f.end - f.start <= max * n
    ensures Slices(pieces, Bounds(|pieces|, n))
    ensures Placed(Parts(pieces, f, Bounds(|pieces|, n), Bounds(f.end - f.start, n), n), f.start, f.end, max)
  {
    BoundsSlice(pieces, n);
    BoundsStep(f.end - f.start, n, max);
    PartsOrdered(pieces, f, Bounds(|pieces|, n), Bounds(f.end - f.start, n), n, max);
  }

  lemma {:induction false} DivisionText(pieces: seq<string>, f: Fragment, n: int)
    requires NonEmpty(pieces) && n > 0 && 0 < f.end - f.start && (n > f.end - f.start ==> n <= |pieces|)
    ensures Slices(pieces, Bounds(|pieces|, n))
    ensures var text := RawText(Parts(pieces, f, Bounds(|pieces|, n), Bounds(f.end - f.start, n), n));
      if n <= f.end - f.start then text == Join(pieces) else |text| < |Join(pieces)|
  {
    BoundsDivide(|pieces|, n, 0);
    BoundsDivide(f.end - f.start, n, 0);
    DividedKeepsText(pieces, f, Bounds(|pieces|, n), Bounds(f.end - f.start, n), n);
  }

  lemma {:induction false} DivisionKeepsText(pieces: seq<string>, f: Fragment, max: int, n: int)
    requires NonEmpty(pieces) && Proper(f) && n > 0 && f.end - f.start <= max * n && Join(pieces) == f.text
    requires n > f.end - f.start ==> n <= |pieces|
    ensures Slices(pieces, Bounds(|pieces|, n))
    ensures SplitWell(Parts(pieces, f, Bounds(|pieces|, n), Bounds(f.end - f.start, n), n), f, max,
      n <= f.end - f.start)
  {
    DivisionPlaced(pieces, f, max, n);
    DivisionText(pieces, f, n);
  }

  /** Splitting keeps order and place, and no part is longer than allowed. It keeps the whole text exactly if
      the fragment has enough positions, and is shorter otherwise. */
  lemma SplitKeepsText(cut: Segmenter, f: Fragment, max: int, parts: seq<Fragment>)
    requires Segments(cut) && max > 0 && Proper(f) && IsSplit(cut, f, max, parts)
    ensures SplitWell(parts, f, max, Roomy(cut, f, max))
  {
    if CountGraphemes(cut, f.text) <= max && f.end - f.start <= max {
      WholeKeepsText(f, max);
      SmallIsRoomy(cut, f, max);
    } else {
      var n := DivisionIs(cut, f, max, parts);
      assert Join(cut(f.text)) == f.text && NonEmpty(cut(f.text));
      DivisionKeepsText(cut(f.text), f, max, n);
    }
  }

  // ----- few, short and even parts -----

  /** No other number of parts that are all short enough is smaller. */
  lemma TotalPartsIsLeast(speech: nat, positions: int, max: int, n: int)
    requires max > 0 && speech > 0 && positions > 0
    ensures TotalParts(speech, positions, max) <= n <==> speech <= max * n && positions <= max * n
  {
    CeilingIsLeast(speech, max, n);
    CeilingIsLeast(positions, max, n);
  }

  /** Every part has its share, rounded down or up. */
  lemma BoundIsEven(length: int, i: int, n: int)
    requires n > 0 && 0 <= length
    ensures var step := Bound(length, i + 1, n) - Bound(length, i, n); length - n < n * step < length + n
  {
    var b, c := Bound(length, i, n), Bound(length, i + 1, n);
    assert length * (i + 1) == length * i + length;
    FloorIsGreatest(length * i, n, b);
    FloorIsGreatest(length * i, n, b + 1);
    FloorIsGreatest(length * (i + 1), n, c);
    FloorIsGreatest(length * (i + 1), n, c + 1);
    assert n * (b + 1) == n * b + n && n * (c + 1) == n * c + n && n * (c - b) == n * c - n * b;
  }

  /** So the parts differ by at most one grapheme and one position. */
  lemma PartsAreEven(length: int, i: int, j: int, n: int)
    requires n > 0 && 0 <= length
    ensures Bound(length, i + 1, n) - Bound(length, i, n) <= Bound(length, j + 1, n) - Bound(length, j, n) + 1
  {
    var a, b := Bound(length, i + 1, n) - Bound(length, i, n), Bound(length, j + 1, n) - Bound(length, j, n);
    BoundIsEven(length, i, n);
    BoundIsEven(length, j, n);
    assert n * (b + 2) == n * b + 2 * n;
    if a >= b + 2 { ProductRises(n, b + 2, a); }
  }

  lemma ProductRises(n: int, a: int, b: int)
    requires n > 0 && a <= b
    ensures n * a <= n * b
  {
  }

  /** At most `max` of the graphemes, one after the other. */
  ghost predicate FewOf(text: string, pieces: seq<string>, max: int) {
    exists from, to | 0 <= from <= to <= |pieces| :: to <= from + max && text == Join(pieces[from..to])
  }

  lemma {:induction false} PartsShort(pieces: seq<string>, f: Fragment, speech: seq<int>, positions: seq<int>, i: nat,
                                      max: int)
    requires i < |speech| == |positions| && Slices(pieces, speech) && Steps(speech, max)
    ensures |Parts(pieces, f, speech, positions, i)| <= i
    ensures forall k | 0 <= k < |Parts(pieces, f, speech, positions, i)| ::
      FewOf(Parts(pieces, f, speech, positions, i)[k].text, pieces, max)
  {
    if i > 0 {
      PartsShort(pieces, f, speech, positions, i - 1, max);
      assert speech[i - 1] <= speech[i - 1 + 1] <= speech[i - 1] + max;
      assert FewOf(Join(pieces[speech[i - 1]..speech[i]]), pieces, max);
    }
  }

  /** An oversized fragment is cut into as few parts as can be, none of more than `max` of its graphemes. */
  lemma SplitIsShort(cut: Segmenter, f: Fragment, max: int, parts: seq<Fragment>, n: nat)
    requires Segments(cut) && max > 0 && Proper(f) && IsSplit(cut, f, max, parts)
    requires |cut(f.text)| <= max * n && f.end - f.start <= max * n
    ensures |parts| <= n && forall k | 0 <= k < |parts| :: FewOf(parts[k].text, cut(f.text), max)
  {
    var pieces := cut(f.text);
    SegmentsEnd(cut, f.text);
    if |pieces| <= max && f.end - f.start <= max {
      assert pieces[0..|pieces|] == pieces && Join(pieces) == f.text;
    } else {
      var least := DivisionIs(cut, f, max, parts);
      TotalPartsIsLeast(|pieces|, f.end - f.start, max, n);
      TotalPartsIsLeast(|pieces|, f.end - f.start, max, least);
      BoundsStep(|pieces|, least, max);
      PartsShort(pieces, f, Bounds(|pieces|, least), Bounds(f.end - f.start, least), least, max);
    }
  }
}
