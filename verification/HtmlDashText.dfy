/** The spans that the dash walk collects are sorted, disjoint and in range, so rewriting the text nodes keeps their
    text (readerDocument.ts). */
module HtmlDashText {
  import opened Ordering
  import opened Graphemes
  import opened DashRuns
  import opened HtmlDashRuns

  // ----- the order of the events -----

  predicate Before(a: Ref, b: Ref) { a.node < b.node || (a.node == b.node && a.index < b.index) }

  /** Dashes come in document order, and two in a row within one node are neighbours. */
  ghost predicate Reading(events: seq<Event>) {
    && (forall i, j | 0 <= i < j < |events| && events[i].Dash? && events[j].Dash? ::
      Before(events[i].ref, events[j].ref))
    && (forall i, j | 0 <= i && j == i + 1 && j < |events| && events[i].Dash? && events[j].Dash? ::
          events[i].ref.node == events[j].ref.node ==> events[j].ref.index == events[i].ref.index + 1)
  }

  ghost predicate InNodes(events: seq<Event>, from: nat, to: nat) {
    forall i | 0 <= i < |events| && events[i].Dash? :: from <= events[i].ref.node < to
  }

  lemma ConcatReading(a: seq<Event>, b: seq<Event>, from: nat, middle: nat, to: nat)
    requires Reading(a) && Reading(b) && from <= middle <= to && InNodes(a, from, middle) && InNodes(b, middle, to)
    ensures Reading(a + b) && InNodes(a + b, from, to)
  {
  }

  lemma {:induction false} SegmentsReading(segments: seq<string>, node: nat, n: nat)
    requires n <= |segments|
    ensures |SegmentEvents(segments, node, n)| == n
    ensures forall i | 0 <= i < n ::
      SegmentEvents(segments, node, n)[i] == if segments[i] == DASH then Dash(Ref(node, i)) else Break
    ensures Reading(SegmentEvents(segments, node, n)) && InNodes(SegmentEvents(segments, node, n), node, node + 1)
  {
    if n > 0 { SegmentsReading(segments, node, n - 1); }
  }

  /** A property of events and the nodes they come from. */
  type Placing = (seq<Event>, nat, nat) -> bool

  /** It holds of a break anywhere, of the segments of one text, and of neighbouring nodes together if of each. */
  ghost predicate Chains(holds: Placing) {
    && (forall from: nat, to: nat | from <= to :: holds([], from, to) && holds([Break], from, to))
    && (forall segments, node: nat :: holds(SegmentEvents(segments, node, |segments|), node, node + 1))
    && (forall a, b, from: nat, middle: nat, to: nat | holds(a, from, middle) && holds(b, middle, to) ::
      holds(a + b, from, to))
  }

  lemma {:induction false} EventsHold(cut: Segmenter, inline: string -> bool, nodes: seq<Node>, first: nat,
                                      holds: Placing)
    requires Chains(holds)
    ensures holds(Events(cut, inline, nodes, first), first, first + |Texts(nodes)|)
    decreases nodes
  {
    if nodes != [] {
      NodeHolds(cut, inline, nodes[0], first, holds);
      EventsHold(cut, inline, nodes[1..], first + |NodeTexts(nodes[0])|, holds);
    }
  }

  lemma {:induction false} NodeHolds(cut: Segmenter, inline: string -> bool, node: Node, first: nat, holds: Placing)
    requires Chains(holds)
    ensures holds(NodeEvents(cut, inline, node, first), first, first + |NodeTexts(node)|)
    decreases node
  {
    match node {
      case Text(data) =>
      case Other =>
      case Element(tag, children) =>
        EventsHold(cut, inline, children, first, holds);
        var inner, to := Events(cut, inline, children, first), first + |NodeTexts(node)|;
        assert holds([Break], first, first) && holds([Break], to, to);
        assert holds([Break] + inner, first, to);
    }
  }

  lemma ReadingChains(holds: Placing)
    requires forall events, from: nat, to: nat ::
      holds(events, from, to) == (from <= to && Reading(events) && InNodes(events, from, to))
    ensures Chains(holds)
  {
    forall segments, node: nat ensures holds(SegmentEvents(segments, node, |segments|), node, node + 1) {
      SegmentsReading(segments, node, |segments|);
    }
    forall a, b, from: nat, middle: nat, to: nat | holds(a, from, middle) && holds(b, middle, to)
      ensures holds(a + b, from, to)
    {
      ConcatReading(a, b, from, middle, to);
    }
  }

  lemma {:induction false} EventsReading(cut: Segmenter, inline: string -> bool, nodes: seq<Node>, first: nat)
    ensures Reading(Events(cut, inline, nodes, first))
      && InNodes(Events(cut, inline, nodes, first), first, first + |Texts(nodes)|)
  {
    var holds := (events, from: nat, to: nat) => from <= to && Reading(events) && InNodes(events, from, to);
    ReadingChains(holds);
    EventsHold(cut, inline, nodes, first, holds);
  }

  // ----- the run at the end -----

  ghost predicate Run(refs: seq<Ref>) {
    && (forall i, j | 0 <= i < j < |refs| :: Before(refs[i], refs[j]))
    && (forall i, j | 0 <= i && j == i + 1 && j < |refs| && refs[i].node == refs[j].node ::
      refs[j].index == refs[i].index + 1)
  }

  /** These are the last events, and what is before them is no dash. */
  ghost predicate Ends(events: seq<Event>, refs: seq<Ref>) {
    && |refs| <= |events| && (forall k | 0 <= k < |refs| :: events[|events| - |refs| + k] == Dash(refs[k]))
    && (|refs| < |events| ==> events[|events| - |refs| - 1].Break?)
  }

  lemma {:induction false} TrailingEnds(events: seq<Event>)
    ensures Ends(events, Trailing(events))
  {
    if events != [] && events[|events| - 1].Dash? {
      var before := events[..|events| - 1];
      TrailingEnds(before);
      var refs := Trailing(before);
      forall k | 0 <= k < |Trailing(events)|
        ensures events[|events| - |Trailing(events)| + k] == Dash(Trailing(events)[k])
      {
        if k < |refs| { assert before[|before| - |refs| + k] == Dash(refs[k]); }
      }
    }
  }

  lemma EndsInRun(events: seq<Event>, refs: seq<Ref>)
    requires Reading(events) && Ends(events, refs)
    ensures Run(refs)
  {
    var n := |events| - |refs|;
    forall i, j | 0 <= i < j < |refs| ensures Before(refs[i], refs[j]) {
      assert events[n + i] == Dash(refs[i]) && events[n + j] == Dash(refs[j]);
    }
    forall i, j | 0 <= i && j == i + 1 && j < |refs| && refs[i].node == refs[j].node
      ensures refs[j].index == refs[i].index + 1
    {
      assert events[n + i] == Dash(refs[i]) && events[n + j] == Dash(refs[j]);
    }
  }

  // ----- what spans cover -----

  predicate CoveredBy(p: Placed, ref: Ref) { p.node == ref.node && p.span.start <= ref.index < p.span.end }

  ghost predicate Covered(placed: seq<Placed>, ref: Ref) { exists k :: 0 <= k < |placed| && CoveredBy(placed[k], ref) }

  predicate Precedes(p: Placed, q: Placed) { p.node < q.node || (p.node == q.node && p.span.end <= q.span.start) }

  /** Non-empty spans in document order, without overlap. */
  ghost predicate Sorted(placed: seq<Placed>) {
    && (forall i | 0 <= i < |placed| :: placed[i].span.start < placed[i].span.end)
    && (forall i, j | 0 <= i < j < |placed| :: Precedes(placed[i], placed[j]))
  }

  /** Spans of dashes that come later go after. */
  lemma AppendSorted(a: seq<Placed>, b: seq<Placed>)
    requires Sorted(a) && Sorted(b) && forall r, s | Covered(a, r) && Covered(b, s) :: Before(r, s)
    ensures Sorted(a + b) && forall ref :: Covered(a + b, ref) <==> Covered(a, ref) || Covered(b, ref)
  {
    forall i, j | 0 <= i < |a| && 0 <= j < |b| ensures Precedes(a[i], b[j]) {
      var r, s := Ref(a[i].node, a[i].span.end - 1), Ref(b[j].node, b[j].span.start);
      assert CoveredBy(a[i], r) && CoveredBy(b[j], s);
      assert Covered(a, r) && Covered(b, s);
    }
    forall ref ensures Covered(a + b, ref) <==> Covered(a, ref) || Covered(b, ref) {
      if k :| 0 <= k < |a| && CoveredBy(a[k], ref) { assert CoveredBy((a + b)[k], ref); }
      if k :| 0 <= k < |b| && CoveredBy(b[k], ref) { assert CoveredBy((a + b)[|a| + k], ref); }
      if k :| 0 <= k < |a + b| && CoveredBy((a + b)[k], ref) {
        if k < |a| { assert CoveredBy(a[k], ref); } else { assert CoveredBy(b[k - |a|], ref); }
      }
    }
  }

  /** Exactly these dashes are covered, by sorted spans. */
  ghost predicate Covers(placed: seq<Placed>, refs: seq<Ref>) {
    Sorted(placed) && forall ref :: Covered(placed, ref) <==> ref in refs
  }

  function AsPlaced(run: NodeRun): Placed { Placed(run.node, Span(run.start, run.end, Whole)) }

  function AllPlaced(runs: seq<NodeRun>): seq<Placed> { seq(|runs|, i requires 0 <= i < |runs| => AsPlaced(runs[i])) }

  lemma OneCovered(run: NodeRun)
    requires run.start + 1 == run.end
    ensures Covers([AsPlaced(run)], [Ref(run.node, run.start)])
  {
    forall ref ensures Covered([AsPlaced(run)], ref) <==> ref == Ref(run.node, run.start) {
      if ref == Ref(run.node, run.start) { assert CoveredBy([AsPlaced(run)][0], ref); }
    }
  }

  ghost predicate EndsAt(runs: seq<NodeRun>, ref: Ref) {
    runs != [] && runs[|runs| - 1].node == ref.node && runs[|runs| - 1].end == ref.index + 1
  }

  lemma {:induction false} NodeRunsCover(refs: seq<Ref>)
    requires Run(refs)
    ensures Covers(AllPlaced(NodeRuns(refs)), refs)
    ensures refs != [] ==> EndsAt(NodeRuns(refs), refs[|refs| - 1])
  {
    if refs != [] {
      var before, ref := refs[..|refs| - 1], refs[|refs| - 1];
      NodeRunsCover(before);
      assert refs == before + [ref];
      NextRunsCover(NodeRuns(before), before, ref);
    }
  }

  lemma NextRunsCover(runs: seq<NodeRun>, refs: seq<Ref>, ref: Ref)
    requires Covers(AllPlaced(runs), refs) && Run(refs + [ref])
    ensures Covers(AllPlaced(NextRuns(runs, ref)), refs + [ref]) && EndsAt(NextRuns(runs, ref), ref)
  {
    if runs != [] && runs[|runs| - 1].node == ref.node && runs[|runs| - 1].end == ref.index {
      ExtendCovers(runs, refs, ref);
    } else {
      forall r | r in refs ensures Before(r, ref) {
        var k :| 0 <= k < |refs| && refs[k] == r;
        assert (refs + [ref])[k] == r && (refs + [ref])[|refs|] == ref;
      }
      NewRunCovers(runs, refs, ref);
    }
  }

  lemma NewRunCovers(runs: seq<NodeRun>, refs: seq<Ref>, ref: Ref)
    requires Covers(AllPlaced(runs), refs) && forall r | r in refs :: Before(r, ref)
    ensures Covers(AllPlaced(runs + [NodeRun(ref.node, ref.index, ref.index + 1)]), refs + [ref])
  {
    var run := NodeRun(ref.node, ref.index, ref.index + 1);
    OneCovered(run);
    AppendSorted(AllPlaced(runs), [AsPlaced(run)]);
    assert AllPlaced(runs + [run]) == AllPlaced(runs) + [AsPlaced(run)];
  }

  lemma ExtendCovers(runs: seq<NodeRun>, refs: seq<Ref>, ref: Ref)
    requires runs != [] && Covers(AllPlaced(runs), refs) && runs[|runs| - 1].node == ref.node
      && runs[|runs| - 1].end == ref.index
    ensures Covers(AllPlaced(runs[..|runs| - 1] + [runs[|runs| - 1].(end := ref.index + 1)]), refs + [ref])
  {
    var last := |runs| - 1;
    var runs' := runs[..last] + [runs[last].(end := ref.index + 1)];
    var placed, placed' := AllPlaced(runs), AllPlaced(runs');
    assert forall k | 0 <= k < last :: placed'[k] == placed[k];
    assert placed[last].span.start < placed[last].span.end;
    forall i, j | 0 <= i < j < |placed'| ensures Precedes(placed'[i], placed'[j]) {
      assert Precedes(placed[i], placed[j]);
    }
    forall r ensures Covered(placed', r) <==> r in refs + [ref] {
      if r == ref { assert CoveredBy(placed'[last], r); }
      if k :| 0 <= k < |placed| && CoveredBy(placed[k], r) { assert CoveredBy(placed'[k], r); }
      if k :| 0 <= k < |placed'| && CoveredBy(placed'[k], r) { assert r == ref || CoveredBy(placed[k], r); }
    }
  }

  /** The parts of a run over several nodes cover what the run covers. */
  lemma PartsCover(runs: seq<NodeRun>, refs: seq<Ref>)
    requires Covers(AllPlaced(runs), refs)
    ensures Covers(PartSpans(runs), refs)
  {
    var a, b := AllPlaced(runs), PartSpans(runs);
    assert forall k | 0 <= k < |runs| ::
      a[k].node == b[k].node && a[k].span.start == b[k].span.start && a[k].span.end == b[k].span.end;
    forall ref ensures Covered(b, ref) <==> ref in refs {
      if k :| 0 <= k < |b| && CoveredBy(b[k], ref) { assert CoveredBy(a[k], ref); }
      if k :| 0 <= k < |a| && CoveredBy(a[k], ref) { assert CoveredBy(b[k], ref); }
    }
    forall i, j | 0 <= i < j < |b| ensures Precedes(b[i], b[j]) { assert Precedes(a[i], a[j]); }
  }

  /** Exactly the dashes of one node from one index to another are covered. */
  ghost predicate CoversRange(placed: seq<Placed>, node: nat, from: nat, to: int) {
    Sorted(placed) && forall ref :: Covered(placed, ref) <==> ref.node == node && from <= ref.index < to
  }

  lemma {:induction false} ChunksCover(run: NodeRun, chunks: seq<int>, n: nat)
    requires n <= |chunks| && forall i | 0 <= i < |chunks| :: chunks[i] > 0
    ensures CoversRange(ChunkSpans(run, chunks, n), run.node, run.start, run.start + Sum(chunks[..n]))
  {
    if n > 0 {
      ChunksCover(run, chunks, n - 1);
      SumPositive(chunks[..n - 1]);
      assert chunks[..n][..n - 1] == chunks[..n - 1];
      var before, from := ChunkSpans(run, chunks, n - 1), run.start + Sum(chunks[..n - 1]);
      var last := Placed(run.node, Span(from, from + chunks[n - 1], EdgeOf(n - 1, |chunks|)));
      OneCovers(last);
      AppendSorted(before, [last]);
    }
  }

  lemma OneCovers(p: Placed)
    requires p.span.start < p.span.end
    ensures CoversRange([p], p.node, p.span.start, p.span.end)
  {
    forall ref ensures Covered([p], ref) <==> CoveredBy(p, ref) {
      if CoveredBy(p, ref) { assert CoveredBy([p][0], ref); }
    }
  }

  /** The spans of a run of two or more dashes cover exactly the run; a single dash is not covered. */
  lemma RunCovers(refs: seq<Ref>)
    requires Run(refs)
    ensures Covers(RunSpans(refs), if |refs| < 2 then [] else refs)
  {
    if |refs| >= 2 {
      var runs := NodeRuns(refs);
      NodeRunsCover(refs);
      if |runs| == 1 {
        var run, chunks := runs[0], RunChunks(runs[0]);
        ChunksCover(run, chunks, |chunks|);
        assert chunks[..|chunks|] == chunks;
        forall ref: Ref ensures ref.node == run.node && run.start <= ref.index < run.end <==> ref in refs {
          if CoveredBy(AsPlaced(run), ref) { assert CoveredBy(AllPlaced(runs)[0], ref); }
          if ref in refs {
            assert Covered(AllPlaced(runs), ref);
            assert AllPlaced(runs) == [AsPlaced(run)];
          }
        }
      } else {
        PartsCover(runs, refs);
      }
    }
  }

  // ----- edges -----

  /** A single span is whole, several are a start, middles and an end. */
  ghost predicate Edged(placed: seq<Placed>) {
    && (|placed| == 1 ==> placed[0].span.edge == Whole)
    && (|placed| > 1 ==> placed[0].span.edge == Start && placed[|placed| - 1].span.edge == End)
    && (forall i | 0 < i < |placed| - 1 :: placed[i].span.edge == Middle)
  }

  /** Spans within one node, all but the last of full length. */
  ghost predicate InOneNode(placed: seq<Placed>) {
    forall i | 0 <= i < |placed| :: var length := placed[i].span.end - placed[i].span.start;
      && placed[i].node == placed[0].node && length <= MAX_INLINE_LENGTH
      && (i < |placed| - 1 ==> length == MAX_INLINE_LENGTH)
  }

  ghost predicate OnePerNode(placed: seq<Placed>) {
    forall i, j | 0 <= i < j < |placed| :: placed[i].node < placed[j].node
  }

  lemma {:induction false} ChunkSpansAre(run: NodeRun, chunks: seq<int>, n: nat)
    requires n <= |chunks| && forall i | 0 <= i < |chunks| :: chunks[i] > 0
    ensures var placed := ChunkSpans(run, chunks, n);
      |placed| == n && forall i | 0 <= i < n ::
        placed[i].node == run.node && placed[i].span.edge == EdgeOf(i, |chunks|)
          && placed[i].span.end - placed[i].span.start == chunks[i]
  {
    if n > 0 { ChunkSpansAre(run, chunks, n - 1); }
  }

  ghost predicate Apart(runs: seq<NodeRun>) { forall i, j | 0 <= i < j < |runs| :: runs[i].node < runs[j].node }

  lemma {:induction false} NodeRunsApart(refs: seq<Ref>)
    requires Run(refs)
    ensures Apart(NodeRuns(refs)) && (refs != [] ==> EndsAt(NodeRuns(refs), refs[|refs| - 1]))
  {
    if |refs| > 1 {
      var before, ref, last := refs[..|refs| - 1], refs[|refs| - 1], refs[|refs| - 2];
      NodeRunsApart(before);
      assert before[|before| - 1] == last && Before(last, ref);
      NextApart(NodeRuns(before), last, ref);
    }
  }

  lemma NextApart(runs: seq<NodeRun>, last: Ref, ref: Ref)
    requires Apart(runs) && EndsAt(runs, last) && Before(last, ref)
    requires last.node == ref.node ==> ref.index == last.index + 1
    ensures Apart(NextRuns(runs, ref)) && EndsAt(NextRuns(runs, ref), ref)
  {
  }

  /** A run within one node is wrapped in stretches of twelve dashes, one over several nodes once in each; the edges
      are marked once over the whole run. */
  lemma RunEdges(refs: seq<Ref>)
    requires Run(refs)
    ensures Edged(RunSpans(refs)) && (InOneNode(RunSpans(refs)) || OnePerNode(RunSpans(refs)))
  {
    if |refs| >= 2 {
      var runs := NodeRuns(refs);
      NodeRunsApart(refs);
      if |runs| == 1 { ChunkSpansAre(runs[0], RunChunks(runs[0]), |RunChunks(runs[0])|); }
    }
  }

  // ----- what is wrapped -----

  predicate DashEvent(events: seq<Event>, p: int) { 0 <= p < |events| && events[p].Dash? }

  /** A dash next to another, among the first `n` events. */
  ghost predicate Joined(events: seq<Event>, n: int, ref: Ref) {
    exists p :: 0 <= p < n && p < |events| && events[p] == Dash(ref)
      && (DashEvent(events, p - 1) || DashEvent(events, p + 1))
  }

  /** The spans of the runs that have ended are sorted and cover exactly the dashes next to another. */
  ghost predicate Collected(events: seq<Event>) { Collects(Spans(events), events, |events| - |Trailing(events)|) }

  ghost predicate Collects(placed: seq<Placed>, events: seq<Event>, n: int) {
    Sorted(placed) && forall ref :: Covered(placed, ref) <==> Joined(events, n, ref)
  }

  lemma {:induction false} SpansCollected(events: seq<Event>)
    requires Reading(events)
    ensures Collected(events)
  {
    if events != [] {
      var before, last := events[..|events| - 1], events[|events| - 1];
      assert forall i | 0 <= i < |before| :: before[i] == events[i];
      SpansCollected(before);
      TrailingEnds(before);
      EndsInRun(before, Trailing(before));
      if last.Break? { BreakCollects(before); } else { DashCollects(before, last); }
      assert events == before + [last];
    }
  }

  lemma {:induction false} DashCollects(before: seq<Event>, last: Event)
    requires Collected(before) && Ends(before, Trailing(before)) && last.Dash?
    ensures Collected(before + [last])
  {
    CollectsOn(Spans(before), before, last, |before| - |Trailing(before)|);
    DashUnfolds(before, last);
  }

  lemma {:induction false} DashUnfolds(before: seq<Event>, last: Event)
    requires last.Dash?
    ensures Spans(before + [last]) == Spans(before) && Trailing(before + [last]) == Trailing(before) + [last.ref]
  {
    assert (before + [last])[..|before|] == before;
  }

  lemma CollectsOn(placed: seq<Placed>, before: seq<Event>, last: Event, n: nat)
    requires Collects(placed, before, n) && n <= |before| && (n > 0 ==> before[n - 1].Break?)
    ensures Collects(placed, before + [last], n)
  {
    assert (before + [last])[..|before|] == before;
    forall ref ensures Joined(before + [last], n, ref) <==> Joined(before, n, ref) {
      SameJoined(before, before + [last], n, ref);
    }
  }

  /** What follows a break does not matter before it. */
  lemma SameJoined(a: seq<Event>, b: seq<Event>, n: nat, ref: Ref)
    requires n <= |a| <= |b| && b[..|a|] == a && (n > 0 ==> a[n - 1].Break?)
    ensures Joined(a, n, ref) <==> Joined(b, n, ref)
  {
    assert forall p | 0 <= p < |a| :: b[p] == a[p];
    if p :| 0 <= p < n && p < |a| && a[p] == Dash(ref) && (DashEvent(a, p - 1) || DashEvent(a, p + 1)) {
      assert b[p] == Dash(ref) && (DashEvent(b, p - 1) || DashEvent(b, p + 1));
    }
    if p :| 0 <= p < n && p < |b| && b[p] == Dash(ref) && (DashEvent(b, p - 1) || DashEvent(b, p + 1)) {
      assert p != n - 1;
      assert a[p] == Dash(ref) && (DashEvent(a, p - 1) || DashEvent(a, p + 1));
    }
  }

  lemma {:induction false} BreakCollects(before: seq<Event>)
    requires Reading(before) && Collected(before) && Ends(before, Trailing(before)) && Run(Trailing(before))
    ensures Collected(before + [Break])
  {
    var refs := Trailing(before);
    RunCovers(refs);
    CollectsAfterBreak(before, refs, |before| - |refs|, Spans(before), RunSpans(refs));
    BreakUnfolds(before);
  }

  lemma CollectsAfterBreak(before: seq<Event>, refs: seq<Ref>, n: nat, earlier: seq<Placed>, added: seq<Placed>)
    requires Reading(before) && Ends(before, refs) && n == |before| - |refs|
    requires Collects(earlier, before, n) && Covers(added, if |refs| < 2 then [] else refs)
    ensures Collects(earlier + added, before + [Break], |before| + 1)
  {
    RunGoesAfter(before, refs, n, earlier, added);
    forall ref ensures Joined(before + [Break], |before| + 1, ref)
      <==> Joined(before, n, ref) || (|refs| >= 2 && ref in refs)
    {
      JoinedAfterBreak(before, refs, n, ref);
    }
  }

  lemma {:induction false} BreakUnfolds(before: seq<Event>)
    ensures Spans(before + [Break]) == Spans(before) + RunSpans(Trailing(before)) && Trailing(before + [Break]) == []
  {
    assert (before + [Break])[..|before|] == before;
  }

  lemma JoinedAfterBreak(before: seq<Event>, refs: seq<Ref>, n: nat, ref: Ref)
    requires Ends(before, refs) && n == |before| - |refs|
    ensures Joined(before + [Break], |before| + 1, ref) <==> Joined(before, n, ref) || (|refs| >= 2 && ref in refs)
  {
    assert (before + [Break])[..|before|] == before;
    SameJoined(before, before + [Break], n, ref);
    RunJoined(before + [Break], refs, n, ref);
  }

  /** The spans of a run go after those of the runs before it. */
  lemma RunGoesAfter(events: seq<Event>, refs: seq<Ref>, n: nat, earlier: seq<Placed>, added: seq<Placed>)
    requires Reading(events) && Ends(events, refs) && n == |events| - |refs|
    requires Sorted(earlier) && Covers(added, if |refs| < 2 then [] else refs)
    requires forall ref :: Covered(earlier, ref) <==> Joined(events, n, ref)
    ensures Sorted(earlier + added)
    ensures forall ref :: Covered(earlier + added, ref) <==> Joined(events, n, ref) || (|refs| >= 2 && ref in refs)
  {
    forall r, s | Covered(earlier, r) && Covered(added, s) ensures Before(r, s) {
      assert Joined(events, n, r) && s in refs;
      JoinedBefore(events, refs, n, r, s);
    }
    AppendSorted(earlier, added);
  }

  lemma JoinedBefore(events: seq<Event>, refs: seq<Ref>, n: nat, r: Ref, s: Ref)
    requires Reading(events) && Ends(events, refs) && n == |events| - |refs| && Joined(events, n, r) && s in refs
    ensures Before(r, s)
  {
    var p :| 0 <= p < n && p < |events| && events[p] == Dash(r)
      && (DashEvent(events, p - 1) || DashEvent(events, p + 1));
    var k :| 0 <= k < |refs| && refs[k] == s;
    assert events[n + k] == Dash(refs[k]);
  }

  /** From the break before a run to the break after it, a dash is next to another if the run has at least two. */
  lemma RunJoined(events: seq<Event>, refs: seq<Ref>, n: nat, ref: Ref)
    requires n + |refs| + 1 == |events| && events[|events| - 1].Break? && Ends(events[..|events| - 1], refs)
    ensures Joined(events, |events|, ref) <==> Joined(events, n, ref) || (|refs| >= 2 && ref in refs)
  {
    var before := events[..|events| - 1];
    forall k | 0 <= k < |refs| ensures events[n + k] == Dash(refs[k]) {
      assert before[|before| - |refs| + k] == Dash(refs[k]);
    }
    if n > 0 { assert before[|before| - |refs| - 1].Break? && events[n - 1].Break?; }
    if p :| 0 <= p < |events| && p < |events| && events[p] == Dash(ref) &&
            (DashEvent(events, p - 1) || DashEvent(events, p + 1))
    {
      if p < n {
        assert Joined(events, n, ref);
      } else {
        assert events[n + (p - n)] == Dash(refs[p - n]);
      }
    }
    if |refs| >= 2 && ref in refs {
      var k :| 0 <= k < |refs| && refs[k] == ref;
      assert events[n + k] == Dash(refs[k]);
      if k > 0 { assert events[n + (k - 1)] == Dash(refs[k - 1]); } else { assert events[n + 1] == Dash(refs[1]); }
      assert DashEvent(events, n + k - 1) || DashEvent(events, n + k + 1);
    }
  }
}
