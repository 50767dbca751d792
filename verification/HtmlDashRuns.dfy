/** Wrapping the dash runs of an HTML fragment: the walk that finds them across inline elements, and the rewriting of
    the text nodes (readerDocument.ts). */
module HtmlDashRuns {
  import opened Ordering
  import opened Graphemes
  import opened DashRuns

  datatype Node = Text(data: string) | Element(tag: string, children: seq<Node>) | Other

  /** The elements that a run of dashes may go on through. */
  predicate InlineTag(tag: string) {
    tag in {
      "a", "abbr", "b", "bdi", "bdo", "cite", "code", "data", "em", "i", "kbd", "mark", "q", "rb", "rp", "rt", "rtc",
      "ruby", "s", "samp", "small", "span", "strong", "sub", "sup", "time", "u", "var", "wbr"
    }
  }

  /** A segment of a text node; text nodes are numbered in document order. */
  datatype Ref = Ref(node: nat, index: nat)

  datatype Span = Span(start: nat, end: nat, edge: Edge)

  /** What the walk meets: a dash, or anything that ends a run. */
  datatype Event = Dash(ref: Ref) | Break

  /** The texts of the text nodes in document order. */
  function Texts(nodes: seq<Node>): seq<string> {
    if nodes == [] then [] else NodeTexts(nodes[0]) + Texts(nodes[1..])
  }

  function NodeTexts(node: Node): seq<string> {
    match node
    case Text(data) => [data]
    case Element(_, children) => Texts(children)
    case Other => []
  }

  function SegmentEvents(segments: seq<string>, node: nat, n: nat): seq<Event>
    requires n <= |segments|
  {
    if n == 0 then []
    else SegmentEvents(segments, node, n - 1) + [SegmentEvent(segments, node, n - 1)]
  }

  function SegmentEvent(segments: seq<string>, node: nat, index: nat): Event
    requires index < |segments|
  {
    if segments[index] == DASH then Dash(Ref(node, index)) else Break
  }

  function NodeEvents(cut: Segmenter, inline: string -> bool, node: Node, first: nat): seq<Event> {
    match node
    case Text(data) => SegmentEvents(cut(data), first, |cut(data)|)
    case Element(tag, children) =>
      if tag == "br" then [Break]
      else if inline(tag) then Events(cut, inline, children, first)
      else [Break] + Events(cut, inline, children, first) + [Break]
    case Other => [Break]
  }

  function Events(cut: Segmenter, inline: string -> bool, nodes: seq<Node>, first: nat): seq<Event> {
    if nodes == [] then []
    else
      NodeEvents(cut, inline, nodes[0], first) + Events(cut, inline, nodes[1..], first + |NodeTexts(nodes[0])|)
  }

  // ----- from runs to spans -----

  datatype NodeRun = NodeRun(node: nat, start: nat, end: nat)

  datatype Placed = Placed(node: nat, span: Span)

  /** The next dash continues the last part of a run or starts another. */
  function NextRuns(runs: seq<NodeRun>, ref: Ref): seq<NodeRun> {
    if runs != [] && runs[|runs| - 1].node == ref.node && runs[|runs| - 1].end == ref.index
    then runs[..|runs| - 1] + [runs[|runs| - 1].(end := ref.index + 1)]
    else runs + [NodeRun(ref.node, ref.index, ref.index + 1)]
  }

  /** The dashes of a run node by node. */
  function NodeRuns(refs: seq<Ref>): (r: seq<NodeRun>)
    ensures forall i | 0 <= i < |r| :: r[i].start < r[i].end
  {
    if refs == [] then [] else NextRuns(NodeRuns(refs[..|refs| - 1]), refs[|refs| - 1])
  }

  function RunChunks(run: NodeRun): (r: seq<int>)
    requires run.start < run.end
    ensures Chunked(r, run.end - run.start)
  {
    DashChunksAreChunked(run.end - run.start);
    DashChunks(run.end - run.start)
  }

  /** The chunks of a run within one node, one after the other. */
  function ChunkSpans(run: NodeRun, chunks: seq<int>, n: nat): seq<Placed>
    requires n <= |chunks| && forall i | 0 <= i < |chunks| :: chunks[i] > 0
  {
    if n == 0 then []
    else
      SumPositive(chunks[..n - 1]);
      var start := run.start + Sum(chunks[..n - 1]);
      ChunkSpans(run, chunks, n - 1) +
      [Placed(run.node, Span(start, start + chunks[n - 1], EdgeOf(n - 1, |chunks|)))]
  }

  lemma {:induction false} SumPositive(chunks: seq<int>)
    requires forall i | 0 <= i < |chunks| :: chunks[i] > 0
    ensures Sum(chunks) >= 0
  {
    if chunks != [] { SumPositive(chunks[..|chunks| - 1]); }
  }

  lemma NextChunk(run: NodeRun, chunks: seq<int>, i: nat, cursor: nat, placed: seq<Placed>)
    requires i < |chunks| && (forall k | 0 <= k < |chunks| :: chunks[k] > 0) && cursor == run.start + Sum(chunks[..i])
    ensures placed + ChunkSpans(run, chunks, i + 1)
         == placed + ChunkSpans(run, chunks, i)
           + [Placed(run.node, Span(cursor, cursor + chunks[i], EdgeOf(i, |chunks|)))]
    ensures Sum(chunks[..i + 1]) == Sum(chunks[..i]) + chunks[i]
  {
    assert chunks[..i + 1][..i] == chunks[..i];
    Associate(placed, ChunkSpans(run, chunks, i),
      [Placed(run.node, Span(cursor, cursor + chunks[i], EdgeOf(i, |chunks|)))]);
  }

  function PartSpans(runs: seq<NodeRun>): seq<Placed> {
    seq(|runs|, i requires 0 <= i < |runs| => Placed(runs[i].node, Span(runs[i].start, runs[i].end, EdgeOf(i, |runs|))))
  }

  /** The spans of a run: none for a single dash, chunks within one node, one span per node across several. */
  function RunSpans(refs: seq<Ref>): seq<Placed> {
    if |refs| < 2 then []
    else
      var runs := NodeRuns(refs);
      if |runs| == 1 then ChunkSpans(runs[0], RunChunks(runs[0]), |RunChunks(runs[0])|) else PartSpans(runs)
  }

  /** The dashes at the end of the events. */
  function Trailing(events: seq<Event>): seq<Ref> {
    if events == [] || events[|events| - 1].Break? then []
      else Trailing(events[..|events| - 1]) + [events[|events| - 1].ref]
  }

  /** The spans of all runs that have ended. */
  function Spans(events: seq<Event>): seq<Placed> {
    if events == [] then []
    else
      var before := events[..|events| - 1];
      Spans(before) + if events[|events| - 1].Break? then RunSpans(Trailing(before)) else []
  }

  function OnNode(placed: seq<Placed>, node: nat): seq<Span> {
    if placed == [] then []
    else
      var before, last := OnNode(placed[..|placed| - 1], node), placed[|placed| - 1];
      if last.node == node then before + [last.span] else before
  }

  type SpanMap = map<nat, seq<Span>>

  ghost predicate Holds(spans: SpanMap, placed: seq<Placed>) {
    forall n :: (n in spans <==> OnNode(placed, n) != []) && (n in spans ==> spans[n] == OnNode(placed, n))
  }

  // ----- the collector -----

  class Collector {
    var pending: seq<Ref>
    var spans: SpanMap
    ghost var events: seq<Event>

    ghost predicate Valid()
      reads this
    {
      pending == Trailing(events) && Holds(spans, Spans(events))
    }

    constructor ()
      ensures Valid() && events == []
    {
      pending, spans, events := [], map[], [];
    }

    method AddSpan(node: nat, span: Span, ghost placed: seq<Placed>)
      requires Holds(spans, placed)
      modifies this`spans
      ensures Holds(spans, placed + [Placed(node, span)])
    {
      var onNode := if node in spans then spans[node] else [];
      spans := spans[node := onNode + [span]];
      assert (placed + [Placed(node, span)])[..|placed|] == placed;
    }

    /** The chunks of a run within one node. */
    method AddChunks(run: NodeRun, ghost placed: seq<Placed>)
      requires Holds(spans, placed) && run.start < run.end
      modifies this`spans
      ensures Holds(spans, placed + ChunkSpans(run, RunChunks(run), |RunChunks(run)|))
    {
      var chunks := SplitDashRunLength(run.end - run.start);
      var cursor: nat := run.start;
      assert placed + ChunkSpans(run, chunks, 0) == placed;
      for i := 0 to |chunks|
        invariant cursor == run.start + Sum(chunks[..i]) && Holds(spans, placed + ChunkSpans(run, chunks, i))
      {
        var span := Span(cursor, cursor + chunks[i], EdgeOf(i, |chunks|));
        NextChunk(run, chunks, i, cursor, placed);
        AddSpan(run.node, span, placed + ChunkSpans(run, chunks, i));
        cursor := cursor + chunks[i];
      }
    }

    /** The parts of a run that spans several nodes. */
    method AddParts(runs: seq<NodeRun>, ghost placed: seq<Placed>)
      requires Holds(spans, placed)
      modifies this`spans
      ensures Holds(spans, placed + PartSpans(runs))
    {
      assert placed + PartSpans(runs)[..0] == placed;
      for i := 0 to |runs|
        invariant Holds(spans, placed + PartSpans(runs)[..i])
      {
        var span := Span(runs[i].start, runs[i].end, EdgeOf(i, |runs|));
        AddSpan(runs[i].node, span, placed + PartSpans(runs)[..i]);
        assert placed + PartSpans(runs)[..i + 1] == placed + PartSpans(runs)[..i] + [Placed(runs[i].node, span)];
      }
      assert PartSpans(runs)[..|runs|] == PartSpans(runs);
    }

    method CollectRuns() returns (runs: seq<NodeRun>)
      ensures runs == NodeRuns(pending)
    {
      runs := [];
      for i := 0 to |pending|
        invariant runs == NodeRuns(pending[..i])
      {
        assert pending[..i + 1][..i] == pending[..i];
        var ref := pending[i];
        if runs != [] && runs[|runs| - 1].node == ref.node && runs[|runs| - 1].end == ref.index {
          runs := runs[..|runs| - 1] + [runs[|runs| - 1].(end := ref.index + 1)];
        } else {
          runs := runs + [NodeRun(ref.node, ref.index, ref.index + 1)];
        }
      }
      assert pending[..|pending|] == pending;
    }

    method AddRun(ghost placed: seq<Placed>)
      requires Holds(spans, placed)
      modifies this`spans
      ensures Holds(spans, placed + RunSpans(pending))
    {
      if |pending| < 2 {
        assert placed + RunSpans(pending) == placed;
        return;
      }
      var runs := CollectRuns();
      if |runs| == 1 { AddChunks(runs[0], placed); } else { AddParts(runs, placed); }
    }

    /** Ends the run of dashes met last. */
    method Flush()
      requires Valid()
      modifies this
      ensures Valid() && events == old(events) + [Break]
    {
      AddRun(Spans(events));
      pending := [];
      events := events + [Break];
      assert events[..|events| - 1] == old(events);
    }

    method Push(ref: Ref)
      requires Valid()
      modifies this
      ensures Valid() && events == old(events) + [Dash(ref)]
    {
      pending := pending + [ref];
      events := events + [Dash(ref)];
      assert events[..|events| - 1] == old(events);
      assert Spans(old(events)) + [] == Spans(old(events));
    }

    method WalkText(cut: Segmenter, data: string, node: nat)
      requires Valid()
      modifies this
      ensures Valid() && events == old(events) + SegmentEvents(cut(data), node, |cut(data)|)
    {
      var segments := cut(data);
      for index := 0 to |segments|
        invariant Valid() && events == old(events) + SegmentEvents(segments, node, index)
      {
        Associate(old(events), SegmentEvents(segments, node, index), [SegmentEvent(segments, node, index)]);
        if segments[index] == DASH { Push(Ref(node, index)); } else { Flush(); }
      }
    }

    method WalkNode(cut: Segmenter, inline: string -> bool, node: Node, first: nat)
      requires Valid()
      modifies this
      ensures Valid() && events == old(events) + NodeEvents(cut, inline, node, first)
      decreases node
    {
      match node {
        case Text(data) =>
          WalkText(cut, data, first);
        case Other =>
          Flush();
        case Element(tag, children) =>
          if tag == "br" {
            Flush();
          } else if !inline(tag) {
            Associate(events, [Break], Events(cut, inline, children, first));
            Associate(events, [Break] + Events(cut, inline, children, first), [Break]);
            Flush();
            Walk(cut, inline, children, first);
            Flush();
          } else {
            Walk(cut, inline, children, first);
          }
      }
    }

    method Walk(cut: Segmenter, inline: string -> bool, nodes: seq<Node>, first: nat)
      requires Valid()
      modifies this
      ensures Valid() && events == old(events) + Events(cut, inline, nodes, first)
      decreases nodes
    {
      var next: nat := first;
      ghost var all := events + Events(cut, inline, nodes, first);
      NoneWalked(cut, inline, nodes, first, events);
      for i := 0 to |nodes|
        invariant Valid() && Walked(cut, inline, nodes, i, next, events, all)
      {
        ghost var before := events;
        WalkNode(cut, inline, nodes[i], next);
        WalkedNext(cut, inline, nodes, i, next, before, events, all);
        next := next + |NodeTexts(nodes[i])|;
      }
      AllWalked(cut, inline, nodes, next, events, all);
    }
  }

  /** The events so far and those of the nodes from the i-th on make up all. */
  ghost predicate Walked(cut: Segmenter, inline: string -> bool, nodes: seq<Node>, i: nat, next: nat,
                         events: seq<Event>, all: seq<Event>)
    requires i <= |nodes|
  {
    events + Events(cut, inline, nodes[i..], next) == all
  }

  lemma {:induction false} NoneWalked(cut: Segmenter, inline: string -> bool, nodes: seq<Node>, first: nat,
                                      events: seq<Event>)
    ensures Walked(cut, inline, nodes, 0, first, events, events + Events(cut, inline, nodes, first))
  {
    assert nodes[0..] == nodes;
  }

  lemma {:induction false} AllWalked(cut: Segmenter, inline: string -> bool, nodes: seq<Node>, next: nat,
                                     events: seq<Event>, all: seq<Event>)
    requires Walked(cut, inline, nodes, |nodes|, next, events, all)
    ensures events == all
  {
    assert events + [] == events;
  }

  lemma {:induction false} WalkedNext(cut: Segmenter, inline: string -> bool, nodes: seq<Node>, i: nat, first: nat,
                                      before: seq<Event>, after: seq<Event>, all: seq<Event>)
    requires i < |nodes| && after == before + NodeEvents(cut, inline, nodes[i], first)
    requires Walked(cut, inline, nodes, i, first, before, all)
    ensures Walked(cut, inline, nodes, i + 1, first + |NodeTexts(nodes[i])|, after, all)
  {
    assert nodes[i..][0] == nodes[i] && nodes[i..][1..] == nodes[i + 1..];
    Associate(before, NodeEvents(cut, inline, nodes[i], first),
      Events(cut, inline, nodes[i + 1..], first + |NodeTexts(nodes[i])|));
  }
}
