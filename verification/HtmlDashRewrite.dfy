/** Rewriting the text nodes of an HTML fragment around the collected dash spans (readerDocument.ts). */
module HtmlDashRewrite {
  import opened Ordering
  import opened Graphemes
  import opened DashRuns
  import opened HtmlDashRuns
  import opened HtmlDashText

  /** A new text node, or a span element around dashes. */
  datatype Piece = Plain(text: string) | Wrapped(edge: Edge, text: string)

  function PiecesText(pieces: seq<Piece>): string {
    if pieces == [] then "" else PiecesText(pieces[..|pieces| - 1]) + pieces[|pieces| - 1].text
  }

  function Wraps(pieces: seq<Piece>): seq<Piece> {
    if pieces == [] then []
    else
      var before, last := Wraps(pieces[..|pieces| - 1]), pieces[|pieces| - 1];
      if last.Wrapped? then before + [last] else before
  }

  /** Non-empty spans within the segments, sorted and disjoint. */
  ghost predicate Fit(spans: seq<Span>, length: nat) {
    && (forall i | 0 <= i < |spans| :: spans[i].start < spans[i].end <= length)
    && (forall i, j | 0 <= i < j < |spans| :: spans[i].end <= spans[j].start)
  }

  function SpanPiece(segments: seq<string>, span: Span): Piece
    requires span.start <= span.end <= |segments|
  {
    Wrapped(span.edge, Join(segments[span.start..span.end]))
  }

  ghost predicate WrapsSpans(wraps: seq<Piece>, segments: seq<string>, spans: seq<Span>) {
    |wraps| == |spans| && forall i | 0 <= i < |spans| ::
      spans[i].start <= spans[i].end <= |segments| && wraps[i] == SpanPiece(segments, spans[i])
  }

  lemma {:induction false} PiecesSnoc(pieces: seq<Piece>, piece: Piece)
    ensures PiecesText(pieces + [piece]) == PiecesText(pieces) + piece.text
    ensures Wraps(pieces + [piece]) == Wraps(pieces) + if piece.Wrapped? then [piece] else []
  {
    assert (pieces + [piece])[..|pieces|] == pieces;
  }

  /** The rewritten text node has the same text, and its span elements are those of the spans. The index never
      passes the start of the next span, so no segment is skipped. */
  method AppendHtmlDashRunFragmentsToDom(cut: Segmenter, text: string, spans: seq<Span>) returns (pieces: seq<Piece>)
    requires Segments(cut) && Fit(spans, |cut(text)|)
    ensures PiecesText(pieces) == text
    ensures WrapsSpans(Wraps(pieces), cut(text), spans)
  {
    var segments := cut(text);
    var index, spanIndex := 0, 0;
    pieces := [];
    while index < |segments|
      invariant 0 <= index <= |segments| && 0 <= spanIndex <= |spans|
      invariant spanIndex < |spans| ==> index <= spans[spanIndex].start
      invariant PiecesText(pieces) == Join(segments[..index])
      invariant WrapsSpans(Wraps(pieces), segments, spans[..spanIndex])
      decreases |spans| - spanIndex, |segments| - index
    {
      if spanIndex == |spans| || index < spans[spanIndex].start {
        var next := if spanIndex < |spans| then spans[spanIndex].start else |segments|;
        AppendPiece(pieces, segments, index, next, Plain(Join(segments[index..next])));
        pieces := pieces + [Plain(Join(segments[index..next]))];
        index := next;
        continue;
      }
      var span := spans[spanIndex];
      assert index == span.start;
      AppendPiece(pieces, segments, index, span.end, SpanPiece(segments, span));
      WrapsNext(Wraps(pieces), segments, spans, spanIndex);
      pieces := pieces + [SpanPiece(segments, span)];
      index, spanIndex := span.end, spanIndex + 1;
    }
    assert segments[..|segments|] == segments && Join(cut(text)) == text;
    assert spans[..|spans|] == spans;
  }

  lemma WrapsNext(wraps: seq<Piece>, segments: seq<string>, spans: seq<Span>, i: nat)
    requires i < |spans| && spans[i].start <= spans[i].end <= |segments| && WrapsSpans(wraps, segments, spans[..i])
    ensures WrapsSpans(wraps + [SpanPiece(segments, spans[i])], segments, spans[..i + 1])
  {
    assert spans[..i + 1] == spans[..i] + [spans[i]];
  }

  lemma {:induction false} AppendPiece(pieces: seq<Piece>, segments: seq<string>, from: nat, to: nat, piece: Piece)
    requires from <= to <= |segments| && PiecesText(pieces) == Join(segments[..from])
      && piece.text == Join(segments[from..to])
    ensures PiecesText(pieces + [piece]) == Join(segments[..to])
    ensures Wraps(pieces + [piece]) == if piece.Wrapped? then Wraps(pieces) + [piece] else Wraps(pieces)
  {
    JoinExtends(segments, from, to);
    PiecesSnoc(pieces, piece);
  }

  // ----- the spans of one node -----

  ghost predicate SpansOf(spans: seq<Span>, placed: seq<Placed>, node: nat) {
    && (forall i | 0 <= i < |spans| :: spans[i].start < spans[i].end)
    && (forall i | 0 <= i < |spans| :: Placed(node, spans[i]) in placed)
    && (forall i, j | 0 <= i < j < |spans| :: spans[i].end <= spans[j].start)
  }

  lemma {:induction false} OnNodeInOrder(placed: seq<Placed>, node: nat)
    requires Sorted(placed)
    ensures SpansOf(OnNode(placed, node), placed, node)
  {
    if placed != [] {
      var before, last := placed[..|placed| - 1], placed[|placed| - 1];
      assert forall i | 0 <= i < |before| :: before[i] == placed[i];
      OnNodeInOrder(before, node);
      var spans := OnNode(before, node);
      forall i | 0 <= i < |spans|
        ensures Placed(node, spans[i]) in placed && (last.node == node ==> spans[i].end <= last.span.start)
      {
        assert spans[i].start < spans[i].end && Placed(node, spans[i]) in before;
        var k :| 0 <= k < |before| && before[k] == Placed(node, spans[i]);
        assert placed[k] == before[k] && Precedes(placed[k], last);
      }
      assert OnNode(placed, node) == if last.node == node then spans + [last.span] else spans;
    }
  }

  /** A dash of these events is a dash of the text node it names. */
  ghost predicate Faithful(cut: Segmenter, events: seq<Event>, texts: seq<string>, first: nat) {
    forall p | 0 <= p < |events| && events[p].Dash? :: var ref := events[p].ref;
      first <= ref.node < first + |texts| && DashAt(cut(texts[ref.node - first]), ref.index)
  }

  lemma FaithfulConcat(cut: Segmenter, a: seq<Event>, b: seq<Event>, texts: seq<string>, more: seq<string>, first: nat)
    requires Faithful(cut, a, texts, first) && Faithful(cut, b, more, first + |texts|)
    ensures Faithful(cut, a + b, texts + more, first)
  {
    forall p | 0 <= p < |a + b| && (a + b)[p].Dash?
      ensures var ref := (a + b)[p].ref;
        first <= ref.node < first + |texts + more| && DashAt(cut((texts + more)[ref.node - first]), ref.index)
    {
      if p < |a| { assert (a + b)[p] == a[p]; } else { assert (a + b)[p] == b[p - |a|]; }
    }
  }

  lemma {:induction false} EventsFaithful(cut: Segmenter, inline: string -> bool, nodes: seq<Node>, first: nat)
    ensures Faithful(cut, Events(cut, inline, nodes, first), Texts(nodes), first)
    decreases nodes
  {
    if nodes != [] {
      NodeFaithful(cut, inline, nodes[0], first);
      EventsFaithful(cut, inline, nodes[1..], first + |NodeTexts(nodes[0])|);
      FaithfulConcat(cut, NodeEvents(cut, inline, nodes[0], first),
        Events(cut, inline, nodes[1..], first + |NodeTexts(nodes[0])|),
                     NodeTexts(nodes[0]), Texts(nodes[1..]), first);
    }
  }

  lemma {:induction false} NodeFaithful(cut: Segmenter, inline: string -> bool, node: Node, first: nat)
    ensures Faithful(cut, NodeEvents(cut, inline, node, first), NodeTexts(node), first)
    decreases node
  {
    match node {
      case Text(data) =>
        SegmentsReading(cut(data), first, |cut(data)|);
      case Other =>
      case Element(tag, children) =>
        EventsFaithful(cut, inline, children, first);
    }
  }

  // ----- the whole fragment -----

  function DocumentEvents(cut: Segmenter, nodes: seq<Node>): seq<Event> { Events(cut, InlineTag, nodes, 0) + [Break] }

  function DocumentSpans(cut: Segmenter, nodes: seq<Node>): seq<Placed> { Spans(DocumentEvents(cut, nodes)) }

  /** What is wrapped: exactly the dashes next to another dash, where inline elements do not separate; and nothing
      but dashes. */
  lemma {:induction false} WrapsJoinedDashes(cut: Segmenter, nodes: seq<Node>, ref: Ref)
    ensures Covered(DocumentSpans(cut, nodes), ref)
      <==> Joined(DocumentEvents(cut, nodes), |DocumentEvents(cut, nodes)|, ref)
    ensures Covered(DocumentSpans(cut, nodes), ref)
      ==> ref.node < |Texts(nodes)| && DashAt(cut(Texts(nodes)[ref.node]), ref.index)
  {
    SpansSorted(cut, nodes);
    assert Trailing(DocumentEvents(cut, nodes)) == [];
    DocumentFaithful(cut, nodes);
    JoinedIsDash(cut, DocumentEvents(cut, nodes), Texts(nodes), ref);
  }

  lemma JoinedIsDash(cut: Segmenter, events: seq<Event>, texts: seq<string>, ref: Ref)
    requires Faithful(cut, events, texts, 0)
    ensures Joined(events, |events|, ref) ==> ref.node < |texts| && DashAt(cut(texts[ref.node]), ref.index)
  {
  }

  lemma {:induction false} DocumentFaithful(cut: Segmenter, nodes: seq<Node>)
    ensures Faithful(cut, DocumentEvents(cut, nodes), Texts(nodes), 0)
  {
    EventsFaithful(cut, InlineTag, nodes, 0);
    FaithfulConcat(cut, Events(cut, InlineTag, nodes, 0), [Break], Texts(nodes), [], 0);
    assert Texts(nodes) + [] == Texts(nodes);
  }

  lemma SpansSorted(cut: Segmenter, nodes: seq<Node>)
    ensures Collected(DocumentEvents(cut, nodes))
  {
    EventsReading(cut, InlineTag, nodes, 0);
    ConcatReading(Events(cut, InlineTag, nodes, 0), [Break], 0, |Texts(nodes)|, |Texts(nodes)|);
    SpansCollected(DocumentEvents(cut, nodes));
  }

  /** The spans of a text node are sorted, disjoint and in range. */
  lemma {:induction false} SpansFit(cut: Segmenter, nodes: seq<Node>, node: nat)
    requires node < |Texts(nodes)|
    ensures Fit(OnNode(DocumentSpans(cut, nodes), node), |cut(Texts(nodes)[node])|)
  {
    SpansSorted(cut, nodes);
    var placed := DocumentSpans(cut, nodes);
    OnNodeInOrder(placed, node);
    var spans := OnNode(placed, node);
    forall i | 0 <= i < |spans| ensures spans[i].end <= |cut(Texts(nodes)[node])| {
      assert spans[i].start < spans[i].end && Placed(node, spans[i]) in placed;
      var k :| 0 <= k < |placed| && placed[k] == Placed(node, spans[i]);
      var ref := Ref(node, spans[i].end - 1);
      assert CoveredBy(placed[k], ref);
      WrapsJoinedDashes(cut, nodes, ref);
    }
  }

  // ----- what separates dashes and what does not -----

  lemma {:induction false} TextsConcat(a: seq<Node>, b: seq<Node>)
    ensures Texts(a + b) == Texts(a) + Texts(b)
  {
    if a == [] {
      assert a + b == b;
    } else {
      DropConcat(a, b);
      TextsConcat(a[1..], b);
      Associate(NodeTexts(a[0]), Texts(a[1..]), Texts(b));
    }
  }

  lemma {:induction false} EventsConcat(cut: Segmenter, inline: string -> bool, a: seq<Node>, b: seq<Node>, first: nat)
    ensures Events(cut, inline, a + b, first)
      == Events(cut, inline, a, first) + Events(cut, inline, b, first + |Texts(a)|)
  {
    if a == [] {
      assert a + b == b;
    } else {
      DropConcat(a, b);
      var next := first + |NodeTexts(a[0])|;
      EventsConcat(cut, inline, a[1..], b, next);
      var head, tail := NodeEvents(cut, inline, a[0], first), Events(cut, inline, a[1..], next);
      var back := Events(cut, inline, b, next + |Texts(a[1..])|);
      assert Events(cut, inline, a + b, first) == head + (tail + back);
      assert next + |Texts(a[1..])| == first + |Texts(a)|;
      Associate(head, tail, back);
    }
  }

  lemma {:induction false} OneNode(cut: Segmenter, inline: string -> bool, node: Node, first: nat)
    ensures Events(cut, inline, [node], first) == NodeEvents(cut, inline, node, first)
    ensures Texts([node]) == NodeTexts(node)
  {
    assert [node][1..] == [];
  }

  /** A node among others, and other nodes in its place. */
  lemma {:induction false} EventsAround(cut: Segmenter, before: seq<Node>, middle: seq<Node>, after: seq<Node>,
                                        first: nat)
    ensures var at := first + |Texts(before)|;
      Events(cut, InlineTag, before + (middle + after), first)
        == Events(cut, InlineTag, before, first)
          + (Events(cut, InlineTag, middle, at) + Events(cut, InlineTag, after, at + |Texts(middle)|))
  {
    EventsConcat(cut, InlineTag, before, middle + after, first);
    EventsConcat(cut, InlineTag, middle, after, first + |Texts(before)|);
  }

  /** An inline element is transparent: the same dashes are met, and so wrapped in the same way, as without its tags. */
  lemma {:induction false} InlineIsTransparent(cut: Segmenter, before: seq<Node>, tag: string, children: seq<Node>,
                                               after: seq<Node>)
    requires InlineTag(tag)
    ensures DocumentEvents(cut, before + ([Element(tag, children)] + after))
      == DocumentEvents(cut, before + (children + after))
  {
    var node := Element(tag, children);
    EventsAround(cut, before, [node], after, 0);
    EventsAround(cut, before, children, after, 0);
    OneNode(cut, InlineTag, node, |Texts(before)|);
  }

  function Ended(events: seq<Event>, last: Event): seq<Placed> {
    if last.Break? then RunSpans(Trailing(events)) else []
  }

  lemma {:induction false} SpansSnoc(events: seq<Event>, last: Event)
    ensures Spans(events + [last]) == Spans(events) + Ended(events, last)
    ensures Trailing(events + [last]) == if last.Break? then [] else Trailing(events) + [last.ref]
  {
    assert (events + [last])[..|events|] == events;
  }

  /** After a break the runs are those of what follows. */
  lemma {:induction false} SpansSplit(a: seq<Event>, b: seq<Event>, spans: seq<Placed>)
    requires a != [] && a[|a| - 1].Break? && spans == Spans(a)
    ensures Spans(a + b) == spans + Spans(b) && Trailing(a + b) == Trailing(b)
  {
    if b == [] {
      assert a + b == a && spans + [] == spans;
    } else {
      var before, last := b[..|b| - 1], b[|b| - 1];
      Rejoin(b, |b| - 1);
      SpansSplit(a, before, spans);
      Associate(a, before, [last]);
      SpansSnoc(a + before, last);
      SpansSnoc(before, last);
      Associate(spans, Spans(before), Ended(before, last));
    }
  }

  /** The spans of some events by themselves. */
  function EndedSpans(events: seq<Event>): seq<Placed> { Spans(events + [Break]) }

  /** Elements that are not inline, line breaks and anything but text and elements. */
  predicate Separates(node: Node) { node.Other? || (node.Element? && (node.tag == "br" || !InlineTag(node.tag))) }

  /** What is inside such a node; a line break has nothing inside. */
  function Inside(node: Node): seq<Node> { if node.Element? && node.tag != "br" then node.children else [] }

  lemma {:induction false} BreakEvents(cut: Segmenter, node: Node, first: nat)
    requires Separates(node)
    ensures NodeEvents(cut, InlineTag, node, first) ==
      if node.Element? && node.tag != "br" then [Break] + Events(cut, InlineTag, Inside(node), first) + [Break]
      else [Break]
  {
  }

  lemma {:induction false} NoSpans()
    ensures Spans([Break]) == []
  {
    assert [Break][..0] == [];
  }

  lemma {:induction false} SpansAround(a: seq<Event>, inside: seq<Event>, b: seq<Event>)
    ensures Spans(a + [Break] + (inside + [Break] + b)) == Spans(a + [Break]) + Spans(inside + [Break]) + Spans(b)
  {
    SpansSplit(a + [Break], inside + [Break] + b, Spans(a + [Break]));
    SpansSplit(inside + [Break], b, Spans(inside + [Break]));
    Associate(Spans(a + [Break]), Spans(inside + [Break]), Spans(b));
  }

  /** The same without anything inside. */
  lemma {:induction false} SpansApart(a: seq<Event>, b: seq<Event>)
    ensures Spans(a + [Break] + b) == Spans(a + [Break]) + Spans([Break]) + Spans(b)
  {
    SpansSplit(a + [Break], b, Spans(a + [Break]));
    NoSpans();
    assert Spans(a + [Break]) + [] == Spans(a + [Break]);
  }

  lemma Regroup(a: seq<Event>, inside: seq<Event>, b: seq<Event>)
    ensures a + (([Break] + inside + [Break]) + b) + [Break] == a + [Break] + (inside + [Break] + (b + [Break]))
    ensures a + ([Break] + b) + [Break] == a + [Break] + (b + [Break])
  {
  }

  lemma {:induction false} SpansOfParts(a: seq<Event>, own: seq<Event>, inside: seq<Event>, b: seq<Event>)
    requires own == [Break] + inside + [Break] || (own == [Break] && inside == [])
    ensures Spans(a + (own + b) + [Break]) == Spans(a + [Break]) + Spans(inside + [Break]) + Spans(b + [Break])
  {
    Regroup(a, inside, b);
    SpansAround(a, inside, b + [Break]);
    SpansApart(a, b + [Break]);
    assert [] + [Break] == [Break];
  }

  /** Spans of events around the events of a node that separates, whatever they are of. */
  ghost predicate SeparatesSpans(spans: seq<Event> -> seq<Placed>) {
    forall a, own, inside, b {:trigger spans(a + (own + b)), spans(inside)} ::
      own == [Break] + inside + [Break] || (own == [Break] && inside == []) ==>
        spans(a + (own + b)) == spans(a) + spans(inside) + spans(b)
  }

  /** What is before, inside and after a node, each by itself; text nodes are numbered on from `first`. */
  ghost predicate StandAlone(cut: Segmenter, before: seq<Node>, node: Node, after: seq<Node>, first: nat,
                             spans: seq<Event> -> seq<Placed>)
  {
    var at := first + |Texts(before)|;
    spans(Events(cut, InlineTag, before + ([node] + after), first))
      == spans(Events(cut, InlineTag, before, first)) + spans(Events(cut, InlineTag, Inside(node), at))
        + spans(Events(cut, InlineTag, after, at + |NodeTexts(node)|))
  }

  lemma {:induction false} SeparatedBy(cut: Segmenter, before: seq<Node>, node: Node, after: seq<Node>, first: nat,
                                       spans: seq<Event> -> seq<Placed>)
    requires Separates(node) && SeparatesSpans(spans)
    ensures StandAlone(cut, before, node, after, first, spans)
  {
    var at := first + |Texts(before)|;
    var a, own, inside, b := Events(cut, InlineTag, before, first), NodeEvents(cut, InlineTag, node, at),
                             Events(cut, InlineTag, Inside(node), at),
                             Events(cut, InlineTag, after, at + |NodeTexts(node)|);
    NodeAmongOthers(cut, before, node, after, first, a, own, b);
    OwnEvents(cut, node, at, own, inside);
    assert spans(a + (own + b)) == spans(a) + spans(inside) + spans(b);
  }

  /** No run of dashes goes on across such a node: what is before it, inside it and after it is wrapped as if each
      stood alone. */
  lemma {:induction false} BlocksSeparate(cut: Segmenter, before: seq<Node>, node: Node, after: seq<Node>, first: nat)
    requires Separates(node)
    ensures StandAlone(cut, before, node, after, first, EndedSpans)
  {
    SpansSeparate();
    SeparatedBy(cut, before, node, after, first, EndedSpans);
  }

  lemma SpansSeparate()
    ensures SeparatesSpans(EndedSpans)
  {
    forall a, own, inside, b | own == [Break] + inside + [Break] || (own == [Break] && inside == [])
      ensures EndedSpans(a + (own + b)) == EndedSpans(a) + EndedSpans(inside) + EndedSpans(b)
    {
      SpansOfParts(a, own, inside, b);
    }
  }

  lemma {:induction false} NodeAmongOthers(cut: Segmenter, before: seq<Node>, node: Node, after: seq<Node>, first: nat,
                                           a: seq<Event>, own: seq<Event>, b: seq<Event>)
    requires a == Events(cut, InlineTag, before, first)
    requires own == NodeEvents(cut, InlineTag, node, first + |Texts(before)|)
    requires b == Events(cut, InlineTag, after, first + |Texts(before)| + |NodeTexts(node)|)
    ensures Events(cut, InlineTag, before + ([node] + after), first) == a + (own + b)
  {
    EventsAround(cut, before, [node], after, first);
    OneNode(cut, InlineTag, node, first + |Texts(before)|);
  }

  lemma {:induction false} OwnEvents(cut: Segmenter, node: Node, at: nat, own: seq<Event>, inside: seq<Event>)
    requires Separates(node) && own == NodeEvents(cut, InlineTag, node, at)
    requires inside == Events(cut, InlineTag, Inside(node), at)
    ensures own == [Break] + inside + [Break] || (own == [Break] && inside == [])
  {
    BreakEvents(cut, node, at);
  }

  predicate StartLess(a: Span, b: Span) { a.start < b.start }

  /** Sorting the spans of a node changes nothing. */
  lemma {:induction false} OnNodeStays(placed: seq<Placed>, node: nat)
    requires Sorted(placed)
    ensures SortBy(OnNode(placed, node), StartLess) == OnNode(placed, node)
  {
    OnNodeInOrder(placed, node);
    var spans := OnNode(placed, node);
    forall i, j | 0 <= i < j < |spans| ensures !StartLess(spans[j], spans[i]) {
      assert spans[i].start < spans[i].end <= spans[j].start;
    }
    InOrderStays(spans, StartLess);
  }

  method CollectHtmlDashRunSpans(cut: Segmenter, nodes: seq<Node>) returns (spans: SpanMap)
    ensures Holds(spans, DocumentSpans(cut, nodes))
  {
    var collector := new Collector();
    collector.Walk(cut, InlineTag, nodes, 0);
    assert [] + Events(cut, InlineTag, nodes, 0) == Events(cut, InlineTag, nodes, 0);
    collector.Flush();
    var collected := collector.spans;
    spans := map n | n in collected :: SortBy(collected[n], StartLess);
    SpansSorted(cut, nodes);
    forall n | n in collected ensures spans[n] == collected[n] {
      OnNodeStays(DocumentSpans(cut, nodes), n);
      assert collected[n] == OnNode(DocumentSpans(cut, nodes), n);
    }
  }

  /** What a text node is rewritten to: its text, with the span elements of its spans. */
  ghost predicate Rewritten(cut: Segmenter, nodes: seq<Node>, n: nat, pieces: seq<Piece>)
    requires n < |Texts(nodes)|
  {
    && PiecesText(pieces) == Texts(nodes)[n]
    && WrapsSpans(Wraps(pieces), cut(Texts(nodes)[n]), OnNode(DocumentSpans(cut, nodes), n))
  }

  method RewriteNode(cut: Segmenter, nodes: seq<Node>, n: nat, spans: map<nat, seq<Span>>) returns (pieces: seq<Piece>)
    requires Segments(cut) && n < |Texts(nodes)|
    requires if n in spans then spans[n] == OnNode(DocumentSpans(cut, nodes), n)
             else OnNode(DocumentSpans(cut, nodes), n) == []
    ensures Rewritten(cut, nodes, n, pieces)
  {
    var text := Texts(nodes)[n];
    if n in spans {
      SpansFit(cut, nodes, n);
      pieces := AppendHtmlDashRunFragmentsToDom(cut, text, spans[n]);
    } else {
      PiecesSnoc([], Plain(text));
      assert [] + [Plain(text)] == [Plain(text)] && "" + text == text;
      pieces := [Plain(text)];
    }
  }

  /** Every text node keeps its text, and its span elements are those of its spans. */
  method RenderHtmlFallbackDashRuns(cut: Segmenter, nodes: seq<Node>) returns (rewritten: seq<seq<Piece>>)
    requires Segments(cut)
    ensures |rewritten| == |Texts(nodes)|
    ensures forall n | 0 <= n < |rewritten| :: Rewritten(cut, nodes, n, rewritten[n])
  {
    var dashRunSpans := CollectHtmlDashRunSpans(cut, nodes);
    var texts := Texts(nodes);
    rewritten := [];
    for n := 0 to |texts|
      invariant |rewritten| == n && forall k | 0 <= k < n :: Rewritten(cut, nodes, k, rewritten[k])
    {
      var pieces := RewriteNode(cut, nodes, n, dashRunSpans);
      rewritten := rewritten + [pieces];
    }
  }
}
