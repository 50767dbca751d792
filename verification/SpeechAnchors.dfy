/** The text of a speech chunk and the anchors that tie it to the document (readerSpeech.ts). */
module SpeechAnchors {
  import opened Ordering
  import opened Arithmetic
  import opened Graphemes
  import opened SpeechFragments
  import opened SpeechMaps

  // ----- normalised text -----

  /** White space as String.prototype.trim has it. */
  predicate IsSpace(c: char) {
    c in {'\t', '\n', '\U{0b}', '\U{0c}', '\r', ' ', '\U{a0}', '\U{1680}', '\U{2028}', '\U{2029}', '\U{202f}',
      '\U{205f}', '\U{3000}', '\U{feff}'} ||
    '\U{2000}' <= c <= '\U{200a}'
  }

  function TrimStart(s: string): (r: string)
    ensures |r| <= |s| && s[|s| - |r|..] == r
  {
    if s != "" && IsSpace(s[0]) then TrimStart(s[1..]) else s
  }

  function TrimEnd(s: string): (r: string)
    ensures r <= s
  {
    if s != "" && IsSpace(s[|s| - 1]) then TrimEnd(s[..|s| - 1]) else s
  }

  /** Runs of three or more line feeds cut down to two. */
  function Collapse(s: string): string {
    if s == "" then ""
    else if |s| >= 3 && s[|s| - 3..] == "\n\n\n" then Collapse(s[..|s| - 1])
    else Collapse(s[..|s| - 1]) + [s[|s| - 1]]
  }

  /** The collapsed text of a prefix is a prefix of the collapsed text. */
  lemma {:induction false} CollapsePrefix(s: string, i: nat, j: nat)
    requires i <= j <= |s|
    ensures Collapse(s[..i]) <= Collapse(s[..j])
    decreases j
  {
    if i < j {
      CollapsePrefix(s, i, j - 1);
      assert s[..j][..j - 1] == s[..j - 1];
    }
  }

  ghost predicate LineFeeds(run: string) { forall i | 0 <= i < |run| :: run[i] == '\n' }

  /** A line feed after two others is dropped, any other character is kept. */
  lemma {:induction false} CollapseSnoc(s: string, c: char)
    ensures Collapse(s + [c]) ==
      if c == '\n' && |s| >= 2 && s[|s| - 1] == s[|s| - 2] == '\n' then Collapse(s) else Collapse(s) + [c]
  {
    var all := s + [c];
    assert all[..|all| - 1] == s;
    if |s| >= 2 { assert all[|all| - 3..] == [s[|s| - 2], s[|s| - 1], c]; }
  }

  /** Anything but a line feed is kept as it is. */
  lemma CollapseKeeps(s: string, c: char)
    requires c != '\n'
    ensures Collapse("") == "" && Collapse(s + [c]) == Collapse(s) + [c]
  {
    CollapseSnoc(s, c);
  }

  /** What stands at the end of a text followed by line feeds. */
  lemma RunEnds(s: string, run: string)
    requires (s == "" || s[|s| - 1] != '\n') && LineFeeds(run)
    ensures var t := s + run; |run| >= 2 <==> |t| >= 2 && t[|t| - 1] == t[|t| - 2] == '\n'
  {
  }

  lemma LastFeed(run: string) returns (rest: string)
    requires run != "" && LineFeeds(run)
    ensures run == rest + ['\n'] && LineFeeds(rest)
  {
    rest := run[..|run| - 1];
  }

  lemma FewFeeds(start: string, rest: string, before: string, after: string)
    requires before == start + rest[..Min(|rest|, 2)] && LineFeeds(rest)
    requires after == if |rest| >= 2 then before else before + ['\n']
    ensures var run := rest + ['\n']; after == start + run[..Min(|run|, 2)]
  {
    var run := rest + ['\n'];
    if |rest| < 2 { assert run[..Min(|run|, 2)] == rest[..Min(|rest|, 2)] + ['\n']; }
    else { assert run[..2] == rest[..2]; }
  }

  ghost predicate DropsThirdFeed(f: string -> string) {
    forall t, c :: f(t + [c]) == if c == '\n' && |t| >= 2 && t[|t| - 1] == t[|t| - 2] == '\n' then f(t) else f(t) + [c]
  }

  lemma {:induction false} RunOf(f: string -> string, s: string, run: string)
    requires DropsThirdFeed(f) && (s == "" || s[|s| - 1] != '\n') && LineFeeds(run)
    ensures f(s + run) == f(s) + run[..Min(|run|, 2)]
    decreases |run|
  {
    if run == "" {
      assert s + run == s;
    } else {
      var rest := LastFeed(run);
      RunOf(f, s, rest);
      RunEnds(s, rest);
      FewFeeds(f(s), rest, f(s + rest), f((s + rest) + ['\n']));
      Associate(s, rest, ['\n']);
    }
  }

  /** Of a run of line feeds at most two are kept, of one or two all. */
  lemma CollapseRun(s: string, run: string)
    requires (s == "" || s[|s| - 1] != '\n') && LineFeeds(run)
    ensures Collapse(s + run) == Collapse(s) + run[..Min(|run|, 2)]
  {
    CollapseDrops();
    RunOf(CollapseAll(), s, run);
    assert CollapseAll()(s + run) == CollapseAll()(s) + run[..Min(|run|, 2)];
  }

  function CollapseAll(): string -> string { t => Collapse(t) }

  lemma CollapseDrops()
    ensures DropsThirdFeed(CollapseAll())
  {
    forall t: string, c: char { CollapseSnoc(t, c); }
  }

  ghost predicate Blank(s: string) { forall i | 0 <= i < |s| :: IsSpace(s[i]) }

  ghost predicate WithoutStart(s: string, r: string) {
    |r| <= |s| && s[|s| - |r|..] == r && Blank(s[..|s| - |r|]) && (r != "" ==> !IsSpace(r[0]))
  }

  ghost predicate WithoutEnd(s: string, r: string) {
    r <= s && Blank(s[|r|..]) && (r != "" ==> !IsSpace(r[|r| - 1]))
  }

  lemma {:induction false} TrimStartIs(s: string)
    ensures WithoutStart(s, TrimStart(s))
  {
    if s != "" && IsSpace(s[0]) {
      TrimStartIs(s[1..]);
      OneMoreSpace(s, TrimStart(s[1..]));
    }
  }

  lemma OneMoreSpace(s: string, r: string)
    requires s != "" && IsSpace(s[0]) && WithoutStart(s[1..], r)
    ensures WithoutStart(s, r)
  {
    var n := |s| - |r|;
    assert s[..n] == [s[0]] + s[1..][..n - 1];
  }

  lemma {:induction false} TrimEndIs(s: string)
    ensures WithoutEnd(s, TrimEnd(s))
  {
    if s != "" && IsSpace(s[|s| - 1]) {
      TrimEndIs(s[..|s| - 1]);
      OneSpaceMore(s, TrimEnd(s[..|s| - 1]));
    }
  }

  lemma OneSpaceMore(s: string, r: string)
    requires s != "" && IsSpace(s[|s| - 1]) && WithoutEnd(s[..|s| - 1], r)
    ensures WithoutEnd(s, r)
  {
    assert s[|r|..] == s[..|s| - 1][|r|..] + [s[|s| - 1]];
  }

  /** What trimming both ends leaves and takes off: the text stands behind the lead, only white space stands around
      it and none at its ends. */
  ghost predicate TrimmedFrom(all: string, text: string, lead: nat) {
    && lead + |text| <= |all| && text == all[lead..lead + |text|]
    && Blank(all[..lead]) && Blank(all[lead + |text|..])
    && (text != "" ==> !IsSpace(text[0]) && !IsSpace(text[|text| - 1]))
  }

  lemma TrimmedTwice(all: string, started: string, trimmed: string)
    requires WithoutStart(all, started) && WithoutEnd(started, trimmed)
    ensures TrimmedFrom(all, trimmed, |all| - |started|)
  {
    var lead := |all| - |started|;
    assert all[lead + |trimmed|..] == started[|trimmed|..];
    assert started[..|trimmed|] == all[lead..lead + |trimmed|];
  }

  lemma TrimmedWith(start: string -> string, end: string -> string, all: string)
    requires forall s :: WithoutStart(s, start(s))
    requires forall s :: WithoutEnd(s, end(s))
    ensures WithoutStart(all, start(all)) && TrimmedFrom(all, end(start(all)), |all| - |start(all)|)
  {
    TrimmedTwice(all, start(all), end(start(all)));
  }

  lemma TrimmedIs(all: string)
    ensures TrimmedFrom(all, TrimEnd(TrimStart(all)), |all| - |TrimStart(all)|)
  {
    forall s ensures WithoutStart(s, TrimStart(s)) && WithoutEnd(s, TrimEnd(s)) {
      TrimStartIs(s);
      TrimEndIs(s);
    }
    TrimmedWith(s => TrimStart(s), s => TrimEnd(s), all);
  }

  /** The normalised text is the collapsed text without the white space at its ends. */
  lemma NormalizedIs(raw: string)
    ensures TrimmedFrom(Collapse(raw), Normalized(raw), Leading(raw))
  {
    TrimmedIs(Collapse(raw));
  }

  function Normalized(raw: string): string { TrimEnd(TrimStart(Collapse(raw))) }

  function Leading(raw: string): nat { |Collapse(raw)| - |TrimStart(Collapse(raw))| }

  /** The index in the normalised text that an index in the raw text becomes. */
  function NormalizedIndex(raw: string, i: nat): nat {
    Clamp(|Collapse(raw[..Min(i, |raw|)])| - Leading(raw), 0, |Normalized(raw)|)
  }

  function IndexIn(raw: string): nat -> nat { (i: nat) => NormalizedIndex(raw, i) }

  lemma NormalizedIndexMonotone(raw: string, i: nat, j: nat)
    requires i <= j
    ensures NormalizedIndex(raw, i) <= NormalizedIndex(raw, j) <= |Normalized(raw)|
  {
    CollapsePrefix(raw, Min(i, |raw|), Min(j, |raw|));
  }

  lemma NormalizedIndexEnds(raw: string)
    ensures NormalizedIndex(raw, 0) == 0 && NormalizedIndex(raw, |raw|) == |Normalized(raw)|
  {
    assert raw[..0] == "" && raw[..|raw|] == raw;
  }

  /** Inside the normalised text, what stands before the index is the collapsed raw text before it, leading white
      space aside. */
  lemma NormalizedIndexMarks(raw: string, i: nat)
    requires i <= |raw| && 0 < NormalizedIndex(raw, i) < |Normalized(raw)|
    ensures Leading(raw) <= |Collapse(raw[..i])|
    ensures Normalized(raw)[..NormalizedIndex(raw, i)] == Collapse(raw[..i])[Leading(raw)..]
  {
    CollapsePrefix(raw, i, |raw|);
    assert raw[..|raw|] == raw;
    PrefixOfTrimmed(Collapse(raw), Collapse(raw[..i]), Leading(raw), TrimStart(Collapse(raw)), Normalized(raw));
  }

  /** A prefix of `t` that ends inside the trimmed text is, without the lead, a prefix of that text. */
  lemma PrefixOfTrimmed(t: string, prefix: string, lead: nat, started: string, trimmed: string)
    requires prefix <= t && lead <= |prefix| && started == t[lead..]
    requires trimmed <= started && |prefix| - lead <= |trimmed|
    ensures trimmed[..|prefix| - lead] == prefix[lead..]
  {
  }

  // ----- anchors -----

  /** Two anchors for each fragment, at its start and at its end; `index` tells which character a place in the raw
      text becomes. */
  function FragmentAnchors(index: nat -> nat, fragments: seq<Fragment>): seq<Anchor> {
    if fragments == [] then []
    else
      var (before, f) := (fragments[..|fragments| - 1], fragments[|fragments| - 1]);
      FragmentAnchors(index, before)
        + [Anchor(index(|RawText(before)|), f.start), Anchor(index(|RawText(fragments)|), f.end)]
  }

  function AnchorsOf(fragments: seq<Fragment>): seq<Anchor> {
    FragmentAnchors(IndexIn(RawText(fragments)), fragments)
  }

  /** Of several anchors in a row for one character, the one with the greatest position. */
  function Deduped(anchors: seq<Anchor>): seq<Anchor> {
    if anchors == [] then [] else DedupedNext(Deduped(anchors[..|anchors| - 1]), anchors[|anchors| - 1])
  }

  function DedupedNext(r: seq<Anchor>, a: Anchor): seq<Anchor> {
    if r != [] && r[|r| - 1].charIndex == a.charIndex
    then r[..|r| - 1] + [Anchor(a.charIndex, Max(r[|r| - 1].position, a.position))]
    else r + [a]
  }

  method BuildReaderSpeechChunkTextAndAnchors(fragments: seq<Fragment>) returns (text: string, anchors: seq<Anchor>)
    ensures text == Normalized(RawText(fragments))
    ensures anchors == Deduped(Sorted(AnchorsOf(fragments)))
  {
    var raw := RawText(fragments);
    text := Normalized(raw);
    forall i: nat ensures IndexIn(raw)(i) <= |text| { NormalizedIndexMonotone(raw, i, i); }
    var positionAnchors := CollectAnchors(IndexIn(raw), |text|, fragments);
    var clamped := ClampAnchors(positionAnchors, |text|);
    anchors := Dedupe(Sorted(clamped));
  }

  method CollectAnchors(index: nat -> nat, length: nat, fragments: seq<Fragment>) returns (anchors: seq<Anchor>)
    requires forall i: nat :: index(i) <= length
    ensures anchors == FragmentAnchors(index, fragments)
    ensures forall k | 0 <= k < |anchors| :: anchors[k].charIndex <= length
  {
    anchors := [];
    var rawOffset := 0;
    for i := 0 to |fragments|
      invariant rawOffset == |RawText(fragments[..i])| && anchors == FragmentAnchors(index, fragments[..i])
      invariant forall k | 0 <= k < |anchors| :: anchors[k].charIndex <= length
    {
      assert fragments[..i + 1][..i] == fragments[..i];
      var rawEnd := rawOffset + |fragments[i].text|;
      anchors := anchors + [Anchor(index(rawOffset), fragments[i].start), Anchor(index(rawEnd), fragments[i].end)];
      rawOffset := rawEnd;
    }
    assert fragments[..|fragments|] == fragments;
  }

  function ClampAnchors(anchors: seq<Anchor>, length: nat): (r: seq<Anchor>)
    ensures (forall k | 0 <= k < |anchors| :: anchors[k].charIndex <= length) ==> r == anchors
  {
    seq(|anchors|, k requires 0 <= k < |anchors| => Anchor(Clamp(anchors[k].charIndex, 0, length), anchors[k].position))
  }

  method Dedupe(sorted: seq<Anchor>) returns (anchors: seq<Anchor>)
    ensures anchors == Deduped(sorted)
  {
    anchors := [];
    for i := 0 to |sorted|
      invariant anchors == Deduped(sorted[..i])
    {
      assert sorted[..i + 1][..i] == sorted[..i];
      var a := sorted[i];
      if anchors != [] && anchors[|anchors| - 1].charIndex == a.charIndex {
        var previous := anchors[|anchors| - 1];
        anchors := anchors[..|anchors| - 1] + [previous.(position := Max(previous.position, a.position))];
      } else {
        anchors := anchors + [a];
      }
    }
    assert sorted[..|sorted|] == sorted;
  }

  // ----- anchors of fragments in document order -----

  /** Neither index nor position falls from one anchor to a later one, and between different characters the
      position rises. */
  ghost predicate Climbing(anchors: seq<Anchor>) {
    forall i, j | 0 <= i < j < |anchors| ::
      && anchors[i].charIndex <= anchors[j].charIndex && anchors[i].position <= anchors[j].position
      && (anchors[i].charIndex < anchors[j].charIndex ==> anchors[i].position < anchors[j].position)
  }

  ghost predicate Monotone(index: nat -> nat) { forall i: nat, j: nat | i <= j :: index(i) <= index(j) }

  lemma {:induction false} FragmentAnchorsClimb(index: nat -> nat, fragments: seq<Fragment>)
    requires Ordered(fragments) && fragments != [] && Monotone(index)
    ensures Climbs(FragmentAnchors(index, fragments), Anchor(index(0), fragments[0].start),
                   Anchor(index(|RawText(fragments)|), fragments[|fragments| - 1].end))
  {
    var before, f := fragments[..|fragments| - 1], fragments[|fragments| - 1];
    assert Proper(f);
    var start, end := Anchor(index(|RawText(before)|), f.start), Anchor(index(|RawText(fragments)|), f.end);
    assert start.charIndex <= end.charIndex;
    assert FragmentAnchors(index, fragments) == FragmentAnchors(index, before) + [start, end];
    if before == [] {
      PairClimbs(start, end);
      assert [] + [start, end] == [start, end];
    } else {
      var last := before[|before| - 1];
      assert last == fragments[|fragments| - 2] && last.end <= f.start;
      FragmentAnchorsClimb(index, before);
      ClimbOn(FragmentAnchors(index, before), Anchor(index(0), before[0].start), Anchor(start.charIndex, last.end),
        start, end);
    }
  }

  lemma PairClimbs(start: Anchor, end: Anchor)
    requires start.charIndex <= end.charIndex && start.position < end.position
    ensures Climbs([start, end], start, end)
  {
  }

  ghost predicate Climbs(anchors: seq<Anchor>, first: Anchor, last: Anchor) {
    anchors != [] && Climbing(anchors) && anchors[0] == first && anchors[|anchors| - 1] == last
  }

  /** An anchor pair climbs on if it starts at the last character and no earlier in the document. */
  lemma ClimbOn(anchors: seq<Anchor>, first: Anchor, last: Anchor, start: Anchor, end: Anchor)
    requires Climbs(anchors, first, last) && last.charIndex == start.charIndex && last.position <= start.position
    requires start.charIndex <= end.charIndex && start.position < end.position
    ensures Climbs(anchors + [start, end], first, end)
  {
    forall i | 0 <= i < |anchors|
      ensures anchors[i].charIndex <= last.charIndex && anchors[i].position <= last.position
      ensures anchors[i].charIndex < last.charIndex ==> anchors[i].position < last.position
    {
      if i < |anchors| - 1 { assert anchors[i].position <= anchors[|anchors| - 1].position; }
    }
  }

  ghost predicate Strict(anchors: seq<Anchor>) {
    forall i, j | 0 <= i < j < |anchors| ::
      anchors[i].charIndex < anchors[j].charIndex && anchors[i].position < anchors[j].position
  }

  lemma {:induction false} StrictRises(anchors: seq<Anchor>)
    requires Strict(anchors) && anchors != []
    ensures Rising(anchors[0], anchors[1..])
  {
    if |anchors| > 1 {
      var rest := anchors[1..];
      assert forall i | 0 <= i < |rest| :: rest[i] == anchors[i + 1];
      StrictRises(rest);
    }
  }

  /** Strictly rising from the first character to the last anchor. */
  ghost predicate RisesTo(r: seq<Anchor>, first: Anchor, last: Anchor) {
    r != [] && Strict(r) && r[|r| - 1] == last && r[0].charIndex == first.charIndex && r[0].position >= first.position
  }

  lemma DedupedStep(r: seq<Anchor>, first: Anchor, last: Anchor, a: Anchor)
    requires RisesTo(r, first, last) && last.charIndex <= a.charIndex && last.position <= a.position
    requires last.charIndex < a.charIndex ==> last.position < a.position
    ensures RisesTo(DedupedNext(r, a), first, a)
  {
  }

  /** Dropping duplicates keeps the first character and the last anchor. */
  lemma {:induction false} DedupedRises(anchors: seq<Anchor>)
    requires Climbing(anchors) && anchors != []
    ensures RisesTo(Deduped(anchors), anchors[0], anchors[|anchors| - 1])
  {
    var before, a := anchors[..|anchors| - 1], anchors[|anchors| - 1];
    if before == [] {
      assert Deduped(anchors) == DedupedNext([], a) == [a];
    } else {
      DedupedRises(before);
      DedupedStep(Deduped(before), anchors[0], anchors[|anchors| - 2], a);
      assert Deduped(anchors) == DedupedNext(Deduped(before), a);
    }
  }

  /** The chunk that a group of fragments makes. */
  function ChunkOf(group: seq<Fragment>): Chunk
    requires group != []
  {
    var raw := RawText(group);
    Chunk(group[0].start, group[|group| - 1].end, Normalized(raw), Deduped(Sorted(AnchorsOf(group))))
  }

  /** A group of fragments in document order makes a valid chunk, if there is anything to say. */
  lemma ChunkOfIsValid(group: seq<Fragment>)
    requires Ordered(group) && group != [] && ChunkOf(group).text != ""
    ensures ValidChunk(ChunkOf(group))
  {
    var raw, chunk := RawText(group), ChunkOf(group);
    GroupAnchorsRise(group);
    NormalizedIndexEnds(raw);
    StrictRises(chunk.anchors);
    assert Proper(group[0]) && Proper(group[|group| - 1]);
  }

  // ----- where fragments are -----

  /** An anchor that is the last for its character stays. */
  lemma {:induction false} DedupedHas(anchors: seq<Anchor>, k: nat)
    requires Climbing(anchors) && k + 1 < |anchors| && anchors[k].charIndex < anchors[k + 1].charIndex
    ensures anchors[k] in Deduped(anchors)
  {
    var before, a := anchors[..|anchors| - 1], anchors[|anchors| - 1];
    DedupedRises(before);
    assert before[|before| - 1] == anchors[|anchors| - 2];
    if k + 2 < |anchors| {
      DedupedHas(before, k);
      assert anchors[k + 1].charIndex <= a.charIndex;
    }
    StaysDeduped(Deduped(before), a, anchors[k]);
  }

  lemma StaysDeduped(r: seq<Anchor>, a: Anchor, x: Anchor)
    requires x in r && x.charIndex < a.charIndex
    ensures x in DedupedNext(r, a)
  {
    var i :| 0 <= i < |r| && r[i] == x;
    assert DedupedNext(r, a)[i] == x;
  }

  lemma {:induction false} FragmentAnchorsAt(index: nat -> nat, fragments: seq<Fragment>, i: nat)
    requires i < |fragments|
    ensures PairAt(FragmentAnchors(index, fragments), i, Anchor(index(|RawText(fragments[..i])|), fragments[i].start),
                   Anchor(index(|RawText(fragments[..i + 1])|), fragments[i].end))
  {
    var before := fragments[..|fragments| - 1];
    if i < |before| {
      FragmentAnchorsAt(index, before, i);
      assert before[..i] == fragments[..i] && before[..i + 1] == fragments[..i + 1];
    } else {
      FragmentAnchorsPair(index, before);
      assert fragments[..i + 1] == fragments;
    }
  }

  ghost predicate PairAt(anchors: seq<Anchor>, i: nat, start: Anchor, end: Anchor) {
    2 * i + 1 < |anchors| && anchors[2 * i] == start && anchors[2 * i + 1] == end
  }

  lemma {:induction false} FragmentAnchorsPair(index: nat -> nat, fragments: seq<Fragment>)
    ensures |FragmentAnchors(index, fragments)| == 2 * |fragments|
  {
    if fragments != [] { FragmentAnchorsPair(index, fragments[..|fragments| - 1]); }
  }

  /** A fragment that leaves something to say starts, in the chunk as in the document, at its own position. */
  lemma FragmentsKeepPlace(cut: Segmenter, group: seq<Fragment>, i: nat)
    requires Segments(cut) && Ordered(group) && i < |group|
    requires var (raw, start, end) := (RawText(group), RawText(group[..i]), RawText(group[..i + 1]));
      NormalizedIndex(raw, |start|) < NormalizedIndex(raw, |end|)
    ensures var at := NormalizedIndex(RawText(group), |RawText(group[..i])|);
      && PositionOf(cut, ChunkOf(group), at) == group[i].start
      && CharIndexOf(cut, ChunkOf(group), group[i].start) == at
  {
    var index, anchors := IndexIn(RawText(group)), AnchorsOf(group);
    NormalizedIndexMonotone(RawText(group), |RawText(group[..i + 1])|, |RawText(group[..i + 1])|);
    ChunkOfIsValid(group);
    AnchorsClimb(group);
    FragmentAnchorsAt(index, group, i);
    DedupedHas(anchors, 2 * i);
    var j :| 0 <= j < |ChunkOf(group).anchors| && ChunkOf(group).anchors[j] == anchors[2 * i];
    AnchorsAreKept(cut, ChunkOf(group), j);
  }

  /** The anchors of fragments in document order are sorted. */
  lemma {:induction false} AnchorsClimb(group: seq<Fragment>)
    requires Ordered(group) && group != []
    ensures Climbing(AnchorsOf(group)) && Sorted(AnchorsOf(group)) == AnchorsOf(group)
  {
    var raw, index := RawText(group), IndexIn(RawText(group));
    forall i: nat, j: nat | i <= j ensures index(i) <= index(j) { NormalizedIndexMonotone(raw, i, j); }
    FragmentAnchorsClimb(index, group);
    InOrderStays(AnchorsOf(group), AnchorLess);
  }

  // ----- a line break that trimming removes -----

  lemma {:induction false} CollapseShort(s: string)
    requires |s| <= 2
    ensures Collapse(s) == s
  {
    if s != "" {
      CollapseShort(s[..|s| - 1]);
      Rejoin(s, |s| - 1);
    }
  }

  lemma {:induction false} TrimEndDrops(s: string, space: char)
    requires s != "" && !IsSpace(s[|s| - 1]) && IsSpace(space)
    ensures TrimEnd(s + [space]) == s
  {
    assert (s + [space])[..|s|] == s;
    assert TrimEnd(s) == s;
  }

  /** The text of one character and a line break, and where its places end up. */
  lemma TrimmedBreakText(c: char, raw: string)
    requires !IsSpace(c) && raw == [c] + ['\n']
    ensures Normalized(raw) == [c]
    ensures NormalizedIndex(raw, 0) == 0 && NormalizedIndex(raw, 1) == 1 && NormalizedIndex(raw, 2) == 1
  {
    CollapseShort(raw);
    TrimEndDrops([c], '\n');
    NormalizedIndexEnds(raw);
    assert raw[..1] == [c];
    CollapseShort([c]);
  }

  lemma {:induction false} FragmentAnchorsSnoc(index: nat -> nat, before: seq<Fragment>, f: Fragment, at: nat)
    requires at == |RawText(before)|
    ensures FragmentAnchors(index, before + [f])
         == FragmentAnchors(index, before) + [Anchor(index(at), f.start), Anchor(index(at + |f.text|), f.end)]
  {
    RawTextSnoc(before, f);
    assert (before + [f])[..|before|] == before;
  }

  lemma {:induction false} DedupedNew(anchors: seq<Anchor>, r: seq<Anchor>, a: Anchor)
    requires Deduped(anchors) == r && (r == [] || r[|r| - 1].charIndex != a.charIndex)
    ensures Deduped(anchors + [a]) == r + [a]
  {
    assert (anchors + [a])[..|anchors|] == anchors;
  }

  lemma {:induction false} DedupedAgain(anchors: seq<Anchor>, r: seq<Anchor>, a: Anchor, position: int)
    requires Deduped(anchors) == r + [Anchor(a.charIndex, position)] && position <= a.position
    ensures Deduped(anchors + [a]) == r + [a]
  {
    assert (anchors + [a])[..|anchors|] == anchors;
    assert (r + [Anchor(a.charIndex, position)])[..|r|] == r;
  }

  lemma FourInOrder(anchors: seq<Anchor>)
    requires |anchors| == 4 && forall i, j | 0 <= i < j < 4 :: !AnchorLess(anchors[j], anchors[i])
    ensures Sorted(anchors) == anchors
  {
    assert InOrder(anchors, AnchorLess);
    InOrderStays(anchors, AnchorLess);
  }

  /** One anchor, and three for a later character. */
  lemma DedupedThree(first: Anchor, middle: Anchor, last: Anchor)
    requires first.charIndex < middle.charIndex == last.charIndex && first.position < middle.position < last.position
    ensures Deduped([first, middle, middle, last]) == [first, last]
  {
    assert [] + [first] == [first] && [first] + [middle] == [first, middle] && [first] + [last] == [first, last];
    assert [first, middle] + [middle] == [first, middle, middle];
    assert [first, middle, middle] + [last] == [first, middle, middle, last];
    DedupedNew([], [], first);
    DedupedNew([first], [first], middle);
    DedupedAgain([first, middle], [first], middle, middle.position);
    DedupedAgain([first, middle, middle], [first], last, middle.position);
  }

  lemma TwoFragmentsText(word: Fragment, break_: Fragment)
    ensures RawText([word]) == word.text && RawText([word, break_]) == word.text + break_.text
  {
    RawTextSnoc([], word);
    RawTextSnoc([word], break_);
    assert [] + [word] == [word] && [word] + [break_] == [word, break_] && "" + word.text == word.text;
  }

  lemma TwoFragmentsAnchors(index: nat -> nat, word: Fragment, break_: Fragment)
    ensures FragmentAnchors(index, [word, break_]) ==
      [Anchor(index(0), word.start), Anchor(index(|word.text|), word.end),
       Anchor(index(|word.text|), break_.start), Anchor(index(|word.text| + |break_.text|), break_.end)]
  {
    var none: seq<Fragment> := [];
    var one := none + [word];
    assert one == [word] && one + [break_] == [word, break_];
    TwoFragmentsText(word, break_);
    FragmentAnchorsSnoc(index, none, word, 0);
    FragmentAnchorsSnoc(index, one, break_, |word.text|);
  }

  lemma {:induction false} ChunkOfIs(group: seq<Fragment>, raw: string, text: string, all: seq<Anchor>,
                                     anchors: seq<Anchor>)
    requires group != [] && raw == RawText(group) && text == Normalized(raw)
    requires all == FragmentAnchors(IndexIn(raw), group) == Sorted(all) && anchors == Deduped(all)
    ensures ChunkOf(group) == Chunk(group[0].start, group[|group| - 1].end, text, anchors)
  {
  }

  /** One anchor, and three for a later character, two of them at one position. */
  lemma ThreeOnOne(first: Anchor, middle: Anchor, last: Anchor)
    requires first.charIndex < middle.charIndex == last.charIndex && first.position < middle.position < last.position
    ensures var all := [first, middle, middle, last]; Sorted(all) == all && Deduped(all) == [first, last]
  {
    FourInOrder([first, middle, middle, last]);
    DedupedThree(first, middle, last);
  }

  /** The anchors of two fragments of which the second is trimmed away. */
  lemma TrimmedAnchors(index: nat -> nat, word: Fragment, break_: Fragment, end: nat)
    requires word.start < word.end == break_.start < break_.end
    requires index(0) == 0 < end == index(|word.text|) == index(|word.text| + |break_.text|)
    ensures var all := FragmentAnchors(index, [word, break_]);
      Sorted(all) == all && Deduped(all) == [Anchor(0, word.start), Anchor(end, break_.end)]
  {
    TwoFragmentsAnchors(index, word, break_);
    ThreeOnOne(Anchor(0, word.start), Anchor(end, word.end), Anchor(end, break_.end));
  }

  /** The chunk of two fragments of which the second is trimmed away: its positions go to the end of the first. */
  lemma TrimmedAway(word: Fragment, break_: Fragment, raw: string, text: string, index: nat -> nat)
    requires raw == word.text + break_.text && text == Normalized(raw) && text != "" && index == IndexIn(raw)
    requires word.start < word.end == break_.start < break_.end
    requires index(0) == 0 && index(|word.text|) == |text| == index(|raw|)
    ensures ChunkOf([word, break_])
      == Chunk(word.start, break_.end, text, [Anchor(0, word.start), Anchor(|text|, break_.end)])
  {
    TwoFragmentsText(word, break_);
    TrimmedAnchors(index, word, break_, |text|);
    ChunkOfIs([word, break_], raw, text, FragmentAnchors(index, [word, break_]),
      [Anchor(0, word.start), Anchor(|text|, break_.end)]);
  }

  /** A chunk of one code unit with two anchors is spoken again from any position after its first. */
  lemma ReplaysAfterFirst(cut: Segmenter, chunk: Chunk, first: Anchor, last: Anchor, p: int)
    requires Segments(cut) && |chunk.text| == 1 && chunk.anchors == [first, last]
    requires first == Anchor(0, chunk.startPosition) && last == Anchor(1, chunk.endPosition)
      && first.position < p < last.position
    ensures ValidChunk(chunk) && PlaybackChunk(cut, chunk, Some(p)) == (chunk, 0) && PositionOf(cut, chunk, 0) < p
  {
    assert chunk.anchors[1..] == [last] && [last][1..] == [];
    assert Rising(last, []);
    assert ValidChunk(chunk);
    MapsOf(cut, chunk, 0, p);
    PlaybackSpeaks(cut, chunk, p);
  }

  /** One character and a line break after it, which is trimmed from the text but not from the positions. */
  lemma TrimmedBreakChunk(c: char, word: Fragment, break_: Fragment)
    requires !IsSpace(c) && word.text == [c] && break_.text == ['\n']
      && word.start < word.end == break_.start < break_.end
    ensures ChunkOf([word, break_])
      == Chunk(word.start, break_.end, [c], [Anchor(0, word.start), Anchor(1, break_.end)])
  {
    var raw := word.text + break_.text;
    TrimmedBreakText(c, raw);
    TrimmedAway(word, break_, raw, word.text, IndexIn(raw));
  }

  /** Asked to start at the line break, playback speaks the whole chunk again. */
  lemma TrimmedBreakReplays(cut: Segmenter, c: char, word: Fragment, break_: Fragment, chunk: Chunk)
    requires Segments(cut) && !IsSpace(c) && word.text == [c] && break_.text == ['\n']
    requires word.start < word.end == break_.start < break_.end && chunk == ChunkOf([word, break_])
    ensures chunk.startPosition < break_.start < chunk.endPosition
    ensures PlaybackChunk(cut, chunk, Some(break_.start)) == (chunk, 0) && PositionOf(cut, chunk, 0) < break_.start
  {
    TrimmedBreakChunk(c, word, break_);
    ReplaysAfterFirst(cut, chunk, Anchor(0, word.start), Anchor(1, break_.end), break_.start);
  }

  lemma {:induction false} GroupAnchorsRise(group: seq<Fragment>)
    requires Ordered(group) && group != []
    ensures RisesTo(Deduped(Sorted(AnchorsOf(group))), Anchor(NormalizedIndex(RawText(group), 0), group[0].start),
                    Anchor(NormalizedIndex(RawText(group), |RawText(group)|), group[|group| - 1].end))
  {
    var raw, index, anchors := RawText(group), IndexIn(RawText(group)), AnchorsOf(group);
    forall i: nat, j: nat | i <= j ensures index(i) <= index(j) { NormalizedIndexMonotone(raw, i, j); }
    FragmentAnchorsClimb(index, group);
    InOrderStays(anchors, AnchorLess);
    DedupedRises(anchors);
  }
}
