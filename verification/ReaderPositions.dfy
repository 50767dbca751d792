/** Positions in a reader document: the HTML renderer and the speech tokenizer walk it independently and must assign
    the same coordinates (readerDocument.ts, readerSpeech.ts). */
module ReaderPositions {
  import opened Ordering
  import opened Graphemes
  import opened SpeechFragments

  datatype Token =
    | TextToken(text: string)
    | TcyToken(text: string)
    | RubyToken(text: string, ruby: string)
    | LineBreak
    | Link(href: Option<string>, children: seq<Token>)

  datatype Role = Introduction | Body | Postscript

  datatype Block =
    | Meta(text: string)
    | Title(text: string)
    | Paragraph(section: Role, inlines: seq<Token>)
    | Image(section: Role, src: string)
    | Html(section: Role, html: string, plainText: string)

  /** What takes up positions: a token that is not a link, or a block that is not a paragraph. */
  datatype Item = Inline(token: Token) | Whole(block: Block)

  /** An element written by the renderer, with its position attributes if it has any. */
  datatype Mark = Mark(item: Item, range: Option<(int, int)>)

  class Cursor {
    var value: int

    constructor ()
      ensures value == 0
    {
      value := 0;
    }
  }

  // ----- the coordinates -----

  /** The tokens in reading order, those within links included. */
  function InlineItems(tokens: seq<Token>): seq<Item> {
    if tokens == [] then [] else TokenItems(tokens[0]) + InlineItems(tokens[1..])
  }

  function TokenItems(token: Token): seq<Item> {
    if token.Link? then InlineItems(token.children) else [Inline(token)]
  }

  function BlockItems(block: Block): seq<Item> {
    if block.Paragraph? then InlineItems(block.inlines) else [Whole(block)]
  }

  function DocumentItems(blocks: seq<Block>): seq<Item> {
    if blocks == [] then [] else BlockItems(blocks[0]) + DocumentItems(blocks[1..])
  }

  /** How many positions an item takes up: a text its graphemes, anything else one. */
  function Length(cut: Segmenter, item: Item): nat {
    match item
    case Inline(token) => if token.LineBreak? || token.Link? then 1 else CountGraphemes(cut, token.text)
    case Whole(block) => if block.Meta? || block.Title? then CountGraphemes(cut, block.text) else 1
  }

  type Measure = Item -> nat

  function LengthIn(cut: Segmenter): Measure { item => Length(cut, item) }

  function Total(length: Measure, items: seq<Item>): nat {
    if items == [] then 0 else length(items[0]) + Total(length, items[1..])
  }

  /** The renderer leaves out images whose source it does not accept. */
  predicate Rejected(accepts: string -> bool, item: Item) {
    item.Whole? && item.block.Image? && !accepts(item.block.src)
  }

  function Shown(accepts: string -> bool, items: seq<Item>): seq<Item> {
    if items == [] then [] else (if Rejected(accepts, items[0]) then [] else [items[0]]) + Shown(accepts, items[1..])
  }

  function Range(start: int, length: nat): Option<(int, int)> {
    if length == 0 then None else Some((start, start + length))
  }

  /** The elements of items laid out one after the other from a position on. */
  function MarksFrom(length: Measure, items: seq<Item>, at: int): seq<Mark> {
    if items == [] then []
    else [Mark(items[0], Range(at, length(items[0])))] + MarksFrom(length, items[1..], at + length(items[0]))
  }

  lemma {:induction false} TotalConcat(length: Measure, a: seq<Item>, b: seq<Item>)
    ensures Total(length, a + b) == Total(length, a) + Total(length, b)
  {
    if a == [] {
      assert a + b == b;
    } else {
      assert (a + b)[1..] == a[1..] + b;
      TotalConcat(length, a[1..], b);
    }
  }

  lemma {:induction false} MarksConcat(length: Measure, a: seq<Item>, b: seq<Item>, at: int)
    ensures MarksFrom(length, a + b, at) == MarksFrom(length, a, at) + MarksFrom(length, b, at + Total(length, a))
  {
    if a == [] {
      assert a + b == b;
    } else {
      assert (a + b)[1..] == a[1..] + b;
      MarksConcat(length, a[1..], b, at + length(a[0]));
    }
  }

  lemma {:induction false} ShownConcat(accepts: string -> bool, a: seq<Item>, b: seq<Item>)
    ensures Shown(accepts, a + b) == Shown(accepts, a) + Shown(accepts, b)
  {
    if a == [] {
      assert a + b == b;
    } else {
      assert (a + b)[1..] == a[1..] + b;
      ShownConcat(accepts, a[1..], b);
    }
  }

  lemma {:induction false} InlineConcat(a: seq<Token>, b: seq<Token>)
    ensures InlineItems(a + b) == InlineItems(a) + InlineItems(b)
  {
    if a == [] {
      assert a + b == b;
    } else {
      assert (a + b)[1..] == a[1..] + b;
      InlineConcat(a[1..], b);
    }
  }

  lemma {:induction false} DocumentConcat(a: seq<Block>, b: seq<Block>)
    ensures DocumentItems(a + b) == DocumentItems(a) + DocumentItems(b)
  {
    if a == [] {
      assert a + b == b;
    } else {
      assert (a + b)[1..] == a[1..] + b;
      DocumentConcat(a[1..], b);
    }
  }

  // ----- the renderer -----

  /** The range taken up, if any; the cursor moves behind it. */
  method AdvancePosition(cursor: Cursor, length: nat) returns (range: Option<(int, int)>)
    modifies cursor
    ensures range == Range(old(cursor.value), length) && cursor.value == old(cursor.value) + length
  {
    if length <= 0 { return None; }
    var start := cursor.value;
    cursor.value := cursor.value + length;
    return Some((start, cursor.value));
  }

  method RenderInlineTokens(cut: Segmenter, tokens: seq<Token>, cursor: Cursor) returns (marks: seq<Mark>)
    modifies cursor
    ensures marks == MarksFrom(LengthIn(cut), InlineItems(tokens), old(cursor.value))
    ensures cursor.value == old(cursor.value) + Total(LengthIn(cut), InlineItems(tokens))
    decreases tokens
  {
    marks := [];
    for i := 0 to |tokens|
      invariant marks == MarksFrom(LengthIn(cut), InlineItems(tokens[..i]), old(cursor.value))
      invariant cursor.value == old(cursor.value) + Total(LengthIn(cut), InlineItems(tokens[..i]))
    {
      var token := tokens[i];
      assert tokens[..i + 1] == tokens[..i] + [token];
      InlineConcat(tokens[..i], [token]);
      assert InlineItems([token]) == TokenItems(token);
      MarksConcat(LengthIn(cut), InlineItems(tokens[..i]), TokenItems(token), old(cursor.value));
      TotalConcat(LengthIn(cut), InlineItems(tokens[..i]), TokenItems(token));
      if token.Link? {
        var inner := RenderInlineTokens(cut, token.children, cursor);
        marks := marks + inner;
      } else {
        var range := AdvancePosition(cursor, if token.LineBreak? then 1 else CountGraphemes(cut, token.text));
        marks := marks + [Mark(Inline(token), range)];
      }
    }
    assert tokens[..|tokens|] == tokens;
  }

  /** The elements of a block; None where the renderer writes nothing at all. */
  method RenderBlockHtml(cut: Segmenter, accepts: string -> bool, block: Block, cursor: Cursor)
    returns (marks: Option<seq<Mark>>)
    modifies cursor
    ensures marks.None? <==> Rejected(accepts, Whole(block))
    ensures var shown := Shown(accepts, BlockItems(block));
      && (marks.Some? ==> marks.value == MarksFrom(LengthIn(cut), shown, old(cursor.value)))
      && cursor.value == old(cursor.value) + Total(LengthIn(cut), shown)
  {
    match block {
      case Meta(text) =>
        var range := AdvancePosition(cursor, CountGraphemes(cut, text));
        return Some([Mark(Whole(block), range)]);
      case Title(text) =>
        var range := AdvancePosition(cursor, CountGraphemes(cut, text));
        return Some([Mark(Whole(block), range)]);
      case Paragraph(_, inlines) =>
        InlinesShown(accepts, inlines);
        var inner := RenderInlineTokens(cut, inlines, cursor);
        return Some(inner);
      case Image(_, src) =>
        if !accepts(src) { return None; }
        var range := AdvancePosition(cursor, 1);
        return Some([Mark(Whole(block), range)]);
      case Html(_, _, _) =>
        var range := AdvancePosition(cursor, 1);
        return Some([Mark(Whole(block), range)]);
    }
  }

  ghost predicate OnlyInline(items: seq<Item>) { forall i | 0 <= i < |items| :: items[i].Inline? }

  lemma {:induction false} InlineItemsAreInline(tokens: seq<Token>)
    ensures OnlyInline(InlineItems(tokens))
    decreases tokens
  {
    if tokens != [] {
      if tokens[0].Link? { InlineItemsAreInline(tokens[0].children); }
      InlineItemsAreInline(tokens[1..]);
    }
  }

  lemma {:induction false} OnlyInlineShown(accepts: string -> bool, items: seq<Item>)
    requires OnlyInline(items)
    ensures Shown(accepts, items) == items
  {
    if items != [] { OnlyInlineShown(accepts, items[1..]); }
  }

  lemma {:induction false} InlinesShown(accepts: string -> bool, inlines: seq<Token>)
    ensures Shown(accepts, InlineItems(inlines)) == InlineItems(inlines)
  {
    InlineItemsAreInline(inlines);
    OnlyInlineShown(accepts, InlineItems(inlines));
  }

  // ----- sections -----

  /** A piece of the rendered document: a section with its blocks, or a block outside any section. */
  datatype Part = Section(role: Role, blocks: seq<seq<Mark>>) | Bare(block: seq<Mark>)

  function SectionOf(block: Block): Option<Role> {
    if block.Meta? || block.Title? then None else Some(block.section)
  }

  /** The elements of a block and the section they are written in. */
  type Rendered = (Option<Role>, seq<Mark>)

  function Elements(rendered: seq<Rendered>): seq<Mark> {
    if rendered == [] then [] else Elements(rendered[..|rendered| - 1]) + rendered[|rendered| - 1].1
  }

  function InSection(role: Role, blocks: seq<seq<Mark>>): seq<Rendered> {
    seq(|blocks|, i requires 0 <= i < |blocks| => (Some(role), blocks[i]))
  }

  function FlattenParts(parts: seq<Part>): seq<Rendered> {
    if parts == [] then []
    else
      var part := parts[|parts| - 1];
      FlattenParts(parts[..|parts| - 1]) + if part.Bare? then [(None, part.block)]
        else InSection(part.role, part.blocks)
  }

  /** The blocks that are written, in order, each in its own section. */
  function RenderedBlocks(length: Measure, accepts: string -> bool, blocks: seq<Block>): seq<Rendered> {
    if blocks == [] then []
    else
      var (before, block) := (blocks[..|blocks| - 1], blocks[|blocks| - 1]);
      var rendered := RenderedBlocks(length, accepts, before);
      RenderedNext(length, accepts, rendered, block, Total(length, Shown(accepts, DocumentItems(before))))
  }

  /** What is written once one more block is rendered. */
  function RenderedNext(length: Measure, accepts: string -> bool, rendered: seq<Rendered>, block: Block,
                        at: int): seq<Rendered> {
    if Rejected(accepts, Whole(block)) then rendered
    else rendered + [(SectionOf(block), MarksFrom(length, Shown(accepts, BlockItems(block)), at))]
  }

  /** A block as it is written: in its section, its items laid out from `at`. */
  ghost predicate WrittenAs(rendered: Rendered, length: Measure, block: Block, at: int) {
    && rendered.1 == MarksFrom(length, BlockItems(block), at)
    && rendered.0 == match block
       case Meta(_) => None
       case Title(_) => None
       case Paragraph(role, _) => Some(role)
       case Image(role, _) => Some(role)
       case Html(role, _, _) => Some(role)
  }

  function PlaceOf(length: Measure, blocks: seq<Block>, i: nat): int requires i <= |blocks| {
    Total(length, DocumentItems(blocks[..i]))
  }

  /** Where every image is accepted each block is written, title and meta blocks outside any section and any other in
      its own, and at the positions behind the blocks before it. */
  lemma BlocksInSections(length: Measure, accepts: string -> bool, blocks: seq<Block>, i: nat)
    requires AllAccepted(accepts, blocks) && i < |blocks|
    ensures var rendered := RenderedBlocks(length, accepts, blocks);
      |rendered| == |blocks| && WrittenAs(rendered[i], length, blocks[i], PlaceOf(length, blocks, i))
  {
    var written := WrittenUpTo(length, accepts, blocks);
    var placed := (r: Rendered, k: nat) => k < |blocks| && WrittenAs(r, length, blocks[k], PlaceOf(length, blocks, k));
    forall k: nat | k < |blocks| ensures AddsOne(written(k), written(k + 1), k, placed) {
      WrittenNext(length, accepts, blocks, k, placed);
    }
    WrittenEnds(length, accepts, blocks);
    AddedOneByOne(written, placed, |blocks|);
  }

  function WrittenUpTo(length: Measure, accepts: string -> bool, blocks: seq<Block>): nat -> seq<Rendered> {
    (n: nat) => RenderedBlocks(length, accepts, if n <= |blocks| then blocks[..n] else blocks)
  }

  function TakenUpTo(length: Measure, accepts: string -> bool, blocks: seq<Block>): nat -> nat {
    (n: nat) => Total(length, Shown(accepts, DocumentItems(if n <= |blocks| then blocks[..n] else blocks)))
  }

  ghost predicate AddsOne<T>(before: seq<T>, after: seq<T>, k: nat, holds: (T, nat) -> bool) {
    |after| == |before| + 1 && before <= after && holds(after[|before|], k)
  }

  lemma {:induction false} AddedOneByOne<T>(at: nat -> seq<T>, holds: (T, nat) -> bool, n: nat)
    requires at(0) == [] && forall k: nat | k < n :: AddsOne(at(k), at(k + 1), k, holds)
    ensures |at(n)| == n && forall k: nat | k < n :: holds(at(n)[k], k)
  {
    if n > 0 {
      AddedOneByOne(at, holds, n - 1);
      assert AddsOne(at(n - 1), at(n), n - 1, holds);
    }
  }

  lemma WrittenEnds(length: Measure, accepts: string -> bool, blocks: seq<Block>)
    ensures WrittenUpTo(length, accepts, blocks)(0) == []
    ensures WrittenUpTo(length, accepts, blocks)(|blocks|) == RenderedBlocks(length, accepts, blocks)
    ensures TakenUpTo(length, accepts, blocks)(0) == 0
    ensures TakenUpTo(length, accepts, blocks)(|blocks|) == Total(length, Shown(accepts, DocumentItems(blocks)))
  {
    assert blocks[..|blocks|] == blocks;
  }

  lemma NextWritten(length: Measure, accepts: string -> bool, blocks: seq<Block>, i: nat)
    requires i < |blocks|
    ensures var (written, taken) := (WrittenUpTo(length, accepts, blocks), TakenUpTo(length, accepts, blocks));
      && written(i + 1) == RenderedNext(length, accepts, written(i), blocks[i], taken(i))
      && taken(i + 1) == taken(i) + Total(length, Shown(accepts, BlockItems(blocks[i])))
  {
    assert blocks[..i + 1][..i] == blocks[..i];
    NextBlock(length, accepts, blocks, i);
  }

  lemma {:induction false} WrittenNext(length: Measure, accepts: string -> bool, blocks: seq<Block>, i: nat,
                                       placed: (Rendered, nat) -> bool)
    requires AllAccepted(accepts, blocks) && i < |blocks|
    requires forall r: Rendered | WrittenAs(r, length, blocks[i], PlaceOf(length, blocks, i)) :: placed(r, i)
    ensures var written := WrittenUpTo(length, accepts, blocks); AddsOne(written(i), written(i + 1), i, placed)
  {
    assert !Rejected(accepts, Whole(blocks[i]));
    NextWritten(length, accepts, blocks, i);
    AcceptedShown(accepts, blocks[..i]);
    BlockShown(accepts, blocks[i]);
  }

  lemma BlockShown(accepts: string -> bool, block: Block)
    requires !Rejected(accepts, Whole(block))
    ensures Shown(accepts, BlockItems(block)) == BlockItems(block)
  {
    if block.Paragraph? { InlinesShown(accepts, block.inlines); }
  }

  lemma {:induction false} AcceptedShown(accepts: string -> bool, blocks: seq<Block>)
    requires AllAccepted(accepts, blocks)
    ensures Shown(accepts, DocumentItems(blocks)) == DocumentItems(blocks)
  {
    if blocks != [] {
      BlockShown(accepts, blocks[0]);
      AcceptedShown(accepts, blocks[1..]);
      ShownConcat(accepts, BlockItems(blocks[0]), DocumentItems(blocks[1..]));
    }
  }

  /** The parts written so far and the section still open. */
  ghost predicate Writing(parts: seq<Part>, activeSection: Option<Role>, sectionParts: seq<seq<Mark>>,
                          rendered: seq<Rendered>)
  {
    && (activeSection.None? ==> sectionParts == [])
    && FlattenParts(parts) + (if activeSection.None? then [] else InSection(activeSection.value, sectionParts))
      == rendered
  }

  ghost predicate AllAccepted(accepts: string -> bool, blocks: seq<Block>) {
    forall i | 0 <= i < |blocks| :: !Rejected(accepts, Whole(blocks[i]))
  }

  /** No section is empty, and none is followed by another of its kind. */
  ghost predicate SectionsApart(parts: seq<Part>) {
    && (forall i | 0 <= i < |parts| && parts[i].Section? :: parts[i].blocks != [])
    && (forall i, j | 0 <= i && j == i + 1 && j < |parts| && parts[i].Section? && parts[j].Section? ::
         parts[i].role != parts[j].role)
  }

  /** What is written next does not go on with the last section. */
  ghost predicate ApartFrom(parts: seq<Part>, activeSection: Option<Role>) {
    && SectionsApart(parts)
    && (activeSection.Some? && parts != [] && parts[|parts| - 1].Section? ==>
          parts[|parts| - 1].role != activeSection.value)
  }

  /** The section still open has blocks; outside any section the last thing written is a block. */
  ghost predicate OpenApart(parts: seq<Part>, activeSection: Option<Role>, sectionParts: seq<seq<Mark>>) {
    && ApartFrom(parts, activeSection)
    && if activeSection.Some? then sectionParts != [] else parts == [] || parts[|parts| - 1].Bare?
  }

  method FlushSection(parts: seq<Part>, activeSection: Option<Role>, sectionParts: seq<seq<Mark>>,
                      ghost rendered: seq<Rendered>)
    returns (parts': seq<Part>)
    requires Writing(parts, activeSection, sectionParts, rendered)
    ensures FlattenParts(parts') == rendered
    ensures OpenApart(parts, activeSection, sectionParts) ==>
      forall next | next != activeSection :: ApartFrom(parts', next)
    ensures OpenApart(parts, activeSection, sectionParts) ==> SectionsApart(parts')
  {
    if activeSection.None? || sectionParts == [] { return parts; }
    parts' := parts + [Section(activeSection.value, sectionParts)];
    assert parts'[..|parts|] == parts;
  }

  method WriteBlock(parts: seq<Part>, section: Option<Role>, sectionParts: seq<seq<Mark>>, block: seq<Mark>,
                    ghost rendered: seq<Rendered>)
    returns (parts': seq<Part>, sectionParts': seq<seq<Mark>>)
    requires Writing(parts, section, sectionParts, rendered)
    ensures Writing(parts', section, sectionParts', rendered + [(section, block)])
    ensures ApartFrom(parts, section) ==> OpenApart(parts', section, sectionParts')
  {
    parts', sectionParts' := parts, sectionParts;
    if section.Some? {
      sectionParts' := sectionParts + [block];
      assert InSection(section.value, sectionParts') == InSection(section.value, sectionParts) + [(section, block)];
    } else {
      parts' := parts + [Bare(block)];
      assert parts'[..|parts|] == parts;
    }
  }

  /** Going on to the section of the next block. */
  method EnterSection(parts: seq<Part>, activeSection: Option<Role>, sectionParts: seq<seq<Mark>>,
                      nextSection: Option<Role>, ghost rendered: seq<Rendered>)
    returns (parts': seq<Part>, sectionParts': seq<seq<Mark>>)
    requires Writing(parts, activeSection, sectionParts, rendered)
    ensures Writing(parts', nextSection, sectionParts', rendered)
    ensures OpenApart(parts, activeSection, sectionParts) ==> ApartFrom(parts', nextSection)
  {
    parts', sectionParts' := parts, sectionParts;
    if nextSection != activeSection {
      parts' := FlushSection(parts, activeSection, sectionParts, rendered);
      sectionParts' := [];
    }
  }

  method RenderNext(cut: Segmenter, accepts: string -> bool, block: Block, cursor: Cursor, parts: seq<Part>,
                    activeSection: Option<Role>, sectionParts: seq<seq<Mark>>, ghost rendered: seq<Rendered>)
    returns (parts': seq<Part>, nextSection: Option<Role>, sectionParts': seq<seq<Mark>>)
    requires Writing(parts, activeSection, sectionParts, rendered)
    modifies cursor
    ensures nextSection == SectionOf(block)
    ensures Writing(parts', nextSection, sectionParts',
                    RenderedNext(LengthIn(cut), accepts, rendered, block, old(cursor.value)))
    ensures cursor.value == old(cursor.value) + Total(LengthIn(cut), Shown(accepts, BlockItems(block)))
    ensures OpenApart(parts, activeSection, sectionParts) && !Rejected(accepts, Whole(block)) ==>
      OpenApart(parts', nextSection, sectionParts')
  {
    nextSection := SectionOf(block);
    parts', sectionParts' := EnterSection(parts, activeSection, sectionParts, nextSection, rendered);
    var html := RenderBlockHtml(cut, accepts, block, cursor);
    if html.None? { return; }
    parts', sectionParts' := WriteBlock(parts', nextSection, sectionParts', html.value, rendered);
  }

  /** The number of positions and what is written, once the blocks so far are rendered. */
  ghost predicate Lays(length: Measure, accepts: string -> bool, blocks: seq<Block>, written: nat -> seq<Rendered>,
                       taken: nat -> int)
  {
    && written(0) == [] && taken(0) == 0
    && forall i: nat | i < |blocks| ::
      written(i + 1) == RenderedNext(length, accepts, written(i), blocks[i], taken(i))
        && taken(i + 1) == taken(i) + Total(length, Shown(accepts, BlockItems(blocks[i])))
  }

  lemma DocumentLays(length: Measure, accepts: string -> bool, blocks: seq<Block>)
    ensures Lays(length, accepts, blocks, WrittenUpTo(length, accepts, blocks), TakenUpTo(length, accepts, blocks))
  {
    WrittenEnds(length, accepts, blocks);
    forall i: nat | i < |blocks| { NextWritten(length, accepts, blocks, i); }
  }

  method RenderBlocks(cut: Segmenter, accepts: string -> bool, blocks: seq<Block>, cursor: Cursor,
                      ghost written: nat -> seq<Rendered>, ghost taken: nat -> int)
    returns (parts: seq<Part>, activeSection: Option<Role>, sectionParts: seq<seq<Mark>>)
    requires Lays(LengthIn(cut), accepts, blocks, written, taken) && cursor.value == 0
    modifies cursor
    ensures Writing(parts, activeSection, sectionParts, written(|blocks|)) && cursor.value == taken(|blocks|)
    ensures AllAccepted(accepts, blocks) ==> OpenApart(parts, activeSection, sectionParts)
  {
    parts, activeSection, sectionParts := [], None, [];
    for i := 0 to |blocks|
      invariant Writing(parts, activeSection, sectionParts, written(i)) && cursor.value == taken(i)
      invariant AllAccepted(accepts, blocks) ==> OpenApart(parts, activeSection, sectionParts)
    {
      parts, activeSection, sectionParts :=
        RenderNext(cut, accepts, blocks[i], cursor, parts, activeSection, sectionParts, written(i));
    }
  }

  /** The whole document: every block that is written comes out in order and in its section, blocks of one section
      together if no image is rejected, and the positions run on from block to block. */
  method RenderReaderDocumentHtml(cut: Segmenter, accepts: string -> bool, blocks: seq<Block>)
    returns (parts: seq<Part>, total: int)
    ensures FlattenParts(parts) == RenderedBlocks(LengthIn(cut), accepts, blocks)
    ensures total == Total(LengthIn(cut), Shown(accepts, DocumentItems(blocks)))
    ensures AllAccepted(accepts, blocks) ==> SectionsApart(parts)
  {
    var cursor := new Cursor();
    ghost var length := LengthIn(cut);
    ghost var written, taken := WrittenUpTo(length, accepts, blocks), TakenUpTo(length, accepts, blocks);
    DocumentLays(length, accepts, blocks);
    WrittenEnds(length, accepts, blocks);
    var activeSection, sectionParts;
    parts, activeSection, sectionParts := RenderBlocks(cut, accepts, blocks, cursor, written, taken);
    parts := FlushSection(parts, activeSection, sectionParts, written(|blocks|));
    total := cursor.value;
  }

  lemma {:induction false} ElementsSnoc(rendered: seq<Rendered>, next: Rendered)
    ensures Elements(rendered + [next]) == Elements(rendered) + next.1
  {
    assert (rendered + [next])[..|rendered|] == rendered;
  }

  lemma RenderedStep(length: Measure, accepts: string -> bool, before: seq<Item>, block: Block, rendered: seq<Rendered>)
    requires Elements(rendered) == MarksFrom(length, Shown(accepts, before), 0)
    ensures var shown := Shown(accepts, BlockItems(block));
      Elements(if Rejected(accepts, Whole(block)) then rendered
        else rendered + [(SectionOf(block), MarksFrom(length, shown, Total(length, Shown(accepts, before))))])
      == MarksFrom(length, Shown(accepts, before + BlockItems(block)), 0)
  {
    var shown := Shown(accepts, BlockItems(block));
    ShownConcat(accepts, before, BlockItems(block));
    MarksConcat(length, Shown(accepts, before), shown, 0);
    if Rejected(accepts, Whole(block)) {
      assert Shown(accepts, before) + shown == Shown(accepts, before);
    } else {
      ElementsSnoc(rendered, (SectionOf(block), MarksFrom(length, shown, Total(length, Shown(accepts, before)))));
    }
  }

  /** The elements of the written blocks are those of all shown items laid out from 0. */
  lemma {:induction false} RenderedElements(length: Measure, accepts: string -> bool, blocks: seq<Block>)
    ensures Elements(RenderedBlocks(length, accepts, blocks))
      == MarksFrom(length, Shown(accepts, DocumentItems(blocks)), 0)
  {
    if blocks != [] {
      var before, block := blocks[..|blocks| - 1], blocks[|blocks| - 1];
      RenderedElements(length, accepts, before);
      DocumentSnoc(before, block);
      assert before + [block] == blocks;
      RenderedStep(length, accepts, DocumentItems(before), block, RenderedBlocks(length, accepts, before));
    }
  }

  lemma {:induction false} DocumentSnoc(blocks: seq<Block>, block: Block)
    ensures DocumentItems(blocks + [block]) == DocumentItems(blocks) + BlockItems(block)
  {
    DocumentConcat(blocks, [block]);
    assert DocumentItems([block]) == BlockItems(block);
  }

  lemma NextBlock(length: Measure, accepts: string -> bool, blocks: seq<Block>, i: nat)
    requires i < |blocks|
    ensures var (before, next) := (Shown(accepts, DocumentItems(blocks[..i])), Shown(accepts, BlockItems(blocks[i])));
      var all := Shown(accepts, DocumentItems(blocks[..i + 1]));
      MarksFrom(length, all, 0) == MarksFrom(length, before, 0) + MarksFrom(length, next, Total(length, before))
        && Total(length, all) == Total(length, before) + Total(length, next)
  {
    assert blocks[..i + 1] == blocks[..i] + [blocks[i]];
    DocumentSnoc(blocks[..i], blocks[i]);
    ShownConcat(accepts, DocumentItems(blocks[..i]), BlockItems(blocks[i]));
    MarksConcat(length, Shown(accepts, DocumentItems(blocks[..i])), Shown(accepts, BlockItems(blocks[i])), 0);
    TotalConcat(length, Shown(accepts, DocumentItems(blocks[..i])), Shown(accepts, BlockItems(blocks[i])));
  }
}
