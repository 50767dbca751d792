/** The speech tokenizer's walk over a reader document, and its agreement with the renderer's
    (readerSpeech.ts, readerDocument.ts). */
module SpeechWalk {
  import opened Ordering
  import opened Graphemes
  import opened SpeechFragments
  import opened SpeechMaps
  import opened SpeechChunks
  import opened ReaderPositions

  /** What is said for an item; nothing for an image. */
  function SpeechText(item: Item, preferRuby: bool): string {
    match item
    case Inline(token) =>
      if token.LineBreak? then "\n" else if token.Link? then "" else if token.RubyToken? && preferRuby then token.ruby
        else token.text
    case Whole(block) =>
      if block.Meta? || block.Title? then block.text else if block.Html? then block.plainText else ""
  }

  function Say(preferRuby: bool): Item -> string { item => SpeechText(item, preferRuby) }

  function ToSeq<T>(x: Option<T>): seq<T> { if x.Some? then [x.value] else [] }

  function FragmentsFrom(length: Measure, say: Item -> string, items: seq<Item>, at: int): seq<Fragment> {
    if items == [] then []
    else
      var end := at + length(items[0]);
      ToSeq(CreateFragment(say(items[0]), at, end)) + FragmentsFrom(length, say, items[1..], end)
  }

  /** A line feed after the last fragment, if there is one. */
  function EndLine(fragments: seq<Fragment>): seq<Fragment> {
    if fragments == [] then []
    else var last := fragments[|fragments| - 1]; fragments[..|fragments| - 1] + [last.(text := last.text + "\n")]
  }

  type Row = seq<Item>

  /** The items block by block. */
  function Rows(blocks: seq<Block>): seq<Row> { seq(|blocks|, i requires 0 <= i < |blocks| => BlockItems(blocks[i])) }

  function AllItems(rows: seq<Row>): seq<Item> { if rows == [] then [] else rows[0] + AllItems(rows[1..]) }

  lemma {:induction false} RowsItems(blocks: seq<Block>)
    ensures AllItems(Rows(blocks)) == DocumentItems(blocks)
  {
    if blocks != [] {
      assert Rows(blocks)[1..] == Rows(blocks[1..]);
      RowsItems(blocks[1..]);
    }
  }

  /** What is said for a row laid out from a position on. */
  type Speaker = (Row, int) -> seq<Fragment>

  /** Each row ends its line. */
  function SpeakRows(length: Measure, say: Item -> string): Speaker {
    (row, at) => EndLine(FragmentsFrom(length, say, row, at))
  }

  function RowFragments(length: Measure, speak: Speaker, rows: seq<Row>, at: int): seq<Fragment> {
    if rows == [] then [] else speak(rows[0], at) + RowFragments(length, speak, rows[1..], at + Total(length, rows[0]))
  }

  function SpeakerOf(cut: Segmenter, preferRuby: bool): Speaker { SpeakRows(LengthIn(cut), Say(preferRuby)) }

  function DocumentFragments(cut: Segmenter, preferRuby: bool, blocks: seq<Block>): seq<Fragment> {
    RowFragments(LengthIn(cut), SpeakerOf(cut, preferRuby), Rows(blocks), 0)
  }

  lemma {:induction false} FragmentsConcat(length: Measure, say: Item -> string, a: seq<Item>, b: seq<Item>, at: int)
    ensures FragmentsFrom(length, say, a + b, at)
         == FragmentsFrom(length, say, a, at) + FragmentsFrom(length, say, b, at + Total(length, a))
  {
    if a == [] {
      assert a + b == b;
    } else {
      var end := at + length(a[0]);
      DropConcat(a, b);
      FragmentsConcat(length, say, a[1..], b, end);
      Associate(ToSeq(CreateFragment(say(a[0]), at, end)), FragmentsFrom(length, say, a[1..], end),
                FragmentsFrom(length, say, b, at + Total(length, a)));
    }
  }

  lemma {:induction false} RowFragmentsSnoc(length: Measure, speak: Speaker, rows: seq<Row>, row: Row, at: int,
                                            end: int)
    requires end == at + Total(length, AllItems(rows))
    ensures RowFragments(length, speak, rows + [row], at) == RowFragments(length, speak, rows, at) + speak(row, end)
  {
    if rows == [] {
      assert rows + [row] == [row] && [row][1..] == [];
    } else {
      var rest, next := rows[1..], at + Total(length, rows[0]);
      assert (rows + [row])[1..] == rest + [row];
      TotalConcat(length, rows[0], AllItems(rest));
      RowFragmentsSnoc(length, speak, rest, row, next, end);
      Associate(speak(rows[0], at), RowFragments(length, speak, rest, next), speak(row, end));
    }
  }

  lemma {:induction false} AllItemsSnoc(rows: seq<Row>, row: Row)
    ensures AllItems(rows + [row]) == AllItems(rows) + row
  {
    if rows == [] {
      assert rows + [row] == [row] && [row][1..] == [];
    } else {
      assert (rows + [row])[1..] == rows[1..] + [row];
      AllItemsSnoc(rows[1..], row);
    }
  }

  // ----- the walk -----

  method TokenizeInlineSpeech(cut: Segmenter, tokens: seq<Token>, fragments: seq<Fragment>, cursor: Cursor,
                              preferRuby: bool)
    returns (fragments': seq<Fragment>)
    modifies cursor
    ensures fragments' == fragments
      + FragmentsFrom(LengthIn(cut), Say(preferRuby), InlineItems(tokens), old(cursor.value))
    ensures cursor.value == old(cursor.value) + Total(LengthIn(cut), InlineItems(tokens))
    decreases tokens
  {
    ghost var length, say, at, items := LengthIn(cut), Say(preferRuby), cursor.value, [];
    fragments' := fragments;
    for i := 0 to |tokens|
      invariant items == InlineItems(tokens[..i])
      invariant Said(length, say, items, fragments, at, fragments', cursor.value)
    {
      ghost var before, here, next := fragments', cursor.value, TokenItems(tokens[i]);
      NextToken(tokens, i);
      fragments' := TokenizeToken(cut, tokens[i], fragments', cursor, preferRuby);
      SaidNext(length, say, items, next, fragments, at, before, here, fragments', cursor.value);
      items := items + next;
    }
    assert tokens[..|tokens|] == tokens;
  }

  /** The fragments and the cursor after some items, from those before them. */
  ghost predicate Said(length: Measure, say: Item -> string, items: seq<Item>, fragments: seq<Fragment>, at: int,
                       fragments': seq<Fragment>, at': int)
  {
    fragments' == fragments + FragmentsFrom(length, say, items, at) && at' == at + Total(length, items)
  }

  lemma {:induction false} SaidNext(length: Measure, say: Item -> string, items: seq<Item>, next: seq<Item>,
                                    fragments: seq<Fragment>, at: int,
                                    fragments': seq<Fragment>, at': int, fragments'': seq<Fragment>, at'': int)
    requires Said(length, say, items, fragments, at, fragments', at')
      && Said(length, say, next, fragments', at', fragments'', at'')
    ensures Said(length, say, items + next, fragments, at, fragments'', at'')
  {
    FragmentsConcat(length, say, items, next, at);
    TotalConcat(length, items, next);
    Associate(fragments, FragmentsFrom(length, say, items, at), FragmentsFrom(length, say, next, at'));
  }

  method TokenizeToken(cut: Segmenter, token: Token, fragments: seq<Fragment>, cursor: Cursor, preferRuby: bool)
    returns (fragments': seq<Fragment>)
    modifies cursor
    ensures fragments' == fragments
      + FragmentsFrom(LengthIn(cut), Say(preferRuby), TokenItems(token), old(cursor.value))
    ensures cursor.value == old(cursor.value) + Total(LengthIn(cut), TokenItems(token))
    decreases token
  {
    if token.Link? {
      fragments' := TokenizeInlineSpeech(cut, token.children, fragments, cursor, preferRuby);
      return;
    }
    var start := cursor.value;
    var text := "\n";
    if token.LineBreak? {
      cursor.value := cursor.value + 1;
    } else {
      cursor.value := cursor.value + CountGraphemes(cut, token.text);
      text := if token.RubyToken? && preferRuby then token.ruby else token.text;
    }
    OneItem(LengthIn(cut), Say(preferRuby), Inline(token), start);
    return fragments + ToSeq(CreateFragment(text, start, cursor.value));
  }

  lemma NextToken(tokens: seq<Token>, i: nat)
    requires i < |tokens|
    ensures InlineItems(tokens[..i + 1]) == InlineItems(tokens[..i]) + TokenItems(tokens[i])
  {
    assert tokens[..i + 1] == tokens[..i] + [tokens[i]];
    InlineConcat(tokens[..i], [tokens[i]]);
    assert InlineItems([tokens[i]]) == TokenItems(tokens[i]);
  }

  lemma {:induction false} OneItem(length: Measure, say: Item -> string, item: Item, at: int)
    ensures FragmentsFrom(length, say, [item], at) == ToSeq(CreateFragment(say(item), at, at + length(item)))
    ensures Total(length, [item]) == length(item)
  {
    assert FragmentsFrom(length, say, [item][1..], at + length(item)) == [];
  }

  function AppendWithBoundary(fragments: seq<Fragment>, fragment: Option<Fragment>): seq<Fragment> {
    if fragment.None? then fragments else fragments + [fragment.value.(text := fragment.value.text + "\n")]
  }

  method BlockSpeech(cut: Segmenter, block: Block, fragments: seq<Fragment>, cursor: Cursor, preferRuby: bool)
    returns (fragments': seq<Fragment>)
    modifies cursor
    ensures fragments' == fragments + SpeakerOf(cut, preferRuby)(BlockItems(block), old(cursor.value))
    ensures cursor.value == old(cursor.value) + Total(LengthIn(cut), BlockItems(block))
  {
    if block.Paragraph? {
      fragments' := ParagraphSpeech(cut, block.inlines, fragments, cursor, preferRuby);
      return;
    }
    var start := cursor.value;
    OneItem(LengthIn(cut), Say(preferRuby), Whole(block), start);
    if block.Meta? || block.Title? {
      cursor.value := cursor.value + CountGraphemes(cut, block.text);
      return AppendWithBoundary(fragments, CreateFragment(block.text, start, cursor.value));
    }
    cursor.value := cursor.value + 1;
    if block.Image? { return fragments; }
    return AppendWithBoundary(fragments, CreateFragment(block.plainText, start, cursor.value));
  }

  /** The last fragment of a paragraph, if it has any, ends the line. */
  method ParagraphSpeech(cut: Segmenter, inlines: seq<Token>, fragments: seq<Fragment>, cursor: Cursor,
                         preferRuby: bool) returns (fragments': seq<Fragment>)
    modifies cursor
    ensures fragments' == fragments + SpeakerOf(cut, preferRuby)(InlineItems(inlines), old(cursor.value))
    ensures cursor.value == old(cursor.value) + Total(LengthIn(cut), InlineItems(inlines))
  {
    fragments' := TokenizeInlineSpeech(cut, inlines, fragments, cursor, preferRuby);
    ghost var spoken := FragmentsFrom(LengthIn(cut), Say(preferRuby), InlineItems(inlines), old(cursor.value));
    EndLineAfter(fragments, spoken);
    if |fragments'| > |fragments| {
      var last := fragments'[|fragments'| - 1];
      fragments' := fragments'[..|fragments'| - 1] + [last.(text := last.text + "\n")];
    }
  }

  lemma EndLineAfter(before: seq<Fragment>, spoken: seq<Fragment>)
    ensures before + EndLine(spoken) == if spoken == [] then before + spoken
      else before + spoken[..|spoken| - 1] + EndLine(spoken)[|spoken| - 1..]
    ensures spoken != [] ==> (before + spoken)[..|before + spoken| - 1] == before + spoken[..|spoken| - 1]
  {
  }

  function Spoken(fragments: seq<Fragment>): seq<Fragment> {
    if fragments == [] then []
    else (if fragments[0].text != "" then [fragments[0]] else []) + Spoken(fragments[1..])
  }

  method BuildReaderSpeechFragments(cut: Segmenter, blocks: seq<Block>, preferRuby: bool)
    returns (fragments: seq<Fragment>, total: int)
    ensures fragments == DocumentFragments(cut, preferRuby, blocks)
    ensures total == Total(LengthIn(cut), DocumentItems(blocks))
    ensures Laid(fragments, 0, total)
  {
    fragments, total := CollectFragments(cut, blocks, preferRuby);
    DocumentLaid(cut, preferRuby, blocks);
    AllSpoken(fragments);
    fragments := Spoken(fragments);
  }

  method CollectFragments(cut: Segmenter, blocks: seq<Block>, preferRuby: bool)
    returns (fragments: seq<Fragment>, total: int)
    ensures fragments == DocumentFragments(cut, preferRuby, blocks)
    ensures total == Total(LengthIn(cut), AllItems(Rows(blocks)))
  {
    fragments := [];
    var cursor := new Cursor();
    ghost var length, speak, rows := LengthIn(cut), SpeakerOf(cut, preferRuby), Rows(blocks);
    for i := 0 to |blocks|
      invariant SpokenSoFar(length, speak, rows, i, fragments, cursor.value)
    {
      NextRow(length, speak, rows, i, fragments, cursor.value);
      fragments := BlockSpeech(cut, blocks[i], fragments, cursor, preferRuby);
    }
    assert rows[..|blocks|] == rows;
    total := cursor.value;
  }

  /** The fragments and the cursor after some rows. */
  ghost predicate SpokenSoFar(length: Measure, speak: Speaker, rows: seq<Row>, i: nat, fragments: seq<Fragment>,
                              at: int)
  {
    i <= |rows| && fragments == RowFragments(length, speak, rows[..i], 0) && at == Total(length, AllItems(rows[..i]))
  }

  lemma NextRow(length: Measure, speak: Speaker, rows: seq<Row>, i: nat, fragments: seq<Fragment>, at: int)
    requires SpokenSoFar(length, speak, rows, i, fragments, at) && i < |rows|
    ensures SpokenSoFar(length, speak, rows, i + 1, fragments + speak(rows[i], at), at + Total(length, rows[i]))
  {
    TakeNext(rows, i);
    RowFragmentsSnoc(length, speak, rows[..i], rows[i], 0, at);
    AllItemsSnoc(rows[..i], rows[i]);
    TotalConcat(length, AllItems(rows[..i]), rows[i]);
  }

  lemma {:induction false} AllSpoken(fragments: seq<Fragment>)
    requires forall i | 0 <= i < |fragments| :: Proper(fragments[i])
    ensures Spoken(fragments) == fragments
  {
    if fragments != [] {
      assert Proper(fragments[0]);
      assert forall i | 0 <= i < |fragments[1..]| :: fragments[1..][i] == fragments[i + 1];
      AllSpoken(fragments[1..]);
    }
  }

  /** Fragments in document order within a stretch of it. */
  ghost predicate Laid(fragments: seq<Fragment>, from: int, to: int) {
    from <= to && Ordered(fragments) && Within(fragments, from, to)
  }

  lemma LaidConcat(a: seq<Fragment>, b: seq<Fragment>, all: seq<Fragment>, from: int, middle: int, to: int)
    requires Laid(a, from, middle) && Laid(b, middle, to) && all == a + b
    ensures Laid(all, from, to)
  {
    forall i | 0 <= i < |all| ensures Proper(all[i]) && from <= all[i].start && all[i].end <= to {
      if i < |a| { assert all[i] == a[i] && Proper(a[i]); } else { assert all[i] == b[i - |a|] && Proper(b[i - |a|]); }
    }
    forall i, j | 0 <= i < j < |all| ensures all[i].end <= all[j].start {
      if i < |a| { assert all[i] == a[i]; } else { assert all[i] == b[i - |a|]; }
      if j < |a| { assert all[j] == a[j]; } else { assert all[j] == b[j - |a|]; }
    }
  }

  lemma FragmentLaid(text: string, from: int, to: int)
    requires from <= to
    ensures Laid(ToSeq(CreateFragment(text, from, to)), from, to)
  {
  }

  /** A property of fragments and the stretch they come from. */
  type Placing = (seq<Fragment>, int, int) -> bool

  /** It holds of nothing, of one fragment or none, and of two neighbouring stretches together if of each. */
  ghost predicate Chains(holds: Placing) {
    && (forall at :: holds([], at, at))
    && (forall a, b, from, middle, to :: holds(a, from, middle) && holds(b, middle, to) ==> holds(a + b, from, to))
  }

  ghost predicate HoldsOfOne(holds: Placing, text: string, from: int, to: int) {
    from <= to ==> holds(ToSeq(CreateFragment(text, from, to)), from, to)
  }

  lemma {:induction false} FragmentsHold(length: Measure, say: Item -> string, items: seq<Item>, at: int,
                                         holds: Placing)
    requires Chains(holds) && forall text, from, to :: HoldsOfOne(holds, text, from, to)
    ensures holds(FragmentsFrom(length, say, items, at), at, at + Total(length, items))
  {
    if items != [] {
      var end := at + length(items[0]);
      assert HoldsOfOne(holds, say(items[0]), at, end);
      FragmentsHold(length, say, items[1..], end, holds);
    }
  }

  lemma LaidChains(holds: Placing)
    requires forall fragments, from, to :: holds(fragments, from, to) == Laid(fragments, from, to)
    ensures Chains(holds) && forall text, from, to :: HoldsOfOne(holds, text, from, to)
  {
    forall a, b, from, middle, to | holds(a, from, middle) && holds(b, middle, to) ensures holds(a + b, from, to) {
      LaidConcat(a, b, a + b, from, middle, to);
    }
    forall text, from, to ensures HoldsOfOne(holds, text, from, to) {
      if from <= to { FragmentLaid(text, from, to); }
    }
  }

  lemma {:induction false} FragmentsLaid(length: Measure, say: Item -> string, items: seq<Item>, at: int)
    ensures Laid(FragmentsFrom(length, say, items, at), at, at + Total(length, items))
  {
    var holds := (fragments, from, to) => Laid(fragments, from, to);
    LaidChains(holds);
    FragmentsHold(length, say, items, at, holds);
  }

  lemma EndLineLaid(fragments: seq<Fragment>, from: int, to: int)
    requires Laid(fragments, from, to)
    ensures Laid(EndLine(fragments), from, to)
  {
    var ended := EndLine(fragments);
    forall i | 0 <= i < |ended|
      ensures ended[i].start == fragments[i].start && ended[i].end == fragments[i].end && Proper(ended[i])
    {
      assert Proper(fragments[i]);
    }
  }

  ghost predicate LaidAt(length: Measure, speak: Speaker, row: Row, start: int) {
    Laid(speak(row, start), start, start + Total(length, row))
  }

  lemma {:induction false} RowsLaid(length: Measure, speak: Speaker, rows: seq<Row>, at: int)
    requires forall row, start :: LaidAt(length, speak, row, start)
    ensures Laid(RowFragments(length, speak, rows, at), at, at + Total(length, AllItems(rows)))
  {
    if rows != [] {
      var end := at + Total(length, rows[0]);
      TotalConcat(length, rows[0], AllItems(rows[1..]));
      RowsLaid(length, speak, rows[1..], end);
      assert LaidAt(length, speak, rows[0], at);
      var to := at + Total(length, AllItems(rows));
      LaidConcat(speak(rows[0], at), RowFragments(length, speak, rows[1..], end), RowFragments(length, speak, rows, at),
        at, end, to);
    }
  }

  /** Every fragment of the document is proper, and they follow each other without overlap. */
  lemma {:induction false} DocumentLaid(cut: Segmenter, preferRuby: bool, blocks: seq<Block>)
    ensures Laid(DocumentFragments(cut, preferRuby, blocks), 0, Total(LengthIn(cut), DocumentItems(blocks)))
    ensures AllItems(Rows(blocks)) == DocumentItems(blocks)
  {
    var length, say := LengthIn(cut), Say(preferRuby);
    forall row: Row, start: int ensures LaidAt(length, SpeakRows(length, say), row, start) {
      FragmentsLaid(length, say, row, start);
      EndLineLaid(FragmentsFrom(length, say, row, start), start, start + Total(length, row));
    }
    RowsItems(blocks);
    RowsLaid(length, SpeakRows(length, say), Rows(blocks), 0);
  }

  // ----- the two walks agree -----

  function Intervals(fragments: seq<Fragment>): seq<(int, int)> {
    seq(|fragments|, i requires 0 <= i < |fragments| => (fragments[i].start, fragments[i].end))
  }

  /** The ranges of the elements that there is something to say for. */
  function SpokenRanges(marks: seq<Mark>, say: Item -> string): seq<(int, int)> {
    if marks == [] then []
    else (if say(marks[0].item) == "" then [] else ToSeq(marks[0].range)) + SpokenRanges(marks[1..], say)
  }

  lemma IntervalsConcat(a: seq<Fragment>, b: seq<Fragment>)
    ensures Intervals(a + b) == Intervals(a) + Intervals(b)
  {
  }

  lemma {:induction false} SpokenRangesConcat(a: seq<Mark>, b: seq<Mark>, say: Item -> string)
    ensures SpokenRanges(a + b, say) == SpokenRanges(a, say) + SpokenRanges(b, say)
  {
    if a == [] {
      assert a + b == b;
    } else {
      assert (a + b)[1..] == a[1..] + b;
      SpokenRangesConcat(a[1..], b, say);
    }
  }

  lemma {:induction false} ItemAgrees(say: Item -> string, item: Item, at: int, size: nat)
    ensures Intervals(ToSeq(CreateFragment(say(item), at, at + size)))
      == SpokenRanges([Mark(item, Range(at, size))], say)
  {
    assert SpokenRanges([Mark(item, Range(at, size))][1..], say) == [];
  }

  lemma {:induction false} ItemsAgree(length: Measure, say: Item -> string, items: seq<Item>, at: int)
    ensures Intervals(FragmentsFrom(length, say, items, at)) == SpokenRanges(MarksFrom(length, items, at), say)
  {
    if items != [] {
      var end := at + length(items[0]);
      ItemsAgree(length, say, items[1..], end);
      ItemAgrees(say, items[0], at, length(items[0]));
      IntervalsConcat(ToSeq(CreateFragment(say(items[0]), at, end)), FragmentsFrom(length, say, items[1..], end));
      SpokenRangesConcat([Mark(items[0], Range(at, length(items[0])))], MarksFrom(length, items[1..], end), say);
    }
  }

  /** What is said for a row has the ranges of its elements that there is something to say for. */
  ghost predicate AgreesAt(length: Measure, say: Item -> string, speak: Speaker, row: Row, start: int) {
    Intervals(speak(row, start)) == SpokenRanges(MarksFrom(length, row, start), say)
  }

  lemma {:induction false} RowsAgree(length: Measure, say: Item -> string, speak: Speaker, rows: seq<Row>, at: int)
    requires forall row, start :: AgreesAt(length, say, speak, row, start)
    ensures Intervals(RowFragments(length, speak, rows, at)) == SpokenRanges(MarksFrom(length, AllItems(rows), at), say)
  {
    if rows != [] {
      var end, rest := at + Total(length, rows[0]), AllItems(rows[1..]);
      RowsAgree(length, say, speak, rows[1..], end);
      assert AgreesAt(length, say, speak, rows[0], at);
      IntervalsConcat(speak(rows[0], at), RowFragments(length, speak, rows[1..], end));
      SpokenRangesOfConcat(length, say, rows[0], rest, at);
    }
  }

  lemma {:induction false} SpokenRangesOfConcat(length: Measure, say: Item -> string, a: seq<Item>, b: seq<Item>,
                                                at: int)
    ensures SpokenRanges(MarksFrom(length, a + b, at), say)
         == SpokenRanges(MarksFrom(length, a, at), say) + SpokenRanges(MarksFrom(length, b, at + Total(length, a)), say)
  {
    MarksConcat(length, a, b, at);
    SpokenRangesConcat(MarksFrom(length, a, at), MarksFrom(length, b, at + Total(length, a)), say);
  }

  lemma EndLineIntervals(fragments: seq<Fragment>)
    ensures Intervals(EndLine(fragments)) == Intervals(fragments)
  {
  }

  lemma {:induction false} SpeakersAgree(length: Measure, say: Item -> string, row: Row, start: int)
    ensures AgreesAt(length, say, SpeakRows(length, say), row, start)
  {
    ItemsAgree(length, say, row, start);
    EndLineIntervals(FragmentsFrom(length, say, row, start));
  }

  ghost predicate NoneRejected(accepts: string -> bool, items: seq<Item>) {
    forall i | 0 <= i < |items| :: !Rejected(accepts, items[i])
  }

  lemma {:induction false} AllShown(accepts: string -> bool, items: seq<Item>)
    requires NoneRejected(accepts, items)
    ensures Shown(accepts, items) == items
  {
    if items != [] {
      assert forall i | 0 <= i < |items[1..]| :: items[1..][i] == items[i + 1];
      AllShown(accepts, items[1..]);
    }
  }

  /** In a document whose images are all accepted, the tokenizer gives every fragment the interval that the renderer
      gives the element it is spoken for, link or no link around it. */
  lemma {:induction false} SameCoordinates(cut: Segmenter, accepts: string -> bool, preferRuby: bool,
                                           blocks: seq<Block>)
    requires NoneRejected(accepts, DocumentItems(blocks))
    ensures Intervals(DocumentFragments(cut, preferRuby, blocks))
         == SpokenRanges(Elements(RenderedBlocks(LengthIn(cut), accepts, blocks)), Say(preferRuby))
  {
    AllShown(accepts, DocumentItems(blocks));
    RenderedElements(LengthIn(cut), accepts, blocks);
    RowsItems(blocks);
    forall row, start ensures AgreesAt(LengthIn(cut), Say(preferRuby), SpeakerOf(cut, preferRuby), row, start) {
      SpeakersAgree(LengthIn(cut), Say(preferRuby), row, start);
    }
    RowsAgree(LengthIn(cut), Say(preferRuby), SpeakerOf(cut, preferRuby), Rows(blocks), 0);
  }

  /** What is said for one item, and where: a text over its graphemes, for a ruby text over those of the text that it
      stands for; a line break, an HTML block and an image take one position, and nothing is said for the last. */
  ghost predicate SaidFor(cut: Segmenter, item: Item, preferRuby: bool, at: int, fragments: seq<Fragment>) {
    match item
    case Inline(TextToken(text)) => SaidOver(fragments, text, at, |cut(text)|)
    case Inline(TcyToken(text)) => SaidOver(fragments, text, at, |cut(text)|)
    case Inline(RubyToken(text, ruby)) => SaidOver(fragments, if preferRuby then ruby else text, at, |cut(text)|)
    case Inline(LineBreak) => fragments == [Fragment("\n", at, at + 1)]
    case Inline(Link(_, _)) => true
    case Whole(Meta(text)) => SaidOver(fragments, text, at, |cut(text)|)
    case Whole(Title(text)) => SaidOver(fragments, text, at, |cut(text)|)
    case Whole(Paragraph(_, _)) => true
    case Whole(Image(_, _)) => fragments == []
    case Whole(Html(_, _, plainText)) => SaidOver(fragments, plainText, at, 1)
  }

  ghost predicate SaidOver(fragments: seq<Fragment>, text: string, at: int, length: int) {
    fragments == if text == "" || length == 0 then [] else [Fragment(text, at, at + length)]
  }

  lemma ItemSaid(cut: Segmenter, item: Item, preferRuby: bool, at: int)
    ensures SaidFor(cut, item, preferRuby, at, FragmentsFrom(LengthIn(cut), Say(preferRuby), [item], at))
  {
    OneItem(LengthIn(cut), Say(preferRuby), item, at);
  }

  /** Every ruby token has a ruby text exactly if it has a text. */
  ghost predicate RubyMatches(items: seq<Item>) {
    forall i | 0 <= i < |items| && items[i].Inline? && items[i].token.RubyToken? ::
      items[i].token.ruby == "" <==> items[i].token.text == ""
  }

  lemma {:induction false} SameRanges(length: Measure, items: seq<Item>, at: int)
    requires RubyMatches(items)
    ensures SpokenRanges(MarksFrom(length, items, at), Say(true))
      == SpokenRanges(MarksFrom(length, items, at), Say(false))
  {
    if items != [] {
      var marks, end := MarksFrom(length, items, at), at + length(items[0]);
      assert forall i | 0 <= i < |items[1..]| :: items[1..][i] == items[i + 1];
      SameRanges(length, items[1..], end);
      assert marks[1..] == MarksFrom(length, items[1..], end);
      assert Say(true)(items[0]) == "" <==> Say(false)(items[0]) == "";
    }
  }

  /** Reading ruby texts instead of what they stand for says other words at the same places. */
  lemma {:induction false} RubyKeepsPlaces(cut: Segmenter, blocks: seq<Block>)
    requires RubyMatches(DocumentItems(blocks))
    ensures Intervals(DocumentFragments(cut, true, blocks)) == Intervals(DocumentFragments(cut, false, blocks))
  {
    var length := LengthIn(cut);
    RowsItems(blocks);
    forall row, start, preferRuby
      ensures AgreesAt(length, Say(preferRuby), SpeakerOf(cut, preferRuby), row, start)
    {
      SpeakersAgree(length, Say(preferRuby), row, start);
    }
    RowsAgree(length, Say(true), SpeakerOf(cut, true), Rows(blocks), 0);
    RowsAgree(length, Say(false), SpeakerOf(cut, false), Rows(blocks), 0);
    SameRanges(length, DocumentItems(blocks), 0);
  }

  function CountRejected(accepts: string -> bool, items: seq<Item>): nat {
    if items == [] then 0 else (if Rejected(accepts, items[0]) then 1 else 0) + CountRejected(accepts, items[1..])
  }

  ghost predicate UnitImages(length: Measure) {
    forall item: Item | item.Whole? && item.block.Image? :: length(item) == 1
  }

  /** The renderer falls one position behind with every image it rejects. */
  lemma {:induction false} CursorsDiffer(length: Measure, accepts: string -> bool, items: seq<Item>)
    requires UnitImages(length)
    ensures Total(length, items) == Total(length, Shown(accepts, items)) + CountRejected(accepts, items)
  {
    if items != [] {
      CursorsDiffer(length, accepts, items[1..]);
      var rest := Shown(accepts, items[1..]);
      if Rejected(accepts, items[0]) {
        assert Shown(accepts, items) == [] + rest == rest;
      } else {
        assert Shown(accepts, items)[1..] == rest;
      }
    }
  }

  /** The element of an item: as far behind the tokenizer's place for it as images were rejected before it. So the
      two agree on it exactly if it takes up no position or no image was rejected before it. */
  ghost predicate PlacedBehind(length: Measure, accepts: string -> bool, items: seq<Item>, j: nat, marks: seq<Mark>)
    requires j < |items|
  {
    var before, spoken := Shown(accepts, items[..j]), Total(length, items[..j]);
    var k, rendered := |before|, Total(length, before);
    && k < |marks| && marks[k] == Mark(items[j], Range(rendered, length(items[j])))
    && spoken == rendered + CountRejected(accepts, items[..j])
    && (marks[k].range == Range(spoken, length(items[j]))
      <==> length(items[j]) == 0 || NoneRejected(accepts, items[..j]))
  }

  lemma {:induction false} RenderedPlace(cut: Segmenter, accepts: string -> bool, blocks: seq<Block>, items: seq<Item>,
                                         marks: seq<Mark>, j: nat)
    requires items == DocumentItems(blocks) && marks == Elements(RenderedBlocks(LengthIn(cut), accepts, blocks))
    requires j < |items| && !Rejected(accepts, items[j])
    ensures PlacedBehind(LengthIn(cut), accepts, items, j, marks)
  {
    RenderedElements(LengthIn(cut), accepts, blocks);
    ImagesAreUnits(cut);
    MarkPlaced(LengthIn(cut), accepts, items, j);
  }

  lemma ImagesAreUnits(cut: Segmenter)
    ensures UnitImages(LengthIn(cut))
  {
  }

  lemma {:induction false} MarkPlaced(length: Measure, accepts: string -> bool, items: seq<Item>, j: nat)
    requires UnitImages(length) && j < |items| && !Rejected(accepts, items[j])
    ensures PlacedBehind(length, accepts, items, j, MarksFrom(length, Shown(accepts, items), 0))
  {
    MarkOf(length, accepts, items, j);
    CursorsDiffer(length, accepts, items[..j]);
    CountRejectedIs(accepts, items[..j]);
  }

  lemma {:induction false} MarkOf(length: Measure, accepts: string -> bool, items: seq<Item>, j: nat)
    requires j < |items| && !Rejected(accepts, items[j])
    ensures var (k, marks) := (|Shown(accepts, items[..j])|, MarksFrom(length, Shown(accepts, items), 0));
      k < |marks| && marks[k] == Mark(items[j], Range(Total(length, Shown(accepts, items[..j])), length(items[j])))
  {
    var before, after := items[..j], items[j + 1..];
    assert items == before + ([items[j]] + after);
    ShownConcat(accepts, before, [items[j]] + after);
    assert ([items[j]] + after)[1..] == after;
    MarksConcat(length, Shown(accepts, before), Shown(accepts, [items[j]] + after), 0);
    MarksCount(length, Shown(accepts, before), 0);
  }

  lemma {:induction false} MarksCount(length: Measure, items: seq<Item>, at: int)
    ensures |MarksFrom(length, items, at)| == |items|
  {
    if items != [] { MarksCount(length, items[1..], at + length(items[0])); }
  }

  /** The walks end at the same position exactly if no image is rejected. */
  lemma {:induction false} EndsAgreeIffNoneRejected(cut: Segmenter, accepts: string -> bool, blocks: seq<Block>)
    ensures var items := DocumentItems(blocks);
      Total(LengthIn(cut), items) == Total(LengthIn(cut), Shown(accepts, items)) <==> NoneRejected(accepts, items)
  {
    ImagesAreUnits(cut);
    CursorsDiffer(LengthIn(cut), accepts, DocumentItems(blocks));
    CountRejectedIs(accepts, DocumentItems(blocks));
  }

  lemma {:induction false} CountRejectedIs(accepts: string -> bool, items: seq<Item>)
    ensures CountRejected(accepts, items) == 0 <==> NoneRejected(accepts, items)
  {
    if items != [] {
      CountRejectedIs(accepts, items[1..]);
      assert forall i | 0 <= i < |items[1..]| :: items[1..][i] == items[i + 1];
      if NoneRejected(accepts, items[1..]) && !Rejected(accepts, items[0]) {
        forall i | 0 <= i < |items| ensures !Rejected(accepts, items[i]) {
          if i > 0 { assert items[i] == items[1..][i - 1]; }
        }
      }
    }
  }

  /** Ranges without gap or overlap. */
  ghost predicate Tiles(ranges: seq<(int, int)>, from: int, to: int) {
    if ranges == [] then from == to else ranges[0].0 == from < ranges[0].1 && Tiles(ranges[1..], ranges[0].1, to)
  }

  function RangesOf(marks: seq<Mark>): seq<(int, int)> {
    if marks == [] then [] else ToSeq(marks[0].range) + RangesOf(marks[1..])
  }

  lemma {:induction false} MarksTile(length: Measure, items: seq<Item>, at: int)
    ensures Tiles(RangesOf(MarksFrom(length, items, at)), at, at + Total(length, items))
  {
    if items != [] {
      var end := at + length(items[0]);
      MarksTile(length, items[1..], end);
      var marks, rest := MarksFrom(length, items, at), RangesOf(MarksFrom(length, items[1..], end));
      assert marks[1..] == MarksFrom(length, items[1..], end);
      if length(items[0]) > 0 {
        assert RangesOf(marks) == [(at, end)] + rest;
        assert RangesOf(marks)[1..] == rest;
      } else {
        assert RangesOf(marks) == [] + rest == rest;
      }
    }
  }

  /** The rendered intervals tile the document from 0 to its end, whatever images are rejected. */
  lemma {:induction false} RenderedTiles(cut: Segmenter, accepts: string -> bool, blocks: seq<Block>, shown: seq<Item>,
                                         marks: seq<Mark>)
    requires shown == Shown(accepts, DocumentItems(blocks))
      && marks == Elements(RenderedBlocks(LengthIn(cut), accepts, blocks))
    ensures Tiles(RangesOf(marks), 0, Total(LengthIn(cut), shown))
  {
    MarksTile(LengthIn(cut), shown, 0);
    assert marks == MarksFrom(LengthIn(cut), shown, 0) by { RenderedElements(LengthIn(cut), accepts, blocks); }
  }

  /** What is said for one block laid out from a position on, if it is not a paragraph. */
  lemma {:induction false} OneBlock(cut: Segmenter, preferRuby: bool, block: Block, at: int)
    requires !block.Paragraph?
    ensures var length := Length(cut, Whole(block));
      SpeakerOf(cut, preferRuby)(BlockItems(block), at)
        == EndLine(ToSeq(CreateFragment(SpeechText(Whole(block), preferRuby), at, at + length)))
  {
    OneItem(LengthIn(cut), Say(preferRuby), Whole(block), at);
  }

  lemma EndLineOfOne(text: string, from: int, to: int)
    ensures EndLine(ToSeq(CreateFragment(text, from, to))) ==
      if text != "" && from < to then [Fragment(text + "\n", from, to)] else []
  {
  }

  lemma {:induction false} OneRow(length: Measure, speak: Speaker, row: Row, at: int)
    ensures RowFragments(length, speak, [row], at) == speak(row, at)
  {
    assert [row][1..] == [] && speak(row, at) + [] == speak(row, at);
  }

  lemma {:induction false} TwoRows(length: Measure, speak: Speaker, a: Row, b: Row)
    ensures RowFragments(length, speak, [a, b], 0) == speak(a, 0) + speak(b, Total(length, a))
  {
    assert [a, b][1..] == [b];
    OneRow(length, speak, b, Total(length, a));
  }

  lemma OneBlockSpoken(cut: Segmenter, preferRuby: bool, block: Block)
    ensures DocumentFragments(cut, preferRuby, [block]) == SpeakerOf(cut, preferRuby)(BlockItems(block), 0)
  {
    assert Rows([block]) == [BlockItems(block)];
    OneRow(LengthIn(cut), SpeakerOf(cut, preferRuby), BlockItems(block), 0);
  }

  lemma TwoBlocksSpoken(cut: Segmenter, preferRuby: bool, a: Block, b: Block)
    ensures DocumentFragments(cut, preferRuby, [a, b])
         == SpeakerOf(cut, preferRuby)(BlockItems(a), 0)
           + SpeakerOf(cut, preferRuby)(BlockItems(b), Total(LengthIn(cut), BlockItems(a)))
  {
    assert Rows([a, b]) == [BlockItems(a), BlockItems(b)];
    TwoRows(LengthIn(cut), SpeakerOf(cut, preferRuby), BlockItems(a), BlockItems(b));
  }

  lemma HtmlBlockSpoken(cut: Segmenter, preferRuby: bool, block: Block, f: Fragment)
    requires block.Html? && block.plainText != "" && f == Fragment(block.plainText + "\n", 0, 1)
    ensures DocumentFragments(cut, preferRuby, [block]) == [f]
  {
    OneBlockSpoken(cut, preferRuby, block);
    OneBlock(cut, preferRuby, block, 0);
    EndLineOfOne(block.plainText, 0, 1);
  }

  /** A document of one HTML block, which takes up one position, loses text if the block is longer than a chunk. */
  lemma {:induction false} HtmlBlockLosesText(cut: Segmenter, preferRuby: bool, block: Block, f: Fragment, max: int,
                                              parts: seq<Fragment>)
    requires Segments(cut) && block.Html? && block.plainText != "" && f == Fragment(block.plainText + "\n", 0, 1)
    requires 0 < max < CountGraphemes(cut, f.text)
    requires IsFitted(cut, DocumentFragments(cut, preferRuby, [block]), max, parts)
    ensures DocumentFragments(cut, preferRuby, [block]) == [f] && |RawText(parts)| < |f.text|
  {
    HtmlBlockSpoken(cut, preferRuby, block, f);
    LongFragmentLosesText(cut, f, max, parts);
  }

  lemma {:induction false} LongFragmentLosesText(cut: Segmenter, f: Fragment, max: int, parts: seq<Fragment>)
    requires Segments(cut) && Proper(f) && f.end == f.start + 1 && 0 < max < CountGraphemes(cut, f.text)
    requires IsFitted(cut, [f], max, parts)
    ensures |RawText(parts)| < |f.text|
  {
    FittedKeepsText(cut, [f], max, parts);
    OneIsTooLong(cut, f, max);
  }

  lemma OneIsTooLong(cut: Segmenter, f: Fragment, max: int)
    requires f.end == f.start + 1 && max < CountGraphemes(cut, f.text)
    ensures !AllRoomy(cut, [f], max) && RawText([f]) == f.text
  {
    assert !Roomy(cut, [f][0], max);
    RawTextSnoc([], f);
    assert [] + [f] == [f];
  }

  /** With the default maximum, 220 characters in an HTML block are too many. */
  lemma {:induction false} LongHtmlExample(text: string, f: Fragment, parts: seq<Fragment>)
    requires |text| == DEFAULT_MAX_GRAPHEMES && f == Fragment(text + "\n", 0, 1)
    requires IsFitted(Singles, DocumentFragments(Singles, true, [Html(Body, "", text)]), MaxGraphemes(None), parts)
    ensures DocumentFragments(Singles, true, [Html(Body, "", text)]) == [f] && |RawText(parts)| < |f.text|
  {
    SinglesSegment();
    SinglesJoin(f.text);
    HtmlBlockLosesText(Singles, true, Html(Body, "", text), f, MaxGraphemes(None), parts);
  }

  /** A rejected image before a title of one character: the title is spoken at 1 and rendered at 0. */
  lemma RejectedImageExample(accepts: string -> bool, image: Block, title: Block, c: char)
    requires image.Image? && !accepts(image.src) && title == Title([c])
    ensures DocumentFragments(Singles, true, [image, title]) == [Fragment([c] + "\n", 1, 2)]
    ensures Elements(RenderedBlocks(LengthIn(Singles), accepts, [image, title])) == [Mark(Whole(title), Some((0, 1)))]
  {
    SinglesJoin([c]);
    TitleSpokenAtOne(image, title, c);
    TitleRenderedAtZero(accepts, image, title);
  }

  lemma TitleSpokenAtOne(image: Block, title: Block, c: char)
    requires image.Image? && title == Title([c]) && Length(Singles, Whole(title)) == 1
    ensures DocumentFragments(Singles, true, [image, title]) == [Fragment([c] + "\n", 1, 2)]
  {
    TwoBlocksSpoken(Singles, true, image, title);
    ImageSpoken(Singles, true, image);
    TitleSpoken(Singles, true, title, [c], 1);
  }

  lemma ImageSpoken(cut: Segmenter, preferRuby: bool, image: Block)
    requires image.Image?
    ensures SpeakerOf(cut, preferRuby)(BlockItems(image), 0) == [] && Total(LengthIn(cut), BlockItems(image)) == 1
  {
    OneBlock(cut, preferRuby, image, 0);
    OneItem(LengthIn(cut), Say(preferRuby), Whole(image), 0);
    EndLineOfOne("", 0, 1);
  }

  lemma TitleSpoken(cut: Segmenter, preferRuby: bool, title: Block, text: string, at: int)
    requires title == Title(text) && text != "" && Length(cut, Whole(title)) == 1
    ensures SpeakerOf(cut, preferRuby)(BlockItems(title), at) == [Fragment(text + "\n", at, at + 1)]
  {
    OneBlock(cut, preferRuby, title, at);
    EndLineOfOne(text, at, at + 1);
  }

  lemma {:induction false} OneMark(length: Measure, item: Item, at: int)
    ensures MarksFrom(length, [item], at) == [Mark(item, Range(at, length(item)))]
  {
    assert [item][1..] == [];
  }

  lemma {:induction false} TwoBlockItems(a: Block, b: Block)
    ensures DocumentItems([a, b]) == BlockItems(a) + BlockItems(b)
  {
    assert [a, b][1..] == [b] && [b][1..] == [];
    assert DocumentItems([b]) == BlockItems(b) + DocumentItems([b][1..]) == BlockItems(b);
  }

  lemma {:induction false} OneShown(accepts: string -> bool, item: Item)
    ensures Shown(accepts, [item]) == if Rejected(accepts, item) then [] else [item]
  {
    assert [item][1..] == [];
  }

  lemma TitleRenderedAtZero(accepts: string -> bool, image: Block, title: Block)
    requires image.Image? && !accepts(image.src) && title.Title? && Length(Singles, Whole(title)) == 1
    ensures Elements(RenderedBlocks(LengthIn(Singles), accepts, [image, title])) == [Mark(Whole(title), Some((0, 1)))]
  {
    RenderedElements(LengthIn(Singles), accepts, [image, title]);
    TwoBlockItems(image, title);
    ShownConcat(accepts, BlockItems(image), BlockItems(title));
    OneShown(accepts, Whole(image));
    OneShown(accepts, Whole(title));
    assert Shown(accepts, DocumentItems([image, title])) == [Whole(title)];
    assert LengthIn(Singles)(Whole(title)) == 1;
    OneMark(LengthIn(Singles), Whole(title), 0);
  }

  /** From a document to its speech chunks: they are made of groups of what there is to say, in document order, and
      each is valid, so the maps connect on it. All that there is to say is in the groups if and only if every
      fragment has enough positions. */
  method BuildDocumentChunks(cut: Segmenter, blocks: seq<Block>, preferRuby: bool, maxOption: Option<int>,
                             targetOption: Option<int>)
    returns (chunks: seq<Chunk>, ghost parts: seq<Fragment>, ghost groups: seq<Group>)
    requires Segments(cut)
    ensures var (fragments, max) := (DocumentFragments(cut, preferRuby, blocks), MaxGraphemes(maxOption));
      && IsFitted(cut, fragments, max, parts) && Flatten(groups) == parts
      && Grouped(cut, groups, max, TargetGraphemes(targetOption, max)) && chunks == ChunksOf(MakeChunk, groups)
      && (RawText(parts) == RawText(fragments) <==> AllRoomy(cut, fragments, max))
    ensures InDocumentOrder(chunks)
  {
    var fragments, total := BuildReaderSpeechFragments(cut, blocks, preferRuby);
    chunks, parts, groups := BuildReaderSpeechChunks(cut, fragments, maxOption, targetOption);
  }
}
