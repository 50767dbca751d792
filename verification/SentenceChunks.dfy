/** Splitting a text into chunks of bounded length at sentence ends, as few as can be (extraction/core.go). */
module SentenceChunks {
  import opened Ordering
  import opened Texts
  import opened GreedySplit

  /** White space runs become single spaces, none at either end. */
  function NormalizeWhitespace(s: string): string {
    if s == "" then ""
    else
      var prefix, c := s[..|s| - 1], s[|s| - 1];
      var done := NormalizeWhitespace(prefix);
      if IsSpace(c) then done
      else if done != "" && IsSpace(prefix[|prefix| - 1]) then done + [' ', c]
      else done + [c]
  }

  lemma {:induction false} NormalizeFacts(s: string)
    ensures NormalizeWhitespace(s) != "" ==> s != ""
    ensures Squeeze(NormalizeWhitespace(s)) == Squeeze(s)
  {
    if s != "" {
      var done, c := NormalizeWhitespace(s[..|s| - 1]), s[|s| - 1];
      NormalizeFacts(s[..|s| - 1]);
      assert (done + [' ', c])[..|done| + 1] == done + [' '];
      assert (done + [' '])[..|done|] == done;
      assert (done + [c])[..|done|] == done;
    }
  }

  /** The words of a text: its longest runs of anything but white space. */
  function Words(s: string): seq<string> {
    if s == "" then []
    else
      var words, c := Words(s[..|s| - 1]), s[|s| - 1];
      if IsSpace(c) then words
      else if |s| > 1 && !IsSpace(s[|s| - 2]) && words != [] then words[..|words| - 1] + [words[|words| - 1] + [c]]
      else words + [[c]]
  }

  /** Words with a space between any two. */
  function Spaced(words: seq<string>): string {
    if words == [] then ""
    else if |words| == 1 then words[0]
    else Spaced(words[..|words| - 1]) + ([' '] + words[|words| - 1])
  }

  lemma {:induction false} SpacedSnoc(words: seq<string>, word: string)
    ensures Spaced(words + [word]) == if words == [] then word else Spaced(words) + ([' '] + word)
  {
    assert (words + [word])[..|words|] == words;
  }

  ghost predicate NoneEmpty(words: seq<string>) { forall i | 0 <= i < |words| :: words[i] != "" }

  /** A last word that ends where the text does. */
  lemma {:induction false} WordsFacts(s: string)
    ensures NoneEmpty(Words(s)) && (s != "" && !IsSpace(s[|s| - 1]) ==> Words(s) != [])
  {
    if s != "" { WordsFacts(s[..|s| - 1]); }
  }

  /** Normalising white space keeps the words and puts a single space between them. */
  lemma {:induction false} NormalizeSpacesWords(s: string)
    ensures NormalizeWhitespace(s) == Spaced(Words(s))
    ensures NormalizeWhitespace(s) == "" <==> Words(s) == []
  {
    if s != "" {
      var prefix, c := s[..|s| - 1], s[|s| - 1];
      var words := Words(prefix);
      NormalizeSpacesWords(prefix);
      WordsFacts(prefix);
      NextWord(words, c);
      if words != [] {
        Rejoin(words, |words| - 1);
        LongerWord(words[..|words| - 1], words[|words| - 1], c);
      }
    }
  }

  lemma LongerWord(before: seq<string>, last: string, c: char)
    ensures Spaced(before + [last + [c]]) == Spaced(before + [last]) + [c]
  {
    SpacedSnoc(before, last);
    SpacedSnoc(before, last + [c]);
    if before != [] {
      assert [' '] + (last + [c]) == [' '] + last + [c];
      Associate(Spaced(before), [' '] + last, [c]);
    }
  }

  lemma NextWord(words: seq<string>, c: char)
    ensures Spaced(words + [[c]]) == if words == [] then [c] else Spaced(words) + [' ', c]
  {
    SpacedSnoc(words, [c]);
    assert [' '] + [c] == [' ', c];
  }

  lemma {:induction false} WordsApart(s: string, c: char)
    ensures IsSpace(c) ==> Words(s + [c]) == Words(s)
    ensures !IsSpace(c) && (s == "" || IsSpace(s[|s| - 1])) ==> Words(s + [c]) == Words(s) + [[c]]
    ensures !IsSpace(c) && s != "" && !IsSpace(s[|s| - 1]) ==>
      Words(s) != [] && Words(s + [c]) == Words(s)[..|Words(s)| - 1] + [Words(s)[|Words(s)| - 1] + [c]]
  {
    assert (s + [c])[..|s|] == s;
    WordsFacts(s);
  }

  function Join(parts: seq<string>): string {
    if parts == [] then "" else Join(parts[..|parts| - 1]) + parts[|parts| - 1]
  }

  lemma {:induction false} JoinSnoc(parts: seq<string>, last: string)
    ensures Join(parts + [last]) == Join(parts) + last
  {
    assert (parts + [last])[..|parts|] == parts;
  }

  predicate EndsSentence(c: char) { c in {'\U{3002}', '\U{FF01}', '\U{FF1F}', '!', '?'} }

  /** The text cut behind each sentence end. */
  function Pieces(text: string): seq<string> {
    if text == "" then [] else Push(Pieces(text[..|text| - 1]), text[|text| - 1])
  }

  /** The next rune goes into the open piece, or opens one. */
  function Push(pieces: seq<string>, c: char): seq<string> {
    if Open(pieces) then pieces[..|pieces| - 1] + [pieces[|pieces| - 1] + [c]] else pieces + [[c]]
  }

  /** The last piece has not reached a sentence end. */
  predicate Open(pieces: seq<string>) {
    pieces != [] && var last := pieces[|pieces| - 1]; last != "" && !EndsSentence(last[|last| - 1])
  }

  /** A sentence end only at the end, and there unless the piece may be unfinished. */
  ghost predicate Sentence(piece: string, finished: bool) {
    && piece != "" && (finished ==> EndsSentence(piece[|piece| - 1]))
    && forall j | 0 <= j < |piece| - 1 :: !EndsSentence(piece[j])
  }

  ghost predicate Sentences(pieces: seq<string>) {
    forall k | 0 <= k < |pieces| :: Sentence(pieces[k], k < |pieces| - 1)
  }

  lemma NextPiece(pieces: seq<string>, c: char)
    requires Sentences(pieces) && !Open(pieces)
    ensures Sentences(pieces + [[c]])
  {
    var all := pieces + [[c]];
    forall k | 0 <= k < |pieces| ensures Sentence(all[k], true) {
      assert all[k] == pieces[k] && Sentence(pieces[k], k < |pieces| - 1);
    }
  }

  lemma LongerPiece(before: seq<string>, last: string, c: char)
    requires Sentences(before + [last]) && Open(before + [last])
    ensures Sentences(before + [last + [c]])
  {
    var pieces, all := before + [last], before + [last + [c]];
    assert Sentence(pieces[|before|], false) && pieces[|before|] == last;
    forall k | 0 <= k < |before| ensures Sentence(all[k], true) {
      assert all[k] == pieces[k] && Sentence(pieces[k], true);
    }
  }

  /** The pieces make up the text, and each is one sentence, the last one possibly unfinished. */
  lemma {:induction false} PiecesAreSentences(text: string)
    ensures Join(Pieces(text)) == text && Sentences(Pieces(text))
  {
    if text != "" {
      var pieces, c := Pieces(text[..|text| - 1]), text[|text| - 1];
      PiecesAreSentences(text[..|text| - 1]);
      Rejoin(text, |text| - 1);
      if Open(pieces) {
        var before, last := pieces[..|pieces| - 1], pieces[|pieces| - 1];
        Rejoin(pieces, |pieces| - 1);
        LongerPiece(before, last, c);
        JoinSnoc(before, last + [c]);
        Associate(Join(before), last, [c]);
      } else {
        NextPiece(pieces, c);
        JoinSnoc(pieces, [c]);
      }
    }
  }

  /** A new piece begins exactly behind a full stop, an exclamation mark or a question mark, full width or not. */
  lemma {:induction false} PieceBegins(text: string, c: char, d: char)
    ensures |Pieces(text + [c] + [d])| ==
      |Pieces(text + [c])| + if c in "\U{3002}\U{FF01}\U{FF1F}!?" then 1 else 0
  {
    var all := text + [c];
    assert all[..|all| - 1] == text && (all + [d])[..|all + [d]| - 1] == all;
    var pieces := Push(Pieces(text), c);
    assert pieces[|pieces| - 1][|pieces[|pieces| - 1]| - 1] == c;
  }

  /** The pieces without white space around them, the empty ones left out. */
  function Trimmed(pieces: seq<string>): seq<string> {
    if pieces == [] then []
    else
      var before, last := Trimmed(pieces[..|pieces| - 1]), TrimSpace(pieces[|pieces| - 1]);
      if last != "" then before + [last] else before
  }

  lemma {:induction false} TrimmedFacts(pieces: seq<string>)
    ensures forall k | 0 <= k < |Trimmed(pieces)| :: Trimmed(pieces)[k] != ""
    ensures Squeeze(Join(Trimmed(pieces))) == Squeeze(Join(pieces))
  {
    if pieces != [] {
      var before, last := pieces[..|pieces| - 1], pieces[|pieces| - 1];
      TrimmedFacts(before);
      TrimSqueeze(last);
      SqueezeConcat(Join(before), last);
      SqueezeConcat(Join(Trimmed(before)), TrimSpace(last));
      JoinSnoc(Trimmed(before), TrimSpace(last));
      assert TrimSpace(last) == "" ==> Squeeze(Join(Trimmed(before))) + "" == Squeeze(Join(Trimmed(before)));
    }
  }

  lemma {:induction false} TrimmedSnoc(pieces: seq<string>, piece: string)
    ensures Trimmed(pieces + [piece]) == if TrimSpace(piece) != "" then Trimmed(pieces) + [TrimSpace(piece)]
      else Trimmed(pieces)
  {
    assert (pieces + [piece])[..|pieces|] == pieces;
  }

  /** Closed pieces, and what is open after them. */
  ghost predicate Parted(pieces: seq<string>, closed: seq<string>, open: string) {
    && !Open(closed) && (open != "" ==> !EndsSentence(open[|open| - 1]))
    && pieces == if open == "" then closed else closed + [open]
  }

  /** The next rune goes into the open piece; a sentence end closes it. */
  lemma PushParts(pieces: seq<string>, closed: seq<string>, open: string, c: char)
    requires Parted(pieces, closed, open)
    ensures Push(pieces, c) == closed + [open + [c]]
    ensures if EndsSentence(c) then Parted(Push(pieces, c), Push(pieces, c), "")
            else Parted(Push(pieces, c), closed, open + [c])
  {
    if open != "" {
      assert (closed + [open])[..|closed|] == closed;
    } else {
      assert open + [c] == [c];
    }
    assert (closed + [open + [c]])[|closed|] == open + [c];
  }

  /** The pieces up to a place: those up to the last sentence end, and what is open after it. */
  ghost predicate CutSoFar(text: string, start: nat, i: nat) {
    start <= i <= |text| && Parted(Pieces(text[..i]), Pieces(text[..start]), text[start..i])
  }

  lemma NextRune(text: string, start: nat, i: nat)
    requires CutSoFar(text, start, i) && i < |text|
    ensures Pieces(text[..i + 1]) == Pieces(text[..start]) + [text[start..i + 1]]
    ensures if EndsSentence(text[i]) then CutSoFar(text, i + 1, i + 1) else CutSoFar(text, start, i + 1)
  {
    var open := text[start..i];
    PushParts(Pieces(text[..i]), Pieces(text[..start]), open, text[i]);
    TakeNext(text, i);
    assert open + [text[i]] == text[start..i + 1] && text[i + 1..i + 1] == "";
  }

  method AddTrimmed(fragments: seq<string>, piece: string, ghost pieces: seq<string>) returns (fragments': seq<string>)
    requires fragments == Trimmed(pieces)
    ensures fragments' == Trimmed(pieces + [piece])
  {
    TrimmedSnoc(pieces, piece);
    var fragment := TrimSpace(piece);
    return if fragment != "" then fragments + [fragment] else fragments;
  }

  /** The fragments of the closed pieces, and where the open one starts. */
  ghost predicate Cutting(text: string, start: nat, i: nat, fragments: seq<string>) {
    CutSoFar(text, start, i) && fragments == Trimmed(Pieces(text[..start]))
  }

  /** One iteration: a sentence end closes the open piece. */
  method CutOne(text: string, start: nat, i: nat, fragments: seq<string>) returns (start': nat, fragments': seq<string>)
    requires i < |text| && Cutting(text, start, i, fragments)
    ensures Cutting(text, start', i + 1, fragments')
  {
    NextRune(text, start, i);
    start', fragments' := start, fragments;
    if EndsSentence(text[i]) {
      fragments' := AddTrimmed(fragments, text[start..i + 1], Pieces(text[..start]));
      start' := i + 1;
    }
  }

  /** What is left open at the end of the text is a piece as well. */
  lemma {:induction false} CutEnds(text: string, start: nat)
    requires CutSoFar(text, start, |text|)
    ensures Pieces(text) == if start < |text| then Pieces(text[..start]) + [text[start..]] else Pieces(text[..start])
  {
    assert text[..|text|] == text && text[start..] == text[start..|text|];
  }

  method CutFragments(text: string) returns (fragments: seq<string>)
    ensures fragments == Trimmed(Pieces(text))
  {
    fragments := [];
    var start: nat := 0;
    for i := 0 to |text|
      invariant Cutting(text, start, i, fragments)
    {
      start, fragments := CutOne(text, start, i, fragments);
    }
    CutEnds(text, start);
    if start < |text| { fragments := AddTrimmed(fragments, text[start..], Pieces(text[..start])); }
  }

  /** The trimmed sentences of the text. */
  method SplitFragments(text: string) returns (fragments: seq<string>)
    ensures fragments == Trimmed(Pieces(text))
    ensures forall i | 0 <= i < |fragments| :: fragments[i] != ""
    ensures Squeeze(Join(fragments)) == Squeeze(text)
  {
    fragments := CutFragments(text);
    PiecesAreSentences(text);
    TrimmedFacts(Pieces(text));
  }

  /** Pieces of maxChars runes, the last one possibly shorter. */
  ghost predicate Even(pieces: seq<string>, maxChars: nat) {
    forall k | 0 <= k < |pieces| :: 0 < |pieces[k]| <= maxChars && (k < |pieces| - 1 ==> |pieces[k]| == maxChars)
  }

  function Every(text: string, maxChars: nat): seq<string>
    requires maxChars >= 1
    decreases |text|
  {
    if text == "" then []
    else if |text| <= maxChars then [text]
    else [text[..maxChars]] + Every(text[maxChars..], maxChars)
  }

  lemma {:induction false} JoinCons(first: string, rest: seq<string>)
    ensures Join([first] + rest) == first + Join(rest)
  {
    if rest == [] {
      JoinSnoc([], first);
      assert [] + [first] == [first] + rest == [first] && "" + first == first + "";
    } else {
      JoinCons(first, rest[..|rest| - 1]);
      assert ([first] + rest)[..|rest|] == [first] + rest[..|rest| - 1];
      assert first + Join(rest[..|rest| - 1]) + rest[|rest| - 1] == first + Join(rest);
    }
  }

  lemma {:induction false} EveryFacts(text: string, maxChars: nat)
    requires maxChars >= 1
    ensures Join(Every(text, maxChars)) == text && Even(Every(text, maxChars), maxChars)
    ensures (text != "" ==> Every(text, maxChars) != []) && (|text| > maxChars ==> |Every(text, maxChars)| > 1)
    decreases |text|
  {
    if |text| > maxChars {
      var rest := Every(text[maxChars..], maxChars);
      EveryFacts(text[maxChars..], maxChars);
      JoinCons(text[..maxChars], rest);
      EvenCons(text[..maxChars], rest, maxChars);
      Rejoin(text, maxChars);
    } else if text != "" {
      JoinSingle(text);
    }
  }

  lemma EvenCons(first: string, rest: seq<string>, maxChars: nat)
    requires |first| == maxChars > 0 && Even(rest, maxChars)
    ensures Even([first] + rest, maxChars)
  {
    forall k | 0 < k < |[first] + rest| ensures ([first] + rest)[k] == rest[k - 1] {}
  }

  lemma JoinSingle(text: string)
    ensures Join([text]) == text
  {
    JoinSnoc([], text);
    assert [] + [text] == [text] && "" + text == text;
  }

  function Rest(text: string, offset: nat): string { if offset < |text| then text[offset..] else "" }

  function NextPieceOf(text: string, offset: nat, maxChars: nat): string
    requires offset < |text|
  {
    text[offset..if offset + maxChars < |text| then offset + maxChars else |text|]
  }

  lemma {:induction false} EveryNext(text: string, offset: nat, maxChars: nat)
    requires offset < |text| && maxChars >= 1
    ensures Every(Rest(text, offset), maxChars)
         == [NextPieceOf(text, offset, maxChars)] + Every(Rest(text, offset + maxChars), maxChars)
  {
    var rest := text[offset..];
    if offset + maxChars < |text| {
      assert rest[..maxChars] == text[offset..offset + maxChars] && rest[maxChars..] == text[offset + maxChars..];
    } else {
      assert rest == text[offset..|text|];
    }
  }

  /** The pieces so far and those of the rest are all pieces. */
  ghost predicate Splitting(pieces: seq<string>, text: string, offset: nat, maxChars: nat)
    requires maxChars >= 1
  {
    pieces + Every(Rest(text, offset), maxChars) == Every(text, maxChars)
  }

  lemma SplitNext(pieces: seq<string>, text: string, offset: nat, maxChars: nat)
    requires offset < |text| && maxChars >= 1 && Splitting(pieces, text, offset, maxChars)
    ensures Splitting(pieces + [NextPieceOf(text, offset, maxChars)], text, offset + maxChars, maxChars)
  {
    EveryNext(text, offset, maxChars);
    Associate(pieces, [NextPieceOf(text, offset, maxChars)], Every(Rest(text, offset + maxChars), maxChars));
  }

  lemma {:induction false} SplitEnds(pieces: seq<string>, text: string, offset: nat, maxChars: nat)
    requires maxChars >= 1 && Splitting(pieces, text, offset, maxChars) && offset >= |text|
    ensures pieces == Every(text, maxChars)
  {
    assert pieces + [] == pieces;
  }

  method SplitEvery(text: string, maxChars: nat) returns (pieces: seq<string>)
    requires maxChars >= 1
    ensures pieces == Every(text, maxChars)
    ensures Join(pieces) == text && Even(pieces, maxChars)
  {
    pieces := [];
    var offset: nat := 0;
    assert Rest(text, 0) == text && [] + Every(text, maxChars) == Every(text, maxChars);
    while offset < |text|
      invariant Splitting(pieces, text, offset, maxChars)
    {
      var end := offset + maxChars;
      if end > |text| { end := |text|; }
      SplitNext(pieces, text, offset, maxChars);
      pieces := pieces + [text[offset..end]];
      offset := offset + maxChars;
    }
    SplitEnds(pieces, text, offset, maxChars);
    EveryFacts(text, maxChars);
  }

  // ----- grouping as late as possible -----

  /** What may not be cut: the sentences, and the pieces of those that are too long by themselves. */
  function Units(fragments: seq<string>, maxChars: nat): seq<string>
    requires maxChars >= 1
  {
    if fragments == [] then []
      else Units(fragments[..|fragments| - 1], maxChars) + UnitsOf(fragments[|fragments| - 1], maxChars)
  }

  function UnitsOf(fragment: string, maxChars: nat): seq<string>
    requires maxChars >= 1
  {
    if |fragment| <= maxChars then [fragment] else Every(fragment, maxChars)
  }

  function TooLong(maxChars: nat): seq<string> -> bool { (group: seq<string>) => |Join(group)| > maxChars }

  function TextsOf(groups: seq<seq<string>>): seq<string> {
    if groups == [] then [] else TextsOf(groups[..|groups| - 1]) + [Join(groups[|groups| - 1])]
  }

  /** The chunks that putting as many units as possible into each gives. */
  function Chunked(units: seq<string>, maxChars: nat): seq<string> { TextsOf(Greedy(units, TooLong(maxChars))) }

  /** One more unit joins the last chunk if it fits. */
  function PlaceText(chunks: seq<string>, unit: string, maxChars: nat): seq<string> {
    if chunks == [] || |chunks[|chunks| - 1] + unit| > maxChars then chunks + [unit]
    else chunks[..|chunks| - 1] + [chunks[|chunks| - 1] + unit]
  }

  lemma {:induction false} TextsSnoc(groups: seq<seq<string>>, last: seq<string>)
    ensures TextsOf(groups + [last]) == TextsOf(groups) + [Join(last)]
  {
    assert (groups + [last])[..|groups|] == groups;
  }

  lemma {:induction false} PlaceIsPlaceText(groups: seq<seq<string>>, unit: string, maxChars: nat)
    ensures TextsOf(Place(groups, unit, TooLong(maxChars))) == PlaceText(TextsOf(groups), unit, maxChars)
  {
    JoinSingle(unit);
    TextsSnoc(groups, [unit]);
    if groups != [] {
      var before, open := groups[..|groups| - 1], groups[|groups| - 1];
      Rejoin(groups, |groups| - 1);
      JoinSnoc(open, unit);
      TextsSnoc(before, open);
      TextsSnoc(before, open + [unit]);
    }
  }

  lemma ChunkedSnoc(units: seq<string>, unit: string, maxChars: nat)
    ensures Chunked(units + [unit], maxChars) == PlaceText(Chunked(units, maxChars), unit, maxChars)
  {
    assert (units + [unit])[..|units|] == units;
    PlaceIsPlaceText(Greedy(units, TooLong(maxChars)), unit, maxChars);
  }

  lemma {:induction false} JoinParts(a: seq<string>, b: seq<string>)
    ensures Join(a + b) == Join(a) + Join(b)
  {
    if b == [] {
      assert a + b == a && Join(a) + "" == Join(a);
    } else {
      JoinParts(a, b[..|b| - 1]);
      assert (a + b)[..|a + b| - 1] == a + b[..|b| - 1];
      assert Join(a) + (Join(b[..|b| - 1]) + b[|b| - 1]) == Join(a + b);
    }
  }

  lemma LongerIsWorse(maxChars: nat)
    ensures GrowsWorse(TooLong(maxChars))
  {
    forall a, b ensures TooLong(maxChars)(a) || TooLong(maxChars)(b) ==> TooLong(maxChars)(a + b) { JoinParts(a, b); }
  }

  lemma {:induction false} TextsOfCount(groups: seq<seq<string>>)
    ensures |TextsOf(groups)| == |groups|
    ensures forall i | 0 <= i < |groups| :: TextsOf(groups)[i] == Join(groups[i])
    ensures Join(TextsOf(groups)) == Join(Flatten(groups))
  {
    if groups != [] {
      var before, last := groups[..|groups| - 1], groups[|groups| - 1];
      TextsOfCount(before);
      JoinSnoc(TextsOf(before), Join(last));
      JoinParts(Flatten(before), last);
    }
  }

  /** No division of the units, in order, into chunks within the limit has fewer chunks. */
  lemma {:induction false} ChunksAreFewest(units: seq<string>, maxChars: nat, groups: seq<seq<string>>)
    requires Flatten(groups) == units && forall i | 0 <= i < |groups| ::
      groups[i] != [] && |Join(groups[i])| <= maxChars
    ensures |Chunked(units, maxChars)| <= |groups|
    ensures Join(Chunked(units, maxChars)) == Join(units)
  {
    LongerIsWorse(maxChars);
    GreedyIsOptimal(units, TooLong(maxChars));
    TextsOfCount(Greedy(units, TooLong(maxChars)));
    assert Division(groups, units, TooLong(maxChars));
  }

  /** Closed chunks are those of the units so far; `full` if the last one can take no more. */
  ghost predicate Closed(chunks: seq<string>, units: seq<string>, maxChars: nat, full: bool) {
    && (forall k | 0 <= k < |chunks| :: 0 < |chunks[k]| <= maxChars) && Chunked(units, maxChars) == chunks
    && (full && chunks != [] ==> |chunks[|chunks| - 1]| == maxChars)
  }

  /** Closed chunks and the open one are those of the units so far. */
  ghost predicate Holds(chunks: seq<string>, current: string, units: seq<string>, maxChars: nat) {
    if current == "" then Closed(chunks, units, maxChars, true) else Closed(chunks + [current], units, maxChars, false)
  }

  /** A unit that the last chunk cannot take is one of its own, and takes no more itself if it is full. */
  lemma NextChunk(chunks: seq<string>, units: seq<string>, unit: string, maxChars: nat, full: bool)
    requires Closed(chunks, units, maxChars, full) && 0 < |unit| <= maxChars
    requires chunks != [] ==> |chunks[|chunks| - 1] + unit| > maxChars
    ensures Closed(chunks + [unit], units + [unit], maxChars, |unit| == maxChars)
  {
    ChunkedSnoc(units, unit, maxChars);
  }

  lemma Extend(chunks: seq<string>, current: string, units: seq<string>, unit: string, maxChars: nat)
    requires Closed(chunks + [current], units, maxChars, false) && unit != "" && |current + unit| <= maxChars
    ensures Closed(chunks + [current + unit], units + [unit], maxChars, false)
  {
    ChunkedSnoc(units, unit, maxChars);
    assert (chunks + [current])[..|chunks|] == chunks && (chunks + [current])[|chunks|] == current;
    forall k | 0 <= k < |chunks| ensures 0 < |chunks[k]| <= maxChars { assert (chunks + [current])[k] == chunks[k]; }
  }

  /** The chunks after `i` pieces; the piece left open can only be the last one. */
  ghost predicate Feeding(chunks: seq<string>, current: string, units: seq<string>, pieces: seq<string>, i: nat,
                          maxChars: nat)
    requires i <= |pieces|
  {
    if current == "" then Closed(chunks, units + pieces[..i], maxChars, i > 0)
    else i == |pieces| && Closed(chunks + [current], units + pieces[..i], maxChars, false)
  }

  lemma FeedOne(chunks: seq<string>, units: seq<string>, pieces: seq<string>, i: nat, maxChars: nat)
    requires i < |pieces| && Even(pieces, maxChars) && |pieces| > 1 && Feeding(chunks, "", units, pieces, i, maxChars)
    ensures Closed(chunks + [pieces[i]], units + pieces[..i + 1], maxChars, |pieces[i]| == maxChars)
    ensures i == |pieces| - 1 && |pieces[i]| < maxChars ==> Feeding(chunks, pieces[i], units, pieces, i + 1, maxChars)
    ensures !(i == |pieces| - 1 && |pieces[i]| < maxChars)
      ==> Feeding(chunks + [pieces[i]], "", units, pieces, i + 1, maxChars)
  {
    assert units + pieces[..i + 1] == units + pieces[..i] + [pieces[i]];
    NextChunk(chunks, units + pieces[..i], pieces[i], maxChars, i > 0);
  }

  /** The pieces of an oversized sentence: all but a short last one are chunks of their own. */
  method AddPieces(chunks: seq<string>, pieces: seq<string>, maxChars: nat, ghost units: seq<string>)
    returns (chunks': seq<string>, current: string)
    requires Closed(chunks, units, maxChars, false) && Even(pieces, maxChars) && |pieces| > 1
    ensures Holds(chunks', current, units + pieces, maxChars)
  {
    chunks', current := chunks, "";
    assert units + pieces[..0] == units;
    for i := 0 to |pieces|
      invariant Feeding(chunks', current, units, pieces, i, maxChars)
    {
      FeedOne(chunks', units, pieces, i, maxChars);
      if i == |pieces| - 1 && |pieces[i]| < maxChars {
        current := pieces[i];
      } else {
        chunks' := chunks' + [pieces[i]];
      }
    }
    assert pieces[..|pieces|] == pieces;
  }

  /** One more sentence: it joins the open chunk if it fits, else the open chunk is closed; a sentence that is
      too long by itself is cut up. */
  method AddSentence(chunks: seq<string>, current: string, fragment: string, maxChars: nat, ghost units: seq<string>)
    returns (chunks': seq<string>, current': string)
    requires maxChars >= 1 && fragment != "" && Holds(chunks, current, units, maxChars)
    ensures Holds(chunks', current', units + UnitsOf(fragment, maxChars), maxChars)
  {
    var next := fragment;
    if current != "" { next := current + fragment; }
    if |next| <= maxChars {
      if current != "" {
        Extend(chunks, current, units, fragment, maxChars);
      } else {
        NextChunk(chunks, units, fragment, maxChars, true);
      }
      return chunks, next;
    }
    chunks' := chunks;
    if current != "" { chunks' := chunks + [current]; }
    if |fragment| <= maxChars {
      NextChunk(chunks', units, fragment, maxChars, false);
      return chunks', fragment;
    }
    var pieces := SplitEvery(fragment, maxChars);
    EveryFacts(fragment, maxChars);
    chunks', current' := AddPieces(chunks', pieces, maxChars, units);
  }

  /** The loop over the sentences. */
  method GroupSentences(fragments: seq<string>, maxChars: nat) returns (chunks: seq<string>)
    requires maxChars >= 1 && forall k | 0 <= k < |fragments| :: fragments[k] != ""
    ensures forall k | 0 <= k < |chunks| :: 0 < |chunks[k]| <= maxChars
    ensures chunks == Chunked(Units(fragments, maxChars), maxChars)
  {
    chunks := [];
    var current := "";
    for i := 0 to |fragments|
      invariant Holds(chunks, current, Units(fragments[..i], maxChars), maxChars)
    {
      assert fragments[..i + 1][..i] == fragments[..i];
      chunks, current := AddSentence(chunks, current, fragments[i], maxChars, Units(fragments[..i], maxChars));
    }
    assert fragments[..|fragments|] == fragments;
    if current != "" { chunks := chunks + [current]; }
  }

  lemma {:induction false} UnitsJoin(fragments: seq<string>, maxChars: nat)
    requires maxChars >= 1
    ensures Join(Units(fragments, maxChars)) == Join(fragments)
  {
    if fragments != [] {
      var before, last := fragments[..|fragments| - 1], fragments[|fragments| - 1];
      UnitsJoin(before, maxChars);
      JoinParts(Units(before, maxChars), UnitsOf(last, maxChars));
      EveryFacts(last, maxChars);
      JoinSingle(last);
    }
  }

  lemma {:induction false} ChunkedJoin(units: seq<string>, maxChars: nat)
    ensures Join(Chunked(units, maxChars)) == Join(units)
  {
    GreedyIsDivision(units, TooLong(maxChars));
    TextsOfCount(Greedy(units, TooLong(maxChars)));
  }

  /** For every text and every limit of at least one rune: non-empty chunks within the limit that make up the
      text once white space is removed. A text that fits is a single chunk; a longer one is cut only at sentence
      ends and inside sentences that are too long by themselves, into as few chunks as possible. */
  method SplitSentenceChunks(text: string, maxChars: nat) returns (chunks: seq<string>)
    requires maxChars >= 1
    ensures forall k | 0 <= k < |chunks| :: 0 < |chunks[k]| <= maxChars
    ensures Squeeze(Join(chunks)) == Squeeze(NormalizeWhitespace(text)) == Squeeze(text)
    ensures var normalized := NormalizeWhitespace(text);
      if normalized == "" then chunks == []
      else if |normalized| <= maxChars then chunks == [normalized]
      else chunks == Chunked(Units(Trimmed(Pieces(normalized)), maxChars), maxChars)
  {
    var normalized := NormalizeWhitespace(text);
    NormalizeFacts(text);
    if normalized == "" { return []; }
    if |normalized| <= maxChars {
      JoinSingle(normalized);
      return [normalized];
    }
    var fragments := SplitFragments(normalized);
    chunks := GroupSentences(fragments, maxChars);
    UnitsJoin(fragments, maxChars);
    ChunkedJoin(Units(fragments, maxChars), maxChars);
  }
}
