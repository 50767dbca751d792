/** Text cut into graphemes: offsets in code units and offsets in graphemes (readerSpeech.ts, readerPosition.ts).
    A string is a sequence of code units here. The segmenter is a parameter: the platform's, or the cut into code
    points that stands in for it. */
module Graphemes {

  type Segmenter = string -> seq<string>

  function Join(pieces: seq<string>): string {
    if pieces == [] then "" else Join(pieces[..|pieces| - 1]) + pieces[|pieces| - 1]
  }

  lemma {:induction false} JoinConcat(a: seq<string>, b: seq<string>)
    ensures Join(a + b) == Join(a) + Join(b)
  {
    if b == [] {
      assert a + b == a;
    } else {
      assert (a + b)[..|a + b| - 1] == a + b[..|b| - 1];
      JoinConcat(a, b[..|b| - 1]);
    }
  }

  lemma JoinExtends(pieces: seq<string>, from: nat, to: nat)
    requires from <= to <= |pieces|
    ensures Join(pieces[..to]) == Join(pieces[..from]) + Join(pieces[from..to])
  {
    JoinConcat(pieces[..from], pieces[from..to]);
    assert pieces[..from] + pieces[from..to] == pieces[..to];
  }

  ghost predicate NonEmpty(pieces: seq<string>) { forall i | 0 <= i < |pieces| :: pieces[i] != "" }

  /** Segmenting cuts a text into non-empty pieces. */
  ghost predicate Segments(cut: Segmenter) { forall text :: Join(cut(text)) == text && NonEmpty(cut(text)) }

  /** The cut into single code units: what the fallback makes of a text without surrogates. */
  function Singles(text: string): seq<string> {
    if text == "" then [] else Singles(text[..|text| - 1]) + [[text[|text| - 1]]]
  }

  lemma {:induction false} SinglesJoin(text: string)
    ensures Join(Singles(text)) == text && NonEmpty(Singles(text)) && |Singles(text)| == |text|
  {
    if text != "" {
      var before, last := text[..|text| - 1], text[|text| - 1];
      SinglesJoin(before);
      assert (Singles(before) + [[last]])[..|before|] == Singles(before);
      assert text == before + [last];
    }
  }

  lemma SinglesSegment()
    ensures Segments(Singles)
  {
    forall text ensures Join(Singles(text)) == text && NonEmpty(Singles(text)) { SinglesJoin(text); }
  }

  function CountGraphemes(cut: Segmenter, text: string): nat { |cut(text)| }

  /** The code-unit offset at which the k-th piece starts; the length of the text after the last one. */
  function PieceStart(pieces: seq<string>, k: nat): nat
    requires k <= |pieces|
  {
    if k == 0 then 0 else PieceStart(pieces, k - 1) + |pieces[k - 1]|
  }

  lemma {:induction false} PieceStartIsLength(pieces: seq<string>, k: nat)
    requires k <= |pieces|
    ensures PieceStart(pieces, k) == |Join(pieces[..k])|
  {
    if k > 0 {
      PieceStartIsLength(pieces, k - 1);
      assert pieces[..k][..k - 1] == pieces[..k - 1];
    }
  }

  /** The pieces of a text end where it ends, and a text without pieces is empty. */
  lemma SegmentsEnd(cut: Segmenter, text: string)
    requires Segments(cut)
    ensures PieceStart(cut(text), |cut(text)|) == |text| && NonEmpty(cut(text))
    ensures |cut(text)| == 0 <==> text == ""
  {
    var pieces := cut(text);
    assert Join(pieces) == text;
    PieceStartIsLength(pieces, |pieces|);
    assert pieces[..|pieces|] == pieces;
    if pieces != [] { PieceStartGrows(pieces, 0, |pieces|); }
  }

  lemma {:induction false} PieceStartGrows(pieces: seq<string>, i: nat, j: nat)
    requires NonEmpty(pieces) && i < j <= |pieces|
    ensures PieceStart(pieces, i) < PieceStart(pieces, j)
    decreases j
  {
    assert pieces[j - 1] != "";
    if i < j - 1 { PieceStartGrows(pieces, i, j - 1); }
  }

  /** How many of the first `n` pieces start before the offset. */
  function StartsBefore(pieces: seq<string>, n: nat, offset: int): (r: nat)
    requires n <= |pieces|
    ensures r <= n
  {
    if n == 0 then 0 else StartsBefore(pieces, n - 1, offset) + if PieceStart(pieces, n - 1) < offset then 1 else 0
  }

  /** Rounding up to a grapheme and cutting off at one are adjoint: an offset needs at most k graphemes exactly
      if it is at most the start of the k-th. */
  lemma {:induction false} StartsBeforeIsLeast(pieces: seq<string>, n: nat, offset: int, k: nat)
    requires NonEmpty(pieces) && k <= n <= |pieces|
    ensures k < n ==> (StartsBefore(pieces, n, offset) <= k <==> offset <= PieceStart(pieces, k))
    decreases n
  {
    if k < n {
      StartsBeforeIsLeast(pieces, n - 1, offset, k);
      if k < n - 1 {
        PieceStartGrows(pieces, k, n - 1);
        StartsBeforeIsLeast(pieces, n - 1, offset, k);
        if offset <= PieceStart(pieces, k) { assert PieceStart(pieces, n - 1) >= offset; }
      } else if offset > PieceStart(pieces, k) {
        AllStartBefore(pieces, n, offset);
      }
    }
  }

  lemma {:induction false} AllStartBefore(pieces: seq<string>, n: nat, offset: int)
    requires NonEmpty(pieces) && n <= |pieces| && (n > 0 ==> PieceStart(pieces, n - 1) < offset)
    ensures StartsBefore(pieces, n, offset) == n
  {
    if n > 1 { PieceStartGrows(pieces, n - 2, n - 1); }
    if n > 0 { AllStartBefore(pieces, n - 1, offset); }
  }

  /** The same for offsets within the text and any number of graphemes. */
  lemma {:induction false} GraphemeOffsetIsLeast(pieces: seq<string>, offset: int, k: nat)
    requires NonEmpty(pieces) && k <= |pieces| && offset <= PieceStart(pieces, |pieces|)
    ensures GraphemeOffset(pieces, offset) <= k <==> offset <= PieceStart(pieces, k)
  {
    StartsBeforeIsLeast(pieces, |pieces|, offset, k);
  }

  /** The grapheme offset of a code-unit offset, rounded up. */
  function GraphemeOffset(pieces: seq<string>, offset: int): (r: nat)
    ensures r <= |pieces|
  {
    StartsBefore(pieces, |pieces|, offset)
  }

  /** The code-unit offset of a grapheme offset, the end of the text if there are not as many. */
  function CodeUnitOffset(pieces: seq<string>, graphemes: int): nat {
    PieceStart(pieces, if graphemes <= 0 then 0 else if graphemes >= |pieces| then |pieces| else graphemes)
  }

  /** At the start of a grapheme the two are inverse. */
  lemma OffsetsInvert(pieces: seq<string>, k: nat)
    requires NonEmpty(pieces) && k <= |pieces|
    ensures GraphemeOffset(pieces, CodeUnitOffset(pieces, k)) == k
  {
    forall j | 0 <= j < |pieces| ensures PieceStart(pieces, j) < PieceStart(pieces, |pieces|) {
      PieceStartGrows(pieces, j, |pieces|);
    }
    var offset := PieceStart(pieces, k);
    GraphemeOffsetIsLeast(pieces, offset, k);
    if k > 0 {
      PieceStartGrows(pieces, k - 1, k);
      GraphemeOffsetIsLeast(pieces, offset, k - 1);
    }
  }

  method GetGraphemeOffsetFromCodeUnitOffset(cut: Segmenter, text: string, codeUnitOffset: int)
    returns (graphemeOffset: nat)
    requires Segments(cut)
    ensures graphemeOffset == GraphemeOffset(cut(text), codeUnitOffset)
  {
    var pieces := cut(text);
    SegmentsEnd(cut, text);
    if text == "" || codeUnitOffset <= 0 {
      NoneStartBefore(pieces, 0, |pieces|, codeUnitOffset);
      return 0;
    }
    graphemeOffset := 0;
    var index := 0;
    for i := 0 to |pieces|
      invariant index == PieceStart(pieces, i)
      invariant graphemeOffset == i == StartsBefore(pieces, i, codeUnitOffset)
    {
      if index >= codeUnitOffset {
        NoneStartBefore(pieces, i, |pieces|, codeUnitOffset);
        return graphemeOffset;
      }
      graphemeOffset := graphemeOffset + 1;
      index := index + |pieces[i]|;
    }
  }

  lemma {:induction false} NoneStartBefore(pieces: seq<string>, i: nat, n: nat, offset: int)
    requires i <= n <= |pieces| && (i < |pieces| ==> PieceStart(pieces, i) >= offset) && NonEmpty(pieces)
    ensures StartsBefore(pieces, n, offset) == StartsBefore(pieces, i, offset)
    decreases n
  {
    if i < n {
      NoneStartBefore(pieces, i, n - 1, offset);
      if i < n - 1 { PieceStartGrows(pieces, i, n - 1); }
    }
  }

  method GetCodeUnitOffsetFromGraphemeOffset(cut: Segmenter, text: string, graphemeOffset: int)
    returns (codeUnitOffset: nat)
    requires Segments(cut)
    ensures codeUnitOffset == CodeUnitOffset(cut(text), graphemeOffset)
  {
    var pieces := cut(text);
    SegmentsEnd(cut, text);
    if text == "" || graphemeOffset <= 0 { return 0; }
    var index := 0;
    for i := 0 to |pieces|
      invariant i <= graphemeOffset && index == PieceStart(pieces, i)
    {
      if i >= graphemeOffset { return index; }
      index := index + |pieces[i]|;
    }
    return |text|;
  }
}
