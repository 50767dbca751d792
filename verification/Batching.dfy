/** Grouping text chunks into model requests under a budget (extraction/core.go). */
module Batching {
  import opened Ordering
  import opened Texts
  import opened GreedySplit

  datatype Chunk = Chunk(episode: string, title: string, chapter: string, subchapter: string, index: int, count: int,
                         text: string)
  datatype Batch = Batch(index: int, count: int, episodes: seq<string>, chunks: seq<Chunk>)
  datatype Budget = Budget(maxTextChars: int, maxTextTokens: int)

  function EpisodesOf(chunks: seq<Chunk>): seq<string> {
    seq(|chunks|, i requires 0 <= i < |chunks| => chunks[i].episode)
  }

  predicate Any(s: string) { true }

  /** The episodes of the chunks, each once, in order. */
  function UniqueEpisodes(chunks: seq<Chunk>): seq<string> { Distinct(EpisodesOf(chunks), Any) }

  predicate BudgetExceeded(chars: int, tokens: int, budget: Budget) {
    if budget.maxTextTokens > 0 then tokens > budget.maxTextTokens
    else if budget.maxTextChars > 0 then chars > budget.maxTextChars
    else false
  }

  function TokenCost(c: Chunk): nat { EstimateTokenCount(c.text) + 32 }

  function TextCost(c: Chunk): nat { |c.text| }

  function Sum(chunks: seq<Chunk>, cost: Chunk -> nat): nat {
    if chunks == [] then 0 else Sum(chunks[..|chunks| - 1], cost) + cost(chunks[|chunks| - 1])
  }

  function Chars(chunks: seq<Chunk>): nat { Sum(chunks, TextCost) }

  function Tokens(chunks: seq<Chunk>): nat { Sum(chunks, TokenCost) }

  predicate TooMuch(chunks: seq<Chunk>, budget: Budget) { BudgetExceeded(Chars(chunks), Tokens(chunks), budget) }

  lemma {:induction false} SumAdds(a: seq<Chunk>, b: seq<Chunk>, cost: Chunk -> nat)
    ensures Sum(a + b, cost) == Sum(a, cost) + Sum(b, cost)
  {
    if b == [] {
      assert a + b == a;
    } else {
      assert (a + b)[..|a + b| - 1] == a + b[..|b| - 1];
      SumAdds(a, b[..|b| - 1], cost);
    }
  }

  lemma BudgetGrowsWorse(budget: Budget)
    ensures GrowsWorse((chunks: seq<Chunk>) => TooMuch(chunks, budget))
  {
    forall a: seq<Chunk>, b: seq<Chunk> ensures TooMuch(a, budget) || TooMuch(b, budget) ==> TooMuch(a + b, budget) {
      SumAdds(a, b, TextCost);
      SumAdds(a, b, TokenCost);
    }
  }

  /** A budget of tokens if there is one, else of runes if there is one. */
  ghost predicate Within(group: seq<Chunk>, budget: Budget) {
    && (budget.maxTextTokens > 0 ==> Tokens(group) <= budget.maxTextTokens)
    && (budget.maxTextTokens <= 0 && budget.maxTextChars > 0 ==> Chars(group) <= budget.maxTextChars)
  }

  lemma WithinExactly(group: seq<Chunk>, budget: Budget)
    ensures Within(group, budget) <==> !TooMuch(group, budget)
  {
  }

  /** Costs add up; a chunk costs its runes, or 32 tokens more than its estimate. */
  lemma {:induction false} CostsAdd(group: seq<Chunk>, c: Chunk)
    ensures Chars([]) == 0 && Chars(group + [c]) == Chars(group) + |c.text|
    ensures Tokens([]) == 0 && Tokens(group + [c]) == Tokens(group) + EstimateTokenCount(c.text) + 32
  {
    assert (group + [c])[..|group|] == group;
  }

  function Batched(chunks: seq<Chunk>, budget: Budget): seq<seq<Chunk>> {
    Greedy(chunks, (group: seq<Chunk>) => TooMuch(group, budget))
  }

  /** The batches concatenate to the chunks, each is a single chunk or within the budget, and no order-preserving
      division with that property has fewer batches. */
  lemma BatchesAreOptimal(chunks: seq<Chunk>, budget: Budget)
    ensures Flatten(Batched(chunks, budget)) == chunks
    ensures forall i | 0 <= i < |Batched(chunks, budget)| ::
      Batched(chunks, budget)[i] != []
        && (|Batched(chunks, budget)[i]| == 1 || Within(Batched(chunks, budget)[i], budget))
    ensures forall parts | Flatten(parts) == chunks
      && (forall i | 0 <= i < |parts| :: parts[i] != [] && (|parts[i]| == 1 || Within(parts[i], budget))) ::
      |Batched(chunks, budget)| <= |parts|
  {
    var exceeds := (group: seq<Chunk>) => TooMuch(group, budget);
    BudgetGrowsWorse(budget);
    GreedyIsOptimal(chunks, exceeds);
    forall i | 0 <= i < |Batched(chunks, budget)| ensures Admissible(Batched(chunks, budget)[i], exceeds) {}
    forall parts | Flatten(parts) == chunks
      && (forall i | 0 <= i < |parts| :: parts[i] != [] && (|parts[i]| == 1 || Within(parts[i], budget)))
      ensures |Batched(chunks, budget)| <= |parts|
    {
      assert Division(parts, chunks, exceeds);
    }
  }

  /** One step of the loop, in terms of the groups formed so far. */
  lemma LoopStep(raw: seq<seq<Chunk>>, current: seq<Chunk>, chunks: seq<Chunk>, i: nat, budget: Budget)
    requires i < |chunks| && raw + (if current == [] then [] else [current]) == Batched(chunks[..i], budget)
      && (current == [] ==> raw == [])
    ensures Batched(chunks[..i + 1], budget)
         == if current == [] then [[chunks[i]]]
            else if TooMuch(current + [chunks[i]], budget) then raw + [current] + [[chunks[i]]]
            else raw + [current + [chunks[i]]]
    ensures Chars(current + [chunks[i]]) == Chars(current) + |chunks[i].text|
    ensures Tokens(current + [chunks[i]]) == Tokens(current) + TokenCost(chunks[i])
    ensures Chars([chunks[i]]) == |chunks[i].text| && Tokens([chunks[i]]) == TokenCost(chunks[i])
  {
    var c := chunks[i];
    assert chunks[..i + 1][..i] == chunks[..i];
    assert (current + [c])[..|current|] == current;
    assert [c][..0] == [];
    assert Sum([], TextCost) == 0 && Sum([], TokenCost) == 0;
    assert Sum([c], TextCost) == Sum([], TextCost) + TextCost(c);
    assert Sum([c], TokenCost) == Sum([], TokenCost) + TokenCost(c);
    if current != [] {
      var before := raw + [current];
      assert before[..|before| - 1] == raw;
    }
  }

  /** One iteration: the open batch is closed if it cannot take the chunk. */
  method AddChunk(raw: seq<seq<Chunk>>, current: seq<Chunk>, chars: nat, tokens: nat, chunks: seq<Chunk>, i: nat,
                  budget: Budget)
    returns (raw': seq<seq<Chunk>>, current': seq<Chunk>, chars': nat, tokens': nat)
    requires i < |chunks| && raw + (if current == [] then [] else [current]) == Batched(chunks[..i], budget)
    requires (current == [] ==> raw == []) && chars == Chars(current) && tokens == Tokens(current)
    ensures raw' + [current'] == Batched(chunks[..i + 1], budget) && current' != []
    ensures chars' == Chars(current') && tokens' == Tokens(current')
  {
    var c := chunks[i];
    LoopStep(raw, current, chunks, i, budget);
    raw', current', chars', tokens' := raw, current, chars, tokens;
    if current != [] && BudgetExceeded(chars + |c.text|, tokens + TokenCost(c), budget) {
      raw' := raw + [current];
      current', chars', tokens' := [], 0, 0;
    }
    assert [] + [c] == [c];
    current' := current' + [c];
    chars', tokens' := chars' + |c.text|, tokens' + TokenCost(c);
  }

  method CreateBatchesWithBudget(chunks: seq<Chunk>, budget: Budget) returns (batches: seq<Batch>)
    ensures |batches| == |Batched(chunks, budget)|
    ensures forall i | 0 <= i < |batches| ::
      batches[i] == Batch(i + 1, |batches|, UniqueEpisodes(Batched(chunks, budget)[i]), Batched(chunks, budget)[i])
  {
    var raw: seq<seq<Chunk>> := [];
    var current: seq<Chunk> := [];
    var chars, tokens := 0, 0;
    for i := 0 to |chunks|
      invariant raw + (if current == [] then [] else [current]) == Batched(chunks[..i], budget)
      invariant current == [] ==> raw == []
      invariant chars == Chars(current) && tokens == Tokens(current)
    {
      raw, current, chars, tokens := AddChunk(raw, current, chars, tokens, chunks, i, budget);
    }
    assert chunks[..|chunks|] == chunks;
    if current != [] { raw := raw + [current]; }
    batches := NumberBatches(raw);
  }

  method NumberBatches(raw: seq<seq<Chunk>>) returns (batches: seq<Batch>)
    ensures |batches| == |raw|
    ensures forall i | 0 <= i < |raw| :: batches[i] == Batch(i + 1, |raw|, UniqueEpisodes(raw[i]), raw[i])
  {
    batches := [];
    for i := 0 to |raw|
      invariant |batches| == i
      invariant forall j | 0 <= j < i :: batches[j] == Batch(j + 1, |raw|, UniqueEpisodes(raw[j]), raw[j])
    {
      var episodes := CollectDistinct(EpisodesOf(raw[i]), Any);
      batches := batches + [Batch(i + 1, |raw|, episodes, raw[i])];
    }
  }
}
