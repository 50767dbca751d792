/** Dividing a sequence into consecutive groups as late as possible, for any limit that more elements in front
    only make worse; no division into admissible groups is shorter. */
module GreedySplit {

  function Flatten<T>(parts: seq<seq<T>>): seq<T> {
    if parts == [] then [] else Flatten(parts[..|parts| - 1]) + parts[|parts| - 1]
  }

  lemma {:induction false} FlattenSnoc<T>(parts: seq<seq<T>>, last: seq<T>)
    ensures Flatten(parts + [last]) == Flatten(parts) + last
  {
    assert (parts + [last])[..|parts|] == parts;
  }

  lemma {:induction false} FlattenConcat<T>(a: seq<seq<T>>, b: seq<seq<T>>)
    ensures Flatten(a + b) == Flatten(a) + Flatten(b)
  {
    if b == [] {
      assert a + b == a;
    } else {
      assert (a + b)[..|a + b| - 1] == a + b[..|b| - 1];
      FlattenConcat(a, b[..|b| - 1]);
    }
  }

  /** A group is admissible if it is a single element or within the limit. */
  predicate Admissible<T>(group: seq<T>, exceeds: seq<T> -> bool) {
    group != [] && (|group| == 1 || !exceeds(group))
  }

  /** An order-preserving division into admissible groups. */
  ghost predicate Division<T>(parts: seq<seq<T>>, s: seq<T>, exceeds: seq<T> -> bool) {
    Flatten(parts) == s && forall i | 0 <= i < |parts| :: Admissible(parts[i], exceeds)
  }

  /** A new group is opened only when the open one, the last, cannot take the element. */
  function Place<T>(groups: seq<seq<T>>, x: T, exceeds: seq<T> -> bool): seq<seq<T>> {
    if groups == [] || exceeds(groups[|groups| - 1] + [x]) then groups + [[x]]
    else groups[..|groups| - 1] + [groups[|groups| - 1] + [x]]
  }

  function Greedy<T>(s: seq<T>, exceeds: seq<T> -> bool): seq<seq<T>> {
    if s == [] then [] else Place(Greedy(s[..|s| - 1], exceeds), s[|s| - 1], exceeds)
  }

  /** Elements in front only make it worse. */
  ghost predicate Monotone<T(!new)>(exceeds: seq<T> -> bool) {
    forall a, b :: exceeds(b) ==> exceeds(a + b)
  }

  lemma DivisionSnoc<T>(init: seq<seq<T>>, s: seq<T>, last: seq<T>, exceeds: seq<T> -> bool)
    requires Division(init, s, exceeds) && Admissible(last, exceeds)
    ensures Division(init + [last], s + last, exceeds)
  {
    FlattenSnoc(init, last);
  }

  lemma DivisionInit<T>(init: seq<seq<T>>, s: seq<T>, last: seq<T>, exceeds: seq<T> -> bool)
    requires Division(init + [last], s, exceeds)
    ensures Admissible(last, exceeds) && |last| <= |s|
    ensures last == s[|s| - |last|..] && Division(init, s[..|s| - |last|], exceeds)
  {
    var parts := init + [last];
    FlattenSnoc(init, last);
    assert parts[|init|] == last;
    forall i | 0 <= i < |init| ensures Admissible(init[i], exceeds) { assert init[i] == parts[i]; }
  }

  lemma PlaceKeepsDivision<T>(groups: seq<seq<T>>, s: seq<T>, x: T, exceeds: seq<T> -> bool)
    requires Division(groups, s, exceeds)
    ensures Division(Place(groups, x, exceeds), s + [x], exceeds)
  {
    if groups == [] || exceeds(groups[|groups| - 1] + [x]) {
      DivisionSnoc(groups, s, [x], exceeds);
    } else {
      var init, open := groups[..|groups| - 1], groups[|groups| - 1];
      assert groups == init + [open];
      DivisionInit(init, s, open, exceeds);
      DivisionSnoc(init, s[..|s| - |open|], open + [x], exceeds);
      assert s[..|s| - |open|] + (open + [x]) == s + [x];
    }
  }

  lemma {:induction false} GreedyIsDivision<T>(s: seq<T>, exceeds: seq<T> -> bool)
    ensures Division(Greedy(s, exceeds), s, exceeds)
  {
    if s != [] {
      GreedyIsDivision(s[..|s| - 1], exceeds);
      PlaceKeepsDivision(Greedy(s[..|s| - 1], exceeds), s[..|s| - 1], s[|s| - 1], exceeds);
      assert s == s[..|s| - 1] + [s[|s| - 1]];
    }
  }

  /** The last element taken off a division. */
  lemma DropLast<T>(init: seq<seq<T>>, last: seq<T>, s: seq<T>, exceeds: seq<T> -> bool)
    requires Division(init + [last], s, exceeds) && Shrinks(exceeds, last)
    ensures s != [] && |last| <= |s| && last == s[|s| - |last|..] && Admissible(last, exceeds)
    ensures |last| == 1 ==> Division(init, s[..|s| - 1], exceeds)
    ensures |last| > 1 ==> Division(init + [last[..|last| - 1]], s[..|s| - 1], exceeds)
  {
    DivisionInit(init, s, last, exceeds);
    if |last| > 1 {
      DivisionSnoc(init, s[..|s| - |last|], last[..|last| - 1], exceeds);
      assert s[..|s| - |last|] + last[..|last| - 1] == s[..|s| - 1];
    }
  }

  /** Leaving out the last element keeps a group within the limit. */
  ghost predicate Shrinks<T>(exceeds: seq<T> -> bool, group: seq<T>) {
    |group| >= 2 && !exceeds(group) ==> |group| == 2 || !exceeds(group[..|group| - 1])
  }

  /** Neither adding in front nor adding behind brings a sequence back within the limit. */
  ghost predicate GrowsWorse<T(!new)>(exceeds: seq<T> -> bool) {
    Monotone(exceeds) && forall a, b :: exceeds(a) ==> exceeds(a + b)
  }

  /** The step of the next lemma in which both last groups take the element. */
  lemma OpenTakesToo<T(!new)>(prefix: seq<T>, x: T, open: seq<T>, last: seq<T>, exceeds: seq<T> -> bool)
    requires Monotone(exceeds) && |open| < |last| <= |prefix| + 1 && |last| > 1 && !exceeds(last)
    requires open == prefix[|prefix| - |open|..] && last == (prefix + [x])[|prefix| + 1 - |last|..]
    ensures !exceeds(open + [x])
  {
    var front := last[..|last| - |open| - 1];
    assert last == front + (open + [x]);
  }

  /** No more groups, and with as many groups no longer last one. */
  ghost predicate Ahead<T>(groups: seq<seq<T>>, parts: seq<seq<T>>) {
    |groups| <= |parts| && (groups != [] && |groups| == |parts| ==> |groups[|groups| - 1]| <= |parts[|parts| - 1]|)
  }

  /** Placing an element keeps the greedy groups ahead of a division that ends with the same element. */
  lemma PlaceStaysAhead<T(!new)>(before: seq<seq<T>>, prefix: seq<T>, x: T, init: seq<seq<T>>, last: seq<T>,
                          exceeds: seq<T> -> bool)
    requires Monotone(exceeds) && Division(before, prefix, exceeds)
    requires Admissible(last, exceeds) && |last| <= |prefix| + 1 && last == (prefix + [x])[|prefix| + 1 - |last|..]
    requires Ahead(before, if |last| == 1 then init else init + [last[..|last| - 1]])
    ensures Ahead(Place(before, x, exceeds), init + [last])
  {
    if |last| > 1 && before != [] && |before| == |init| + 1 {
      var open := before[|before| - 1];
      assert before == before[..|before| - 1] + [open];
      DivisionInit(before[..|before| - 1], prefix, open, exceeds);
      OpenTakesToo(prefix, x, open, last, exceeds);
    }
  }

  lemma {:induction false} GreedyStaysAhead<T(!new)>(s: seq<T>, exceeds: seq<T> -> bool, parts: seq<seq<T>>)
    requires GrowsWorse(exceeds) && Division(parts, s, exceeds)
    ensures Ahead(Greedy(s, exceeds), parts)
  {
    if s != [] {
      assert parts != [];
      var init, last := parts[..|parts| - 1], parts[|parts| - 1];
      var prefix, x := s[..|s| - 1], s[|s| - 1];
      assert parts == init + [last] && s == prefix + [x];
      assert Shrinks(exceeds, last) by {
        if |last| >= 2 { assert last == last[..|last| - 1] + [last[|last| - 1]]; }
      }
      DropLast(init, last, s, exceeds);
      GreedyIsDivision(prefix, exceeds);
      GreedyStaysAhead(prefix, exceeds, if |last| == 1 then init else init + [last[..|last| - 1]]);
      PlaceStaysAhead(Greedy(prefix, exceeds), prefix, x, init, last, exceeds);
    }
  }

  /** No order-preserving division into admissible groups has fewer groups than the greedy one. */
  lemma {:induction false} GreedyIsOptimal<T(!new)>(s: seq<T>, exceeds: seq<T> -> bool)
    requires GrowsWorse(exceeds)
    ensures Division(Greedy(s, exceeds), s, exceeds)
    ensures forall parts | Division(parts, s, exceeds) :: |Greedy(s, exceeds)| <= |parts|
  {
    GreedyIsDivision(s, exceeds);
    forall parts | Division(parts, s, exceeds) ensures |Greedy(s, exceeds)| <= |parts| {
      GreedyStaysAhead(s, exceeds, parts);
    }
  }
}
