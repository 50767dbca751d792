/** The view of the characters at an episode boundary: latest values, aliases and histories
    (characters/profile_projection.go, profile_materializer.go, profile_store.go). */
module Projection {
  import opened Ordering
  import opened IdentityEvents
  import opened CharacterRecords
  import opened Quotient
  import opened RecordMerge

  predicate Within(episode: Episode, b: int) { episode != NO_EPISODE && episode <= b }

  predicate Shown(v: TextVersion, b: int) { v.text != "" && Within(v.episode, b) }

  /** The first of the latest versions within the boundary. */
  function LatestWithin(values: seq<TextVersion>, b: int): Option<TextVersion> {
    if values == [] then None
    else
      var best, last := LatestWithin(values[..|values| - 1], b), values[|values| - 1];
      if Shown(last, b) && (best.None? || best.value.episode < last.episode) then Some(last) else best
  }

  function TextOf(v: Option<TextVersion>): Option<string> {
    if v.Some? then Some(v.value.text) else None
  }

  /** The texts within the boundary, each once, in list order. */
  function AliasesWithin(values: seq<TextVersion>, b: int): seq<string> {
    if values == [] then []
    else
      var texts, last := AliasesWithin(values[..|values| - 1], b), values[|values| - 1];
      if Shown(last, b) && last.text !in texts then texts + [last.text] else texts
  }

  datatype FactClass = Appearance | Personality | Summary

  function ClassOf(f: Fact): FactClass {
    if f.kind == "appearance" then Appearance else if f.kind == "personality" then Personality else Summary
  }

  /** The facts of one class as dated texts, in record order. */
  function HistoryOf(facts: seq<Fact>, class_: FactClass): seq<TextVersion> {
    if facts == [] then []
    else
      var h, last := HistoryOf(facts[..|facts| - 1], class_), facts[|facts| - 1];
      if ClassOf(last) == class_ then h + [TextVersion(last.text, last.episode)] else h
  }

  datatype View = View(firstAppearance: Episode, fullName: Option<string>, gender: Option<string>,
                       aliases: seq<string>, appearance: Option<string>, personality: Option<string>,
                       summary: Option<string>)

  /** A stored value with its history: the history is normalised and its latest entry stored beside it. */
  function ValueAt(history: seq<TextVersion>, b: int): Option<string> {
    var h := NormalizeTexts(history);
    TextOf(LatestWithin(h + Single(Latest(h)), b))
  }

  function HistoryAt(facts: seq<Fact>, class_: FactClass, b: int): Option<string> {
    TextOf(LatestWithin(NormalizeTexts(HistoryOf(facts, class_)), b))
  }

  /** Materialising a record as a profile and projecting the profile at b. */
  function Project(r: Record, b: int): View {
    View(r.firstAppearance, ValueAt(FullNamesOf(r), b), ValueAt(GendersOf(r), b),
         AliasesWithin(NormalizeTexts(r.aliases), b), HistoryAt(r.facts, Appearance, b),
         HistoryAt(r.facts, Personality, b), HistoryAt(r.facts, Summary, b))
  }

  /** What materialising keeps: records with an id and a name. */
  predicate Named(r: Record) { r.id != "" && r.canonicalName.text != "" }

  predicate Visible(r: Record, b: int) { Named(r) && Within(r.firstAppearance, b) }

  // ----- only what lies within the boundary matters -----

  function CutTexts(values: seq<TextVersion>, b: int): seq<TextVersion> {
    if values == [] then []
    else
      var prev, last := CutTexts(values[..|values| - 1], b), values[|values| - 1];
      if Within(last.episode, b) then prev + [last] else prev
  }

  lemma {:induction false} CutTextsMembers(values: seq<TextVersion>, b: int)
    ensures forall v :: v in CutTexts(values, b) <==> v in values && Within(v.episode, b)
  {
    if values != [] {
      var p, last := values[..|values| - 1], values[|values| - 1];
      CutTextsMembers(p, b);
      assert forall v :: v in values <==> v in p || v == last by { assert values == p + [last]; }
    }
  }

  lemma {:induction false} CutTextsSorted(values: seq<TextVersion>, b: int)
    requires StrictlySorted(values, TextLess)
    ensures StrictlySorted(CutTexts(values, b), TextLess)
  {
    if values != [] {
      var p, last := values[..|values| - 1], values[|values| - 1];
      CutTextsSorted(p, b);
      CutTextsMembers(p, b);
      var c := CutTexts(p, b);
      forall i | 0 <= i < |c| ensures TextLess(c[i], last) {
        assert c[i] in p;
        var k :| 0 <= k < |p| && p[k] == c[i];
        assert values[k] == p[k];
      }
    }
  }

  lemma {:induction false} LatestIgnoresLater(values: seq<TextVersion>, b: int)
    ensures LatestWithin(CutTexts(values, b), b) == LatestWithin(values, b)
    ensures AliasesWithin(CutTexts(values, b), b) == AliasesWithin(values, b)
  {
    if values != [] {
      var prev, last := CutTexts(values[..|values| - 1], b), values[|values| - 1];
      LatestIgnoresLater(values[..|values| - 1], b);
      assert (prev + [last])[..|prev|] == prev;
    }
  }

  /** Dated texts up to b. */
  ghost function Early(values: set<TextVersion>, b: int): set<TextVersion> { set v | v in values && v.episode <= b }

  ghost function EarlyFacts(values: set<Fact>, b: int): set<Fact> { set f | f in values && f.episode <= b }

  /** Lists with the same kept versions up to b look the same up to b once normalised. */
  lemma {:induction false} CutNormalizedSame(x: seq<TextVersion>, y: seq<TextVersion>, b: int)
    requires Early(Kept(x), b) == Early(Kept(y), b)
    ensures CutTexts(NormalizeTexts(x), b) == CutTexts(NormalizeTexts(y), b)
  {
    var s, t := CutTexts(NormalizeTexts(x), b), CutTexts(NormalizeTexts(y), b);
    NormalizeTextsKeeps(x);
    NormalizeTextsKeeps(y);
    CutTextsMembers(NormalizeTexts(x), b);
    CutTextsMembers(NormalizeTexts(y), b);
    CutTextsSorted(NormalizeTexts(x), b);
    CutTextsSorted(NormalizeTexts(y), b);
    forall v ensures v in s <==> v in t {
      assert v in NormalizeTexts(x) <==> v in Elems(NormalizeTexts(x));
      assert v in NormalizeTexts(y) <==> v in Elems(NormalizeTexts(y));
      assert v in s <==> v in Early(Kept(x), b);
      assert v in t <==> v in Early(Kept(y), b);
    }
    TextOrder(Elems(s));
    SortedListingIsUnique(s, t, TextLess);
  }

  /** The value shown at b is the latest one known by b: none is later, and nothing from after b is shown. */
  lemma {:induction false} LatestWithinIsLatest(values: seq<TextVersion>, b: int)
    ensures LatestWithin(values, b).None? <==> forall v | v in values :: !Shown(v, b)
    ensures LatestWithin(values, b).Some? ==>
      var l := LatestWithin(values, b).value;
      l in values && Shown(l, b) && forall v | v in values && Shown(v, b) :: v.episode <= l.episode
  {
    if values != [] {
      var p, last := values[..|values| - 1], values[|values| - 1];
      LatestWithinIsLatest(p, b);
      assert forall v :: v in values <==> v in p || v == last by { assert values == p + [last]; }
    }
  }

  /** Of a normalised list the latest version by b is shown, and of several in one episode the smallest text. */
  lemma {:induction false} LatestWithinIsSmallest(values: seq<TextVersion>, b: int, v: TextVersion)
    requires StrictlySorted(values, TextLess) && v in values && Shown(v, b) && LatestWithin(values, b).Some?
    requires v.episode == LatestWithin(values, b).value.episode && v != LatestWithin(values, b).value
    ensures StringLess(LatestWithin(values, b).value.text, v.text)
  {
    var before, last := values[..|values| - 1], values[|values| - 1];
    assert values == before + [last];
    LatestWithinIsLatest(before, b);
    LatestWithinIsLatest(values, b);
    if v == last {
      LastAfter(values, LatestWithin(before, b).value);
    } else {
      LatestWithinIsSmallest(before, b, v);
    }
  }

  /** What is shown of dated texts at b: the text of the latest episode up to b, the smallest if there are several, and
      nothing only if there is no text up to b. */
  ghost predicate ShowsLatest(shown: Option<string>, known: set<TextVersion>, b: int) {
    match shown
    case None => forall v | v in known :: v.episode > b
    case Some(text) =>
      exists l | l in known :: l.text == text && l.episode <= b
        && forall v | v in known && v.episode <= b ::
          v.episode < l.episode || (v.episode == l.episode && (v == l || StringLess(text, v.text)))
  }

  lemma LatestShown(values: seq<TextVersion>, b: int)
    ensures ShowsLatest(TextOf(LatestWithin(NormalizeTexts(values), b)), Kept(values), b)
  {
    var n := NormalizeTexts(values);
    NormalizeTextsKeeps(values);
    LatestWithinIsLatest(n, b);
    assert forall v :: v in n <==> v in Elems(n);
    if LatestWithin(n, b).Some? {
      var l := LatestWithin(n, b).value;
      forall v | v in Kept(values) && v.episode <= b
        ensures v.episode < l.episode || (v.episode == l.episode && (v == l || StringLess(l.text, v.text)))
      {
        assert Shown(v, b);
        if v.episode == l.episode && v != l { LatestWithinIsSmallest(n, b, v); }
      }
      assert l in Kept(values);
    } else {
      forall v | v in Kept(values) ensures v.episode > b { assert !Shown(v, b); }
    }
  }

  /** The distinct texts up to b, in the order in which they first come up. */
  ghost predicate ShowsAll(shown: seq<string>, known: set<TextVersion>, b: int) {
    && NoDup(shown)
    && (forall text :: text in shown <==> exists v | v in known :: v.text == text && v.episode <= b)
    && (forall i, j | 0 <= i < j < |shown| :: Sooner(shown[i], shown[j], known, b))
  }

  /** One text comes up in an episode before the other, or in the same one and is smaller. */
  ghost predicate Sooner(text: string, other: string, known: set<TextVersion>, b: int) {
    exists v | v in known :: v.text == text && v.episode <= b
      && forall w | w in known && w.text == other && w.episode <= b ::
        v.episode < w.episode || (v.episode == w.episode && StringLess(text, other))
  }

  lemma {:induction false} AliasesMembers(values: seq<TextVersion>, b: int)
    ensures NoDup(AliasesWithin(values, b))
    ensures forall text :: text in AliasesWithin(values, b) <==> exists v | v in values :: v.text == text && Shown(v, b)
  {
    if values != [] {
      var before, last := values[..|values| - 1], values[|values| - 1];
      AliasesMembers(before, b);
      assert values == before + [last];
      assert forall v :: v in values <==> v in before || v == last;
    }
  }

  lemma {:induction false} AliasesInOrder(values: seq<TextVersion>, b: int, i: nat, j: nat) returns (v: TextVersion)
    requires StrictlySorted(values, TextLess) && i < j < |AliasesWithin(values, b)|
    ensures v in values && Shown(v, b) && v.text == AliasesWithin(values, b)[i]
    ensures forall w | w in values && Shown(w, b) && w.text == AliasesWithin(values, b)[j] :: TextLess(v, w)
  {
    var before, last := values[..|values| - 1], values[|values| - 1];
    var texts := AliasesWithin(before, b);
    assert values == before + [last];
    AliasesMembers(before, b);
    if j < |texts| {
      v := AliasesInOrder(before, b, i, j);
    } else {
      assert texts[i] in texts;
      v :| v in before && v.text == texts[i] && Shown(v, b);
    }
    LastAfter(values, v);
    assert forall w :: w in values <==> w in before || w == last;
  }

  lemma AliasesShown(values: seq<TextVersion>, b: int)
    ensures ShowsAll(AliasesWithin(NormalizeTexts(values), b), Kept(values), b)
  {
    var n := NormalizeTexts(values);
    var shown := AliasesWithin(n, b);
    NormalizeTextsKeeps(values);
    AliasesMembers(n, b);
    assert forall v :: v in n <==> v in Elems(n);
    forall text ensures text in shown <==> exists v | v in Kept(values) :: v.text == text && v.episode <= b {
      if v :| v in Kept(values) && v.text == text && v.episode <= b { assert Shown(v, b); }
    }
    forall i, j | 0 <= i < j < |shown| ensures Sooner(shown[i], shown[j], Kept(values), b) {
      var v := AliasesInOrder(n, b, i, j);
      forall w | w in Kept(values) && w.text == shown[j] && w.episode <= b ensures TextLess(v, w) {
        assert Shown(w, b);
      }
    }
  }

  /** The separately stored latest value never changes what the history shows. */
  lemma {:induction false} FallbackIsRedundant(h: seq<TextVersion>, b: int)
    ensures LatestWithin(h + Single(Latest(h)), b) == LatestWithin(h, b)
  {
    LatestIsAKeptMember(h);
    LatestWithinIsLatest(h, b);
    if Latest(h).Some? {
      assert (h + [Latest(h).value])[..|h|] == h;
    } else {
      assert h + [] == h;
    }
  }

  lemma {:induction false} ValueAtDependsOnPast(x: seq<TextVersion>, y: seq<TextVersion>, b: int)
    requires Early(Kept(x), b) == Early(Kept(y), b)
    ensures ValueAt(x, b) == ValueAt(y, b)
    ensures AliasesWithin(NormalizeTexts(x), b) == AliasesWithin(NormalizeTexts(y), b)
    ensures LatestWithin(NormalizeTexts(x), b) == LatestWithin(NormalizeTexts(y), b)
  {
    FallbackIsRedundant(NormalizeTexts(x), b);
    FallbackIsRedundant(NormalizeTexts(y), b);
    CutNormalizedSame(x, y, b);
    LatestIgnoresLater(NormalizeTexts(x), b);
    LatestIgnoresLater(NormalizeTexts(y), b);
  }

  lemma {:induction false} HistoryMembers(facts: seq<Fact>, class_: FactClass)
    ensures forall v :: v in HistoryOf(facts, class_) <==> exists f | f in facts ::
      ClassOf(f) == class_ && v == TextVersion(f.text, f.episode)
  {
    if facts != [] {
      var p, last := facts[..|facts| - 1], facts[|facts| - 1];
      HistoryMembers(p, class_);
      assert forall f :: f in facts <==> f in p || f == last by { assert facts == p + [last]; }
    }
  }

  lemma {:induction false} HistoryFromKeptFacts(facts: seq<Fact>, class_: FactClass, v: TextVersion)
    ensures v in Kept(HistoryOf(facts, class_))
      <==> exists f | f in KeptFacts(facts) :: ClassOf(f) == class_ && v == TextVersion(f.text, f.episode)
  {
    HistoryMembers(facts, class_);
    if v in Kept(HistoryOf(facts, class_)) {
      var f :| f in facts && ClassOf(f) == class_ && v == TextVersion(f.text, f.episode);
      assert KeepFact(f);
      assert WithKind(f) in KeptFacts(facts) && ClassOf(WithKind(f)) == class_;
    }
    if exists f | f in KeptFacts(facts) :: ClassOf(f) == class_ && v == TextVersion(f.text, f.episode) {
      var f :| f in KeptFacts(facts) && ClassOf(f) == class_ && v == TextVersion(f.text, f.episode);
      var g :| g in facts && KeepFact(g) && WithKind(g) == f;
      assert ClassOf(g) == class_ && v == TextVersion(g.text, g.episode);
    }
  }

  lemma HistoryAtDependsOnPast(x: seq<Fact>, y: seq<Fact>, class_: FactClass, b: int)
    requires EarlyFacts(KeptFacts(x), b) == EarlyFacts(KeptFacts(y), b)
    ensures HistoryAt(x, class_, b) == HistoryAt(y, class_, b)
  {
    var h, k := HistoryOf(x, class_), HistoryOf(y, class_);
    forall v: TextVersion | v.episode <= b ensures v in Kept(h) <==> v in Kept(k) {
      HistoryFromKeptFacts(x, class_, v);
      HistoryFromKeptFacts(y, class_, v);
      if v in Kept(h) {
        var f :| f in KeptFacts(x) && ClassOf(f) == class_ && v == TextVersion(f.text, f.episode);
        assert f in EarlyFacts(KeptFacts(y), b);
      }
      if v in Kept(k) {
        var f :| f in KeptFacts(y) && ClassOf(f) == class_ && v == TextVersion(f.text, f.episode);
        assert f in EarlyFacts(KeptFacts(x), b);
      }
    }
    assert Early(Kept(h), b) == Early(Kept(k), b);
    ValueAtDependsOnPast(h, k, b);
  }

  /** Two states of a record that agree on everything up to episode b. */
  ghost predicate SamePast(r: Record, q: Record, b: int) {
    && Named(r) == Named(q)
    && r.firstAppearance == q.firstAppearance
    && Early(AliasesHeld(r), b) == Early(AliasesHeld(q), b)
    && Early(FullNamesHeld(r), b) == Early(FullNamesHeld(q), b)
    && Early(GendersHeld(r), b) == Early(GendersHeld(q), b)
    && EarlyFacts(FactsHeld(r), b) == EarlyFacts(FactsHeld(q), b)
  }

  lemma SamePastSameView(r: Record, q: Record, b: int)
    requires SamePast(r, q, b)
    ensures Visible(r, b) == Visible(q, b)
    ensures Project(r, b) == Project(q, b)
  {
    ValueAtDependsOnPast(FullNamesOf(r), FullNamesOf(q), b);
    ValueAtDependsOnPast(GendersOf(r), GendersOf(q), b);
    ValueAtDependsOnPast(r.aliases, q.aliases, b);
    HistoryAtDependsOnPast(r.facts, q.facts, Appearance, b);
    HistoryAtDependsOnPast(r.facts, q.facts, Personality, b);
    HistoryAtDependsOnPast(r.facts, q.facts, Summary, b);
  }

  lemma AbsorbKeepsSamePast(t: Record, u: Record, s: Record, v: Record, b: int)
    requires SamePast(t, u, b) && SamePast(s, v, b)
    ensures SamePast(Absorb(t, s), Absorb(u, v), b)
  {
    AbsorbHolds(t, s);
    AbsorbHolds(u, v);
    EarlyJoins(AliasesHeld(t), AliasesHeld(s), b);
    EarlyJoins(AliasesHeld(u), AliasesHeld(v), b);
    EarlyJoins(FullNamesHeld(t), FullNamesHeld(s), b);
    EarlyJoins(FullNamesHeld(u), FullNamesHeld(v), b);
    EarlyJoins(GendersHeld(t), GendersHeld(s), b);
    EarlyJoins(GendersHeld(u), GendersHeld(v), b);
    EarlyFactsJoin(FactsHeld(t), FactsHeld(s), b);
    EarlyFactsJoin(FactsHeld(u), FactsHeld(v), b);
  }

  lemma EarlyJoins(x: set<TextVersion>, y: set<TextVersion>, b: int)
    ensures Early(x + y, b) == Early(x, b) + Early(y, b)
  {
  }

  lemma EarlyFactsJoin(x: set<Fact>, y: set<Fact>, b: int)
    ensures EarlyFacts(x + y, b) == EarlyFacts(x, b) + EarlyFacts(y, b)
  {
  }

  /** The visible characters of a table at b. */
  function ViewsOf(table: Table, b: int): map<string, View> {
    ShownBy(table, r => Visible(r, b), r => Project(r, b))
  }

  /** The characters shown at b when the merge map is walked in this order. */
  ghost function ViewsAlong(table: Table, m: map<string, string>, b: int, order: seq<string>): map<string, View>
    requires Acyclic(m)
  {
    ViewsOf(MergeInOrder(table, m, Absorb, order), b)
  }

  /** `later` is a later state of `now`: records keep their past up to b; the new ones appear after b and are
      not merged with anything by b. */
  ghost predicate LaterState(now: Table, later: Table, m: map<string, string>, b: int)
    requires Acyclic(m)
  {
    && Simulates(now, later, m, (r: Record, q: Record) => SamePast(r, q, b))
    && forall x | x in later && x !in now :: !Visible(later[x], b)
  }

  /** No spoilers along one walk: the characters shown at boundary b, merged by the identities effective by b, do
      not depend on anything from later episodes, neither records nor identity events. */
  lemma {:induction false} WalkDependsOnlyOnPast(now: Table, later: Table, events: seq<IdentityEvent>,
                                                 moreEvents: seq<IdentityEvent>, b: int, order: seq<string>)
    requires Elems(UpTo(events, b)) == Elems(UpTo(moreEvents, b))
    requires Acyclic(MergedIntoAt(events, b)) && LaterState(now, later, MergedIntoAt(events, b), b)
    requires Listing(order, MergedIntoAt(events, b).Keys)
    ensures MergedIntoAt(moreEvents, b) == MergedIntoAt(events, b)
    ensures ViewsAlong(now, MergedIntoAt(events, b), b, order) == ViewsAlong(later, MergedIntoAt(events, b), b, order)
  {
    NormalizedCommutesWithCut(events, b);
    NormalizedCommutesWithCut(moreEvents, b);
    NormalizedDependsOnSet(UpTo(events, b), UpTo(moreEvents, b));
    var m := MergedIntoAt(events, b);
    var same := (r: Record, q: Record) => SamePast(r, q, b);
    forall t, u, s, v | same(t, u) && same(s, v) ensures same(Absorb(t, s), Absorb(u, v)) {
      AbsorbKeepsSamePast(t, u, s, v, b);
    }
    WalksStayRelated(now, later, m, Absorb, same, order);
    SameViews(MergeInOrder(now, m, Absorb, order), MergeInOrder(later, m, Absorb, order), b);
  }

  lemma SameViews(x: Table, y: Table, b: int)
    requires x.Keys <= y.Keys && forall r | r in x :: SamePast(x[r], y[r], b)
    requires forall r | r in y && r !in x :: !Visible(y[r], b)
    ensures ViewsOf(x, b) == ViewsOf(y, b)
  {
    var visible, project := (r: Record) => Visible(r, b), (r: Record) => Project(r, b);
    forall r | r in x ensures visible(x[r]) == visible(y[r]) && project(x[r]) == project(y[r]) {
      SamePastSameView(x[r], y[r], b);
    }
    SameShown(x, y, visible, project);
  }

  function CutFacts(facts: seq<Fact>, b: int): seq<Fact> {
    if facts == [] then []
    else
      var prev, last := CutFacts(facts[..|facts| - 1], b), facts[|facts| - 1];
      if Within(last.episode, b) then prev + [last] else prev
  }

  lemma {:induction false} CutFactsMembers(facts: seq<Fact>, b: int)
    ensures forall f :: f in CutFacts(facts, b) <==> f in facts && Within(f.episode, b)
  {
    if facts != [] {
      var p, last := facts[..|facts| - 1], facts[|facts| - 1];
      CutFactsMembers(p, b);
      assert forall f :: f in facts <==> f in p || f == last by { assert facts == p + [last]; }
    }
  }

  /** The record as truncation up to episode b leaves its dated lists. */
  function CutRecord(r: Record, b: int): Record {
    var fullNames := NormalizeTexts(CutTexts(FullNamesOf(r), b));
    var genders := NormalizeTexts(CutTexts(GendersOf(r), b));
    r.(aliases := NormalizeTexts(CutTexts(r.aliases, b)),
       fullNameHistory := fullNames, fullName := Latest(fullNames),
       genderHistory := genders, gender := Latest(genders),
       facts := NormalizeFacts(CutFacts(r.facts, b)))
  }

  lemma {:induction false} EarlyKeptOfCut(values: seq<TextVersion>, b: int)
    ensures Kept(CutTexts(values, b)) == Early(Kept(values), b)
  {
    CutTextsMembers(values, b);
  }

  lemma {:induction false} EarlyFactsOfCut(facts: seq<Fact>, b: int)
    ensures KeptFacts(CutFacts(facts, b)) == EarlyFacts(KeptFacts(facts), b)
  {
    CutFactsMembers(facts, b);
    forall f | f in EarlyFacts(KeptFacts(facts), b) ensures f in KeptFacts(CutFacts(facts, b)) {
      var g :| g in facts && KeepFact(g) && WithKind(g) == f;
      assert g in CutFacts(facts, b);
    }
  }

  lemma {:induction false} CutTextsSamePast(values: seq<TextVersion>, b: int)
    ensures Early(Kept(NormalizeTexts(CutTexts(values, b))), b) == Early(Kept(values), b)
    ensures Early(Kept(NormalizeTexts(CutTexts(values, b)) + Single(Latest(NormalizeTexts(CutTexts(values, b))))), b)
      == Early(Kept(values), b)
  {
    NormalizeTextsKeeps(CutTexts(values, b));
    HistoryWithLatest(CutTexts(values, b));
    EarlyKeptOfCut(values, b);
  }

  lemma {:induction false} CutFactsSamePast(facts: seq<Fact>, b: int)
    ensures EarlyFacts(KeptFacts(NormalizeFacts(CutFacts(facts, b))), b) == EarlyFacts(KeptFacts(facts), b)
  {
    NormalizeFactsKeeps(CutFacts(facts, b));
    EarlyFactsOfCut(facts, b);
  }

  lemma CutRecordSamePast(r: Record, b: int)
    ensures SamePast(CutRecord(r, b), r, b)
  {
    CutTextsSamePast(r.aliases, b);
    CutTextsSamePast(FullNamesOf(r), b);
    CutTextsSamePast(GendersOf(r), b);
    CutFactsSamePast(r.facts, b);
  }

  function CutTable(table: Table, b: int): Table {
    map r | r in table :: CutRecord(table[r], b)
  }

  lemma CutTableIsEarlierState(table: Table, m: map<string, string>, b: int)
    requires Acyclic(m)
    ensures LaterState(CutTable(table, b), table, m, b)
  {
    forall x | x in table ensures SamePast(CutTable(table, b)[x], table[x], b) {
      CutRecordSamePast(table[x], b);
    }
  }

  // ----- the code -----

  method LatestTextValue(history: seq<TextVersion>, fallback: Option<TextVersion>, b: int)
    returns (result: Option<string>)
    ensures result == TextOf(LatestWithin(history + Single(fallback), b))
  {
    var versions := history + Single(fallback);
    var latest: Option<TextVersion> := None;
    for i := 0 to |versions|
      invariant latest == LatestWithin(versions[..i], b)
    {
      assert versions[..i + 1][..i] == versions[..i];
      var v := versions[i];
      if v.text == "" || !Within(v.episode, b) { continue; }
      if latest.None? || v.episode > latest.value.episode { latest := Some(v); }
    }
    assert versions[..|versions|] == versions;
    result := TextOf(latest);
  }

  method AliasTexts(values: seq<TextVersion>, b: int) returns (result: seq<string>)
    ensures result == AliasesWithin(values, b)
  {
    result := [];
    var seen: set<string> := {};
    for i := 0 to |values|
      invariant result == AliasesWithin(values[..i], b)
      invariant seen == Elems(result)
    {
      assert values[..i + 1][..i] == values[..i];
      var v := values[i];
      assert v.text in seen <==> v.text in result;
      if v.text == "" || !Within(v.episode, b) || v.text in seen { continue; }
      seen := seen + {v.text};
      result := result + [v.text];
    }
    assert values[..|values|] == values;
  }
}
