/** What the view of each character says, in terms of the stored records: the latest of what the character and those
    merged into it were known by (characters/profile_projection.go, characters/profile_store.go). */
module Views {
  import opened Ordering
  import opened IdentityEvents
  import opened CharacterRecords
  import opened Quotient
  import opened RecordMerge
  import opened Projection
  import opened Spoilers

  // ----- what the records of a class know -----

  /** The texts that are not empty and have an episode. */
  ghost function Usable(texts: seq<TextVersion>): set<TextVersion> {
    set v | v in texts && v.text != "" && v.episode != NO_EPISODE
  }

  /** The same of facts of some kinds. */
  ghost function UsableFacts(facts: seq<Fact>, kinds: string -> bool): set<TextVersion> {
    set f | f in facts && kinds(f.kind) && f.text != "" && f.episode != NO_EPISODE :: TextVersion(f.text, f.episode)
  }

  /** What the records of a class hold together. */
  ghost function HeldBy<K>(table: Table, class_: set<string>, held: Record -> set<K>): set<K> {
    set x, k | x in class_ && x in table && k in held(table[x]) :: k
  }

  ghost function NamesKnown(table: Table, class_: set<string>): set<TextVersion> {
    HeldBy(table, class_, (r: Record) => Usable(r.fullNameHistory + Single(r.fullName)))
  }

  ghost function GendersKnown(table: Table, class_: set<string>): set<TextVersion> {
    HeldBy(table, class_, (r: Record) => Usable(r.genderHistory + Single(r.gender)))
  }

  ghost function AliasesKnown(table: Table, class_: set<string>): set<TextVersion> {
    HeldBy(table, class_, (r: Record) => Usable(r.aliases))
  }

  ghost function FactsKnown(table: Table, class_: set<string>, kinds: string -> bool): set<TextVersion> {
    HeldBy(table, class_, (r: Record) => UsableFacts(r.facts, kinds))
  }

  /** Every field shows its own history, up to b: facts are appearance, personality, or else summary. */
  ghost predicate ShowsClass(view: View, table: Table, class_: set<string>, b: int) {
    && ShowsLatest(view.fullName, NamesKnown(table, class_), b)
    && ShowsLatest(view.gender, GendersKnown(table, class_), b)
    && ShowsAll(view.aliases, AliasesKnown(table, class_), b)
    && ShowsLatest(view.appearance, FactsKnown(table, class_, kind => kind == "appearance"), b)
    && ShowsLatest(view.personality, FactsKnown(table, class_, kind => kind == "personality"), b)
    && ShowsLatest(view.summary,
         FactsKnown(table, class_, kind => kind != "appearance" && kind != "personality"), b)
  }

  // ----- one record -----

  ghost function HeldOfKind(facts: set<Fact>, class_: FactClass): set<TextVersion> {
    set f | f in facts && ClassOf(f) == class_ :: TextVersion(f.text, f.episode)
  }

  lemma HistoryShown(facts: seq<Fact>, class_: FactClass, b: int)
    ensures ShowsLatest(HistoryAt(facts, class_, b), HeldOfKind(KeptFacts(facts), class_), b)
  {
    LatestShown(HistoryOf(facts, class_), b);
    forall v ensures v in Kept(HistoryOf(facts, class_)) <==> v in HeldOfKind(KeptFacts(facts), class_) {
      HistoryFromKeptFacts(facts, class_, v);
    }
    assert Kept(HistoryOf(facts, class_)) == HeldOfKind(KeptFacts(facts), class_);
  }

  lemma ValueShown(history: seq<TextVersion>, b: int)
    ensures ShowsLatest(ValueAt(history, b), Kept(history), b)
  {
    FallbackIsRedundant(NormalizeTexts(history), b);
    LatestShown(history, b);
  }

  ghost predicate ShowsHeld(view: View, r: Record, b: int) {
    && view.firstAppearance == r.firstAppearance
    && ShowsLatest(view.fullName, FullNamesHeld(r), b) && ShowsLatest(view.gender, GendersHeld(r), b)
    && ShowsAll(view.aliases, AliasesHeld(r), b)
    && ShowsLatest(view.appearance, HeldOfKind(FactsHeld(r), Appearance), b)
    && ShowsLatest(view.personality, HeldOfKind(FactsHeld(r), Personality), b)
    && ShowsLatest(view.summary, HeldOfKind(FactsHeld(r), FactClass.Summary), b)
  }

  lemma ProjectShows(r: Record, b: int)
    ensures ShowsHeld(Project(r, b), r, b)
  {
    ValueShown(FullNamesOf(r), b);
    ValueShown(GendersOf(r), b);
    AliasesShown(r.aliases, b);
    HistoryShown(r.facts, Appearance, b);
    HistoryShown(r.facts, Personality, b);
    HistoryShown(r.facts, FactClass.Summary, b);
  }

  // ----- the record and those merged into it -----

  ghost function ClassAt(table: Table, m: map<string, string>, r: string): set<string>
    requires Acyclic(m)
  {
    Sources(table, m, r, m.Keys) + {r}
  }

  lemma GatheredClass<K>(table: Table, m: map<string, string>, after: Table, held: Record -> set<K>, r: string)
    requires Acyclic(m) && Gathered(table, m, after, held) && r in after
    ensures r in table && held(after[r]) == HeldBy(table, ClassAt(table, m, r), held)
  {
  }

  lemma SameHeld<K>(table: Table, class_: set<string>, held: Record -> set<K>, also: Record -> set<K>)
    requires forall r :: held(r) == also(r)
    ensures HeldBy(table, class_, held) == HeldBy(table, class_, also)
  {
    forall k ensures k in HeldBy(table, class_, held) <==> k in HeldBy(table, class_, also) {
      forall x | x in class_ && x in table ensures held(table[x]) == also(table[x]) {}
    }
  }

  lemma RecordKnows(r: Record)
    ensures FullNamesHeld(r) == Usable(r.fullNameHistory + Single(r.fullName))
    ensures GendersHeld(r) == Usable(r.genderHistory + Single(r.gender))
    ensures AliasesHeld(r) == Usable(r.aliases)
  {
    assert forall v :: v in FullNamesHeld(r) <==> v in Usable(r.fullNameHistory + Single(r.fullName));
    assert forall v :: v in GendersHeld(r) <==> v in Usable(r.genderHistory + Single(r.gender));
    assert forall v :: v in AliasesHeld(r) <==> v in Usable(r.aliases);
  }

  lemma HeldIsKnown(table: Table, class_: set<string>)
    ensures HeldBy(table, class_, FullNamesHeld) == NamesKnown(table, class_)
    ensures HeldBy(table, class_, GendersHeld) == GendersKnown(table, class_)
    ensures HeldBy(table, class_, AliasesHeld) == AliasesKnown(table, class_)
  {
    var names, genders := (r: Record) => Usable(r.fullNameHistory + Single(r.fullName)),
                          (r: Record) => Usable(r.genderHistory + Single(r.gender));
    var aliases := (r: Record) => Usable(r.aliases);
    forall r ensures FullNamesHeld(r) == names(r) && GendersHeld(r) == genders(r) && AliasesHeld(r) == aliases(r) {
      RecordKnows(r);
    }
    SameHeld(table, class_, FullNamesHeld, names);
    SameHeld(table, class_, GendersHeld, genders);
    SameHeld(table, class_, AliasesHeld, aliases);
  }

  lemma KeptFactsKnown(facts: seq<Fact>, class_: FactClass, kinds: string -> bool)
    requires forall f: Fact :: kinds(f.kind) <==> ClassOf(f) == class_
    ensures HeldOfKind(KeptFacts(facts), class_) == UsableFacts(facts, kinds)
  {
    forall v ensures v in HeldOfKind(KeptFacts(facts), class_) <==> v in UsableFacts(facts, kinds) {
      if v in HeldOfKind(KeptFacts(facts), class_) {
        var f :| f in KeptFacts(facts) && ClassOf(f) == class_ && v == TextVersion(f.text, f.episode);
        var g :| g in facts && KeepFact(g) && WithKind(g) == f;
        assert kinds(g.kind);
      }
      if v in UsableFacts(facts, kinds) {
        var f :| f in facts && kinds(f.kind) && KeepFact(f) && v == TextVersion(f.text, f.episode);
        assert WithKind(f) in KeptFacts(facts) && ClassOf(WithKind(f)) == class_;
      }
    }
  }

  lemma KindOfUnion(table: Table, class_: set<string>, kind: FactClass)
    ensures HeldOfKind(HeldBy(table, class_, FactsHeld), kind)
      == HeldBy(table, class_, (r: Record) => HeldOfKind(FactsHeld(r), kind))
  {
    var held, ofKind := HeldBy(table, class_, FactsHeld), (r: Record) => HeldOfKind(FactsHeld(r), kind);
    forall v ensures v in HeldOfKind(held, kind) <==> v in HeldBy(table, class_, ofKind) {
      if v in HeldOfKind(held, kind) {
        var f :| f in held && ClassOf(f) == kind && v == TextVersion(f.text, f.episode);
        var x :| x in class_ && x in table && f in FactsHeld(table[x]);
        assert v in ofKind(table[x]);
      }
      if v in HeldBy(table, class_, ofKind) {
        var x :| x in class_ && x in table && v in ofKind(table[x]);
        var f :| f in FactsHeld(table[x]) && ClassOf(f) == kind && v == TextVersion(f.text, f.episode);
        assert f in held;
      }
    }
  }

  lemma FactsHeldAreKnown(table: Table, class_: set<string>, kind: FactClass, kinds: string -> bool)
    requires forall f: Fact :: kinds(f.kind) <==> ClassOf(f) == kind
    ensures HeldOfKind(HeldBy(table, class_, FactsHeld), kind) == FactsKnown(table, class_, kinds)
  {
    var ofKind, usable := (r: Record) => HeldOfKind(FactsHeld(r), kind), (r: Record) => UsableFacts(r.facts, kinds);
    KindOfUnion(table, class_, kind);
    forall r ensures ofKind(r) == usable(r) { KeptFactsKnown(r.facts, kind, kinds); }
    SameHeld(table, class_, ofKind, usable);
  }

  /** What is held by a class, field by field, is what its records know. */
  lemma HeldShowsClass(view: View, r: Record, table: Table, class_: set<string>, b: int)
    requires ShowsHeld(view, r, b)
    requires FullNamesHeld(r) == HeldBy(table, class_, FullNamesHeld)
    requires GendersHeld(r) == HeldBy(table, class_, GendersHeld)
    requires AliasesHeld(r) == HeldBy(table, class_, AliasesHeld)
    requires FactsHeld(r) == HeldBy(table, class_, FactsHeld)
    ensures ShowsClass(view, table, class_, b)
  {
    HeldIsKnown(table, class_);
    FactsHeldAreKnown(table, class_, Appearance, kind => kind == "appearance");
    FactsHeldAreKnown(table, class_, Personality, kind => kind == "personality");
    FactsHeldAreKnown(table, class_, FactClass.Summary, kind => kind != "appearance" && kind != "personality");
  }

  /** Each view shows, field by field, the latest text up to b that its record or one merged into it has, and all their
      aliases up to b, whatever the order of the walk. */
  lemma {:induction false} ViewShowsClass(table: Table, m: map<string, string>, b: int, order: seq<string>, r: string)
    requires Acyclic(m) && Listing(order, m.Keys) && r in ViewsAlong(table, m, b, order)
    ensures r in table && ShowsClass(ViewsAlong(table, m, b, order)[r], table, ClassAt(table, m, r), b)
  {
    var after := MergeInOrder(table, m, Absorb, order);
    NothingLost(table, m, order);
    ProjectShows(after[r], b);
    GatheredClass(table, m, after, FullNamesHeld, r);
    GatheredClass(table, m, after, GendersHeld, r);
    GatheredClass(table, m, after, AliasesHeld, r);
    GatheredClass(table, m, after, FactsHeld, r);
    HeldShowsClass(Project(after[r], b), after[r], table, ClassAt(table, m, r), b);
  }

  // ----- which characters are shown -----

  /** A record with id and name that is not merged away, and one of its class has appeared by b. A record merged into
      it without a first appearance hides it. */
  ghost predicate Appeared(table: Table, m: map<string, string>, b: int, r: string)
    requires Acyclic(m)
  {
    && r in table && table[r].id != "" && table[r].canonicalName.text != "" && (r !in m || RootOf(m, r) !in table)
    && (forall x | x in Sources(table, m, r, m.Keys) :: table[x].firstAppearance != NO_EPISODE)
    && exists x | x in ClassAt(table, m, r) && x in table :: 0 <= table[x].firstAppearance <= b
  }

  /** The first appearance of a survivor decides whether it is shown. */
  lemma {:induction false} SurvivorAppears(table: Table, m: map<string, string>, b: int, order: seq<string>, r: string)
    requires Acyclic(m) && Listing(order, m.Keys) && Settled(table, m, b) && r in MergeInOrder(table, m, Absorb, order)
    requires r in table && (r !in m || RootOf(m, r) !in table) && Named(table[r])
    ensures !Hidden(MergeInOrder(table, m, Absorb, order)[r], b) <==> Appeared(table, m, b, r)
    ensures !Hidden(MergeInOrder(table, m, Absorb, order)[r], b) ==>
      IsFirst(table, r, Sources(table, m, r, m.Keys), MergeInOrder(table, m, Absorb, order)[r].firstAppearance)
  {
    var s, merged := Sources(table, m, r, m.Keys), MergeInOrder(table, m, Absorb, order)[r];
    if r in m {
      NamedStays(table, m, order, r);
      assert s == {};
      assert r in s + {r};
    } else if forall x | x in s :: table[x].firstAppearance != NO_EPISODE {
      FirstIsEarliest(table, m, order, r);
    } else if Uniform(table, s) {
      FirstIsMissing(table, m, order, r);
    } else {
      var missing :| missing in s && table[missing].firstAppearance == NO_EPISODE;
      assert SettledAt(table, s, b);
      UnseenAfterMissing(table, m, order, r, missing, b);
    }
  }

  /** Where the records are settled by b, exactly the characters that appeared by then are shown, with the earliest
      first appearance among their records. */
  lemma {:induction false} ShownExactly(table: Table, m: map<string, string>, b: int, order: seq<string>, r: string)
    requires Acyclic(m) && Listing(order, m.Keys) && Settled(table, m, b)
    ensures r in ViewsAlong(table, m, b, order) <==> Appeared(table, m, b, r)
    ensures r in ViewsAlong(table, m, b, order) ==>
      IsFirst(table, r, Sources(table, m, r, m.Keys), ViewsAlong(table, m, b, order)[r].firstAppearance)
  {
    var after := MergeInOrder(table, m, Absorb, order);
    NothingLost(table, m, order);
    InViews(after, b, r);
    if r in after {
      NamedStays(table, m, order, r);
      if Named(table[r]) { SurvivorAppears(table, m, b, order, r); }
    }
  }
}
