/** Merging records along identity events: a quotient computed by walking a Go map in an unspecified order
    (characters/event_store.go). The order is explicit here, so that its irrelevance can be stated. */
module RecordMerge {
  import opened Ordering
  import opened IdentityEvents
  import opened CharacterRecords
  import opened Quotient

  type Table = map<string, Record>

  /** Records by id; a later record with the same id replaces an earlier one, records without id are dropped. */
  function TableOf(records: seq<Record>): Table {
    if records == [] then map[]
    else
      var table, last := TableOf(records[..|records| - 1]), records[|records| - 1];
      if last.id == "" then table else table[last.id := last]
  }

  /** Each id stands for the last record that has it. */
  lemma {:induction false} TableOfLast(records: seq<Record>, id: string)
    ensures id in TableOf(records) <==> id != "" && exists i :: 0 <= i < |records| && records[i].id == id
    ensures id in TableOf(records) ==> exists i ::
      0 <= i < |records| && records[i] == TableOf(records)[id] && records[i].id == id
        && forall j | i < j < |records| :: records[j].id != id
  {
    if records != [] {
      var before, last := records[..|records| - 1], records[|records| - 1];
      TableOfLast(before, id);
      if last.id == id {
        assert records[|before|] == last;
      } else if id in TableOf(before) {
        var i :| 0 <= i < |before| && before[i] == TableOf(before)[id] && before[i].id == id
          && forall j | i < j < |before| :: before[j].id != id;
        assert records[i] == before[i];
        forall j | i < j < |records| ensures records[j].id != id {
          if j < |before| { assert records[j] == before[j]; }
        }
      } else {
        forall i | 0 <= i < |records| && records[i].id == id ensures id == "" {
          if i < |before| { assert records[i] == before[i]; }
        }
      }
    }
  }

  function IdsOf(records: seq<Record>): seq<string> {
    seq(|records|, i requires 0 <= i < |records| => records[i].id)
  }

  predicate NonEmpty(id: string) { id != "" }

  /** The ids in order of first occurrence. */
  function OrderOf(records: seq<Record>): seq<string> { Distinct(IdsOf(records), NonEmpty) }

  function Listed(order: seq<string>, table: Table): seq<Record> {
    if order == [] then []
    else
      var prefix, last := Listed(order[..|order| - 1], table), order[|order| - 1];
      if last in table then prefix + [table[last]] else prefix
  }

  ghost predicate InTurn(order: seq<string>, x: string, y: string) {
    exists p, q :: 0 <= p < q < |order| && order[p] == x && order[q] == y
  }

  ghost predicate AllInTurn(order: seq<string>, records: seq<Record>) {
    && (forall i | 0 <= i < |records| :: records[i].id in order)
    && (forall i, j | 0 <= i < j < |records| :: InTurn(order, records[i].id, records[j].id))
  }

  lemma {:induction false} ListedInTurn(order: seq<string>, table: Table)
    requires forall id | id in table :: table[id].id == id
    ensures AllInTurn(order, Listed(order, table))
  {
    if order != [] {
      var before, last := order[..|order| - 1], order[|order| - 1];
      var prefix, r := Listed(before, table), Listed(order, table);
      ListedInTurn(before, table);
      assert order == before + [last];
      forall i, j | 0 <= i < j < |r| ensures InTurn(order, r[i].id, r[j].id) {
        assert r[i] == prefix[i] && prefix[i].id in before;
        InTurnSnoc(before, last, r[i].id, r[j].id);
      }
    }
  }

  lemma InTurnSnoc(before: seq<string>, last: string, x: string, y: string)
    requires InTurn(before, x, y) || (x in before && y == last)
    ensures InTurn(before + [last], x, y)
  {
    var order := before + [last];
    if InTurn(before, x, y) {
      var p, q :| 0 <= p < q < |before| && before[p] == x && before[q] == y;
      assert order[p] == x && order[q] == y;
    } else {
      var p :| 0 <= p < |before| && before[p] == x;
      assert order[p] == x && order[|before|] == y;
    }
  }

  /** What is left after merging is listed in the order in which the ids occur first. */
  lemma ListedInOrder(records: seq<Record>, table: Table)
    requires forall id | id in table :: table[id].id == id
    ensures var r := Listed(OrderOf(records), table); forall i, j | 0 <= i < j < |r| ::
      ComesFirst(IdsOf(records), r[i].id, r[j].id)
  {
    var order, r := OrderOf(records), Listed(OrderOf(records), table);
    ListedInTurn(order, table);
    DistinctInOrder(IdsOf(records), NonEmpty);
    forall i, j | 0 <= i < j < |r| ensures ComesFirst(IdsOf(records), r[i].id, r[j].id) {
      assert InTurn(order, r[i].id, r[j].id);
      var p, q :| 0 <= p < q < |order| && order[p] == r[i].id && order[q] == r[j].id;
    }
  }

  // ----- the exact condition for order independence -----

  /** Both or neither of any two records of `s` have a first appearance. */
  ghost predicate Uniform(table: Table, s: set<string>) {
    forall a, b | a in s && b in s && a in table && b in table ::
      (table[a].firstAppearance == NO_EPISODE) == (table[b].firstAppearance == NO_EPISODE)
  }

  /** Checkable on the input: the records merged into one surviving record agree on having a first appearance. */
  ghost predicate UniformFirsts(table: Table, m: map<string, string>)
    requires Acyclic(m)
  {
    forall r | r in table && r !in m :: Uniform(table, Sources(table, m, r, m.Keys))
  }

  lemma UniformIsSwappable(table: Table, s: set<string>)
    requires Uniform(table, s)
    ensures Swappable(table, Absorb, s)
  {
    forall a, b, t | a in s && b in s && a in table && b in table
      ensures Absorb(Absorb(t, table[a]), table[b]) == Absorb(Absorb(t, table[b]), table[a])
    {
      AbsorbCommutes(t, table[a], table[b]);
    }
  }

  /** A walk order that folds `last` into its root r at the end. */
  lemma EndingWith(table: Table, m: map<string, string>, r: string, last: string)
    returns (order: seq<string>, target: Record)
    requires Acyclic(m) && r in table && last in Sources(table, m, r, m.Keys)
    ensures Listing(order, m.Keys) && r in MergeInOrder(table, m, Absorb, order)
    ensures MergeInOrder(table, m, Absorb, order)[r] == Absorb(target, table[last])
  {
    var o := ListingEndingWith(m.Keys, last);
    order := o + [last];
    assert r !in o by {
      forall i | 0 <= i < |o| ensures o[i] in m { assert order[i] in Elems(order); }
    }
    LastFoldedIn(table, m, Absorb, o, r, last);
    target := MergeInOrder(table, m, Absorb, o)[r];
  }

  /** The first appearance of r when `last` is processed last: decided by whether `last` has one. */
  lemma LastDecides(table: Table, m: map<string, string>, r: string, last: string) returns (order: seq<string>)
    requires Acyclic(m) && r in table && last in Sources(table, m, r, m.Keys)
    ensures Listing(order, m.Keys) && r in MergeInOrder(table, m, Absorb, order)
    ensures (MergeInOrder(table, m, Absorb, order)[r].firstAppearance == NO_EPISODE)
      == (table[last].firstAppearance == NO_EPISODE)
  {
    var target;
    order, target := EndingWith(table, m, r, last);
    AbsorbedFirst(target, table[last]);
  }

  function FirstOf(r: Record): Episode { r.firstAppearance }

  lemma AbsorbedFirst(target: Record, source: Record)
    ensures Absorb(target, source).firstAppearance == EarlierFirst(target.firstAppearance, source.firstAppearance)
  {
  }

  /** The walk order of the merge map is irrelevant exactly if the records merged into each surviving record
      all have, or all lack, a first appearance. */
  lemma OrderIrrelevantIffUniform(table: Table, m: map<string, string>)
    requires Acyclic(m)
    ensures OrderIrrelevant(table, m, Absorb) <==> UniformFirsts(table, m)
  {
    if UniformFirsts(table, m) {
      forall r | r in table && r !in m ensures Swappable(table, Absorb, Sources(table, m, r, m.Keys)) {
        UniformIsSwappable(table, Sources(table, m, r, m.Keys));
      }
      SwappableOrderIrrelevant(table, m, Absorb);
    } else {
      var r :| r in table && r !in m && !Uniform(table, Sources(table, m, r, m.Keys));
      var a, b :| a in Sources(table, m, r, m.Keys) && b in Sources(table, m, r, m.Keys) &&
        table[a].firstAppearance == NO_EPISODE && table[b].firstAppearance != NO_EPISODE;
      var o1 := LastDecides(table, m, r, a);
      var o2 := LastDecides(table, m, r, b);
      assert MergeInOrder(table, m, Absorb, o1) != MergeInOrder(table, m, Absorb, o2);
    }
  }

  /** The first appearances of a record and those merged into it so far. */
  ghost predicate IsFirst(table: Table, r: string, s: set<string>, first: Episode)
    requires r in table && s <= table.Keys
  {
    && (forall x | x in s + {r} && table[x].firstAppearance != NO_EPISODE ::
      first != NO_EPISODE && first <= table[x].firstAppearance)
    && exists x :: x in s + {r} && table[x].firstAppearance == first
  }

  lemma FirstOfMore(table: Table, r: string, s: set<string>, first: Episode, x: string)
    requires r in table && s <= table.Keys && x in table && IsFirst(table, r, s, first)
    requires table[x].firstAppearance != NO_EPISODE
    ensures IsFirst(table, r, s + {x}, EarlierFirst(first, table[x].firstAppearance))
  {
    var y :| y in s + {r} && table[y].firstAppearance == first;
    assert x in s + {x} + {r} && y in s + {x} + {r};
  }

  ghost predicate MergesFirst(merge: (Record, Record) -> Record) {
    forall t, s :: merge(t, s).firstAppearance == EarlierFirst(t.firstAppearance, s.firstAppearance)
  }

  lemma StepTakesFirst(before: Table, m: map<string, string>, merge: (Record, Record) -> Record, s: string, r: string)
    requires Acyclic(m) && MergesFirst(merge) && RootOf(m, s) == r && r != s && s in before && r in before
    ensures var after := Step(before, m, merge, s);
      r in after && after[r].firstAppearance == EarlierFirst(before[r].firstAppearance, before[s].firstAppearance)
  {
  }

  lemma StepElsewhere(before: Table, m: map<string, string>, merge: (Record, Record) -> Record, s: string, r: string)
    requires Acyclic(m) && r != s && r in before && (s in before ==> RootOf(m, s) != r)
    ensures var after := Step(before, m, merge, s); r in after && after[r] == before[r]
  {
  }

  lemma {:induction false} MergedFirst(table: Table, m: map<string, string>, merge: (Record, Record) -> Record,
      order: seq<string>, r: string)
    requires Acyclic(m) && NoDup(order) && Elems(order) <= m.Keys && r in table && r !in m && MergesFirst(merge)
    requires forall x | x in Sources(table, m, r, m.Keys) :: table[x].firstAppearance != NO_EPISODE
    ensures r in MergeInOrder(table, m, merge, order)
    ensures IsFirst(table, r, Sources(table, m, r, Elems(order)),
                    MergeInOrder(table, m, merge, order)[r].firstAppearance)
  {
    if order == [] {
      assert Sources(table, m, r, Elems(order)) == {};
      assert r in {r};
    } else {
      var prefix, s := order[..|order| - 1], order[|order| - 1];
      var before := MergeInOrder(table, m, merge, prefix);
      SnocElems(order);
      MergedFirst(table, m, merge, prefix, r);
      SourcesStep(table, m, r, Elems(prefix), s);
      SurvivorsExact(table, m, merge, prefix);
      assert s in m by { assert s in Elems(order); }
      if s in table && RootOf(m, s) == r {
        UnprocessedStays(table, m, merge, prefix, s);
        StepTakesFirst(before, m, merge, s, r);
        FirstOfMore(table, r, Sources(table, m, r, Elems(prefix)), before[r].firstAppearance, s);
      } else {
        StepElsewhere(before, m, merge, s, r);
      }
    }
  }

  /** Where no record merged into r lacks a first appearance, the merged record appears first when the earliest of them
      does, whatever the order of the walk. */
  lemma FirstIsEarliest(table: Table, m: map<string, string>, order: seq<string>, r: string)
    requires Acyclic(m) && NoDup(order) && Elems(order) <= m.Keys && r in table && r !in m
    requires forall x | x in Sources(table, m, r, m.Keys) :: table[x].firstAppearance != NO_EPISODE
    ensures r in MergeInOrder(table, m, Absorb, order)
    ensures IsFirst(table, r, Sources(table, m, r, Elems(order)),
                    MergeInOrder(table, m, Absorb, order)[r].firstAppearance)
  {
    forall t, s ensures Absorb(t, s).firstAppearance == EarlierFirst(t.firstAppearance, s.firstAppearance) {
      AbsorbedFirst(t, s);
    }
    MergedFirst(table, m, Absorb, order, r);
  }

  /** Where they all lack one, the merged record lacks it as well. */
  lemma {:induction false} FirstIsMissing(table: Table, m: map<string, string>, order: seq<string>, r: string)
    requires Acyclic(m) && NoDup(order) && Elems(order) <= m.Keys && r in table && r !in m
    requires Sources(table, m, r, Elems(order)) != {}
    requires forall x | x in Sources(table, m, r, m.Keys) :: table[x].firstAppearance == NO_EPISODE
    ensures r in MergeInOrder(table, m, Absorb, order)
    ensures MergeInOrder(table, m, Absorb, order)[r].firstAppearance == NO_EPISODE
  {
    var missing :| missing in Sources(table, m, r, Elems(order));
    var lacks := (q: Record) => q.firstAppearance == NO_EPISODE;
    forall t, x | x in Sources(table, m, r, m.Keys) ensures lacks(Absorb(t, table[x])) { AbsorbedFirst(t, table[x]); }
    StaysAfter(table, m, Absorb, order, r, missing, lacks);
  }

  function BareRecord(id: string, firstAppearance: Episode): Record {
    Record(id, TextVersion(id, 1), [], None, [], None, [], firstAppearance, [], [], [])
  }

  /** Three records with one root, one of them without a first appearance, which a document of the legacy schema
      version or written by other means may lack: walking the two sources in one order loses the first appearance,
      in the other order it becomes the later one. */
  lemma {:induction false} MissingFirstExample(table: Table, m: map<string, string>)
    requires table == map["r" := BareRecord("r", 1), "a" := BareRecord("a", NO_EPISODE), "b" := BareRecord("b", 2)]
    requires m == map["a" := "r", "b" := "r"]
    ensures Acyclic(m) && Listing(["a", "b"], m.Keys) && Listing(["b", "a"], m.Keys)
    ensures "r" in MergeInOrder(table, m, Absorb, ["a", "b"]) && "r" in MergeInOrder(table, m, Absorb, ["b", "a"])
    ensures MergeInOrder(table, m, Absorb, ["a", "b"])["r"].firstAppearance == 2
    ensures MergeInOrder(table, m, Absorb, ["b", "a"])["r"].firstAppearance == NO_EPISODE
  {
    ToRootIsAcyclic(m, "r");
    assert Sources(table, m, "r", m.Keys) == {"a", "b"};
    FirstOfTwo(table, m, "r", "a", "b", ["a", "b"]);
    FirstOfTwo(table, m, "r", "b", "a", ["b", "a"]);
  }

  /** The first appearance after two sources were walked. */
  lemma {:induction false} FirstOfTwo(table: Table, m: map<string, string>, r: string, a: string, b: string,
                                      order: seq<string>)
    requires Acyclic(m) && m.Keys == {a, b} && a != b && r in table && {a, b} <= Sources(table, m, r, m.Keys)
    requires order == [a, b]
    ensures Listing(order, m.Keys) && r in MergeInOrder(table, m, Absorb, order)
    ensures FirstOf(MergeInOrder(table, m, Absorb, order)[r])
         == EarlierFirst(EarlierFirst(FirstOf(table[r]), FirstOf(table[a])), FirstOf(table[b]))
  {
    forall t, s ensures FirstOf(Absorb(t, s)) == EarlierFirst(FirstOf(t), FirstOf(s)) { AbsorbedFirst(t, s); }
    TwoWalks(table, m, Absorb, r, a, b, FirstOf, EarlierFirst);
  }

  /** A map that sends everything to one id outside it. */
  lemma ToRootIsAcyclic(m: map<string, string>, root: string)
    requires root !in m && forall x | x in m :: m[x] == root
    ensures Acyclic(m) && forall x | x in m :: RootOf(m, x) == root
  {
    forall x | x in m ensures !Reaches(m, m[x], x) {
      assert forall n: nat :: !ReachesIn(m, root, x, n);
    }
    forall x | x in m ensures RootOf(m, x) == root {
      assert ReachesIn(m, root, root, 0) && ReachesIn(m, x, root, 1);
      RootIsUnique(m, x, RootOf(m, x), root);
    }
  }

  // ----- what every order keeps -----

  ghost function MentionBag(r: Record): multiset<TextVersion> { Bag(r.mentions) }

  /** No walk order loses or invents a mention: the counts per (episode, text) add up to the same bag. */
  lemma {:induction false} MentionsConserved(table: Table, m: map<string, string>, order: seq<string>)
    requires Acyclic(m)
    ensures Total(MergeInOrder(table, m, Absorb, order), MentionBag) == Total(table, MentionBag)
  {
    forall t, s ensures MentionBag(Absorb(t, s)) == MentionBag(t) + MentionBag(s) { AbsorbJoinsContent(t, s); }
    MergeConserves(table, m, Absorb, order, MentionBag);
  }

  ghost function PreferredHeld(r: Record): set<TextVersion> { ContentOf(r).preferredNames }

  ghost function AliasesHeld(r: Record): set<TextVersion> { ContentOf(r).aliases }

  ghost function FullNamesHeld(r: Record): set<TextVersion> { ContentOf(r).fullNames }

  ghost function GendersHeld(r: Record): set<TextVersion> { ContentOf(r).genders }

  ghost function FactsHeld(r: Record): set<Fact> { ContentOf(r).facts }

  /** Each surviving record holds exactly what it and the records merged into it held. */
  ghost predicate Gathered<K>(table: Table, m: map<string, string>, after: Table, held: Record -> set<K>)
    requires Acyclic(m)
  {
    forall r | r in after :: r in table &&
      held(after[r]) == held(table[r]) + set x, k | x in Sources(table, m, r, m.Keys) && k in held(table[x]) :: k
  }

  lemma {:induction false} GatheredBy<K>(table: Table, m: map<string, string>, order: seq<string>,
                                         held: Record -> set<K>)
    requires Acyclic(m) && Listing(order, m.Keys)
    requires forall t, s :: held(Absorb(t, s)) == held(t) + held(s)
    ensures Gathered(table, m, MergeInOrder(table, m, Absorb, order), held)
  {
    forall r | r in MergeInOrder(table, m, Absorb, order)
      ensures r in table && held(MergeInOrder(table, m, Absorb, order)[r])
           == held(table[r]) + set x, k | x in Sources(table, m, r, m.Keys) && k in held(table[x]) :: k
    {
      MergeGathers(table, m, Absorb, order, held, r);
    }
  }

  lemma AbsorbHolds(t: Record, s: Record)
    ensures PreferredHeld(Absorb(t, s)) == PreferredHeld(t) + PreferredHeld(s)
    ensures AliasesHeld(Absorb(t, s)) == AliasesHeld(t) + AliasesHeld(s)
    ensures FullNamesHeld(Absorb(t, s)) == FullNamesHeld(t) + FullNamesHeld(s)
    ensures GendersHeld(Absorb(t, s)) == GendersHeld(t) + GendersHeld(s)
    ensures FactsHeld(Absorb(t, s)) == FactsHeld(t) + FactsHeld(s)
  {
    AbsorbJoinsContent(t, s);
  }

  /** For every walk order: exactly the records whose root is present are merged away, and no name, alias,
      full name, gender or fact is lost or invented. */
  lemma {:induction false} NothingLost(table: Table, m: map<string, string>, order: seq<string>)
    requires Acyclic(m) && Listing(order, m.Keys)
    ensures MergeInOrder(table, m, Absorb, order).Keys == set r | r in table && (r !in m || RootOf(m, r) !in table)
    ensures Gathered(table, m, MergeInOrder(table, m, Absorb, order), PreferredHeld)
    ensures Gathered(table, m, MergeInOrder(table, m, Absorb, order), AliasesHeld)
    ensures Gathered(table, m, MergeInOrder(table, m, Absorb, order), FullNamesHeld)
    ensures Gathered(table, m, MergeInOrder(table, m, Absorb, order), GendersHeld)
    ensures Gathered(table, m, MergeInOrder(table, m, Absorb, order), FactsHeld)
  {
    SurvivorsExact(table, m, Absorb, order);
    forall t, s
      ensures PreferredHeld(Absorb(t, s)) == PreferredHeld(t) + PreferredHeld(s)
      ensures AliasesHeld(Absorb(t, s)) == AliasesHeld(t) + AliasesHeld(s)
      ensures FullNamesHeld(Absorb(t, s)) == FullNamesHeld(t) + FullNamesHeld(s)
      ensures GendersHeld(Absorb(t, s)) == GendersHeld(t) + GendersHeld(s)
      ensures FactsHeld(Absorb(t, s)) == FactsHeld(t) + FactsHeld(s)
    {
      AbsorbHolds(t, s);
    }
    GatheredBy(table, m, order, PreferredHeld);
    GatheredBy(table, m, order, AliasesHeld);
    GatheredBy(table, m, order, FullNamesHeld);
    GatheredBy(table, m, order, GendersHeld);
    GatheredBy(table, m, order, FactsHeld);
  }

  // ----- the code -----

  /** The first pass: the table and the order of first occurrence. */
  method IndexRecords(records: seq<Record>) returns (byId: Table, ids: seq<string>)
    ensures byId == TableOf(records) && ids == OrderOf(records)
  {
    byId := map[];
    ids := [];
    for i := 0 to |records|
      invariant byId == TableOf(records[..i])
      invariant ids == OrderOf(records[..i])
      invariant byId.Keys == Elems(ids)
    {
      assert records[..i + 1][..i] == records[..i];
      assert IdsOf(records[..i + 1]) == IdsOf(records[..i]) + [records[i].id];
      var id := records[i].id;
      assert id in ids <==> id in Elems(ids);
      if id != "" {
        if id !in byId { ids := ids + [id]; }
        byId := byId[id := records[i]];
      }
    }
    assert records[..|records|] == records;
  }

  method ListSurvivors(ids: seq<string>, byId: Table) returns (result: seq<Record>)
    ensures result == Listed(ids, byId)
  {
    result := [];
    for i := 0 to |ids|
      invariant result == Listed(ids[..i], byId)
    {
      assert ids[..i + 1][..i] == ids[..i];
      if ids[i] in byId { result := result + [byId[ids[i]]]; }
    }
    assert ids[..|ids|] == ids;
  }

  method MergeRecordsById(records: seq<Record>, m: map<string, string>)
    returns (result: seq<Record>, ghost order: seq<string>)
    requires Acyclic(m) && NamesNonEmpty(m)
    ensures Listing(order, m.Keys)
    ensures result == if records == [] || m == map[] then records
                      else Listed(OrderOf(records), MergeInOrder(TableOf(records), m, Absorb, order))
  {
    if records == [] || m == map[] {
      ListingExists(m.Keys);
      order :| Listing(order, m.Keys);
      return records, order;
    }
    var table, ids := IndexRecords(records);
    var byId;
    byId, order := FoldSources(table, m, Absorb);
    result := ListSurvivors(ids, byId);
  }

  lemma {:induction false} MergeMapNamesNonEmpty(events: seq<IdentityEvent>)
    requires forall e | e in events :: WellFormed(e)
    ensures NamesNonEmpty(MergeMap(events))
  {
    if events != [] {
      var p, last := events[..|events| - 1], events[|events| - 1];
      assert last in events;
      MergeMapNamesNonEmpty(p);
    }
  }

  lemma {:induction false} NormalizedAreWellFormed(events: seq<IdentityEvent>, b: int)
    ensures forall e | e in UpTo(Normalized(events), b) :: WellFormed(e)
  {
    CandidatesFacts(events);
    AcceptedIsSublist(Candidates(events));
    UpToMembers(Normalized(events), b);
    forall e | e in Normalized(events) ensures WellFormed(e) {
      assert e in Elems(Normalized(events));
      assert e in Elems(Candidates(events));
    }
  }

  /** The records as they stand at an episode boundary. */
  method MergeAtBoundary(records: seq<Record>, events: seq<IdentityEvent>, boundary: Episode)
    returns (result: seq<Record>, ghost order: seq<string>)
    ensures Acyclic(MergedIntoAt(events, boundary)) && Listing(order, MergedIntoAt(events, boundary).Keys)
    ensures result == if records == [] || MergedIntoAt(events, boundary) == map[] then records
                      else Listed(OrderOf(records),
                        MergeInOrder(TableOf(records), MergedIntoAt(events, boundary), Absorb, order))
  {
    var normalized := NormalizeIdentityEvents(events);
    var mergedInto: map<string, string> := map[];
    for i := 0 to |normalized|
      invariant mergedInto == MergeMap(UpTo(normalized[..i], boundary))
    {
      assert normalized[..i + 1][..i] == normalized[..i];
      var e := normalized[i];
      if e.episode > boundary { continue; }
      var kept := UpTo(normalized[..i], boundary);
      assert (kept + [e])[..|kept|] == kept;
      mergedInto := mergedInto[e.source := e.target];
    }
    assert normalized[..|normalized|] == normalized;
    NormalizedIsAcyclicAtEveryBoundary(events, boundary);
    NormalizedAreWellFormed(events, boundary);
    MergeMapNamesNonEmpty(UpTo(normalized, boundary));
    result, order := MergeRecordsById(records, mergedInto);
  }
}
