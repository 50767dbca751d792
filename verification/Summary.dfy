/** Loading the summary of the characters at an episode boundary (characters/profile_store.go). */
module Summary {
  import opened Ordering
  import opened IdentityEvents
  import opened CharacterRecords
  import opened Quotient
  import opened RecordMerge
  import opened Projection
  import opened Spoilers
  import opened Views

  datatype Status = Ready | Partial | NotGenerated

  function VisibleViews(records: seq<Record>, b: int): seq<(string, View)> {
    if records == [] then []
    else
      var prev, last := VisibleViews(records[..|records| - 1], b), records[|records| - 1];
      if Within(last.firstAppearance, b) then prev + [(last.id, Project(last, b))] else prev
  }

  function NamedOnly(records: seq<Record>): seq<Record> {
    if records == [] then []
    else
      var prev, last := NamedOnly(records[..|records| - 1]), records[|records| - 1];
      if Named(last) then prev + [last] else prev
  }

  /** The records at a boundary: the stored ones, or merged along the events and those with id and name kept. */
  ghost function RecordsAt(records: seq<Record>, events: seq<IdentityEvent>, b: int, order: seq<string>): seq<Record>
    requires Acyclic(MergedIntoAt(events, b))
  {
    var m := MergedIntoAt(events, b);
    if events == [] then records
    else NamedOnly(if records == [] || m == map[] then records
                   else Listed(OrderOf(records), MergeInOrder(TableOf(records), m, Absorb, order)))
  }

  /** The views are those of the records at the boundary, for some walk of the merge map. */
  ghost predicate Summarises(records: seq<Record>, events: seq<IdentityEvent>, b: int, views: seq<(string, View)>) {
    Acyclic(MergedIntoAt(events, b)) && exists order ::
      Listing(order, MergedIntoAt(events, b).Keys) && views == VisibleViews(RecordsAt(records, events, b, order), b)
  }

  /** What is listed of stored records: each character once, every field of it the latest of its own history up to b
      over its record and those merged into it; where the records are settled, exactly the characters that appeared
      by b, with their earliest first appearance. */
  ghost predicate Truthful(table: Table, m: map<string, string>, b: int, views: seq<(string, View)>)
    requires Acyclic(m)
  {
    && (forall i, j | 0 <= i < j < |views| :: views[i].0 != views[j].0)
    && (forall i | 0 <= i < |views| :: views[i].0 in table
         && ShowsClass(views[i].1, table, ClassAt(table, m, views[i].0), b))
    && (Settled(table, m, b) ==> forall id ::
         (exists i | 0 <= i < |views| :: views[i].0 == id) <==> Appeared(table, m, b, id))
    && (Settled(table, m, b) ==> forall i | 0 <= i < |views| ::
         IsFirst(table, views[i].0, Sources(table, m, views[i].0, m.Keys), views[i].1.firstAppearance))
  }

  /** Loading the summary: the boundary is what was asked for or what was processed, whichever is earlier. */
  method LoadSummary(records: seq<Record>, events: seq<IdentityEvent>, processed: Option<Episode>, upTo: Episode)
    returns (status: Status, views: seq<(string, View)>)
    ensures status == if processed.None? then NotGenerated else if processed.value < upTo then Partial else Ready
    ensures processed.None? ==> views == []
    ensures processed.Some? ==> Summarises(records, events, if processed.value < upTo then processed.value
      else upTo, views)
    ensures processed.Some? && Stored(records) ==>
      var b := if processed.value < upTo then processed.value else upTo;
      Truthful(TableOf(records), MergedIntoAt(events, b), b, views)
  {
    if processed.None? { return NotGenerated, []; }
    var boundary := upTo;
    status := Ready;
    if processed.value < upTo {
      status := Partial;
      boundary := processed.value;
    }
    NormalizedIsAcyclicAtEveryBoundary(events, boundary);
    ListingExists(MergedIntoAt(events, boundary).Keys);
    ghost var order :| Listing(order, MergedIntoAt(events, boundary).Keys);
    var profiles := records;
    if events != [] {
      profiles, order := MergeAtBoundary(records, events, boundary);
      profiles := MaterializeProfiles(profiles);
    }
    assert profiles == RecordsAt(records, events, boundary, order);
    views := ProjectVisible(profiles, boundary);
    if Stored(records) { SummaryIsTruthful(records, events, boundary, views); }
  }

  method MaterializeProfiles(records: seq<Record>) returns (profiles: seq<Record>)
    ensures profiles == NamedOnly(records)
  {
    profiles := [];
    for i := 0 to |records|
      invariant profiles == NamedOnly(records[..i])
    {
      assert records[..i + 1][..i] == records[..i];
      if records[i].id != "" && records[i].canonicalName.text != "" { profiles := profiles + [records[i]]; }
    }
    assert records[..|records|] == records;
  }

  method ProjectVisible(profiles: seq<Record>, b: int) returns (views: seq<(string, View)>)
    ensures views == VisibleViews(profiles, b)
  {
    views := [];
    for i := 0 to |profiles|
      invariant views == VisibleViews(profiles[..i], b)
    {
      assert profiles[..i + 1][..i] == profiles[..i];
      if !Within(profiles[i].firstAppearance, b) { continue; }
      views := views + [(profiles[i].id, Project(profiles[i], b))];
    }
    assert profiles[..|profiles|] == profiles;
  }

  // ----- no spoilers in what is loaded -----

  /** Stored records, as saving leaves them: each with a name and an id of its own. */
  ghost predicate Stored(records: seq<Record>) {
    NoDup(IdsOf(records)) && forall i | 0 <= i < |records| :: Named(records[i])
  }

  /** Every entry has the id it is stored under. */
  ghost predicate Keyed(table: Table) { forall id | id in table :: table[id].id == id }

  lemma {:induction false} TableIsKeyed(records: seq<Record>)
    ensures Keyed(TableOf(records))
    ensures forall id :: id in TableOf(records) <==> id != "" && id in IdsOf(records)
  {
    if records != [] {
      var prefix, last := records[..|records| - 1], records[|records| - 1];
      TableIsKeyed(prefix);
      assert IdsOf(records) == IdsOf(prefix) + [last.id];
    }
  }

  lemma {:induction false} ListedAgrees(ids: seq<string>, x: Table, y: Table)
    requires forall id | id in ids :: id in x && id in y && x[id] == y[id]
    ensures Listed(ids, x) == Listed(ids, y)
  {
    if ids != [] { ListedAgrees(ids[..|ids| - 1], x, y); }
  }

  lemma StoredSnoc(records: seq<Record>)
    requires Stored(records) && records != []
    ensures var (prefix, last) := (records[..|records| - 1], records[|records| - 1]);
      && records == prefix + [last] && Stored(prefix) && Named(last)
      && IdsOf(records) == IdsOf(prefix) + [last.id] && last.id !in IdsOf(prefix)
  {
    var prefix, last := records[..|records| - 1], records[|records| - 1];
    var ids := IdsOf(records);
    assert Named(last);
    assert ids == IdsOf(prefix) + [last.id];
    assert ids[|prefix|] == last.id && forall i | 0 <= i < |prefix| :: ids[i] == IdsOf(prefix)[i];
  }

  lemma {:induction false} ListedSnoc(ids: seq<string>, id: string, table: Table)
    requires id in table
    ensures Listed(ids + [id], table) == Listed(ids, table) + [table[id]]
  {
    assert (ids + [id])[..|ids|] == ids;
  }

  /** Stored records are their own listing. */
  lemma {:induction false} StoredListed(records: seq<Record>)
    requires Stored(records)
    ensures Listed(IdsOf(records), TableOf(records)) == records
  {
    if records != [] {
      var prefix, last := records[..|records| - 1], records[|records| - 1];
      StoredSnoc(records);
      StoredListed(prefix);
      TableIsKeyed(prefix);
      var table := TableOf(prefix)[last.id := last];
      forall id | id in IdsOf(prefix) ensures id in TableOf(prefix) && TableOf(prefix)[id] == table[id] {
        NamedIds(prefix, id);
      }
      ListedAgrees(IdsOf(prefix), TableOf(prefix), table);
      ListedSnoc(IdsOf(prefix), last.id, table);
    }
  }

  lemma NamedIds(records: seq<Record>, id: string)
    requires Stored(records) && id in IdsOf(records)
    ensures id != ""
  {
    var i :| 0 <= i < |IdsOf(records)| && IdsOf(records)[i] == id;
    assert Named(records[i]);
  }

  lemma {:induction false} DistinctOfDistinct(ids: seq<string>)
    requires NoDup(ids) && "" !in ids
    ensures Distinct(ids, NonEmpty) == ids
  {
    if ids != [] {
      var prefix, last := ids[..|ids| - 1], ids[|ids| - 1];
      assert ids == prefix + [last];
      DistinctOfDistinct(prefix);
    }
  }

  lemma {:induction false} StoredIds(records: seq<Record>)
    requires Stored(records)
    ensures OrderOf(records) == IdsOf(records)
    ensures NamedOnly(records) == records
  {
    if "" in IdsOf(records) { NamedIds(records, ""); }
    DistinctOfDistinct(IdsOf(records));
    AllNamed(records);
  }

  lemma {:induction false} AllNamed(records: seq<Record>)
    requires forall i | 0 <= i < |records| :: Named(records[i])
    ensures NamedOnly(records) == records
  {
    if records != [] {
      AllNamed(records[..|records| - 1]);
      assert records == records[..|records| - 1] + [records[|records| - 1]];
    }
  }

  /** A list of views that has exactly the entries of a map, each once. */
  ghost predicate Shows(views: seq<(string, View)>, shown: map<string, View>) {
    NoDup(views) && Elems(views) == Entries(shown)
  }

  /** The views that a table shows for these ids. */
  ghost function ViewPairs(ids: set<string>, table: Table, b: int): set<(string, View)> {
    ShownPairs(ids, table, r => Visible(r, b), r => Project(r, b))
  }

  /** The views of a listing are the views of its table. */
  lemma {:induction false} ListedShows(ids: seq<string>, table: Table, b: int)
    requires NoDup(ids) && Keyed(table)
    ensures NoDup(VisibleViews(NamedOnly(Listed(ids, table)), b))
    ensures Elems(VisibleViews(NamedOnly(Listed(ids, table)), b)) == ViewPairs(Elems(ids), table, b)
  {
    if ids != [] {
      var prefix, last := ids[..|ids| - 1], ids[|ids| - 1];
      assert ids == prefix + [last];
      ElemsOfSnoc(prefix, last);
      ListedShows(prefix, table, b);
      ViewPairsSnoc(Elems(prefix), last, table, b);
      if last in table {
        ListedSnoc(prefix, last, table);
        ViewsSnoc(Listed(prefix, table), table[last], b);
        OneMore(VisibleViews(NamedOnly(Listed(prefix, table)), b), ViewPairs(Elems(prefix), table, b),
                (last, Project(table[last], b)), Visible(table[last], b));
      }
    }
  }

  lemma OneMore<T>(listed: seq<T>, members: set<T>, last: T, kept: bool)
    requires NoDup(listed) && Elems(listed) == members && last !in members
    ensures NoDup(listed + if kept then [last] else [])
    ensures Elems(listed + if kept then [last] else []) == members + if kept then {last} else {}
  {
    ElemsOfSnoc(listed, last);
    assert listed + [] == listed;
  }

  lemma ViewPairsSnoc(ids: set<string>, last: string, table: Table, b: int)
    requires last !in ids
    ensures ViewPairs(ids + {last}, table, b) ==
      ViewPairs(ids, table, b) + if last in table && Visible(table[last], b) then {(last, Project(table[last], b))}
        else {}
    ensures last in table ==> (last, Project(table[last], b)) !in ViewPairs(ids, table, b)
  {
    ShownPairsSnoc(ids, last, table, r => Visible(r, b), r => Project(r, b));
  }

  lemma {:induction false} ViewsSnoc(records: seq<Record>, last: Record, b: int)
    ensures VisibleViews(NamedOnly(records + [last]), b)
         == VisibleViews(NamedOnly(records), b) + if Visible(last, b) then [(last.id, Project(last, b))] else []
  {
    assert (records + [last])[..|records|] == records;
    var named := NamedOnly(records);
    assert (named + [last])[..|named|] == named;
    assert VisibleViews(named, b) + [] == VisibleViews(named, b);
  }

  lemma {:induction false} WalkIsKeyed(table: Table, m: map<string, string>, order: seq<string>)
    requires Acyclic(m) && Keyed(table)
    ensures Keyed(MergeInOrder(table, m, Absorb, order))
    ensures MergeInOrder(table, m, Absorb, order).Keys <= table.Keys
  {
    forall t, s ensures IdOf(Absorb(t, s)) == IdOf(t) { AbsorbedFirst(t, s); }
    forall id | id in MergeInOrder(table, m, Absorb, order)
      ensures id in table && MergeInOrder(table, m, Absorb, order)[id].id == id
    {
      WalkKeepsField(table, m, Absorb, order, IdOf, id);
    }
  }

  lemma {:induction false} StoredMerged(records: seq<Record>, m: map<string, string>, order: seq<string>)
    requires Stored(records) && Acyclic(m) && Listing(order, m.Keys) && (records == [] || m == map[])
    ensures records == Listed(OrderOf(records), MergeInOrder(TableOf(records), m, Absorb, order))
  {
    StoredIds(records);
    StoredListed(records);
    ElemsEmpty(order);
  }

  /** The summary of stored records shows exactly the views of the merged table. */
  lemma {:induction false} SummaryShowsViews(records: seq<Record>, events: seq<IdentityEvent>, b: int,
                                             order: seq<string>)
    requires Stored(records) && Acyclic(MergedIntoAt(events, b)) && Listing(order, MergedIntoAt(events, b).Keys)
    ensures Shows(VisibleViews(RecordsAt(records, events, b, order), b),
                  ViewsAlong(TableOf(records), MergedIntoAt(events, b), b, order))
  {
    var m, table := MergedIntoAt(events, b), TableOf(records);
    var merged := MergeInOrder(table, m, Absorb, order);
    StoredIds(records);
    TableIsKeyed(records);
    WalkIsKeyed(table, m, order);
    if records == [] || m == map[] { StoredMerged(records, m, order); }
    assert RecordsAt(records, events, b, order) == NamedOnly(Listed(IdsOf(records), merged));
    ListedShows(IdsOf(records), merged, b);
    PairsOfViews(Elems(IdsOf(records)), merged, b);
  }

  lemma PairsOfViews(ids: set<string>, table: Table, b: int)
    requires table.Keys <= ids
    ensures ViewPairs(ids, table, b) == Entries(ViewsOf(table, b))
  {
    ShownPairsOfAll(ids, table, r => Visible(r, b), r => Project(r, b));
  }

  function IdOf(r: Record): string { r.id }

  /** A list of the entries of a map has every key once, with its value. */
  lemma ShownOnce(views: seq<(string, View)>, shown: map<string, View>)
    requires Shows(views, shown)
    ensures forall i, j | 0 <= i < j < |views| :: views[i].0 != views[j].0
    ensures forall i | 0 <= i < |views| :: views[i].0 in shown && views[i].1 == shown[views[i].0]
    ensures forall id :: (exists i | 0 <= i < |views| :: views[i].0 == id) <==> id in shown
  {
    forall i | 0 <= i < |views| ensures views[i].0 in shown && views[i].1 == shown[views[i].0] {
      assert views[i] in Elems(views);
    }
    forall id | id in shown ensures exists i | 0 <= i < |views| :: views[i].0 == id {
      assert (id, shown[id]) in Elems(views);
    }
  }

  /** The summary of stored records tells the truth, whatever the order of the walk. */
  lemma {:induction false} SummaryIsTruthful(records: seq<Record>, events: seq<IdentityEvent>, b: int,
                                             views: seq<(string, View)>)
    requires Stored(records) && Summarises(records, events, b, views)
    ensures Truthful(TableOf(records), MergedIntoAt(events, b), b, views)
  {
    var table, m := TableOf(records), MergedIntoAt(events, b);
    var order := LoadedShows(records, events, b, views);
    var shown := ViewsAlong(table, m, b, order);
    ShownOnce(views, shown);
    forall i | 0 <= i < |views|
      ensures views[i].0 in table && ShowsClass(views[i].1, table, ClassAt(table, m, views[i].0), b)
    {
      ViewShowsClass(table, m, b, order, views[i].0);
    }
    if Settled(table, m, b) {
      forall id ensures id in shown <==> Appeared(table, m, b, id) { ShownExactly(table, m, b, order, id); }
      forall i | 0 <= i < |views|
        ensures IsFirst(table, views[i].0, Sources(table, m, views[i].0, m.Keys), views[i].1.firstAppearance)
      {
        ShownExactly(table, m, b, order, views[i].0);
      }
    }
  }

  lemma LoadedShows(records: seq<Record>, events: seq<IdentityEvent>, b: int, views: seq<(string, View)>)
    returns (order: seq<string>)
    requires Stored(records) && Summarises(records, events, b, views)
    ensures Listing(order, MergedIntoAt(events, b).Keys)
    ensures Shows(views, ViewsAlong(TableOf(records), MergedIntoAt(events, b), b, order))
  {
    order :| Listing(order, MergedIntoAt(events, b).Keys)
      && views == VisibleViews(RecordsAt(records, events, b, order), b);
    SummaryShowsViews(records, events, b, order);
  }

  /** No spoilers in what is loaded: two summaries at b, of stored records and of a later state of them, under
      events that agree up to b, show the same characters with the same views, however the maps were walked, if
      the records are settled by b. */
  lemma {:induction false} SummaryDependsOnlyOnPast(records: seq<Record>, later: seq<Record>,
                                                    events: seq<IdentityEvent>,
                                 moreEvents: seq<IdentityEvent>, b: int,
                                 views: seq<(string, View)>, laterViews: seq<(string, View)>)
    requires Stored(records) && Stored(later) && Elems(UpTo(events, b)) == Elems(UpTo(moreEvents, b))
    requires Summarises(records, events, b, views) && Summarises(later, moreEvents, b, laterViews)
    requires LaterState(TableOf(records), TableOf(later), MergedIntoAt(events, b), b)
    requires Settled(TableOf(records), MergedIntoAt(events, b), b)
    ensures NoDup(views) && NoDup(laterViews) && Elems(views) == Elems(laterViews)
  {
    ViewDependsOnlyOnPast(TableOf(records), TableOf(later), events, moreEvents, b);
    var o1 := LoadedShows(records, events, b, views);
    var o2 := LoadedShows(later, moreEvents, b, laterViews);
  }
}
