/** Applying merge proposals to the generated characters (extraction/core.go): one survivor per class of the
    equivalence closure of the accepted proposals. How two characters are combined is a parameter. */
module MergeProposals {
  import opened Ordering
  import opened Quotient
  import opened UnionFind

  datatype Proposal = Proposal(source: string, target: string, confidence: real)

  /** A generated character; `details` stands for everything but its identity and its place in the story. */
  datatype Character = Character(id: string, firstAppearance: Episode, canonicalEpisode: Episode, details: string)

  const MERGE_AUTO_APPLY_CONFIDENCE: real := 0.75

  predicate AutoApplicable(confidence: real) { MERGE_AUTO_APPLY_CONFIDENCE <= confidence <= 1.0 }

  predicate Accepted(p: Proposal, ids: set<string>) {
    AutoApplicable(p.confidence) && p.source != "" && p.target != "" && p.source != p.target &&
    p.source in ids && p.target in ids
  }

  function EdgesOf(proposals: seq<Proposal>, ids: set<string>): Edges {
    set p | p in proposals && Accepted(p, ids) :: (p.source, p.target)
  }

  function FirstSeen(c: Character): Episode {
    if c.firstAppearance != NO_EPISODE then c.firstAppearance else c.canonicalEpisode
  }

  /** Earlier first appearance, then smaller id. */
  predicate Before(a: Character, b: Character) {
    FirstSeen(a) < FirstSeen(b) || (FirstSeen(a) == FirstSeen(b) && StringLess(a.id, b.id))
  }

  ghost predicate UniqueIds(generated: seq<Character>) {
    forall i, j | 0 <= i < j < |generated| && generated[i].id != "" :: generated[i].id != generated[j].id
  }

  ghost function IdSet(generated: seq<Character>): set<string> {
    set i | 0 <= i < |generated| && generated[i].id != "" :: generated[i].id
  }

  /** Combining never changes a non-empty id. */
  ghost predicate KeepsId(combine: (Character, Character) -> Character) {
    forall a: Character, b: Character {:trigger combine(a, b)} :: a.id != "" ==> combine(a, b).id == a.id
  }

  type Index = map<string, Character>

  /** The characters by id. */
  ghost predicate Indexes(table: Index, generated: seq<Character>) {
    && table.Keys == IdSet(generated)
    && forall i | 0 <= i < |generated| && generated[i].id != "" ::
      generated[i].id in table && table[generated[i].id] == generated[i]
  }

  ghost predicate IsLeast(table: Index, class_: set<string>, x: string) {
    x in class_ && class_ <= table.Keys && forall y | y in class_ && y != x :: Before(table[x], table[y])
  }

  ghost predicate NamedById(table: Index) {
    forall x | x in table :: table[x].id == x
  }

  lemma BeforeIsOrder(table: Index, x: string, y: string, z: string)
    requires NamedById(table) && x in table && y in table && z in table
    ensures !(Before(table[x], table[y]) && Before(table[y], table[x]))
    ensures x != y ==> Before(table[x], table[y]) || Before(table[y], table[x])
    ensures Before(table[x], table[y]) && Before(table[y], table[z]) ==> Before(table[x], table[z])
  {
    StringLessTotal(x, y);
    if StringLess(x, y) && StringLess(y, x) {
      StringLessTransitive(x, y, x);
      StringLessIrreflexive(x);
    }
    if StringLess(x, y) && StringLess(y, z) { StringLessTransitive(x, y, z); }
  }

  lemma LeastIsUnique(table: Index, class_: set<string>, x: string, y: string)
    requires NamedById(table) && IsLeast(table, class_, x) && IsLeast(table, class_, y)
    ensures x == y
  {
    if x != y { BeforeIsOrder(table, x, y, x); }
  }

  lemma {:induction false} LeastExists(table: Index, class_: set<string>)
    requires NamedById(table) && class_ != {} && class_ <= table.Keys
    ensures exists x :: IsLeast(table, class_, x)
  {
    var c :| c in class_;
    if class_ == {c} {
      assert IsLeast(table, class_, c);
    } else {
      LeastExists(table, class_ - {c});
      var x :| IsLeast(table, class_ - {c}, x);
      BeforeIsOrder(table, c, x, x);
      if Before(table[c], table[x]) {
        forall y | y in class_ && y != c ensures Before(table[c], table[y]) { BeforeIsOrder(table, c, x, y); }
        assert IsLeast(table, class_, c);
      } else {
        assert IsLeast(table, class_, x);
      }
    }
  }

  /** The first appearance of a character, or, if it has none, its canonical episode. */
  predicate Dated(c: Character, episode: Episode) {
    (c.firstAppearance != NO_EPISODE && episode == c.firstAppearance)
      || (c.firstAppearance == NO_EPISODE && episode == c.canonicalEpisode)
  }

  /** No member of the class appears earlier, and none that appears in the same episode has a smaller id. */
  ghost predicate Earliest(table: Index, class_: set<string>, x: string) {
    && x in class_ && class_ <= table.Keys
    && forall y, ex, ey | y in class_ && y != x && Dated(table[x], ex) && Dated(table[y], ey) ::
      ex < ey || (ex == ey && StringLess(x, y))
  }

  /** Being least is appearing earliest. */
  lemma LeastIffEarliest(table: Index, class_: set<string>, x: string)
    requires NamedById(table)
    ensures IsLeast(table, class_, x) <==> Earliest(table, class_, x)
  {
    if Earliest(table, class_, x) {
      forall y | y in class_ && y != x ensures Before(table[x], table[y]) {
        assert Dated(table[x], FirstSeen(table[x])) && Dated(table[y], FirstSeen(table[y]));
      }
    }
  }

  /** Where all members have a first appearance, the survivor's is the earliest, and of several such members it has the
      smallest id. */
  lemma EarliestFirst(table: Index, class_: set<string>, x: string)
    requires Earliest(table, class_, x) && forall y | y in class_ :: table[y].firstAppearance != NO_EPISODE
    ensures forall y | y in class_ :: table[x].firstAppearance <= table[y].firstAppearance
    ensures forall y | y in class_ && table[y].firstAppearance == table[x].firstAppearance :: !StringLess(y, x)
  {
    forall y | y in class_
      ensures table[x].firstAppearance <= table[y].firstAppearance
      ensures table[y].firstAppearance == table[x].firstAppearance ==> !StringLess(y, x)
    {
      assert Dated(table[x], table[x].firstAppearance) && Dated(table[y], table[y].firstAppearance);
      StringLessIrreflexive(x);
      if StringLess(x, y) && StringLess(y, x) { StringLessTransitive(x, y, x); }
    }
  }

  // ----- what the result must be -----

  lemma SortedListingExists(s: set<string>)
    ensures exists o :: StrictlySorted(o, StringLess) && Elems(o) == s
  {
    ListingExists(s);
    var o :| Listing(o, s);
    StringOrder(s);
    SortBySorts(o, StringLess);
    assert StrictlySorted(SortBy(o, StringLess), StringLess);
  }

  ghost function SortedListing(s: set<string>): (o: seq<string>)
    ensures StrictlySorted(o, StringLess) && Elems(o) == s
  {
    SortedListingExists(s);
    var o :| StrictlySorted(o, StringLess) && Elems(o) == s;
    o
  }

  /** The characters named by ids combined into base one after the other, base itself left out. */
  function CombineAll(combine: (Character, Character) -> Character, base: Character, ids: seq<string>,
                      table: Index): Character
  {
    if ids == [] then base
    else
      var c, last := CombineAll(combine, base, ids[..|ids| - 1], table), ids[|ids| - 1];
      if last == base.id || last !in table then c else combine(c, table[last].(id := base.id))
  }

  /** The character that stands for the class of c: the other members combined into it, smallest id first. */
  ghost function Merged(combine: (Character, Character) -> Character, c: Character, class_: set<string>,
                        table: Index): Character
  {
    CombineAll(combine, c, SortedListing(class_), table)
  }

  /** In the order of the input: characters without id, and of every class its least member with the others merged
      in. */
  ghost function Survivors(combine: (Character, Character) -> Character, generated: seq<Character>, edges: Edges,
                           table: Index): seq<Character>
  {
    if generated == [] then []
    else
      var kept, c := Survivors(combine, generated[..|generated| - 1], edges, table), generated[|generated| - 1];
      if c.id == "" then kept + [c]
      else if IsLeast(table, ClassOf(edges, c.id), c.id) then kept + [Merged(combine, c, ClassOf(edges, c.id), table)]
      else kept
  }

  /** What is put together by combining, the survivor's own id aside. */
  ghost predicate Adds<K(!new)>(combine: (Character, Character) -> Character, held: Character -> set<K>) {
    && (forall a: Character, b: Character {:trigger combine(a, b)} :: held(combine(a, b)) == held(a) + held(b))
    && forall c: Character, id: string :: held(c.(id := id)) == held(c)
  }

  lemma {:induction false} CombineAllGathers<K(!new)>(combine: (Character, Character) -> Character, base: Character,
                                                ids: seq<string>, table: Index, held: Character -> set<K>)
    requires Adds(combine, held)
    ensures held(CombineAll(combine, base, ids, table))
      == held(base) + set x, k | x in ids && x != base.id && x in table && k in held(table[x]) :: k
  {
    if ids != [] {
      var before, last := ids[..|ids| - 1], ids[|ids| - 1];
      CombineAllGathers(combine, base, before, table, held);
      assert ids == before + [last];
      assert forall x :: x in ids <==> x in before || x == last;
      if last in table { assert held(table[last].(id := base.id)) == held(table[last]); }
    }
  }

  /** The survivor holds what all members of its class held. */
  lemma {:induction false} MergedGathers<K(!new)>(combine: (Character, Character) -> Character, c: Character,
                                            class_: set<string>, table: Index, held: Character -> set<K>)
    requires Adds(combine, held) && NamedById(table) && c.id in class_ && class_ <= table.Keys && table[c.id] == c
    ensures held(Merged(combine, c, class_, table)) == set x, k | x in class_ && k in held(table[x]) :: k
  {
    var ids := SortedListing(class_);
    CombineAllGathers(combine, c, ids, table, held);
    assert forall x :: x in ids <==> x in class_;
  }

  /** What combining keeps of its first argument, the survivor keeps of its own. */
  lemma {:induction false} MergedKeeps<K(!new)>(combine: (Character, Character) -> Character, c: Character,
                                          class_: set<string>, table: Index, field: Character -> K)
    requires forall a: Character, b: Character {:trigger combine(a, b)} :: field(combine(a, b)) == field(a)
    ensures field(Merged(combine, c, class_, table)) == field(c)
  {
    CombineAllKeeps(combine, c, SortedListing(class_), table, field);
  }

  lemma {:induction false} CombineAllKeeps<K(!new)>(combine: (Character, Character) -> Character, base: Character,
                                              ids: seq<string>, table: Index, field: Character -> K)
    requires forall a: Character, b: Character {:trigger combine(a, b)} :: field(combine(a, b)) == field(a)
    ensures field(CombineAll(combine, base, ids, table)) == field(base)
  {
    if ids != [] { CombineAllKeeps(combine, base, ids[..|ids| - 1], table, field); }
  }

  /** What combining takes from its second argument, the survivor has of the member with the greatest id. */
  lemma {:induction false} MergedTakesLast<K(!new)>(combine: (Character, Character) -> Character, c: Character,
                                              class_: set<string>, table: Index, field: Character -> K, last: string)
    requires forall a: Character, b: Character {:trigger combine(a, b)} :: field(combine(a, b)) == field(b)
    requires forall d: Character, id: string :: field(d.(id := id)) == field(d)
    requires last in class_ && last != c.id && last in table
    requires forall x | x in class_ && x != c.id :: x == last || StringLess(x, last)
    ensures field(Merged(combine, c, class_, table)) == field(table[last])
  {
    CombineAllTakesLast(combine, c, SortedListing(class_), table, field, last);
  }

  lemma {:induction false} CombineAllTakesLast<K(!new)>(combine: (Character, Character) -> Character, base: Character,
                                                  ids: seq<string>, table: Index, field: Character -> K, last: string)
    requires forall a: Character, b: Character {:trigger combine(a, b)} :: field(combine(a, b)) == field(b)
    requires forall d: Character, id: string :: field(d.(id := id)) == field(d)
    requires StrictlySorted(ids, StringLess) && last in ids && last != base.id && last in table
    requires forall x | x in ids && x != base.id :: x == last || StringLess(x, last)
    ensures field(CombineAll(combine, base, ids, table)) == field(table[last])
  {
    var before, end := ids[..|ids| - 1], ids[|ids| - 1];
    assert ids == before + [end];
    if end != last {
      var i :| 0 <= i < |before| && before[i] == last;
      assert StringLess(ids[i], ids[|ids| - 1]);
      if StringLess(end, last) && StringLess(last, end) {
        StringLessTransitive(last, end, last);
        StringLessIrreflexive(last);
      }
      CombineAllTakesLast(combine, base, before, table, field, last);
    } else {
      assert field(table[last].(id := base.id)) == field(table[last]);
    }
  }

  ghost predicate OnlySurvivor(table: Index, edges: Edges, class_: set<string>, r: string) {
    && r in class_ && IsLeast(table, ClassOf(edges, r), r)
    && forall q | q in class_ && q != r :: !IsLeast(table, ClassOf(edges, q), q)
  }

  /** Every class has exactly one survivor. */
  lemma OneSurvivorPerClass(table: Index, edges: Edges, x: string)
    requires NamedById(table) && x in table && Endpoints(edges) <= table.Keys
    ensures exists r :: OnlySurvivor(table, edges, ClassOf(edges, x), r)
  {
    ConnectedSelf(edges, x);
    ClassMembers(edges, x, x);
    LeastExists(table, ClassOf(edges, x));
    var r :| IsLeast(table, ClassOf(edges, x), r);
    SameClass(edges, x, r);
    forall q | q in ClassOf(edges, x) && IsLeast(table, ClassOf(edges, q), q) ensures q == r {
      SameClass(edges, x, q);
      LeastIsUnique(table, ClassOf(edges, x), q, r);
    }
    assert OnlySurvivor(table, edges, ClassOf(edges, x), r);
  }

  /** The survivors depend on which ids the accepted proposals link, not on the order or direction of proposals. */
  lemma {:induction false} ProposalOrderIsIrrelevant(combine: (Character, Character) -> Character,
                                                     generated: seq<Character>, edges: Edges, others: Edges,
                                                     table: Index)
    requires forall a, b :: Linked(edges, a, b) <==> Linked(others, a, b)
    ensures Survivors(combine, generated, edges, table) == Survivors(combine, generated, others, table)
  {
    if generated != [] {
      ProposalOrderIsIrrelevant(combine, generated[..|generated| - 1], edges, others, table);
      ClassDependsOnLinks(edges, others, generated[|generated| - 1].id);
    }
  }

  function Flipped(p: Proposal): Proposal { Proposal(p.target, p.source, p.confidence) }

  /** Proposal lists with the same proposals up to order, repetition and direction give the same survivors. */
  lemma {:induction false} ReorderedProposals(combine: (Character, Character) -> Character, generated: seq<Character>,
                                              ps: seq<Proposal>, qs: seq<Proposal>, table: Index)
    requires forall p | p in ps :: p in qs || Flipped(p) in qs
    requires forall q | q in qs :: q in ps || Flipped(q) in ps
    ensures Survivors(combine, generated, EdgesOf(ps, table.Keys), table)
      == Survivors(combine, generated, EdgesOf(qs, table.Keys), table)
  {
    var edges, others := EdgesOf(ps, table.Keys), EdgesOf(qs, table.Keys);
    forall a, b ensures Linked(edges, a, b) <==> Linked(others, a, b) {
      if Linked(edges, a, b) {
        var p :| p in ps && Accepted(p, table.Keys)
          && ((p.source, p.target) == (a, b) || (p.source, p.target) == (b, a));
        assert Accepted(Flipped(p), table.Keys);
        if p in qs { assert (p.source, p.target) in others; } else { assert (p.target, p.source) in others; }
      }
      if Linked(others, a, b) {
        var q :| q in qs && Accepted(q, table.Keys)
          && ((q.source, q.target) == (a, b) || (q.source, q.target) == (b, a));
        assert Accepted(Flipped(q), table.Keys);
        if q in ps { assert (q.source, q.target) in edges; } else { assert (q.target, q.source) in edges; }
      }
    }
    ProposalOrderIsIrrelevant(combine, generated, edges, others, table);
  }

  // ----- the code -----

  function Without(items: seq<Character>, removed: set<string>): seq<Character> {
    if items == [] then []
    else
      var kept, c := Without(items[..|items| - 1], removed), items[|items| - 1];
      if c.id in removed then kept else kept + [c]
  }

  lemma {:induction false} WithoutNone(items: seq<Character>)
    ensures Without(items, {}) == items
  {
    if items != [] { WithoutNone(items[..|items| - 1]); }
  }

  lemma {:induction false} WithoutOther(items: seq<Character>, removed: set<string>, x: string)
    requires forall i | 0 <= i < |items| :: items[i].id != x
    ensures Without(items, removed) == Without(items, removed - {x})
  {
    if items != [] { WithoutOther(items[..|items| - 1], removed, x); }
  }

  /** With unique ids, as many characters disappear as ids are removed. */
  lemma {:induction false} WithoutCount(items: seq<Character>, removed: set<string>)
    requires UniqueIds(items) && removed <= IdSet(items)
    ensures |Without(items, removed)| == |items| - |removed|
  {
    if items == [] {
      assert removed == {};
    } else {
      var prefix, c := items[..|items| - 1], items[|items| - 1];
      forall x | x in removed - {c.id} ensures x in IdSet(prefix) {
        var i :| 0 <= i < |items| && items[i].id != "" && items[i].id == x;
        assert prefix[i].id == x;
      }
      WithoutCount(prefix, removed - {c.id});
      if c.id in removed {
        WithoutOther(prefix, removed, c.id);
      } else {
        assert removed - {c.id} == removed;
      }
    }
  }

  method UniteProposals(ids: set<string>, proposals: seq<Proposal>) returns (forest: Forest)
    ensures fresh(forest) && forest.Valid() && NamesClasses(forest.root, EdgesOf(proposals, ids))
  {
    forest := new Forest();
    for i := 0 to |proposals|
      invariant fresh(forest) && forest.Valid()
      invariant NamesClasses(forest.root, EdgesOf(proposals[..i], ids))
    {
      var p := proposals[i];
      assert proposals[..i + 1] == proposals[..i] + [p];
      if !Accepted(p, ids) {
        assert EdgesOf(proposals[..i + 1], ids) == EdgesOf(proposals[..i], ids);
        continue;
      }
      assert EdgesOf(proposals[..i + 1], ids) == EdgesOf(proposals[..i], ids) + {(p.source, p.target)};
      RootsAreIds(forest.parent, forest.root, forest.depth);
      UnitedNamesClasses(forest.root, EdgesOf(proposals[..i], ids), p.source, p.target);
      forest.Union(p.source, p.target);
    }
    assert proposals[..|proposals|] == proposals;
  }

  ghost predicate Partitions(components: map<string, seq<string>>, root: map<string, string>, seen: set<string>) {
    && (forall x | x in seen :: x in root && root[x] in components)
    && (forall r | r in components ::
      NoDup(components[r]) && Elems(components[r]) == set x | x in seen && x in root && root[x] == r)
  }

  /** The components, collected by walking the parent map in an arbitrary order. */
  method CollectComponents(forest: Forest) returns (components: map<string, seq<string>>)
    requires forest.Valid()
    modifies forest
    ensures forest.Valid() && forest.root == old(forest.root)
    ensures Partitions(components, forest.root, forest.root.Keys)
    ensures components.Keys == forest.root.Values
  {
    components := map[];
    var remaining := forest.parent.Keys;
    ghost var all := remaining;
    while remaining != {}
      invariant forest.Valid() && forest.root == old(forest.root) && all == forest.root.Keys
      invariant remaining <= all
      invariant Partitions(components, forest.root, all - remaining)
      invariant components.Keys <= forest.root.Values
    {
      var id :| id in remaining;
      remaining := remaining - {id};
      var root := forest.Find(id);
      ghost var before := components;
      assert root in forest.root.Values;
      var members := if root in components then components[root] else [];
      AddMember(components, forest.root, all - remaining - {id}, id);
      assert all - remaining - {id} + {id} == all - remaining;
      components := components[root := members + [id]];
    }
    assert all - {} == all;
    forall r | r in forest.root.Values ensures r in components {
      var x :| x in forest.root && forest.root[x] == r;
    }
  }

  lemma AddMember(components: map<string, seq<string>>, root: map<string, string>, seen: set<string>, id: string)
    requires Partitions(components, root, seen) && id in root && id !in seen
    ensures Partitions(components[root[id] := (if root[id] in components then components[root[id]] else []) + [id]],
      root, seen + {id})
  {
    var r := root[id];
    var members := if r in components then components[r] else [];
    assert Elems(members) == set x | x in seen && x in root && root[x] == r;
    assert forall i | 0 <= i < |members| :: members[i] in Elems(members);
    assert Elems(members + [id]) == Elems(members) + {id};
  }

  /** The least of one more id: that id if it is before the least so far, else still that one. */
  lemma LeastOfMore(table: Index, ids: seq<string>, i: nat, best: string)
    requires i < |ids| && Elems(ids) <= table.Keys && NamedById(table)
    requires Elems(ids[..i]) <= table.Keys && IsLeast(table, Elems(ids[..i]), best)
    ensures Elems(ids[..i + 1]) <= table.Keys && ids[i] in table && best in table
    ensures IsLeast(table, Elems(ids[..i + 1]), if Before(table[ids[i]], table[best]) then ids[i] else best)
  {
    var id := ids[i];
    TakeNext(ids, i);
    ElemsOfSnoc(ids[..i], id);
    assert id in Elems(ids) && best in Elems(ids[..i]);
    if Before(table[id], table[best]) {
      forall y | y in Elems(ids[..i + 1]) && y != id ensures Before(table[id], table[y]) {
        BeforeIsOrder(table, id, best, y);
      }
    } else {
      BeforeIsOrder(table, id, best, best);
    }
  }

  /** The least member, found by one pass over the sorted ids. */
  method MergeRepresentativeId(generated: seq<Character>, indexById: map<string, nat>, ids: seq<string>,
                               ghost table: Index) returns (best: string)
    requires ids != [] && Elems(ids) <= table.Keys && NamedById(table)
    requires forall x | x in Elems(ids) ::
      x in indexById && indexById[x] < |generated| && generated[indexById[x]] == table[x]
    ensures IsLeast(table, Elems(ids), best) && Earliest(table, Elems(ids), best)
  {
    best := ids[0];
    assert best in Elems(ids);
    for i := 1 to |ids|
      invariant Elems(ids[..i]) <= table.Keys && IsLeast(table, Elems(ids[..i]), best)
    {
      var id := ids[i];
      assert id in Elems(ids) && best in Elems(ids);
      LeastOfMore(table, ids, i, best);
      var left, right := generated[indexById[id]], generated[indexById[best]];
      if FirstSeen(left) < FirstSeen(right) || (FirstSeen(left) == FirstSeen(right) && StringLess(id, best)) {
        best := id;
      }
    }
    assert ids[..|ids|] == ids;
    LeastIffEarliest(table, Elems(ids), best);
  }

  lemma IdSetSnoc(generated: seq<Character>, c: Character)
    ensures IdSet(generated + [c]) == IdSet(generated) + (if c.id != "" then {c.id} else {})
  {
    var all := generated + [c];
    forall x | x in IdSet(generated) ensures x in IdSet(all) {
      var k :| 0 <= k < |generated| && generated[k].id != "" && generated[k].id == x;
      assert all[k].id == x;
    }
    assert all[|generated|] == c;
  }

  lemma IndexesSnoc(table: Index, generated: seq<Character>, c: Character)
    requires Indexes(table, generated) && UniqueIds(generated + [c])
    ensures Indexes(if c.id != "" then table[c.id := c] else table, generated + [c])
  {
    IdSetSnoc(generated, c);
    var all := generated + [c];
    forall i | 0 <= i < |generated| && generated[i].id != "" ensures generated[i].id != c.id {
      assert all[i].id != all[|generated|].id;
    }
  }

  method IndexById(generated: seq<Character>) returns (indexById: map<string, nat>, ghost table: Index)
    requires UniqueIds(generated)
    ensures Indexes(table, generated) && NamedById(table) && indexById.Keys == table.Keys
    ensures forall x | x in table :: indexById[x] < |generated| && generated[indexById[x]] == table[x]
  {
    indexById, table := map[], map[];
    for i := 0 to |generated|
      invariant Indexes(table, generated[..i]) && NamedById(table) && Locates(indexById, table, generated, i)
    {
      var c := generated[i];
      assert generated[..i + 1] == generated[..i] + [c];
      IndexesSnoc(table, generated[..i], c);
      LocatesSnoc(indexById, table, generated, i);
      if c.id != "" {
        indexById, table := indexById[c.id := i], table[c.id := c];
      }
    }
    assert generated[..|generated|] == generated;
  }

  /** Where each character of the table is in the list. */
  ghost predicate Locates(indexById: map<string, nat>, table: Index, generated: seq<Character>, i: nat) {
    && i <= |generated| && indexById.Keys == table.Keys
    && forall x | x in table :: indexById[x] < i && generated[indexById[x]] == table[x]
  }

  lemma LocatesSnoc(indexById: map<string, nat>, table: Index, generated: seq<Character>, i: nat)
    requires Locates(indexById, table, generated, i) && i < |generated|
    ensures Locates(indexById, table, generated, i + 1)
    ensures Locates(indexById[generated[i].id := i], table[generated[i].id := generated[i]], generated, i + 1)
  {
  }

  // ----- the loop over the components -----

  /** What item c has become once the components with the roots in `done` are merged. */
  ghost function Progress(combine: (Character, Character) -> Character, c: Character, root: map<string, string>,
                          edges: Edges, table: Index, done: set<string>): Character
  {
    if c.id != "" && c.id in root && root[c.id] in done && IsLeast(table, ClassOf(edges, c.id), c.id)
    then Merged(combine, c, ClassOf(edges, c.id), table) else c
  }

  /** The ids merged away once the components with the roots in `done` are merged. */
  ghost function RemovedIds(root: map<string, string>, edges: Edges, table: Index, done: set<string>): set<string> {
    set x | x in root && root[x] in done && !IsLeast(table, ClassOf(edges, x), x)
  }

  lemma ComponentIsClass(root: map<string, string>, edges: Edges, x: string)
    requires NamesClasses(root, edges) && x in root
    ensures ClassOf(edges, x) == set y | y in root && root[y] == root[x]
  {
    forall y ensures y in ClassOf(edges, x) <==> y in root && root[y] == root[x] {
      ClassMembers(edges, x, y);
      if Connected(edges, x, y) { ConnectedHaveEqualRoots(root, edges, x, y); }
    }
  }

  lemma {:induction false} CombineAllKeepsId(combine: (Character, Character) -> Character, base: Character,
                                             ids: seq<string>, table: Index)
    requires KeepsId(combine) && base.id != ""
    ensures CombineAll(combine, base, ids, table).id == base.id
  {
    if ids != [] { CombineAllKeepsId(combine, base, ids[..|ids| - 1], table); }
  }

  /** The ids merged away when the component `ids` goes into its representative. */
  ghost function Gone(ids: seq<string>, representative: string): seq<string> {
    if ids == [] then []
    else
      var gone, last := Gone(ids[..|ids| - 1], representative), ids[|ids| - 1];
      if last == representative then gone else gone + [last]
  }

  lemma {:induction false} GoneMembers(ids: seq<string>, representative: string)
    requires NoDup(ids)
    ensures Elems(Gone(ids, representative)) == Elems(ids) - {representative} && NoDup(Gone(ids, representative))
  {
    if ids != [] {
      var prefix, last := ids[..|ids| - 1], ids[|ids| - 1];
      GoneMembers(prefix, representative);
      SnocElems(ids);
      var gone := Gone(prefix, representative);
      assert Elems(gone + [last]) == Elems(gone) + {last};
      assert last !in Elems(gone);
    }
  }

  /** The retirements with the others of a component recorded as merged into its representative. */
  ghost function RetiredWith(retired: map<string, string>, ids: seq<string>, representative: string): map<string,
                             string>
  {
    map x | x in retired.Keys + Elems(Gone(ids, representative)) :: if x in retired then retired[x] else representative
  }

  /** Merging one component: the others folded into its least member, in the order of their ids. */
  method MergeComponent(generated: seq<Character>, indexById: map<string, nat>, ids: seq<string>,
                        representative: string,
                        combine: (Character, Character) -> Character, removed: set<string>, retired: map<string,
                          string>, changed: int, ghost table: Index)
    returns (merged: Character, removed': set<string>, retired': map<string, string>, changed': int)
    requires NoDup(ids) && representative in table && table[representative].id == representative
    requires representative in indexById && indexById[representative] < |generated|
      && generated[indexById[representative]] == table[representative]
    requires forall i | 0 <= i < |ids| ::
      ids[i] in table && ids[i] in indexById && indexById[ids[i]] < |generated|
      && generated[indexById[ids[i]]] == table[ids[i]]
    requires removed !! Elems(ids) && retired.Keys == removed
    ensures merged == CombineAll(combine, table[representative], ids, table)
    ensures removed' == removed + Elems(Gone(ids, representative)) && changed' == changed + |Gone(ids, representative)|
    ensures retired' == RetiredWith(retired, ids, representative)
  {
    merged := generated[indexById[representative]];
    removed', retired', changed' := removed, retired, changed;
    for i := 0 to |ids|
      invariant merged == CombineAll(combine, table[representative], ids[..i], table)
      invariant Recorded(removed, retired, changed, ids[..i], representative, removed', retired', changed')
    {
      var id := ids[i];
      RecordNext(removed, retired, changed, ids, i, representative, removed', retired', changed');
      CombineAllSnoc(combine, table[representative], ids, i, table);
      if id == representative { continue; }
      var source := generated[indexById[id]].(id := representative);
      merged := combine(merged, source);
      removed' := removed' + {id};
      retired' := retired'[id := representative];
      changed' := changed' + 1;
    }
    assert ids[..|ids|] == ids;
  }

  /** What merging the ids into the representative records. */
  ghost predicate Recorded(removed: set<string>, retired: map<string, string>, changed: int, ids: seq<string>,
                           representative: string,
                           removed': set<string>, retired': map<string, string>, changed': int) {
    && removed' == removed + Elems(Gone(ids, representative)) && changed' == changed + |Gone(ids, representative)|
    && retired' == RetiredWith(retired, ids, representative)
  }

  lemma RecordNext(removed: set<string>, retired: map<string, string>, changed: int, ids: seq<string>, i: nat,
                   representative: string,
                   removed': set<string>, retired': map<string, string>, changed': int)
    requires NoDup(ids) && i < |ids| && removed !! Elems(ids) && retired.Keys == removed
    requires Recorded(removed, retired, changed, ids[..i], representative, removed', retired', changed')
    ensures if ids[i] == representative
      then Recorded(removed, retired, changed, ids[..i + 1], representative, removed', retired', changed')
            else Recorded(removed, retired, changed, ids[..i + 1], representative, removed'
              + {ids[i]}, retired'[ids[i] := representative], changed' + 1)
  {
    SnocOf(ids, i, representative);
    RetiredSnoc(retired, ids, i, representative);
  }

  lemma {:induction false} SnocOf(ids: seq<string>, i: nat, representative: string)
    requires NoDup(ids) && i < |ids|
    ensures Gone(ids[..i + 1], representative)
         == Gone(ids[..i], representative) + (if ids[i] == representative then [] else [ids[i]])
    ensures Elems(Gone(ids[..i + 1], representative))
         == Elems(Gone(ids[..i], representative)) + (if ids[i] == representative then {} else {ids[i]})
    ensures ids[i] !in Elems(Gone(ids[..i], representative)) && ids[i] in Elems(ids)
  {
    assert ids[..i + 1][..i] == ids[..i];
    GoneMembers(ids[..i], representative);
  }

  lemma RetiredSnoc(retired: map<string, string>, ids: seq<string>, i: nat, representative: string)
    requires NoDup(ids) && i < |ids| && ids[i] !in retired
    ensures RetiredWith(retired, ids[..i + 1], representative)
         == if ids[i] == representative then RetiredWith(retired, ids[..i], representative)
            else RetiredWith(retired, ids[..i], representative)[ids[i] := representative]
  {
    SnocOf(ids, i, representative);
  }

  lemma {:induction false} CombineAllSnoc(combine: (Character, Character) -> Character, base: Character,
                                          ids: seq<string>, i: nat, table: Index)
    requires i < |ids|
    ensures CombineAll(combine, base, ids[..i + 1], table)
         == if ids[i] == base.id || ids[i] !in table then CombineAll(combine, base, ids[..i], table)
            else combine(CombineAll(combine, base, ids[..i], table), table[ids[i]].(id := base.id))
  {
    assert ids[..i + 1][..i] == ids[..i];
  }

  /** One more component done: its least member carries the merged character, nothing else changes. */
  lemma {:induction false} ProgressStep(combine: (Character, Character) -> Character, c: Character, root: map<string,
                                        string>, edges: Edges,
                        table: Index, done: set<string>, r: string, class_: set<string>, representative: string,
                          ids: seq<string>)
    requires NamesClasses(root, edges) && NamedById(table) && r !in done
    requires class_ == (set x | x in root && root[x] == r) && IsLeast(table, class_, representative)
    requires StrictlySorted(ids, StringLess) && Elems(ids) == class_
    ensures Progress(combine, c, root, edges, table, done + {r})
         == if c.id != "" && c.id == representative then CombineAll(combine, c, ids, table)
           else Progress(combine, c, root, edges, table, done)
  {
    if c.id in root && root[c.id] == r {
      ComponentIsClass(root, edges, c.id);
      assert ClassOf(edges, c.id) == class_;
      if IsLeast(table, class_, c.id) { LeastIsUnique(table, class_, c.id, representative); }
      StringOrder(class_);
      SortedListingIsUnique(ids, SortedListing(class_), StringLess);
    }
  }

  lemma RemovedStep(root: map<string, string>, edges: Edges, table: Index, done: set<string>, r: string,
                    class_: set<string>, representative: string)
    requires NamesClasses(root, edges) && NamedById(table) && r !in done
    requires class_ == (set x | x in root && root[x] == r) && IsLeast(table, class_, representative)
    ensures RemovedIds(root, edges, table, done) !! class_
    ensures RemovedIds(root, edges, table, done + {r})
      == RemovedIds(root, edges, table, done) + (class_ - {representative})
    ensures forall x | x in class_ :: ClassOf(edges, x) == class_
  {
    forall x | x in class_ ensures ClassOf(edges, x) == class_ { ComponentIsClass(root, edges, x); }
    forall x | x in class_ ensures IsLeast(table, ClassOf(edges, x), x) <==> x == representative {
      if IsLeast(table, class_, x) { LeastIsUnique(table, class_, x, representative); }
    }
  }

  ghost predicate Indexed(generated: seq<Character>, indexById: map<string, nat>, table: Index) {
    && UniqueIds(generated) && Indexes(table, generated) && NamedById(table) && indexById.Keys == table.Keys
    && forall x | x in table :: indexById[x] < |generated| && generated[indexById[x]] == table[x]
  }

  /** The state of the items after the components with the roots in `done`. */
  ghost predicate ItemsAt(combine: (Character, Character) -> Character, generated: seq<Character>,
                          items: seq<Character>,
                             root: map<string, string>, edges: Edges, table: Index, done: set<string>) {
    |items| == |generated| && forall i | 0 <= i < |items| ::
      items[i] == Progress(combine, generated[i], root, edges, table, done)
  }

  lemma {:induction false} ItemsStep(combine: (Character, Character) -> Character, generated: seq<Character>,
                                     items: seq<Character>, indexById: map<string, nat>,
                     root: map<string, string>, edges: Edges, table: Index, done: set<string>, r: string,
                       class_: set<string>, representative: string, ids: seq<string>)
    requires Indexed(generated, indexById, table) && ItemsAt(combine, generated, items, root, edges, table, done)
    requires NamesClasses(root, edges) && r !in done && "" !in table
    requires class_ == (set x | x in root && root[x] == r) && IsLeast(table, class_, representative)
    requires StrictlySorted(ids, StringLess) && Elems(ids) == class_
    ensures ItemsAt(combine, generated,
      items[indexById[representative] := CombineAll(combine, table[representative], ids, table)], root, edges, table,
      done + {r})
  {
    var at := indexById[representative];
    forall i | 0 <= i < |items|
      ensures items[at := CombineAll(combine, table[representative], ids, table)][i]
        == Progress(combine, generated[i], root, edges, table, done + {r})
    {
      ProgressStep(combine, generated[i], root, edges, table, done, r, class_, representative, ids);
      if i < at {
        assert generated[i].id == "" || generated[i].id != generated[at].id;
      } else if at < i {
        assert generated[at].id == "" || generated[at].id != generated[i].id;
      }
    }
  }

  /** Where the loop stands after the components with the roots in `done`. */
  ghost predicate StateAt(combine: (Character, Character) -> Character, generated: seq<Character>,
                          items: seq<Character>, removed: set<string>,
                          retired: map<string, string>, gone: seq<string>, root: map<string, string>, edges: Edges,
                            table: Index, done: set<string>) {
    ItemsAt(combine, generated, items, root, edges, table, done)
      && RemovedAt(removed, retired, gone, root, edges, table, done)
  }

  /** What is recorded of the removed ids. */
  ghost predicate RemovedAt(removed: set<string>, retired: map<string, string>, gone: seq<string>, root: map<string,
                            string>, edges: Edges, table: Index, done: set<string>)
  {
    && removed == retired.Keys == RemovedIds(root, edges, table, done)
    && NoDup(gone) && Elems(gone) == removed
    && forall x | x in retired :: IsLeast(table, ClassOf(edges, x), retired[x])
  }

  /** The ids of a component in order, and the least of them. */
  method PickRepresentative(generated: seq<Character>, items: seq<Character>, indexById: map<string, nat>,
                            component: seq<string>, ghost combine: (Character, Character) -> Character,
                            ghost root: map<string, string>, ghost edges: Edges, ghost table: Index,
ghost done: set<string>, ghost r: string)
    returns (ids: seq<string>, representative: string)
    requires Indexed(generated, indexById, table) && ItemsAt(combine, generated, items, root, edges, table, done)
    requires Endpoints(edges) <= table.Keys && root.Keys == Endpoints(edges) && r in root.Values && r !in done
    requires IsComponent(component, root, r)
    ensures StrictlySorted(ids, StringLess) && IsComponent(ids, root, r) && ids != []
    ensures IsLeast(table, Elems(ids), representative) && representative in ids
    ensures forall x | x in Elems(ids) ::
      x in table && x in indexById && indexById[x] < |items| && items[indexById[x]] == table[x]
  {
    ids := SortBy(component, StringLess);
    StringOrder(Elems(component));
    SortBySorts(component, StringLess);
    SortedNoDup(ids);
    ClassOfRoot(root, r, ids);
    ComponentItems(combine, generated, items, indexById, root, edges, table, done, r, ids);
    representative := MergeRepresentativeId(items, indexById, ids, table);
  }

  /** One component: sort its ids, pick the least member, fold the others into it. */
  method MergeOne(generated: seq<Character>, items: seq<Character>, indexById: map<string, nat>, component: seq<string>,
                  combine: (Character, Character) -> Character, removed: set<string>, retired: map<string, string>,
                    changed: int, ghost gone: seq<string>,
                  ghost root: map<string, string>, ghost edges: Edges, ghost table: Index, ghost done: set<string>,
ghost r: string)
    returns (items': seq<Character>, removed': set<string>, retired': map<string, string>, changed': int,
      ghost gone': seq<string>)
    requires Indexed(generated, indexById, table) && "" !in table
    requires NamesClasses(root, edges) && Endpoints(edges) <= table.Keys
    requires StateAt(combine, generated, items, removed, retired, gone, root, edges, table, done)
    requires r in root.Values && r !in done && IsComponent(component, root, r)
    ensures StateAt(combine, generated, items', removed', retired', gone', root, edges, table, done + {r})
    ensures changed' - |gone'| == changed - |gone|
  {
    var ids, representative :=
      PickRepresentative(generated, items, indexById, component, combine, root, edges, table, done, r);
    StateStep(combine, generated, items, removed, retired, gone, indexById, root, edges, table, done, r, ids,
      representative);
    items', removed', retired', changed' :=
      MergeMembers(items, indexById, ids, representative, combine, removed, retired, changed, table);
    gone' := gone + Gone(ids, representative);
  }

  /** A component with a single id is left alone. */
  method MergeMembers(items: seq<Character>, indexById: map<string, nat>, ids: seq<string>, representative: string,
                      combine: (Character, Character) -> Character, removed: set<string>, retired: map<string, string>,
                        changed: int, ghost table: Index)
    returns (items': seq<Character>, removed': set<string>, retired': map<string, string>, changed': int)
    requires StrictlySorted(ids, StringLess) && representative in ids && NamedById(table)
    requires forall x | x in Elems(ids) ::
      x in table && x in indexById && indexById[x] < |items| && items[indexById[x]] == table[x]
    requires removed !! Elems(ids) && retired.Keys == removed
    ensures representative in indexById && indexById[representative] < |items| && representative in table
    ensures items' == items[indexById[representative] := CombineAll(combine, table[representative], ids, table)]
    ensures removed' == removed + Elems(Gone(ids, representative)) && changed' == changed + |Gone(ids, representative)|
    ensures retired' == RetiredWith(retired, ids, representative)
  {
    items', removed', retired', changed' := items, removed, retired, changed;
    SortedNoDup(ids);
    assert representative in Elems(ids);
    forall i | 0 <= i < |ids| ensures ids[i] in Elems(ids) {}
    if |ids| < 2 {
      SingleComponent(combine, table[representative], ids, representative, table);
      return;
    }
    var merged;
    merged, removed', retired', changed' :=
      MergeComponent(items, indexById, ids, representative, combine, removed, retired, changed, table);
    items' := items[indexById[representative] := merged];
  }

  /** The state after one more component. */
  lemma {:induction false} StateStep(combine: (Character, Character) -> Character, generated: seq<Character>,
                                     items: seq<Character>, removed: set<string>, retired: map<string, string>,
                  gone: seq<string>, indexById: map<string, nat>, root: map<string, string>, edges: Edges, table: Index,
                    done: set<string>, r: string, ids: seq<string>, representative: string)
    requires Indexed(generated, indexById, table) && "" !in table && NamesClasses(root, edges) && r !in done
    requires StateAt(combine, generated, items, removed, retired, gone, root, edges, table, done)
    requires StrictlySorted(ids, StringLess) && IsComponent(ids, root, r) && IsLeast(table, Elems(ids), representative)
    ensures removed !! Elems(ids)
    ensures StateAt(combine, generated,
      items[indexById[representative] := CombineAll(combine, table[representative], ids, table)],
                    removed + Elems(Gone(ids, representative)), RetiredWith(retired, ids, representative), gone
                      + Gone(ids, representative),
                    root, edges, table, done + {r})
  {
    RecordedStep(removed, retired, gone, root, edges, table, done, r, ids, representative);
    ItemsStep(combine, generated, items, indexById, root, edges, table, done, r, Elems(ids), representative, ids);
  }

  lemma {:induction false} RecordedStep(removed: set<string>, retired: map<string, string>, gone: seq<string>,
                                        root: map<string, string>, edges: Edges, table: Index,
                     done: set<string>, r: string, ids: seq<string>, representative: string)
    requires NamesClasses(root, edges) && NamedById(table) && r !in done && IsComponent(ids, root, r)
      && IsLeast(table, Elems(ids), representative)
    requires RemovedAt(removed, retired, gone, root, edges, table, done)
    ensures removed !! Elems(ids)
    ensures RemovedAt(removed + Elems(Gone(ids, representative)), RetiredWith(retired, ids, representative), gone
      + Gone(ids, representative),
                      root, edges, table, done + {r})
  {
    RemovedStep(root, edges, table, done, r, Elems(ids), representative);
    GoneMembers(ids, representative);
    ListsAdd(gone, Gone(ids, representative));
  }

  lemma ListsAdd(a: seq<string>, b: seq<string>)
    requires NoDup(a) && NoDup(b) && Elems(a) !! Elems(b)
    ensures NoDup(a + b) && Elems(a + b) == Elems(a) + Elems(b)
  {
    forall i, j | 0 <= i < |a| && 0 <= j < |b| ensures a[i] != b[j] {
      assert a[i] in Elems(a) && b[j] in Elems(b);
    }
  }

  lemma SortedNoDup(ids: seq<string>)
    requires StrictlySorted(ids, StringLess)
    ensures NoDup(ids)
  {
    forall i, j | 0 <= i < j < |ids| ensures ids[i] != ids[j] { StringLessIrreflexive(ids[i]); }
  }

  lemma ComponentItems(combine: (Character, Character) -> Character, generated: seq<Character>, items: seq<Character>,
                       indexById: map<string, nat>,
                       root: map<string, string>, edges: Edges, table: Index, done: set<string>, r: string,
                         ids: seq<string>)
    requires Indexed(generated, indexById, table) && ItemsAt(combine, generated, items, root, edges, table, done)
    requires Endpoints(edges) <= table.Keys && root.Keys == Endpoints(edges) && r !in done
    requires Elems(ids) == set x | x in root && root[x] == r
    ensures forall x | x in Elems(ids) ::
      x in table && x in indexById && indexById[x] < |items| && items[indexById[x]] == table[x]
  {
    forall x | x in Elems(ids)
      ensures x in table && x in indexById && indexById[x] < |items| && items[indexById[x]] == table[x]
    {
      assert items[indexById[x]] == Progress(combine, generated[indexById[x]], root, edges, table, done);
    }
  }

  lemma ClassOfRoot(root: map<string, string>, r: string, ids: seq<string>)
    requires r in root.Values && Elems(ids) == set x | x in root && root[x] == r
    ensures ids != []
  {
    var x :| x in root && root[x] == r;
    assert x in Elems(ids);
  }

  lemma StateAtStart(combine: (Character, Character) -> Character, generated: seq<Character>, root: map<string, string>,
                     edges: Edges, table: Index)
    ensures StateAt(combine, generated, generated, {}, map[], [], root, edges, table, {})
  {
  }

  /** The ids of the component with root r. */
  ghost predicate IsComponent(component: seq<string>, root: map<string, string>, r: string) {
    NoDup(component) && Elems(component) == set x | x in root && root[x] == r
  }

  lemma ComponentOf(components: map<string, seq<string>>, root: map<string, string>, r: string)
    requires Partitions(components, root, root.Keys) && r in components
    ensures IsComponent(components[r], root, r)
  {
  }

  ghost predicate Split(all: set<string>, remaining: set<string>, done: set<string>) {
    remaining + done == all && remaining !! done
  }

  lemma MoveOne(all: set<string>, remaining: set<string>, done: set<string>, r: string)
    requires Split(all, remaining, done) && r in remaining
    ensures Split(all, remaining - {r}, done + {r})
  {
  }

  /** All components, in the arbitrary order of the Go map. */
  method MergeComponents(generated: seq<Character>, indexById: map<string, nat>, components: map<string, seq<string>>,
                         combine: (Character, Character) -> Character, changed: int,
                         ghost root: map<string, string>, ghost edges: Edges, ghost table: Index)
    returns (items: seq<Character>, removed: set<string>, retired: map<string, string>, changed': int,
      ghost gone: seq<string>)
    requires Indexed(generated, indexById, table) && "" !in table
    requires NamesClasses(root, edges) && Endpoints(edges) <= table.Keys
    requires components.Keys == root.Values && forall r | r in components :: IsComponent(components[r], root, r)
    ensures StateAt(combine, generated, items, removed, retired, gone, root, edges, table, root.Values)
    ensures changed' - |gone| == changed
  {
    items, removed, retired, changed', gone := generated, {}, map[], changed, [];
    var remaining := components.Keys;
    ghost var done: set<string> := {};
    StateAtStart(combine, generated, root, edges, table);
    while remaining != {}
      invariant Split(components.Keys, remaining, done)
      invariant StateAt(combine, generated, items, removed, retired, gone, root, edges, table, done)
      invariant changed' - |gone| == changed
    {
      var r :| r in remaining;
      items, removed, retired, changed', gone :=
        MergeOne(generated, items, indexById, components[r], combine, removed, retired, changed', gone,
                                                         root, edges, table, done, r);
      MoveOne(components.Keys, remaining, done, r);
      remaining, done := remaining - {r}, done + {r};
    }
    assert done == root.Values;
  }

  lemma {:induction false} SingleComponent(combine: (Character, Character) -> Character, base: Character,
                                           ids: seq<string>, representative: string, table: Index)
    requires |ids| == 1 && ids[0] == base.id == representative
    ensures CombineAll(combine, base, ids, table) == base && Gone(ids, representative) == []
  {
    assert ids[..0] == [];
  }

  lemma {:induction false} WithoutIsSurvivors(combine: (Character, Character) -> Character, generated: seq<Character>,
                                              items: seq<Character>,
                                                 root: map<string, string>, edges: Edges, table: Index)
    requires ItemsAt(combine, generated, items, root, edges, table, root.Values)
    requires NamesClasses(root, edges) && NamedById(table) && KeepsId(combine) && "" !in root
    requires forall i | 0 <= i < |generated| && generated[i].id != "" ::
      generated[i].id in table && table[generated[i].id] == generated[i]
    ensures Without(items, RemovedIds(root, edges, table, root.Values)) == Survivors(combine, generated, edges, table)
  {
    if generated != [] {
      var n := |generated| - 1;
      WithoutIsSurvivors(combine, generated[..n], items[..n], root, edges, table);
      var c := generated[n];
      assert items[n] == Progress(combine, c, root, edges, table, root.Values);
      if c.id != "" {
        CombineAllKeepsId(combine, c, SortedListing(ClassOf(edges, c.id)), table);
        if c.id in root {
          assert root[c.id] in root.Values;
        } else {
          LoneClass(root, edges, c.id);
          SortedListingOfOne(c.id);
          SingleComponent(combine, c, SortedListing({c.id}), c.id, table);
        }
      }
    }
  }

  lemma LoneClass(root: map<string, string>, edges: Edges, x: string)
    requires NamesClasses(root, edges) && x !in root
    ensures ClassOf(edges, x) == {x}
  {
    forall y ensures y in ClassOf(edges, x) <==> y == x {
      ClassMembers(edges, x, y);
      ConnectedSelf(edges, x);
      if Connected(edges, x, y) && x != y { ConnectedEndpoint(edges, x, y); }
    }
  }

  lemma SortedListingOfOne(x: string)
    ensures SortedListing({x}) == [x]
  {
    StringOrder({x});
    assert Elems([x]) == {x};
    SortedListingIsUnique(SortedListing({x}), [x], StringLess);
  }

  lemma {:induction false} ListSize(s: seq<string>)
    requires NoDup(s)
    ensures |Elems(s)| == |s|
  {
    if s != [] {
      SnocElems(s);
      ListSize(s[..|s| - 1]);
    }
  }

  method RemoveIds(items: seq<Character>, removed: set<string>) returns (result: seq<Character>)
    ensures result == Without(items, removed)
  {
    if removed == {} {
      WithoutNone(items);
      return items;
    }
    result := [];
    for i := 0 to |items|
      invariant result == Without(items[..i], removed)
    {
      assert items[..i + 1][..i] == items[..i];
      if items[i].id in removed { continue; }
      result := result + [items[i]];
    }
    assert items[..|items|] == items;
  }

  /** The state after the last component, turned into the claims about the result. */
  lemma {:induction false} Finished(combine: (Character, Character) -> Character, generated: seq<Character>,
                                    items: seq<Character>, removed: set<string>,
                 retired: map<string, string>, gone: seq<string>, root: map<string, string>, edges: Edges, table: Index)
    requires UniqueIds(generated) && Indexes(table, generated) && NamedById(table) && "" !in table && KeepsId(combine)
    requires NamesClasses(root, edges) && Endpoints(edges) <= table.Keys
    requires StateAt(combine, generated, items, removed, retired, gone, root, edges, table, root.Values)
    ensures Without(items, removed) == Survivors(combine, generated, edges, table)
    ensures |gone| == |retired.Keys| == |generated| - |Without(items, removed)|
  {
    WithoutIsSurvivors(combine, generated, items, root, edges, table);
    ItemsKeepIds(combine, generated, items, root, edges, table);
    WithoutCount(items, removed);
    ListSize(gone);
  }

  /** Proposals applied: exactly the survivors remain, each class merged into its least member; the counter grows
      by the number of characters that disappeared, and each of them is retired into its survivor. The outcome
      is the same for every order in which the maps are walked. */
  method ApplyMergeProposals(generated: seq<Character>, proposals: seq<Proposal>, changed: int,
                             combine: (Character, Character) -> Character)
    returns (result: seq<Character>, changed': int, retired: map<string, string>, ghost table: Index)
    requires UniqueIds(generated) && KeepsId(combine)
    ensures Indexes(table, generated) && NamedById(table)
    ensures result == Survivors(combine, generated, EdgesOf(proposals, table.Keys), table)
    ensures changed' - changed == |generated| - |result| == |retired.Keys|
    ensures var edges := EdgesOf(proposals, table.Keys);
      && Remain(result, edges, table)
      && forall x :: x in retired <==> x in table && !Earliest(table, ClassOf(edges, x), x)
    ensures forall x | x in retired ::
      retired[x] != x && Earliest(table, ClassOf(EdgesOf(proposals, table.Keys), x), retired[x])
  {
    var indexById;
    indexById, table := IndexById(generated);
    ghost var edges := EdgesOf(proposals, table.Keys);
    EdgesWithin(proposals, table.Keys);
    if proposals == [] || |generated| < 2 {
      NoEdges(generated, proposals, table);
      ItemsWithoutEdges(combine, generated, edges, table);
      SurvivorsRemain(combine, generated, edges, table);
      NoneRetired(edges, table);
      return generated, changed, map[], table;
    }
    var forest := UniteProposals(indexById.Keys, proposals);
    var components := CollectComponents(forest);
    var items, removed;
    ghost var gone;
    forall r | r in components ensures IsComponent(components[r], forest.root, r) {
      ComponentOf(components, forest.root, r);
    }
    items, removed, retired, changed', gone :=
      MergeComponents(generated, indexById, components, combine, changed, forest.root, edges, table);
    Finished(combine, generated, items, removed, retired, gone, forest.root, edges, table);
    SurvivorsRemain(combine, generated, edges, table);
    RetiredExactly(retired, gone, removed, forest.root, edges, table);
    result := RemoveIds(items, removed);
  }

  ghost predicate HasId(cs: seq<Character>, x: string) { exists i :: 0 <= i < |cs| && cs[i].id == x }

  /** The ids that remain are those of the earliest members of their classes. */
  ghost predicate Remain(result: seq<Character>, edges: Edges, table: Index) {
    forall x | x in table :: HasId(result, x) <==> Earliest(table, ClassOf(edges, x), x)
  }

  lemma HasIdSnoc(cs: seq<Character>, c: Character, x: string)
    ensures HasId(cs + [c], x) <==> HasId(cs, x) || c.id == x
  {
    var all := cs + [c];
    if i :| 0 <= i < |cs| && cs[i].id == x { assert all[i].id == x; }
    if c.id == x { assert all[|cs|].id == x; }
  }

  lemma {:induction false} SurvivorIds(combine: (Character, Character) -> Character, generated: seq<Character>,
                                       edges: Edges, table: Index, x: string)
    requires KeepsId(combine) && x != ""
    ensures HasId(Survivors(combine, generated, edges, table), x)
      <==> IsLeast(table, ClassOf(edges, x), x) && HasId(generated, x)
  {
    if generated != [] {
      var before, c := generated[..|generated| - 1], generated[|generated| - 1];
      var kept, class_ := Survivors(combine, before, edges, table), ClassOf(edges, c.id);
      SurvivorIds(combine, before, edges, table, x);
      Rejoin(generated, |generated| - 1);
      HasIdSnoc(before, c, x);
      HasIdSnoc(kept, c, x);
      if c.id != "" {
        CombineAllKeepsId(combine, c, SortedListing(class_), table);
        HasIdSnoc(kept, Merged(combine, c, class_, table), x);
      }
    }
  }

  lemma {:induction false} SurvivorsRemain(combine: (Character, Character) -> Character, generated: seq<Character>,
                                           edges: Edges, table: Index)
    requires KeepsId(combine) && Indexes(table, generated) && NamedById(table)
    ensures Remain(Survivors(combine, generated, edges, table), edges, table)
  {
    var result := Survivors(combine, generated, edges, table);
    forall x | x in table ensures HasId(result, x) <==> Earliest(table, ClassOf(edges, x), x) {
      assert x in IdSet(generated);
      SurvivorIds(combine, generated, edges, table, x);
      LeastIffEarliest(table, ClassOf(edges, x), x);
    }
  }

  lemma NoneRetired(edges: Edges, table: Index)
    requires edges == {} && NamedById(table)
    ensures forall x | x in table :: Earliest(table, ClassOf(edges, x), x)
  {
    forall x | x in table ensures Earliest(table, ClassOf(edges, x), x) {
      ConnectedSelf(edges, x);
      assert ClassOf(edges, x) == {x};
    }
  }

  /** Exactly the members of a class that do not appear earliest are retired, into the one that does. */
  lemma {:induction false} RetiredExactly(retired: map<string, string>, gone: seq<string>, removed: set<string>,
                                          root: map<string, string>, edges: Edges, table: Index)
    requires NamesClasses(root, edges) && Endpoints(edges) <= table.Keys && NamedById(table)
    requires RemovedAt(removed, retired, gone, root, edges, table, root.Values)
    ensures forall x :: x in retired <==> x in table && !Earliest(table, ClassOf(edges, x), x)
    ensures forall x | x in retired :: retired[x] != x && Earliest(table, ClassOf(edges, x), retired[x])
  {
    forall x ensures x in retired <==> x in table && !Earliest(table, ClassOf(edges, x), x) {
      LeastIffEarliest(table, ClassOf(edges, x), x);
      if x in root {
        assert root[x] in root.Values;
      } else if x in table {
        LoneClass(root, edges, x);
      }
    }
    forall x | x in retired ensures retired[x] != x && Earliest(table, ClassOf(edges, x), retired[x]) {
      LeastIffEarliest(table, ClassOf(edges, x), retired[x]);
    }
  }

  ghost predicate Names(proposals: seq<Proposal>, a: string, b: string) {
    exists p :: p in proposals && {p.source, p.target} == {a, b} && 0.75 <= p.confidence <= 1.0
  }

  /** Two ids are linked exactly if both are known and some proposal of a confidence of 0.75 to 1 names them, in either
      direction. */
  lemma LinkedExactly(proposals: seq<Proposal>, ids: set<string>, a: string, b: string)
    ensures Linked(EdgesOf(proposals, ids), a, b) <==>
      a != b && a in ids - {""} && b in ids - {""}
        && Names(proposals, a, b)
  {
    if a != b && a in ids - {""} && b in ids - {""} && Names(proposals, a, b) {
      var p :| p in proposals && {p.source, p.target} == {a, b} && 0.75 <= p.confidence <= 1.0;
      assert p.source in {a, b} && p.target in {a, b} && a in {p.source, p.target} && b in {p.source, p.target};
      assert Accepted(p, ids) && (p.source, p.target) in EdgesOf(proposals, ids);
    }
    if Linked(EdgesOf(proposals, ids), a, b) {
      var p :| p in proposals && Accepted(p, ids) && ((p.source, p.target) == (a, b) || (p.source, p.target) == (b, a));
      assert {p.source, p.target} == {a, b};
    }
  }

  lemma EdgesWithin(proposals: seq<Proposal>, ids: set<string>)
    ensures Endpoints(EdgesOf(proposals, ids)) <= ids - {""}
  {
  }

  lemma ItemsKeepIds(combine: (Character, Character) -> Character, generated: seq<Character>, items: seq<Character>,
                              root: map<string, string>, edges: Edges, table: Index)
    requires ItemsAt(combine, generated, items, root, edges, table, root.Values) && UniqueIds(generated)
      && KeepsId(combine)
    requires root.Keys <= IdSet(generated)
    ensures UniqueIds(items) && RemovedIds(root, edges, table, root.Values) <= IdSet(items)
  {
    forall i | 0 <= i < |items| ensures items[i].id == generated[i].id {
      var c := generated[i];
      if c.id != "" { CombineAllKeepsId(combine, c, SortedListing(ClassOf(edges, c.id)), table); }
    }
    forall x | x in IdSet(generated) ensures x in IdSet(items) {
      var i :| 0 <= i < |generated| && generated[i].id != "" && generated[i].id == x;
      assert items[i].id == x;
    }
  }

  lemma NoEdges(generated: seq<Character>, proposals: seq<Proposal>, table: Index)
    requires Indexes(table, generated) && (proposals == [] || |generated| < 2)
    ensures EdgesOf(proposals, table.Keys) == {}
  {
    forall p | p in proposals ensures !Accepted(p, table.Keys) {
      if Accepted(p, table.Keys) { AcceptedNeedsTwo(generated, p); }
    }
  }

  lemma AcceptedNeedsTwo(generated: seq<Character>, p: Proposal)
    requires Accepted(p, IdSet(generated))
    ensures |generated| >= 2
  {
    var i :| 0 <= i < |generated| && generated[i].id != "" && generated[i].id == p.source;
    var j :| 0 <= j < |generated| && generated[j].id != "" && generated[j].id == p.target;
    assert i != j;
  }

  lemma {:induction false} ItemsWithoutEdges(combine: (Character, Character) -> Character, generated: seq<Character>,
                                             edges: Edges, table: Index)
    requires edges == {} && Indexes(table, generated) && NamedById(table) && KeepsId(combine)
    ensures Survivors(combine, generated, edges, table) == generated
  {
    var root: map<string, string> := map[];
    assert NamesClasses(root, edges);
    assert ItemsAt(combine, generated, generated, root, edges, table, root.Values);
    WithoutIsSurvivors(combine, generated, generated, root, edges, table);
    assert RemovedIds(root, edges, table, root.Values) == {};
    WithoutNone(generated);
  }
}
