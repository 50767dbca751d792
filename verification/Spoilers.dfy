/** What is shown at an episode boundary depends neither on later episodes nor on the order in which the merge map
    is walked, and exactly when (characters/profile_store.go, characters/event_store.go). */
module Spoilers {
  import opened Ordering
  import opened IdentityEvents
  import opened CharacterRecords
  import opened Quotient
  import opened RecordMerge
  import opened Projection

  // ----- when the walk order is irrelevant for what is shown -----

  predicate Hidden(r: Record, b: int) { !Within(r.firstAppearance, b) }

  /** Checkable on the input: of the records merged into this one all or none have a first appearance, or none
      appears by b. */
  ghost predicate SettledAt(table: Table, s: set<string>, b: int) {
    Uniform(table, s) || forall x | x in s && x in table :: Hidden(table[x], b)
  }

  ghost predicate Settled(table: Table, m: map<string, string>, b: int)
    requires Acyclic(m)
  {
    forall r | r in table && r !in m && Named(table[r]) :: SettledAt(table, Sources(table, m, r, m.Keys), b)
  }

  /** The same characters with the same views, whatever the order of either walk. */
  ghost predicate SameViewsAlways(now: Table, later: Table, m: map<string, string>, b: int)
    requires Acyclic(m)
  {
    forall o1, o2 | Listing(o1, m.Keys) && Listing(o2, m.Keys) ::
      ViewsAlong(now, m, b, o1) == ViewsAlong(later, m, b, o2)
  }

  lemma {:induction false} NamedStays(table: Table, m: map<string, string>, order: seq<string>, r: string)
    requires Acyclic(m) && r in MergeInOrder(table, m, Absorb, order)
    ensures r in table && Named(MergeInOrder(table, m, Absorb, order)[r]) == Named(table[r])
    ensures r in m ==> MergeInOrder(table, m, Absorb, order)[r] == table[r]
  {
    forall t, s ensures Named(Absorb(t, s)) == Named(t) { AbsorbedFirst(t, s); }
    WalkKeepsField(table, m, Absorb, order, Named, r);
  }

  /** Once a source without a first appearance was folded in, only later sources can give the target one. */
  lemma {:induction false} UnseenAfterMissing(table: Table, m: map<string, string>, order: seq<string>, r: string,
                                              missing: string, b: int)
    requires Acyclic(m) && Listing(order, m.Keys) && r in table && r !in m
    requires missing in Sources(table, m, r, m.Keys) && table[missing].firstAppearance == NO_EPISODE
    requires forall x | x in Sources(table, m, r, m.Keys) :: Hidden(table[x], b)
    ensures r in MergeInOrder(table, m, Absorb, order) && Hidden(MergeInOrder(table, m, Absorb, order)[r], b)
  {
    var hidden := (q: Record) => Hidden(q, b);
    forall t ensures hidden(Absorb(t, table[missing])) { AbsorbedFirst(t, table[missing]); }
    forall t, x | hidden(t) && x in Sources(table, m, r, m.Keys) ensures hidden(Absorb(t, table[x])) {
      AbsorbedFirst(t, table[x]);
    }
    StaysAfter(table, m, Absorb, order, r, missing, hidden);
  }

  /** In a settled table a surviving record looks the same after all walks, or is hidden after all. */
  lemma {:induction false} SettledLooksSame(table: Table, m: map<string, string>, b: int, o1: seq<string>,
                                            o2: seq<string>, r: string)
    requires Acyclic(m) && Settled(table, m, b) && Listing(o1, m.Keys) && Listing(o2, m.Keys)
    requires r in MergeInOrder(table, m, Absorb, o1) && r in MergeInOrder(table, m, Absorb, o2)
    ensures var x, y := MergeInOrder(table, m, Absorb, o1)[r], MergeInOrder(table, m, Absorb, o2)[r];
      x == y || (!Visible(x, b) && !Visible(y, b))
  {
    NamedStays(table, m, o1, r);
    NamedStays(table, m, o2, r);
    var s := Sources(table, m, r, m.Keys);
    if r !in m && Named(table[r]) {
      if Uniform(table, s) {
        UniformIsSwappable(table, s);
        FoldedAtRoot(table, m, Absorb, o1, r);
        FoldedAtRoot(table, m, Absorb, o2, r);
      } else {
        var missing :| missing in s && table[missing].firstAppearance == NO_EPISODE;
        UnseenAfterMissing(table, m, o1, r, missing, b);
        UnseenAfterMissing(table, m, o2, r, missing, b);
      }
    }
  }

  lemma SettledShowsSame(table: Table, m: map<string, string>, b: int, o1: seq<string>, o2: seq<string>)
    requires Acyclic(m) && Settled(table, m, b) && Listing(o1, m.Keys) && Listing(o2, m.Keys)
    ensures ViewsAlong(table, m, b, o1) == ViewsAlong(table, m, b, o2)
  {
    var x, y := MergeInOrder(table, m, Absorb, o1), MergeInOrder(table, m, Absorb, o2);
    SurvivorsExact(table, m, Absorb, o1);
    SurvivorsExact(table, m, Absorb, o2);
    var visible, project := (r: Record) => Visible(r, b), (r: Record) => Project(r, b);
    forall r | r in x ensures x[r] == y[r] || (!visible(x[r]) && !visible(y[r])) {
      SettledLooksSame(table, m, b, o1, o2, r);
    }
    SameOrHidden(x, y, visible, project);
  }

  lemma InViews(table: Table, b: int, r: string)
    ensures r in ViewsOf(table, b) <==> r in table && Visible(table[r], b)
  {
  }

  /** A walk that ends with a source shows or hides the character as the source does. */
  lemma WalkEndingWith(table: Table, m: map<string, string>, b: int, r: string, last: string)
    returns (order: seq<string>)
    requires Acyclic(m) && r in table && r !in m && Named(table[r]) && last in Sources(table, m, r, m.Keys)
    ensures Listing(order, m.Keys)
    ensures table[last].firstAppearance == NO_EPISODE ==> r !in ViewsAlong(table, m, b, order)
    ensures !Hidden(table[last], b) ==> r in ViewsAlong(table, m, b, order)
  {
    var target;
    order, target := EndingWith(table, m, r, last);
    AbsorbedFirst(target, table[last]);
    NamedStays(table, m, order, r);
    InViews(MergeInOrder(table, m, Absorb, order), b, r);
  }

  /** Unless a record is settled, two walks differ: one hides it, the other shows it. */
  lemma UnsettledDiffers(table: Table, m: map<string, string>, b: int, r: string)
    returns (o1: seq<string>, o2: seq<string>)
    requires Acyclic(m) && r in table && r !in m && Named(table[r])
    requires !SettledAt(table, Sources(table, m, r, m.Keys), b)
    ensures Listing(o1, m.Keys) && Listing(o2, m.Keys)
    ensures r !in ViewsAlong(table, m, b, o1) && r in ViewsAlong(table, m, b, o2)
  {
    var s := Sources(table, m, r, m.Keys);
    var missing :| missing in s && table[missing].firstAppearance == NO_EPISODE;
    var seen :| seen in s && !Hidden(table[seen], b);
    o1 := WalkEndingWith(table, m, b, r, missing);
    o2 := WalkEndingWith(table, m, b, r, seen);
  }

  /** No spoilers, exactly: what is shown at b depends neither on later episodes nor on the order in which either
      merge map is walked if and only if every record shown is settled by b. */
  lemma {:induction false} ViewDependsOnlyOnPast(now: Table, later: Table, events: seq<IdentityEvent>,
                                                 moreEvents: seq<IdentityEvent>,
                              b: int)
    requires Elems(UpTo(events, b)) == Elems(UpTo(moreEvents, b))
    requires Acyclic(MergedIntoAt(events, b)) && LaterState(now, later, MergedIntoAt(events, b), b)
    ensures MergedIntoAt(moreEvents, b) == MergedIntoAt(events, b)
    ensures SameViewsAlways(now, later, MergedIntoAt(events, b), b) <==> Settled(now, MergedIntoAt(events, b), b)
  {
    var m := MergedIntoAt(events, b);
    ListingExists(m.Keys);
    var any :| Listing(any, m.Keys);
    WalkDependsOnlyOnPast(now, later, events, moreEvents, b, any);
    if Settled(now, m, b) {
      forall o1, o2 | Listing(o1, m.Keys) && Listing(o2, m.Keys)
        ensures ViewsAlong(now, m, b, o1) == ViewsAlong(later, m, b, o2)
      {
        SettledShowsSame(now, m, b, o1, o2);
        WalkDependsOnlyOnPast(now, later, events, moreEvents, b, o2);
      }
    } else {
      var r :| r in now && r !in m && Named(now[r]) && !SettledAt(now, Sources(now, m, r, m.Keys), b);
      var o1, o2 := UnsettledDiffers(now, m, b, r);
      WalkDependsOnlyOnPast(now, later, events, moreEvents, b, o2);
      assert ViewsAlong(now, m, b, o1) != ViewsAlong(later, m, b, o2);
    }
  }

  lemma SettledSame(x: Table, y: Table, m: map<string, string>, b: int)
    requires Acyclic(m) && x.Keys == y.Keys
    requires forall r | r in x :: Named(x[r]) == Named(y[r]) && x[r].firstAppearance == y[r].firstAppearance
    ensures Settled(x, m, b) <==> Settled(y, m, b)
  {
    forall r ensures Sources(x, m, r, m.Keys) == Sources(y, m, r, m.Keys) {}
    forall r | r in x ensures SettledAt(x, Sources(x, m, r, m.Keys), b) <==> SettledAt(y, Sources(x, m, r, m.Keys), b) {
      UniformSame(x, y, Sources(x, m, r, m.Keys));
    }
  }

  lemma UniformSame(x: Table, y: Table, s: set<string>)
    requires x.Keys == y.Keys && forall r | r in x :: x[r].firstAppearance == y[r].firstAppearance
    ensures Uniform(x, s) <==> Uniform(y, s)
  {
  }

  lemma CutKeepsFirst(r: Record, b: int)
    ensures Named(CutRecord(r, b)) == Named(r) && CutRecord(r, b).firstAppearance == r.firstAppearance
  {
  }

  lemma CutStaysSettled(table: Table, m: map<string, string>, b: int)
    requires Acyclic(m)
    ensures Settled(CutTable(table, b), m, b) <==> Settled(table, m, b)
  {
    var cut := CutTable(table, b);
    forall r | r in table ensures Named(cut[r]) == Named(table[r])
      && cut[r].firstAppearance == table[r].firstAppearance
    {
      CutKeepsFirst(table[r], b);
    }
    SettledSame(cut, table, m, b);
  }

  lemma {:induction false} UpToTwice(events: seq<IdentityEvent>, b: int)
    ensures Elems(UpTo(UpTo(events, b), b)) == Elems(UpTo(events, b))
  {
    UpToMembers(events, b);
    UpToMembers(UpTo(events, b), b);
  }

  /** Projecting the merged records at b is projecting the merged records cut to episode b, with only the
      identity events effective by b, for all walk orders of both if and only if the records are settled by b. */
  lemma {:induction false} ProjectionCommutesWithCut(table: Table, events: seq<IdentityEvent>, b: int)
    requires Acyclic(MergedIntoAt(events, b))
    ensures MergedIntoAt(UpTo(events, b), b) == MergedIntoAt(events, b)
    ensures SameViewsAlways(CutTable(table, b), table, MergedIntoAt(events, b), b)
      <==> Settled(table, MergedIntoAt(events, b), b)
  {
    var cut, m := CutTable(table, b), MergedIntoAt(events, b);
    UpToTwice(events, b);
    CutTableIsEarlierState(table, m, b);
    CutStaysSettled(table, m, b);
    ViewDependsOnlyOnPast(cut, table, events, UpTo(events, b), b);
  }

  /** The records of MissingFirstExample at episode 5: the character is shown or not, as the map is walked. */
  lemma MissingFirstHides(table: Table, m: map<string, string>)
    requires table == map["r" := BareRecord("r", 1), "a" := BareRecord("a", NO_EPISODE), "b" := BareRecord("b", 2)]
    requires m == map["a" := "r", "b" := "r"]
    ensures Acyclic(m) && Listing(["a", "b"], m.Keys) && Listing(["b", "a"], m.Keys)
    ensures "r" in ViewsAlong(table, m, 5, ["a", "b"]) && "r" !in ViewsAlong(table, m, 5, ["b", "a"])
  {
    MissingFirstExample(table, m);
    NamedStays(table, m, ["a", "b"], "r");
  }
}
