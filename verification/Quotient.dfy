/** Folding the entries of a table into the roots of an acyclic merge map, one map key after another, for any
    way of merging two entries. The order in which the keys are walked is a parameter. */
module Quotient {
  import opened Ordering
  import opened IdentityEvents

  /** One iteration of the loop over the merge map. */
  ghost function Step<R>(table: map<string, R>, m: map<string, string>, merge: (R, R) -> R, source: string): map<string,
                         R>
    requires Acyclic(m)
  {
    var target := RootOf(m, source);
    if target != source && source in table && target in table
    then table[target := merge(table[target], table[source])] - {source}
    else table
  }

  ghost function MergeInOrder<R>(table: map<string, R>, m: map<string, string>, merge: (R, R) -> R,
                                 order: seq<string>): map<string, R>
    requires Acyclic(m)
  {
    if order == [] then table
    else Step(MergeInOrder(table, m, merge, order[..|order| - 1]), m, merge, order[|order| - 1])
  }

  /** A possible iteration order of a map with keys s. */
  ghost predicate Listing(order: seq<string>, s: set<string>) { NoDup(order) && Elems(order) == s }

  ghost predicate OrderIrrelevant<R>(table: map<string, R>, m: map<string, string>, merge: (R, R) -> R)
    requires Acyclic(m)
  {
    forall o1, o2 | Listing(o1, m.Keys) && Listing(o2, m.Keys) ::
      MergeInOrder(table, m, merge, o1) == MergeInOrder(table, m, merge, o2)
  }

  /** The entries among `p` that are merged into r. */
  ghost function Sources<R>(table: map<string, R>, m: map<string, string>, r: string, p: set<string>): set<string>
    requires Acyclic(m)
  {
    set s | s in p && s in table && s != r && RootOf(m, s) == r
  }

  /** Any two entries of s may be merged in either order. */
  ghost predicate Swappable<R(!new)>(table: map<string, R>, merge: (R, R) -> R, s: set<string>) {
    forall a, b, t | a in s && b in s && a in table && b in table ::
      merge(merge(t, table[a]), table[b]) == merge(merge(t, table[b]), table[a])
  }

  ghost function FoldAll<R>(table: map<string, R>, merge: (R, R) -> R, target: R, s: set<string>): R
    requires s <= table.Keys
  {
    if s == {} then target
    else
      var x :| x in s;
      merge(FoldAll(table, merge, target, s - {x}), table[x])
  }

  /** Any member may be taken as the last one folded in. */
  lemma {:induction false} FoldAllPicksAny<R(!new)>(table: map<string, R>, merge: (R, R) -> R, target: R,
                                             s: set<string>, x: string)
    requires s <= table.Keys && x in s && Swappable(table, merge, s)
    ensures FoldAll(table, merge, target, s) == merge(FoldAll(table, merge, target, s - {x}), table[x])
    decreases s
  {
    var y :| y in s && FoldAll(table, merge, target, s) == merge(FoldAll(table, merge, target, s - {y}), table[y]);
    if x != y {
      FoldAllPicksAny(table, merge, target, s - {y}, x);
      FoldAllPicksAny(table, merge, target, s - {x}, y);
      assert s - {y} - {x} == s - {x} - {y};
    }
  }

  /** Whether an id is still listed after the ids `p` were processed. */
  ghost predicate Survives<R>(table: map<string, R>, m: map<string, string>, r: string, p: set<string>)
    requires Acyclic(m)
  {
    r in table && !(r in p && RootOf(m, r) in table)
  }

  /** What the loop computes, without an order: every root with all its sources folded in. */
  ghost function MergedTable<R>(table: map<string, R>, m: map<string, string>, merge: (R, R) -> R,
                                p: set<string>): map<string, R>
    requires Acyclic(m)
  {
    map r | r in table && Survives(table, m, r, p) :: FoldAll(table, merge, table[r], Sources(table, m, r, p))
  }

  ghost predicate AllSwappable<R(!new)>(table: map<string, R>, m: map<string, string>, merge: (R, R) -> R)
    requires Acyclic(m)
  {
    forall r | r in table && r !in m :: Swappable(table, merge, Sources(table, m, r, m.Keys))
  }

  /** What one more processed id s changes in the sources of r. */
  lemma SourcesStep<R>(table: map<string, R>, m: map<string, string>, r: string, p: set<string>, s: string)
    requires Acyclic(m) && p <= m.Keys && s in m && s !in p
    ensures s in table && r == RootOf(m, s)
      ==> s !in Sources(table, m, r, p) && Sources(table, m, r, p + {s}) == Sources(table, m, r, p) + {s}
    ensures !(s in table && r == RootOf(m, s)) ==> Sources(table, m, r, p + {s}) == Sources(table, m, r, p)
    ensures r in m ==> Sources(table, m, r, p) == {}
  {
  }

  lemma MergedTableStep<R(!new)>(table: map<string, R>, m: map<string, string>, merge: (R, R) -> R, p: set<string>,
                          s: string)
    requires Acyclic(m) && p <= m.Keys && s in m && s !in p && AllSwappable(table, m, merge)
    ensures Step(MergedTable(table, m, merge, p), m, merge, s) == MergedTable(table, m, merge, p + {s})
  {
    var t := RootOf(m, s);
    var before, after := MergedTable(table, m, merge, p), MergedTable(table, m, merge, p + {s});
    SourcesStep(table, m, s, p, s);
    assert s in table ==> s in before && before[s] == table[s];
    assert t in before <==> t in table;
    if s in table && t in table {
      SourcesStep(table, m, t, p, s);
      var all := Sources(table, m, t, p + {s});
      assert all - {s} == Sources(table, m, t, p);
      assert all <= Sources(table, m, t, m.Keys);
      FoldAllPicksAny(table, merge, table[t], all, s);
      assert after[t] == merge(before[t], table[s]);
    }
    var stepped := Step(before, m, merge, s);
    forall r ensures r in stepped <==> r in after {}
    forall r | r in after && r != t ensures stepped[r] == after[r] {
      SourcesStep(table, m, r, p, s);
    }
    if t in after && s !in table { SourcesStep(table, m, t, p, s); }
  }

  lemma {:induction false} MergeInOrderIsMergedTable<R(!new)>(table: map<string, R>, m: map<string, string>,
                                                       merge: (R, R) -> R, order: seq<string>)
    requires Acyclic(m) && NoDup(order) && Elems(order) <= m.Keys && AllSwappable(table, m, merge)
    ensures MergeInOrder(table, m, merge, order) == MergedTable(table, m, merge, Elems(order))
  {
    if order == [] {
      assert forall r | r in table :: Sources(table, m, r, {}) == {};
    } else {
      var prefix, s := order[..|order| - 1], order[|order| - 1];
      SnocElems(order);
      MergeInOrderIsMergedTable(table, m, merge, prefix);
      MergedTableStep(table, m, merge, Elems(prefix), s);
    }
  }

  /** If sources commute, the walk order is irrelevant. */
  lemma SwappableOrderIrrelevant<R(!new)>(table: map<string, R>, m: map<string, string>, merge: (R, R) -> R)
    requires Acyclic(m) && AllSwappable(table, m, merge)
    ensures OrderIrrelevant(table, m, merge)
  {
    forall o1, o2 | Listing(o1, m.Keys) && Listing(o2, m.Keys)
      ensures MergeInOrder(table, m, merge, o1) == MergeInOrder(table, m, merge, o2)
    {
      MergeInOrderIsMergedTable(table, m, merge, o1);
      MergeInOrderIsMergedTable(table, m, merge, o2);
    }
  }

  /** Where only the sources of one root r may be swapped, the entry of r at least does not depend on the order. */
  lemma {:induction false} FoldedAtRoot<R(!new)>(table: map<string, R>, m: map<string, string>, merge: (R, R) -> R,
                                          order: seq<string>, r: string)
    requires Acyclic(m) && NoDup(order) && Elems(order) <= m.Keys
    requires r in table && r !in m && Swappable(table, merge, Sources(table, m, r, m.Keys))
    ensures r in MergeInOrder(table, m, merge, order)
    ensures MergeInOrder(table, m, merge, order)[r]
      == FoldAll(table, merge, table[r], Sources(table, m, r, Elems(order)))
  {
    if order == [] {
      assert Sources(table, m, r, Elems(order)) == {};
    } else {
      var prefix, s := order[..|order| - 1], order[|order| - 1];
      SnocElems(order);
      FoldedAtRoot(table, m, merge, prefix, r);
      SourcesStep(table, m, r, Elems(prefix), s);
      SurvivorsExact(table, m, merge, prefix);
      if s in table && RootOf(m, s) == r {
        UnprocessedStays(table, m, merge, prefix, s);
        var all := Sources(table, m, r, Elems(order));
        assert all <= Sources(table, m, r, m.Keys);
        FoldAllPicksAny(table, merge, table[r], all, s);
        assert all - {s} == Sources(table, m, r, Elems(prefix));
      }
    }
  }

  /** What merging never changes in the target, no walk changes; and a key of the map keeps its whole entry. */
  lemma {:induction false} WalkKeepsField<R(!new),
                                            K>(table: map<string, R>, m: map<string, string>, merge: (R, R) -> R,
                                            order: seq<string>, field: R -> K, r: string)
    requires Acyclic(m) && r in MergeInOrder(table, m, merge, order)
    requires forall t, s :: field(merge(t, s)) == field(t)
    ensures r in table && field(MergeInOrder(table, m, merge, order)[r]) == field(table[r])
    ensures r in m ==> MergeInOrder(table, m, merge, order)[r] == table[r]
  {
    if order != [] { WalkKeepsField(table, m, merge, order[..|order| - 1], field, r); }
  }

  /** A property of r's entry that folding in the source x establishes and folding in any source keeps. */
  lemma {:induction false} StaysAfter<R(!new)>(table: map<string, R>, m: map<string, string>, merge: (R, R) -> R,
                                        order: seq<string>, r: string, x: string, p: R -> bool)
    requires Acyclic(m) && NoDup(order) && Elems(order) <= m.Keys && r in table && r !in m
    requires x in Sources(table, m, r, Elems(order)) && forall t :: p(merge(t, table[x]))
    requires forall t, s | p(t) && s in Sources(table, m, r, m.Keys) :: p(merge(t, table[s]))
    ensures r in MergeInOrder(table, m, merge, order) && p(MergeInOrder(table, m, merge, order)[r])
  {
    ElemsEmpty(order);
    var prefix, s := order[..|order| - 1], order[|order| - 1];
    SnocElems(order);
    assert s in Elems(order);
    assert prefix + [s] == order;
    assert r in prefix <==> r in Elems(prefix);
    assert s in prefix <==> s in Elems(prefix);
    UnprocessedStays(table, m, merge, prefix, r);
    if x != s { StaysAfter(table, m, merge, prefix, r, x, p); }
    if s in Sources(table, m, r, m.Keys) {
      LastFoldedIn(table, m, merge, prefix, r, s);
    } else {
      SurvivorsExact(table, m, merge, prefix);
    }
  }

  // ----- listings -----

  lemma SnocElems(order: seq<string>)
    requires order != []
    ensures Elems(order) == Elems(order[..|order| - 1]) + {order[|order| - 1]}
    ensures NoDup(order) ==> NoDup(order[..|order| - 1]) && order[|order| - 1] !in Elems(order[..|order| - 1])
  {
    var prefix, s := order[..|order| - 1], order[|order| - 1];
    assert order == prefix + [s];
  }

  lemma {:induction false} ListingExists(s: set<string>)
    ensures exists order :: Listing(order, s)
  {
    if s == {} {
      assert Listing([], s);
    } else {
      var x :| x in s;
      ListingExists(s - {x});
      var o :| Listing(o, s - {x});
      ListingSnoc(o, s - {x}, x);
      assert s - {x} + {x} == s;
    }
  }

  lemma ListingSnoc(o: seq<string>, s: set<string>, x: string)
    requires Listing(o, s) && x !in s
    ensures Listing(o + [x], s + {x})
  {
    assert forall i | 0 <= i < |o| :: o[i] in Elems(o);
    assert Elems(o + [x]) == Elems(o) + {x};
  }

  /** A walk order that ends with a given key. */
  lemma ListingEndingWith(s: set<string>, last: string) returns (o: seq<string>)
    requires last in s
    ensures Listing(o + [last], s) && last !in o
  {
    ListingExists(s - {last});
    o :| Listing(o, s - {last});
    ListingSnoc(o, s - {last}, last);
    assert s - {last} + {last} == s;
    assert last !in Elems(o);
  }

  // ----- what every walk order keeps -----

  /** Ids not yet processed are still there, and those that will be merged away are untouched. */
  lemma {:induction false} UnprocessedStays<R>(table: map<string, R>, m: map<string, string>, merge: (R, R) -> R,
                                               order: seq<string>, x: string)
    requires Acyclic(m) && x in table && x !in order
    ensures x in MergeInOrder(table, m, merge, order)
    ensures x in m ==> MergeInOrder(table, m, merge, order)[x] == table[x]
  {
    if order != [] { UnprocessedStays(table, m, merge, order[..|order| - 1], x); }
  }

  lemma {:induction false} MergeInOrderSnoc<R>(table: map<string, R>, m: map<string, string>, merge: (R, R) -> R,
                                               order: seq<string>,
                            x: string)
    requires Acyclic(m)
    ensures MergeInOrder(table, m, merge, order + [x]) == Step(MergeInOrder(table, m, merge, order), m, merge, x)
  {
    assert (order + [x])[..|order|] == order;
  }

  /** The source walked last is the last one folded into its root. */
  lemma {:induction false} LastFoldedIn<R>(table: map<string, R>, m: map<string, string>, merge: (R, R) -> R,
                                           order: seq<string>,
                        r: string, last: string)
    requires Acyclic(m) && r in table && last in Sources(table, m, r, m.Keys) && r !in order && last !in order
    ensures r in MergeInOrder(table, m, merge, order) && r in MergeInOrder(table, m, merge, order + [last])
    ensures MergeInOrder(table, m, merge, order + [last])[r]
         == merge(MergeInOrder(table, m, merge, order)[r], table[last])
  {
    UnprocessedStays(table, m, merge, order, last);
    UnprocessedStays(table, m, merge, order, r);
    MergeInOrderSnoc(table, m, merge, order, last);
  }

  /** A property of entries that merging combines, after two sources were walked. */
  lemma {:induction false} TwoWalks<R(!new),
                   K>(table: map<string, R>, m: map<string, string>, merge: (R, R) -> R, r: string, a: string,
                   b: string,
                             property: R -> K, combine: (K, K) -> K)
    requires Acyclic(m) && m.Keys == {a, b} && a != b && r in table && {a, b} <= Sources(table, m, r, m.Keys)
    requires forall t, s :: property(merge(t, s)) == combine(property(t), property(s))
    ensures Listing([a, b], m.Keys) && r in MergeInOrder(table, m, merge, [a, b])
    ensures property(MergeInOrder(table, m, merge, [a, b])[r])
         == combine(combine(property(table[r]), property(table[a])), property(table[b]))
  {
    assert Elems([a, b]) == m.Keys;
    assert a in Sources(table, m, r, m.Keys) && b in Sources(table, m, r, m.Keys);
    assert r !in [] && a !in [] && r !in [a] && b !in [a];
    assert [] + [a] == [a] && [a] + [b] == [a, b];
    LastFoldedIn(table, m, merge, [], r, a);
    LastFoldedIn(table, m, merge, [a], r, b);
  }

  /** Exactly the entries whose root is present disappear. */
  lemma {:induction false} SurvivorsExact<R>(table: map<string, R>, m: map<string, string>, merge: (R, R) -> R,
                                             order: seq<string>)
    requires Acyclic(m) && NoDup(order) && Elems(order) <= m.Keys
    ensures MergeInOrder(table, m, merge, order).Keys == set r | r in table && Survives(table, m, r, Elems(order))
  {
    if order != [] {
      SnocElems(order);
      SurvivorsExact(table, m, merge, order[..|order| - 1]);
    }
  }

  /** The weights of all entries together. */
  ghost function Total<R, K>(table: map<string, R>, weight: R -> multiset<K>): multiset<K>
    decreases table.Keys
  {
    if table == map[] then multiset{}
    else
      var x :| x in table;
      weight(table[x]) + Total(table - {x}, weight)
  }

  lemma {:induction false} TotalPicksAny<R, K>(table: map<string, R>, weight: R -> multiset<K>, x: string)
    requires x in table
    ensures Total(table, weight) == weight(table[x]) + Total(table - {x}, weight)
    decreases table.Keys
  {
    var y :| y in table && Total(table, weight) == weight(table[y]) + Total(table - {y}, weight);
    if x != y {
      TotalPicksAny(table - {y}, weight, x);
      TotalPicksAny(table - {x}, weight, y);
      assert table - {y} - {x} == table - {x} - {y};
    }
  }

  lemma {:induction false} StepConserves<R,
K>(table: map<string, R>, weight: R -> multiset<K>, s: string, t: string, merged: R)
    requires s in table && t in table && s != t
    requires weight(merged) == weight(table[t]) + weight(table[s])
    ensures Total(table[t := merged] - {s}, weight) == Total(table, weight)
  {
    var after := table[t := merged] - {s};
    TotalPicksAny(table, weight, s);
    TotalPicksAny(table - {s}, weight, t);
    TotalPicksAny(after, weight, t);
    assert after - {t} == table - {s} - {t};
  }

  /** If merging two entries adds their weights, no walk order loses or invents any. */
  lemma {:induction false} MergeConserves<R(!new),
                                            K>(table: map<string, R>, m: map<string, string>, merge: (R, R) -> R,
                                            order: seq<string>, weight: R -> multiset<K>)
    requires Acyclic(m)
    requires forall t, s :: weight(merge(t, s)) == weight(t) + weight(s)
    ensures Total(MergeInOrder(table, m, merge, order), weight) == Total(table, weight)
  {
    if order != [] {
      var before, s := MergeInOrder(table, m, merge, order[..|order| - 1]), order[|order| - 1];
      MergeConserves(table, m, merge, order[..|order| - 1], weight);
      var t := RootOf(m, s);
      if t != s && s in before && t in before {
        StepConserves(before, weight, s, t, merge(before[t], before[s]));
      }
    }
  }

  /** If merging two entries unites what they hold, a survivor holds exactly what it and its sources held. */
  lemma {:induction false} MergeGathers<R(!new),
                                          K>(table: map<string, R>, m: map<string, string>, merge: (R, R) -> R,
                                          order: seq<string>, held: R -> set<K>, r: string)
    requires Acyclic(m) && NoDup(order) && Elems(order) <= m.Keys && r in MergeInOrder(table, m, merge, order)
    requires forall t, s :: held(merge(t, s)) == held(t) + held(s)
    ensures r in table
    ensures held(MergeInOrder(table, m, merge, order)[r])
         == held(table[r]) + set x, k | x in Sources(table, m, r, Elems(order)) && k in held(table[x]) :: k
  {
    var gathered := set x, k | x in Sources(table, m, r, Elems(order)) && k in held(table[x]) :: k;
    if order == [] {
      assert gathered == {};
    } else {
      var prefix, s := order[..|order| - 1], order[|order| - 1];
      var before := MergeInOrder(table, m, merge, prefix);
      SnocElems(order);
      assert s in Elems(order);
      MergeGathers(table, m, merge, prefix, held, r);
      if s in table { UnprocessedStays(table, m, merge, prefix, s); }
      SurvivorsExact(table, m, merge, prefix);
      var earlier := Sources(table, m, r, Elems(prefix));
      if s in table && s != r && RootOf(m, s) == r {
        assert Sources(table, m, r, Elems(order)) == earlier + {s};
        assert gathered == (set x, k | x in earlier && k in held(table[x]) :: k) + held(table[s]);
      } else {
        assert Sources(table, m, r, Elems(order)) == earlier;
      }
    }
  }

  // ----- two tables walked side by side -----

  /** Every entry of `a` is related to the entry of `b` under the same id, and the further entries of `b`
      take no part in any merge of m. */
  ghost predicate Simulates<R>(a: map<string, R>, b: map<string, R>, m: map<string, string>, related: (R, R) -> bool)
    requires Acyclic(m)
  {
    && a.Keys <= b.Keys
    && (forall x | x in a :: related(a[x], b[x]))
    && (forall x | x in b && x !in a :: x !in m && forall s | s in m :: RootOf(m, s) != x)
  }

  /** If merging keeps entries related, whole walks do; the entries only in `b` stay as they are. */
  lemma {:induction false} WalksStayRelated<R(!new)>(a: map<string, R>, b: map<string, R>, m: map<string, string>,
                                              merge: (R, R) -> R, related: (R, R) -> bool, order: seq<string>)
    requires Acyclic(m) && Simulates(a, b, m, related) && Elems(order) <= m.Keys
    requires forall t, u, s, v :: related(t, u) && related(s, v) ==> related(merge(t, s), merge(u, v))
    ensures Simulates(MergeInOrder(a, m, merge, order), MergeInOrder(b, m, merge, order), m, related)
    ensures forall x | x in MergeInOrder(b, m, merge, order) && x !in MergeInOrder(a, m, merge, order) ::
      x in b && x !in a && MergeInOrder(b, m, merge, order)[x] == b[x]
  {
    if order != [] {
      SnocElems(order);
      WalksStayRelated(a, b, m, merge, related, order[..|order| - 1]);
      assert order[|order| - 1] in Elems(order);
    }
  }

  /** The visible entries of a table, projected. */
  function ShownBy<R, V>(table: map<string, R>, visible: R -> bool, project: R -> V): map<string, V> {
    map r | r in table && visible(table[r]) :: project(table[r])
  }

  lemma SameShown<R, V>(a: map<string, R>, b: map<string, R>, visible: R -> bool, project: R -> V)
    requires a.Keys <= b.Keys
    requires forall r | r in a :: visible(a[r]) == visible(b[r]) && project(a[r]) == project(b[r])
    requires forall r | r in b && r !in a :: !visible(b[r])
    ensures ShownBy(a, visible, project) == ShownBy(b, visible, project)
  {
    forall r ensures r in ShownBy(a, visible, project) <==> r in ShownBy(b, visible, project) {}
  }

  /** The entries of these ids that are shown. */
  ghost function ShownPairs<R,
V>(ids: set<string>, table: map<string, R>, visible: R -> bool, project: R -> V): set<(string, V)>
  {
    set id | id in ids && id in table && visible(table[id]) :: (id, project(table[id]))
  }

  ghost function Entries<V>(shown: map<string, V>): set<(string, V)> { set id | id in shown :: (id, shown[id]) }

  lemma ShownPairsSnoc<R, V>(ids: set<string>, last: string, table: map<string, R>, visible: R -> bool, project: R -> V)
    requires last !in ids
    ensures ShownPairs(ids + {last}, table, visible, project) ==
      ShownPairs(ids, table, visible, project) + if last in table && visible(table[last])
        then {(last, project(table[last]))} else {}
    ensures last in table ==> (last, project(table[last])) !in ShownPairs(ids, table, visible, project)
  {
  }

  lemma ShownPairsOfAll<R, V>(ids: set<string>, table: map<string, R>, visible: R -> bool, project: R -> V)
    requires table.Keys <= ids
    ensures ShownPairs(ids, table, visible, project) == Entries(ShownBy(table, visible, project))
  {
    var shown := ShownBy(table, visible, project);
    forall id ensures id in ids && id in table && visible(table[id]) <==> id in shown {}
  }

  lemma SameOrHidden<R, V>(a: map<string, R>, b: map<string, R>, visible: R -> bool, project: R -> V)
    requires a.Keys == b.Keys
    requires forall r | r in a :: a[r] == b[r] || (!visible(a[r]) && !visible(b[r]))
    ensures ShownBy(a, visible, project) == ShownBy(b, visible, project)
  {
    forall r ensures r in ShownBy(a, visible, project) <==> r in ShownBy(b, visible, project) {}
  }

  // ----- the code -----

  /** The loop over the merge map: `order` is the order the map happened to be walked in. */
  method FoldSources<R>(table: map<string, R>, m: map<string, string>, merge: (R, R) -> R)
    returns (byId: map<string, R>, ghost order: seq<string>)
    requires Acyclic(m) && NamesNonEmpty(m)
    ensures Listing(order, m.Keys) && byId == MergeInOrder(table, m, merge, order)
  {
    byId := table;
    var remaining := m.Keys;
    order := [];
    while remaining != {}
      invariant remaining <= m.Keys
      invariant Listing(order, m.Keys - remaining)
      invariant byId == MergeInOrder(table, m, merge, order)
    {
      var source :| source in remaining;
      ListingSnoc(order, m.Keys - remaining, source);
      assert m.Keys - remaining + {source} == m.Keys - (remaining - {source});
      remaining := remaining - {source};
      assert (order + [source])[..|order|] == order;
      order := order + [source];
      var target := ResolveTarget(m, source);
      if target != source && source in byId && target in byId {
        byId := byId[target := merge(byId[target], byId[source])] - {source};
      }
    }
    assert m.Keys - {} == m.Keys;
  }
}
