/** Dated "A is B" events and their greedy cycle-free normalisation (characters/event_store.go). */
module IdentityEvents {
  import opened Ordering

  datatype IdentityEvent = IdentityEvent(source: string, target: string, episode: Episode)

  // ----- the merge graph: each merged id points at the id it was merged into -----

  ghost predicate ReachesIn(m: map<string, string>, x: string, y: string, n: nat)
    decreases n
  {
    x == y || (n > 0 && x in m && ReachesIn(m, m[x], y, n - 1))
  }

  /** Following the merge edges from x leads to y. */
  ghost predicate Reaches(m: map<string, string>, x: string, y: string) {
    exists n: nat :: ReachesIn(m, x, y, n)
  }

  ghost predicate Acyclic(m: map<string, string>) {
    forall x | x in m :: !Reaches(m, m[x], x)
  }

  ghost predicate ResolvesToRoot(m: map<string, string>, x: string) {
    exists root :: root !in m && Reaches(m, x, root)
  }

  lemma ReachesHere(m: map<string, string>, x: string)
    ensures Reaches(m, x, x)
  {
    assert ReachesIn(m, x, x, 0);
  }

  /** Away from the goal, reaching it is the same as reaching it from the next id. */
  lemma ReachesNext(m: map<string, string>, x: string, y: string)
    requires x in m && x != y
    ensures Reaches(m, x, y) <==> Reaches(m, m[x], y)
  {
    if Reaches(m, x, y) {
      var n: nat :| ReachesIn(m, x, y, n);
      assert ReachesIn(m, m[x], y, n - 1);
    }
    if Reaches(m, m[x], y) {
      var n: nat :| ReachesIn(m, m[x], y, n);
      assert ReachesIn(m, x, y, n + 1);
    }
  }

  lemma {:induction false} ReachesTrans(m: map<string, string>, x: string, y: string, z: string, n: nat)
    requires ReachesIn(m, x, y, n) && Reaches(m, y, z)
    ensures Reaches(m, x, z)
    decreases n
  {
    if x != y {
      ReachesTrans(m, m[x], y, z, n - 1);
      if x == z { ReachesHere(m, x); } else { ReachesNext(m, x, z); }
    }
  }

  /** From an id that does not lead to s, the edge out of s does not matter. */
  lemma {:induction false} EdgeOffThePath(m: map<string, string>, s: string, t: string, x: string, y: string, n: nat)
    requires !Reaches(m, x, s) && ReachesIn(m[s := t], x, y, n)
    ensures Reaches(m, x, y)
    decreases n
  {
    if x == y {
      ReachesHere(m, x);
    } else {
      if x == s { ReachesHere(m, s); }
      ReachesNext(m, x, s);
      EdgeOffThePath(m, s, t, m[x], y, n - 1);
      ReachesNext(m, x, y);
    }
  }

  /** A path after adding s -> t is an old path, or an old path to s followed by an old path from t. */
  lemma {:induction false} PathThroughEdge(m: map<string, string>, s: string, t: string, x: string, y: string, n: nat)
    requires !Reaches(m, t, s) && ReachesIn(m[s := t], x, y, n)
    ensures Reaches(m, x, y) || (Reaches(m, x, s) && Reaches(m, t, y))
    decreases n
  {
    if x == y {
      ReachesHere(m, x);
    } else if x == s {
      ReachesHere(m, s);
      EdgeOffThePath(m, s, t, t, y, n - 1);
    } else {
      PathThroughEdge(m, s, t, m[x], y, n - 1);
      ReachesNext(m, x, y);
      ReachesNext(m, x, s);
    }
  }

  lemma AddingEdgeKeepsAcyclic(m: map<string, string>, s: string, t: string)
    requires Acyclic(m) && !Reaches(m, t, s)
    ensures Acyclic(m[s := t])
  {
    var m' := m[s := t];
    forall x | x in m' ensures !Reaches(m', m'[x], x) {
      if Reaches(m', m'[x], x) {
        var n: nat :| ReachesIn(m', m'[x], x, n);
        PathThroughEdge(m, s, t, m'[x], x, n);
        if x != s && !Reaches(m, m[x], x) {
          ReachesNext(m, x, s);
          var k: nat :| ReachesIn(m, t, x, k);
          ReachesTrans(m, t, x, s, k);
        }
        assert false;
      }
    }
  }

  /** Every id of an acyclic graph leads to an id that was merged into nothing. */
  lemma {:induction false} RootExists(m: map<string, string>, x: string, seen: set<string>)
    requires Acyclic(m) && seen <= m.Keys
    requires forall y | y in seen :: Reaches(m, m[y], x)
    ensures exists root :: root !in m && Reaches(m, x, root)
    decreases m.Keys - seen
  {
    if x !in m {
      ReachesHere(m, x);
    } else {
      forall y | y in seen + {x} ensures Reaches(m, m[y], m[x]) {
        ReachesHere(m, m[x]);
        if y in seen {
          var n: nat :| ReachesIn(m, m[y], x, n);
          assert ReachesIn(m, x, m[x], 1);
          ReachesTrans(m, m[y], x, m[x], n);
        }
      }
      RootExists(m, m[x], seen + {x});
      var root :| root !in m && Reaches(m, m[x], root);
      ReachesNext(m, x, root);
    }
  }

  lemma {:induction false} RootIsUniqueIn(m: map<string, string>, x: string, a: string, b: string, n: nat, k: nat)
    requires a !in m && b !in m && ReachesIn(m, x, a, n) && ReachesIn(m, x, b, k)
    ensures a == b
    decreases n
  {
    if x in m { RootIsUniqueIn(m, m[x], a, b, n - 1, k - 1); }
  }

  lemma RootIsUnique(m: map<string, string>, x: string, a: string, b: string)
    requires a !in m && b !in m && Reaches(m, x, a) && Reaches(m, x, b)
    ensures a == b
  {
    var n: nat :| ReachesIn(m, x, a, n);
    var k: nat :| ReachesIn(m, x, b, k);
    RootIsUniqueIn(m, x, a, b, n, k);
  }

  ghost function RootOf(m: map<string, string>, x: string): (root: string)
    requires Acyclic(m)
    ensures root !in m && Reaches(m, x, root)
  {
    RootExists(m, x, {});
    var root :| root !in m && Reaches(m, x, root);
    root
  }

  // ----- normalisation -----

  predicate WellFormed(e: IdentityEvent) {
    e.source != "" && e.target != "" && e.source != e.target && e.episode != NO_EPISODE
  }

  predicate EventLess(a: IdentityEvent, b: IdentityEvent) {
    a.episode < b.episode ||
    (a.episode == b.episode &&
     (StringLess(a.source, b.source) || (a.source == b.source && StringLess(a.target, b.target))))
  }

  lemma EventOrder(s: set<IdentityEvent>)
    ensures Orders(EventLess, s)
  {
    var ids := (set e | e in s :: e.source) + (set e | e in s :: e.target);
    StringOrder(ids);
    forall x | x in s ensures x.source in ids && x.target in ids {}
  }

  /** The distinct well-formed events, by episode, then source, then target. */
  function Candidates(values: seq<IdentityEvent>): seq<IdentityEvent> {
    Canonical(values, WellFormed, EventLess)
  }

  function MergeMap(events: seq<IdentityEvent>): map<string, string> {
    if events == [] then map[]
    else MergeMap(events[..|events| - 1])[events[|events| - 1].source := events[|events| - 1].target]
  }

  /** Keep an event unless its target already leads back to its source. */
  ghost function Accepted(c: seq<IdentityEvent>): seq<IdentityEvent> {
    if c == [] then []
    else
      var prev, last := Accepted(c[..|c| - 1]), c[|c| - 1];
      if Reaches(MergeMap(prev), last.target, last.source) then prev else prev + [last]
  }

  ghost function Normalized(values: seq<IdentityEvent>): seq<IdentityEvent> {
    Accepted(Candidates(values))
  }

  /** The events effective at episode b or before. */
  function UpTo(values: seq<IdentityEvent>, b: int): seq<IdentityEvent> {
    if values == [] then []
    else
      var prev, last := UpTo(values[..|values| - 1], b), values[|values| - 1];
      if last.episode <= b then prev + [last] else prev
  }

  /** The source-to-latest-target map in force at boundary b. */
  ghost function MergedIntoAt(values: seq<IdentityEvent>, b: int): map<string, string> {
    MergeMap(UpTo(Normalized(values), b))
  }

  lemma {:induction false} AcceptedAcyclic(c: seq<IdentityEvent>)
    ensures Acyclic(MergeMap(Accepted(c)))
  {
    if c != [] {
      var prev, last := Accepted(c[..|c| - 1]), c[|c| - 1];
      AcceptedAcyclic(c[..|c| - 1]);
      if !Reaches(MergeMap(prev), last.target, last.source) {
        assert (prev + [last])[..|prev|] == prev;
        AddingEdgeKeepsAcyclic(MergeMap(prev), last.source, last.target);
      }
    }
  }

  lemma {:induction false} AcceptedElems(c: seq<IdentityEvent>)
    ensures Elems(Accepted(c)) <= Elems(c)
  {
    if c != [] {
      var p, last := c[..|c| - 1], c[|c| - 1];
      AcceptedElems(p);
      assert c == p + [last];
      assert Elems(c) == Elems(p) + {last} && Elems(Accepted(p) + [last]) == Elems(Accepted(p)) + {last};
    }
  }

  lemma SnocSorted(a: seq<IdentityEvent>, c: seq<IdentityEvent>)
    requires c != [] && StrictlySorted(c, EventLess) && StrictlySorted(a, EventLess) && Elems(a) <= Elems(c[..|c| - 1])
    ensures StrictlySorted(a + [c[|c| - 1]], EventLess)
  {
    var p := c[..|c| - 1];
    forall i | 0 <= i < |a| ensures EventLess(a[i], c[|c| - 1]) {
      assert a[i] in Elems(a);
      var k :| 0 <= k < |p| && p[k] == a[i];
      assert c[k] == p[k];
    }
  }

  lemma {:induction false} AcceptedIsSublist(c: seq<IdentityEvent>)
    ensures Elems(Accepted(c)) <= Elems(c)
    ensures StrictlySorted(c, EventLess) ==> StrictlySorted(Accepted(c), EventLess)
  {
    AcceptedElems(c);
    if c != [] && StrictlySorted(c, EventLess) {
      var p := c[..|c| - 1];
      AcceptedIsSublist(p);
      SnocSorted(Accepted(p), c);
    }
  }

  lemma {:induction false} AcceptedIsStable(c: seq<IdentityEvent>)
    ensures Accepted(Accepted(c)) == Accepted(c)
  {
    if c != [] {
      var prev, last := Accepted(c[..|c| - 1]), c[|c| - 1];
      AcceptedIsStable(c[..|c| - 1]);
      if !Reaches(MergeMap(prev), last.target, last.source) {
        assert (prev + [last])[..|prev|] == prev;
      }
    }
  }

  lemma {:induction false} UpToMembers(values: seq<IdentityEvent>, b: int)
    ensures forall e :: e in UpTo(values, b) <==> e in values && e.episode <= b
  {
    if values != [] {
      var p, last := values[..|values| - 1], values[|values| - 1];
      UpToMembers(p, b);
      assert forall e :: e in values <==> e in p || e == last by { assert values == p + [last]; }
    }
  }

  lemma {:induction false} UpToSorted(values: seq<IdentityEvent>, b: int)
    requires StrictlySorted(values, EventLess)
    ensures StrictlySorted(UpTo(values, b), EventLess)
  {
    if values != [] {
      var p, last := values[..|values| - 1], values[|values| - 1];
      UpToSorted(p, b);
      UpToMembers(p, b);
      var u := UpTo(p, b);
      forall i | 0 <= i < |u| ensures EventLess(u[i], last) {
        assert u[i] in p;
        var k :| 0 <= k < |p| && p[k] == u[i];
        assert values[k] == p[k];
      }
    }
  }

  lemma {:induction false} UpToWhole(values: seq<IdentityEvent>, b: int)
    requires forall e | e in values :: e.episode <= b
    ensures UpTo(values, b) == values
  {
    if values != [] {
      var p := values[..|values| - 1];
      UpToWhole(p, b);
      assert values == p + [values[|p|]];
    }
  }

  lemma {:induction false} AcceptedCommutesWithCut(c: seq<IdentityEvent>, b: int)
    requires StrictlySorted(c, EventLess)
    ensures Accepted(UpTo(c, b)) == UpTo(Accepted(c), b)
  {
    if c != [] {
      var p, last := c[..|c| - 1], c[|c| - 1];
      assert c == p + [last];
      if last.episode <= b {
        forall e | e in c ensures e.episode <= b {
          var k :| 0 <= k < |c| && c[k] == e;
          assert k == |p| || EventLess(c[k], c[|p|]);
        }
        AcceptedIsSublist(c);
        UpToWhole(c, b);
        forall e | e in Accepted(c) ensures e.episode <= b { assert e in Elems(Accepted(c)); }
        UpToWhole(Accepted(c), b);
      } else {
        AcceptedCommutesWithCut(p, b);
        var prev := Accepted(p);
        assert (prev + [last])[..|prev|] == prev;
      }
    }
  }

  lemma CandidatesFacts(values: seq<IdentityEvent>)
    ensures StrictlySorted(Candidates(values), EventLess)
    ensures Elems(Candidates(values)) == set e | e in values && WellFormed(e)
  {
    EventOrder(Elems(values));
    CanonicalIsSorted(values, WellFormed, EventLess);
  }

  // ----- main results -----

  /** Only which events occur matters, not their order or repetition. */
  lemma NormalizedDependsOnSet(a: seq<IdentityEvent>, b: seq<IdentityEvent>)
    requires Elems(a) == Elems(b)
    ensures Normalized(a) == Normalized(b)
  {
    EventOrder(Elems(a) + Elems(b));
    forall e | e in a ensures e in b { assert e in Elems(b); }
    forall e | e in b ensures e in a { assert e in Elems(a); }
    CanonicalDependsOnMembers(a, b, WellFormed, EventLess);
  }

  /** Normalising a normalised list changes nothing. */
  lemma NormalizedIsIdempotent(values: seq<IdentityEvent>)
    ensures Normalized(Normalized(values)) == Normalized(values)
  {
    var c, r := Candidates(values), Normalized(values);
    CandidatesFacts(values);
    CandidatesFacts(r);
    AcceptedIsSublist(c);
    assert forall e :: e in r ==> e in Elems(r);
    assert forall e :: e in c ==> e in Elems(c);
    assert Elems(Candidates(r)) == Elems(r);
    EventOrder(Elems(r));
    EventOrder(Elems(Candidates(r)));
    SortedListingIsUnique(Candidates(r), r, EventLess);
    AcceptedIsStable(c);
  }

  /** Later events never change which earlier merges are accepted. */
  lemma {:induction false} NormalizedCommutesWithCut(values: seq<IdentityEvent>, b: int)
    ensures Normalized(UpTo(values, b)) == UpTo(Normalized(values), b)
  {
    var c := Candidates(values);
    CandidatesFacts(values);
    CandidatesFacts(UpTo(values, b));
    UpToMembers(values, b);
    UpToMembers(c, b);
    UpToSorted(c, b);
    assert forall e :: e in c <==> e in Elems(c);
    assert Elems(Candidates(UpTo(values, b))) == Elems(UpTo(c, b));
    EventOrder(Elems(UpTo(c, b)));
    SortedListingIsUnique(UpTo(c, b), Candidates(UpTo(values, b)), EventLess);
    AcceptedCommutesWithCut(c, b);
  }

  /** At every boundary the merge map has no cycle, so each id resolves to an id that was not merged away. */
  lemma NormalizedIsAcyclicAtEveryBoundary(values: seq<IdentityEvent>, b: int)
    ensures Acyclic(MergedIntoAt(values, b))
    ensures forall x :: ResolvesToRoot(MergedIntoAt(values, b), x)
  {
    NormalizedCommutesWithCut(values, b);
    AcceptedAcyclic(Candidates(UpTo(values, b)));
    var m := MergedIntoAt(values, b);
    forall x ensures ResolvesToRoot(m, x) {
      RootExists(m, x, {});
    }
  }

  /** What stands before e in the order of episode, source and target, and what does not. */
  ghost predicate Splits(accepted: seq<IdentityEvent>, k: nat, e: IdentityEvent) {
    && k <= |accepted|
    && (forall i | 0 <= i < k ::
      accepted[i].episode < e.episode
        || (accepted[i].episode == e.episode
          && (StringLess(accepted[i].source, e.source)
            || (accepted[i].source == e.source && StringLess(accepted[i].target, e.target)))))
    && (forall i | k <= i < |accepted| ::
      e.episode < accepted[i].episode
        || (e.episode == accepted[i].episode
          && (StringLess(e.source, accepted[i].source)
            || (e.source == accepted[i].source && !StringLess(accepted[i].target, e.target)))))
  }

  lemma SplitsLast(prev: seq<IdentityEvent>, e: IdentityEvent)
    requires forall i | 0 <= i < |prev| :: EventLess(prev[i], e)
    ensures Splits(prev, |prev|, e) && Splits(prev + [e], |prev|, e) && e !in prev
  {
    StringLessIrreflexive(e.source);
    StringLessIrreflexive(e.target);
  }

  lemma SplitsOn(prev: seq<IdentityEvent>, k: nat, e: IdentityEvent, last: IdentityEvent)
    requires Splits(prev, k, e) && EventLess(e, last)
    ensures Splits(prev + [last], k, e) && last != e && (prev + [last])[..k] == prev[..k]
  {
    StringLessIrreflexive(e.source);
    StringLessIrreflexive(e.target);
    if StringLess(last.target, e.target) && StringLess(e.target, last.target) {
      StringLessTransitive(e.target, last.target, e.target);
    }
  }

  lemma AcceptedSplitsLast(before: seq<IdentityEvent>, e: IdentityEvent, prev: seq<IdentityEvent>)
    requires StrictlySorted(before + [e], EventLess) && Elems(prev) <= Elems(before)
    ensures Splits(prev, |prev|, e) && Splits(prev + [e], |prev|, e) && e !in prev
    ensures prev[..|prev|] == prev && (prev + [e])[..|prev|] == prev
  {
    var c := before + [e];
    forall i | 0 <= i < |prev| ensures EventLess(prev[i], e) {
      assert prev[i] in Elems(prev);
      var j :| 0 <= j < |before| && before[j] == prev[i];
      assert EventLess(c[j], c[|c| - 1]);
    }
    SplitsLast(prev, e);
  }

  lemma AcceptedSplitsOn(before: seq<IdentityEvent>, last: IdentityEvent, prev: seq<IdentityEvent>, k: nat,
      e: IdentityEvent)
    requires StrictlySorted(before + [last], EventLess) && e in before && Splits(prev, k, e)
    ensures Splits(prev + [last], k, e) && last != e && (prev + [last])[..k] == prev[..k]
  {
    var c := before + [last];
    var j :| 0 <= j < |before| && before[j] == e;
    assert EventLess(c[j], c[|c| - 1]);
    SplitsOn(prev, k, e, last);
  }

  lemma {:induction false} AcceptedSplits(c: seq<IdentityEvent>, e: IdentityEvent) returns (k: nat)
    requires StrictlySorted(c, EventLess) && e in c
    ensures Splits(Accepted(c), k, e)
    ensures e in Accepted(c) <==> !Reaches(MergeMap(Accepted(c)[..k]), e.target, e.source)
    ensures e in Accepted(c) ==> k < |Accepted(c)| && Accepted(c)[k] == e
  {
    var before, last := c[..|c| - 1], c[|c| - 1];
    var prev := Accepted(before);
    assert c == before + [last];
    if e == last {
      k := |prev|;
      AcceptedIsSublist(before);
      AcceptedSplitsLast(before, e, prev);
    } else {
      k := AcceptedSplits(before, e);
      AcceptedSplitsOn(before, last, prev, k, e);
    }
  }

  /** Which events are accepted: exactly the well-formed ones that close no cycle with the accepted events before
      them in the order of episode, source and target. */
  lemma AcceptedExactly(values: seq<IdentityEvent>, e: IdentityEvent) returns (k: nat)
    requires e in values && e.source != "" && e.target != "" && e.source != e.target && e.episode != NO_EPISODE
    ensures Splits(Normalized(values), k, e)
    ensures e in Normalized(values) <==> !Reaches(MergeMap(Normalized(values)[..k]), e.target, e.source)
    ensures forall d | d in Normalized(values) ::
      d in values && d.source != "" && d.target != "" && d.source != d.target && d.episode != NO_EPISODE
  {
    var c := Candidates(values);
    CandidatesFacts(values);
    assert e in Elems(c);
    k := AcceptedSplits(c, e);
    AcceptedIsSublist(c);
    forall d | d in Normalized(values) ensures d in values && WellFormed(d) {
      assert d in Elems(Normalized(values)) && d in Elems(c);
    }
  }

  /** Of two opposite events the one of the earlier episode is accepted, in one episode that of the smaller source,
      whatever their order. */
  lemma OppositeEvents(a: IdentityEvent, b: IdentityEvent, values: seq<IdentityEvent>)
    requires Elems(values) == {a, b} && a.source != "" && a.target != "" && a.source != a.target
    requires a.episode != NO_EPISODE && b.source == a.target && b.target == a.source
    requires a.episode < b.episode || (a.episode == b.episode && StringLess(a.source, b.source))
    ensures Normalized(values) == [a]
  {
    assert a in Elems(values) && b in Elems(values);
    var n := Normalized(values);
    var i := AcceptedExactly(values, a);
    assert forall d | d in n :: d in Elems(values);
    NoneBeforeFirst(n, a, b, i);
    assert forall steps: nat :: !ReachesIn(map[], a.target, a.source, steps);
    var j := AcceptedExactly(values, b);
    OppositeCloses(a);
    NormalizedSorted(values);
    OnlyFirst(n, a, b, j);
  }

  lemma NoneBeforeFirst(n: seq<IdentityEvent>, a: IdentityEvent, b: IdentityEvent, i: nat)
    requires Splits(n, i, a) && forall d | d in n :: d == a || d == b
    requires a.episode < b.episode || (a.episode == b.episode && StringLess(a.source, b.source))
    ensures n[..i] == []
  {
    if StringLess(a.source, b.source) && StringLess(b.source, a.source) {
      StringLessTransitive(a.source, b.source, a.source);
    }
    StringLessIrreflexive(a.source);
    StringLessIrreflexive(a.target);
    if i > 0 { FirstMember(n); }
  }

  lemma OppositeCloses(a: IdentityEvent)
    requires a.source != a.target
    ensures Reaches(MergeMap([a]), a.source, a.target)
  {
    assert [a][..0] == [];
    assert MergeMap([a]) == map[a.source := a.target];
    assert ReachesIn(MergeMap([a]), a.target, a.target, 0);
    assert ReachesIn(MergeMap([a]), a.source, a.target, 1);
  }

  lemma NormalizedSorted(values: seq<IdentityEvent>)
    ensures StrictlySorted(Normalized(values), EventLess) && NoDup(Normalized(values))
  {
    CandidatesFacts(values);
    AcceptedIsSublist(Candidates(values));
    var n := Normalized(values);
    forall i, j | 0 <= i < j < |n| ensures n[i] != n[j] {
      StringLessIrreflexive(n[i].source);
      StringLessIrreflexive(n[i].target);
    }
  }

  lemma FirstMember(n: seq<IdentityEvent>)
    requires n != []
    ensures n[0] in n
  {
  }

  lemma FirstTwo(n: seq<IdentityEvent>)
    requires NoDup(n) && |n| > 1
    ensures n[0] in n && n[1] in n && n[0] != n[1]
  {
  }

  lemma OnlyFirst(n: seq<IdentityEvent>, a: IdentityEvent, b: IdentityEvent, j: nat)
    requires NoDup(n) && a != b && a in n && (forall d | d in n :: d == a || d == b) && Splits(n, j, b)
    requires a.episode < b.episode || (a.episode == b.episode && StringLess(a.source, b.source))
    requires Reaches(MergeMap([a]), b.target, b.source)
    requires b in n <==> !Reaches(MergeMap(n[..j]), b.target, b.source)
    ensures n == [a]
  {
    var i :| 0 <= i < |n| && n[i] == a;
    if StringLess(a.source, b.source) && StringLess(b.source, a.source) {
      StringLessTransitive(a.source, b.source, a.source);
      StringLessIrreflexive(a.source);
    }
    StringLessIrreflexive(b.source);
    StringLessIrreflexive(b.target);
    assert i < j;
    forall k | 0 <= k < j ensures n[k] == a { assert n[k] in n; }
    AlikeIsOne(n, a, j);
    if |n| > 1 { FirstTwo(n); }
  }

  lemma AlikeIsOne(n: seq<IdentityEvent>, a: IdentityEvent, j: nat)
    requires NoDup(n) && 0 < j <= |n| && forall k | 0 <= k < j :: n[k] == a
    ensures n[..j] == [a]
  {
    if |n| > 1 { FirstTwo(n); }
  }

  lemma {:induction false} MergeMapIsLast(events: seq<IdentityEvent>, x: string)
    ensures x in MergeMap(events) <==> exists i :: 0 <= i < |events| && events[i].source == x
    ensures x in MergeMap(events) ==> exists i ::
      0 <= i < |events| && events[i] == IdentityEvent(x, MergeMap(events)[x], events[i].episode)
        && forall j | i < j < |events| :: events[j].source != x
  {
    if events != [] {
      var before, last := events[..|events| - 1], events[|events| - 1];
      MergeMapIsLast(before, x);
      if last.source == x {
        assert events[|before|].source == x;
      } else if x in MergeMap(before) {
        var i :| 0 <= i < |before| && before[i] == IdentityEvent(x, MergeMap(before)[x], before[i].episode)
          && forall j | i < j < |before| :: before[j].source != x;
        assert events[i] == before[i];
        forall j | i < j < |events| ensures events[j].source != x { if j < |before| { assert events[j] == before[j]; } }
      } else {
        forall i | 0 <= i < |events| ensures events[i].source != x {
          if i < |before| { assert events[i] == before[i]; }
        }
      }
    }
  }

  /** Of the events of one source the last one listed, in the order of episode and target. */
  lemma LastIsLatest(u: seq<IdentityEvent>, i: nat, d: IdentityEvent)
    requires StrictlySorted(u, EventLess) && i < |u| && d in u && d.source == u[i].source && d != u[i]
    requires forall j | i < j < |u| :: u[j].source != u[i].source
    ensures d.episode < u[i].episode || (d.episode == u[i].episode && StringLess(d.target, u[i].target))
  {
    var j :| 0 <= j < |u| && u[j] == d;
    StringLessIrreflexive(d.source);
  }

  /** The latest of the events up to b with this source. */
  ghost predicate LatestOf(events: seq<IdentityEvent>, b: int, x: string, e: IdentityEvent) {
    && e in events && e.source == x && e.episode <= b
    && forall d | d in events && d.source == x && d.episode <= b && d != e ::
      d.episode < e.episode || (d.episode == e.episode && StringLess(d.target, e.target))
  }

  /** The merge in force at b for each id is the latest accepted event of this source up to b; of several in one
      episode that with the greatest target. */
  lemma {:induction false} LatestMergeInForce(values: seq<IdentityEvent>, b: int, x: string)
    ensures x in MergedIntoAt(values, b) <==> exists e :: e in Normalized(values) && e.source == x && e.episode <= b
    ensures x in MergedIntoAt(values, b) ==> exists e ::
      LatestOf(Normalized(values), b, x, e) && e.target == MergedIntoAt(values, b)[x]
  {
    NormalizedSorted(values);
    LatestInMap(Normalized(values), b, x);
  }

  lemma LatestInMap(n: seq<IdentityEvent>, b: int, x: string)
    requires StrictlySorted(n, EventLess)
    ensures x in MergeMap(UpTo(n, b)) <==> exists e :: e in n && e.source == x && e.episode <= b
    ensures x in MergeMap(UpTo(n, b)) ==> exists e :: LatestOf(n, b, x, e) && e.target == MergeMap(UpTo(n, b))[x]
  {
    var u := UpTo(n, b);
    UpToMembers(n, b);
    UpToSorted(n, b);
    MergeMapIsLast(u, x);
    if x in MergeMap(u) {
      var i :| 0 <= i < |u| && u[i] == IdentityEvent(x, MergeMap(u)[x], u[i].episode)
        && forall j | i < j < |u| :: u[j].source != x;
      assert u[i] in u;
      forall d | d in n && d.source == x && d.episode <= b && d != u[i]
        ensures d.episode < u[i].episode || (d.episode == u[i].episode && StringLess(d.target, u[i].target))
      {
        LastIsLatest(u, i, d);
      }
      assert LatestOf(n, b, x, u[i]);
    } else {
      forall e | e in n && e.source == x ensures e.episode > b { assert e in u <==> e.episode <= b; }
    }
  }

  // ----- the code -----

  ghost predicate NamesNonEmpty(m: map<string, string>) {
    forall x | x in m :: x != "" && m[x] != ""
  }

  function Next(m: map<string, string>, x: string): string {
    if x in m then m[x] else ""
  }

  /** The walk from a candidate's target: it closes a cycle exactly if it comes back to the source. */
  method ClosesCycle(m: map<string, string>, source: string, target: string) returns (cyclic: bool)
    requires Acyclic(m) && NamesNonEmpty(m) && source != "" && target != ""
    ensures cyclic == Reaches(m, target, source)
  {
    var seen := {source};
    var at := target;
    cyclic := false;
    ghost var universe := m.Keys + m.Values + {source, target};
    ReachesHere(m, source);
    while at != ""
      invariant at == "" || at in universe
      invariant seen <= universe
      invariant at == "" ==> !Reaches(m, target, source)
      invariant at != "" ==> (Reaches(m, target, source) <==> Reaches(m, at, source))
      invariant at != "" ==> forall x | x in seen && x != source :: x in m && Reaches(m, m[x], at)
      decreases universe - seen, at != ""
    {
      if at in seen {
        cyclic := true;
        return;
      }
      seen := seen + {at};
      if at in m {
        assert m[at] in m.Values;
        ReachesNext(m, at, source);
        ReachesHere(m, m[at]);
        assert ReachesIn(m, at, m[at], 1);
        forall x | x in seen && x != source ensures x in m && Reaches(m, m[x], m[at]) {
          if x != at {
            var n: nat :| ReachesIn(m, m[x], at, n);
            ReachesTrans(m, m[x], at, m[at], n);
          }
        }
      } else {
        assert forall n: nat :: !ReachesIn(m, at, source, n);
      }
      at := Next(m, at);
    }
  }

  /** One iteration: the next candidate is taken unless it would close a cycle. */
  method TakeCandidate(ghost candidates: seq<IdentityEvent>, e: IdentityEvent, result: seq<IdentityEvent>,
                       mergedInto: map<string, string>)
    returns (result': seq<IdentityEvent>, mergedInto': map<string, string>)
    requires candidates != [] && e == candidates[|candidates| - 1] && WellFormed(e)
    requires result == Accepted(candidates[..|candidates| - 1]) && mergedInto == MergeMap(result)
      && NamesNonEmpty(mergedInto)
    ensures result' == Accepted(candidates) && mergedInto' == MergeMap(result') && NamesNonEmpty(mergedInto')
  {
    result', mergedInto' := result, mergedInto;
    AcceptedAcyclic(candidates[..|candidates| - 1]);
    var cyclic := ClosesCycle(mergedInto, e.source, e.target);
    if !cyclic {
      assert (result + [e])[..|result|] == result;
      mergedInto' := mergedInto[e.source := e.target];
      result' := result + [e];
    }
  }

  method AcceptCandidates(candidates: seq<IdentityEvent>) returns (result: seq<IdentityEvent>)
    requires forall i | 0 <= i < |candidates| :: WellFormed(candidates[i])
    ensures result == Accepted(candidates)
  {
    result := [];
    var mergedInto: map<string, string> := map[];
    for i := 0 to |candidates|
      invariant result == Accepted(candidates[..i])
      invariant mergedInto == MergeMap(result) && NamesNonEmpty(mergedInto)
    {
      var upTo := candidates[..i + 1];
      assert upTo[..i] == candidates[..i];
      result, mergedInto := TakeCandidate(upTo, candidates[i], result, mergedInto);
    }
    assert candidates[..|candidates|] == candidates;
  }

  /** The loop over the sorted candidates: each is taken unless it would close a cycle. */
  method NormalizeIdentityEvents(values: seq<IdentityEvent>) returns (result: seq<IdentityEvent>)
    ensures result == Normalized(values)
  {
    var candidates := CollectDistinct(values, WellFormed);
    candidates := SortBy(candidates, EventLess);
    CandidatesFacts(values);
    forall i | 0 <= i < |candidates| ensures WellFormed(candidates[i]) { assert candidates[i] in Elems(candidates); }
    result := AcceptCandidates(candidates);
  }

  /** Target resolution: with no cycle the walk always ends at an id that was not merged away. */
  method ResolveTarget(m: map<string, string>, source: string) returns (target: string)
    requires Acyclic(m) && NamesNonEmpty(m) && source in m
    ensures target == RootOf(m, source)
  {
    var seen: set<string> := {};
    target := m[source];
    assert ReachesIn(m, source, target, 1);
    while target != "" && target !in seen
      invariant target != "" && Reaches(m, source, target)
      invariant seen <= m.Keys && forall x | x in seen :: Reaches(m, m[x], target)
      decreases m.Keys - seen
    {
      var next := Next(m, target);
      if next == "" {
        RootIsUnique(m, source, target, RootOf(m, source));
        return;
      }
      seen := seen + {target};
      ReachesHere(m, next);
      assert ReachesIn(m, target, next, 1);
      forall x | x in seen ensures Reaches(m, m[x], next) {
        if x != target {
          var n: nat :| ReachesIn(m, m[x], target, n);
          ReachesTrans(m, m[x], target, next, n);
        }
      }
      ghost var k: nat :| ReachesIn(m, source, target, k);
      ReachesTrans(m, source, target, next, k);
      target := next;
    }
    assert false;
  }
}
