/** The allocator of stable character ids (characters/id_allocator.go) and the id bookkeeping on save
    (characters/event_store.go). The hash that turns an ordinal into an id is a parameter, assumed injective. */
module IdAllocator {
  import opened Ordering

  ghost predicate Injective(idOf: nat -> string) {
    forall i, j {:trigger idOf(i), idOf(j)} :: idOf(i) == idOf(j) ==> i == j
  }

  /** A stored ordinal below one counts as one. */
  function Start(ordinal: int): nat { if ordinal <= 0 then 1 else ordinal }

  /** The used ids that an ordinal from `from` on could still give. */
  ghost function UsedFrom(idOf: nat -> string, used: set<string>, from: nat): set<string> {
    set u | u in used && exists o: nat :: o >= from && idOf(o) == u
  }

  lemma SkippingAUsedId(idOf: nat -> string, used: set<string>, from: nat)
    requires Injective(idOf) && idOf(from) in used
    ensures UsedFrom(idOf, used, from + 1) < UsedFrom(idOf, used, from)
  {
    assert idOf(from) in UsedFrom(idOf, used, from);
    assert idOf(from) !in UsedFrom(idOf, used, from + 1);
  }

  /** The first ordinal from `from` on whose id is free. */
  ghost function FirstFree(idOf: nat -> string, used: set<string>, from: nat): (o: nat)
    requires Injective(idOf)
    ensures o >= from && idOf(o) !in used
    ensures forall k | from <= k < o :: idOf(k) in used
    decreases UsedFrom(idOf, used, from)
  {
    if idOf(from) !in used then from
    else
      SkippingAUsedId(idOf, used, from);
      FirstFree(idOf, used, from + 1)
  }

  // ----- the allocator as a value -----

  datatype State = State(next: int, used: set<string>, issued: set<string>, retired: map<string, string>)

  datatype Assigned = Assigned(state: State, ids: seq<string>, issuedNow: seq<string>)

  /** A supplied id is kept unless it is empty or already taken in this call; otherwise the next free id is issued. */
  ghost function AssignIds(idOf: nat -> string, st: State, incoming: seq<string>): Assigned
    requires Injective(idOf)
  {
    if incoming == [] then Assigned(st, [], [])
    else
      var a, id := AssignIds(idOf, st, incoming[..|incoming| - 1]), incoming[|incoming| - 1];
      if id == "" || id in a.ids then
        var o := FirstFree(idOf, a.state.used, Start(a.state.next));
        var new_ := idOf(o);
        Assigned(a.state.(next := o + 1, used := a.state.used + {new_}, issued := a.state.issued + {new_}),
                 a.ids + [new_], a.issuedNow + [new_])
      else
        Assigned(a.state.(used := a.state.used + {id}), a.ids + [id], a.issuedNow)
  }

  function RetireId(st: State, id: string, mergedInto: string): State {
    if id == "" then st else st.(used := st.used + {id}, retired := st.retired[id := mergedInto])
  }

  function RetireAll(st: State, retired: seq<(string, string)>): State {
    if retired == [] then st
    else RetireId(RetireAll(st, retired[..|retired| - 1]), retired[|retired| - 1].0, retired[|retired| - 1].1)
  }

  function NonEmptyIds(ids: seq<string>): set<string> { set id | id in ids && id != "" }

  ghost function ApplySaved(idOf: nat -> string, st: State, next: int, issued: seq<string>,
                            retired: seq<(string, string)>): State
    requires Injective(idOf)
  {
    var marked := RetireAll(st.(used := st.used + NonEmptyIds(issued), issued := st.issued + NonEmptyIds(issued)),
      retired);
    var ordinal := if next > marked.next then next else marked.next;
    marked.(next := FirstFree(idOf, marked.used, Start(ordinal)))
  }

  // ----- runs -----

  datatype Op = Assign(ids: seq<string>) | Retire(id: string, mergedInto: string)
              | ApplyState(next: int, issued: seq<string>, retired: seq<(string, string)>)

  ghost function Apply(idOf: nat -> string, st: State, op: Op): State
    requires Injective(idOf)
  {
    match op
    case Assign(ids) => AssignIds(idOf, st, ids).state
    case Retire(id, into) => RetireId(st, id, into)
    case ApplyState(next, issued, retired) => ApplySaved(idOf, st, next, issued, retired)
  }

  ghost function FreshIn(idOf: nat -> string, st: State, op: Op): seq<string>
    requires Injective(idOf)
  {
    if op.Assign? then AssignIds(idOf, st, op.ids).issuedNow else []
  }

  ghost function Run(idOf: nat -> string, st: State, ops: seq<Op>): State
    requires Injective(idOf)
  {
    if ops == [] then st else Apply(idOf, Run(idOf, st, ops[..|ops| - 1]), ops[|ops| - 1])
  }

  /** Every id newly issued in the run, in order. */
  ghost function FreshInRun(idOf: nat -> string, st: State, ops: seq<Op>): seq<string>
    requires Injective(idOf)
  {
    if ops == [] then []
    else FreshInRun(idOf, st, ops[..|ops| - 1]) + FreshIn(idOf, Run(idOf, st, ops[..|ops| - 1]), ops[|ops| - 1])
  }

  lemma {:induction false} AssignFacts(idOf: nat -> string, st: State, incoming: seq<string>)
    requires Injective(idOf)
    ensures |AssignIds(idOf, st, incoming).ids| == |incoming|
    ensures NoDup(AssignIds(idOf, st, incoming).ids) && NoDup(AssignIds(idOf, st, incoming).issuedNow)
    ensures AssignIds(idOf, st, incoming).state.used == st.used + Elems(AssignIds(idOf, st, incoming).ids)
    ensures Elems(AssignIds(idOf, st, incoming).issuedNow) !! st.used
    ensures Elems(AssignIds(idOf, st, incoming).issuedNow) <= Elems(AssignIds(idOf, st, incoming).ids)
    ensures AssignIds(idOf, st, incoming).state.next >= st.next
    ensures AssignIds(idOf, st, incoming).state.issued == st.issued + Elems(AssignIds(idOf, st, incoming).issuedNow)
    ensures AssignIds(idOf, st, incoming).state.retired == st.retired
  {
    if incoming != [] {
      var prefix, id := incoming[..|incoming| - 1], incoming[|incoming| - 1];
      AssignFacts(idOf, st, prefix);
      var a, b := AssignIds(idOf, st, prefix), AssignIds(idOf, st, incoming);
      var last := b.ids[|a.ids|];
      assert Elems(a.ids + [last]) == Elems(a.ids) + {last}
        && Elems(a.issuedNow + [last]) == Elems(a.issuedNow) + {last};
      assert last in a.ids <==> last in Elems(a.ids);
      assert last in a.issuedNow <==> last in Elems(a.issuedNow);
    }
  }

  /** Kept or fresh: an id is kept if and only if it is not empty and repeats no earlier one of the same call; else it
      is issued now. */
  lemma {:induction false} AssignKeepsGivenIds(idOf: nat -> string, st: State, incoming: seq<string>, i: nat)
    requires Injective(idOf) && i < |incoming| && |AssignIds(idOf, st, incoming).ids| == |incoming|
    ensures incoming[i] != "" && incoming[i] !in AssignIds(idOf, st, incoming).ids[..i]
      ==> AssignIds(idOf, st, incoming).ids[i] == incoming[i]
    ensures incoming[i] == "" || incoming[i] in AssignIds(idOf, st, incoming).ids[..i]
      ==> AssignIds(idOf, st, incoming).ids[i] in AssignIds(idOf, st, incoming).issuedNow
  {
    var prefix := incoming[..|incoming| - 1];
    AssignFacts(idOf, st, prefix);
    var a, b := AssignIds(idOf, st, prefix), AssignIds(idOf, st, incoming);
    assert b.ids[..|prefix|] == a.ids;
    if i < |prefix| {
      AssignKeepsGivenIds(idOf, st, prefix, i);
      assert b.ids[..i] == a.ids[..i];
    } else {
      assert forall x :: x in a.ids <==> x in Elems(a.ids);
    }
  }

  /** The ordinals from `from` up to `to`. */
  ghost function IdsBetween(idOf: nat -> string, from: nat, to: nat): set<string> {
    set o: nat | from <= o < to :: idOf(o)
  }

  /** New ids come from the ordinals passed in this call, and no ordinal is passed over: the id of each is used. */
  lemma {:induction false} NoOrdinalSkipped(idOf: nat -> string, st: State, incoming: seq<string>)
    requires Injective(idOf)
    ensures var after := AssignIds(idOf, st, incoming);
      Elems(after.issuedNow) <= IdsBetween(idOf, Start(st.next), Start(after.state.next)) <= after.state.used
  {
    if incoming != [] {
      var prefix, id := incoming[..|incoming| - 1], incoming[|incoming| - 1];
      NoOrdinalSkipped(idOf, st, prefix);
      AssignFacts(idOf, st, prefix);
      var a, b := AssignIds(idOf, st, prefix), AssignIds(idOf, st, incoming);
      if id == "" || id in a.ids {
        var o := FirstFree(idOf, a.state.used, Start(a.state.next));
        forall k: nat | Start(a.state.next) <= k < o + 1 ensures idOf(k) in b.state.used {}
        assert idOf(o) in IdsBetween(idOf, Start(st.next), o + 1);
        ElemsOfSnoc(a.issuedNow, idOf(o));
      }
    }
  }

  lemma {:induction false} RetireAllGrows(st: State, retired: seq<(string, string)>)
    ensures st.used <= RetireAll(st, retired).used && RetireAll(st, retired).next == st.next
    ensures RetireAll(st, retired).issued == st.issued && st.retired.Keys <= RetireAll(st, retired).retired.Keys
    ensures RetireAll(st, retired).retired.Keys <= RetireAll(st, retired).used + st.retired.Keys
  {
    if retired != [] { RetireAllGrows(st, retired[..|retired| - 1]); }
  }

  ghost predicate LastFor(retired: seq<(string, string)>, id: string, i: int) {
    0 <= i < |retired| && retired[i].0 == id != "" && forall j | i < j < |retired| :: retired[j].0 != id
  }

  function FirstOfPairs(pairs: seq<(string, string)>): seq<string> {
    seq(|pairs|, i requires 0 <= i < |pairs| => pairs[i].0)
  }

  /** Retiring marks the id used and records what it was merged into, the last time if it is retired again; an empty
      id is not retired, and no other retirement changes. */
  lemma {:induction false} RetiredInto(st: State, retired: seq<(string, string)>, id: string)
    ensures RetireAll(st, retired).used == st.used + NonEmptyIds(FirstOfPairs(retired))
    ensures (id == "" || forall i | 0 <= i < |retired| :: retired[i].0 != id) ==>
      (id in RetireAll(st, retired).retired <==> id in st.retired)
        && (id in st.retired ==> RetireAll(st, retired).retired[id] == st.retired[id])
    ensures forall i | LastFor(retired, id, i) ::
      id in RetireAll(st, retired).retired && RetireAll(st, retired).retired[id] == retired[i].1
  {
    if retired != [] {
      var before, last := retired[..|retired| - 1], retired[|retired| - 1];
      RetiredInto(st, before, id);
      assert FirstOfPairs(retired) == FirstOfPairs(before) + [last.0];
      forall i | LastFor(retired, id, i)
        ensures id in RetireAll(st, retired).retired && RetireAll(st, retired).retired[id] == retired[i].1
      {
        if i < |before| { assert LastFor(before, id, i); }
      }
    }
  }

  /** Applying a saved state marks its ids used, never lowers the ordinal, and ends at the first ordinal from the
      greater one whose id is free. */
  lemma SavedApplied(idOf: nat -> string, st: State, next: int, issued: seq<string>, retired: seq<(string, string)>)
    requires Injective(idOf)
    ensures var after := ApplySaved(idOf, st, next, issued, retired);
      && after.issued == st.issued + NonEmptyIds(issued)
      && after.used == st.used + NonEmptyIds(issued) + NonEmptyIds(FirstOfPairs(retired))
      && after.next >= 1 && after.next >= next && after.next >= st.next && idOf(after.next) !in after.used
      && forall k: nat | 1 <= k < after.next && k >= next && k >= st.next :: idOf(k) in after.used
  {
    var marked := st.(used := st.used + NonEmptyIds(issued), issued := st.issued + NonEmptyIds(issued));
    RetireAllGrows(marked, retired);
    RetiredInto(marked, retired, "");
  }

  ghost predicate Consistent(st: State) { st.issued <= st.used && st.retired.Keys <= st.used }

  lemma OpFacts(idOf: nat -> string, st: State, op: Op)
    requires Injective(idOf)
    ensures st.used <= Apply(idOf, st, op).used && st.next <= Apply(idOf, st, op).next
    ensures st.issued <= Apply(idOf, st, op).issued && st.retired.Keys <= Apply(idOf, st, op).retired.Keys
    ensures Consistent(st) ==> Consistent(Apply(idOf, st, op))
    ensures NoDup(FreshIn(idOf, st, op)) && Elems(FreshIn(idOf, st, op)) !! st.used
    ensures Elems(FreshIn(idOf, st, op)) <= Apply(idOf, st, op).used
  {
    match op
    case Assign(ids) => AssignFacts(idOf, st, ids);
    case Retire(_, _) =>
    case ApplyState(next, issued, retired) =>
      RetireAllGrows(st.(used := st.used + NonEmptyIds(issued), issued := st.issued + NonEmptyIds(issued)), retired);
  }

  /** No run reissues an id: the ids it issues are pairwise distinct and none was used, issued or retired before the
      run. Nothing used is ever forgotten and the ordinal never goes back. */
  lemma {:induction false} RunNeverReissues(idOf: nat -> string, st: State, ops: seq<Op>)
    requires Injective(idOf) && Consistent(st)
    ensures NoDup(FreshInRun(idOf, st, ops))
    ensures Elems(FreshInRun(idOf, st, ops)) !! st.used + st.issued + st.retired.Keys
    ensures st.used + Elems(FreshInRun(idOf, st, ops)) <= Run(idOf, st, ops).used
    ensures st.next <= Run(idOf, st, ops).next && Consistent(Run(idOf, st, ops))
  {
    if ops != [] {
      var prefix, op := ops[..|ops| - 1], ops[|ops| - 1];
      RunNeverReissues(idOf, st, prefix);
      var mid := Run(idOf, st, prefix);
      OpFacts(idOf, mid, op);
      JoinLists(FreshInRun(idOf, st, prefix), FreshIn(idOf, mid, op));
    }
  }

  lemma JoinLists(a: seq<string>, b: seq<string>)
    requires NoDup(a) && NoDup(b) && Elems(a) !! Elems(b)
    ensures NoDup(a + b) && Elems(a + b) == Elems(a) + Elems(b)
  {
    forall i, j | 0 <= i < |a| && 0 <= j < |b| ensures a[i] != b[j] {
      assert a[i] in Elems(a) && b[j] in Elems(b);
    }
  }

  // ----- the code -----

  method AdvanceOrdinal(idOf: nat -> string, ordinal: int, used: set<string>) returns (ordinal': int)
    requires Injective(idOf)
    ensures ordinal' == FirstFree(idOf, used, Start(ordinal))
  {
    ordinal' := ordinal;
    while true
      invariant FirstFree(idOf, used, Start(ordinal')) == FirstFree(idOf, used, Start(ordinal))
      decreases UsedFrom(idOf, used, Start(ordinal'))
    {
      var current := if ordinal' <= 0 then 1 else ordinal';
      if idOf(current) !in used { return current; }
      SkippingAUsedId(idOf, used, current);
      ordinal' := current + 1;
    }
  }

  method NextStableId(idOf: nat -> string, ordinal: int, used: set<string>) returns (id: string, ordinal': int)
    requires Injective(idOf)
    ensures ordinal' == FirstFree(idOf, used, Start(ordinal)) + 1
    ensures id == idOf(FirstFree(idOf, used, Start(ordinal)))
  {
    ordinal' := ordinal;
    while true
      invariant FirstFree(idOf, used, Start(ordinal')) == FirstFree(idOf, used, Start(ordinal))
      decreases UsedFrom(idOf, used, Start(ordinal'))
    {
      var current := if ordinal' <= 0 then 1 else ordinal';
      ordinal' := current + 1;
      id := idOf(current);
      if id !in used { return; }
      SkippingAUsedId(idOf, used, current);
    }
  }

  class Allocator {
    const idOf: nat -> string
    var nextOrdinal: int
    var usedIds: set<string>
    var issuedIds: set<string>
    var retiredIds: map<string, string>

    ghost function Contents(): State
      reads this
    {
      State(nextOrdinal, usedIds, issuedIds, retiredIds)
    }

    constructor (idOf: nat -> string, existing: seq<string>)
      requires Injective(idOf)
      ensures this.idOf == idOf
      ensures Contents() == State(FirstFree(idOf, NonEmptyIds(existing), 1), NonEmptyIds(existing), {}, map[])
    {
      var used := NonEmptyIds(existing);
      var next := AdvanceOrdinal(idOf, 1, used);
      this.idOf := idOf;
      nextOrdinal, usedIds, issuedIds, retiredIds := next, used, {}, map[];
    }

    method Assign(incoming: seq<string>) returns (ids: seq<string>)
      requires Injective(idOf)
      modifies this
      ensures Contents() == Apply(idOf, old(Contents()), Op.Assign(incoming))
      ensures ids == AssignIds(idOf, old(Contents()), incoming).ids
    {
      ids := [];
      var resultIds: set<string> := {};
      for i := 0 to |incoming|
        invariant Contents() == AssignIds(idOf, old(Contents()), incoming[..i]).state
        invariant ids == AssignIds(idOf, old(Contents()), incoming[..i]).ids
        invariant resultIds == Elems(ids)
      {
        assert incoming[..i + 1][..i] == incoming[..i];
        var id := incoming[i];
        assert id in resultIds <==> id in ids;
        if id == "" || id in resultIds {
          id, nextOrdinal := NextStableId(idOf, nextOrdinal, usedIds);
          issuedIds := issuedIds + {id};
        }
        usedIds := usedIds + {id};
        resultIds := resultIds + {id};
        ids := ids + [id];
      }
      assert incoming[..|incoming|] == incoming;
    }

    method Retire(id: string, mergedInto: string)
      modifies this
      ensures Contents() == RetireId(old(Contents()), id, mergedInto)
    {
      if id == "" { return; }
      usedIds := usedIds + {id};
      retiredIds := retiredIds[id := mergedInto];
    }

    method ApplyState(next: int, issued: seq<string>, retired: seq<(string, string)>)
      requires Injective(idOf)
      modifies this
      ensures Contents() == Apply(idOf, old(Contents()), Op.ApplyState(next, issued, retired))
    {
      for i := 0 to |issued|
        invariant Contents() == old(Contents()).(
          used := old(usedIds) + NonEmptyIds(issued[..i]), issued := old(issuedIds) + NonEmptyIds(issued[..i]))
      {
        assert issued[..i + 1] == issued[..i] + [issued[i]];
        if issued[i] == "" { continue; }
        usedIds := usedIds + {issued[i]};
        issuedIds := issuedIds + {issued[i]};
      }
      assert issued[..|issued|] == issued;
      ghost var marked := Contents();
      for i := 0 to |retired|
        invariant Contents() == RetireAll(marked, retired[..i])
      {
        assert retired[..i + 1][..i] == retired[..i];
        Retire(retired[i].0, retired[i].1);
      }
      assert retired[..|retired|] == retired;
      if next > nextOrdinal { nextOrdinal := next; }
      nextOrdinal := AdvanceOrdinal(idOf, nextOrdinal, usedIds);
    }
  }

  // ----- saving -----

  datatype Retired = Retired(id: string, mergedInto: string)

  predicate RetiredLess(a: Retired, b: Retired) { StringLess(a.id, b.id) }

  /** The stored ids that are neither live nor retired yet, each once. */
  function Missing(existing: seq<Retired>, previous: seq<string>, live: set<string>): seq<string> {
    Distinct(previous, (id: string) => id != "" && id !in live && !exists r | r in existing :: r.id == id)
  }

  function NewlyRetired(ids: seq<string>): seq<Retired> {
    seq(|ids|, i requires 0 <= i < |ids| => Retired(ids[i], ""))
  }

  lemma RetiredOrdered()
    ensures WeaklyOrders(RetiredLess)
  {
    forall a, b | RetiredLess(a, b) ensures !RetiredLess(b, a) {
      if RetiredLess(b, a) {
        StringLessTransitive(a.id, b.id, a.id);
        StringLessIrreflexive(a.id);
      }
    }
    forall a, b, c | RetiredLess(a, c) ensures RetiredLess(a, b) || RetiredLess(b, c) {
      StringLessTotal(a.id, b.id);
      if RetiredLess(b, a) { StringLessTransitive(b.id, a.id, c.id); }
    }
  }

  /** Retiring what went missing: earlier retirements stay, and each stored id that is neither live nor retired is added
      once, merged into nothing; sorted by id. */
  method RetireMissing(existing: seq<Retired>, previous: seq<string>, live: set<string>) returns (result: seq<Retired>)
    ensures result == SortBy(existing + NewlyRetired(Missing(existing, previous, live)), RetiredLess)
    ensures multiset(result) == multiset(existing + NewlyRetired(Missing(existing, previous, live)))
    ensures forall i, j | 0 <= i < j < |result| :: !StringLess(result[j].id, result[i].id)
    ensures forall r :: r in result <==> r in existing || Lost(r, existing, previous, live)
  {
    MissingExactly(existing, previous, live);
    result := existing;
    var seen := set r | r in existing && r.id != "" :: r.id;
    var known := (id: string) => id != "" && id !in live && !exists r | r in existing :: r.id == id;
    for i := 0 to |previous|
      invariant result == existing + NewlyRetired(Distinct(previous[..i], known))
      invariant seen == (set r | r in existing && r.id != "" :: r.id) + Elems(Distinct(previous[..i], known))
    {
      assert previous[..i + 1][..i] == previous[..i];
      var id := previous[i];
      assert id in Elems(Distinct(previous[..i], known)) <==> id in Distinct(previous[..i], known);
      assert id != "" ==>
        ((exists r | r in existing :: r.id == id) <==> id in set r | r in existing && r.id != "" :: r.id);
      if id == "" || id in live || id in seen { continue; }
      seen := seen + {id};
      assert NewlyRetired(Distinct(previous[..i], known) + [id])
        == NewlyRetired(Distinct(previous[..i], known)) + [Retired(id, "")];
      result := result + [Retired(id, "")];
    }
    assert previous[..|previous|] == previous;
    RetiredOrdered();
    SortByInOrder(result, RetiredLess);
    PermutationElems(SortBy(result, RetiredLess), result);
    assert forall r :: r in SortBy(result, RetiredLess) <==> r in Elems(SortBy(result, RetiredLess));
    result := SortBy(result, RetiredLess);
  }

  /** The retirement of a stored id that is neither live nor retired yet. */
  ghost predicate Lost(r: Retired, existing: seq<Retired>, previous: seq<string>, live: set<string>) {
    r.mergedInto == "" && r.id != "" && r.id in previous && r.id !in live && forall e | e in existing :: e.id != r.id
  }

  lemma MissingExactly(existing: seq<Retired>, previous: seq<string>, live: set<string>)
    ensures var newly := NewlyRetired(Missing(existing, previous, live));
      NoDup(newly) && forall r :: r in newly <==> Lost(r, existing, previous, live)
  {
    var missing := Missing(existing, previous, live);
    var newly := NewlyRetired(missing);
    forall r ensures r in newly <==> Lost(r, existing, previous, live) {
      assert r.id in missing <==> r.id in Elems(missing);
      if r in newly { var i :| 0 <= i < |newly| && newly[i] == r; }
      if Lost(r, existing, previous, live) {
        var i :| 0 <= i < |missing| && missing[i] == r.id;
        assert newly[i] == r;
      }
    }
  }

  datatype Document = Document(next: int, records: seq<string>, retired: seq<Retired>)

  function RetiredIds(retired: seq<Retired>): set<string> { set r | r in retired && r.id != "" :: r.id }

  /** Every id stored before is still live or recorded as retired. */
  ghost predicate NoIdForgotten(before: Document, live: seq<string>, retired: seq<Retired>) {
    forall id | id in NonEmptyIds(before.records) + RetiredIds(before.retired) ::
      id in live || id in RetiredIds(retired)
  }

  /** Distinct ids, passing the ordinals from `from` up to `to`: a given id is kept if and only if it is not empty and
      repeats no earlier one, and the others are new to the store. */
  ghost predicate WellAssigned(idOf: nat -> string, stored: set<string>, generated: seq<string>, ids: seq<string>,
                               from: nat, to: nat)
  {
    && |ids| == |generated| && NoDup(ids)
    && (forall i | 0 <= i < |ids| && generated[i] != "" && generated[i] !in ids[..i] :: ids[i] == generated[i])
    && (forall i | 0 <= i < |ids| && (generated[i] == "" || generated[i] in ids[..i]) ::
         ids[i] !in stored && ids[i] in IdsBetween(idOf, from, to))
    && IdsBetween(idOf, from, to) <= Elems(ids) + stored
  }

  lemma AssignedWell(idOf: nat -> string, st: State, generated: seq<string>)
    requires Injective(idOf)
    ensures var a := AssignIds(idOf, st, generated);
      WellAssigned(idOf, st.used, generated, a.ids, Start(st.next), Start(a.state.next)) && a.state.next >= st.next
  {
    var a := AssignIds(idOf, st, generated);
    AssignFacts(idOf, st, generated);
    NoOrdinalSkipped(idOf, st, generated);
    forall i | 0 <= i < |a.ids|
      ensures generated[i] != "" && generated[i] !in a.ids[..i] ==> a.ids[i] == generated[i]
      ensures generated[i] == "" || generated[i] in a.ids[..i] ==>
        a.ids[i] !in st.used && a.ids[i] in IdsBetween(idOf, Start(st.next), Start(a.state.next))
    {
      AssignKeepsGivenIds(idOf, st, generated, i);
      assert a.ids[i] in a.issuedNow <==> a.ids[i] in Elems(a.issuedNow);
    }
  }

  /** Further used ordinals on either side. */
  lemma WiderAssigned(idOf: nat -> string, stored: set<string>, generated: seq<string>, ids: seq<string>, first: nat,
                      from: nat, to: nat, last: nat)
    requires WellAssigned(idOf, stored, generated, ids, from, to) && first <= from <= to <= last
    requires forall k: nat | first <= k < from || to <= k < last :: idOf(k) in Elems(ids) + stored
    ensures WellAssigned(idOf, stored, generated, ids, first, last)
  {
    assert IdsBetween(idOf, from, to) <= IdsBetween(idOf, first, last);
    forall id | id in IdsBetween(idOf, first, last) ensures id in Elems(ids) + stored {
      var k: nat :| first <= k < last && idOf(k) == id;
      if from <= k < to { assert id in IdsBetween(idOf, from, to); }
    }
  }

  /** The loop over the characters. */
  method AssignAll(idOf: nat -> string, ordinal: int, stored: set<string>, generated: seq<string>)
    returns (ids: seq<string>, next: int, used: set<string>, resultIds: set<string>)
    requires Injective(idOf)
    ensures WellAssigned(idOf, stored, generated, ids, Start(ordinal), Start(next))
    ensures used == stored + Elems(ids) && resultIds == Elems(ids) && next >= ordinal
  {
    ghost var st := State(ordinal, stored, {}, map[]);
    ids, next, used, resultIds := [], ordinal, stored, {};
    for i := 0 to |generated|
      invariant next == AssignIds(idOf, st, generated[..i]).state.next
      invariant used == AssignIds(idOf, st, generated[..i]).state.used
      invariant ids == AssignIds(idOf, st, generated[..i]).ids
      invariant resultIds == Elems(ids)
    {
      assert generated[..i + 1][..i] == generated[..i];
      var id := generated[i];
      assert id in resultIds <==> id in ids;
      if id == "" || id in resultIds {
        id, next := NextStableId(idOf, next, used);
      }
      used := used + {id};
      resultIds := resultIds + {id};
      ids := ids + [id];
    }
    assert generated[..|generated|] == generated;
    AssignFacts(idOf, st, generated);
    AssignedWell(idOf, st, generated);
  }

  /** Assigning ids on save to the characters with a valid name: distinct ids, a given one kept if and only if it is not
      empty and repeats no earlier one, the others new to the store and passing over no free ordinal; newly retired
      are exactly the stored ids that are not among them, and no stored id is forgotten. */
  method AssignGeneratedIds(idOf: nat -> string, doc: Document, generated: seq<string>)
    returns (ids: seq<string>, next: int, retired: seq<Retired>)
    requires Injective(idOf)
    ensures var stored := NonEmptyIds(doc.records) + RetiredIds(doc.retired);
      && next >= doc.next && next >= 1 && idOf(next) !in Elems(ids) + stored
      && WellAssigned(idOf, stored, generated, ids, Start(doc.next), next)
    ensures forall r :: r in retired <==> r in doc.retired || Lost(r, doc.retired, doc.records, Elems(ids))
    ensures NoIdForgotten(doc, ids, retired)
  {
    var stored := NonEmptyIds(doc.records) + RetiredIds(doc.retired);
    var first := AdvanceOrdinal(idOf, doc.next, stored);
    var passed, used, resultIds;
    ids, passed, used, resultIds := AssignAll(idOf, first, stored, generated);
    retired := RetireMissing(doc.retired, doc.records, resultIds);
    NothingForgotten(doc, ids, retired);
    next := AdvanceOrdinal(idOf, passed, used);
    WiderAssigned(idOf, stored, generated, ids, Start(doc.next), first, Start(passed), next);
  }

  lemma NothingForgotten(doc: Document, ids: seq<string>, retired: seq<Retired>)
    requires multiset(retired) == multiset(doc.retired + NewlyRetired(Missing(doc.retired, doc.records, Elems(ids))))
    ensures NoIdForgotten(doc, ids, retired)
  {
    var missing := Missing(doc.retired, doc.records, Elems(ids));
    var all := doc.retired + NewlyRetired(missing);
    PermutationElems(retired, all);
    forall r | r in all ensures r in retired { assert r in Elems(all); assert r in Elems(retired); }
    forall id | id in NonEmptyIds(doc.records) + RetiredIds(doc.retired) && id !in ids
      ensures id in RetiredIds(retired)
    {
      if exists r | r in doc.retired :: r.id == id {
        var r :| r in doc.retired && r.id == id;
        assert r in all;
      } else {
        assert id in Elems(missing);
        var k :| 0 <= k < |missing| && missing[k] == id;
        assert all[|doc.retired| + k] == Retired(id, "");
      }
    }
  }
}
