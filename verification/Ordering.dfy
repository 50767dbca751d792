/** Orders, sorting and de-duplication shared by the models of the character code. */
module Ordering {

  /** An episode index. Stored indexes are canonical digit strings or empty; the empty string, which the
      comparison puts below every digit string, is NO_EPISODE. */
  type Episode = n: int | -1 <= n witness -1
  const NO_EPISODE: Episode := -1

  datatype Option<+T> = None | Some(value: T)

  function Elems<T>(s: seq<T>): set<T> { set x | x in s }

  ghost predicate NoDup<T>(s: seq<T>) {
    forall i, j :: 0 <= i < j < |s| ==> s[i] != s[j]
  }

  ghost predicate StrictlySorted<T>(s: seq<T>, less: (T, T) -> bool) {
    forall i, j :: 0 <= i < j < |s| ==> less(s[i], s[j])
  }

  /** `less` is a strict total order of the members of `s`. */
  ghost predicate Orders<T>(less: (T, T) -> bool, s: set<T>) {
    && (forall x | x in s :: !less(x, x))
    && (forall x, y | x in s && y in s :: x != y ==> less(x, y) || less(y, x))
    && (forall x, y, z | x in s && y in s && z in s :: less(x, y) && less(y, z) ==> less(x, z))
  }

  lemma Associate<T>(a: seq<T>, b: seq<T>, c: seq<T>)
    ensures a + b + c == a + (b + c)
  {
  }

  /** A list from the parts it was cut into. */
  lemma Rejoin<T>(s: seq<T>, k: nat)
    requires k <= |s|
    ensures s == s[..k] + s[k..]
    ensures k + 1 == |s| ==> s == s[..k] + [s[k]]
  {
  }

  /** A longer and longer prefix, as loops take it. */
  lemma TakeNext<T>(s: seq<T>, i: nat)
    requires i < |s|
    ensures s[..i + 1] == s[..i] + [s[i]] && s[..i + 1][..i] == s[..i]
  {
  }

  lemma SliceOfSlice<T>(s: seq<T>, from: nat, to: nat, i: nat, j: nat)
    requires from <= to <= |s| && i <= j <= to - from
    ensures s[from..to][i..j] == s[from + i..from + j]
  {
    var slice := s[from..to];
    forall k | 0 <= k < j - i ensures slice[i..j][k] == s[from + i..from + j][k] {
      assert slice[i..j][k] == slice[i + k] == s[from + i + k];
    }
  }

  lemma DropConcat<T>(a: seq<T>, b: seq<T>)
    requires a != []
    ensures (a + b)[0] == a[0] && (a + b)[1..] == a[1..] + b
  {
  }

  lemma ElemsEmpty<T>(s: seq<T>)
    ensures Elems(s) == {} <==> s == []
  {
    if s != [] { assert s[0] in Elems(s); }
  }

  /** Two sorted listings of the same members are the same listing. */
  lemma {:induction false} SortedListingIsUnique<T>(a: seq<T>, b: seq<T>, less: (T, T) -> bool)
    requires Orders(less, Elems(a)) && Elems(a) == Elems(b)
    requires StrictlySorted(a, less) && StrictlySorted(b, less)
    ensures a == b
  {
    if a == [] {
      ElemsEmpty(b);
    } else {
      assert a[0] in Elems(b);
      assert b[0] in Elems(b);
      var i :| 0 <= i < |b| && b[i] == a[0];
      var j :| 0 <= j < |a| && a[j] == b[0];
      assert a[0] == b[0];
      var a', b' := a[1..], b[1..];
      forall x ensures x in Elems(a') <==> x in Elems(a) && x != a[0] {
        if x in Elems(a) && x != a[0] {
          var k :| 0 <= k < |a| && a[k] == x;
          assert a'[k - 1] == x;
        }
      }
      forall x ensures x in Elems(b') <==> x in Elems(b) && x != b[0] {
        if x in Elems(b) && x != b[0] {
          var k :| 0 <= k < |b| && b[k] == x;
          assert b'[k - 1] == x;
        }
      }
      assert Elems(a') == Elems(b');
      SortedListingIsUnique(a', b', less);
      assert a == [a[0]] + a' && b == [b[0]] + b';
    }
  }

  /** Sorting as the standard library's stable sort does it: an element goes before those not below it. */
  function Insert<T>(x: T, s: seq<T>, less: (T, T) -> bool): (r: seq<T>)
    ensures multiset(r) == multiset{x} + multiset(s)
  {
    if s == [] then [x]
    else if less(s[0], x) then
      assert s == [s[0]] + s[1..];
      [s[0]] + Insert(x, s[1..], less)
    else [x] + s
  }

  function SortBy<T>(s: seq<T>, less: (T, T) -> bool): (r: seq<T>)
    ensures multiset(r) == multiset(s)
  {
    if s == [] then []
    else
      assert s == [s[0]] + s[1..];
      Insert(s[0], SortBy(s[1..], less), less)
  }

  function Only<T>(s: seq<T>, keep: T -> bool): seq<T> {
    if s == [] then [] else if keep(s[0]) then [s[0]] + Only(s[1..], keep) else Only(s[1..], keep)
  }

  ghost predicate Alike<T(!new)>(alike: T -> bool, less: (T, T) -> bool) {
    forall x, y | alike(x) && alike(y) :: !less(x, y)
  }

  lemma {:induction false} InsertIsStable<T(!new)>(x: T, s: seq<T>, less: (T, T) -> bool, alike: T -> bool)
    requires Alike(alike, less)
    ensures Only(Insert(x, s, less), alike) == if alike(x) then [x] + Only(s, alike) else Only(s, alike)
  {
    if s != [] && less(s[0], x) {
      var rest := Insert(x, s[1..], less);
      InsertIsStable(x, s[1..], less, alike);
      assert Insert(x, s, less) == [s[0]] + rest;
      OnlyCons(s[0], rest, alike);
      assert !(alike(s[0]) && alike(x));
    } else {
      OnlyCons(x, s, alike);
    }
  }

  lemma OnlyCons<T>(x: T, s: seq<T>, keep: T -> bool)
    ensures Only([x] + s, keep) == if keep(x) then [x] + Only(s, keep) else Only(s, keep)
  {
    assert ([x] + s)[1..] == s;
  }

  /** Sorting is stable: elements of which none is less than another keep their order. */
  lemma {:induction false} SortIsStable<T(!new)>(s: seq<T>, less: (T, T) -> bool, alike: T -> bool)
    requires Alike(alike, less)
    ensures Only(SortBy(s, less), alike) == Only(s, alike)
  {
    if s != [] {
      SortIsStable(s[1..], less, alike);
      InsertIsStable(s[0], SortBy(s[1..], less), less, alike);
    }
  }

  /** Nothing is below anything before it. */
  ghost predicate InOrder<T>(s: seq<T>, less: (T, T) -> bool) {
    forall i, j | 0 <= i < j < |s| :: !less(s[j], s[i])
  }

  /** Sorting what is in order changes nothing. */
  lemma {:induction false} InOrderStays<T>(s: seq<T>, less: (T, T) -> bool)
    requires InOrder(s, less)
    ensures SortBy(s, less) == s
  {
    if s != [] {
      var rest := s[1..];
      assert s == [s[0]] + rest;
      assert forall i | 0 <= i < |rest| :: rest[i] == s[i + 1];
      InOrderStays(rest, less);
    }
  }

  /** A comparison whose "not after" is transitive, such as one by several fields in turn. */
  ghost predicate WeaklyOrders<T(!new)>(less: (T, T) -> bool) {
    && (forall x, y :: less(x, y) ==> !less(y, x))
    && (forall x, y, z :: less(x, z) ==> less(x, y) || less(y, z))
  }

  lemma {:induction false} InsertInOrder<T(!new)>(x: T, s: seq<T>, less: (T, T) -> bool)
    requires WeaklyOrders(less) && InOrder(s, less)
    ensures InOrder(Insert(x, s, less), less)
  {
    if s != [] {
      var rest, r := s[1..], Insert(x, s, less);
      assert forall i | 0 <= i < |rest| :: rest[i] == s[i + 1];
      if less(s[0], x) {
        InsertInOrder(x, rest, less);
        var inserted := Insert(x, rest, less);
        forall j | 0 <= j < |inserted| ensures !less(inserted[j], s[0]) {
          InsertMembers(x, rest, less, j);
        }
        assert forall i | 0 < i < |r| :: r[i] == inserted[i - 1];
      } else {
        forall j | 0 <= j < |s| ensures !less(s[j], x) { assert j > 0 ==> !less(s[j], s[0]); }
        assert forall i | 0 < i < |r| :: r[i] == s[i - 1];
      }
    }
  }

  /** Sorting puts a list in order. */
  lemma {:induction false} SortByInOrder<T(!new)>(s: seq<T>, less: (T, T) -> bool)
    requires WeaklyOrders(less)
    ensures InOrder(SortBy(s, less), less)
  {
    if s != [] {
      SortByInOrder(s[1..], less);
      InsertInOrder(s[0], SortBy(s[1..], less), less);
    }
  }

  lemma PermutationElems<T>(a: seq<T>, b: seq<T>)
    requires multiset(a) == multiset(b)
    ensures Elems(a) == Elems(b) && |a| == |b|
  {
    forall x ensures x in a <==> x in b {
      assert x in a <==> x in multiset(a);
      assert x in b <==> x in multiset(b);
    }
    assert |multiset(a)| == |a| && |multiset(b)| == |b|;
  }

  lemma {:induction false} InsertSorts<T>(x: T, s: seq<T>, less: (T, T) -> bool)
    requires Orders(less, Elems(s) + {x}) && x !in s && StrictlySorted(s, less)
    ensures StrictlySorted(Insert(x, s, less), less)
  {
    if s != [] {
      var t := s[1..];
      assert s[0] in Elems(s);
      if less(s[0], x) {
        OrdersSubset(less, Elems(t) + {x}, Elems(s) + {x});
        InsertSorts(x, t, less);
        var r := Insert(x, t, less);
        forall k | 0 <= k < |r| ensures less(s[0], r[k]) {
          InsertMembers(x, t, less, k);
          if q :| 0 <= q < |t| && t[q] == r[k] { assert t[q] == s[q + 1]; }
        }
      } else {
        FirstBelowAll(x, s, less);
      }
    }
  }

  lemma {:induction false} InsertMembers<T>(x: T, s: seq<T>, less: (T, T) -> bool, k: nat)
    requires k < |Insert(x, s, less)|
    ensures Insert(x, s, less)[k] == x || Insert(x, s, less)[k] in s
  {
    var y := Insert(x, s, less)[k];
    assert y in multiset(Insert(x, s, less));
    assert y == x || y in multiset(s);
  }

  lemma FirstBelowAll<T>(x: T, s: seq<T>, less: (T, T) -> bool)
    requires Orders(less, Elems(s) + {x}) && s != [] && x !in s && StrictlySorted(s, less) && !less(s[0], x)
    ensures forall k | 0 <= k < |s| :: less(x, s[k])
  {
    assert s[0] in Elems(s) && less(x, s[0]);
    forall k | 0 <= k < |s| ensures less(x, s[k]) { assert s[k] in Elems(s); }
  }

  lemma {:induction false} SortBySorts<T>(s: seq<T>, less: (T, T) -> bool)
    requires NoDup(s) && Orders(less, Elems(s))
    ensures StrictlySorted(SortBy(s, less), less)
    ensures Elems(SortBy(s, less)) == Elems(s)
  {
    PermutationElems(SortBy(s, less), s);
    if s != [] {
      var rest, sorted := s[1..], SortBy(s[1..], less);
      ElemsOfCons(s);
      OrdersSubset(less, Elems(rest), Elems(s));
      SortBySorts(rest, less);
      assert s[0] !in sorted by { assert s[0] in sorted <==> s[0] in Elems(sorted); }
      InsertSorts(s[0], sorted, less);
    }
  }

  lemma ElemsOfCons<T>(s: seq<T>)
    requires s != []
    ensures Elems(s) == Elems(s[1..]) + {s[0]}
    ensures NoDup(s) ==> NoDup(s[1..]) && s[0] !in Elems(s[1..])
  {
    assert s == [s[0]] + s[1..];
  }

  lemma ElemsOfSnoc<T>(s: seq<T>, x: T)
    ensures Elems(s + [x]) == Elems(s) + {x}
    ensures NoDup(s + [x]) <==> NoDup(s) && x !in Elems(s)
  {
    var t := s + [x];
    assert t[|s|] == x && forall i | 0 <= i < |s| :: t[i] == s[i];
    assert forall y :: y in t <==> y in s || y == x;
    if NoDup(t) { assert forall i | 0 <= i < |s| :: s[i] != t[|s|]; }
    if x !in Elems(s) { assert forall i | 0 <= i < |s| :: s[i] in Elems(s); }
  }

  lemma OrdersSubset<T>(less: (T, T) -> bool, s: set<T>, t: set<T>)
    requires Orders(less, t) && s <= t
    ensures Orders(less, s)
  {
  }

  /** The values of `s` that satisfy `keep`, each at its first occurrence. */
  function Distinct<T(==)>(s: seq<T>, keep: T -> bool): (r: seq<T>)
    ensures NoDup(r)
    ensures Elems(r) == set x | x in s && keep(x)
  {
    if s == [] then []
    else
      var prefix, last := s[..|s| - 1], s[|s| - 1];
      assert s == prefix + [last];
      var r := Distinct(prefix, keep);
      assert last in r <==> last in Elems(r);
      var all := if keep(last) && last !in r then r + [last] else r;
      assert Elems(all) == Elems(r) + (if keep(last) then {last} else {});
      assert (set x | x in s && keep(x)) == (set x | x in prefix && keep(x)) + (if keep(last) then {last} else {});
      all
  }

  /** x occurs before any y. */
  ghost predicate ComesFirst<T>(s: seq<T>, x: T, y: T) { exists p :: 0 <= p < |s| && s[p] == x && y !in s[..p + 1] }

  lemma ComesFirstOn<T>(prefix: seq<T>, last: T, x: T, y: T)
    requires x in prefix && (y !in prefix || ComesFirst(prefix, x, y))
    ensures ComesFirst(prefix + [last], x, y)
  {
    var s := prefix + [last];
    var p :| 0 <= p < |prefix| && prefix[p] == x && y !in prefix[..p + 1];
    assert s[..p + 1] == prefix[..p + 1];
    assert s[p] == x && y !in s[..p + 1];
  }

  ghost predicate InOrderOf<T>(r: seq<T>, s: seq<T>) {
    forall i, j | 0 <= i < j < |r| :: ComesFirst(s, r[i], r[j])
  }

  /** The distinct values are in the order of their first occurrences. */
  lemma {:induction false} DistinctInOrder<T>(s: seq<T>, keep: T -> bool)
    ensures InOrderOf(Distinct(s, keep), s)
  {
    if s != [] {
      var prefix, last := s[..|s| - 1], s[|s| - 1];
      DistinctInOrder(prefix, keep);
      var r, all := Distinct(prefix, keep), Distinct(s, keep);
      assert s == prefix + [last];
      forall i, j | 0 <= i < j < |all| ensures ComesFirst(s, all[i], all[j]) {
        assert r[i] in Elems(r) && (last in Elems(r) <==> last in r);
        ComesFirstOn(prefix, last, all[i], all[j]);
      }
    }
  }

  /** The loop with a `seen` table that the normalising functions share. */
  method CollectDistinct<T(==)>(s: seq<T>, keep: T -> bool) returns (r: seq<T>)
    ensures r == Distinct(s, keep)
  {
    r := [];
    var seen: set<T> := {};
    for i := 0 to |s|
      invariant r == Distinct(s[..i], keep)
      invariant seen == Elems(r)
    {
      assert s[..i + 1][..i] == s[..i];
      if keep(s[i]) && s[i] !in seen {
        seen := seen + {s[i]};
        r := r + [s[i]];
      }
    }
    assert s[..|s|] == s;
  }

  /** The kept values, de-duplicated and sorted: the common shape of every normalised list. */
  function Canonical<T(==)>(s: seq<T>, keep: T -> bool, less: (T, T) -> bool): (r: seq<T>)
  {
    SortBy(Distinct(s, keep), less)
  }

  lemma CanonicalIsSorted<T>(s: seq<T>, keep: T -> bool, less: (T, T) -> bool)
    requires Orders(less, Elems(s))
    ensures StrictlySorted(Canonical(s, keep, less), less)
    ensures Elems(Canonical(s, keep, less)) == set x | x in s && keep(x)
  {
    OrdersSubset(less, Elems(Distinct(s, keep)), Elems(s));
    SortBySorts(Distinct(s, keep), less);
  }

  /** A canonical list depends only on which kept values occur. */
  lemma CanonicalDependsOnMembers<T>(a: seq<T>, b: seq<T>, keep: T -> bool, less: (T, T) -> bool)
    requires Orders(less, Elems(a) + Elems(b))
    requires forall x | x in a && keep(x) :: x in b
    requires forall x | x in b && keep(x) :: x in a
    ensures Canonical(a, keep, less) == Canonical(b, keep, less)
  {
    var kept := set x | x in a && keep(x);
    assert kept == set x | x in b && keep(x);
    CanonicalOf(a, keep, less, kept, Elems(a) + Elems(b));
    CanonicalOf(b, keep, less, kept, Elems(a) + Elems(b));
    OrdersSubset(less, kept, Elems(a) + Elems(b));
    SortedListingIsUnique(Canonical(a, keep, less), Canonical(b, keep, less), less);
  }

  lemma CanonicalOf<T>(s: seq<T>, keep: T -> bool, less: (T, T) -> bool, kept: set<T>, all: set<T>)
    requires Orders(less, all) && Elems(s) <= all && kept == set x | x in s && keep(x)
    ensures StrictlySorted(Canonical(s, keep, less), less) && Elems(Canonical(s, keep, less)) == kept
  {
    OrdersSubset(less, Elems(s), all);
    CanonicalIsSorted(s, keep, less);
  }

  /** Strings in the order of Go's `<`, which on UTF-8 is the order of code points. */
  predicate StringLess(a: string, b: string) {
    if b == "" then false
    else if a == "" then true
    else a[0] < b[0] || (a[0] == b[0] && StringLess(a[1..], b[1..]))
  }

  lemma {:induction false} StringLessIrreflexive(a: string)
    ensures !StringLess(a, a)
  {
    if a != "" { StringLessIrreflexive(a[1..]); }
  }

  lemma {:induction false} StringLessTotal(a: string, b: string)
    ensures a != b ==> StringLess(a, b) || StringLess(b, a)
  {
    if a != "" && b != "" && a[0] == b[0] {
      StringLessTotal(a[1..], b[1..]);
      assert a == [a[0]] + a[1..] && b == [b[0]] + b[1..];
    }
  }

  lemma {:induction false} StringLessTransitive(a: string, b: string, c: string)
    requires StringLess(a, b) && StringLess(b, c)
    ensures StringLess(a, c)
  {
    if a != "" && a[0] == b[0] == c[0] {
      StringLessTransitive(a[1..], b[1..], c[1..]);
    }
  }

  /** Equal up to k, where a ends or goes on with a smaller code point. */
  ghost predicate BelowAt(a: string, b: string, k: int) {
    0 <= k <= |a| && k < |b| && a[..k] == b[..k] && (k == |a| || a[k] < b[k])
  }

  lemma HeadsAgree(a: string, b: string, k: int)
    requires BelowAt(a, b, k) && k > 0
    ensures a[0] == b[0]
  {
    assert a[..k][0] == b[..k][0];
  }

  /** A string is below another if it is a proper part of its beginning or has the smaller code point where they
      first differ. */
  lemma {:induction false} StringLessIs(a: string, b: string)
    ensures StringLess(a, b) <==> exists k :: BelowAt(a, b, k)
  {
    if a != "" && b != "" && a[0] == b[0] {
      var a', b' := a[1..], b[1..];
      StringLessIs(a', b');
      if k :| BelowAt(a', b', k) {
        assert a[..k + 1] == [a[0]] + a'[..k] && b[..k + 1] == [b[0]] + b'[..k];
        assert BelowAt(a, b, k + 1);
      }
      if k :| BelowAt(a, b, k) {
        assert k > 0;
        assert a'[..k - 1] == a[..k][1..] && b'[..k - 1] == b[..k][1..];
        assert BelowAt(a', b', k - 1);
      }
    } else if k :| BelowAt(a, b, k) {
      if k > 0 { HeadsAgree(a, b, k); }
    } else if StringLess(a, b) {
      assert BelowAt(a, b, 0);
    }
  }

  lemma StringOrder(s: set<string>)
    ensures Orders(StringLess, s)
  {
    forall x | x in s ensures !StringLess(x, x) { StringLessIrreflexive(x); }
    forall x, y | x in s && y in s ensures x != y ==> StringLess(x, y) || StringLess(y, x) { StringLessTotal(x, y); }
    forall x, y, z | x in s && y in s && z in s
      ensures StringLess(x, y) && StringLess(y, z) ==> StringLess(x, z)
    {
      if StringLess(x, y) && StringLess(y, z) { StringLessTransitive(x, y, z); }
    }
  }
}
