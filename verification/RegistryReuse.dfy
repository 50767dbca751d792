/** Giving generated characters the ids the registry already knows them by (extraction/core.go): a renaming that
    is injective and chain-free. Identity keys come in normalised: trimmed, lower-case and non-empty. */
module RegistryReuse {
  import opened Ordering

  /** `keys` are the merge keys, `allKeys` the merge keys together with generic aliases. */
  datatype Character = Character(id: string, name: string, firstAppearance: Episode, canonicalEpisode: Episode,
                                 keys: seq<string>, allKeys: seq<string>, details: string)

  // ----- which key names which registry id -----

  /** In how many registry entries a key occurs. */
  function Frequency(registry: seq<Character>, key: string): nat {
    if registry == [] then 0
    else Frequency(registry[..|registry| - 1], key) + (if key in registry[|registry| - 1].allKeys then 1 else 0)
  }

  function ExactKey(registry: seq<Character>, key: string): bool { |key| >= 2 && Frequency(registry, key) == 1 }

  function FirstSeen(c: Character): Episode {
    if c.firstAppearance != NO_EPISODE then c.firstAppearance else c.canonicalEpisode
  }

  /** Registry entries without id, or known to appear only after the boundary, lend no id. */
  predicate Eligible(c: Character, upTo: Episode) {
    c.id != "" && !(upTo != NO_EPISODE && FirstSeen(c) != NO_EPISODE && FirstSeen(c) > upTo)
  }

  ghost function IdsNamedBy(registry: seq<Character>, upTo: Episode, key: string): set<string> {
    set c | c in registry && Eligible(c, upTo) && key in c.keys :: c.id
  }

  /** The key table maps exactly the exact keys with a single eligible owner, to that owner. */
  ghost predicate IsKeyTable(table: map<string, string>, registry: seq<Character>, upTo: Episode) {
    && (forall key | key in table :: ExactKey(registry, key) && IdsNamedBy(registry, upTo, key) == {table[key]})
    && (forall key | key !in table :: !ExactKey(registry, key) || |IdsNamedBy(registry, upTo, key)| != 1)
  }

  /** A registry character with this id, not known to appear only after the boundary, has the key as a merge key. */
  ghost predicate Lends(registry: seq<Character>, upTo: Episode, key: string, id: string) {
    exists c | c in registry :: c.id == id && key in c.keys && !LaterThan(c, upTo)
  }

  /** The character is known to appear first after the boundary, if there is one. */
  predicate LaterThan(c: Character, upTo: Episode) {
    upTo != NO_EPISODE && (if c.firstAppearance != NO_EPISODE then c.firstAppearance > upTo
      else c.canonicalEpisode != NO_EPISODE && c.canonicalEpisode > upTo)
  }

  /** The only registry entry in which the key occurs, as a merge key or a generic alias. */
  ghost predicate OnlyAt(registry: seq<Character>, key: string, i: int) {
    && 0 <= i < |registry| && key in registry[i].allKeys
    && forall j | 0 <= j < |registry| && key in registry[j].allKeys :: j == i
  }

  /** A key of two characters or more that occurs in one registry entry only. */
  ghost predicate SingleKey(registry: seq<Character>, key: string) {
    |key| >= 2 && exists i :: OnlyAt(registry, key, i)
  }

  ghost predicate Unheard(registry: seq<Character>, key: string) {
    forall i | 0 <= i < |registry| :: key !in registry[i].allKeys
  }

  lemma OnlyAtSnoc(before: seq<Character>, last: Character, key: string)
    ensures Unheard(before + [last], key) <==> Unheard(before, key) && key !in last.allKeys
    ensures (exists i :: OnlyAt(before + [last], key, i)) <==>
      if key in last.allKeys then Unheard(before, key) else exists i :: OnlyAt(before, key, i)
  {
    var registry := before + [last];
    assert registry[|before|] == last && forall i | 0 <= i < |before| :: registry[i] == before[i];
    if i :| OnlyAt(before, key, i) && key !in last.allKeys { assert OnlyAt(registry, key, i); }
    if key in last.allKeys && Unheard(before, key) { assert OnlyAt(registry, key, |before|); }
    if i :| OnlyAt(registry, key, i) {
      if key in last.allKeys {
        assert i == |before|;
        forall j | 0 <= j < |before| ensures key !in before[j].allKeys { assert registry[j] == before[j]; }
      } else {
        assert OnlyAt(before, key, i);
      }
    }
    if Unheard(registry, key) {
      forall j | 0 <= j < |before| ensures key !in before[j].allKeys { assert registry[j] == before[j]; }
    }
  }

  lemma {:induction false} FrequencyCounts(registry: seq<Character>, key: string)
    ensures Frequency(registry, key) == 0 <==> Unheard(registry, key)
    ensures Frequency(registry, key) == 1 <==> exists i :: OnlyAt(registry, key, i)
  {
    if registry != [] {
      var before, last := registry[..|registry| - 1], registry[|registry| - 1];
      FrequencyCounts(before, key);
      OnlyAtSnoc(before, last, key);
      Rejoin(registry, |registry| - 1);
    }
  }

  /** The ids that the key table draws on are those that are lent. */
  lemma NamedIsLent(registry: seq<Character>, upTo: Episode, key: string, id: string)
    ensures id in IdsNamedBy(registry, upTo, key) <==> id != "" && Lends(registry, upTo, key, id)
  {
    if id != "" && Lends(registry, upTo, key, id) {
      var c :| c in registry && c.id == id && key in c.keys && !LaterThan(c, upTo);
      assert Eligible(c, upTo);
    }
    if id in IdsNamedBy(registry, upTo, key) {
      var c :| c in registry && Eligible(c, upTo) && key in c.keys && c.id == id;
      assert !LaterThan(c, upTo);
    }
  }

  /** The only id, if not empty, that the key is lent for. */
  ghost predicate OnlyLent(registry: seq<Character>, upTo: Episode, key: string, id: string) {
    Lends(registry, upTo, key, id) && forall other | other != "" && Lends(registry, upTo, key, other) :: other == id
  }

  /** The key table in terms of the registry: a single key stands for an id if that and no other is lent for it. */
  lemma TableLends(table: map<string, string>, registry: seq<Character>, upTo: Episode, key: string, id: string)
    requires IsKeyTable(table, registry, upTo) && id != ""
    ensures key in table && table[key] == id <==> SingleKey(registry, key) && OnlyLent(registry, upTo, key, id)
  {
    FrequencyCounts(registry, key);
    var named := IdsNamedBy(registry, upTo, key);
    forall other ensures other in named <==> other != "" && Lends(registry, upTo, key, other) {
      NamedIsLent(registry, upTo, key, other);
    }
    if OnlyLent(registry, upTo, key, id) { assert named == {id}; }
    if key in table && table[key] == id { assert id in named; }
  }

  // ----- targets and renaming -----

  ghost function Named(table: map<string, string>, keys: seq<string>): set<string> {
    set k | k in keys && k in table :: table[k]
  }

  /** The registry id all keys of a character agree on, if there is one. */
  ghost function TargetOf(table: map<string, string>, keys: seq<string>): string {
    if exists id :: id != "" && Named(table, keys) == {id} then
      var id :| id != "" && Named(table, keys) == {id};
      id
    else ""
  }

  /** The target is the one id that some key of the character stands for and no other key disagrees with. */
  lemma TargetExactly(table: map<string, string>, keys: seq<string>, id: string)
    requires id != ""
    ensures TargetOf(table, keys) == id <==>
      (exists key :: key in keys && key in table && table[key] == id)
        && forall key | key in keys && key in table :: table[key] == id
  {
    var named := Named(table, keys);
    if (exists key :: key in keys && key in table && table[key] == id)
      && forall key | key in keys && key in table :: table[key] == id
    {
      assert named == {id};
      assert forall other: string | named == {other} :: other in {id};
    }
    if TargetOf(table, keys) == id {
      assert named == {id};
      assert id in named;
      forall key | key in keys && key in table ensures table[key] == id { assert table[key] in named; }
    }
  }

  function Ids(cs: seq<Character>): seq<string> { seq(|cs|, i requires 0 <= i < |cs| => cs[i].id) }

  /** Non-empty ids are pairwise distinct. */
  ghost predicate DistinctIds(cs: seq<Character>) {
    forall i, j | 0 <= i < j < |cs| && cs[i].id != "" :: cs[i].id != cs[j].id
  }

  ghost predicate Claims(cs: seq<Character>, targets: seq<string>, i: int)
    requires |targets| == |cs|
  {
    0 <= i < |cs| && targets[i] != "" && targets[i] != cs[i].id
  }

  /** A character takes its target if it alone claims it and no generated character holds it. */
  ghost predicate Renames(cs: seq<Character>, targets: seq<string>, i: int)
    requires |targets| == |cs|
  {
    && Claims(cs, targets, i)
    && (forall j :: Claims(cs, targets, j) && targets[j] == targets[i] ==> j == i)
    && targets[i] !in Ids(cs)
  }

  ghost predicate IsRenamed(cs: seq<Character>, targets: seq<string>, renamed: seq<Character>)
    requires |targets| == |cs|
  {
    && |renamed| == |cs|
    && forall i | 0 <= i < |cs| :: renamed[i] == if Renames(cs, targets, i) then cs[i].(id := targets[i]) else cs[i]
  }

  ghost predicate IsRemap(cs: seq<Character>, targets: seq<string>, remap: map<string, string>)
    requires |targets| == |cs|
  {
    && (forall i | 0 <= i < |cs| && cs[i].id != "" && Renames(cs, targets, i) ::
      cs[i].id in remap && remap[cs[i].id] == targets[i])
    && (forall id | id in remap :: exists i :: 0 <= i < |cs| && cs[i].id == id && id != "" && Renames(cs, targets, i))
  }

  function Remapped(remap: map<string, string>, id: string): string { if id in remap then remap[id] else id }

  // ----- main results -----

  /** Renaming keeps ids distinct, and no new id was held by any generated character. */
  lemma RenamingIsInjective(cs: seq<Character>, targets: seq<string>, renamed: seq<Character>)
    requires DistinctIds(cs) && |targets| == |cs| && IsRenamed(cs, targets, renamed)
    ensures DistinctIds(renamed)
    ensures forall i | 0 <= i < |cs| && renamed[i] != cs[i] :: renamed[i].id !in Ids(cs) && renamed[i].id != ""
  {
    forall i, j | 0 <= i < j < |cs| && renamed[i].id != "" ensures renamed[i].id != renamed[j].id {
      assert Ids(cs)[i] == cs[i].id && Ids(cs)[j] == cs[j].id;
      assert Renames(cs, targets, i) && Claims(cs, targets, j) ==> targets[j] != targets[i];
    }
  }

  /** The remap has no chains and sends different generated ids to different ids, so one pass over events and
      candidate lists is enough. */
  lemma RemapHasNoChains(cs: seq<Character>, targets: seq<string>, remap: map<string, string>)
    requires DistinctIds(cs) && |targets| == |cs| && IsRemap(cs, targets, remap)
    ensures remap.Keys !! remap.Values && Elems(Ids(cs)) !! remap.Values
    ensures forall id :: Remapped(remap, Remapped(remap, id)) == Remapped(remap, id)
    ensures forall a, b | a in Ids(cs) && b in Ids(cs) && a != b :: Remapped(remap, a) != Remapped(remap, b)
  {
    forall id | id in remap ensures id in Ids(cs) && remap[id] !in Ids(cs) {
      var i :| 0 <= i < |cs| && cs[i].id == id && id != "" && Renames(cs, targets, i);
      assert Ids(cs)[i] == id;
    }
    forall a, b | a in remap && b in remap && a != b ensures remap[a] != remap[b] {
      var i :| 0 <= i < |cs| && cs[i].id == a && a != "" && Renames(cs, targets, i);
      var j :| 0 <= j < |cs| && cs[j].id == b && b != "" && Renames(cs, targets, j);
      assert Claims(cs, targets, j);
    }
  }

  /** No spoilers by id: a new id is lent by a registry character with a merge key of two characters or more in common
      that no other registry entry has and no other id is lent for, and which is not known to appear only later. */
  lemma RenamedByKnown(table: map<string, string>, registry: seq<Character>, upTo: Episode, cs: seq<Character>,
                       targets: seq<string>, i: nat)
    requires IsKeyTable(table, registry, upTo) && |targets| == |cs| && i < |cs|
    requires targets[i] == TargetOf(table, cs[i].keys) && Renames(cs, targets, i)
    ensures exists key | key in cs[i].keys ::
      SingleKey(registry, key) && OnlyLent(registry, upTo, key, targets[i])
  {
    TargetExactly(table, cs[i].keys, targets[i]);
    var key :| key in cs[i].keys && key in table && table[key] == targets[i];
    TableLends(table, registry, upTo, key, targets[i]);
  }

  // ----- the code -----

  method IdentityFrequency(registry: seq<Character>) returns (frequency: map<string, nat>)
    ensures forall key :: (if key in frequency then frequency[key] else 0) == Frequency(registry, key)
  {
    frequency := map[];
    for i := 0 to |registry|
      invariant forall key :: (if key in frequency then frequency[key] else 0) == Frequency(registry[..i], key)
    {
      assert registry[..i + 1][..i] == registry[..i];
      var keys := registry[i].allKeys;
      var seen: set<string> := {};
      for k := 0 to |keys|
        invariant seen == Elems(keys[..k])
        invariant forall key :: (if key in frequency then frequency[key] else 0)
                             == Frequency(registry[..i], key) + (if key in seen then 1 else 0)
      {
        assert keys[..k + 1] == keys[..k] + [keys[k]];
        var key := keys[k];
        if key in seen { continue; }
        seen := seen + {key};
        frequency := frequency[key := (if key in frequency then frequency[key] else 0) + 1];
      }
      assert keys[..|keys|] == keys;
      forall key ensures key in seen <==> key in keys { assert key in seen <==> key in Elems(keys); }
    }
    assert registry[..|registry|] == registry;
  }

  /** The ids each exact key can stand for. */
  method CollectIdsByKey(registry: seq<Character>, upTo: Episode, frequency: map<string, nat>)
    returns (idsByKey: map<string, set<string>>)
    requires forall key :: (if key in frequency then frequency[key] else 0) == Frequency(registry, key)
    ensures forall key :: (if key in idsByKey then idsByKey[key] else {})
                       == if ExactKey(registry, key) then IdsNamedBy(registry, upTo, key) else {}
  {
    idsByKey := map[];
    for i := 0 to |registry|
      invariant forall key :: (if key in idsByKey then idsByKey[key] else {})
                           == if ExactKey(registry, key) then IdsNamedBy(registry[..i], upTo, key) else {}
    {
      var c := registry[i];
      assert registry[..i + 1] == registry[..i] + [c];
      forall key ensures IdsNamedBy(registry[..i + 1], upTo, key)
                      == IdsNamedBy(registry[..i], upTo, key)
                        + (if Eligible(c, upTo) && key in c.keys then {c.id} else {})
      {
        NamedSnoc(registry[..i], c, upTo, key);
      }
      if !Eligible(c, upTo) { continue; }
      for k := 0 to |c.keys|
        invariant forall key :: (if key in idsByKey then idsByKey[key] else {})
                             == if ExactKey(registry, key)
                               then IdsNamedBy(registry[..i], upTo, key) + (if key in c.keys[..k] then {c.id} else {})
                               else {}
      {
        assert c.keys[..k + 1] == c.keys[..k] + [c.keys[k]];
        var key := c.keys[k];
        if !(|key| >= 2 && key in frequency && frequency[key] == 1) { continue; }
        idsByKey := idsByKey[key := (if key in idsByKey then idsByKey[key] else {}) + {c.id}];
      }
      assert c.keys[..|c.keys|] == c.keys;
    }
    assert registry[..|registry|] == registry;
  }

  lemma NamedSnoc(registry: seq<Character>, c: Character, upTo: Episode, key: string)
    ensures IdsNamedBy(registry + [c], upTo, key)
         == IdsNamedBy(registry, upTo, key) + (if Eligible(c, upTo) && key in c.keys then {c.id} else {})
  {
    assert forall d :: d in registry + [c] <==> d in registry || d == c;
  }

  method BuildKeyTable(registry: seq<Character>, upTo: Episode) returns (table: map<string, string>)
    ensures IsKeyTable(table, registry, upTo)
  {
    var frequency := IdentityFrequency(registry);
    var idsByKey := CollectIdsByKey(registry, upTo, frequency);
    table := map[];
    var remaining := idsByKey.Keys;
    while remaining != {}
      invariant remaining <= idsByKey.Keys
      invariant forall key | key in table :: key in idsByKey && idsByKey[key] == {table[key]}
      invariant forall key | key in idsByKey.Keys - remaining && key !in table :: |idsByKey[key]| != 1
    {
      var key :| key in remaining;
      remaining := remaining - {key};
      var ids := idsByKey[key];
      if |ids| != 1 { continue; }
      OneElement(ids);
      var id :| id in ids;
      table := table[key := id];
    }
    forall key ensures (if key in idsByKey then idsByKey[key] else {}) == if ExactKey(registry, key)
      then IdsNamedBy(registry, upTo, key) else {} {}
    forall key | key in table ensures ExactKey(registry, key) && IdsNamedBy(registry, upTo, key) == {table[key]} {
      assert table[key] in idsByKey[key];
    }
  }

  lemma OneElement(ids: set<string>)
    requires |ids| == 1
    ensures exists id :: id in ids && ids == {id}
  {
    var id :| id in ids;
    assert |ids - {id}| == 0;
    assert ids == {id};
  }

  /** The scan over a character's keys: the first disagreement ends it without a target. */
  method FindTarget(table: map<string, string>, keys: seq<string>) returns (target: string)
    requires forall key | key in table :: table[key] != ""
    ensures target == TargetOf(table, keys)
  {
    target := "";
    for k := 0 to |keys|
      invariant Named(table, keys[..k]) == if target == "" then {} else {target}
    {
      assert keys[..k + 1] == keys[..k] + [keys[k]];
      var id := if keys[k] in table then table[keys[k]] else "";
      if id == "" {
        assert Named(table, keys[..k + 1]) == Named(table, keys[..k]);
        continue;
      }
      assert Named(table, keys[..k + 1]) == Named(table, keys[..k]) + {id};
      if target != "" && target != id {
        assert {target, id} <= Named(table, keys) by { NamedPrefix(table, keys, k + 1); }
        return "";
      }
      target := id;
    }
    assert keys[..|keys|] == keys;
  }

  lemma NamedPrefix(table: map<string, string>, keys: seq<string>, k: nat)
    requires k <= |keys|
    ensures Named(table, keys[..k]) <= Named(table, keys)
  {
  }

  method FindTargets(table: map<string, string>, cs: seq<Character>) returns (targets: seq<string>)
    requires forall key | key in table :: table[key] != ""
    ensures |targets| == |cs| && forall i | 0 <= i < |cs| :: targets[i] == TargetOf(table, cs[i].keys)
  {
    targets := [];
    for i := 0 to |cs|
      invariant |targets| == i && forall j | 0 <= j < i :: targets[j] == TargetOf(table, cs[j].keys)
    {
      var target := FindTarget(table, cs[i].keys);
      targets := targets + [target];
    }
  }

  /** How many of the first n characters claim a target. */
  ghost function ClaimCount(cs: seq<Character>, targets: seq<string>, target: string, n: nat): nat
    requires |targets| == |cs| && n <= |cs|
  {
    if n == 0 then 0
    else
      ClaimCount(cs, targets, target, n - 1) +
      (if Claims(cs, targets, n - 1) && targets[n - 1] == target then 1 else 0)
  }

  /** A claim counted once is the only one. */
  lemma {:induction false} CountedClaims(cs: seq<Character>, targets: seq<string>, target: string, n: nat, i: nat)
    requires |targets| == |cs| && i < n <= |cs| && Claims(cs, targets, i) && targets[i] == target
    ensures ClaimCount(cs, targets, target, n) >= 1
    ensures ClaimCount(cs, targets, target, n) == 1
      <==> forall j | 0 <= j < n && Claims(cs, targets, j) && targets[j] == target :: j == i
  {
    if i < n - 1 {
      CountedClaims(cs, targets, target, n - 1, i);
    } else {
      NoClaims(cs, targets, target, n - 1);
    }
  }

  lemma {:induction false} NoClaims(cs: seq<Character>, targets: seq<string>, target: string, n: nat)
    requires |targets| == |cs| && n <= |cs|
    ensures ClaimCount(cs, targets, target, n) == 0 <==> forall j | 0 <= j < n ::
      !(Claims(cs, targets, j) && targets[j] == target)
  {
    if n > 0 { NoClaims(cs, targets, target, n - 1); }
  }

  method CountClaims(cs: seq<Character>, targets: seq<string>) returns (claimCounts: map<string, nat>)
    requires |targets| == |cs|
    ensures forall t :: (if t in claimCounts then claimCounts[t] else 0) == ClaimCount(cs, targets, t, |cs|)
  {
    claimCounts := map[];
    for i := 0 to |cs|
      invariant forall t :: (if t in claimCounts then claimCounts[t] else 0) == ClaimCount(cs, targets, t, i)
    {
      var target := targets[i];
      if target != "" && target != cs[i].id {
        claimCounts := claimCounts[target := (if target in claimCounts then claimCounts[target] else 0) + 1];
      }
    }
  }

  method Rename(cs: seq<Character>, targets: seq<string>, claimCounts: map<string, nat>, occupied: set<string>)
    returns (renamed: seq<Character>, remap: map<string, string>, retired: seq<(string, string)>)
    requires |targets| == |cs| && DistinctIds(cs)
    requires forall t :: (if t in claimCounts then claimCounts[t] else 0) == ClaimCount(cs, targets, t, |cs|)
    requires forall t | t != "" :: t in occupied <==> t in Ids(cs)
    ensures IsRenamed(cs, targets, renamed) && IsRemap(cs, targets, remap) && RetiredBy(remap, retired)
  {
    renamed := cs;
    remap, retired := map[], [];
    for i := 0 to |cs|
      invariant |renamed| == |cs|
      invariant forall j | 0 <= j < i ::
        renamed[j] == if Renames(cs, targets, j) then cs[j].(id := targets[j]) else cs[j]
      invariant forall j | i <= j < |cs| :: renamed[j] == cs[j]
      invariant forall j | 0 <= j < i && cs[j].id != "" && Renames(cs, targets, j) ::
        cs[j].id in remap && remap[cs[j].id] == targets[j]
      invariant forall id | id in remap ::
        exists j :: 0 <= j < i && cs[j].id == id && id != "" && Renames(cs, targets, j)
      invariant RetiredBy(remap, retired)
    {
      var current, target := cs[i].id, targets[i];
      if Claims(cs, targets, i) { CountedClaims(cs, targets, target, |cs|, i); }
      if target == "" || target == current || !(target in claimCounts && claimCounts[target] == 1)
        || target in occupied {
        continue;
      }
      assert Renames(cs, targets, i);
      renamed := renamed[i := renamed[i].(id := target)];
      if current != "" {
        RetireOneMore(remap, retired, current, target);
        remap := remap[current := target];
        retired := retired + [(current, target)];
      }
    }
  }

  /** Each renamed id is retired once, merged into its new one. */
  ghost predicate RetiredBy(remap: map<string, string>, retired: seq<(string, string)>) {
    NoDup(retired) && forall id, target :: (id, target) in retired <==> id in remap && remap[id] == target
  }

  lemma RetireOneMore(remap: map<string, string>, retired: seq<(string, string)>, id: string, target: string)
    requires RetiredBy(remap, retired) && id !in remap
    ensures RetiredBy(remap[id := target], retired + [(id, target)])
  {
  }

  method OccupiedIds(cs: seq<Character>) returns (occupied: set<string>)
    ensures forall t | t != "" :: t in occupied <==> t in Ids(cs)
  {
    occupied := {};
    for i := 0 to |cs|
      invariant forall t | t != "" :: t in occupied <==> t in Ids(cs)[..i]
    {
      assert Ids(cs)[..i + 1] == Ids(cs)[..i] + [cs[i].id];
      if cs[i].id != "" { occupied := occupied + {cs[i].id}; }
    }
    assert Ids(cs)[..|cs|] == Ids(cs);
  }

  /** Characters by id: those without an id, and the ids of the others in order of first occurrence; nothing is
      lost as long as the ids are distinct. */
  ghost predicate Grouped(cs: seq<Character>, byId: map<string, Character>, withoutId: seq<Character>,
                          order: seq<string>)
  {
    && Elems(order) == byId.Keys && (forall id | id in byId :: id != "" && id in Ids(cs))
    && (DistinctIds(cs) ==> multiset(withoutId + Looked(byId, order)) == multiset(cs))
  }

  lemma GroupWithout(cs: seq<Character>, byId: map<string, Character>, withoutId: seq<Character>, order: seq<string>,
                     c: Character)
    requires Grouped(cs, byId, withoutId, order) && c.id == ""
    ensures Grouped(cs + [c], byId, withoutId + [c], order)
  {
    IdsSnoc(cs, c);
    InsertedMultiset(withoutId, c, Looked(byId, order));
  }

  lemma InsertedMultiset<T>(a: seq<T>, x: T, b: seq<T>)
    ensures multiset(a + [x] + b) == multiset(a + b) + multiset{x}
  {
    assert multiset(a + [x] + b) == multiset(a) + multiset([x]) + multiset(b);
  }

  lemma GroupNew(cs: seq<Character>, byId: map<string, Character>, withoutId: seq<Character>, order: seq<string>,
                 c: Character)
    requires Grouped(cs, byId, withoutId, order) && c.id != "" && c.id !in byId
    ensures Grouped(cs + [c], byId[c.id := c], withoutId, order + [c.id])
  {
    IdsSnoc(cs, c);
    LookedSnoc(byId, order, c);
    assert Elems(order + [c.id]) == Elems(order) + {c.id};
    assert withoutId + (Looked(byId, order) + [c]) == withoutId + Looked(byId, order) + [c];
  }

  lemma GroupAgain(cs: seq<Character>, byId: map<string, Character>, withoutId: seq<Character>, order: seq<string>,
                   c: Character, merged: Character)
    requires Grouped(cs, byId, withoutId, order) && c.id in byId
    ensures Grouped(cs + [c], byId[c.id := merged], withoutId, order)
  {
    IdsSnoc(cs, c);
    var i :| 0 <= i < |cs| && Ids(cs)[i] == c.id;
    assert (cs + [c])[i].id == (cs + [c])[|cs|].id != "";
    assert byId[c.id := merged].Keys == byId.Keys;
  }

  lemma IdsSnoc(cs: seq<Character>, c: Character)
    ensures Ids(cs + [c]) == Ids(cs) + [c.id]
    ensures DistinctIds(cs + [c]) ==> DistinctIds(cs)
  {
    assert forall i | 0 <= i < |cs| :: (cs + [c])[i] == cs[i];
  }

  method GroupById(cs: seq<Character>, combine: (Character, Character) -> Character)
    returns (byId: map<string, Character>, withoutId: seq<Character>, order: seq<string>)
    ensures Grouped(cs, byId, withoutId, order) && FoldedSoFar(cs, combine, byId, withoutId, order)
  {
    byId, withoutId, order := map[], [], [];
    for i := 0 to |cs|
      invariant Grouped(cs[..i], byId, withoutId, order) && FoldedSoFar(cs[..i], combine, byId, withoutId, order)
    {
      TakeNext(cs, i);
      byId, withoutId, order := GroupOne(cs[..i], combine, byId, withoutId, order, cs[i]);
    }
    assert cs[..|cs|] == cs;
  }

  /** One iteration of the loop. */
  method GroupOne(ghost cs: seq<Character>, combine: (Character, Character) -> Character,
                  byId: map<string, Character>, withoutId: seq<Character>, order: seq<string>, c: Character)
    returns (byId': map<string, Character>, withoutId': seq<Character>, order': seq<string>)
    requires Grouped(cs, byId, withoutId, order) && FoldedSoFar(cs, combine, byId, withoutId, order)
    ensures Grouped(cs + [c], byId', withoutId', order') && FoldedSoFar(cs + [c], combine, byId', withoutId', order')
  {
    byId', withoutId', order' := byId, withoutId, order;
    if c.id == "" {
      GroupWithout(cs, byId, withoutId, order, c);
      FoldWithout(cs, combine, byId, withoutId, order, c);
      withoutId' := withoutId + [c];
      return;
    }
    if c.id in byId {
      var merged := combine(byId[c.id], c);
      GroupAgain(cs, byId, withoutId, order, c, merged);
      FoldWith(cs, combine, byId, withoutId, order, c, merged);
      byId' := byId[c.id := merged];
      return;
    }
    GroupNew(cs, byId, withoutId, order, c);
    FoldWith(cs, combine, byId, withoutId, order, c, c);
    byId' := byId[c.id := c];
    order' := order + [c.id];
  }

  // ----- characters that share an id -----

  predicate NonEmpty(id: string) { id != "" }

  /** All characters with this id, folded in list order. */
  function Folded(cs: seq<Character>, combine: (Character, Character) -> Character, id: string): Option<Character> {
    if cs == [] then None
    else
      var before, c := Folded(cs[..|cs| - 1], combine, id), cs[|cs| - 1];
      if c.id != id then before else if before.None? then Some(c) else Some(combine(before.value, c))
  }

  function WithoutId(cs: seq<Character>): seq<Character> {
    if cs == [] then []
    else
      var before, c := WithoutId(cs[..|cs| - 1]), cs[|cs| - 1];
      if c.id == "" then before + [c] else before
  }

  /** Those without id come first, the others in order of first occurrence of their ids. */
  function MergedById(cs: seq<Character>, combine: (Character, Character) -> Character): seq<Character> {
    WithoutId(cs) + FoldedInOrder(cs, combine, Distinct(Ids(cs), NonEmpty))
  }

  function FoldedInOrder(cs: seq<Character>, combine: (Character, Character) -> Character,
                         order: seq<string>): seq<Character>
  {
    if order == [] then []
    else
      var before, c := FoldedInOrder(cs, combine, order[..|order| - 1]), Folded(cs, combine, order[|order| - 1]);
      if c.Some? then before + [c.value] else before
  }

  /** What the grouping loop has of the characters so far. */
  ghost predicate FoldedSoFar(cs: seq<Character>, combine: (Character, Character) -> Character,
                              byId: map<string, Character>, withoutId: seq<Character>, order: seq<string>) {
    && withoutId == WithoutId(cs) && order == Distinct(Ids(cs), NonEmpty)
    && forall id :: FoldedAt(cs, combine, byId, id)
  }

  ghost predicate FoldedAt(cs: seq<Character>, combine: (Character, Character) -> Character, byId: map<string,
                           Character>, id: string)
  {
    id != "" ==> Folded(cs, combine, id) == if id in byId then Some(byId[id]) else None
  }

  lemma {:induction false} FoldedSnoc(cs: seq<Character>, combine: (Character, Character) -> Character, c: Character,
                                      id: string)
    ensures Folded(cs + [c], combine, id) ==
      var before := Folded(cs, combine, id);
      if c.id != id then before else if before.None? then Some(c) else Some(combine(before.value, c))
    ensures WithoutId(cs + [c]) == WithoutId(cs) + if c.id == "" then [c] else []
  {
    assert (cs + [c])[..|cs|] == cs;
    assert WithoutId(cs) + [] == WithoutId(cs);
  }

  lemma DistinctIdsSnoc(cs: seq<Character>, c: Character, order: seq<string>)
    requires order == Distinct(Ids(cs), NonEmpty)
    ensures Distinct(Ids(cs + [c]), NonEmpty) == if c.id == "" || c.id in Elems(order) then order else order + [c.id]
  {
    IdsSnoc(cs, c);
    assert (Ids(cs) + [c.id])[..|Ids(cs)|] == Ids(cs);
    assert c.id in order <==> c.id in Elems(order);
  }

  lemma FoldWithout(cs: seq<Character>, combine: (Character, Character) -> Character,
                    byId: map<string, Character>, withoutId: seq<Character>, order: seq<string>, c: Character)
    requires FoldedSoFar(cs, combine, byId, withoutId, order) && c.id == ""
    ensures FoldedSoFar(cs + [c], combine, byId, withoutId + [c], order)
  {
    DistinctIdsSnoc(cs, c, order);
    forall id ensures FoldedAt(cs + [c], combine, byId, id) {
      FoldedSnoc(cs, combine, c, id);
      assert FoldedAt(cs, combine, byId, id);
    }
    FoldedSnoc(cs, combine, c, "");
  }

  lemma FoldWith(cs: seq<Character>, combine: (Character, Character) -> Character,
                 byId: map<string, Character>, withoutId: seq<Character>, order: seq<string>, c: Character,
                   folded: Character)
    requires FoldedSoFar(cs, combine, byId, withoutId, order) && Elems(order) == byId.Keys && c.id != ""
    requires folded == if c.id in byId then combine(byId[c.id], c) else c
    ensures FoldedSoFar(cs + [c], combine, byId[c.id := folded], withoutId, if c.id in byId then order
      else order + [c.id])
  {
    var byId' := byId[c.id := folded];
    DistinctIdsSnoc(cs, c, order);
    forall id ensures FoldedAt(cs + [c], combine, byId', id) {
      FoldedSnoc(cs, combine, c, id);
      assert FoldedAt(cs, combine, byId, id);
    }
    FoldedSnoc(cs, combine, c, "");
    assert WithoutId(cs) + [] == WithoutId(cs);
  }

  lemma {:induction false} LookedIsFolded(cs: seq<Character>, combine: (Character, Character) -> Character,
                                          byId: map<string, Character>, order: seq<string>)
    requires forall id | id in order :: id != ""
    requires forall id :: FoldedAt(cs, combine, byId, id)
    ensures Looked(byId, order) == FoldedInOrder(cs, combine, order)
  {
    if order != [] {
      var before, id := order[..|order| - 1], order[|order| - 1];
      assert id in order && FoldedAt(cs, combine, byId, id);
      assert forall x | x in before :: x in order;
      LookedIsFolded(cs, combine, byId, order[..|order| - 1]);
    }
  }

  lemma {:induction false} GroupedIsMerged(cs: seq<Character>, combine: (Character, Character) -> Character,
                        byId: map<string, Character>, withoutId: seq<Character>, order: seq<string>)
    requires Grouped(cs, byId, withoutId, order) && FoldedSoFar(cs, combine, byId, withoutId, order)
    ensures withoutId + Looked(byId, order) == MergedById(cs, combine)
  {
    forall id | id in order ensures id != "" { assert id in Elems(order) && id in byId; }
    LookedIsFolded(cs, combine, byId, order);
  }

  /** By first appearance, and within an episode by name. */
  ghost predicate ByAppearance(cs: seq<Character>) {
    forall i, j | 0 <= i < j < |cs| ::
      cs[i].firstAppearance < cs[j].firstAppearance
        || (cs[i].firstAppearance == cs[j].firstAppearance && !StringLess(cs[j].name, cs[i].name))
  }

  lemma OrderedByAppearance(cs: seq<Character>)
    requires InOrder(cs, CharacterLess)
    ensures ByAppearance(cs)
  {
  }

  /** What is put together when characters are combined. */
  ghost predicate Adds<K(!new)>(combine: (Character, Character) -> Character, held: Character -> set<K>) {
    forall a: Character, b: Character {:trigger combine(a, b)} :: held(combine(a, b)) == held(a) + held(b)
  }

  /** Characters that share an id become one that holds what they all held. */
  lemma {:induction false} FoldedGathers<K(!new)>(cs: seq<Character>, combine: (Character, Character) -> Character,
                                            id: string, held: Character -> set<K>)
    requires Adds(combine, held)
    ensures Folded(cs, combine, id).Some? <==> id in Ids(cs)
    ensures Folded(cs, combine, id).Some? ==>
      held(Folded(cs, combine, id).value) == set c, k | c in cs && c.id == id && k in held(c) :: k
  {
    if cs != [] {
      var before, c := cs[..|cs| - 1], cs[|cs| - 1];
      FoldedGathers(before, combine, id, held);
      assert cs == before + [c];
      IdsSnoc(before, c);
      assert forall d :: d in cs <==> d in before || d == c;
      if id !in Ids(before) { NoneHasId(before, id); }
    }
  }

  lemma NoneHasId(cs: seq<Character>, id: string)
    requires id !in Ids(cs)
    ensures forall c | c in cs :: c.id != id
  {
    forall c | c in cs ensures c.id != id {
      var i :| 0 <= i < |cs| && cs[i] == c;
      assert Ids(cs)[i] == c.id;
    }
  }

  /** It keeps what combining keeps of its first argument from the first of them. */
  lemma {:induction false} FoldedKeepsFirst<K(!new)>(cs: seq<Character>, combine: (Character, Character) -> Character,
                                               id: string, field: Character -> K, i: nat)
    requires i < |cs| && cs[i].id == id && forall j | 0 <= j < i :: cs[j].id != id
    requires forall a: Character, b: Character {:trigger combine(a, b)} :: field(combine(a, b)) == field(a)
    ensures Folded(cs, combine, id).Some? && field(Folded(cs, combine, id).value) == field(cs[i])
  {
    var before := cs[..|cs| - 1];
    if i < |before| { FoldedKeepsFirst(before, combine, id, field, i); } else { NoneFolded(before, combine, id); }
  }

  /** It takes what combining takes from its second argument from the last of them. */
  lemma {:induction false} FoldedTakesLast<K(!new)>(cs: seq<Character>, combine: (Character, Character) -> Character,
                                              id: string, field: Character -> K, i: nat)
    requires i < |cs| && cs[i].id == id && forall j | i < j < |cs| :: cs[j].id != id
    requires forall a: Character, b: Character {:trigger combine(a, b)} :: field(combine(a, b)) == field(b)
    ensures Folded(cs, combine, id).Some? && field(Folded(cs, combine, id).value) == field(cs[i])
  {
    if i < |cs| - 1 { FoldedTakesLast(cs[..|cs| - 1], combine, id, field, i); }
  }

  lemma {:induction false} NoneFolded(cs: seq<Character>, combine: (Character, Character) -> Character, id: string)
    requires forall j | 0 <= j < |cs| :: cs[j].id != id
    ensures Folded(cs, combine, id).None?
  {
    if cs != [] { NoneFolded(cs[..|cs| - 1], combine, id); }
  }

  /** Characters merged by id, and sorted. */
  method MergeById(cs: seq<Character>, combine: (Character, Character) -> Character) returns (result: seq<Character>)
    ensures result == SortBy(MergedById(cs, combine), CharacterLess) && ByAppearance(result)
    ensures DistinctIds(cs) ==> multiset(result) == multiset(cs)
  {
    var byId, withoutId, order := GroupById(cs, combine);
    GroupedIsMerged(cs, combine, byId, withoutId, order);
    result := ListById(byId, withoutId, order);
    CharactersOrdered();
    SortByInOrder(result, CharacterLess);
    result := SortBy(result, CharacterLess);
    OrderedByAppearance(result);
  }

  method ListById(byId: map<string, Character>, withoutId: seq<Character>, order: seq<string>)
    returns (result: seq<Character>)
    requires Elems(order) == byId.Keys
    ensures result == withoutId + Looked(byId, order)
  {
    result := withoutId;
    for i := 0 to |order|
      invariant result == withoutId + Looked(byId, order[..i])
    {
      assert order[i] in Elems(order);
      LookedPrefix(byId, order, i);
      result := result + [byId[order[i]]];
    }
    assert order[..|order|] == order;
  }

  ghost function Looked(byId: map<string, Character>, order: seq<string>): seq<Character> {
    if order == [] then []
    else Looked(byId, order[..|order| - 1]) + (if order[|order| - 1] in byId then [byId[order[|order| - 1]]] else [])
  }

  lemma {:induction false} LookedPrefix(byId: map<string, Character>, order: seq<string>, i: nat)
    requires i < |order| && order[i] in byId
    ensures Looked(byId, order[..i + 1]) == Looked(byId, order[..i]) + [byId[order[i]]]
  {
    assert order[..i + 1][..i] == order[..i];
  }

  lemma {:induction false} LookedOther(byId: map<string, Character>, order: seq<string>, c: Character)
    requires c.id !in order
    ensures Looked(byId[c.id := c], order) == Looked(byId, order)
  {
    if order != [] { LookedOther(byId, order[..|order| - 1], c); }
  }

  lemma LookedSnoc(byId: map<string, Character>, order: seq<string>, c: Character)
    requires Elems(order) == byId.Keys && c.id !in byId
    ensures Looked(byId[c.id := c], order + [c.id]) == Looked(byId, order) + [c]
  {
    assert c.id in order <==> c.id in Elems(order);
    LookedOther(byId, order, c);
    assert (order + [c.id])[..|order|] == order;
  }

  /** By first appearance, then by name. */
  /** Characters with the same first appearance and name stay in the order they had. */
  lemma SortedKeepsTies(cs: seq<Character>, episode: Episode, name: string)
    ensures var alike := (c: Character) => c.firstAppearance == episode && c.name == name;
      Only(SortBy(cs, CharacterLess), alike) == Only(cs, alike)
  {
    StringLessIrreflexive(name);
    SortIsStable(cs, CharacterLess, (c: Character) => c.firstAppearance == episode && c.name == name);
  }

  predicate CharacterLess(a: Character, b: Character) {
    a.firstAppearance < b.firstAppearance || (a.firstAppearance == b.firstAppearance && StringLess(a.name, b.name))
  }

  lemma CharactersOrdered()
    ensures WeaklyOrders(CharacterLess)
  {
    forall a, b | CharacterLess(a, b) ensures !CharacterLess(b, a) {
      if CharacterLess(b, a) {
        StringLessTransitive(a.name, b.name, a.name);
        StringLessIrreflexive(a.name);
      }
    }
    forall a, b, c | CharacterLess(a, c) ensures CharacterLess(a, b) || CharacterLess(b, c) {
      StringLessTotal(a.name, b.name);
      if StringLess(b.name, a.name) && StringLess(a.name, c.name) { StringLessTransitive(b.name, a.name, c.name); }
    }
  }

  /** Ids taken over from the registry: the same characters under pairwise distinct ids; a new id is the one all
      keys of the character agree on, was claimed by no other and held by no generated character. The given-up ids
      are retired in favour of the new ones. */
  method ReuseRegistryIds(generated: seq<Character>, registry: seq<Character>, upTo: Episode,
                          combine: (Character, Character) -> Character)
    returns (result: seq<Character>, remap: map<string, string>, retired: seq<(string, string)>,
             ghost table: map<string, string>, ghost targets: seq<string>, ghost renamed: seq<Character>)
    requires DistinctIds(generated)
    ensures IsKeyTable(table, registry, upTo)
    ensures |targets| == |generated| && forall i | 0 <= i < |generated| ::
      targets[i] == TargetOf(table, generated[i].keys)
    ensures IsRenamed(generated, targets, renamed) && IsRemap(generated, targets, remap) && RetiredBy(remap, retired)
    ensures if generated == [] || registry == [] || table == map[] then result == generated
      else result == SortBy(MergedById(renamed, combine), CharacterLess) && ByAppearance(result)
    ensures |result| == |generated| && multiset(result) == multiset(renamed) && DistinctIds(renamed)
  {
    var keyTable := BuildKeyTable(registry, upTo);
    table := keyTable;
    KeyTableIdsNonEmpty(table, registry, upTo);
    var found := FindTargets(keyTable, generated);
    targets := found;
    renamed := generated;
    remap, retired := map[], [];
    if generated == [] || registry == [] || keyTable == map[] {
      NoTargets(table, generated, registry, upTo, targets);
      return generated, map[], [], table, targets, generated;
    }
    var claimCounts := CountClaims(generated, found);
    var occupied := OccupiedIds(generated);
    var renamedNow;
    renamedNow, remap, retired := Rename(generated, found, claimCounts, occupied);
    renamed := renamedNow;
    RenamingIsInjective(generated, targets, renamed);
    result := MergeById(renamedNow, combine);
    PermutationElems(result, renamedNow);
  }

  lemma KeyTableIdsNonEmpty(table: map<string, string>, registry: seq<Character>, upTo: Episode)
    requires IsKeyTable(table, registry, upTo)
    ensures forall key | key in table :: table[key] != ""
  {
    forall key | key in table ensures table[key] != "" {
      assert IdsNamedBy(registry, upTo, key) == {table[key]};
      assert table[key] in IdsNamedBy(registry, upTo, key);
    }
  }

  /** The early exits of the code rename nothing, as the general case would. */
  lemma NoTargets(table: map<string, string>, generated: seq<Character>, registry: seq<Character>, upTo: Episode,
                  targets: seq<string>)
    requires IsKeyTable(table, registry, upTo) && (generated == [] || registry == [] || table == map[])
    requires |targets| == |generated| && forall i | 0 <= i < |generated| ::
      targets[i] == TargetOf(table, generated[i].keys)
    ensures IsRenamed(generated, targets, generated) && IsRemap(generated, targets, map[])
  {
    if registry == [] {
      forall key, id: string ensures IdsNamedBy(registry, upTo, key) != {id} { assert id in {id}; }
      assert table.Keys == {};
    }
    forall i | 0 <= i < |generated| ensures targets[i] == "" {
      assert Named(table, generated[i].keys) == {};
      forall id: string ensures Named(table, generated[i].keys) != {id} { assert id in {id}; }
    }
  }
}
