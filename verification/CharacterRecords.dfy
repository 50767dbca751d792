/** Character event records, their normalised lists, and folding one record into another
    (characters/profile_materializer.go, characters/event_store.go). */
module CharacterRecords {
  import opened Ordering

  datatype TextVersion = TextVersion(text: string, episode: Episode)
  datatype Fact = Fact(kind: string, text: string, episode: Episode)
  datatype Mention = Mention(text: string, episode: Episode, count: int)

  datatype Record = Record(
    id: string,
    canonicalName: TextVersion,
    preferredNames: seq<TextVersion>,
    fullName: Option<TextVersion>,
    fullNameHistory: seq<TextVersion>,
    gender: Option<TextVersion>,
    genderHistory: seq<TextVersion>,
    firstAppearance: Episode,
    aliases: seq<TextVersion>,
    facts: seq<Fact>,
    mentions: seq<Mention>)

  // ----- text versions -----

  predicate KeepText(v: TextVersion) { v.text != "" && v.episode != NO_EPISODE }

  predicate TextLess(a: TextVersion, b: TextVersion) {
    a.episode < b.episode || (a.episode == b.episode && StringLess(a.text, b.text))
  }

  lemma TextOrder(s: set<TextVersion>)
    ensures Orders(TextLess, s)
  {
    var texts := set v | v in s :: v.text;
    StringOrder(texts);
    forall v | v in s ensures v.text in texts {}
  }

  function NormalizeTexts(values: seq<TextVersion>): seq<TextVersion> {
    Canonical(values, KeepText, TextLess)
  }

  ghost function Kept(values: seq<TextVersion>): set<TextVersion> {
    set v | v in values && KeepText(v)
  }

  lemma NormalizeTextsKeeps(values: seq<TextVersion>)
    ensures StrictlySorted(NormalizeTexts(values), TextLess)
    ensures Elems(NormalizeTexts(values)) == Kept(values) == Kept(NormalizeTexts(values))
  {
    TextOrder(Elems(values));
    CanonicalIsSorted(values, KeepText, TextLess);
    forall v ensures v in Kept(NormalizeTexts(values)) <==> v in Kept(values) {
      assert v in NormalizeTexts(values) <==> v in Elems(NormalizeTexts(values));
    }
  }

  lemma NormalizeTextsSame(a: seq<TextVersion>, b: seq<TextVersion>)
    requires Kept(a) == Kept(b)
    ensures NormalizeTexts(a) == NormalizeTexts(b)
  {
    TextOrder(Elems(a) + Elems(b));
    forall x | x in a && KeepText(x) ensures x in b { assert x in Kept(b); }
    forall x | x in b && KeepText(x) ensures x in a { assert x in Kept(a); }
    CanonicalDependsOnMembers(a, b, KeepText, TextLess);
  }

  lemma KeptConcat(a: seq<TextVersion>, b: seq<TextVersion>)
    ensures Kept(a + b) == Kept(a) + Kept(b)
  {
  }

  method NormalizeTextVersions(values: seq<TextVersion>) returns (result: seq<TextVersion>)
    ensures result == NormalizeTexts(values)
    ensures StrictlySorted(result, TextLess) && Elems(result) == Kept(values)
  {
    result := CollectDistinct(values, KeepText);
    result := SortBy(result, TextLess);
    NormalizeTextsKeeps(values);
  }

  /** The first of the latest usable versions. */
  function Latest(values: seq<TextVersion>): Option<TextVersion> {
    if values == [] then None
    else
      var best, last := Latest(values[..|values| - 1]), values[|values| - 1];
      if KeepText(last) && (best.None? || best.value.episode < last.episode) then Some(last) else best
  }

  lemma {:induction false} LatestIsAKeptMember(values: seq<TextVersion>)
    ensures Latest(values).Some? ==> Latest(values).value in Kept(values)
  {
    if values != [] { LatestIsAKeptMember(values[..|values| - 1]); }
  }

  /** Of the usable versions one of the latest is picked. */
  lemma {:induction false} LatestIsLatest(values: seq<TextVersion>)
    ensures Latest(values).None? <==> Kept(values) == {}
    ensures Latest(values).Some? ==>
      var l := Latest(values).value;
      l in values && l.text != "" && l.episode != NO_EPISODE
        && forall v | v in values && v.text != "" && v.episode != NO_EPISODE :: v.episode <= l.episode
  {
    if values != [] {
      var before, last := values[..|values| - 1], values[|values| - 1];
      LatestIsLatest(before);
      assert values == before + [last];
      assert forall v :: v in values <==> v in before || v == last;
      assert Kept(values) == Kept(before) + if KeepText(last) then {last} else {};
      assert forall v | v in before && KeepText(v) :: v in Kept(before);
    }
  }

  /** Of several in one episode the first listed, which in a normalised list is the smallest text. */
  lemma {:induction false} LatestIsSmallest(values: seq<TextVersion>, v: TextVersion)
    requires StrictlySorted(values, TextLess) && v in values && v.text != "" && Latest(values).Some?
    requires v.episode == Latest(values).value.episode && v != Latest(values).value
    ensures StringLess(Latest(values).value.text, v.text)
  {
    var before, last := values[..|values| - 1], values[|values| - 1];
    assert values == before + [last];
    LatestIsLatest(before);
    LatestIsLatest(values);
    if v == last { LastAfter(values, Latest(before).value); } else { LatestIsSmallest(before, v); }
  }

  lemma LastAfter(values: seq<TextVersion>, v: TextVersion)
    requires values != [] && StrictlySorted(values, TextLess) && v in values[..|values| - 1]
    ensures StrictlySorted(values[..|values| - 1], TextLess) && TextLess(v, values[|values| - 1])
  {
    var i :| 0 <= i < |values| - 1 && values[i] == v;
  }

  function Single(v: Option<TextVersion>): seq<TextVersion> {
    if v.Some? then [v.value] else []
  }

  // ----- facts -----

  function WithKind(f: Fact): Fact { if f.kind == "" then f.(kind := "summary") else f }

  function Kinds(values: seq<Fact>): seq<Fact> {
    seq(|values|, i requires 0 <= i < |values| => WithKind(values[i]))
  }

  predicate KeepFact(f: Fact) { f.text != "" && f.episode != NO_EPISODE }

  predicate FactLess(a: Fact, b: Fact) {
    a.episode < b.episode ||
    (a.episode == b.episode &&
     (StringLess(a.kind, b.kind) || (a.kind == b.kind && StringLess(a.text, b.text))))
  }

  lemma FactOrder(s: set<Fact>)
    ensures Orders(FactLess, s)
  {
    var strings := (set f | f in s :: f.kind) + (set f | f in s :: f.text);
    StringOrder(strings);
    forall f | f in s ensures f.kind in strings && f.text in strings {}
  }

  function NormalizeFacts(values: seq<Fact>): seq<Fact> {
    Canonical(Kinds(values), KeepFact, FactLess)
  }

  ghost function KeptFacts(values: seq<Fact>): set<Fact> {
    set f | f in values && KeepFact(f) :: WithKind(f)
  }

  lemma KeptFactsOfKinds(values: seq<Fact>)
    ensures (set f | f in Kinds(values) && KeepFact(f)) == KeptFacts(values)
  {
    forall f | f in KeptFacts(values) ensures f in Kinds(values) {
      var g :| g in values && KeepFact(g) && WithKind(g) == f;
      var i :| 0 <= i < |values| && values[i] == g;
      assert Kinds(values)[i] == f;
    }
    forall f | f in Kinds(values) && KeepFact(f) ensures f in KeptFacts(values) {
      var i :| 0 <= i < |values| && Kinds(values)[i] == f;
      assert values[i] in values;
    }
  }

  lemma NormalizeFactsKeeps(values: seq<Fact>)
    ensures StrictlySorted(NormalizeFacts(values), FactLess)
    ensures Elems(NormalizeFacts(values)) == KeptFacts(values) == KeptFacts(NormalizeFacts(values))
  {
    FactOrder(Elems(Kinds(values)));
    CanonicalIsSorted(Kinds(values), KeepFact, FactLess);
    KeptFactsOfKinds(values);
    KeptAgain(NormalizeFacts(values), KeptFacts(values));
  }

  /** Kept facts have a kind already, so keeping them again changes nothing. */
  lemma KeptAgain(r: seq<Fact>, kept: set<Fact>)
    requires Elems(r) == kept && forall f | f in kept :: KeepFact(f) && WithKind(f) == f
    ensures KeptFacts(r) == kept
  {
    forall f ensures f in KeptFacts(r) <==> f in kept {
      if f in kept { assert f in Elems(r) && f in r; }
      if f in KeptFacts(r) {
        var g :| g in r && KeepFact(g) && WithKind(g) == f;
        assert g in Elems(r);
      }
    }
  }

  lemma NormalizeFactsSame(a: seq<Fact>, b: seq<Fact>)
    requires KeptFacts(a) == KeptFacts(b)
    ensures NormalizeFacts(a) == NormalizeFacts(b)
  {
    FactOrder(Elems(Kinds(a)) + Elems(Kinds(b)));
    KeptFactsOfKinds(a);
    KeptFactsOfKinds(b);
    forall x | x in Kinds(a) && KeepFact(x) ensures x in Kinds(b) { assert x in KeptFacts(b); }
    forall x | x in Kinds(b) && KeepFact(x) ensures x in Kinds(a) { assert x in KeptFacts(a); }
    CanonicalDependsOnMembers(Kinds(a), Kinds(b), KeepFact, FactLess);
  }

  lemma KeptFactsConcat(a: seq<Fact>, b: seq<Fact>)
    ensures KeptFacts(a + b) == KeptFacts(a) + KeptFacts(b)
  {
    forall f | f in KeptFacts(a) + KeptFacts(b) ensures f in KeptFacts(a + b) {
      if f in KeptFacts(a) {
        var g :| g in a && KeepFact(g) && WithKind(g) == f;
        assert g in a + b;
      } else {
        var g :| g in b && KeepFact(g) && WithKind(g) == f;
        assert g in a + b;
      }
    }
  }

  // ----- mentions -----

  function KeyOf(m: Mention): TextVersion { TextVersion(m.text, m.episode) }

  function Weight(m: Mention): nat { if m.count <= 0 then 1 else m.count }

  /** How often each (episode, text) pair is mentioned; a missing count stands for one. */
  function Bag(values: seq<Mention>): multiset<TextVersion> {
    if values == [] then multiset{}
    else
      var bag, last := Bag(values[..|values| - 1]), values[|values| - 1];
      if KeepText(KeyOf(last)) then bag[KeyOf(last) := bag[KeyOf(last)] + Weight(last)] else bag
  }

  function KeysOf(values: seq<Mention>): seq<TextVersion> {
    seq(|values|, i requires 0 <= i < |values| => KeyOf(values[i]))
  }

  function Tally(keys: seq<TextVersion>, bag: multiset<TextVersion>): seq<Mention> {
    seq(|keys|, i requires 0 <= i < |keys| => Mention(keys[i].text, keys[i].episode, bag[keys[i]]))
  }

  /** One mention per kept (episode, text) pair, with the counts added up, sorted by the pair. */
  function NormalizeMentions(values: seq<Mention>): seq<Mention> {
    Tally(NormalizeTexts(KeysOf(values)), Bag(values))
  }

  lemma {:induction false} BagConcat(a: seq<Mention>, b: seq<Mention>)
    ensures Bag(a + b) == Bag(a) + Bag(b)
  {
    if b == [] {
      assert a + b == a;
    } else {
      var b' := b[..|b| - 1];
      assert (a + b)[..|a + b| - 1] == a + b';
      BagConcat(a, b');
    }
  }

  /** A mention counts for its episode and text, as often as it says, once if it does not say; without text or
      episode it does not count. */
  lemma BagOfOne(m: Mention)
    ensures Bag([m]) == if m.text == "" || m.episode == NO_EPISODE then multiset{}
      else multiset{}[TextVersion(m.text, m.episode) := if m.count >= 1 then m.count else 1]
  {
    assert [m][..0] == [];
  }

  lemma {:induction false} BagMembers(values: seq<Mention>)
    ensures forall k :: k in Bag(values) <==> k in Kept(KeysOf(values))
  {
    if values != [] {
      var p, last := values[..|values| - 1], values[|values| - 1];
      BagMembers(p);
      assert KeysOf(values) == KeysOf(p) + [KeyOf(last)];
    }
  }

  lemma {:induction false} TallyBag(keys: seq<TextVersion>, bag: multiset<TextVersion>)
    requires NoDup(keys) && forall k | k in keys :: KeepText(k) && k in bag
    ensures forall k :: Bag(Tally(keys, bag))[k] == if k in keys then bag[k] else 0
  {
    if keys != [] {
      var p, last := keys[..|keys| - 1], keys[|keys| - 1];
      TallyBag(p, bag);
      assert keys == p + [last];
      assert Tally(keys, bag)[..|p|] == Tally(p, bag);
      assert last !in p;
      assert forall k :: k in keys <==> k in p || k == last;
    }
  }

  lemma SortedHasNoDup(s: seq<TextVersion>)
    requires StrictlySorted(s, TextLess)
    ensures NoDup(s)
  {
    forall i, j | 0 <= i < j < |s| ensures s[i] != s[j] {
      StringLessIrreflexive(s[i].text);
      assert TextLess(s[i], s[j]);
    }
  }

  /** Normalising mentions loses no mention. */
  lemma {:induction false} NormalizeMentionsConserves(values: seq<Mention>)
    ensures Bag(NormalizeMentions(values)) == Bag(values)
  {
    var keys := NormalizeTexts(KeysOf(values));
    NormalizeTextsKeeps(KeysOf(values));
    BagMembers(values);
    SortedHasNoDup(keys);
    forall k ensures k in keys <==> k in Bag(values) { assert k in keys <==> k in Elems(keys); }
    TallyBag(keys, Bag(values));
  }

  lemma {:induction false} NormalizeMentionsSame(a: seq<Mention>, b: seq<Mention>)
    requires Bag(a) == Bag(b)
    ensures NormalizeMentions(a) == NormalizeMentions(b)
  {
    BagMembers(a);
    BagMembers(b);
    assert Kept(KeysOf(a)) == Kept(KeysOf(b));
    NormalizeTextsSame(KeysOf(a), KeysOf(b));
  }

  predicate MentionLess(a: Mention, b: Mention) { TextLess(KeyOf(a), KeyOf(b)) }

  /** The counting table: the kept pairs with their total weights. */
  method CountMentions(values: seq<Mention>) returns (byKey: map<TextVersion, int>)
    ensures Counted(byKey, Bag(values))
  {
    byKey := map[];
    for i := 0 to |values|
      invariant Counted(byKey, Bag(values[..i]))
    {
      assert values[..i + 1][..i] == values[..i];
      var key := KeyOf(values[i]);
      if KeepText(key) {
        byKey := byKey[key := (if key in byKey then byKey[key] else 0) + Weight(values[i])];
      }
    }
    assert values[..|values|] == values;
  }

  ghost predicate Counted(byKey: map<TextVersion, int>, bag: multiset<TextVersion>) {
    forall k :: (k in byKey <==> k in bag) && (k in byKey ==> byKey[k] == bag[k])
  }

  /** The counting table, listed in an arbitrary order and then sorted, gives the same mentions every time. */
  method NormalizeCharacterMentions(values: seq<Mention>) returns (result: seq<Mention>)
    ensures result == NormalizeMentions(values)
  {
    var byKey := CountMentions(values);
    result := [];
    var remaining := byKey.Keys;
    ghost var bag := Bag(values);
    while remaining != {}
      invariant remaining <= byKey.Keys
      invariant forall i | 0 <= i < |result| ::
        result[i].count == bag[KeyOf(result[i])] && KeyOf(result[i]) in byKey.Keys - remaining
      invariant forall k | k in byKey.Keys - remaining :: Mention(k.text, k.episode, bag[k]) in result
      invariant NoDup(KeysOf(result))
    {
      var k :| k in remaining;
      remaining := remaining - {k};
      assert KeysOf(result + [Mention(k.text, k.episode, byKey[k])]) == KeysOf(result) + [k];
      result := result + [Mention(k.text, k.episode, byKey[k])];
    }
    TallyIsSorted(values, result);
    result := SortBy(result, MentionLess);
  }

  /** A listing with one mention per pair is ordered totally by its pairs. */
  lemma ListingOrder(listing: seq<Mention>)
    requires NoDup(KeysOf(listing))
    ensures NoDup(listing) && Orders(MentionLess, Elems(listing))
  {
    var keys := KeysOf(listing);
    TextOrder(Elems(keys));
    forall x | x in listing ensures KeyOf(x) in Elems(keys) {
      var i :| 0 <= i < |listing| && listing[i] == x;
      assert keys[i] == KeyOf(x);
    }
    forall x, y | x in listing && y in listing && x != y ensures KeyOf(x) != KeyOf(y) { KeysDiffer(listing, x, y); }
    forall i, j | 0 <= i < j < |listing| ensures listing[i] != listing[j] { assert keys[i] != keys[j]; }
    MentionOrder(Elems(listing), Elems(keys));
  }

  lemma KeysDiffer(listing: seq<Mention>, x: Mention, y: Mention)
    requires NoDup(KeysOf(listing)) && x in listing && y in listing && x != y
    ensures KeyOf(x) != KeyOf(y)
  {
    var i :| 0 <= i < |listing| && listing[i] == x;
    var j :| 0 <= j < |listing| && listing[j] == y;
    assert KeysOf(listing)[i] != KeysOf(listing)[j];
  }

  lemma MentionOrder(mentions: set<Mention>, keys: set<TextVersion>)
    requires Orders(TextLess, keys) && (forall x | x in mentions :: KeyOf(x) in keys)
    requires forall x, y | x in mentions && y in mentions && x != y :: KeyOf(x) != KeyOf(y)
    ensures Orders(MentionLess, mentions)
  {
  }

  lemma TallyMembers(keys: seq<TextVersion>, bag: multiset<TextVersion>, listing: seq<Mention>)
    requires forall k :: k in bag <==> k in keys
    requires forall i | 0 <= i < |listing| :: listing[i].count == bag[KeyOf(listing[i])] && KeyOf(listing[i]) in bag
    requires forall k | k in bag :: Mention(k.text, k.episode, bag[k]) in listing
    ensures Elems(Tally(keys, bag)) == Elems(listing)
  {
    var target := Tally(keys, bag);
    forall x | x in target ensures x in listing {
      var i :| 0 <= i < |target| && target[i] == x;
      assert keys[i] in bag;
    }
    forall x | x in listing ensures x in target {
      var j :| 0 <= j < |listing| && listing[j] == x;
      var i :| 0 <= i < |keys| && keys[i] == KeyOf(x);
      assert target[i] == x;
    }
  }

  lemma TallySorted(keys: seq<TextVersion>, bag: multiset<TextVersion>)
    requires StrictlySorted(keys, TextLess)
    ensures StrictlySorted(Tally(keys, bag), MentionLess)
  {
    forall i | 0 <= i < |keys| ensures KeyOf(Tally(keys, bag)[i]) == keys[i] {}
  }

  lemma {:induction false} TallyIsSorted(values: seq<Mention>, listing: seq<Mention>)
    requires NoDup(KeysOf(listing))
    requires forall i | 0 <= i < |listing| ::
      listing[i].count == Bag(values)[KeyOf(listing[i])] && KeyOf(listing[i]) in Bag(values)
    requires forall k | k in Bag(values) :: Mention(k.text, k.episode, Bag(values)[k]) in listing
    ensures SortBy(listing, MentionLess) == NormalizeMentions(values)
  {
    var keys := NormalizeTexts(KeysOf(values));
    NormalizeTextsKeeps(KeysOf(values));
    BagMembers(values);
    forall k ensures k in Bag(values) <==> k in keys { assert k in keys <==> k in Elems(keys); }
    ListingOrder(listing);
    SortBySorts(listing, MentionLess);
    TallySorted(keys, Bag(values));
    TallyMembers(keys, Bag(values), listing);
    SortedListingIsUnique(SortBy(listing, MentionLess), NormalizeMentions(values), MentionLess);
  }

  /** The normalised lists are in the order of episodes; within an episode texts are in the order of code points, facts
      in that of their kinds and then of their texts. A fact without a kind is a summary. */
  lemma NormalizedInOrder(texts: seq<TextVersion>, facts: seq<Fact>)
    ensures var r := NormalizeTexts(texts); forall i, j | 0 <= i < j < |r| ::
      r[i].episode < r[j].episode || (r[i].episode == r[j].episode && StringLess(r[i].text, r[j].text))
    ensures var r := NormalizeFacts(facts); forall i, j | 0 <= i < j < |r| ::
      r[i].episode < r[j].episode
        || (r[i].episode == r[j].episode
          && (StringLess(r[i].kind, r[j].kind) || (r[i].kind == r[j].kind && StringLess(r[i].text, r[j].text))))
    ensures forall f :: f in NormalizeFacts(facts) <==>
      f.text != "" && f.episode != NO_EPISODE && f.kind != ""
        && (f in facts || (f.kind == "summary" && f.(kind := "") in facts))
  {
    NormalizeTextsKeeps(texts);
    NormalizeFactsKeeps(facts);
    forall f ensures f in NormalizeFacts(facts) <==>
      f.text != "" && f.episode != NO_EPISODE && f.kind != ""
        && (f in facts || (f.kind == "summary" && f.(kind := "") in facts))
    {
      assert f in NormalizeFacts(facts) <==> f in Elems(NormalizeFacts(facts));
      if f in KeptFacts(facts) {
        var g :| g in facts && KeepFact(g) && WithKind(g) == f;
        assert g == f || g == f.(kind := "");
      }
      assert f.kind == "summary" ==> WithKind(f.(kind := "")) == f;
      assert f.kind != "" ==> WithKind(f) == f;
    }
  }

  // ----- folding one record into another -----

  function FullNamesOf(r: Record): seq<TextVersion> { r.fullNameHistory + Single(r.fullName) }

  function GendersOf(r: Record): seq<TextVersion> { r.genderHistory + Single(r.gender) }

  function EarlierFirst(target: Episode, source: Episode): Episode {
    if source < target || target == NO_EPISODE then source else target
  }

  /** `target` after the record `source` was merged into it. */
  function Absorb(target: Record, source: Record): Record {
    var fullNames := NormalizeTexts(FullNamesOf(target) + FullNamesOf(source));
    var genders := NormalizeTexts(GendersOf(target) + GendersOf(source));
    target.(
      preferredNames := NormalizeTexts(target.preferredNames + source.preferredNames),
      aliases := NormalizeTexts(target.aliases + source.aliases),
      fullNameHistory := fullNames,
      fullName := Latest(fullNames),
      genderHistory := genders,
      gender := Latest(genders),
      firstAppearance := EarlierFirst(target.firstAppearance, source.firstAppearance),
      facts := NormalizeFacts(target.facts + source.facts),
      mentions := NormalizeMentions(target.mentions + source.mentions))
  }

  /** What a record knows, as sets and bags: the content that merging must not lose. */
  datatype Content = Content(
    preferredNames: set<TextVersion>,
    aliases: set<TextVersion>,
    fullNames: set<TextVersion>,
    genders: set<TextVersion>,
    facts: set<Fact>,
    mentions: multiset<TextVersion>)

  ghost function ContentOf(r: Record): Content {
    Content(Kept(r.preferredNames), Kept(r.aliases), Kept(FullNamesOf(r)), Kept(GendersOf(r)),
            KeptFacts(r.facts), Bag(r.mentions))
  }

  ghost function Join(a: Content, b: Content): Content {
    Content(a.preferredNames + b.preferredNames, a.aliases + b.aliases, a.fullNames + b.fullNames,
            a.genders + b.genders, a.facts + b.facts, a.mentions + b.mentions)
  }

  lemma HistoryWithLatest(values: seq<TextVersion>)
    ensures Kept(NormalizeTexts(values) + Single(Latest(NormalizeTexts(values)))) == Kept(values)
  {
    NormalizeTextsKeeps(values);
    LatestIsAKeptMember(NormalizeTexts(values));
    KeptConcat(NormalizeTexts(values), Single(Latest(NormalizeTexts(values))));
  }

  /** Folding a record in loses nothing and invents nothing. */
  lemma AbsorbJoinsContent(t: Record, s: Record)
    ensures ContentOf(Absorb(t, s)) == Join(ContentOf(t), ContentOf(s))
  {
    NormalizeTextsKeeps(t.preferredNames + s.preferredNames);
    KeptConcat(t.preferredNames, s.preferredNames);
    NormalizeTextsKeeps(t.aliases + s.aliases);
    KeptConcat(t.aliases, s.aliases);
    HistoryWithLatest(FullNamesOf(t) + FullNamesOf(s));
    KeptConcat(FullNamesOf(t), FullNamesOf(s));
    HistoryWithLatest(GendersOf(t) + GendersOf(s));
    KeptConcat(GendersOf(t), GendersOf(s));
    NormalizeFactsKeeps(t.facts + s.facts);
    KeptFactsConcat(t.facts, s.facts);
    NormalizeMentionsConserves(t.mentions + s.mentions);
    BagConcat(t.mentions, s.mentions);
  }

  /** A record built from content, an identity and a first appearance; every merged record has this form. */
  ghost predicate BuiltFrom(r: Record, base: Record, c: Content, first: Episode) {
    && r.id == base.id && r.canonicalName == base.canonicalName && r.firstAppearance == first
    && ContentOf(r) == c
    && r.preferredNames == NormalizeTexts(r.preferredNames)
    && r.aliases == NormalizeTexts(r.aliases)
    && r.fullNameHistory == NormalizeTexts(FullNamesOf(r)) && r.fullName == Latest(r.fullNameHistory)
    && r.genderHistory == NormalizeTexts(GendersOf(r)) && r.gender == Latest(r.genderHistory)
    && r.facts == NormalizeFacts(r.facts)
    && r.mentions == NormalizeMentions(r.mentions)
  }

  lemma AbsorbIsBuilt(t: Record, s: Record)
    ensures BuiltFrom(Absorb(t, s), t, Join(ContentOf(t), ContentOf(s)),
      EarlierFirst(t.firstAppearance, s.firstAppearance))
  {
    var r := Absorb(t, s);
    AbsorbJoinsContent(t, s);
    NormalizeTextsKeeps(t.preferredNames + s.preferredNames);
    NormalizeTextsSame(r.preferredNames, t.preferredNames + s.preferredNames);
    NormalizeTextsKeeps(t.aliases + s.aliases);
    NormalizeTextsSame(r.aliases, t.aliases + s.aliases);
    HistoryWithLatest(FullNamesOf(t) + FullNamesOf(s));
    NormalizeTextsSame(FullNamesOf(r), FullNamesOf(t) + FullNamesOf(s));
    HistoryWithLatest(GendersOf(t) + GendersOf(s));
    NormalizeTextsSame(GendersOf(r), GendersOf(t) + GendersOf(s));
    NormalizeFactsKeeps(t.facts + s.facts);
    NormalizeFactsSame(r.facts, t.facts + s.facts);
    NormalizeMentionsConserves(t.mentions + s.mentions);
    NormalizeMentionsSame(r.mentions, t.mentions + s.mentions);
  }

  /** The form determines the record. */
  lemma BuiltIsUnique(a: Record, b: Record, base: Record, c: Content, first: Episode)
    requires BuiltFrom(a, base, c, first) && BuiltFrom(b, base, c, first)
    ensures a == b
  {
    NormalizeTextsSame(a.preferredNames, b.preferredNames);
    NormalizeTextsSame(a.aliases, b.aliases);
    NormalizeTextsSame(FullNamesOf(a), FullNamesOf(b));
    NormalizeTextsSame(GendersOf(a), GendersOf(b));
    NormalizeFactsSame(a.facts, b.facts);
    NormalizeMentionsSame(a.mentions, b.mentions);
  }

  lemma JoinSwaps(c: Content, a: Content, b: Content)
    ensures Join(Join(c, a), b) == Join(Join(c, b), a)
  {
    var l, r := Join(Join(c, a), b), Join(Join(c, b), a);
    assert l.preferredNames == r.preferredNames;
    assert l.aliases == r.aliases;
    assert l.fullNames == r.fullNames;
    assert l.genders == r.genders;
    assert l.facts == r.facts;
    assert l.mentions == r.mentions;
  }

  /** Records of the same form over equal content are equal, however the content was put together. */
  lemma BuiltTwice(x: Record, y: Record, t: Record, c: Content, ca: Content, cb: Content, first: Episode,
                   first': Episode)
    requires BuiltFrom(x, t, Join(Join(c, ca), cb), first) && BuiltFrom(y, t, Join(Join(c, cb), ca), first')
    requires first == first'
    ensures x == y
  {
    JoinSwaps(c, ca, cb);
    BuiltIsUnique(x, y, t, Join(Join(c, ca), cb), first);
  }

  lemma AbsorbTwice(t: Record, a: Record, b: Record)
    ensures BuiltFrom(Absorb(Absorb(t, a), b), t, Join(Join(ContentOf(t), ContentOf(a)), ContentOf(b)),
                      EarlierFirst(EarlierFirst(t.firstAppearance, a.firstAppearance), b.firstAppearance))
  {
    AbsorbIsBuilt(Absorb(t, a), b);
    AbsorbJoinsContent(t, a);
  }

  /** Two records folded in one after the other may be swapped, provided both or neither have a first appearance. */
  lemma AbsorbCommutes(t: Record, a: Record, b: Record)
    requires (a.firstAppearance == NO_EPISODE) == (b.firstAppearance == NO_EPISODE)
    ensures Absorb(Absorb(t, a), b) == Absorb(Absorb(t, b), a)
  {
    AbsorbTwice(t, a, b);
    AbsorbTwice(t, b, a);
    BuiltTwice(Absorb(Absorb(t, a), b), Absorb(Absorb(t, b), a), t, ContentOf(t), ContentOf(a), ContentOf(b),
               EarlierFirst(EarlierFirst(t.firstAppearance, a.firstAppearance), b.firstAppearance),
               EarlierFirst(EarlierFirst(t.firstAppearance, b.firstAppearance), a.firstAppearance));
  }
}
