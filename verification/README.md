# narou-viewer, verified models

narou-viewer reads novels episode by episode. A Go service extracts the characters of a novel with a language model and
shows them up to an episode; a web reader renders an episode and reads it aloud. This project models the hard logic of
both and proves what it is for. `dafny verify dfyconfig.toml` checks all of it.

**Characters.** `IdentityEvents` selects dated "A is B" events greedily so that no cycle arises at any episode.
`CharacterRecords`, `Quotient` and `RecordMerge` fold the records of merged characters together while a Go map is walked
in an arbitrary order. `Projection` shows what is known at an episode boundary, `Spoilers` says when that depends neither on
later episodes nor on the order of the walk, `Views` what each field shows and who is shown, and `Summary` is what is loaded.
`UnionFind` and `MergeProposals` merge characters proposed to be the same. `IdAllocator` hands out ids that are never
reissued. `RegistryReuse` gives generated characters the ids of known ones.

**Extraction.** `SentenceChunks`, `GreedySplit`, `Batching` and `RuntimePlanning` cut text into chunks and batches that fit a
model's context. `JobDisk`, `JobSteps` and `JobStore` are the job store: its files, what each operation may do to them one
atomic write at a time, and the operations themselves as methods on an object whose writes may fail or be cut off by a
crash. The methods are proved to be steps, and the invariants are proved over every run of steps.

**Reader.** `Graphemes`, `SpeechMaps`, `SpeechFragments`, `SpeechAnchors` and `SpeechChunks` build speech chunks and map between
their characters and document positions. `ReaderPositions` and `SpeechWalk` are the two independent walks over a document
that must assign the same positions. `DashRuns`, `HtmlDashRuns`, `HtmlDashText` and `HtmlDashRewrite` render and wrap runs of
dashes.

`Ordering`, `Texts` and `Arithmetic` hold what several of these share.

## Where the code falls short

Each of these is proved, with an input at which the code fails and the exact condition under which it does what is wanted.

- Merging records keeps the earlier first appearance by a test that treats a missing one as the smallest of the
  comparison and then as replaceable. The outcome therefore depends on the order in which a Go map is walked, unless the
  records folded into each character all have, or all lack, a first appearance (`RecordMerge.MissingFirstExample`,
  `RecordMerge.OrderIrrelevantIffUniform`). At a boundary it even decides whether the character is shown, unless none of
  these records appears by then (`Spoilers.MissingFirstHides`, `Spoilers.ViewDependsOnlyOnPast`). The service always fills the
  field when it saves generated characters (`profile_materializer.go:16`); a stored document has such a record if it is of
  the legacy schema version or was written by other means, with the field empty or left out: reading checks the schema
  version only, and merging and migrating carry the empty value on.
- The index of a novel's jobs goes stale when a save is cut off between the document and the index: a new job is then not
  listed. A readable index is trusted from then on, so later saves of other jobs do not repair it
  (`JobSteps.CutOffSaveStaysUnlisted`, `JobSteps.StaleUntilReached`); saving the same job again, rebuilding and pruning do
  (`JobDisk.RetryRepairs`, `JobSteps.AccurateSinceRepair`). A successful save leaves its novel's index accurate if and only if
  there was no usable index or it described the novel's other documents (`JobDisk.SaveAccurateExactly`).
- Saving a job document under another novel leaves the first novel's index wrong (`JobDisk.MovedDocumentExample`,
  `JobDisk.SaveAccurateIffNotMoved`).
- Rendering visible text drops a dash that stands alone (`DashRuns.SingleDashIsLost`, `DashRuns.KeptIffNoneIsolated`).
- Splitting an oversized speech fragment drops text when there are fewer positions than parts. An HTML block takes up one
  position, so one that is longer than a chunk loses text (`SpeechWalk.HtmlBlockLosesText`, `SpeechWalk.LongHtmlExample`,
  `SpeechFragments.SplitKeepsText`).
- Playback asked to start after the position of the last grapheme of a chunk speaks the whole chunk again, for instance at
  a final line break that trimming removed from the text (`SpeechAnchors.TrimmedBreakReplays`, `SpeechMaps.PlaybackSpeaks`).
  At or before the position of the first character it speaks the right text, but reports the start of the chunk
  (`SpeechMaps.PlaybackReports`).
- The HTML renderer gives a rejected image no position while the speech tokenizer gives it one, so their positions differ
  from there on (`SpeechWalk.RejectedImageExample`, `SpeechWalk.RenderedPlace`, `SpeechWalk.EndsAgreeIffNoneRejected`).

## How the source is represented

- Episode indexes are integers from -1; -1 stands for the empty string, which the code orders before every index. Stored
  indexes are canonical digit strings.
- Strings compared for order are compared by code point, which is what Go's byte order on UTF-8 is. Stored names and ids are
  trimmed already.
- Walking a Go map is an arbitrary choice at each step. A library sort is a stable insertion sort.
- The merge of two generated characters, the fit test of a batch, the validator of a job document, the hash behind stable
  ids, the acceptance of an image source and the grapheme segmenter are parameters. The hash is injective in its ordinal; the
  segmenter cuts a text into non-empty pieces that make it up, which both the platform's and the fallback by code points do.
- In the job store a write either happens or does not; not happening stands for an error and for a crash at that point.
  The mutex makes each operation one sequence of writes. Files are listed in an arbitrary order. Checkpoints are keyed by
  novel and boundary, which is what their file names are made of.
- Positions and offsets are unbounded integers; divisions are exact where the code rounds the quotient of two small
  integers up or down.
- Lemmas carry `{:induction false}`, so that each proof stands on its own body.

## Model

| member | source | states |
|---|---|---|
| `IdentityEvents.NormalizedIsAcyclicAtEveryBoundary` | apps/viewer-api-go/internal/characters/event_store.go:193-240 | For every list of identity events and every boundary, the map from source to latest accepted target has no cycle, so every id resolves to an id that was merged into nothing. |
| `IdentityEvents.NormalizedDependsOnSet` | apps/viewer-api-go/internal/characters/event_store.go:193-240 | The normalised list depends only on which events occur, not on their order or repetition. |
| `IdentityEvents.NormalizedIsIdempotent` | apps/viewer-api-go/internal/characters/event_store.go:193-240 | Normalising a normalised list changes nothing. |
| `IdentityEvents.NormalizedCommutesWithCut` | apps/viewer-api-go/internal/characters/event_store.go:461-469 | Normalising only the events up to an episode gives that part of the full normalisation: later events never change which earlier merges are accepted. |
| `IdentityEvents.ClosesCycle` | apps/viewer-api-go/internal/characters/event_store.go:222-235 | The walk from a candidate's target ends, and reports a cycle exactly if the source is reachable from the target in the map accepted so far. |
| `IdentityEvents.NormalizeIdentityEvents` | apps/viewer-api-go/internal/characters/event_store.go:193-240 | The loop over the sorted candidates computes the greedy cycle-free selection that the lemmas above are about. |
| `IdentityEvents.AcceptedExactly` | apps/viewer-api-go/internal/characters/event_store.go:193-240 | Accepted are exactly the well-formed events that close no cycle with the accepted events before them by episode, then source, then target. |
| `IdentityEvents.OppositeEvents` | apps/viewer-api-go/internal/characters/event_store.go:193-240 | Of "A is B" and "B is A" only the one of the earlier episode is accepted, in one episode that of the smaller source. |
| `IdentityEvents.LatestMergeInForce` | apps/viewer-api-go/internal/characters/event_store.go:279-288 | At a boundary each id is merged into the target of its latest accepted event up to there; of several in one episode the greatest target. |
| `IdentityEvents.ResolveTarget` | apps/viewer-api-go/internal/characters/event_store.go:297-309 | On an acyclic map the walk ends at the one root of the source. |
| `CharacterRecords.NormalizeTextsKeeps` | apps/viewer-api-go/internal/characters/profile_materializer.go:350-371 | Exactly the values with text and episode remain, once each, strictly sorted; normalising again keeps the same ones. |
| `CharacterRecords.NormalizeTextVersions` | apps/viewer-api-go/internal/characters/profile_materializer.go:350-371 | The loop with its table and the sort give that list. |
| `CharacterRecords.NormalizeFactsKeeps` | apps/viewer-api-go/internal/characters/profile_materializer.go:396-421 | Exactly the kept facts, with the default kind filled in, once each and strictly sorted. |
| `CharacterRecords.NormalizedInOrder` | apps/viewer-api-go/internal/characters/profile_materializer.go:350-421 | Texts are in the order of episode and text, facts in that of episode, kind and text; a fact without a kind becomes a summary, and no other fact changes. |
| `CharacterRecords.LatestIsLatest` | apps/viewer-api-go/internal/characters/profile_projection.go:82-98 | The latest value is one with text and episode, none such is later, and there is none only if there is none such. |
| `CharacterRecords.LatestIsSmallest` | apps/viewer-api-go/internal/characters/profile_projection.go:82-98 | Of several values of that episode in a normalised list it is the smallest text. |
| `CharacterRecords.NormalizeMentionsConserves` | apps/viewer-api-go/internal/characters/profile_materializer.go:423-454 | The number of mentions per (episode, text) pair is the same before and after. |
| `CharacterRecords.NormalizeCharacterMentions` | apps/viewer-api-go/internal/characters/profile_materializer.go:423-454 | The counting table, listed in whatever order the map is walked and then sorted, always gives the same mentions. |
| `CharacterRecords.AbsorbJoinsContent` | apps/viewer-api-go/internal/characters/event_store.go:332-342 | Folding one record into another leaves the union of their names, aliases, histories and facts and the sum of their mentions, nothing else. |
| `CharacterRecords.AbsorbCommutes` | apps/viewer-api-go/internal/characters/event_store.go:332-342 | Two records folded in one after the other may be swapped, if both or neither have a first appearance. |
| `Quotient.SwappableOrderIrrelevant` | apps/viewer-api-go/internal/characters/event_store.go:322-345 | If the entries folded into each root may be swapped, every order of the merge loop gives the same table. |
| `Quotient.MergeInOrderIsMergedTable` | apps/viewer-api-go/internal/characters/event_store.go:322-345 | In that case the loop computes, for every order, the quotient: each surviving entry with all entries of its class whose root it is folded in. |
| `Quotient.MergeConserves` | apps/viewer-api-go/internal/characters/event_store.go:322-345 | A weight that merging adds up is conserved over the whole table by every walk order. |
| `Quotient.MergeGathers` | apps/viewer-api-go/internal/characters/event_store.go:322-345 | A survivor holds exactly what it and the entries folded into it held, for every walk order. |
| `Quotient.WalksStayRelated` | apps/viewer-api-go/internal/characters/event_store.go:322-345 | If merging keeps entries related, two tables stay related over whole walks. |
| `Quotient.FoldSources` | apps/viewer-api-go/internal/characters/event_store.go:322-345 | The loop over the Go map, with its deletes, is the fold over some listing of the map. |
| `RecordMerge.LastDecides` | apps/viewer-api-go/internal/characters/event_store.go:338-340 | Whichever record is folded in last decides whether the merged record has a first appearance. |
| `RecordMerge.OrderIrrelevantIffUniform` | apps/viewer-api-go/internal/characters/event_store.go:290-353 | The walk order of the merge map is irrelevant if and only if the records folded into each surviving record all have, or all lack, a first appearance. |
| `RecordMerge.MissingFirstExample` | apps/viewer-api-go/internal/characters/event_store.go:338-340 | Two records with one root, one of them without a first appearance: walked in one order the merged record has none, in the other the later one. |
| `RecordMerge.FirstIsEarliest` | apps/viewer-api-go/internal/characters/event_store.go:338-340 | Where no record folded in lacks a first appearance, the merged record has the earliest of all, for every walk order. |
| `RecordMerge.FirstIsMissing` | apps/viewer-api-go/internal/characters/event_store.go:338-340 | Where they all lack one, the merged record has none, whatever it had before. |
| `RecordMerge.NothingLost` | apps/viewer-api-go/internal/characters/event_store.go:290-353 | For every walk order exactly the records whose root is present are folded away, and no name, alias, full name, gender or fact is lost or invented. |
| `RecordMerge.MentionsConserved` | apps/viewer-api-go/internal/characters/event_store.go:342-343 | For every walk order the mentions per (episode, text) pair add up to what they were. |
| `RecordMerge.TableOfLast` | apps/viewer-api-go/internal/characters/event_store.go:311-321 | An id stands for the last record that has it. |
| `RecordMerge.ListedInOrder` | apps/viewer-api-go/internal/characters/event_store.go:346-353 | What is left after merging is listed in the order in which the ids occur first. |
| `RecordMerge.MergeRecordsById` | apps/viewer-api-go/internal/characters/event_store.go:290-353 | Indexing, merging and listing in order of first occurrence compute that quotient for some walk order. |
| `RecordMerge.MergeAtBoundary` | apps/viewer-api-go/internal/characters/event_store.go:279-288 | The merge at a boundary uses exactly the map of the events effective by then, and that map is acyclic. |
| `Projection.LatestWithinIsLatest` | apps/viewer-api-go/internal/characters/profile_projection.go:63-80 | The value shown at a boundary is from an episode not after it and none known by then is later; nothing is shown only if nothing is known. |
| `Projection.FallbackIsRedundant` | apps/viewer-api-go/internal/characters/profile_projection.go:63-80 | The separately stored latest value never changes what the history shows. |
| `Projection.LatestTextValue` | apps/viewer-api-go/internal/characters/profile_projection.go:63-80 | The loop over history and fallback finds that value. |
| `Projection.AliasTexts` | apps/viewer-api-go/internal/characters/profile_projection.go:107-119 | The aliases shown are the distinct texts known by the boundary, in the order of the history. |
| `Spoilers.ViewDependsOnlyOnPast` | apps/viewer-api-go/internal/characters/profile_store.go:51-77 | Two states of the store that agree up to a boundary, records and identity events alike, show the same characters with the same first appearance, full name, gender, aliases, appearance, personality and summary at that boundary, for every two orders in which their merge maps are walked, if and only if of the records folded into each character all or none have a first appearance or none appears by then. |
| `Spoilers.MissingFirstHides` | apps/viewer-api-go/internal/characters/profile_store.go:51-77 | A merged character that is shown after one walk of the merge map and hidden after the other. |
| `Spoilers.ProjectionCommutesWithCut` | apps/viewer-api-go/internal/characters/profile_store.go:51-77 | Projecting the merged records at a boundary equals projecting the merge of the records cut to that boundary, for every two walk orders, if and only if the same condition holds. |
| `Views.ViewShowsClass` | apps/viewer-api-go/internal/characters/profile_projection.go:16-31 | Every character shown has, field by field, a latest text up to the boundary of exactly that field over its own record and those merged into it (full names for the full name, genders for the gender, facts of kind appearance and personality, any other kind for the summary), nothing exactly where there is none, and exactly their alias texts up to there, each once, in order of episode; for every walk order. |
| `Views.ShownExactly` | apps/viewer-api-go/internal/characters/profile_store.go:51-77 | Under the condition above exactly the named characters that are not merged away and have a record that appeared by the boundary, and none without a first appearance folded in, are shown, with the earliest first appearance of their records; for every walk order. |
| `Summary.LoadSummary` | apps/viewer-api-go/internal/characters/profile_store.go:51-77 | The boundary is what was asked for or what was processed, whichever is earlier; the views are those of the records with id and name, merged at that boundary along some walk, that appeared by then. For stored records each id is shown once, every field shows what `Views.ViewShowsClass` says, and under the condition above exactly the characters of `Views.ShownExactly` are shown. |
| `Summary.SummaryIsTruthful` | apps/viewer-api-go/internal/characters/profile_store.go:51-77 | The same of every summary that some walk can give. |
| `Summary.SummaryShowsViews` | apps/viewer-api-go/internal/characters/profile_store.go:51-77 | What is loaded from stored records lists exactly the views of the merged table, each once. |
| `Summary.SummaryDependsOnlyOnPast` | apps/viewer-api-go/internal/characters/profile_store.go:51-77 | What is loaded at a boundary is the same for a later state of the records and for other later events, however the merge maps were walked, under the condition above. |
| `UnionFind.Forest.Find` | apps/viewer-api-go/internal/extraction/core.go:1966-1976 | Finding with path compression ends, returns the representative of the class and changes no class. |
| `UnionFind.Forest.Union` | apps/viewer-api-go/internal/extraction/core.go:1977-1983 | Joining two values joins exactly their two classes. |
| `UnionFind.UnitedNamesClasses` | apps/viewer-api-go/internal/extraction/core.go:1977-1983 | Roots name the classes of the equivalence closure of the links so far, also after one more link. |
| `MergeProposals.UniteProposals` | apps/viewer-api-go/internal/extraction/core.go:1984-2000 | After all proposals the forest names the classes of the equivalence closure of the accepted ones. |
| `MergeProposals.CollectComponents` | apps/viewer-api-go/internal/extraction/core.go:2001-2005 | Walking the parent map in any order, with re-pointing on the way, lists every class once and without repetition. |
| `MergeProposals.MergeRepresentativeId` | apps/viewer-api-go/internal/extraction/core.go:2043-2054 | The pass over the ids finds the member with the earliest date, the first appearance or else the canonical episode, and of several such the smallest id. |
| `MergeProposals.LeastIffEarliest` | apps/viewer-api-go/internal/extraction/core.go:2043-2054 | The least member in the order of the pass is exactly the one with no earlier-dated member and no equally dated one of a smaller id. |
| `MergeProposals.EarliestFirst` | apps/viewer-api-go/internal/extraction/core.go:2043-2054 | Where all members have a first appearance, that of the survivor is at most that of every member, and no member with the same one has a smaller id. |
| `MergeProposals.LeastIsUnique` | apps/viewer-api-go/internal/extraction/core.go:2043-2054 | That least member is unique. |
| `MergeProposals.MergeComponents` | apps/viewer-api-go/internal/extraction/core.go:2007-2029 | For every order of the components, each is folded into its least member, each other id is removed and retired once, and nothing else changes. |
| `MergeProposals.MergedGathers` | apps/viewer-api-go/internal/extraction/core.go:2014-2026 | The survivor holds what all members of its class held, of any content that merging two characters adds up. |
| `MergeProposals.MergedKeeps` | apps/viewer-api-go/internal/extraction/core.go:2014-2026 | What merging keeps of its first argument is the survivor's own. |
| `MergeProposals.MergedTakesLast` | apps/viewer-api-go/internal/extraction/core.go:2014-2026 | What merging takes from its second argument comes from the member with the greatest id. |
| `MergeProposals.OneSurvivorPerClass` | apps/viewer-api-go/internal/extraction/core.go:1955-2041 | Every class of the closure has exactly one survivor. |
| `MergeProposals.LinkedExactly` | apps/viewer-api-go/internal/extraction/core.go:1984-2000 | Two ids are linked exactly if they differ, both are known, and a proposal of a confidence from 0.75 to 1 names them, in either direction. |
| `MergeProposals.ProposalOrderIsIrrelevant` | apps/viewer-api-go/internal/extraction/core.go:1955-2041 | The outcome depends only on which ids the accepted proposals link. |
| `MergeProposals.ReorderedProposals` | apps/viewer-api-go/internal/extraction/core.go:1955-2041 | Lists with the same proposals up to order, repetition and direction give the same outcome. |
| `MergeProposals.WithoutCount` | apps/viewer-api-go/internal/extraction/core.go:2033-2041 | As many characters disappear as ids are removed. |
| `MergeProposals.ApplyMergeProposals` | apps/viewer-api-go/internal/extraction/core.go:1955-2041 | With unique ids the result is exactly the survivors and the counter grows by the number that disappeared; exactly the members of a class that are not its earliest are retired, each into the earliest. |
| `IdAllocator.AdvanceOrdinal` | apps/viewer-api-go/internal/characters/id_allocator.go:178-190 | The search ends, at the first ordinal from the current one whose id is unused. |
| `IdAllocator.NextStableId` | apps/viewer-api-go/internal/characters/id_allocator.go:192-204 | The id handed out is that of the first free ordinal, and the ordinal moves past it. |
| `IdAllocator.AssignFacts` | apps/viewer-api-go/internal/characters/id_allocator.go:56-73 | One call returns pairwise distinct ids, the issued ones never used before, and the ordinal does not decrease. |
| `IdAllocator.AssignKeepsGivenIds` | apps/viewer-api-go/internal/characters/id_allocator.go:56-73 | A given id is kept if and only if it is not empty and repeats no earlier one of the same call; any other is issued now. |
| `IdAllocator.NoOrdinalSkipped` | apps/viewer-api-go/internal/characters/id_allocator.go:56-73 | Issued ids come from the ordinals that the call passes, and the id of every ordinal passed is in use afterwards. |
| `IdAllocator.RunNeverReissues` | apps/viewer-api-go/internal/characters/id_allocator.go:56-106 | Over any run of Assign, Retire and ApplyState no id is issued twice, and none that was used, issued or retired before; nothing used is forgotten and the ordinal never goes back. |
| `IdAllocator.Allocator.Assign` | apps/viewer-api-go/internal/characters/id_allocator.go:56-73 | The new state and the ids are those of the specification that the lemmas are about. |
| `IdAllocator.Allocator.Retire` | apps/viewer-api-go/internal/characters/id_allocator.go:75-85 | The new state is the specified one. |
| `IdAllocator.RetiredInto` | apps/viewer-api-go/internal/characters/id_allocator.go:75-85 | After a series of retirements each id is recorded with what it was last merged into, and is in use; empty ids and other retirements are untouched. |
| `IdAllocator.Allocator.ApplyState` | apps/viewer-api-go/internal/characters/id_allocator.go:87-106 | The new state is the specified one. |
| `IdAllocator.SavedApplied` | apps/viewer-api-go/internal/characters/id_allocator.go:87-106 | A saved state adds its ids to those used and issued; the ordinal becomes the first free one from the greater of the two. |
| `IdAllocator.RetireMissing` | apps/viewer-api-go/internal/characters/event_store.go:516-537 | Earlier retirements stay, exactly the stored ids that are no longer live and not yet retired are added, once and merged into nothing, and the list is sorted by id. |
| `IdAllocator.AssignGeneratedIds` | apps/viewer-api-go/internal/characters/event_store.go:10-55 | On save an id stays if and only if it is not empty and repeats no earlier one; changed ones are new to the store and come from the ordinals passed, none of which stays free; exactly the stored ids that are gone and not yet retired are newly retired; the next ordinal is free. |
| `RegistryReuse.IdentityFrequency` | apps/viewer-api-go/internal/extraction/core.go:845-859 | The table counts the registry characters that carry each key. |
| `RegistryReuse.FrequencyCounts` | apps/viewer-api-go/internal/extraction/core.go:845-863 | The count is 0 exactly if no registry character has the key, and 1 exactly if a single one has it. |
| `RegistryReuse.BuildKeyTable` | apps/viewer-api-go/internal/extraction/core.go:1571-1601 | The table maps exactly the exact keys with one eligible owner, to that owner, whatever order the map is walked in. |
| `RegistryReuse.TableLends` | apps/viewer-api-go/internal/extraction/core.go:1571-1601 | A key stands for an id if and only if it has two characters or more, one registry character has it among all its keys, and this id and no other is lent for it by characters that are not known to appear only later. |
| `RegistryReuse.FindTarget` | apps/viewer-api-go/internal/extraction/core.go:1615-1632 | The scan yields the id that all keys with an owner agree on, and none if two disagree. |
| `RegistryReuse.TargetExactly` | apps/viewer-api-go/internal/extraction/core.go:1615-1632 | The target is an id if and only if some key of the character stands for it and no key stands for another. |
| `RegistryReuse.CountClaims` | apps/viewer-api-go/internal/extraction/core.go:1633-1635 | The counter of each id is the number of characters that claim it. |
| `RegistryReuse.Rename` | apps/viewer-api-go/internal/extraction/core.go:1637-1648 | Exactly the characters with an unoccupied target that no other claims are renamed; the remap and the retirements record these renamings. |
| `RegistryReuse.RenamedByKnown` | apps/viewer-api-go/internal/extraction/core.go:1602-1648 | A new id is lent by registry characters not known to appear only after the boundary, for a merge key that is the character's too and that no other registry character has. |
| `RegistryReuse.RenamingIsInjective` | apps/viewer-api-go/internal/extraction/core.go:1637-1648 | Renaming keeps ids distinct and takes no id held by any generated character. |
| `RegistryReuse.RemapHasNoChains` | apps/viewer-api-go/internal/extraction/core.go:1649-1673 | No id is both renamed and a new name, so applying the remap once is applying it fully, and different generated ids stay different. |
| `RegistryReuse.MergeById` | apps/viewer-api-go/internal/extraction/core.go:1679-1703 | Characters without id stay, those that share an id are folded in list order, and the result is in order of first appearance, then name; with distinct ids it loses and adds no character. |
| `RegistryReuse.FoldedGathers` | apps/viewer-api-go/internal/extraction/core.go:1679-1700 | Characters that share an id become one that holds what they all held, of any content that merging two characters adds up. |
| `RegistryReuse.FoldedKeepsFirst` | apps/viewer-api-go/internal/extraction/core.go:1679-1700 | What merging keeps of its first argument is that of the first of them. |
| `RegistryReuse.FoldedTakesLast` | apps/viewer-api-go/internal/extraction/core.go:1679-1700 | What merging takes from its second argument is that of the last of them. |
| `RegistryReuse.SortedKeepsTies` | apps/viewer-api-go/internal/extraction/core.go:2356-2364 | The sort is stable: characters with the same first appearance and name stay in the order they had. |
| `RegistryReuse.ReuseRegistryIds` | apps/viewer-api-go/internal/extraction/core.go:1567-1677 | With distinct ids the result is the same characters, renamed injectively by the rules above, in order of first appearance, then name; each given-up id is retired once, merged into the new one. |
| `GreedySplit.GreedyStaysAhead` | apps/viewer-api-go/internal/extraction/core.go:332-363 | After as many groups, the greedy division has come at least as far as any other. |
| `GreedySplit.GreedyIsOptimal` | apps/viewer-api-go/internal/extraction/core.go:332-363 | No order-preserving division into single items or admissible groups has fewer groups than the greedy one. |
| `Batching.BatchesAreOptimal` | apps/viewer-api-go/internal/extraction/core.go:332-378 | The batches concatenate to the chunks, each of two or more chunks has at most as many tokens as allowed, or where no token limit is set as many runes, and no other such division has fewer batches. |
| `Batching.CostsAdd` | apps/viewer-api-go/internal/extraction/core.go:375-378 | Costs add up: a chunk costs its runes, or 32 tokens more than its estimate. |
| `Texts.EstimateIsLeast` | apps/viewer-api-go/internal/extraction/core.go:2390-2397 | The estimate is the least number that is neither less than the runes nor than a quarter of the bytes of the trimmed text. |
| `Texts.WidthIsLeast` | apps/viewer-api-go/internal/extraction/core.go:2390-2397 | Bytes are those of UTF-8 (section 3 of RFC 3629): a code point takes the least number with room for its bits. |
| `Texts.TrimSpaceIs` | apps/viewer-api-go/internal/extraction/core.go:276-281 | Trimming takes off white space at both ends, all of it and nothing else. |
| `Batching.CreateBatchesWithBudget` | apps/viewer-api-go/internal/extraction/core.go:332-363 | The loop computes these batches, numbered from 1, with their count and the distinct episodes of each. |
| `RuntimePlanning.BisectChunk` | apps/viewer-api-go/internal/extraction/core.go:516-554 | Bisection ends; its pieces are the leaves of halving: the two halves of the chunk are taken in order, one that fits is a piece and only one that is too big is halved again. Or it was blocked at a stretch of the chunk's text: by a failing test or by a single rune that does not fit. |
| `RuntimePlanning.HalvesAreEven` | apps/viewer-api-go/internal/extraction/core.go:521-540 | The halves make up the text, the right one being longer by at most one rune; they keep their origin, the right one has the next number, and both count two chunks at least. |
| `RuntimePlanning.HalvedFits` | apps/viewer-api-go/internal/extraction/core.go:516-554 | The pieces of halving are two or more, fit one by one, are not empty and make up the chunk. |
| `RuntimePlanning.HalvedNotTooSmall` | apps/viewer-api-go/internal/extraction/core.go:516-554 | For a test by length every piece has at least half the limit and at most the limit. |
| `RuntimePlanning.HalvedIntoFew` | apps/viewer-api-go/internal/extraction/core.go:516-554 | So there are at most twice as many pieces as there must be. |
| `RuntimePlanning.ResplitsKeepsText` | apps/viewer-api-go/internal/extraction/core.go:516-554 | Cutting chunks into pieces keeps the concatenated text. |
| `RuntimePlanning.PlanBatch` | apps/viewer-api-go/internal/extraction/core.go:414-448 | The batch is the longest prefix all of whose prefixes fit, or the first piece of a first chunk that does not. |
| `RuntimePlanning.PlannedFacts` | apps/viewer-api-go/internal/extraction/core.go:414-448 | A planned batch fits and is not empty, with the remainder it makes up the chunks in order, and the remainder is smaller by (runes, chunks). |
| `RuntimePlanning.PlanRuntimeBatch` | apps/viewer-api-go/internal/extraction/core.go:414-448 | The same for whole batches with their episodes. |
| `RuntimePlanning.PlanBatches` | apps/viewer-api-go/internal/extraction/core.go:450-505 | All planned groups fit and make up the chunks in order; a group is closed only if it would be too big with the next chunk, and a chunk is cut, by halving, only if it is too big alone. |
| `RuntimePlanning.PlanIsFewest` | apps/viewer-api-go/internal/extraction/core.go:450-505 | Where every chunk fits alone none is cut, and no division of the chunks in order into batches that fit has fewer, if a batch that fits still fits with chunks taken off either end. |
| `RuntimePlanning.PlanRuntimeBatches` | apps/viewer-api-go/internal/extraction/core.go:450-505 | A batch that fits is returned as it is; one chunk is cut by halving; several are planned as above. Every batch fits and is not empty, and together they make up the chunks in order. |
| `RuntimePlanning.RuntimeBatchKeeps` | apps/viewer-api-go/internal/extraction/core.go:507-514 | A runtime batch keeps number and count of its template and lists the episodes of its chunks once each, in the order of their first chunks. |
| `RuntimePlanning.SplitOversizedChunkBatch` | apps/viewer-api-go/internal/extraction/core.go:516-554 | A batch of one chunk becomes fitting batches of its pieces; any other is returned as it is. |
| `RuntimePlanning.DrainBatches` | apps/viewer-api-go/internal/application/extraction/generation_runner.go:122-144 | Planning on the remainder again and again ends or fails, even if the test changes between calls, and its batches make up the chunks in order. |
| `SentenceChunks.PiecesAreSentences` | apps/viewer-api-go/internal/extraction/core.go:263-284 | Cut behind every sentence end, the pieces make up the text, and each is one sentence, the last one possibly unfinished. |
| `SentenceChunks.PieceBegins` | apps/viewer-api-go/internal/extraction/core.go:263-284 | A new piece begins exactly behind a full stop, an exclamation mark or a question mark, the ideographic and full-width ones and the two of ASCII. |
| `SentenceChunks.NormalizeSpacesWords` | apps/viewer-api-go/internal/extraction/core.go:113-115 | Normalising white space keeps the words and puts one space between them. |
| `SentenceChunks.WordsApart` | apps/viewer-api-go/internal/extraction/core.go:113-115 | Words are the longest stretches without white space. |
| `SentenceChunks.SplitFragments` | apps/viewer-api-go/internal/extraction/core.go:263-284 | The loop yields these pieces trimmed; none is empty and only white space is lost. |
| `SentenceChunks.SplitEvery` | apps/viewer-api-go/internal/extraction/core.go:286-297 | Pieces of exactly the limit, the last possibly shorter, that make up the text. |
| `SentenceChunks.SplitSentenceChunks` | apps/viewer-api-go/internal/extraction/core.go:220-261 | For every text and limit of at least one: non-empty chunks within the limit that equal the normalised text once white space is removed; they are the greedy division of the sentences, those too long by themselves cut up. |
| `SentenceChunks.ChunksAreFewest` | apps/viewer-api-go/internal/extraction/core.go:220-261 | No division of these units in order into chunks within the limit has fewer chunks. |
| `JobDisk.SaveKeepsOneActive` | apps/viewer-api-go/internal/extraction/job_store.go:687-745 | However a save ends, a crash between its two writes included, no novel gets a second queued, running or pausing job. |
| `JobDisk.SavedFirst` | apps/viewer-api-go/internal/extraction/job_store.go:747-763 | The saved job comes first in its novel's index, the others keep their order behind it, and the revision grows by one. |
| `JobDisk.IndexWithDescribesIff` | apps/viewer-api-go/internal/extraction/job_store.go:747-763 | The updated index describes the documents after the write if and only if the index before described the other documents, whatever it held. |
| `JobDisk.SaveAccurateExactly` | apps/viewer-api-go/internal/extraction/job_store.go:687-774 | From any disk, a successful save leaves its novel's index accurate if and only if there was no usable index or the usable one described the novel's other documents. |
| `JobDisk.SaveAccurateIffNotMoved` | apps/viewer-api-go/internal/extraction/job_store.go:687-763 | After a successful save from accurate indexes all indexes are accurate if and only if the document did not belong to another novel with an index. |
| `JobDisk.MovedDocumentExample` | apps/viewer-api-go/internal/extraction/job_store.go:687-763 | A document saved under a second novel stays in the index of the first. |
| `JobDisk.FailedSaveIsContained` | apps/viewer-api-go/internal/extraction/job_store.go:687-763 | A failed or cut-off save keeps every accurate index of another novel accurate, and its own unless its document was written. |
| `JobDisk.CutSaveAccurateIff` | apps/viewer-api-go/internal/extraction/job_store.go:742-745 | Cut off between its two writes, a save leaves its novel's index accurate if and only if there is none, or the document was listed and is as active as before. |
| `JobDisk.RetryRepairs` | apps/viewer-api-go/internal/extraction/job_store.go:742-745 | Saving the same job again repairs what a failed save left behind. |
| `JobSteps.StepKeepsGood` | apps/viewer-api-go/internal/extraction/job_store.go:503-846 | Every operation, however it ends, keeps one active job per novel. |
| `JobSteps.OneActiveAlways` | apps/viewer-api-go/internal/extraction/job_store.go:503-846 | So does every run of save, guarded save, enqueue, control, finalise, recover, prune and rebuild. |
| `JobSteps.AtMostOneBusy` | apps/viewer-api-go/internal/extraction/job_store.go:503-846 | Spelled out: in no state of a run are two documents of one novel queued, running or pausing. |
| `JobSteps.CancelIsSticky` | apps/viewer-api-go/internal/extraction/job_store.go:503-677 | No run of control actions, finalising, recovery, rebuilding or guarded saves not expecting `canceled` changes a canceled job document. |
| `JobSteps.ControlSaves` | apps/viewer-api-go/internal/extraction/job_store.go:548-603 | Pause succeeds only on a queued or running job and leaves it paused or pausing; cancel on one that is queued, running, pausing, paused or interrupted, and leaves it canceled and finished now; resume on a paused or interrupted one, and leaves it queued without error. Boundary, counters, creation time and details stay. Anything else fails and changes nothing. |
| `JobSteps.CanceledStays` | apps/viewer-api-go/internal/extraction/job_store.go:548-603 | Over every run: after a successful cancel the job is canceled and its document stays as it is up to the first request outside those of `JobSteps.CancelIsSticky`. |
| `JobSteps.GuardedSave` | apps/viewer-api-go/internal/extraction/job_store.go:503-524 | A guarded save fails for a document that is not the novel's and changes nothing unless the status is expected; then it writes this one document. |
| `JobSteps.EnqueueWaits` | apps/viewer-api-go/internal/extraction/job_store.go:526-546 | Enqueueing changes nothing while a job of the novel is queued, running or pausing; else it writes this one document and overwrites none of another schema version. |
| `JobSteps.FinalizePauses` | apps/viewer-api-go/internal/extraction/job_store.go:605-623 | Finalising makes a pausing job paused, without workers, and touches no other document. |
| `JobSteps.RecoveryIsFailStop` | apps/viewer-api-go/internal/extraction/job_store.go:634-675 | At no point of a recovery, crashes included, is a job still running or pausing whose incompatible checkpoint was already moved away. |
| `JobSteps.RecoveryStopsAll` | apps/viewer-api-go/internal/extraction/job_store.go:625-677 | A successful recovery leaves no running or pausing job in an unblocked novel. |
| `JobSteps.RecoveryStops` | apps/viewer-api-go/internal/extraction/job_store.go:625-685 | A successful recovery leaves each running or pausing job of an unblocked novel interrupted, without counters, workers and end, or, if the checkpoint of its boundary was incompatible, incompatible with that checkpoint gone; every other document is as before. |
| `JobSteps.RebuildRestores` | apps/viewer-api-go/internal/extraction/job_store.go:809-836 | Whatever the index held, rebuilding makes it accurate and leaves the others as they are. |
| `JobSteps.ObstructedChangesNothing` | apps/viewer-api-go/internal/extraction/job_store.go:129-189 | Enqueueing, pruning and rebuilding change nothing while a document is unreadable or one of another schema version is the novel's or of unknown owner. |
| `JobSteps.PruneHoldsBack` | apps/viewer-api-go/internal/extraction/job_store.go:97-168 | Pruning changes nothing while other state of the novel may not be pruned, a checkpoint is unreadable or one of the novel is of another version, or, if only idle novels are to be pruned, while the novel has a queued, running or pausing job. |
| `JobSteps.PruneSparesOthers` | apps/viewer-api-go/internal/extraction/job_store.go:191-268 | However it ends, pruning touches no document, index or checkpoint of another novel and no document of another schema version. |
| `JobSteps.AccurateMeans` | apps/viewer-api-go/internal/extraction/job_store.go:747-836 | Spelled out: an accurate index lists exactly the novel's documents, each once, and names the queued, running or pausing one or none. |
| `JobSteps.StepKeepsAccuracy` | apps/viewer-api-go/internal/extraction/job_store.go:687-846 | Every operation, however it ends, that takes no document from a novel keeps that novel's index accurate, unless it is cut off between writing a document of this very novel and its index. |
| `JobSteps.IndexStaysAccurate` | apps/viewer-api-go/internal/extraction/job_store.go:687-846 | Over every run, failures and crashes at other novels included, the index of an undisturbed novel lists exactly its documents, each once, and names its one active job or none. |
| `JobSteps.AccurateSinceRepair` | apps/viewer-api-go/internal/extraction/job_store.go:809-836 | Whatever happened before, an index is accurate again from the last rebuild or pruning of its novel on, as long as the novel is undisturbed. |
| `JobSteps.StaleUntilReached` | apps/viewer-api-go/internal/extraction/job_store.go:765-774 | Over every run a document that its novel's usable index does not list stays unlisted until it is written again or the index is rebuilt or pruned. |
| `JobSteps.CutOffSaveStaysUnlisted` | apps/viewer-api-go/internal/extraction/job_store.go:742-745 | A new job whose save is cut off is active, and after another successful save of the novel still neither listed nor named as active. |
| `JobStore.Store.LoadRecords` | apps/viewer-api-go/internal/extraction/job_store.go:270-287 | All documents, or an error exactly if one is unreadable. |
| `JobStore.Store.PreflightJobDocuments` | apps/viewer-api-go/internal/extraction/job_store.go:170-189 | Passes exactly if no document is unreadable and none of another version is the novel's or of unknown owner. |
| `JobStore.Store.LoadOrRebuildIndex` | apps/viewer-api-go/internal/extraction/job_store.go:765-807 | The stored index if it is usable, else one rebuilt from the documents; an unusable one is moved away first. |
| `JobStore.Store.SaveIndex` | apps/viewer-api-go/internal/extraction/job_store.go:747-763 | The index of the novel becomes the updated one; on failure it is untouched, or moved away if it was not usable. |
| `JobStore.Store.SaveJob` | apps/viewer-api-go/internal/extraction/job_store.go:687-745 | Every way a save can end is one of the steps above. |
| `JobStore.Store.SaveJobIfCurrentStatus` | apps/viewer-api-go/internal/extraction/job_store.go:503-524 | Saves only over an expected status; otherwise nothing changes. |
| `JobStore.Store.SaveJobIfNoActive` | apps/viewer-api-go/internal/extraction/job_store.go:526-546 | Saves only if the novel has no active job; otherwise nothing changes. |
| `JobStore.Store.ControlJob` | apps/viewer-api-go/internal/extraction/job_store.go:548-603 | Every way a control action can end is a step; on success it was allowed in the status the job had, and the job returned is the one of `JobSteps.ControlSaves`. |
| `JobStore.Store.FinalizePausingJob` | apps/viewer-api-go/internal/extraction/job_store.go:605-623 | A pausing job becomes paused; any other is left alone. |
| `JobStore.Store.LoadRecordsForExecution` | apps/viewer-api-go/internal/extraction/job_store.go:289-332 | Exactly the current documents of novels with no document of another version and at most one active job; fails only on an unreadable document or one of unknown owner. |
| `JobStore.Store.StopJob` | apps/viewer-api-go/internal/extraction/job_store.go:638-675 | One stopped job, its checkpoint moved only after its fail-stop status is saved. |
| `JobStore.Store.RecoverRunningJobs` | apps/viewer-api-go/internal/extraction/job_store.go:625-677 | Every way recovery can end is a run of such writes; success leaves exactly the stopped jobs changed. |
| `JobStore.Store.PruneNovelState` | apps/viewer-api-go/internal/extraction/job_store.go:72-268 | The checks come before any removal; then the index, the documents and the checkpoints go, in this order; success leaves none of the novel's. |
| `JobStore.Store.RebuildJobIndex` | apps/viewer-api-go/internal/extraction/job_store.go:809-836 | Every way a rebuild can end is a rebuild step. |
| `JobStore.Store.PrependUniqueJobId` | apps/viewer-api-go/internal/extraction/job_store.go:838-846 | The loop puts the id first and keeps the other ids, empty ones left out. |
| `Graphemes.GraphemeOffsetIsLeast` | apps/viewer-web/src/readerSpeech.ts:102-121 | The grapheme offset of a code-unit offset is at most k exactly if the offset is at most the start of the k-th grapheme. |
| `Graphemes.OffsetsInvert` | apps/viewer-web/src/readerSpeech.ts:102-143 | At the start of a grapheme the two conversions are inverse. |
| `Graphemes.GetGraphemeOffsetFromCodeUnitOffset` | apps/viewer-web/src/readerSpeech.ts:102-121 | The loop computes that rounded-up offset. |
| `Graphemes.GetCodeUnitOffsetFromGraphemeOffset` | apps/viewer-web/src/readerSpeech.ts:123-143 | The loop computes the start of the grapheme, or the end of the text. |
| `SpeechMaps.FloorCeil` | apps/viewer-web/src/readerSpeech.ts:483-486 | Interpolating up and interpolating down between the same two anchors are adjoint. |
| `SpeechMaps.GetReaderSpeechPositionForCharIndex` | apps/viewer-web/src/readerSpeech.ts:449-506 | The search over the anchors, or the whole chunk without them, computes the map to positions. |
| `SpeechMaps.GetReaderSpeechCharIndexForPosition` | apps/viewer-web/src/readerSpeech.ts:508-569 | The search computes the map to characters. |
| `SpeechMaps.GaloisConnection` | apps/viewer-web/src/readerSpeech.ts:449-569 | For every grapheme boundary c and position p of a valid chunk: charIndex(p) <= c if and only if p <= position(c). |
| `SpeechMaps.RoundedConnection` | apps/viewer-web/src/readerSpeech.ts:449-569 | For every character, the same with c rounded up to the end of its grapheme. |
| `SpeechMaps.ConnectionExactly` | apps/viewer-web/src/readerSpeech.ts:449-569 | The connection holds at a character for all positions if and only if it is a grapheme boundary or no position leads to the end of its grapheme. |
| `SpeechMaps.CharIndexIsBoundary` | apps/viewer-web/src/readerSpeech.ts:508-569 | The map to characters always ends at a grapheme boundary. |
| `SpeechMaps.MapsAreMonotone` | apps/viewer-web/src/readerSpeech.ts:449-569 | Both maps are monotone. |
| `SpeechMaps.AnchorsAreKept` | apps/viewer-web/src/readerSpeech.ts:449-569 | The maps meet every anchor: its character is at its position and its position leads to its character. |
| `SpeechMaps.InProportion` | apps/viewer-web/src/readerSpeech.ts:483-486 | Between two anchors a character has its share of the positions, by the graphemes that start before it, rounded down. |
| `SpeechMaps.ResumeNeverEarly` | apps/viewer-web/src/readerSpeech.ts:508-569 | Resuming at a position starts at the first grapheme boundary whose position is not before it. |
| `SpeechMaps.PlaybackIsValid` | apps/viewer-web/src/readerSpeech.ts:571-622 | A chunk cut for playback is again valid, with the rest of the text and the same end, so the maps connect on it too. |
| `SpeechMaps.PlaybackAgrees` | apps/viewer-web/src/readerSpeech.ts:571-622 | From the next anchor on, both maps of a chunk cut for playback are those of the whole chunk, characters counted from the cut. |
| `SpeechMaps.PlaybackSpeaks` | apps/viewer-web/src/readerSpeech.ts:571-622 | Playback asked to start inside a chunk speaks nothing from before there if and only if there is at or before the position of the last grapheme; else it speaks the whole chunk again. |
| `SpeechMaps.PlaybackReports` | apps/viewer-web/src/readerSpeech.ts:571-622 | The start position it reports is no earlier than asked if and only if the position is also after that of the first character. |
| `SpeechFragments.SplitOversizedFragment` | apps/viewer-web/src/readerSpeech.ts:284-315 | The loop divides graphemes and positions evenly. |
| `SpeechFragments.SplitKeepsText` | apps/viewer-web/src/readerSpeech.ts:284-315 | The parts are in order, within the fragment and short enough; they keep the whole text if the fragment has at least one position for every `max` graphemes, and lose some of it otherwise. |
| `SpeechFragments.SplitIsShort` | apps/viewer-web/src/readerSpeech.ts:284-315 | An oversized fragment is cut into as few parts as the maximum allows, none with more graphemes than that. |
| `SpeechFragments.PartsAreEven` | apps/viewer-web/src/readerSpeech.ts:284-315 | The parts differ by at most one grapheme and one position. |
| `SpeechAnchors.NormalizedIndexMonotone` | apps/viewer-web/src/readerSpeech.ts:158-165 | The index in the normalised text does not fall as the index in the raw text rises, and stays within the text. |
| `SpeechAnchors.NormalizedIndexMarks` | apps/viewer-web/src/readerSpeech.ts:158-165 | Inside the normalised text, what stands before the index is the collapsed raw text before it, leading white space aside. |
| `SpeechAnchors.CollapseRun` | apps/viewer-web/src/readerSpeech.ts:154-159 | Of a run of line feeds at most two are kept, of one or two all. |
| `SpeechAnchors.CollapseKeeps` | apps/viewer-web/src/readerSpeech.ts:154-159 | Every other character is kept. |
| `SpeechAnchors.NormalizedIs` | apps/viewer-web/src/readerSpeech.ts:154-165 | The normalised text is the collapsed text without the white space at its ends, all of it and nothing else. |
| `SpeechAnchors.BuildReaderSpeechChunkTextAndAnchors` | apps/viewer-web/src/readerSpeech.ts:326-368 | Text and anchors are the normalised text and the de-duplicated sorted anchors of the fragments. |
| `SpeechAnchors.DedupedRises` | apps/viewer-web/src/readerSpeech.ts:356-365 | De-duplicated anchors rise strictly in character and position, from the first character to the last anchor. |
| `SpeechAnchors.ChunkOfIsValid` | apps/viewer-web/src/readerSpeech.ts:326-368 | Fragments in document order make a valid chunk if there is anything to say: its anchors rise from 0 to the end of the text and the end of the chunk. |
| `SpeechAnchors.FragmentsKeepPlace` | apps/viewer-web/src/readerSpeech.ts:326-368 | A fragment that leaves something to say starts, in the maps of the chunk as in the document, at its own position. |
| `SpeechAnchors.TrimmedBreakReplays` | apps/viewer-web/src/readerSpeech.ts:571-622 | A chunk of one character and a line break that trimming removes: asked to start at the line break, playback speaks the whole chunk again. |
| `SpeechChunks.AddFragment` | apps/viewer-web/src/readerSpeech.ts:414-426 | One fragment joins the open group, which is closed before it if it would exceed the maximum and after it if it is complete. |
| `SpeechChunks.GroupsClose` | apps/viewer-web/src/readerSpeech.ts:370-431 | A group of several fragments is within the maximum; none has reached the target at a line end before its last fragment; each but the last has there, or could not take the next fragment. |
| `SpeechChunks.OptionsAre` | apps/viewer-web/src/readerSpeech.ts:374-378 | The maximum is 220 unless given and at least 40, the target 160 unless given, at least 20 and at most the maximum. |
| `SpeechChunks.BuildReaderSpeechChunks` | apps/viewer-web/src/readerSpeech.ts:370-431 | For all fragments in document order and all options: the groups partition the fitted fragments and are closed exactly by those rules, they hold all of the text if and only if every fragment has enough positions, and all chunks are valid and follow the document without overlap. |
| `ReaderPositions.AdvancePosition` | apps/viewer-web/src/readerDocument.ts:87-98 | A length of zero takes no range; any other takes the next one and moves the cursor behind it. |
| `ReaderPositions.RenderInlineTokens` | apps/viewer-web/src/readerDocument.ts:410-450 | Through nested links, every token gets the range that laying the tokens out one after the other gives it. |
| `ReaderPositions.RenderBlockHtml` | apps/viewer-web/src/readerDocument.ts:452-494 | The same for a block; nothing is written exactly for an image whose source is rejected, and then the cursor stays. |
| `ReaderPositions.RenderReaderDocumentHtml` | apps/viewer-web/src/readerDocument.ts:496-535 | Every block that is written comes out in order and in its own section, positions running on; if no image is rejected, no section is empty and two in a row are of different kinds. |
| `ReaderPositions.BlocksInSections` | apps/viewer-web/src/readerDocument.ts:496-535 | If no image is rejected every block is written: title and meta blocks outside any section, any other in its own, its elements laid out from the end of the blocks before it. |
| `ReaderPositions.RenderedElements` | apps/viewer-web/src/readerDocument.ts:496-535 | The elements of the whole document are all shown items laid out from 0. |
| `SpeechWalk.TokenizeInlineSpeech` | apps/viewer-web/src/readerSpeech.ts:202-243 | Through nested links, every token advances the cursor by its length, and the ones with something to say give a fragment with that interval. |
| `SpeechWalk.BuildReaderSpeechFragments` | apps/viewer-web/src/readerSpeech.ts:245-282 | The fragments of the document are proper, in document order and without overlap, and the final filter removes none. |
| `SpeechWalk.ItemSaid` | apps/viewer-web/src/readerSpeech.ts:202-282 | What is said for each kind of token and block and over which positions: a ruby its reading or its base as asked, a line break a line feed, an image nothing, an HTML block its plain text over one position. |
| `SpeechWalk.RubyKeepsPlaces` | apps/viewer-web/src/readerSpeech.ts:220-229 | Saying ruby readings instead of their bases changes no position, if every ruby has both or neither. |
| `SpeechWalk.SameCoordinates` | apps/viewer-web/src/readerSpeech.ts:202-282 | If no image is rejected, the fragments have exactly the ranges of the rendered elements that there is something to say for. |
| `SpeechWalk.RenderedPlace` | apps/viewer-web/src/readerDocument.ts:410-494 | The renderer's place of any item is behind the tokenizer's by the number of images rejected before it; they agree on it if and only if it takes no position or none was. |
| `SpeechWalk.EndsAgreeIffNoneRejected` | apps/viewer-web/src/readerDocument.ts:467-471 | The two walks end at the same position if and only if no image is rejected. |
| `SpeechWalk.RejectedImageExample` | apps/viewer-web/src/readerDocument.ts:467-471 | After one rejected image a title of one character is rendered at 0 and spoken at 1. |
| `SpeechWalk.RenderedTiles` | apps/viewer-web/src/readerDocument.ts:496-535 | The rendered intervals tile the document from 0 to its end without gap or overlap, whatever images are rejected. |
| `SpeechWalk.BuildDocumentChunks` | apps/viewer-web/src/readerSpeech.ts:370-431 | The chunks of a document are made of groups of what there is to say, in document order; the groups hold all of it if and only if every fragment has a position for every `max` graphemes; every chunk is valid, so the maps connect on it. |
| `SpeechWalk.HtmlBlockLosesText` | apps/viewer-web/src/readerSpeech.ts:277-280 | A document of one HTML block loses text if the block is longer than a chunk. |
| `SpeechWalk.LongHtmlExample` | apps/viewer-web/src/readerSpeech.ts:277-280 | With the default maximum, 220 characters in an HTML block are too many. |
| `DashRuns.SplitDashRunLength` | apps/viewer-web/src/readerDocument.ts:111-117 | Chunks of 1 to 12 dashes, all but the last full, that add up to the run. |
| `DashRuns.RenderDashRunFragments` | apps/viewer-web/src/readerDocument.ts:365-380 | The rendered run has the same number of dashes. |
| `DashRuns.EdgesOnce` | apps/viewer-web/src/readerDocument.ts:119-131 | A run of up to twelve dashes is drawn whole, a longer one as a start, middles and an end. |
| `DashRuns.RenderVisibilityFragments` | apps/viewer-web/src/readerDocument.ts:382-408 | The rendered text is the text without its isolated dashes; each run of two dashes or more is wrapped as a whole and nothing else is. |
| `DashRuns.KeptIffNoneIsolated` | apps/viewer-web/src/readerDocument.ts:382-408 | Rendering keeps the text if and only if it has no dash without a dash on either side. |
| `DashRuns.SingleDashIsLost` | apps/viewer-web/src/readerDocument.ts:382-408 | The text of a single dash is rendered as nothing. |
| `HtmlDashRuns.Collector.Flush` | apps/viewer-web/src/readerDocument.ts:202-243 | Ending a run adds its spans, if it has two dashes or more, after those already there. |
| `HtmlDashRuns.Collector.Walk` | apps/viewer-web/src/readerDocument.ts:245-278 | The walk through the tree meets exactly the dashes and breaks that the nodes give in order. |
| `HtmlDashText.RunCovers` | apps/viewer-web/src/readerDocument.ts:202-237 | The spans of a run of two or more dashes are sorted and disjoint and cover exactly its dashes, across nodes; a single dash is not covered. |
| `HtmlDashText.RunEdges` | apps/viewer-web/src/readerDocument.ts:179-243 | The spans of a run are one whole, or a start, middles and an end; within one node all but the last have twelve dashes, over several nodes there is one in each. |
| `HtmlDashText.SpansCollected` | apps/viewer-web/src/readerDocument.ts:192-288 | After any events the spans are sorted and disjoint and cover exactly the dashes next to another of the runs that have ended. |
| `HtmlDashRewrite.WrapsJoinedDashes` | apps/viewer-web/src/readerDocument.ts:192-288 | A dash is wrapped if and only if it is next to another, inline elements not counting; nothing but dashes is wrapped. |
| `HtmlDashRewrite.InlineIsTransparent` | apps/viewer-web/src/readerDocument.ts:245-278 | An inline element is transparent: the walk meets the same as without its tags. |
| `HtmlDashRewrite.BlocksSeparate` | apps/viewer-web/src/readerDocument.ts:245-278 | No run goes on across a line break, another element or a comment: what is before, inside and after it is wrapped as if each stood alone. |
| `HtmlDashRewrite.SpansFit` | apps/viewer-web/src/readerDocument.ts:192-288 | The spans of each text node are sorted, disjoint and in range. |
| `HtmlDashRewrite.CollectHtmlDashRunSpans` | apps/viewer-web/src/readerDocument.ts:192-288 | The map holds exactly these spans for each node; the final sort changes nothing. |
| `HtmlDashRewrite.AppendHtmlDashRunFragmentsToDom` | apps/viewer-web/src/readerDocument.ts:290-321 | The pieces concatenate to the original text, their span elements are those of the spans, and the branch that would skip a segment is never reached. |
| `HtmlDashRewrite.RenderHtmlFallbackDashRuns` | apps/viewer-web/src/readerDocument.ts:323-351 | Every text node keeps exactly its text and gets exactly its spans. |

## Left out

- File formats, YAML, JSON, SQLite and HTTP, locks, clocks and quarantine file names: a time stamp is a parameter, a quarantined file is gone.
- Prompts, model clients, response decoding, candidate cards and term extraction, which are external or heuristic.
- The display name and the importance of a character: the first falls back to a name from any episode, the second counts with floats.
- `ApplyIdentityMergeEvents` and the merging of unresolved mentions in `core.go`, which repeat the record merge over sorted sources.
- The remapping of unresolved mentions, identity events and persisted characters after a registry reuse: their one pass is covered by `RegistryReuse.RemapHasNoChains`.
- Episode strings that are not canonical digits, where the comparison is not transitive.
- Cyclic maps of retired ids; the merge is modelled on acyclic maps, which is what normalised events give.
- The file list of the character, term and event documents in pruning: whether they may be pruned is a parameter.
- `findReaderSpeechChunkIndex`, chunk durations and voices, the browser speech engine and its callbacks, rates and listeners.
- Escaping, class names other than the edges of a dash run, URLs, image attributes and all scrolling and DOM measurement.
- Summary.LoadSummary: does not model the display name, the importance and the final order, which is by importance first, because importance is counted with floats.
- The wording of status messages, which is English here.
