/** The files of the extraction job store and what its operations may do to them, one atomic write at a time
    (extraction/job_store.go). A write either happens or not; what an operation leaves behind when a write does
    not happen is also what a crash at that point leaves behind. */
module JobDisk {
  import opened Ordering

  datatype Status = Queued | Running | Pausing | Paused | Interrupted | Canceled | Completed | Failed | Incompatible

  predicate Active(s: Status) { s == Queued || s == Running || s == Pausing }

  /** Batch and result counters shown while a job runs. */
  datatype Counters = Counters(currentBatch: int, batchCount: int, completedBatches: int, characters: int, terms: int)

  /** A job document without its id, which is its file name; `details` stands for the fields no operation touches. */
  datatype Job = Job(boundary: string, status: Status, stage: Option<string>, counters: Option<Counters>,
                     workers: seq<string>, finishedAt: Option<string>, error: Option<string>, createdAt: string,
                     details: string)

  /** A job file: current, of another schema version (owner None if it cannot be identified), or unreadable. */
  datatype JobFile = Current(novel: string, job: Job) | Future(owner: Option<string>) | Malformed

  /** An index file: readable, of another schema version, or unreadable for another reason. */
  datatype IndexFile =
    | Index(novel: string, active: Option<string>, ids: seq<string>, revision: int)
    | OtherIndex
    | UnreadableIndex

  /** A checkpoint file: current, of another schema version, not a checkpoint at all, or unreadable. */
  datatype CheckpointFile = GoodCheckpoint | OtherCheckpoint | MalformedCheckpoint | UnreadableCheckpoint

  type Jobs = map<string, JobFile>
  type Indexes = map<string, IndexFile>

  /** Checkpoints are keyed by novel and requested boundary. */
  datatype Disk = Disk(jobs: Jobs, indexes: Indexes, checkpoints: map<(string, string), CheckpointFile>)

  // ----- what must hold -----

  ghost predicate IsActive(jobs: Jobs, n: string, id: string) {
    id in jobs && jobs[id].Current? && jobs[id].novel == n && Active(jobs[id].job.status)
  }

  /** Each novel has at most one queued, running or pausing job document. */
  ghost predicate OneActive(jobs: Jobs) {
    forall n, a, b :: IsActive(jobs, n, a) && IsActive(jobs, n, b) ==> a == b
  }

  predicate Owned(file: JobFile, n: string) {
    (file.Current? && file.novel == n) || (file.Future? && file.owner == Some(n))
  }

  predicate OwnsCurrent(jobs: Jobs, n: string, id: string) { id in jobs && jobs[id].Current? && jobs[id].novel == n }

  function DocsOf(jobs: Jobs, n: string): set<string> { set id | id in jobs && Owned(jobs[id], n) }

  /** An index lists exactly the novel's documents, each once, and names its active job if there is one. */
  ghost predicate Describes(index: IndexFile, jobs: Jobs, n: string) {
    && index.Index? && index.novel == n
    && NoDup(index.ids) && Elems(index.ids) == DocsOf(jobs, n)
    && (index.active.Some? ==> IsActive(jobs, n, index.active.value))
    && (index.active.None? ==> forall id :: !IsActive(jobs, n, id))
  }

  /** The novel has no index, or one that describes it. */
  ghost predicate Accurate(d: Disk, n: string) { n in d.indexes ==> Describes(d.indexes[n], d.jobs, n) }

  ghost predicate AllAccurate(d: Disk) { forall n :: Accurate(d, n) }

  ghost predicate NoMalformed(jobs: Jobs) { forall id | id in jobs :: !jobs[id].Malformed? }

  // ----- saving -----

  /** The listed ids other than this one and empty ones, repetitions included. */
  function Others(ids: seq<string>, id: string): seq<string> {
    if ids == [] then []
    else
      var others, last := Others(ids[..|ids| - 1], id), ids[|ids| - 1];
      if last != "" && last != id then others + [last] else others
  }

  /** The id first, then the others. */
  function PrependUnique(ids: seq<string>, id: string): seq<string> { [id] + Others(ids, id) }

  /** The index that saving the job makes of an existing or rebuilt one. */
  function IndexWith(index: IndexFile, n: string, id: string, status: Status): IndexFile
    requires index.Index?
  {
    Index(n, if Active(status) then Some(id) else if index.active == Some(id) then None else index.active,
          PrependUnique(index.ids, id), index.revision + 1)
  }

  /** An index rebuilt from the documents: all of the novel's, and an active one if there is one. */
  ghost predicate Rebuilt(index: IndexFile, jobs: Jobs, n: string) { Describes(index, jobs, n) && index.revision == 0 }

  /** A stored index is used whenever it is readable and the novel's, whatever it lists. */
  predicate Usable(indexes: Indexes, n: string) { n in indexes && indexes[n].Index? && indexes[n].novel == n }

  /** The index that a save starts from: the stored one if it is usable, else a rebuilt one. */
  ghost predicate StartsFrom(index: IndexFile, indexes: Indexes, jobs: Jobs, n: string) {
    if Usable(indexes, n) then index == indexes[n]
    else (n in indexes ==> !indexes[n].UnreadableIndex?) && Rebuilt(index, jobs, n)
  }

  /** An index that is not usable may have been moved away. */
  predicate KeptOrMoved(indexes: Indexes, n: string, indexes': Indexes) {
    indexes' == indexes || (!Usable(indexes, n) && indexes' == indexes - {n})
  }

  type Validator = (string, string, Job) -> bool

  /** The checks before the document is written. */
  ghost predicate SaveAllowed(valid: Validator, jobs: Jobs, n: string, id: string, job: Job) {
    && valid(n, id, job)
    && (id in jobs ==> jobs[id].Current?)
    && (Active(job.status) ==> NoMalformed(jobs) && forall other :: IsActive(jobs, n, other) ==> other == id)
  }

  ghost predicate SavedIndex(indexes: Indexes, jobs: Jobs, n: string, id: string, status: Status, indexes': Indexes) {
    exists index: IndexFile :: index.Index? && StartsFrom(index, indexes, jobs, n)
      && indexes' == indexes[n := IndexWith(index, n, id, status)]
  }

  /** What a save may leave behind; `ok` if it reported success. */
  ghost predicate SaveStep(valid: Validator, d: Disk, n: string, id: string, job: Job, d': Disk, ok: bool) {
    && d'.checkpoints == d.checkpoints
    && (|| (!ok && d' == d)
        || (SaveAllowed(valid, d.jobs, n, id, job) && d'.jobs == d.jobs[id := Current(n, job)] &&
            if ok then SavedIndex(d.indexes, d'.jobs, n, id, job.status, d'.indexes)
            else KeptOrMoved(d.indexes, n, d'.indexes)))
  }

  lemma {:induction false} OthersLists(ids: seq<string>, id: string)
    ensures Elems(Others(ids, id)) == Elems(ids) - {id, ""}
    ensures NoDup(ids) ==> NoDup(Others(ids, id))
  {
    if ids != [] {
      var before, last := ids[..|ids| - 1], ids[|ids| - 1];
      OthersLists(before, id);
      assert ids == before + [last];
      ElemsOfSnoc(before, last);
      ElemsOfSnoc(Others(before, id), last);
    }
  }

  lemma {:induction false} PrependUniqueLists(ids: seq<string>, id: string)
    ensures Elems(PrependUnique(ids, id)) == Elems(Others(ids, id)) + {id}
    ensures NoDup(PrependUnique(ids, id)) <==> NoDup(Others(ids, id))
  {
    OthersLists(ids, id);
    var others, all := Others(ids, id), PrependUnique(ids, id);
    assert forall i | 0 <= i < |others| :: others[i] in Elems(others) && all[i + 1] == others[i];
  }

  lemma {:induction false} OthersConcat(a: seq<string>, b: seq<string>, id: string)
    ensures Others(a + b, id) == Others(a, id) + Others(b, id)
  {
    if b == [] {
      assert a + b == a;
    } else {
      assert (a + b)[..|a + b| - 1] == a + b[..|b| - 1];
      OthersConcat(a, b[..|b| - 1], id);
    }
  }

  lemma {:induction false} OthersSame(ids: seq<string>, id: string)
    requires id !in ids && "" !in ids
    ensures Others(ids, id) == ids
  {
    if ids != [] {
      OthersSame(ids[..|ids| - 1], id);
      Rejoin(ids, |ids| - 1);
    }
  }

  /** The saved job comes first in its novel's index, the others keep their order behind it, and the revision goes up
      by one. */
  lemma SavedFirst(valid: Validator, d: Disk, n: string, id: string, job: Job, d': Disk, a: seq<string>, b: seq<string>)
    requires SaveStep(valid, d, n, id, job, d', true) && Usable(d.indexes, n)
    requires id !in a + b && "" !in a + b && (d.indexes[n].ids == a + [id] + b || d.indexes[n].ids == a + b)
    ensures Usable(d'.indexes, n) && d'.indexes[n].ids == [id] + a + b
    ensures d'.indexes[n].revision == d.indexes[n].revision + 1
  {
    OthersAround(d.indexes[n].ids, a, b, id);
    Associate([id], a, b);
  }

  lemma {:induction false} OthersAround(ids: seq<string>, a: seq<string>, b: seq<string>, id: string)
    requires id !in a + b && "" !in a + b && (ids == a + [id] + b || ids == a + b)
    ensures Others(ids, id) == a + b
  {
    OthersSame(a, id);
    OthersSame(b, id);
    if ids == a + b {
      OthersConcat(a, b, id);
    } else {
      OthersConcat(a + [id], b, id);
      assert (a + [id])[..|a|] == a;
    }
  }

  /** Saving keeps one active job per novel, whether it succeeds, fails or stops half-way. */
  lemma SaveKeepsOneActive(valid: Validator, d: Disk, n: string, id: string, job: Job, d': Disk, ok: bool)
    requires OneActive(d.jobs) && SaveStep(valid, d, n, id, job, d', ok)
    ensures OneActive(d'.jobs)
  {
    forall m, a, b | IsActive(d'.jobs, m, a) && IsActive(d'.jobs, m, b) ensures a == b {
      if a != id { assert IsActive(d.jobs, m, a); }
      if b != id { assert IsActive(d.jobs, m, b); }
    }
  }

  /** File names are not empty. */
  ghost predicate NamedFiles(d: Disk) { "" !in d.jobs }

  /** The saved document has not belonged to another novel that has an index. */
  ghost predicate NotMoved(d: Disk, n: string, id: string) {
    id in d.jobs && d.jobs[id].Current? && d.jobs[id].novel != n ==> d.jobs[id].novel !in d.indexes
  }

  lemma DocsAfterSave(jobs: Jobs, n: string, id: string, job: Job, m: string)
    ensures DocsOf(jobs[id := Current(n, job)], m) == if m == n then DocsOf(jobs, m) + {id} else DocsOf(jobs, m) - {id}
  {
  }

  // ----- when a save leaves an accurate index -----

  /** Checkable before a save: apart from the saved id the index lists the novel's documents, each once, and, if
      the saved job is not active, names the novel's active job, if there is another. */
  ghost predicate DescribesOthers(index: IndexFile, jobs: Jobs, n: string, id: string, status: Status)
    requires index.Index?
  {
    && NoDup(Others(index.ids, id)) && Elems(Others(index.ids, id)) == DocsOf(jobs, n) - {id}
    && (!Active(status) ==> forall other | other != id :: index.active == Some(other) <==> IsActive(jobs, n, other))
  }

  /** The updated index describes the documents after the write exactly if the index before described the other
      documents. */
  lemma IndexWithDescribesIff(index: IndexFile, jobs: Jobs, n: string, id: string, job: Job)
    requires index.Index? && "" !in jobs && id != "" && OneActive(jobs[id := Current(n, job)])
    ensures Describes(IndexWith(index, n, id, job.status), jobs[id := Current(n, job)], n)
       <==> DescribesOthers(index, jobs, n, id, job.status)
  {
    var jobs', index' := jobs[id := Current(n, job)], IndexWith(index, n, id, job.status);
    DocsAfterSave(jobs, n, id, job, n);
    OthersLists(index.ids, id);
    PrependUniqueLists(index.ids, id);
    forall other | other != id ensures IsActive(jobs', n, other) <==> IsActive(jobs, n, other) {}
    assert IsActive(jobs', n, id) <==> Active(job.status);
    assert !IsActive(jobs, n, "");
    if Describes(index', jobs', n) && !Active(job.status) {
      forall other | other != id ensures index.active == Some(other) <==> IsActive(jobs, n, other) {}
    }
  }

  /** Writing the document changes nothing about the others. */
  lemma OthersUnchanged(index: IndexFile, jobs: Jobs, n: string, id: string, job: Job, status: Status)
    requires index.Index?
    ensures DescribesOthers(index, jobs[id := Current(n, job)], n, id, status)
      <==> DescribesOthers(index, jobs, n, id, status)
  {
    DocsAfterSave(jobs, n, id, job, n);
    forall other | other != id ensures IsActive(jobs[id := Current(n, job)], n, other) <==> IsActive(jobs, n, other) {}
  }

  /** An index that describes its novel describes the other documents. */
  lemma DescribedOthers(index: IndexFile, jobs: Jobs, n: string, id: string, status: Status)
    requires Describes(index, jobs, n) && "" !in jobs && OneActive(jobs)
    ensures DescribesOthers(index, jobs, n, id, status)
  {
    OthersLists(index.ids, id);
    assert "" !in DocsOf(jobs, n);
  }

  /** The index written by a successful save is accurate, whatever was on the disk before, exactly if there was no
      usable index or it described the other documents. */
  lemma SaveAccurateExactly(valid: Validator, d: Disk, n: string, id: string, job: Job, d': Disk)
    requires OneActive(d.jobs) && NamedFiles(d) && id != "" && SaveStep(valid, d, n, id, job, d', true)
    ensures Accurate(d', n)
       <==> (Usable(d.indexes, n) ==> DescribesOthers(d.indexes[n], d.jobs, n, id, job.status))
  {
    var index: IndexFile :| index.Index? && StartsFrom(index, d.indexes, d'.jobs, n)
      && d'.indexes == d.indexes[n := IndexWith(index, n, id, job.status)];
    SaveKeepsOneActive(valid, d, n, id, job, d', true);
    IndexWithDescribesIff(index, d.jobs, n, id, job);
    if !Usable(d.indexes, n) {
      DescribedOthers(index, d'.jobs, n, id, job.status);
      OthersUnchanged(index, d.jobs, n, id, job, job.status);
    }
  }

  /** A save of a novel whose index is accurate leaves it accurate. */
  lemma SavedIndexDescribes(valid: Validator, d: Disk, n: string, id: string, job: Job, d': Disk)
    requires OneActive(d.jobs) && NamedFiles(d) && id != ""
    requires Accurate(d, n) && SaveStep(valid, d, n, id, job, d', true)
    ensures Accurate(d', n)
  {
    SaveAccurateExactly(valid, d, n, id, job, d');
    if Usable(d.indexes, n) { DescribedOthers(d.indexes[n], d.jobs, n, id, job.status); }
  }

  /** A save touches the description of no other novel, unless it takes the document away from it. */
  lemma SaveKeepsOthers(valid: Validator, d: Disk, n: string, id: string, job: Job, d': Disk, ok: bool, m: string)
    requires Accurate(d, m) && m != n && SaveStep(valid, d, n, id, job, d', ok) && !OwnsCurrent(d.jobs, m, id)
    ensures Accurate(d', m)
  {
    if m in d.indexes && d'.jobs != d.jobs {
      DocsAfterSave(d.jobs, n, id, job, m);
      assert id !in DocsOf(d.jobs, m);
      forall other ensures IsActive(d'.jobs, m, other) <==> IsActive(d.jobs, m, other) {}
    }
  }

  /** After a successful save from accurate indexes, all indexes are accurate exactly if the document was not
      taken from another novel that has an index. */
  lemma SaveAccurateIffNotMoved(valid: Validator, d: Disk, n: string, id: string, job: Job, d': Disk)
    requires OneActive(d.jobs) && NamedFiles(d) && id != "" && AllAccurate(d)
      && SaveStep(valid, d, n, id, job, d', true)
    ensures AllAccurate(d') <==> NotMoved(d, n, id)
  {
    SavedIndexDescribes(valid, d, n, id, job, d');
    if NotMoved(d, n, id) {
      forall m ensures Accurate(d', m) {
        if m != n && m in d.indexes { SaveKeepsOthers(valid, d, n, id, job, d', true, m); }
      }
    } else {
      var m := d.jobs[id].novel;
      assert Accurate(d, m);
      DocsAfterSave(d.jobs, n, id, job, m);
      assert id in DocsOf(d.jobs, m) && id !in DocsOf(d'.jobs, m);
      assert d'.indexes[m] == d.indexes[m];
      assert !Accurate(d', m);
    }
  }

  /** One finished job of novel "n", both novels with an index: saved for novel "m", it stays in the index of "n". */
  lemma MovedDocumentExample(valid: Validator, job: Job) returns (d: Disk, d': Disk)
    requires valid("m", "a", job) && !Active(job.status)
    ensures OneActive(d.jobs) && NamedFiles(d) && AllAccurate(d) && "a" in d.jobs && d.jobs["a"] == Current("n", job)
    ensures SaveStep(valid, d, "m", "a", job, d', true)
    ensures Accurate(d', "m") && "n" in d'.indexes && d'.indexes["n"] == Index("n", None, ["a"], 1)
      && !Accurate(d', "n")
  {
    var own, other := Index("n", None, ["a"], 1), Index("m", None, [], 1);
    d := Disk(map["a" := Current("n", job)], map["n" := own, "m" := other], map[]);
    d' := Disk(d.jobs["a" := Current("m", job)], d.indexes["m" := IndexWith(other, "m", "a", job.status)], map[]);
    assert DocsOf(d.jobs, "n") == {"a"} == Elems(own.ids) && DocsOf(d.jobs, "m") == {} == Elems<string>([]);
    assert StartsFrom(other, d.indexes, d'.jobs, "m");
    assert SaveStep(valid, d, "m", "a", job, d', true);
    SavedIndexDescribes(valid, d, "m", "a", job, d');
    assert "a" !in DocsOf(d'.jobs, "n") && "a" in Elems(own.ids);
  }

  // ----- saves that fail or are cut off -----

  /** A save that fails, cut off or not, leaves the index of its own novel behind at most, and that only if its
      document was written. */
  lemma FailedSaveIsContained(valid: Validator, d: Disk, n: string, id: string, job: Job, d': Disk, m: string)
    requires SaveStep(valid, d, n, id, job, d', false) && Accurate(d, m)
    requires if m == n then d'.jobs == d.jobs else !OwnsCurrent(d.jobs, m, id)
    ensures Accurate(d', m)
    ensures d'.jobs == d.jobs || d'.jobs == d.jobs[id := Current(n, job)]
  {
    if m != n { SaveKeepsOthers(valid, d, n, id, job, d', false, m); }
  }

  /** Cut off between its two writes, a save leaves an accurate index behind exactly if there was none, or the
      document was the novel's already and is as active as it was. */
  lemma CutSaveAccurateIff(valid: Validator, d: Disk, n: string, id: string, job: Job, d': Disk)
    requires OneActive(d.jobs) && Accurate(d, n) && SaveStep(valid, d, n, id, job, d', false)
    requires d'.jobs == d.jobs[id := Current(n, job)] && d'.indexes == d.indexes
    ensures Accurate(d', n) <==>
      n !in d.indexes || (id in DocsOf(d.jobs, n) && (IsActive(d.jobs, n, id) <==> Active(job.status)))
  {
    DocsAfterSave(d.jobs, n, id, job, n);
    forall other | other != id ensures IsActive(d'.jobs, n, other) <==> IsActive(d.jobs, n, other) {}
    assert IsActive(d'.jobs, n, id) <==> Active(job.status);
    if n in d.indexes && Accurate(d', n) && d' != d {
      var active := d.indexes[n].active;
      assert Elems(d.indexes[n].ids) == DocsOf(d.jobs, n) == DocsOf(d.jobs, n) + {id};
      assert id in DocsOf(d.jobs, n) + {id};
      if active.None? { assert !IsActive(d.jobs, n, id) && !IsActive(d'.jobs, n, id); }
    }
  }

  /** Saving the same job again repairs what a save that failed left behind. */
  lemma RetryRepairs(valid: Validator, d: Disk, n: string, id: string, job: Job, d': Disk, job': Job, d'': Disk)
    requires OneActive(d.jobs) && NamedFiles(d) && id != "" && Accurate(d, n)
    requires SaveStep(valid, d, n, id, job, d', false) && SaveStep(valid, d', n, id, job', d'', true)
    ensures Accurate(d'', n)
  {
    SaveKeepsOneActive(valid, d, n, id, job, d', false);
    SaveAccurateExactly(valid, d', n, id, job', d'');
    if Usable(d'.indexes, n) {
      DescribedOthers(d.indexes[n], d.jobs, n, id, job'.status);
      OthersUnchanged(d.indexes[n], d.jobs, n, id, job, job'.status);
    }
  }
}
