/** The extraction job store as an object: every operation a sequence of atomic writes that may fail or be cut off
    by a crash (extraction/job_store.go). */
module JobStore {
  import opened Ordering
  import opened JobDisk
  import opened JobSteps

  datatype Error = NotFound | InvalidAction | Conflict | InvalidDocument | Unreadable | OtherVersion | WriteFailed

  datatype Result<T> = Ok(value: T) | Err(error: Error)

  class Store {
    var disk: Disk
    const valid: Validator

    constructor (valid: Validator, disk: Disk)
      ensures this.valid == valid && this.disk == disk
    {
      this.valid := valid;
      this.disk := disk;
    }

    // ----- atomic writes; not ok stands for a failed write and for a crash before it -----

    method WriteJob(id: string, file: JobFile) returns (ok: bool)
      modifies this
      ensures disk == if ok then old(disk).(jobs := old(disk).jobs[id := file]) else old(disk)
    {
      ok := *;
      if ok { disk := disk.(jobs := disk.jobs[id := file]); }
    }

    method RemoveJob(id: string) returns (ok: bool)
      modifies this
      ensures disk == if ok then old(disk).(jobs := old(disk).jobs - {id}) else old(disk)
    {
      ok := *;
      if ok { disk := disk.(jobs := disk.jobs - {id}); }
    }

    method WriteIndex(n: string, index: IndexFile) returns (ok: bool)
      modifies this
      ensures disk == if ok then old(disk).(indexes := old(disk).indexes[n := index]) else old(disk)
    {
      ok := *;
      if ok { disk := disk.(indexes := disk.indexes[n := index]); }
    }

    method RemoveIndex(n: string) returns (ok: bool)
      modifies this
      ensures disk == if ok then old(disk).(indexes := old(disk).indexes - {n}) else old(disk)
    {
      ok := *;
      if ok { disk := disk.(indexes := disk.indexes - {n}); }
    }

    method RemoveCheckpoint(n: string, boundary: string) returns (ok: bool)
      modifies this
      ensures disk == if ok then old(disk).(checkpoints := old(disk).checkpoints - {(n, boundary)}) else old(disk)
    {
      ok := *;
      if ok { disk := disk.(checkpoints := disk.checkpoints - {(n, boundary)}); }
    }

    // ----- reading -----

    /** All job files, in some order; an unreadable one fails the listing. */
    method LoadRecords() returns (r: Result<seq<string>>)
      ensures r.Ok? <==> NoMalformed(disk.jobs)
      ensures r.Ok? ==> NoDup(r.value) && Elems(r.value) == disk.jobs.Keys
    {
      var ids: seq<string> := [];
      var remaining := disk.jobs.Keys;
      while remaining != {}
        invariant remaining <= disk.jobs.Keys
        invariant NoDup(ids) && Elems(ids) == disk.jobs.Keys - remaining
        invariant forall id | id in disk.jobs && id !in remaining :: !disk.jobs[id].Malformed?
      {
        var id :| id in remaining;
        if disk.jobs[id].Malformed? { return Err(Unreadable); }
        assert forall i | 0 <= i < |ids| :: ids[i] in Elems(ids);
        assert Elems(ids + [id]) == Elems(ids) + {id};
        remaining := remaining - {id};
        ids := ids + [id];
      }
      return Ok(ids);
    }

    /** The files that stop an operation on a novel before it starts. */
    method PreflightJobDocuments(n: string) returns (r: Result<()>)
      ensures r.Ok? <==> Preflight(disk.jobs, n)
    {
      var remaining := disk.jobs.Keys;
      while remaining != {}
        invariant remaining <= disk.jobs.Keys
        invariant forall id | id in disk.jobs && id !in remaining ::
          !disk.jobs[id].Malformed?
            && (disk.jobs[id].Future? ==> disk.jobs[id].owner.Some? && disk.jobs[id].owner != Some(n))
      {
        var id :| id in remaining;
        var file := disk.jobs[id];
        if file.Malformed? { return Err(Unreadable); }
        if file.Future? && (file.owner.None? || file.owner.value == n) { return Err(OtherVersion); }
        remaining := remaining - {id};
      }
      return Ok(());
    }

    /** An active job of the novel, if it has one. */
    method FindActive(n: string, ids: seq<string>) returns (active: Option<string>)
      requires Elems(ids) == disk.jobs.Keys
      ensures active.Some? ==> IsActive(disk.jobs, n, active.value)
      ensures active.None? ==> forall id :: !IsActive(disk.jobs, n, id)
    {
      for i := 0 to |ids|
        invariant forall id | id in Elems(ids[..i]) :: !IsActive(disk.jobs, n, id)
      {
        assert ids[i] in Elems(ids);
        assert ids[..i + 1] == ids[..i] + [ids[i]];
        var file := disk.jobs[ids[i]];
        if file.Current? && file.novel == n && Active(file.job.status) { return Some(ids[i]); }
      }
      assert ids[..|ids|] == ids;
      return None;
    }

    /** The index rebuilt from the documents. */
    method RebuiltFromRecords(n: string, ids: seq<string>) returns (index: IndexFile)
      requires NoDup(ids) && Elems(ids) == disk.jobs.Keys
      ensures index.Index? && Rebuilt(index, disk.jobs, n)
    {
      var active := FindActive(n, ids);
      var owned: seq<string> := [];
      for i := 0 to |ids|
        invariant NoDup(owned) && forall id ::
          id in owned <==> id in Elems(ids[..i]) && id in disk.jobs && Owned(disk.jobs[id], n)
      {
        assert ids[i] in Elems(ids);
        assert ids[..i + 1] == ids[..i] + [ids[i]];
        assert ids[i] !in Elems(ids[..i]);
        if Owned(disk.jobs[ids[i]], n) { owned := owned + [ids[i]]; }
      }
      assert ids[..|ids|] == ids;
      assert Elems(owned) == DocsOf(disk.jobs, n);
      index := Index(n, active, owned, 0);
    }

    // ----- saving -----

    /** The stored index if it is usable; otherwise it is moved away and rebuilt. */
    method LoadOrRebuildIndex(n: string) returns (r: Result<IndexFile>)
      modifies this
      ensures disk.jobs == old(disk).jobs && disk.checkpoints == old(disk).checkpoints
      ensures KeptOrMoved(old(disk).indexes, n, disk.indexes)
      ensures r.Ok? ==> r.value.Index? && StartsFrom(r.value, old(disk).indexes, disk.jobs, n)
    {
      if n in disk.indexes {
        var stored := disk.indexes[n];
        match stored
        case Index(novel, _, _, _) =>
          if novel == n { return Ok(stored); }
          var ok := RemoveIndex(n);
          if !ok { return Err(WriteFailed); }
        case UnreadableIndex =>
          return Err(Unreadable);
        case OtherIndex =>
          var ok := RemoveIndex(n);
          if !ok { return Err(WriteFailed); }
      }
      var records := LoadRecords();
      if records.Err? { return Err(records.error); }
      var index := RebuiltFromRecords(n, records.value);
      return Ok(index);
    }

    method PrependUniqueJobId(ids: seq<string>, id: string) returns (result: seq<string>)
      ensures result == PrependUnique(ids, id)
    {
      result := [id];
      for i := 0 to |ids|
        invariant result == PrependUnique(ids[..i], id)
      {
        assert ids[..i + 1][..i] == ids[..i];
        if ids[i] != "" && ids[i] != id { result := result + [ids[i]]; }
      }
      assert ids[..|ids|] == ids;
    }

    method SaveIndex(n: string, id: string, status: Status) returns (r: Result<()>)
      modifies this
      ensures disk.jobs == old(disk).jobs && disk.checkpoints == old(disk).checkpoints
      ensures r.Err? ==> KeptOrMoved(old(disk).indexes, n, disk.indexes)
      ensures r.Ok? ==> SavedIndex(old(disk).indexes, disk.jobs, n, id, status, disk.indexes)
    {
      var loaded := LoadOrRebuildIndex(n);
      if loaded.Err? { return Err(loaded.error); }
      var index := loaded.value;
      ghost var before := disk.indexes;
      var active := index.active;
      if Active(status) {
        active := Some(id);
      } else if active == Some(id) {
        active := None;
      }
      var ids := PrependUniqueJobId(index.ids, id);
      var ok := WriteIndex(n, Index(n, active, ids, index.revision + 1));
      if !ok { return Err(WriteFailed); }
      assert before[n := IndexWith(index, n, id, status)] == old(disk).indexes[n := IndexWith(index, n, id, status)];
      return Ok(());
    }

    method SaveJob(n: string, id: string, job: Job) returns (r: Result<()>)
      modifies this
      ensures Step(valid, old(disk), Request.Save(n, id, job), disk, r.Ok?)
    {
      if !valid(n, id, job) { return Err(InvalidDocument); }
      if id in disk.jobs {
        if disk.jobs[id].Malformed? { return Err(Unreadable); }
        if disk.jobs[id].Future? { return Err(OtherVersion); }
      }
      if Active(job.status) {
        var records := LoadRecords();
        if records.Err? { return Err(records.error); }
        var conflict := OtherActive(n, id, records.value);
        if conflict { return Err(Conflict); }
      }
      assert SaveAllowed(valid, disk.jobs, n, id, job);
      var ok := WriteJob(id, Current(n, job));
      if !ok { return Err(WriteFailed); }
      r := SaveIndex(n, id, job.status);
    }

    method OtherActive(n: string, id: string, ids: seq<string>) returns (found: bool)
      requires Elems(ids) == disk.jobs.Keys
      ensures found <==> exists other :: other != id && IsActive(disk.jobs, n, other)
    {
      for i := 0 to |ids|
        invariant forall other | other in Elems(ids[..i]) && other != id :: !IsActive(disk.jobs, n, other)
      {
        assert ids[i] in Elems(ids);
        assert ids[..i + 1] == ids[..i] + [ids[i]];
        var file := disk.jobs[ids[i]];
        if file.Current? && file.novel == n && ids[i] != id && Active(file.job.status) {
          assert IsActive(disk.jobs, n, ids[i]);
          return true;
        }
      }
      assert ids[..|ids|] == ids;
      return false;
    }

    method SaveJobIfCurrentStatus(n: string, id: string, job: Job, expected: set<Status>) returns (r: Result<bool>)
      modifies this
      ensures Step(valid, old(disk), Request.SaveIfStatus(n, id, job, expected), disk, r.Ok?)
      ensures r == Ok(false) ==> disk == old(disk)
    {
      var records := LoadRecords();
      if records.Err? { return Err(records.error); }
      if !(id in disk.jobs && Owned(disk.jobs[id], n)) { return Err(NotFound); }
      if StatusOf(disk.jobs[id]) !in expected { return Ok(false); }
      var saved := SaveJob(n, id, job);
      if saved.Err? { return Err(saved.error); }
      return Ok(true);
    }

    method SaveJobIfNoActive(n: string, id: string, job: Job) returns (r: Result<bool>)
      modifies this
      ensures Step(valid, old(disk), Request.SaveIfNoActive(n, id, job), disk, r.Ok?)
      ensures r == Ok(false) ==> disk == old(disk) && exists other :: IsActive(disk.jobs, n, other)
    {
      var preflight := PreflightJobDocuments(n);
      if preflight.Err? { return Err(preflight.error); }
      var records := LoadRecords();
      assert records.Ok?;
      var active := FindActive(n, records.value);
      if active.Some? { return Ok(false); }
      var saved := SaveJob(n, id, job);
      if saved.Err? { return Err(saved.error); }
      return Ok(true);
    }

    // ----- control -----

    method ControlJob(n: string, id: string, action: Action, now: string) returns (r: Result<Job>)
      modifies this
      ensures Step(valid, old(disk), Request.Control(n, id, action, now), disk, r.Ok?)
      ensures r.Ok? ==> OwnsCurrent(old(disk).jobs, n, id) &&
                        Controlled(old(disk).jobs[id].job, action, now) == Some(r.value)
      ensures r.Ok? ==>
        AllowedFrom(action, old(disk).jobs[id].job.status) && Controls(action, now, old(disk).jobs[id].job, r.value)
    {
      var records := LoadRecords();
      if records.Err? { return Err(records.error); }
      if !(id in disk.jobs && Owned(disk.jobs[id], n)) { return Err(NotFound); }
      if disk.jobs[id].Future? { return Err(InvalidAction); }
      var job := disk.jobs[id].job;
      match action {
        case Pause =>
          if job.status == Queued {
            job := job.(status := Paused, stage := Some("paused"));
          } else if job.status == Running {
            job := job.(status := Pausing, stage := Some("pausing"));
          } else {
            return Err(InvalidAction);
          }
        case Cancel =>
          if !Active(job.status) && job.status != Paused && job.status != Interrupted { return Err(InvalidAction); }
          job := job.(status := Canceled, stage := Some("canceled"));
          job := job.(finishedAt := Some(now), workers := []);
        case Resume =>
          if job.status != Paused && job.status != Interrupted { return Err(InvalidAction); }
          job := job.(status := Queued, stage := Some("queued"));
          job := job.(finishedAt := None, error := None, workers := []);
        case OtherAction =>
          return Err(InvalidAction);
      }
      assert Controlled(disk.jobs[id].job, action, now) == Some(job);
      var saved := SaveJob(n, id, job);
      if saved.Err? { return Err(saved.error); }
      return Ok(job);
    }

    method FinalizePausingJob(n: string, id: string) returns (r: Result<()>)
      modifies this
      ensures Step(valid, old(disk), Request.Finalize(n, id), disk, r.Ok?)
    {
      var records := LoadRecords();
      if records.Err? { return Err(records.error); }
      if !(OwnsCurrent(disk.jobs, n, id) && disk.jobs[id].job.status == Pausing) { return Ok(()); }
      r := SaveJob(n, id, Finalized(disk.jobs[id].job));
    }

    method RebuildJobIndex(n: string) returns (r: Result<()>)
      modifies this
      ensures Step(valid, old(disk), Request.Rebuild(n), disk, r.Ok?)
    {
      if n == "" { return Ok(()); }
      var preflight := PreflightJobDocuments(n);
      if preflight.Err? { return Err(preflight.error); }
      if n in disk.indexes {
        var moved := RemoveIndex(n);
        if !moved { return Err(WriteFailed); }
      }
      ghost var before := disk.indexes;
      var loaded := LoadOrRebuildIndex(n);
      if loaded.Err? { return Err(loaded.error); }
      var index := loaded.value;
      var ok := WriteIndex(n, index.(revision := index.revision + 1));
      if !ok { return Err(WriteFailed); }
      assert before[n := index.(revision := 1)] == old(disk).indexes[n := index.(revision := 1)];
      return Ok(());
    }

    // ----- recovery -----

    /** The current documents that recovery may touch: those of no novel with a document of another schema
        version or with two active jobs. One of unknown owner stops everything. */
    method LoadRecordsForExecution() returns (r: Result<seq<string>>)
      ensures r.Ok? ==> NoMalformed(disk.jobs) && NoDup(r.value)
      ensures r.Ok? ==> forall id ::
        id in r.value <==> id in disk.jobs && disk.jobs[id].Current? && !Blocked(disk.jobs, disk.jobs[id].novel)
      ensures r.Err? ==> exists id :: id in disk.jobs && (disk.jobs[id].Malformed? || disk.jobs[id] == Future(None))
    {
      var records: seq<string> := [];
      var blocked: set<string> := {};
      var counts: map<string, nat> := map[];
      var remaining := disk.jobs.Keys;
      while remaining != {}
        invariant remaining <= disk.jobs.Keys
        invariant NoDup(records) && forall id ::
          id in records <==> id in disk.jobs && id !in remaining && disk.jobs[id].Current?
        invariant forall id | id in disk.jobs && id !in remaining ::
          !disk.jobs[id].Malformed? && disk.jobs[id] != Future(None)
        invariant forall n :: n in blocked <==> exists id ::
          id in disk.jobs && id !in remaining && disk.jobs[id] == Future(Some(n))
        invariant Counted(disk.jobs, disk.jobs.Keys - remaining, counts)
      {
        var id :| id in remaining;
        ghost var done := disk.jobs.Keys - remaining;
        remaining := remaining - {id};
        var file := disk.jobs[id];
        if file.Malformed? { return Err(Unreadable); }
        if file.Future? {
          if file.owner.None? { return Err(OtherVersion); }
          blocked := blocked + {file.owner.value};
        } else {
          records := records + [id];
        }
        CountedStep(disk.jobs, done, counts, id);
        if file.Current? && Active(file.job.status) { counts := CountUp(counts, file.novel); }
        assert disk.jobs.Keys - remaining == done + {id};
      }
      assert disk.jobs.Keys - remaining == disk.jobs.Keys;
      blocked := blocked + set n | n in counts && counts[n] > 1;
      forall n ensures n in blocked <==> Blocked(disk.jobs, n) { CountedBlocks(disk.jobs, counts, n); }
      var filtered: seq<string> := [];
      for i := 0 to |records|
        invariant NoDup(filtered)
        invariant forall id :: id in filtered <==> id in records[..i] && disk.jobs[id].novel !in blocked
      {
        assert records[..i + 1] == records[..i] + [records[i]];
        assert records[i] !in records[..i];
        if disk.jobs[records[i]].novel !in blocked { filtered := filtered + [records[i]]; }
      }
      assert records[..|records|] == records;
      return Ok(filtered);
    }

    /** Stops one running or pausing job: fail-stop if its checkpoint is incompatible, and only then is the
        checkpoint moved away. The result says whether the job can be resumed. */
    method StopJob(ghost before: Disk, ghost ds: seq<Disk>, ids: seq<string>, i: nat, n: string, job: Job)
      returns (r: Result<bool>, ghost ds': seq<Disk>)
      requires Recovering(valid, before, ds, disk, ids, i) && Next(before, disk, ids, i, n, job)
      modifies this
      ensures r.Ok? ==> Recovering(valid, before, ds', disk, ids, i + 1)
      ensures r.Err? ==> RecoverTrace(valid, ds', false) && ds'[0] == before && ds'[|ds'| - 1] == disk
    {
      ghost var start := disk;
      ds' := ds;
      var stopped, other := FailStopped(job), false;
      if (n, job.boundary) in disk.checkpoints {
        var checkpoint := disk.checkpoints[(n, job.boundary)];
        if checkpoint.UnreadableCheckpoint? { return Err(Unreadable), ds'; }
        other := !checkpoint.GoodCheckpoint?;
      }
      if !other { stopped := InterruptedJob(job); }
      var saved := SaveJob(n, ids[i], stopped);
      SaveGrowsTrace(valid, before, ds, start, ids, i, n, job, disk, saved.Ok?);
      ds' := ds + [disk];
      if saved.Err? { return Err(saved.error), ds'; }
      if other {
        ghost var last := disk;
        var moved := RemoveCheckpoint(n, job.boundary);
        if !moved { return Err(WriteFailed), ds'; }
        CheckpointGrowsTrace(valid, before, ds, start, ids, i, n, job, last, disk);
        ds' := ds + [last, disk];
      }
      StopAdvances(valid, before, ds, start, ids, i, n, job, disk);
      return Ok(!other), ds';
    }

    /** Stops every running or pausing job of the unblocked novels. */
    method RecoverRunningJobs() returns (r: Result<nat>)
      modifies this
      ensures Step(valid, old(disk), Request.Recover, disk, r.Ok?)
    {
      ghost var ds := [disk];
      assert RecoverTrace(valid, ds, false);
      var records := LoadRecordsForExecution();
      if records.Err? { return Err(records.error); }
      var ids, before := records.value, disk.jobs;
      var recovered := 0;
      for i := 0 to |ids|
        invariant Recovering(valid, old(disk), ds, disk, ids, i)
      {
        var file := before[ids[i]];
        if Stopping(file.job.status) {
          var stopped;
          stopped, ds := StopJob(old(disk), ds, ids, i, file.novel, file.job);
          if stopped.Err? { return Err(stopped.error); }
          if stopped.value { recovered := recovered + 1; }
        } else {
          SkipRecovers(valid, old(disk), ds, disk, ids, i);
        }
      }
      RecoveringEnds(valid, old(disk), ds, disk, ids);
      return Ok(recovered);
    }

    // ----- pruning -----

    method CheckpointsPrunable(n: string) returns (r: Result<()>)
      ensures r.Ok? <==> CheckpointPreflight(disk, n)
    {
      var remaining := disk.checkpoints.Keys;
      while remaining != {}
        invariant remaining <= disk.checkpoints.Keys
        invariant forall key | key in disk.checkpoints && key !in remaining ::
          !disk.checkpoints[key].UnreadableCheckpoint? && !disk.checkpoints[key].MalformedCheckpoint?
            && (key.0 == n ==> disk.checkpoints[key].GoodCheckpoint?)
      {
        var key :| key in remaining;
        var checkpoint := disk.checkpoints[key];
        if checkpoint.UnreadableCheckpoint? || checkpoint.MalformedCheckpoint? { return Err(Unreadable); }
        if key.0 == n && checkpoint.OtherCheckpoint? { return Err(OtherVersion); }
        remaining := remaining - {key};
      }
      return Ok(());
    }

    /** Removes the novel's index, then its current job documents, then its checkpoints. */
    method PruneNovelState(n: string, onlyIdle: bool, othersOk: bool) returns (r: Result<bool>)
      modifies this
      ensures Step(valid, old(disk), Request.Prune(n, onlyIdle, othersOk), disk, r.Ok?)
    {
      if n == "" { return Ok(false); }
      if !othersOk { return Err(OtherVersion); }
      var preflight := PreflightJobDocuments(n);
      if preflight.Err? { return Err(preflight.error); }
      preflight := CheckpointsPrunable(n);
      if preflight.Err? { return Err(preflight.error); }
      if onlyIdle {
        var records := LoadRecords();
        assert records.Ok?;
        var active := FindActive(n, records.value);
        if active.Some? { return Ok(false); }
      }
      ghost var ds := [disk];
      assert PruneTrace(ds, n);
      var ok := RemoveIndex(n);
      if !ok { return Err(WriteFailed); }
      assert PruneMove(ds[|ds| - 1], n, disk);
      ds := ds + [disk];
      var remaining := disk.jobs.Keys;
      while remaining != {}
        invariant PruneTrace(ds, n) && ds[0] == old(disk) && ds[|ds| - 1] == disk && n !in disk.indexes
        invariant remaining <= disk.jobs.Keys && forall id | OwnsCurrent(disk.jobs, n, id) :: id in remaining
      {
        var id :| id in remaining;
        remaining := remaining - {id};
        if disk.jobs[id].Current? && disk.jobs[id].novel == n {
          assert OwnsCurrent(disk.jobs, n, id);
          ok := RemoveJob(id);
          if !ok { return Err(WriteFailed); }
          assert PruneMove(ds[|ds| - 1], n, disk);
          ds := ds + [disk];
        }
      }
      var keys := disk.checkpoints.Keys;
      while keys != {}
        invariant PruneTrace(ds, n) && ds[0] == old(disk) && ds[|ds| - 1] == disk && n !in disk.indexes
          && NoDocuments(disk.jobs, n)
        invariant keys <= disk.checkpoints.Keys && forall boundary | (n, boundary) in disk.checkpoints ::
          (n, boundary) in keys
      {
        var key :| key in keys;
        keys := keys - {key};
        if key.0 == n {
          assert (n, key.1) in disk.checkpoints;
          ok := RemoveCheckpoint(n, key.1);
          if !ok { return Err(WriteFailed); }
          assert PruneMove(ds[|ds| - 1], n, disk);
          ds := ds + [disk];
        }
      }
      return Ok(true);
    }
  }

  // ----- counting active jobs per novel -----

  ghost predicate ActiveIn(jobs: Jobs, done: set<string>, n: string, id: string) { id in done && IsActive(jobs, n, id) }

  ghost predicate TwoActive(jobs: Jobs, done: set<string>, n: string) {
    exists a, b :: a != b && ActiveIn(jobs, done, n, a) && ActiveIn(jobs, done, n, b)
  }

  /** How many of these documents are the novel's active jobs, as far as none, one and more than one go. */
  ghost predicate CountedFor(jobs: Jobs, done: set<string>, counts: map<string, nat>, n: string) {
    if n !in counts then forall id :: !ActiveIn(jobs, done, n, id)
    else counts[n] > 0 && (exists id :: ActiveIn(jobs, done, n, id)) && (counts[n] > 1 <==> TwoActive(jobs, done, n))
  }

  ghost predicate Counted(jobs: Jobs, done: set<string>, counts: map<string, nat>) {
    forall n :: CountedFor(jobs, done, counts, n)
  }

  function CountUp(counts: map<string, nat>, n: string): map<string, nat> {
    counts[n := (if n in counts then counts[n] else 0) + 1]
  }

  lemma CountedStep(jobs: Jobs, done: set<string>, counts: map<string, nat>, id: string)
    requires Counted(jobs, done, counts) && id in jobs && id !in done
    ensures Counted(jobs, done + {id}, if jobs[id].Current? && Active(jobs[id].job.status)
      then CountUp(counts, jobs[id].novel) else counts)
  {
    var counted := jobs[id].Current? && Active(jobs[id].job.status);
    var counts' := if counted then CountUp(counts, jobs[id].novel) else counts;
    forall n ensures CountedFor(jobs, done + {id}, counts', n) {
      assert CountedFor(jobs, done, counts, n);
      if counted && jobs[id].novel == n {
        assert ActiveIn(jobs, done + {id}, n, id);
        if n in counts {
          var other :| ActiveIn(jobs, done, n, other);
          assert other != id && ActiveIn(jobs, done + {id}, n, other);
        } else {
          forall other | ActiveIn(jobs, done + {id}, n, other) ensures other == id {
            assert !ActiveIn(jobs, done, n, other);
          }
        }
      } else {
        forall other ensures ActiveIn(jobs, done + {id}, n, other) <==> ActiveIn(jobs, done, n, other) {}
      }
    }
  }

  lemma CountedBlocks(jobs: Jobs, counts: map<string, nat>, n: string)
    requires Counted(jobs, jobs.Keys, counts)
    ensures n in counts && counts[n] > 1 <==> exists a, b :: a != b && IsActive(jobs, n, a) && IsActive(jobs, n, b)
  {
    assert CountedFor(jobs, jobs.Keys, counts, n);
    forall id ensures ActiveIn(jobs, jobs.Keys, n, id) <==> IsActive(jobs, n, id) {}
  }

  // ----- the state of a recovery -----

  /** A running or pausing job's checkpoint is as it was. */
  ghost predicate SameCheckpoint(before: Disk, d: Disk, file: JobFile) {
    file.Current? && Stopping(file.job.status) ==>
      HasOtherCheckpoint(d, file.novel, file.job.boundary) == HasOtherCheckpoint(before, file.novel, file.job.boundary)
  }

  /** A recovery that has dealt with the first `i` records. */
  ghost predicate Recovering(valid: Validator, before: Disk, ds: seq<Disk>, d: Disk, ids: seq<string>, i: nat) {
    && (forall id ::
          id in ids <==> id in before.jobs && before.jobs[id].Current? && !Blocked(before.jobs, before.jobs[id].novel))
    && RecoverTrace(valid, ds, true) && ds[0] == before && ds[|ds| - 1] == d
    && RecoveredUpTo(before, d, ids, i)
  }

  ghost predicate RecoveredUpTo(before: Disk, d: Disk, ids: seq<string>, i: nat) {
    && i <= |ids| && NoDup(ids)
    && d.jobs.Keys == before.jobs.Keys
    && (forall id | id in d.jobs && id !in ids[..i] ::
      d.jobs[id] == before.jobs[id] && (id in ids ==> SameCheckpoint(before, d, before.jobs[id])))
    && (forall id | id in d.jobs && id in ids[..i] :: Recovered(before, id, d))
  }

  lemma RecoveringEnds(valid: Validator, before: Disk, ds: seq<Disk>, d: Disk, ids: seq<string>)
    requires Recovering(valid, before, ds, d, ids, |ids|)
    ensures RecoverStep(valid, before, d, true)
  {
    assert ids[..|ids|] == ids;
  }

  lemma SkipRecovers(valid: Validator, before: Disk, ds: seq<Disk>, d: Disk, ids: seq<string>, i: nat)
    requires Recovering(valid, before, ds, d, ids, i) && i < |ids| && !Stopping(before.jobs[ids[i]].job.status)
    ensures Recovering(valid, before, ds, d, ids, i + 1)
  {
    assert ids[..i + 1] == ids[..i] + [ids[i]] && ids[i] !in ids[..i];
  }

  /** The record to be dealt with next, a running or pausing job. */
  ghost predicate Next(before: Disk, d: Disk, ids: seq<string>, i: nat, n: string, job: Job) {
    i < |ids| && ids[i] in before.jobs && before.jobs[ids[i]] == Current(n, job) && Stopping(job.status)
  }

  lemma SaveGrowsTrace(valid: Validator, before: Disk, ds: seq<Disk>, d: Disk, ids: seq<string>, i: nat, n: string,
                       job: Job, d': Disk, ok: bool)
    requires Recovering(valid, before, ds, d, ids, i) && Next(before, d, ids, i, n, job)
    requires SaveStep(valid, d, n, ids[i], StoppedJob(d, n, job), d', ok)
    ensures RecoverTrace(valid, ds + [d'], ok)
  {
    assert ids[i] !in ids[..i];
    assert StopMove(valid, d, ids[i], d', ok);
    TraceGrows(valid, ds, d', ok);
  }

  /** An unblocked novel has no second running or pausing job that could use the same checkpoint. */
  lemma CheckpointGrowsTrace(valid: Validator, before: Disk, ds: seq<Disk>, d: Disk, ids: seq<string>, i: nat,
                             n: string, job: Job, d': Disk, d'': Disk)
    requires Recovering(valid, before, ds, d, ids, i) && Next(before, d, ids, i, n, job)
      && HasOtherCheckpoint(d, n, job.boundary)
    requires RecoverTrace(valid, ds + [d'], true)
    requires d'.jobs == d.jobs[ids[i] := Current(n, FailStopped(job))] && d'.checkpoints == d.checkpoints
    requires d'' == d'.(checkpoints := d.checkpoints - {(n, job.boundary)})
    ensures RecoverTrace(valid, ds + [d', d''], true)
  {
    assert IsActive(before.jobs, n, ids[i]) && !Blocked(before.jobs, n);
    forall id | OwnsCurrent(d'.jobs, n, id) && d'.jobs[id].job.boundary == job.boundary
      ensures !Stopping(d'.jobs[id].job.status)
    {
      assert id == ids[i] || !IsActive(before.jobs, n, id);
      if id != ids[i] && id in ids[..i] { assert Recovered(before, id, d); }
    }
    assert CheckpointMove(d', n, job.boundary, d'');
    TraceGrows(valid, ds + [d'], d'', true);
    assert ds + [d'] + [d''] == ds + [d', d''];
  }

  lemma StopAdvances(valid: Validator, before: Disk, ds: seq<Disk>, d: Disk, ids: seq<string>, i: nat, n: string,
                     job: Job, d': Disk)
    requires Recovering(valid, before, ds, d, ids, i) && Next(before, d, ids, i, n, job)
    requires d'.jobs == d.jobs[ids[i] := Current(n, StoppedJob(d, n, job))]
    requires d'.checkpoints == if HasOtherCheckpoint(d, n, job.boundary) then d.checkpoints - {(n, job.boundary)}
      else d.checkpoints
    ensures RecoveredUpTo(before, d', ids, i + 1)
  {
    assert ids[..i + 1] == ids[..i] + [ids[i]] && ids[i] !in ids[..i];
    assert IsActive(before.jobs, n, ids[i]) && !Blocked(before.jobs, n);
    forall id | id in d'.jobs && id in ids[..i + 1] ensures Recovered(before, id, d') {
      if id != ids[i] { assert Recovered(before, id, d); }
    }
    forall id | id in d'.jobs && id !in ids[..i + 1] && id in ids ensures SameCheckpoint(before, d', before.jobs[id]) {
      assert SameCheckpoint(before, d, before.jobs[id]);
      assert before.jobs[id].novel == n ==> !IsActive(before.jobs, n, id);
    }
  }

  lemma TraceGrows(valid: Validator, ds: seq<Disk>, d': Disk, ok: bool)
    requires RecoverTrace(valid, ds, true) && RecoverMove(valid, ds[|ds| - 1], d', ok)
    ensures RecoverTrace(valid, ds + [d'], ok)
  {
    var ds' := ds + [d'];
    forall i | 0 <= i < |ds'| - 1
      ensures RecoverMove(valid, ds'[i], ds'[i + 1], true)
        || (!ok && i == |ds'| - 2 && RecoverMove(valid, ds'[i], ds'[i + 1], false))
    {
      if i < |ds| - 1 { assert RecoverMove(valid, ds[i], ds[i + 1], true); }
    }
  }
}
