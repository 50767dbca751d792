/** The operations of the job store as steps between disks, and what holds over every run of them
    (extraction/job_store.go). A step covers every way its operation can end, including a failed write or a crash. */
module JobSteps {
  import opened Ordering
  import opened JobDisk

  datatype Action = Pause | Cancel | Resume | OtherAction

  /** The job after a control action, if the action is allowed. */
  function Controlled(job: Job, action: Action, now: string): Option<Job> {
    match action
    case Pause =>
      if job.status == Queued then Some(job.(status := Paused, stage := Some("paused")))
      else if job.status == Running then Some(job.(status := Pausing, stage := Some("pausing")))
      else None
    case Cancel =>
      if Active(job.status) || job.status == Paused || job.status == Interrupted
      then Some(job.(status := Canceled, stage := Some("canceled"), finishedAt := Some(now), workers := []))
      else None
    case Resume =>
      if job.status == Paused || job.status == Interrupted
      then Some(job.(status := Queued, stage := Some("queued"), finishedAt := None, error := None, workers := []))
      else None
    case OtherAction => None
  }

  function Finalized(job: Job): Job { job.(status := Paused, stage := Some("paused"), workers := []) }

  const INTERRUPTED_MESSAGE := "interrupted by a restart; can be resumed explicitly"
  const CHECKPOINT_MESSAGE := "checkpoint incompatible with the current build; not resumed automatically"

  function InterruptedJob(job: Job): Job {
    job.(status := Interrupted, finishedAt := None, error := Some(INTERRUPTED_MESSAGE), stage := Some("interrupted"),
      counters := None, workers := [])
  }

  function FailStopped(job: Job): Job { job.(status := Incompatible, error := Some(CHECKPOINT_MESSAGE), workers := []) }

  /** Running or pausing: what a restart has to deal with. */
  predicate Stopping(s: Status) { s == Running || s == Pausing }

  /** The status a document is loaded with. */
  function StatusOf(file: JobFile): Status {
    if file.Current? then file.job.status else Incompatible
  }

  /** No document of another schema version is the novel's or of unknown owner, and none is unreadable. */
  ghost predicate Preflight(jobs: Jobs, n: string) {
    forall id | id in jobs ::
      !jobs[id].Malformed? && (jobs[id].Future? ==> jobs[id].owner.Some? && jobs[id].owner != Some(n))
  }

  // ----- one step of each operation -----

  datatype Request =
    | Save(n: string, id: string, job: Job)
    | SaveIfStatus(n: string, id: string, job: Job, expected: set<Status>)
    | SaveIfNoActive(n: string, id: string, job: Job)
    | Control(n: string, id: string, action: Action, now: string)
    | Finalize(n: string, id: string)
    | Recover
    | Prune(n: string, onlyIdle: bool, othersOk: bool)
    | Rebuild(n: string)

  ghost predicate SaveIfStatusStep(valid: Validator, d: Disk, n: string, id: string, job: Job, expected: set<Status>,
                                   d': Disk, ok: bool)
  {
    if !NoMalformed(d.jobs) || !(id in d.jobs && Owned(d.jobs[id], n)) then d' == d && !ok
    else if StatusOf(d.jobs[id]) !in expected then d' == d && ok
    else SaveStep(valid, d, n, id, job, d', ok)
  }

  ghost predicate SaveIfNoActiveStep(valid: Validator, d: Disk, n: string, id: string, job: Job, d': Disk, ok: bool) {
    if !Preflight(d.jobs, n) then d' == d && !ok
    else if exists other :: IsActive(d.jobs, n, other) then d' == d && ok
    else SaveStep(valid, d, n, id, job, d', ok)
  }

  ghost predicate ControlStep(valid: Validator, d: Disk, n: string, id: string, action: Action, now: string, d': Disk,
                              ok: bool)
  {
    if NoMalformed(d.jobs) && OwnsCurrent(d.jobs, n, id) && Controlled(d.jobs[id].job, action, now).Some?
    then SaveStep(valid, d, n, id, Controlled(d.jobs[id].job, action, now).value, d', ok)
    else d' == d && !ok
  }

  ghost predicate FinalizeStep(valid: Validator, d: Disk, n: string, id: string, d': Disk, ok: bool) {
    if !NoMalformed(d.jobs) then d' == d && !ok
    else if OwnsCurrent(d.jobs, n, id) && d.jobs[id].job.status == Pausing
      then SaveStep(valid, d, n, id, Finalized(d.jobs[id].job), d', ok)
    else d' == d && ok
  }

  ghost predicate RebuildStep(d: Disk, n: string, d': Disk, ok: bool) {
    if n == "" then d' == d && ok
    else if !Preflight(d.jobs, n) then d' == d && !ok
    else
      && d'.jobs == d.jobs && d'.checkpoints == d.checkpoints
      && if ok then exists index: IndexFile ::
        index.Index? && Rebuilt(index, d.jobs, n) && d'.indexes == d.indexes[n := index.(revision := 1)]
         else d'.indexes == d.indexes || d'.indexes == d.indexes - {n}
  }

  // ----- recovery -----

  /** Novels left alone by recovery: those with a document of another schema version or two active jobs. */
  ghost predicate Blocked(jobs: Jobs, n: string) {
    || (exists id :: id in jobs && jobs[id] == Future(Some(n)))
    || (exists a, b :: a != b && IsActive(jobs, n, a) && IsActive(jobs, n, b))
  }

  ghost predicate HasOtherCheckpoint(d: Disk, n: string, boundary: string) {
    (n, boundary) in d.checkpoints
      && (d.checkpoints[(n, boundary)].OtherCheckpoint? || d.checkpoints[(n, boundary)].MalformedCheckpoint?)
  }

  /** A running or pausing job after recovery: fail-stopped exactly if its checkpoint is incompatible. */
  ghost function StoppedJob(d: Disk, n: string, job: Job): Job {
    if HasOtherCheckpoint(d, n, job.boundary) then FailStopped(job) else InterruptedJob(job)
  }

  /** Saving one stopped job. */
  ghost predicate StopMove(valid: Validator, d: Disk, id: string, d': Disk, ok: bool) {
    && id in d.jobs && d.jobs[id].Current? && Stopping(d.jobs[id].job.status)
    && var (n, job) := (d.jobs[id].novel, d.jobs[id].job);
       SaveStep(valid, d, n, id, StoppedJob(d, n, job), d', ok)
  }

  /** Moving an incompatible checkpoint away once no running or pausing job depends on it. */
  ghost predicate CheckpointMove(d: Disk, n: string, boundary: string, d': Disk) {
    && HasOtherCheckpoint(d, n, boundary)
    && d' == d.(checkpoints := d.checkpoints - {(n, boundary)})
    && forall id | OwnsCurrent(d.jobs, n, id) && d.jobs[id].job.boundary == boundary :: !Stopping(d.jobs[id].job.status)
  }

  ghost predicate RecoverMove(valid: Validator, d: Disk, d': Disk, ok: bool) {
    (exists id :: StopMove(valid, d, id, d', ok)) || (exists n, boundary :: CheckpointMove(d, n, boundary, d'))
  }

  /** The disks between the saves and moves of a recovery, only the last of which may fail: its crash points. */
  ghost predicate RecoverTrace(valid: Validator, ds: seq<Disk>, ok: bool) {
    ds != [] && forall i | 0 <= i < |ds| - 1 ::
      RecoverMove(valid, ds[i], ds[i + 1], true)
        || (!ok && i == |ds| - 2 && RecoverMove(valid, ds[i], ds[i + 1], false))
  }

  /** What recovery leaves of a job: a running or pausing one of an unblocked novel is interrupted, or fail-stopped
      and its incompatible checkpoint gone; any other is untouched. */
  ghost predicate Recovered(d: Disk, id: string, d': Disk)
    requires id in d.jobs && id in d'.jobs
  {
    if d.jobs[id].Current? && Stopping(d.jobs[id].job.status) && !Blocked(d.jobs, d.jobs[id].novel) then
      var (n, job) := (d.jobs[id].novel, d.jobs[id].job);
      d'.jobs[id] == Current(n, StoppedJob(d, n, job))
        && (HasOtherCheckpoint(d, n, job.boundary) ==> (n, job.boundary) !in d'.checkpoints)
    else d'.jobs[id] == d.jobs[id]
  }

  ghost predicate AllRecovered(d: Disk, d': Disk) {
    d'.jobs.Keys == d.jobs.Keys && forall id | id in d.jobs :: Recovered(d, id, d')
  }

  ghost predicate RecoverStep(valid: Validator, d: Disk, d': Disk, ok: bool) {
    && (exists ds :: RecoverTrace(valid, ds, ok) && ds[0] == d && ds[|ds| - 1] == d')
    && (ok ==> AllRecovered(d, d'))
  }

  // ----- pruning -----

  ghost predicate NoDocuments(jobs: Jobs, n: string) { forall id :: !OwnsCurrent(jobs, n, id) }

  /** Every checkpoint can be read, and the novel's own are current. */
  ghost predicate CheckpointPreflight(d: Disk, n: string) {
    forall key | key in d.checkpoints ::
      !d.checkpoints[key].UnreadableCheckpoint? && !d.checkpoints[key].MalformedCheckpoint?
        && (key.0 == n ==> d.checkpoints[key].GoodCheckpoint?)
  }

  /** One removal: the index first, then the documents, then the checkpoints of the novel. */
  ghost predicate PruneMove(d: Disk, n: string, d': Disk) {
    || d' == d.(indexes := d.indexes - {n})
    || (n !in d.indexes && exists id :: OwnsCurrent(d.jobs, n, id) && d' == d.(jobs := d.jobs - {id}))
    || (n !in d.indexes && NoDocuments(d.jobs, n) &&
        exists boundary :: (n, boundary) in d.checkpoints && d' == d.(checkpoints := d.checkpoints - {(n, boundary)}))
  }

  ghost predicate PruneTrace(ds: seq<Disk>, n: string) {
    ds != [] && forall i | 0 <= i < |ds| - 1 :: PruneMove(ds[i], n, ds[i + 1])
  }

  ghost predicate Pruned(d: Disk, n: string) {
    && n !in d.indexes
    && NoDocuments(d.jobs, n)
    && (forall boundary :: (n, boundary) !in d.checkpoints)
  }

  /** Pruning a novel; `othersOk` if its other state (profiles, events, terms) may be pruned. */
  ghost predicate PruneStep(d: Disk, n: string, onlyIdle: bool, othersOk: bool, d': Disk, ok: bool) {
    if n == "" then d' == d && ok
    else if !othersOk || !Preflight(d.jobs, n) || !CheckpointPreflight(d, n) then d' == d && !ok
    else if onlyIdle && exists id :: IsActive(d.jobs, n, id) then d' == d && ok
    else
      && (exists ds :: PruneTrace(ds, n) && ds[0] == d && ds[|ds| - 1] == d')
      && (ok ==> Pruned(d', n))
  }

  ghost predicate Step(valid: Validator, d: Disk, req: Request, d': Disk, ok: bool) {
    match req
    case Save(n, id, job) => SaveStep(valid, d, n, id, job, d', ok)
    case SaveIfStatus(n, id, job, expected) => SaveIfStatusStep(valid, d, n, id, job, expected, d', ok)
    case SaveIfNoActive(n, id, job) => SaveIfNoActiveStep(valid, d, n, id, job, d', ok)
    case Control(n, id, action, now) => ControlStep(valid, d, n, id, action, now, d', ok)
    case Finalize(n, id) => FinalizeStep(valid, d, n, id, d', ok)
    case Recover => RecoverStep(valid, d, d', ok)
    case Prune(n, onlyIdle, othersOk) => PruneStep(d, n, onlyIdle, othersOk, d', ok)
    case Rebuild(n) => RebuildStep(d, n, d', ok)
  }

  // ----- what every step keeps -----

  /** Validation never accepts an empty job id. */
  ghost predicate NeedsId(valid: Validator) { forall n, id, job :: valid(n, id, job) ==> id != "" }

  /** The standing invariant: one active job per novel, and no unnamed file. */
  ghost predicate Good(d: Disk) { OneActive(d.jobs) && NamedFiles(d) }

  lemma SaveKeepsGood(valid: Validator, d: Disk, n: string, id: string, job: Job, d': Disk, ok: bool)
    requires NeedsId(valid) && Good(d) && SaveStep(valid, d, n, id, job, d', ok)
    ensures Good(d')
  {
    SaveKeepsOneActive(valid, d, n, id, job, d', ok);
  }

  lemma FewerJobsKeepGood(d: Disk, d': Disk)
    requires Good(d) && d'.jobs.Keys <= d.jobs.Keys && forall id | id in d'.jobs :: d'.jobs[id] == d.jobs[id]
    ensures Good(d')
  {
    forall n, a, b | IsActive(d'.jobs, n, a) && IsActive(d'.jobs, n, b) ensures a == b {
      assert IsActive(d.jobs, n, a) && IsActive(d.jobs, n, b);
    }
  }

  lemma RecoverMoveKeepsGood(valid: Validator, d: Disk, d': Disk, ok: bool)
    requires NeedsId(valid) && Good(d) && RecoverMove(valid, d, d', ok)
    ensures Good(d')
  {
    if id :| StopMove(valid, d, id, d', ok) {
      var n, job := d.jobs[id].novel, d.jobs[id].job;
      SaveKeepsGood(valid, d, n, id, StoppedJob(d, n, job), d', ok);
    }
  }

  lemma {:induction false} RecoverTraceKeepsGood(valid: Validator, ds: seq<Disk>, ok: bool, i: nat)
    requires NeedsId(valid) && RecoverTrace(valid, ds, ok) && Good(ds[0]) && i < |ds|
    ensures Good(ds[i])
  {
    if i > 0 {
      RecoverTraceKeepsGood(valid, ds, ok, i - 1);
      var done := RecoverMove(valid, ds[i - 1], ds[i - 1 + 1], true);
      RecoverMoveKeepsGood(valid, ds[i - 1], ds[i], done);
    }
  }

  lemma {:induction false} PruneTraceShrinks(ds: seq<Disk>, n: string, i: nat)
    requires PruneTrace(ds, n) && i < |ds|
    ensures ds[i].jobs.Keys <= ds[0].jobs.Keys && forall id | id in ds[i].jobs :: ds[i].jobs[id] == ds[0].jobs[id]
  {
    if i > 0 {
      PruneTraceShrinks(ds, n, i - 1);
      assert PruneMove(ds[i - 1], n, ds[i - 1 + 1]);
    }
  }

  lemma StepKeepsGood(valid: Validator, d: Disk, req: Request, d': Disk, ok: bool)
    requires NeedsId(valid) && Good(d) && Step(valid, d, req, d', ok)
    ensures Good(d')
  {
    if d' != d {
      match req
      case Save(n, id, job) => SaveKeepsGood(valid, d, n, id, job, d', ok);
      case SaveIfStatus(n, id, job, expected) => SaveKeepsGood(valid, d, n, id, job, d', ok);
      case SaveIfNoActive(n, id, job) => SaveKeepsGood(valid, d, n, id, job, d', ok);
      case Control(n, id, action, now) =>
        SaveKeepsGood(valid, d, n, id, Controlled(d.jobs[id].job, action, now).value, d', ok);
      case Finalize(n, id) => SaveKeepsGood(valid, d, n, id, Finalized(d.jobs[id].job), d', ok);
      case Recover =>
        var ds :| RecoverTrace(valid, ds, ok) && ds[0] == d && ds[|ds| - 1] == d';
        RecoverTraceKeepsGood(valid, ds, ok, |ds| - 1);
      case Prune(n, onlyIdle, othersOk) =>
        var ds :| PruneTrace(ds, n) && ds[0] == d && ds[|ds| - 1] == d';
        PruneTraceShrinks(ds, n, |ds| - 1);
        FewerJobsKeepGood(d, d');
      case Rebuild(n) =>
    }
  }

  // ----- runs -----

  datatype Event = Event(req: Request, ok: bool)

  /** Operations performed one after the other, each ending in any way it can, a crash included. */
  ghost predicate IsRun(valid: Validator, ds: seq<Disk>, events: seq<Event>) {
    |ds| == |events| + 1 && forall i | 0 <= i < |events| :: Step(valid, ds[i], events[i].req, ds[i + 1], events[i].ok)
  }

  /** In every state of every run that starts with at most one active job per novel, an empty disk for instance,
      each novel has at most one queued, running or pausing job. */
  lemma {:induction false} OneActiveAlways(valid: Validator, ds: seq<Disk>, events: seq<Event>, i: nat)
    requires NeedsId(valid) && IsRun(valid, ds, events) && Good(ds[0]) && i < |ds|
    ensures Good(ds[i])
  {
    if i > 0 {
      OneActiveAlways(valid, ds, events, i - 1);
      assert Step(valid, ds[i - 1], events[i - 1].req, ds[i - 1 + 1], events[i - 1].ok);
      StepKeepsGood(valid, ds[i - 1], events[i - 1].req, ds[i], events[i - 1].ok);
    }
  }

  /** The requests that may not touch a canceled job: control, finalize, recovery, rebuilding, and saves that do
      not expect `canceled`. */
  predicate RespectsCancel(req: Request) {
    req.Control? || req.Finalize? || req.Recover? || req.Rebuild? || (req.SaveIfStatus? && Canceled !in req.expected)
  }

  ghost predicate IsCanceled(d: Disk, id: string, file: JobFile) {
    id in d.jobs && d.jobs[id] == file && file.Current? && file.job.status == Canceled
  }

  lemma {:induction false} RecoverTraceKeepsCanceled(valid: Validator, ds: seq<Disk>, ok: bool, i: nat, id: string,
                                                     file: JobFile)
    requires RecoverTrace(valid, ds, ok) && i < |ds| && IsCanceled(ds[0], id, file)
    ensures IsCanceled(ds[i], id, file)
  {
    if i > 0 {
      RecoverTraceKeepsCanceled(valid, ds, ok, i - 1, id, file);
      var done := RecoverMove(valid, ds[i - 1], ds[i - 1 + 1], true);
      assert RecoverMove(valid, ds[i - 1], ds[i], done);
    }
  }

  /** A canceled job document stays exactly as it is over every run of such requests. */
  lemma {:induction false} CancelIsSticky(valid: Validator, ds: seq<Disk>, events: seq<Event>, i: nat, id: string,
                                          file: JobFile)
    requires IsRun(valid, ds, events) && i < |ds| && IsCanceled(ds[0], id, file)
    requires forall e | e in events :: RespectsCancel(e.req)
    ensures IsCanceled(ds[i], id, file)
  {
    if i > 0 {
      CancelIsSticky(valid, ds, events, i - 1, id, file);
      var d, d', e := ds[i - 1], ds[i - 1 + 1], events[i - 1];
      assert Step(valid, d, e.req, d', e.ok) && e in events;
      if e.req.Recover? {
        var trace :| RecoverTrace(valid, trace, e.ok) && trace[0] == d && trace[|trace| - 1] == d';
        RecoverTraceKeepsCanceled(valid, trace, e.ok, |trace| - 1, id, file);
      }
    }
  }

  /** The checkpoint of a running or pausing job, if incompatible, is still where it was. */
  ghost predicate CheckpointKept(before: Disk, d: Disk) {
    forall id | id in d.jobs && d.jobs[id].Current? && Stopping(d.jobs[id].job.status)
      && HasOtherCheckpoint(before, d.jobs[id].novel, d.jobs[id].job.boundary) ::
        HasOtherCheckpoint(d, d.jobs[id].novel, d.jobs[id].job.boundary)
  }

  lemma MoveKeepsCheckpoints(valid: Validator, before: Disk, d: Disk, d': Disk, ok: bool)
    requires CheckpointKept(before, d) && RecoverMove(valid, d, d', ok)
    ensures CheckpointKept(before, d')
  {
    if n, boundary :| CheckpointMove(d, n, boundary, d') {
      forall id | id in d'.jobs && d'.jobs[id].Current? && Stopping(d'.jobs[id].job.status)
        && HasOtherCheckpoint(before, d'.jobs[id].novel, d'.jobs[id].job.boundary)
        ensures HasOtherCheckpoint(d', d'.jobs[id].novel, d'.jobs[id].job.boundary)
      {
        if d'.jobs[id].novel == n && d'.jobs[id].job.boundary == boundary { assert OwnsCurrent(d.jobs, n, id); }
      }
    }
  }

  /** Recovery is fail-stop: at no crash point is a job still running or pausing whose incompatible checkpoint was
      already moved away. */
  lemma {:induction false} RecoveryIsFailStop(valid: Validator, ds: seq<Disk>, ok: bool, i: nat)
    requires RecoverTrace(valid, ds, ok) && i < |ds|
    ensures CheckpointKept(ds[0], ds[i])
  {
    if i > 0 {
      RecoveryIsFailStop(valid, ds, ok, i - 1);
      var done := RecoverMove(valid, ds[i - 1], ds[i - 1 + 1], true);
      MoveKeepsCheckpoints(valid, ds[0], ds[i - 1], ds[i], done);
    }
  }

  /** A successful recovery leaves no running or pausing job in an unblocked novel. */
  lemma RecoveryStopsAll(valid: Validator, d: Disk, d': Disk, id: string)
    requires Step(valid, d, Request.Recover, d', true)
    requires id in d'.jobs && d'.jobs[id].Current? && !Blocked(d.jobs, d'.jobs[id].novel)
    ensures !Stopping(d'.jobs[id].job.status)
  {
    assert Recovered(d, id, d');
  }

  /** Spelled out: in no state of a run are two documents of one novel queued, running or pausing. */
  lemma AtMostOneBusy(valid: Validator, ds: seq<Disk>, events: seq<Event>, i: nat, n: string, a: string, b: string)
    requires NeedsId(valid) && IsRun(valid, ds, events) && Good(ds[0]) && i < |ds|
    requires OwnsCurrent(ds[i].jobs, n, a) && ds[i].jobs[a].job.status in {Queued, Running, Pausing}
    requires OwnsCurrent(ds[i].jobs, n, b) && ds[i].jobs[b].job.status in {Queued, Running, Pausing}
    ensures a == b
  {
    OneActiveAlways(valid, ds, events, i);
    assert IsActive(ds[i].jobs, n, a) && IsActive(ds[i].jobs, n, b);
  }

  // ----- what control, finalising and recovery do to a job -----

  /** What no operation on a job changes. */
  predicate SameJob(job: Job, job': Job) {
    job'.boundary == job.boundary && job'.createdAt == job.createdAt && job'.details == job.details
  }

  /** From which statuses an action is allowed. */
  predicate AllowedFrom(action: Action, status: Status) {
    match action
    case Pause => status in {Queued, Running}
    case Cancel => status in {Queued, Running, Pausing, Paused, Interrupted}
    case Resume => status in {Paused, Interrupted}
    case OtherAction => false
  }

  /** Pausing a queued job pauses it, a running one is left to finish its batch; a canceled job is finished now; a
      resumed one is queued again without its error. */
  predicate Controls(action: Action, now: string, job: Job, job': Job) {
    && SameJob(job, job') && job'.counters == job.counters
    && match action
       case Pause =>
         && job'.status == (if job.status == Queued then Paused else Pausing)
         && job'.stage == Some(if job.status == Queued then "paused" else "pausing")
         && job'.finishedAt == job.finishedAt && job'.error == job.error && job'.workers == job.workers
       case Cancel =>
         && job'.status == Canceled && job'.stage == Some("canceled")
         && job'.finishedAt == Some(now) && job'.error == job.error && job'.workers == []
       case Resume =>
         && job'.status == Queued && job'.stage == Some("queued")
         && job'.finishedAt == None && job'.error == None && job'.workers == []
       case OtherAction => false
  }

  /** A control action that is not allowed fails and changes nothing; one that is allowed saves this outcome. */
  lemma ControlSaves(valid: Validator, d: Disk, n: string, id: string, action: Action, now: string, d': Disk, ok: bool)
    requires ControlStep(valid, d, n, id, action, now, d', ok)
    ensures !(OwnsCurrent(d.jobs, n, id) && AllowedFrom(action, d.jobs[id].job.status)) ==> d' == d && !ok
    ensures OwnsCurrent(d.jobs, n, id) && AllowedFrom(action, d.jobs[id].job.status) && NoMalformed(d.jobs) ==>
      exists job' :: Controls(action, now, d.jobs[id].job, job') && SaveStep(valid, d, n, id, job', d', ok)
    ensures ok ==>
      && OwnsCurrent(d.jobs, n, id) && OwnsCurrent(d'.jobs, n, id)
      && AllowedFrom(action, d.jobs[id].job.status) && Controls(action, now, d.jobs[id].job, d'.jobs[id].job)
  {
    if OwnsCurrent(d.jobs, n, id) && AllowedFrom(action, d.jobs[id].job.status) {
      assert Controls(action, now, d.jobs[id].job, Controlled(d.jobs[id].job, action, now).value);
    }
  }

  /** Over every run: once a cancel succeeds, the job is canceled and its document stays as it is, up to a request that
      may touch canceled jobs. */
  lemma CanceledStays(valid: Validator, ds: seq<Disk>, events: seq<Event>, k: nat, i: nat, n: string, id: string,
                      now: string)
    requires IsRun(valid, ds, events) && k < i < |ds| && events[k] == Event(Control(n, id, Cancel, now), true)
    requires forall j | k < j < i :: RespectsCancel(events[j].req)
    ensures id in ds[k + 1].jobs && id in ds[i].jobs && ds[i].jobs[id] == ds[k + 1].jobs[id]
    ensures OwnsCurrent(ds[i].jobs, n, id) && ds[i].jobs[id].job.status == Canceled
  {
    assert Step(valid, ds[k], events[k].req, ds[k + 1], events[k].ok);
    ControlSaves(valid, ds[k], n, id, Cancel, now, ds[k + 1], true);
    var later, requests := ds[k + 1..i + 1], events[k + 1..i];
    forall j | 0 <= j < |requests| ensures Step(valid, later[j], requests[j].req, later[j + 1], requests[j].ok) {
      assert Step(valid, ds[k + 1 + j], events[k + 1 + j].req, ds[k + 1 + j + 1], events[k + 1 + j].ok);
    }
    CancelIsSticky(valid, later, requests, |later| - 1, id, ds[k + 1].jobs[id]);
  }

  /** Finalising makes a pausing job paused, without workers, and leaves every other document as it is. */
  lemma FinalizePauses(valid: Validator, d: Disk, n: string, id: string, d': Disk)
    requires FinalizeStep(valid, d, n, id, d', true)
    ensures OwnsCurrent(d.jobs, n, id) && d.jobs[id].job.status == Pausing ==>
      id in d'.jobs
        && d'.jobs[id] == Current(n, d.jobs[id].job.(status := Paused, stage := Some("paused"), workers := []))
    ensures forall other | other in d.jobs
      && !(other == id && OwnsCurrent(d.jobs, n, id) && d.jobs[id].job.status == Pausing) ::
      other in d'.jobs && d'.jobs[other] == d.jobs[other]
  {
  }

  /** A job as recovery leaves it: incompatible, or interrupted without progress and not finished; with an error and
      without workers. */
  predicate StoppedAs(job: Job, job': Job, incompatible: bool) {
    && SameJob(job, job') && job'.workers == [] && job'.error.Some?
    && (incompatible ==> job' == job.(status := Incompatible, error := job'.error, workers := []))
    && (!incompatible ==>
          job'.status == Interrupted && job'.counters == None && job'.finishedAt == None
            && job'.stage == Some("interrupted"))
  }

  /** After a successful recovery: of the novels with no document of another version and at most one queued, running or
      pausing job, exactly the running and pausing ones are stopped, as incompatible if and only if the checkpoint
      for their novel and boundary is, which then is gone. */
  lemma RecoveryStops(valid: Validator, d: Disk, d': Disk, id: string)
    requires Step(valid, d, Request.Recover, d', true) && id in d.jobs
    ensures id in d'.jobs
    ensures Recoverable(d, id) ==>
      var (n, job) := (d.jobs[id].novel, d.jobs[id].job);
      var incompatible := (n, job.boundary) in d.checkpoints
        && d.checkpoints[(n, job.boundary)] in {OtherCheckpoint, MalformedCheckpoint};
      && OwnsCurrent(d'.jobs, n, id) && StoppedAs(job, d'.jobs[id].job, incompatible)
      && (incompatible ==> (n, job.boundary) !in d'.checkpoints)
    ensures !Recoverable(d, id) ==> d'.jobs[id] == d.jobs[id]
  {
    assert Recovered(d, id, d');
    if d.jobs[id].Current? { BlockedIs(d.jobs, d.jobs[id].novel); }
  }

  ghost predicate Recoverable(d: Disk, id: string) {
    && id in d.jobs && d.jobs[id].Current? && d.jobs[id].job.status in {Running, Pausing}
    && (forall other | other in d.jobs :: d.jobs[other] != Future(Some(d.jobs[id].novel)))
    && !Contested(d.jobs, d.jobs[id].novel)
  }

  /** Two documents of the novel are queued, running or pausing. */
  ghost predicate Contested(jobs: Jobs, n: string) {
    exists a, b :: a != b && OwnsCurrent(jobs, n, a) && jobs[a].job.status in {Queued, Running, Pausing}
      && OwnsCurrent(jobs, n, b) && jobs[b].job.status in {Queued, Running, Pausing}
  }

  lemma BlockedIs(jobs: Jobs, n: string)
    ensures Blocked(jobs, n) <==> Contested(jobs, n) || exists id | id in jobs :: jobs[id] == Future(Some(n))
  {
    if Contested(jobs, n) {
      var a, b :| a != b && OwnsCurrent(jobs, n, a) && jobs[a].job.status in {Queued, Running, Pausing}
        && OwnsCurrent(jobs, n, b) && jobs[b].job.status in {Queued, Running, Pausing};
      assert IsActive(jobs, n, a) && IsActive(jobs, n, b);
    }
  }

  // ----- what stops an operation, and what pruning spares -----

  /** A guarded save fails for a document that is not the novel's, and changes nothing unless the status is an expected
      one; then it writes this one document. */
  lemma GuardedSave(valid: Validator, d: Disk, n: string, id: string, job: Job, expected: set<Status>, d': Disk,
                    ok: bool)
    requires Step(valid, d, SaveIfStatus(n, id, job, expected), d', ok)
    ensures id !in d.jobs || !(OwnsCurrent(d.jobs, n, id) || d.jobs[id] == Future(Some(n))) ==> d' == d && !ok
    ensures d' != d ==>
      && OwnsCurrent(d.jobs, n, id) && d.jobs[id].job.status in expected
      && d'.jobs == d.jobs[id := Current(n, job)]
  {
  }

  /** Enqueueing changes nothing while a job of the novel is queued, running or pausing; else it writes this one
      document, and none of another schema version is overwritten. */
  lemma EnqueueWaits(valid: Validator, d: Disk, n: string, id: string, job: Job, d': Disk, ok: bool)
    requires Step(valid, d, SaveIfNoActive(n, id, job), d', ok)
    ensures forall other | OwnsCurrent(d.jobs, n, other)
      && d.jobs[other].job.status in {Queued, Running, Pausing} :: d' == d
    ensures d' != d ==> d'.jobs == d.jobs[id := Current(n, job)] && (id in d.jobs ==> d.jobs[id].Current?)
  {
    forall other | OwnsCurrent(d.jobs, n, other) && d.jobs[other].job.status in {Queued, Running, Pausing}
      ensures d' == d
    {
      assert IsActive(d.jobs, n, other);
    }
  }

  /** A document that cannot be read, of unknown owner, or of another schema version of the novel. */
  predicate Obstructs(file: JobFile, n: string) { file.Malformed? || file == Future(None) || file == Future(Some(n)) }

  /** Enqueueing, pruning and rebuilding for a novel fail before any write as long as there is such a document. */
  lemma ObstructedChangesNothing(valid: Validator, d: Disk, req: Request, d': Disk, ok: bool, id: string)
    requires (req.SaveIfNoActive? || req.Prune? || req.Rebuild?) && (req.SaveIfNoActive? || req.n != "")
    requires id in d.jobs && Obstructs(d.jobs[id], req.n) && Step(valid, d, req, d', ok)
    ensures d' == d && !ok
  {
    assert !Preflight(d.jobs, req.n);
  }

  /** Pruning does nothing while other state of the novel may not be pruned, a checkpoint cannot be read or one of the
      novel is of another version, and, if only idle novels are to be pruned, while a job of the novel is queued,
      running or pausing. */
  lemma PruneHoldsBack(valid: Validator, d: Disk, n: string, onlyIdle: bool, othersOk: bool, d': Disk, ok: bool)
    requires Step(valid, d, Prune(n, onlyIdle, othersOk), d', ok)
    ensures !othersOk ==> d' == d
    ensures forall key | key in d.checkpoints && (d.checkpoints[key].UnreadableCheckpoint?
      || d.checkpoints[key].MalformedCheckpoint? || (key.0 == n && d.checkpoints[key].OtherCheckpoint?)) :: d' == d
    ensures forall id | onlyIdle && OwnsCurrent(d.jobs, n, id)
      && d.jobs[id].job.status in {Queued, Running, Pausing} :: d' == d
  {
    forall id | onlyIdle && OwnsCurrent(d.jobs, n, id) && d.jobs[id].job.status in {Queued, Running, Pausing}
      ensures d' == d
    {
      assert IsActive(d.jobs, n, id);
    }
  }

  /** Documents, indexes and checkpoints of others. */
  ghost predicate SparesOthers(d: Disk, n: string, d': Disk) {
    && (forall id | id in d.jobs && !OwnsCurrent(d.jobs, n, id) :: id in d'.jobs && d'.jobs[id] == d.jobs[id])
    && (forall m | m in d.indexes && m != n :: m in d'.indexes && d'.indexes[m] == d.indexes[m])
    && (forall key | key in d.checkpoints && key.0 != n ::
         key in d'.checkpoints && d'.checkpoints[key] == d.checkpoints[key])
  }

  lemma {:induction false} PruneTraceSpares(ds: seq<Disk>, n: string, i: nat)
    requires PruneTrace(ds, n) && i < |ds|
    ensures SparesOthers(ds[0], n, ds[i])
    ensures forall id | id in ds[i].jobs :: id in ds[0].jobs && ds[i].jobs[id] == ds[0].jobs[id]
  {
    if i > 0 {
      PruneTraceSpares(ds, n, i - 1);
      assert PruneMove(ds[i - 1], n, ds[i - 1 + 1]);
    }
  }

  /** However pruning a novel ends, nothing of another novel is touched, and no document of another schema version. */
  lemma PruneSparesOthers(valid: Validator, d: Disk, n: string, onlyIdle: bool, othersOk: bool, d': Disk, ok: bool)
    requires Step(valid, d, Prune(n, onlyIdle, othersOk), d', ok)
    ensures SparesOthers(d, n, d')
  {
    if d' != d {
      var ds :| PruneTrace(ds, n) && ds[0] == d && ds[|ds| - 1] == d';
      PruneTraceSpares(ds, n, |ds| - 1);
    }
  }

  // ----- the indexes -----

  /** Spelled out: an accurate index lists the current documents of its novel and those of another schema version that
      are the novel's, and names the one that is queued, running or pausing, or none. */
  lemma AccurateMeans(d: Disk, n: string)
    requires Good(d) && n in d.indexes && Accurate(d, n)
    ensures d.indexes[n].Index? && NoDup(d.indexes[n].ids)
    ensures forall id :: id in d.indexes[n].ids <==>
      OwnsCurrent(d.jobs, n, id) || (id in d.jobs && d.jobs[id] == Future(Some(n)))
    ensures forall id :: d.indexes[n].active == Some(id) <==>
      OwnsCurrent(d.jobs, n, id) && d.jobs[id].job.status in {Queued, Running, Pausing}
  {
    forall id ensures id in d.indexes[n].ids <==>
      OwnsCurrent(d.jobs, n, id) || (id in d.jobs && d.jobs[id] == Future(Some(n)))
    {
      assert id in d.indexes[n].ids <==> id in Elems(d.indexes[n].ids);
    }
    forall id ensures d.indexes[n].active == Some(id) <==>
      OwnsCurrent(d.jobs, n, id) && d.jobs[id].job.status in {Queued, Running, Pausing}
    {
      assert IsActive(d.jobs, n, id) <==>
        OwnsCurrent(d.jobs, n, id) && d.jobs[id].job.status in {Queued, Running, Pausing};
    }
  }

  /** A save that takes a document from novel m. */
  predicate TakesFrom(d: Disk, req: Request, m: string) {
    (req.Save? || req.SaveIfStatus? || req.SaveIfNoActive?) && req.n != m && OwnsCurrent(d.jobs, m, req.id)
  }

  ghost predicate LastSpares(valid: Validator, d: Disk, d': Disk, m: string) {
    RecoverMove(valid, d, d', true)
    || exists id :: StopMove(valid, d, id, d', false) && (d.jobs[id].novel != m || d'.jobs == d.jobs)
  }

  /** A recovery seen from novel m: its last save either succeeded or was cut off at another novel. */
  ghost predicate RecoverySparing(valid: Validator, ds: seq<Disk>, ok: bool, m: string) {
    RecoverTrace(valid, ds, ok) && (!ok && |ds| > 1 ==> LastSpares(valid, ds[|ds| - 2], ds[|ds| - 1], m))
  }

  /** A failed operation that was not cut off between writing a document of novel m and its index. Pruning and
      rebuilding never are; a recovery is cut off at its last save. */
  ghost predicate Spares(valid: Validator, d: Disk, req: Request, d': Disk, m: string) {
    match req
    case Recover =>
      exists ds :: RecoverySparing(valid, ds, false, m) && ds[0] == d && ds[|ds| - 1] == d'
    case Prune(_, _, _) => true
    case Rebuild(_) => true
    case _ => req.n != m || d'.jobs == d.jobs
  }

  lemma SaveKeepsAccuracy(valid: Validator, d: Disk, n: string, id: string, job: Job, d': Disk, ok: bool, m: string)
    requires NeedsId(valid) && Good(d) && Accurate(d, m) && SaveStep(valid, d, n, id, job, d', ok)
    requires if n != m then !OwnsCurrent(d.jobs, m, id) else ok || d'.jobs == d.jobs
    ensures Accurate(d', m)
  {
    if !ok {
      FailedSaveIsContained(valid, d, n, id, job, d', m);
    } else if m == n {
      SavedIndexDescribes(valid, d, n, id, job, d');
    } else {
      SaveKeepsOthers(valid, d, n, id, job, d', ok, m);
    }
  }

  /** A rebuild makes the novel's index accurate, whatever it held, and leaves the others as they are. */
  lemma RebuildRestores(d: Disk, n: string, d': Disk)
    requires n != "" && RebuildStep(d, n, d', true)
    ensures n in d'.indexes && Accurate(d', n)
    ensures forall m | m != n && Accurate(d, m) :: Accurate(d', m)
  {
    assert Preflight(d.jobs, n);
    var index: IndexFile :| index.Index? && Rebuilt(index, d.jobs, n)
      && d'.indexes == d.indexes[n := index.(revision := 1)];
  }

  lemma RebuildKeepsAccuracy(d: Disk, n: string, d': Disk, ok: bool, m: string)
    requires RebuildStep(d, n, d', ok) && Accurate(d, m)
    ensures Accurate(d', m)
  {
    if ok && n != "" { RebuildRestores(d, n, d'); }
  }

  /** The saves before the last one succeeded. */
  lemma {:induction false} RecoverTraceKeepsAccuracy(valid: Validator, ds: seq<Disk>, ok: bool, i: nat, m: string)
    requires NeedsId(valid) && RecoverTrace(valid, ds, ok) && Good(ds[0]) && Accurate(ds[0], m)
    requires i < |ds| && (ok || i < |ds| - 1 || i == 0)
    ensures Accurate(ds[i], m)
  {
    if i > 0 {
      RecoverTraceKeepsAccuracy(valid, ds, ok, i - 1, m);
      RecoverTraceKeepsGood(valid, ds, ok, i - 1);
      assert RecoverMove(valid, ds[i - 1], ds[i - 1 + 1], true);
      RecoverMoveKeepsAccuracy(valid, ds[i - 1], ds[i], m);
    }
  }

  lemma RecoverMoveKeepsAccuracy(valid: Validator, d: Disk, d': Disk, m: string)
    requires NeedsId(valid) && Good(d) && Accurate(d, m) && LastSpares(valid, d, d', m)
    ensures Accurate(d', m)
  {
    if id :| StopMove(valid, d, id, d', true) {
      StopMoveKeepsAccuracy(valid, d, id, d', true, m);
    } else if id :| StopMove(valid, d, id, d', false) && (d.jobs[id].novel != m || d'.jobs == d.jobs) {
      StopMoveKeepsAccuracy(valid, d, id, d', false, m);
    }
  }

  lemma StopMoveKeepsAccuracy(valid: Validator, d: Disk, id: string, d': Disk, ok: bool, m: string)
    requires NeedsId(valid) && Good(d) && Accurate(d, m) && StopMove(valid, d, id, d', ok)
    requires ok || d.jobs[id].novel != m || d'.jobs == d.jobs
    ensures Accurate(d', m)
  {
    var n, job := d.jobs[id].novel, d.jobs[id].job;
    SaveKeepsAccuracy(valid, d, n, id, StoppedJob(d, n, job), d', ok, m);
  }

  lemma RecoveryKeepsAccuracy(valid: Validator, ds: seq<Disk>, ok: bool, m: string)
    requires NeedsId(valid) && RecoverySparing(valid, ds, ok, m) && Good(ds[0]) && Accurate(ds[0], m)
    ensures Accurate(ds[|ds| - 1], m)
  {
    if ok || |ds| == 1 {
      RecoverTraceKeepsAccuracy(valid, ds, ok, |ds| - 1, m);
    } else {
      RecoverTraceKeepsAccuracy(valid, ds, ok, |ds| - 2, m);
      RecoverTraceKeepsGood(valid, ds, ok, |ds| - 2);
      RecoverMoveKeepsAccuracy(valid, ds[|ds| - 2], ds[|ds| - 1], m);
    }
  }

  lemma PruneMoveKeepsAccuracy(d: Disk, n: string, d': Disk, m: string)
    requires Accurate(d, m) && PruneMove(d, n, d')
    ensures Accurate(d', m)
  {
    if m != n && d'.jobs != d.jobs {
      var id :| OwnsCurrent(d.jobs, n, id) && d' == d.(jobs := d.jobs - {id});
      assert DocsOf(d'.jobs, m) == DocsOf(d.jobs, m);
      forall other ensures IsActive(d'.jobs, m, other) <==> IsActive(d.jobs, m, other) {}
    }
  }

  lemma {:induction false} PruneTraceKeepsAccuracy(ds: seq<Disk>, n: string, i: nat, m: string)
    requires PruneTrace(ds, n) && Accurate(ds[0], m) && i < |ds|
    ensures Accurate(ds[i], m)
  {
    if i > 0 {
      PruneTraceKeepsAccuracy(ds, n, i - 1, m);
      assert PruneMove(ds[i - 1], n, ds[i - 1 + 1]);
      PruneMoveKeepsAccuracy(ds[i - 1], n, ds[i], m);
    }
  }

  /** The index of a novel stays accurate over every operation that takes no document from the novel, whatever
      happens to other novels and in whatever way the operation ends, unless it is cut off between writing a
      document of this novel and its index. */
  lemma StepKeepsAccuracy(valid: Validator, d: Disk, req: Request, d': Disk, ok: bool, m: string)
    requires NeedsId(valid) && Good(d) && Accurate(d, m) && Step(valid, d, req, d', ok)
    requires !TakesFrom(d, req, m) && (ok || Spares(valid, d, req, d', m))
    ensures Accurate(d', m)
  {
    if d' != d {
      match req
      case Save(n, id, job) => SaveKeepsAccuracy(valid, d, n, id, job, d', ok, m);
      case SaveIfStatus(n, id, job, expected) => SaveKeepsAccuracy(valid, d, n, id, job, d', ok, m);
      case SaveIfNoActive(n, id, job) => SaveKeepsAccuracy(valid, d, n, id, job, d', ok, m);
      case Control(n, id, action, now) =>
        SaveKeepsAccuracy(valid, d, n, id, Controlled(d.jobs[id].job, action, now).value, d', ok, m);
      case Finalize(n, id) => SaveKeepsAccuracy(valid, d, n, id, Finalized(d.jobs[id].job), d', ok, m);
      case Recover =>
        assert exists ds :: RecoverTrace(valid, ds, ok) && ds[0] == d && ds[|ds| - 1] == d';
        var ds :| RecoverySparing(valid, ds, ok, m) && ds[0] == d && ds[|ds| - 1] == d';
        RecoveryKeepsAccuracy(valid, ds, ok, m);
      case Prune(n, onlyIdle, othersOk) =>
        var ds :| PruneTrace(ds, n) && ds[0] == d && ds[|ds| - 1] == d';
        PruneTraceKeepsAccuracy(ds, n, |ds| - 1, m);
      case Rebuild(n) => RebuildKeepsAccuracy(d, n, d', ok, m);
    }
  }

  /** The k-th operation takes no document from novel m and is not cut off at one. */
  ghost predicate Undisturbed(valid: Validator, ds: seq<Disk>, events: seq<Event>, m: string, k: nat)
    requires |ds| == |events| + 1
  {
    k < |events| &&
    !TakesFrom(ds[k], events[k].req, m) && (events[k].ok || Spares(valid, ds[k], events[k].req, ds[k + 1], m))
  }

  lemma EventKeepsAccuracy(valid: Validator, ds: seq<Disk>, events: seq<Event>, m: string, k: nat)
    requires NeedsId(valid) && IsRun(valid, ds, events) && Good(ds[0])
    requires k < |events| && Accurate(ds[k], m) && Undisturbed(valid, ds, events, m, k)
    ensures Accurate(ds[k + 1], m)
  {
    OneActiveAlways(valid, ds, events, k);
    StepKeepsAccuracy(valid, ds[k], events[k].req, ds[k + 1], events[k].ok, m);
  }

  /** Over every run, failures and crashes at other novels included, an accurate index stays accurate as long as
      its own novel is undisturbed. */
  lemma {:induction false} IndexStaysAccurate(valid: Validator, ds: seq<Disk>, events: seq<Event>, m: string, from: nat,
                                              i: nat)
    requires NeedsId(valid) && IsRun(valid, ds, events) && Good(ds[0]) && from <= i < |ds| && Accurate(ds[from], m)
    requires forall k | from <= k < i :: Undisturbed(valid, ds, events, m, k)
    ensures Accurate(ds[i], m)
    decreases i
  {
    if from < i {
      IndexStaysAccurate(valid, ds, events, m, from, i - 1);
      EventKeepsAccuracy(valid, ds, events, m, i - 1);
    }
  }

  // ----- stale indexes -----

  /** Rebuilding the index of novel n, and pruning the novel unless that is skipped because it has an active job. */
  ghost predicate Repairs(d: Disk, req: Request, n: string) {
    n != "" && (req == Rebuild(n) ||
                (req.Prune? && req.n == n && !(req.onlyIdle && exists id :: IsActive(d.jobs, n, id))))
  }

  /** Both end any staleness of the novel's index. */
  lemma RepairMakesAccurate(valid: Validator, d: Disk, req: Request, d': Disk, n: string)
    requires Repairs(d, req, n) && Step(valid, d, req, d', true)
    ensures Accurate(d', n)
  {
    if req.Rebuild? { RebuildRestores(d, n, d'); }
  }

  /** Whatever happened before, an index is accurate again since the last repair of its novel. */
  lemma AccurateSinceRepair(valid: Validator, ds: seq<Disk>, events: seq<Event>, n: string, k: nat, i: nat)
    requires NeedsId(valid) && IsRun(valid, ds, events) && Good(ds[0]) && k < i < |ds|
    requires events[k].ok && Repairs(ds[k], events[k].req, n)
    requires forall j | k < j < i :: Undisturbed(valid, ds, events, n, j)
    ensures Accurate(ds[i], n)
  {
    assert Step(valid, ds[k], events[k].req, ds[k + 1], events[k].ok);
    RepairMakesAccurate(valid, ds[k], events[k].req, ds[k + 1], n);
    IndexStaysAccurate(valid, ds, events, n, k + 1, i);
  }

  /** A document of the novel that its index, though usable, does not list. */
  ghost predicate Unlisted(d: Disk, n: string, id: string) {
    Usable(d.indexes, n) && id in DocsOf(d.jobs, n) && id !in d.indexes[n].ids
  }

  /** The requests that write the document, or repair its novel's index: only a recovery that stops the job, a
      save of it, or a repair. */
  predicate Reaches(d: Disk, req: Request, n: string, id: string)
    requires id in d.jobs
  {
    match req
    case Recover => Stopping(StatusOf(d.jobs[id]))
    case Prune(m, _, _) => m == n
    case Rebuild(m) => m == n
    case _ => req.id == id
  }

  lemma {:induction false} NotAmongOthers(ids: seq<string>, other: string, id: string)
    requires id !in ids && id != other
    ensures id !in PrependUnique(ids, other)
  {
    OthersLists(ids, other);
    PrependUniqueLists(ids, other);
    assert id !in Elems(PrependUnique(ids, other));
  }

  lemma SaveKeepsUnlisted(valid: Validator, d: Disk, m: string, other: string, job: Job, d': Disk, ok: bool, n: string,
                          id: string)
    requires Unlisted(d, n, id) && other != id && SaveStep(valid, d, m, other, job, d', ok)
    ensures Unlisted(d', n, id) && d'.jobs[id] == d.jobs[id]
  {
    if d' != d && ok && m == n { NotAmongOthers(d.indexes[n].ids, other, id); }
  }

  lemma {:induction false} RecoverTraceKeepsUnlisted(valid: Validator, ds: seq<Disk>, ok: bool, i: nat, n: string,
                                                     id: string)
    requires RecoverTrace(valid, ds, ok) && i < |ds| && Unlisted(ds[0], n, id)
    requires !Reaches(ds[0], Request.Recover, n, id)
    ensures Unlisted(ds[i], n, id) && ds[i].jobs[id] == ds[0].jobs[id]
  {
    if i > 0 {
      RecoverTraceKeepsUnlisted(valid, ds, ok, i - 1, n, id);
      var d, d' := ds[i - 1], ds[i - 1 + 1];
      var done := RecoverMove(valid, d, d', true);
      if other :| StopMove(valid, d, other, d', done) {
        var (m, job) := (d.jobs[other].novel, d.jobs[other].job);
        SaveKeepsUnlisted(valid, d, m, other, StoppedJob(d, m, job), d', done, n, id);
      }
    }
  }

  lemma {:induction false} PruneTraceKeepsUnlisted(ds: seq<Disk>, m: string, i: nat, n: string, id: string)
    requires PruneTrace(ds, m) && i < |ds| && Unlisted(ds[0], n, id) && m != n
    ensures Unlisted(ds[i], n, id)
  {
    if i > 0 {
      PruneTraceKeepsUnlisted(ds, m, i - 1, n, id);
      assert PruneMove(ds[i - 1], m, ds[i - 1 + 1]);
    }
  }

  lemma StepKeepsUnlisted(valid: Validator, d: Disk, req: Request, d': Disk, ok: bool, n: string, id: string)
    requires Unlisted(d, n, id) && Step(valid, d, req, d', ok) && !Reaches(d, req, n, id)
    ensures Unlisted(d', n, id)
  {
    if d' != d {
      match req
      case Save(m, other, job) => SaveKeepsUnlisted(valid, d, m, other, job, d', ok, n, id);
      case SaveIfStatus(m, other, job, _) => SaveKeepsUnlisted(valid, d, m, other, job, d', ok, n, id);
      case SaveIfNoActive(m, other, job) => SaveKeepsUnlisted(valid, d, m, other, job, d', ok, n, id);
      case Control(m, other, action, now) =>
        SaveKeepsUnlisted(valid, d, m, other, Controlled(d.jobs[other].job, action, now).value, d', ok, n, id);
      case Finalize(m, other) => SaveKeepsUnlisted(valid, d, m, other, Finalized(d.jobs[other].job), d', ok, n, id);
      case Recover =>
        var ds :| RecoverTrace(valid, ds, ok) && ds[0] == d && ds[|ds| - 1] == d';
        RecoverTraceKeepsUnlisted(valid, ds, ok, |ds| - 1, n, id);
      case Prune(m, _, _) =>
        var ds :| PruneTrace(ds, m) && ds[0] == d && ds[|ds| - 1] == d';
        PruneTraceKeepsUnlisted(ds, m, |ds| - 1, n, id);
      case Rebuild(m) =>
    }
  }

  /** A stale index is trusted for ever: over every run, a document that its novel's index does not list stays
      unlisted until it is written again or the novel's index is rebuilt or pruned. */
  lemma {:induction false} StaleUntilReached(valid: Validator, ds: seq<Disk>, events: seq<Event>, i: nat, n: string,
                                             id: string)
    requires IsRun(valid, ds, events) && i < |ds| && Unlisted(ds[0], n, id)
    requires forall k | 0 <= k < |events| && id in ds[k].jobs :: !Reaches(ds[k], events[k].req, n, id)
    ensures Unlisted(ds[i], n, id) && !Accurate(ds[i], n)
  {
    if i > 0 {
      StaleUntilReached(valid, ds, events, i - 1, n, id);
      assert Step(valid, ds[i - 1], events[i - 1].req, ds[i - 1 + 1], events[i - 1].ok);
      StepKeepsUnlisted(valid, ds[i - 1], events[i - 1].req, ds[i], events[i - 1].ok, n, id);
    }
  }

  function SimpleJob(status: Status): Job { Job("1", status, None, None, [], None, None, "now", "") }

  /** A new job whose save is cut off after the first write: the job is queued, and after another job of the novel
      was saved successfully the index still neither lists it nor names it as active. */
  lemma CutOffSaveStaysUnlisted(valid: Validator) returns (ds: seq<Disk>, events: seq<Event>)
    requires valid("n", "a", SimpleJob(Completed)) && valid("n", "b", SimpleJob(Queued))
    ensures IsRun(valid, ds, events) && |events| == 2 && Good(ds[0]) && AllAccurate(ds[0])
    ensures events[0] == Event(Save("n", "b", SimpleJob(Queued)), false)
    ensures events[1] == Event(Save("n", "a", SimpleJob(Completed)), true)
    ensures IsActive(ds[2].jobs, "n", "b") && Unlisted(ds[2], "n", "b") && ds[2].indexes["n"].active == None
    ensures !Accurate(ds[2], "n")
  {
    var done, queued := SimpleJob(Completed), SimpleJob(Queued);
    var index := Index("n", None, ["a"], 1);
    var d0 := Disk(map["a" := Current("n", done)], map["n" := index], map[]);
    var d1 := d0.(jobs := d0.jobs["b" := Current("n", queued)]);
    var d2 := d1.(jobs := d1.jobs["a" := Current("n", done)],
      indexes := d1.indexes["n" := IndexWith(index, "n", "a", Completed)]);
    assert DocsOf(d0.jobs, "n") == {"a"} == Elems(["a"]);
    assert SaveStep(valid, d0, "n", "b", queued, d1, false);
    assert SaveStep(valid, d1, "n", "a", done, d2, true) by {
      assert StartsFrom(index, d1.indexes, d2.jobs, "n");
    }
    NotAmongOthers(["a"], "a", "b");
    ds, events := [d0, d1, d2], [Event(Save("n", "b", queued), false), Event(Save("n", "a", done), true)];
  }
}
