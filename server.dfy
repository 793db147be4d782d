/**
 * The HTTP server's job bookkeeping (`server.py`): the registry of jobs, the
 * four endpoints that create, read, remove and list them, and the
 * background worker that processes a job's items one after another. The
 * HTTP layer, FastAPI's task scheduling, `uuid4` and the clock are outside
 * the model: the new job id and the current time are inputs, and what each
 * item's processing meets is an `ItemWorld` per position.
 */
module Server {
  import opened Wrappers
  import opened OcrClient
  import opened Integration

  /** `JobStatus`. */
  datatype JobStatus = Pending | Processing | Completed | Failed

  /** The string value of each status. */
  function StatusValue(s: JobStatus): (r: string)
    ensures r in {"pending", "processing", "completed", "failed"}
  {
    match s
    case Pending => "pending"
    case Processing => "processing"
    case Completed => "completed"
    case Failed => "failed"
  }

  lemma StatusValueInjective(a: JobStatus, b: JobStatus)
    ensures StatusValue(a) == StatusValue(b) ==> a == b
  {
  }

  /** The reason recorded for a skipped item. */
  const SKIP_REASON: string := "Already processed or no PDF"

  /** An entry of a job's results: a processed item with its counts, or a skipped one. */
  datatype JobResult =
    | Done(itemKey: string, pages: int, images: nat, tables: nat)
    | Skipped(itemKey: string, reason: string)

  /** An error from raising outside the loop over items, not tied to one item. */
  const GENERAL: string := "general"

  /** An HTTP error answer. */
  datatype HttpError = HttpError(statusCode: int, detail: string)

  /** The answer of `POST /ocr`. */
  datatype Accepted = Accepted(jobId: string, itemsQueued: nat)

  /** The answer of `GET /status/{job_id}`. */
  datatype StatusResponse = StatusResponse(
    jobId: string, status: string, total: int, completed: int,
    currentItem: Option<string>, errors: seq<BatchError>, results: seq<JobResult>)

  /** An entry of `GET /jobs`. */
  datatype JobListing = JobListing(jobId: string, status: string, total: int, completed: int, startedAt: int)

  /** The answer of `DELETE /jobs/{job_id}`. */
  datatype Cancelled = Cancelled(status: string, jobId: string)

  function NotFound(jobId: string): HttpError
  {
    HttpError(404, "Job " + jobId + " not found")
  }

  // ---------------------------------------------------------------------------
  // What the worker records

  /** The entry an item's outcome adds: one result, or one error naming the item. */
  function Record(results: seq<JobResult>, errors: seq<BatchError>, key: string,
                  outcome: Result<Option<OcrResult>, string>): (seq<JobResult>, seq<BatchError>)
  {
    match outcome
    case Err(e) => (results, errors + [BatchError(key, e)])
    case Ok(Some(r)) => (results + [Done(key, r.pagesProcessed, |r.images|, |r.tables|)], errors)
    case Ok(None) => (results + [Skipped(key, SKIP_REASON)], errors)
  }

  /** The results and errors recorded for the items so far, in order. */
  function Records(keys: seq<string>, outcomes: seq<Result<Option<OcrResult>, string>>): (r: (seq<JobResult>, seq<BatchError>))
    requires |keys| == |outcomes|
    ensures |r.0| + |r.1| == |keys|
  {
    if keys == [] then ([], [])
    else
      var n := |keys| - 1;
      var prev := Records(keys[..n], outcomes[..n]);
      Record(prev.0, prev.1, keys[n], outcomes[n])
  }

  /**
   * The job records the same errors as `batch_process` would for the same
   * outcomes, and one result per item it counts as processed or skipped.
   */
  lemma {:induction false} RecordsAgreeWithTally(keys: seq<string>, outcomes: seq<Result<Option<OcrResult>, string>>)
    requires |keys| == |outcomes|
    ensures Records(keys, outcomes).1 == Tally(keys, outcomes).errors
    ensures |Records(keys, outcomes).0| == Tally(keys, outcomes).processed + Tally(keys, outcomes).skipped
    decreases |keys|
  {
    if keys != [] {
      var n := |keys| - 1;
      RecordsAgreeWithTally(keys[..n], outcomes[..n]);
    }
  }

  /** Every result entry names an item of the job, in the order of the items. */
  lemma {:induction false} ResultsNameItems(keys: seq<string>, outcomes: seq<Result<Option<OcrResult>, string>>, j: nat)
    requires |keys| == |outcomes|
    requires j < |Records(keys, outcomes).0|
    ensures exists i :: 0 <= i < |keys| && keys[i] == Records(keys, outcomes).0[j].itemKey && outcomes[i].Ok?
    decreases |keys|
  {
    var n := |keys| - 1;
    var prev := Records(keys[..n], outcomes[..n]);
    var e := Records(keys, outcomes).0[j];
    if j < |prev.0| {
      assert e == prev.0[j];
      ResultsNameItems(keys[..n], outcomes[..n], j);
      var i :| 0 <= i < n && keys[..n][i] == e.itemKey && outcomes[..n][i].Ok?;
      assert keys[i] == keys[..n][i] && outcomes[i] == outcomes[..n][i];
    } else {
      assert e.itemKey == keys[n];
    }
  }

  /** The status a finished loop leaves: completed without any error, failed with one. */
  function FinalStatus(errors: seq<BatchError>): (s: JobStatus)
    ensures s == Completed <==> errors == []
    ensures s == Completed || s == Failed
  {
    if errors == [] then Completed else Failed
  }

  // ---------------------------------------------------------------------------
  // Jobs

  /** `JobProgress`: a job's progress, updated in place by the worker while the registry keeps it. */
  class Job {
    const jobId: string
    var status: JobStatus
    var total: int
    var completed: int
    var currentItem: Option<string>
    var errors: seq<BatchError>
    var results: seq<JobResult>
    const startedAt: int
    var completedAt: Option<int>

    /** A new job: pending, nothing done, started now. */
    constructor (jobId: string, total: int, now: int)
      ensures this.jobId == jobId && this.total == total && startedAt == now
      ensures status == Pending && completed == 0 && currentItem == None
      ensures errors == [] && results == [] && completedAt == None
    {
      this.jobId := jobId;
      status := Pending;
      this.total := total;
      completed := 0;
      currentItem := None;
      errors := [];
      results := [];
      startedAt := now;
      completedAt := None;
    }

    /** One turn of the loop: the item becomes the current one, its outcome is recorded and it counts as completed. */
    method RunItem(i: nat, key: string, result: Result<Option<OcrResult>, string>)
      modifies this
      ensures (results, errors) == Record(old(results), old(errors), key, result)
      ensures currentItem == Some(key) && completed == i + 1
      ensures status == old(status) && total == old(total) && completedAt == old(completedAt)
    {
      currentItem := Some(key);
      match result {
        case Err(e) =>
          errors := errors + [BatchError(key, e)];
        case Ok(Some(r)) =>
          results := results + [Done(key, r.pagesProcessed, |r.images|, |r.tables|)];
        case Ok(None) =>
          results := results + [Skipped(key, SKIP_REASON)];
      }
      completed := i + 1;
    }

    /** The loop over the items: each processed in turn, recorded, and counted as completed, with a pause between two items. */
    method RunItems(itemKeys: seq<string>, outcome: nat -> Result<Option<OcrResult>, string>) returns (pausesMs: seq<nat>)
      modifies this
      ensures (results, errors) == Appended(old(results), old(errors), Records(itemKeys, OutcomeSeq(itemKeys, outcome)))
      ensures completed == if itemKeys == [] then old(completed) else |itemKeys|
      ensures currentItem == if itemKeys == [] then old(currentItem) else Some(itemKeys[|itemKeys| - 1])
      ensures status == old(status) && total == old(total) && completedAt == old(completedAt)
      ensures pausesMs == Pauses(|itemKeys|)
    {
      ghost var outcomes := OutcomeSeq(itemKeys, outcome);
      ghost var results0 := results;
      ghost var errors0 := errors;
      ghost var completed0 := completed;
      pausesMs := [];
      var n := |itemKeys|;
      assert results0 + [] == results0 && errors0 + [] == errors0;
      for i := 0 to n
        invariant (results, errors) == Appended(results0, errors0, Records(itemKeys[..i], outcomes[..i]))
        invariant completed == if i == 0 then completed0 else i
        invariant currentItem == if i == 0 then old(currentItem) else Some(itemKeys[i - 1])
        invariant status == old(status) && total == old(total) && completedAt == old(completedAt)
        invariant pausesMs == Pauses(if i < n then i + 1 else n)
      {
        var result := outcome(i);
        assert result == outcomes[i];
        RecordsNext(results0, errors0, itemKeys, outcomes, i);
        RunItem(i, itemKeys[i], result);
        if i < n - 1 {
          pausesMs := pausesMs + [500];
        }
      }
      assert itemKeys[..n] == itemKeys && outcomes[..n] == outcomes;
    }
  }

  /** The module-level `jobs` dictionary, with its keys in insertion order as Python keeps them. */
  class JobRegistry {
    var jobs: map<string, Job>
    var order: seq<string>

    /** The order lists every key once; every job is filed under its own id. */
    ghost predicate Valid()
      reads this, jobs.Values
    {
      (forall k :: k in jobs <==> k in order)
      && Distinct(order)
      && (forall k :: k in jobs ==> jobs[k].jobId == k)
    }

    constructor ()
      ensures Valid() && jobs == map[] && order == []
    {
      jobs := map[];
      order := [];
    }

    /** `start_ocr`: refuses an empty list, otherwise files a new pending job for all the items under the given id. */
    method StartOcr(itemKeys: seq<string>, jobId: string, now: int) returns (r: Result<Accepted, HttpError>)
      requires Valid()
      modifies this
      ensures Valid()
      ensures itemKeys == [] ==> r == Err(HttpError(400, "No item keys provided")) && jobs == old(jobs) && order == old(order)
      ensures itemKeys != [] ==> r == Ok(Accepted(jobId, |itemKeys|))
      ensures itemKeys != [] ==> jobId in jobs && fresh(jobs[jobId]) && jobs == old(jobs)[jobId := jobs[jobId]]
      ensures itemKeys != [] ==> order == if jobId in old(jobs) then old(order) else old(order) + [jobId]
      ensures itemKeys != [] ==> var job := jobs[jobId];
                job.status == Pending && job.total == |itemKeys| && job.completed == 0 && job.currentItem == None
                && job.errors == [] && job.results == [] && job.startedAt == now && job.completedAt == None
    {
      if itemKeys == [] {
        return Err(HttpError(400, "No item keys provided"));
      }
      var job := new Job(jobId, |itemKeys|, now);
      if jobId !in jobs {
        order := order + [jobId];
      }
      jobs := jobs[jobId := job];
      return Ok(Accepted(jobId, |itemKeys|));
    }

    /** `get_status`: the job's progress, or 404 for an id not filed. */
    function GetStatus(jobId: string): (r: Result<StatusResponse, HttpError>)
      reads this, jobs.Values
      ensures r.Err? <==> jobId !in jobs
      ensures r.Err? ==> r.error == NotFound(jobId)
      ensures r.Ok? ==> r.value.jobId == jobs[jobId].jobId && r.value.total == jobs[jobId].total
                        && r.value.currentItem == jobs[jobId].currentItem
      ensures r.Ok? ==> r.value.status == StatusValue(jobs[jobId].status) && r.value.completed == jobs[jobId].completed
                        && r.value.errors == jobs[jobId].errors && r.value.results == jobs[jobId].results
    {
      if jobId !in jobs then Err(NotFound(jobId))
      else
        var job := jobs[jobId];
        Ok(StatusResponse(job.jobId, StatusValue(job.status), job.total, job.completed, job.currentItem, job.errors, job.results))
    }

    /** `cancel_job`: removes a filed job, which is then unknown to `get_status`; an id not filed is a 404. */
    method CancelJob(jobId: string) returns (r: Result<Cancelled, HttpError>)
      requires Valid()
      modifies this
      ensures Valid()
      ensures (jobId in old(jobs)) == r.Ok?
      ensures r.Ok? ==> r.value == Cancelled("cancelled", jobId)
                        && jobs == old(jobs) - {jobId} && order == Without(old(order), jobId)
      ensures r.Err? ==> r.error == NotFound(jobId) && jobs == old(jobs) && order == old(order)
      ensures GetStatus(jobId) == Err(NotFound(jobId))
    {
      if jobId in jobs {
        WithoutKeeps(order, jobId);
        jobs := jobs - {jobId};
        order := Without(order, jobId);
        return Ok(Cancelled("cancelled", jobId));
      }
      return Err(NotFound(jobId));
    }

    /** `list_jobs`: one entry per job, in the order the jobs were filed. */
    function ListJobs(): (r: seq<JobListing>)
      requires Valid()
      reads this, jobs.Values
      ensures |r| == |order|
      ensures forall i :: 0 <= i < |r| ==> r[i].jobId == order[i] && r[i].status == StatusValue(jobs[order[i]].status)
      ensures forall i :: 0 <= i < |r| ==>
        r[i].total == jobs[order[i]].total && r[i].completed == jobs[order[i]].completed && r[i].startedAt == jobs[order[i]].startedAt
    {
      seq(|order|, i requires 0 <= i < |order| && order[i] in jobs reads this, jobs.Values =>
        var job := jobs[order[i]];
        JobListing(job.jobId, StatusValue(job.status), job.total, job.completed, job.startedAt))
    }

    /**
     * `process_items_background`. For a job not filed nothing changes. When
     * creating the integration raises, the job fails with a general error.
     * Otherwise each item is processed in turn, adding one result or one
     * error, with a pause of 500 ms between two items; the job ends
     * completed if it holds no error and failed otherwise.
     */
    method ProcessItemsBackground(jobId: string, itemKeys: seq<string>, force: bool,
                                  setup: Option<string>, world: nat -> ItemWorld, now: int)
      returns (pausesMs: seq<nat>)
      requires Valid()
      modifies if jobId in jobs then {jobs[jobId]} else {}
      ensures Valid()
      ensures jobId !in jobs ==> pausesMs == []
      ensures jobId in jobs && setup.Some? ==>
                var job := jobs[jobId];
                job.status == Failed && job.total == |itemKeys|
                && job.errors == old(job.errors) + [BatchError(GENERAL, setup.value)]
                && job.results == old(job.results) && job.completed == old(job.completed)
                && job.currentItem == old(job.currentItem) && job.completedAt == Some(now)
                && pausesMs == []
      ensures jobId in jobs && setup.None? ==>
                var job := jobs[jobId];
                var recs := Records(itemKeys, Outcomes(itemKeys, world, force));
                job.results == old(job.results) + recs.0 && job.errors == old(job.errors) + recs.1
                && job.status == FinalStatus(job.errors) && job.total == |itemKeys|
                && job.completed == (if itemKeys == [] then old(job.completed) else |itemKeys|)
                && job.currentItem == None && job.completedAt == Some(now)
                && |pausesMs| == (if itemKeys == [] then 0 else |itemKeys| - 1)
                && forall p :: p in pausesMs ==> p == 500
      ensures jobId in jobs ==> jobs[jobId].status == Completed || jobs[jobId].status == Failed
    {
      pausesMs := [];
      if jobId !in jobs {
        return;
      }
      var job := jobs[jobId];
      job.status := Processing;
      job.total := |itemKeys|;
      if setup.Some? {
        job.status := Failed;
        job.errors := job.errors + [BatchError(GENERAL, setup.value)];
        job.completedAt := Some(now);
        return;
      }
      var outcome := (i: nat) => ProcessItem(world(i), force, true).outcome;
      pausesMs := job.RunItems(itemKeys, outcome);
      assert OutcomeSeq(itemKeys, outcome) == Outcomes(itemKeys, world, force);
      job.status := FinalStatus(job.errors);
      job.currentItem := None;
      job.completedAt := Some(now);
    }
  }

  /** The outcomes of the items, item `i` having `outcome(i)`. */
  function OutcomeSeq(keys: seq<string>, outcome: nat -> Result<Option<OcrResult>, string>): (r: seq<Result<Option<OcrResult>, string>>)
    ensures |r| == |keys| && forall i :: 0 <= i < |keys| ==> r[i] == outcome(i)
  {
    seq(|keys|, i requires 0 <= i => outcome(i))
  }

  /** Entries appended to a job's results and errors. */
  function Appended(results: seq<JobResult>, errors: seq<BatchError>, recs: (seq<JobResult>, seq<BatchError>)): (seq<JobResult>, seq<BatchError>)
  {
    (results + recs.0, errors + recs.1)
  }

  lemma RecordsNext(results: seq<JobResult>, errors: seq<BatchError>,
                    keys: seq<string>, outcomes: seq<Result<Option<OcrResult>, string>>, i: nat)
    requires |keys| == |outcomes| && i < |keys|
    ensures var a := Appended(results, errors, Records(keys[..i], outcomes[..i]));
            Record(a.0, a.1, keys[i], outcomes[i]) == Appended(results, errors, Records(keys[..i + 1], outcomes[..i + 1]))
  {
    RecordsStep(keys, outcomes, i);
    AppendRecord(results, errors, Records(keys[..i], outcomes[..i]), keys[i], outcomes[i]);
  }

  lemma AppendRecord(results: seq<JobResult>, errors: seq<BatchError>, prev: (seq<JobResult>, seq<BatchError>),
                     key: string, outcome: Result<Option<OcrResult>, string>)
    ensures var a := Appended(results, errors, prev);
            Record(a.0, a.1, key, outcome) == Appended(results, errors, Record(prev.0, prev.1, key, outcome))
  {
    match outcome {
      case Err(e) =>
        assert (errors + prev.1) + [BatchError(key, e)] == errors + (prev.1 + [BatchError(key, e)]);
      case Ok(Some(r)) =>
        var d := Done(key, r.pagesProcessed, |r.images|, |r.tables|);
        assert (results + prev.0) + [d] == results + (prev.0 + [d]);
      case Ok(None) =>
        assert (results + prev.0) + [Skipped(key, SKIP_REASON)] == results + (prev.0 + [Skipped(key, SKIP_REASON)]);
    }
  }

  /** The pauses for `n` items: 500 ms between each two of them. */
  function Pauses(n: nat): (r: seq<nat>)
    ensures |r| == if n == 0 then 0 else n - 1
    ensures forall p :: p in r ==> p == 500
  {
    if n <= 1 then [] else Pauses(n - 1) + [500]
  }

  /** The records of one more item extend those of the items before it. */
  lemma RecordsStep(keys: seq<string>, outcomes: seq<Result<Option<OcrResult>, string>>, i: nat)
    requires |keys| == |outcomes| && i < |keys|
    ensures var prev := Records(keys[..i], outcomes[..i]);
            Records(keys[..i + 1], outcomes[..i + 1]) == Record(prev.0, prev.1, keys[i], outcomes[i])
  {
    assert keys[..i + 1][..i] == keys[..i] && outcomes[..i + 1][..i] == outcomes[..i];
  }

  /** The order without one key, the others keeping their places. */
  function Without(s: seq<string>, k: string): (r: seq<string>)
    ensures forall x :: x in r <==> x in s && x != k
  {
    if s == [] then []
    else if s[0] == k then Without(s[1..], k)
    else [s[0]] + Without(s[1..], k)
  }

  predicate Distinct(s: seq<string>)
  {
    forall i, j :: 0 <= i < j < |s| ==> s[i] != s[j]
  }

  lemma DistinctTail(s: seq<string>)
    requires s != [] && Distinct(s)
    ensures Distinct(s[1..]) && s[0] !in s[1..]
  {
    forall i, j | 0 <= i < j < |s[1..]|
      ensures s[1..][i] != s[1..][j]
    {
      assert s[1..][i] == s[i + 1] && s[1..][j] == s[j + 1];
    }
    forall m | 0 <= m < |s[1..]|
      ensures s[1..][m] != s[0]
    {
      assert s[1..][m] == s[m + 1];
    }
  }

  lemma DistinctCons(x: string, w: seq<string>)
    requires Distinct(w) && x !in w
    ensures Distinct([x] + w)
  {
    var r := [x] + w;
    forall i, j | 0 <= i < j < |r|
      ensures r[i] != r[j]
    {
      assert r[j] == w[j - 1];
      if i > 0 {
        assert r[i] == w[i - 1];
      }
    }
  }

  /** Removing a key keeps the other keys distinct. */
  lemma {:induction false} WithoutKeeps(s: seq<string>, k: string)
    requires Distinct(s)
    ensures Distinct(Without(s, k))
    decreases |s|
  {
    if s != [] {
      DistinctTail(s);
      WithoutKeeps(s[1..], k);
      if s[0] != k {
        DistinctCons(s[0], Without(s[1..], k));
      }
    }
  }
}
