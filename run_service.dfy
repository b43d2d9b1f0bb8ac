/** The test-run lifecycle: create, look up, finish, abort and list runs.
    A run starts `Running`; finishing is refused only for a run that is
    already `Completed` (an aborted run can still be finished), and aborting
    is never refused for a stored run. */
module RunService {
  import opened Common
  import opened Models
  import opened Listing
  import opened Store

  /** `create_run`: a new running run started now. The project reference is
      stored as given; nothing checks that the project exists. */
  method CreateRun(st: Store, name: string, projectId: Option<Id>, now: Time) returns (id: Id, run: TestRun)
    requires st.Valid()
    modifies st
    ensures st.Valid()
    ensures id !in old(st.runs)
    ensures run.name == name && run.status == Running && run.projectId == projectId
    ensures run.startTime == now && run.endTime == None && Duration(run) == None
    ensures st.Contents() == old(st.Contents()).(runs := old(st.runs)[id := run])
  {
    id := st.FreshId();
    run := TestRun(name, Running, now, None, projectId);
    st.runs := st.runs[id := run];
  }

  /** What `finish_run` does: the run it saves, or the error it raises. */
  function FinishOutcome(runs: map<Id, TestRun>, runId: Id, now: Time): (r: Result<TestRun>)
    ensures runId !in runs ==> r == Err(RunNotFound(runId))
    ensures runId in runs && runs[runId].status == Completed ==> r == Err(RunAlreadyCompleted(runId))
    ensures r.Ok? <==> runId in runs && runs[runId].status != Completed
    ensures r.Ok? ==> r.value.status == Completed && r.value.endTime == Some(now)
    ensures r.Ok? ==> r.value.name == runs[runId].name && r.value.startTime == runs[runId].startTime
                      && r.value.projectId == runs[runId].projectId
  {
    if runId !in runs then Err(RunNotFound(runId))
    else if runs[runId].status == Completed then Err(RunAlreadyCompleted(runId))
    else Ok(runs[runId].(status := Completed, endTime := Some(now)))
  }

  /** `finish_run`: on success only that run changes; on failure nothing. */
  method FinishRun(st: Store, runId: Id, now: Time) returns (r: Result<TestRun>)
    requires st.Valid()
    modifies st
    ensures st.Valid() && st.nextId == old(st.nextId)
    ensures r == FinishOutcome(old(st.runs), runId, now)
    ensures r.Err? ==> st.Contents() == old(st.Contents())
    ensures r.Ok? ==> st.Contents() == old(st.Contents()).(runs := old(st.runs)[runId := r.value])
  {
    var found := Get(st.runs, runId);
    if found.None? {
      return Err(RunNotFound(runId));
    }
    if found.value.status == Completed {
      return Err(RunAlreadyCompleted(runId));
    }
    var run := found.value.(status := Completed, endTime := Some(now));
    st.runs := st.runs[runId := run];
    r := Ok(run);
  }

  /** What `abort_run` does: any stored run, whatever its status, becomes
      aborted now. */
  function AbortOutcome(runs: map<Id, TestRun>, runId: Id, now: Time): (r: Result<TestRun>)
    ensures r.Ok? <==> runId in runs
    ensures r.Err? ==> r.error == RunNotFound(runId)
    ensures r.Ok? ==> r.value.status == Aborted && r.value.endTime == Some(now)
    ensures r.Ok? ==> r.value.name == runs[runId].name && r.value.startTime == runs[runId].startTime
                      && r.value.projectId == runs[runId].projectId
  {
    if runId !in runs then Err(RunNotFound(runId))
    else Ok(runs[runId].(status := Aborted, endTime := Some(now)))
  }

  /** `abort_run`: no status guard. */
  method AbortRun(st: Store, runId: Id, now: Time) returns (r: Result<TestRun>)
    requires st.Valid()
    modifies st
    ensures st.Valid() && st.nextId == old(st.nextId)
    ensures r == AbortOutcome(old(st.runs), runId, now)
    ensures r.Err? ==> st.Contents() == old(st.Contents())
    ensures r.Ok? ==> st.Contents() == old(st.Contents()).(runs := old(st.runs)[runId := r.value])
  {
    var found := Get(st.runs, runId);
    if found.None? {
      return Err(RunNotFound(runId));
    }
    var run := found.value.(status := Aborted, endTime := Some(now));
    st.runs := st.runs[runId := run];
    r := Ok(run);
  }

  /** Sort key of `sort("-start_time")`. */
  function NewestFirst(runs: map<Id, TestRun>): Id -> int
  {
    id => if id in runs then -runs[id].startTime else 0
  }

  /** What `list_runs` promises about its result `r`: `limit` runs (all of
      them when the limit is 0 or not reached), each once, most recently
      started first, and no run left out started later than one listed. */
  predicate RunListing(runs: map<Id, TestRun>, limit: nat, r: seq<Id>)
  {
    && |r| == (if limit == 0 || |runs| <= limit then |runs| else limit)
    && (forall i :: 0 <= i < |r| ==> r[i] in runs)
    && (forall i, j :: 0 <= i < j < |r| ==> r[i] != r[j] && runs[r[i]].startTime >= runs[r[j]].startTime)
    && (forall id, i :: id in runs && id !in r && 0 <= i < |r| ==> runs[r[i]].startTime >= runs[id].startTime)
  }

  /** `list_runs`: the `limit` most recently started runs, newest first
      (a limit of 0 lists every run). */
  function ListRuns(runs: map<Id, TestRun>, limit: nat): (r: seq<Id>)
    ensures RunListing(runs, limit, r)
  {
    var r := Limit(SortedBy(runs.Keys, NewestFirst(runs)), limit);
    LimitOfSorted(runs.Keys, NewestFirst(runs), limit);
    ListedNewestFirst(runs, r);
    LeftOutNotNewer(runs, r);
    r
  }

  lemma ListedNewestFirst(runs: map<Id, TestRun>, r: seq<Id>)
    requires forall i :: 0 <= i < |r| ==> r[i] in runs
    requires forall i, j :: 0 <= i < j < |r| ==> Precedes(NewestFirst(runs), r[i], r[j])
    ensures forall i, j :: 0 <= i < j < |r| ==> runs[r[i]].startTime >= runs[r[j]].startTime
  {
    forall i, j | 0 <= i < j < |r|
      ensures runs[r[i]].startTime >= runs[r[j]].startTime
    {
      NewestFirstOrder(runs, r[i], r[j]);
    }
  }

  lemma LeftOutNotNewer(runs: map<Id, TestRun>, r: seq<Id>)
    requires forall i :: 0 <= i < |r| ==> r[i] in runs
    requires forall x, i :: x in runs.Keys && x !in r && 0 <= i < |r| ==> Precedes(NewestFirst(runs), r[i], x)
    ensures forall id, i :: id in runs && id !in r && 0 <= i < |r| ==> runs[r[i]].startTime >= runs[id].startTime
  {
    forall id, i | id in runs && id !in r && 0 <= i < |r|
      ensures runs[r[i]].startTime >= runs[id].startTime
    {
      NewestFirstOrder(runs, r[i], id);
    }
  }

  lemma NewestFirstOrder(runs: map<Id, TestRun>, a: Id, b: Id)
    requires a in runs && b in runs && Precedes(NewestFirst(runs), a, b)
    ensures runs[a].startTime >= runs[b].startTime
  {
  }

  /** Scenario: a second finish is refused and the first end time stays. */
  lemma FinishTwice(runs: map<Id, TestRun>, runId: Id, t1: Time, t2: Time)
    requires FinishOutcome(runs, runId, t1).Ok?
    ensures var once := runs[runId := FinishOutcome(runs, runId, t1).value];
      FinishOutcome(once, runId, t2) == Err(RunAlreadyCompleted(runId))
      && once[runId].endTime == Some(t1) && Duration(once[runId]).Some?
  {
  }
}
