/** Statistics over recorded test cases: the per-run and global partition
    by outcome, the success rate, and the dashboard listing of runs with
    their counts. None of these write to the store. */
module StatsService {
  import opened Common
  import opened Models
  import opened Store
  import RunService
  import CaseService

  /** One row of the `$group` aggregation by status: a status and how many
      of the matched cases carry it. */
  datatype Group = Group(status: string, count: nat)

  /** The matched cases with the given status. */
  function WithStatus(cases: map<Id, TestCase>, ids: set<Id>, status: string): set<Id>
  {
    set c | c in ids && c in cases && cases[c].status == status
  }

  /** What the aggregation returns for the matched cases `ids`, in an order
      the store does not specify: one row per status present, with its count. */
  ghost predicate GroupedByStatus(groups: seq<Group>, cases: map<Id, TestCase>, ids: set<Id>)
  {
    && (forall i, j :: 0 <= i < j < |groups| ==> groups[i].status != groups[j].status)
    && (forall i :: 0 <= i < |groups| ==> groups[i].count == |WithStatus(cases, ids, groups[i].status)|)
    && (forall c :: c in ids && c in cases ==> exists i :: 0 <= i < |groups| && groups[i].status == cases[c].status)
  }

  /** The value the `counts` dictionary holds for `status` after the loop
      has seen `groups`: the count of the last row with that status, or 0. */
  function LastCount(groups: seq<Group>, status: string): nat
  {
    if groups == [] then 0
    else if groups[|groups| - 1].status == status then groups[|groups| - 1].count
    else LastCount(groups[..|groups| - 1], status)
  }

  lemma {:induction false} LastCountOfRow(groups: seq<Group>, i: nat)
    requires i < |groups|
    requires forall a, b :: 0 <= a < b < |groups| ==> groups[a].status != groups[b].status
    ensures LastCount(groups, groups[i].status) == groups[i].count
  {
    if i < |groups| - 1 {
      LastCountOfRow(groups[..|groups| - 1], i);
    }
  }

  lemma {:induction false} LastCountAbsent(groups: seq<Group>, status: string)
    requires forall i :: 0 <= i < |groups| ==> groups[i].status != status
    ensures LastCount(groups, status) == 0
  {
    if groups != [] {
      LastCountAbsent(groups[..|groups| - 1], status);
    }
  }

  /** Over a faithful aggregation, the loop's value for a status is the
      number of matched cases with that status. */
  lemma LastCountIsCount(groups: seq<Group>, cases: map<Id, TestCase>, ids: set<Id>, status: string)
    requires GroupedByStatus(groups, cases, ids)
    ensures LastCount(groups, status) == |WithStatus(cases, ids, status)|
  {
    if i :| 0 <= i < |groups| && groups[i].status == status {
      LastCountOfRow(groups, i);
    } else {
      LastCountAbsent(groups, status);
      forall c | c in ids && c in cases
        ensures cases[c].status != status
      {
        var k :| 0 <= k < |groups| && groups[k].status == cases[c].status;
      }
      assert WithStatus(cases, ids, status) == {};
    }
  }

  /** The loop over the aggregation rows (`for r in results`): each row
      whose status is one of the three outcomes sets that outcome's count;
      other statuses are ignored. */
  method CountOutcomes(groups: seq<Group>) returns (passed: nat, failed: nat, skipped: nat)
    ensures passed == LastCount(groups, PASSED)
    ensures failed == LastCount(groups, FAILED)
    ensures skipped == LastCount(groups, SKIPPED)
  {
    passed, failed, skipped := 0, 0, 0;
    var i := 0;
    while i < |groups|
      invariant 0 <= i <= |groups|
      invariant passed == LastCount(groups[..i], PASSED)
      invariant failed == LastCount(groups[..i], FAILED)
      invariant skipped == LastCount(groups[..i], SKIPPED)
    {
      var row := groups[i];
      assert groups[..i + 1][..i] == groups[..i];
      if row.status == PASSED {
        passed := row.count;
      } else if row.status == FAILED {
        failed := row.count;
      } else if row.status == SKIPPED {
        skipped := row.count;
      }
      i := i + 1;
    }
    assert groups[..i] == groups;
  }

  /** `passed / total * 100`, and 0.0 when there is nothing to divide by. */
  function SuccessRate(passed: nat, total: nat): (r: real)
    ensures total == 0 ==> r == 0.0
    ensures passed <= total ==> 0.0 <= r <= 100.0
    ensures total > 0 ==> r * (total as real) == (passed as real) * 100.0
  {
    if total > 0 then (passed as real) / (total as real) * 100.0 else 0.0
  }

  datatype RunStats = RunStats(total: nat, passed: nat, failed: nat, skipped: nat, successRate: real)

  /** The cases of a run, or of the whole store, that one of the three
      outcomes accounts for. */
  function Counted(cases: map<Id, TestCase>, ids: set<Id>): set<Id>
  {
    WithStatus(cases, ids, PASSED) + WithStatus(cases, ids, FAILED) + WithStatus(cases, ids, SKIPPED)
  }

  /** The three outcome groups are disjoint, so their counts add up to the
      number of counted cases, which is at most the number of matched ones. */
  lemma PartitionCounts(cases: map<Id, TestCase>, ids: set<Id>)
    ensures |WithStatus(cases, ids, PASSED)| + |WithStatus(cases, ids, FAILED)| + |WithStatus(cases, ids, SKIPPED)|
            == |Counted(cases, ids)|
    ensures |Counted(cases, ids)| <= |ids|
  {
    var p := WithStatus(cases, ids, PASSED);
    var f := WithStatus(cases, ids, FAILED);
    var s := WithStatus(cases, ids, SKIPPED);
    assert p !! f && p !! s && f !! s;
    assert |p + f| == |p| + |f|;
    assert Counted(cases, ids) <= ids;
    SubsetCard(Counted(cases, ids), ids);
  }

  lemma SubsetCard(a: set<Id>, b: set<Id>)
    requires a <= b
    ensures |a| <= |b|
  {
    assert b == a + (b - a);
  }

  /** `calculate_run_statistics`: all zeros for an unknown run; otherwise
      the outcome counts of the run's cases, their sum as the total (cases
      with any other status are not counted) and the success rate. */
  method CalculateRunStatistics(st: Store, runId: Id, groups: seq<Group>) returns (s: RunStats)
    requires runId in st.runs ==> GroupedByStatus(groups, st.cases, CaseService.RunCases(st.cases, runId))
    ensures runId !in st.runs ==> s == RunStats(0, 0, 0, 0, 0.0)
    ensures runId in st.runs ==>
      var ids := CaseService.RunCases(st.cases, runId);
      && s.passed == |WithStatus(st.cases, ids, PASSED)|
      && s.failed == |WithStatus(st.cases, ids, FAILED)|
      && s.skipped == |WithStatus(st.cases, ids, SKIPPED)|
      && s.total == |Counted(st.cases, ids)| <= |ids|
    ensures s.total == s.passed + s.failed + s.skipped
    ensures s.successRate == SuccessRate(s.passed, s.total) && 0.0 <= s.successRate <= 100.0
  {
    var found := Get(st.runs, runId);
    if found.None? {
      return RunStats(0, 0, 0, 0, 0.0);
    }
    var passed, failed, skipped := CountOutcomes(groups);
    var ids := CaseService.RunCases(st.cases, runId);
    LastCountIsCount(groups, st.cases, ids, PASSED);
    LastCountIsCount(groups, st.cases, ids, FAILED);
    LastCountIsCount(groups, st.cases, ids, SKIPPED);
    PartitionCounts(st.cases, ids);
    var total := passed + failed + skipped;
    s := RunStats(total, passed, failed, skipped, SuccessRate(passed, total));
  }

  datatype GlobalStats = GlobalStats(totalRuns: nat, totalTests: nat, passed: nat, failed: nat, skipped: nat,
                                     successRate: real)

  /** `calculate_global_statistics`: the total counts every case whatever
      its status, and the success rate divides by that total. */
  method CalculateGlobalStatistics(st: Store, groups: seq<Group>) returns (g: GlobalStats)
    requires GroupedByStatus(groups, st.cases, st.cases.Keys)
    ensures g.totalRuns == |st.runs| && g.totalTests == |st.cases|
    ensures g.passed == |WithStatus(st.cases, st.cases.Keys, PASSED)|
    ensures g.failed == |WithStatus(st.cases, st.cases.Keys, FAILED)|
    ensures g.skipped == |WithStatus(st.cases, st.cases.Keys, SKIPPED)|
    ensures g.passed + g.failed + g.skipped <= g.totalTests
    ensures g.successRate == SuccessRate(g.passed, g.totalTests) && 0.0 <= g.successRate <= 100.0
  {
    var totalRuns := |st.runs|;
    var totalCases := |st.cases|;
    var passed, failed, skipped := CountOutcomes(groups);
    LastCountIsCount(groups, st.cases, st.cases.Keys, PASSED);
    LastCountIsCount(groups, st.cases, st.cases.Keys, FAILED);
    LastCountIsCount(groups, st.cases, st.cases.Keys, SKIPPED);
    PartitionCounts(st.cases, st.cases.Keys);
    g := GlobalStats(totalRuns, totalCases, passed, failed, skipped, SuccessRate(passed, totalCases));
  }

  /** A run as the dashboard shows it. */
  datatype RunWithStats = RunWithStats(
    id: Id,
    name: string,
    status: RunStatus,
    startTime: Time,
    endTime: Option<Time>,
    duration: int,
    projectId: Option<Id>,
    project: Option<Project>,
    testCount: nat,
    passedCount: nat,
    failedCount: nat,
    skippedCount: nat)

  /** `TestCase.find({"run_id": ..., "status": ...}).count()`. */
  function StatusCount(cases: map<Id, TestCase>, runId: Id, status: string): (n: nat)
    ensures n == |set c | c in cases && cases[c].runId == runId && cases[c].status == status|
  {
    var matched := WithStatus(cases, CaseService.RunCases(cases, runId), status);
    assert matched == set c | c in cases && cases[c].runId == runId && cases[c].status == status;
    |matched|
  }

  /** One dashboard row: the run's own fields, its duration (0 while it
      has no end time), its project when the reference resolves, and its
      outcome counts with their sum as the test count. */
  function Enriched(runs: map<Id, TestRun>, projects: map<Id, Project>, cases: map<Id, TestCase>, id: Id)
    : (w: RunWithStats)
    requires id in runs
    ensures w.id == id && w.name == runs[id].name && w.status == runs[id].status
    ensures w.startTime == runs[id].startTime && w.endTime == runs[id].endTime && w.projectId == runs[id].projectId
    ensures runs[id].endTime.None? ==> w.duration == 0
    ensures runs[id].endTime.Some? ==> Duration(runs[id]) == Some(w.duration)
    ensures w.project.Some? <==> runs[id].projectId.Some? && runs[id].projectId.value in projects
    ensures w.project.Some? ==> w.project.value == projects[runs[id].projectId.value]
    ensures w.passedCount == StatusCount(cases, id, PASSED)
    ensures w.failedCount == StatusCount(cases, id, FAILED)
    ensures w.skippedCount == StatusCount(cases, id, SKIPPED)
    ensures w.testCount == w.passedCount + w.failedCount + w.skippedCount <= |CaseService.RunCases(cases, id)|
  {
    var run := runs[id];
    var project := if run.projectId.Some? then Get(projects, run.projectId.value) else None;
    var passed := StatusCount(cases, id, PASSED);
    var failed := StatusCount(cases, id, FAILED);
    var skipped := StatusCount(cases, id, SKIPPED);
    PartitionCounts(cases, CaseService.RunCases(cases, id));
    var d := Duration(run);
    RunWithStats(id, run.name, run.status, run.startTime, run.endTime, if d.Some? then d.value else 0,
                 run.projectId, project, passed + failed + skipped, passed, failed, skipped)
  }

  /** `list_runs_with_stats`: the runs `list_runs` gives, in its order, each
      enriched with its statistics. */
  method ListRunsWithStats(st: Store, limit: nat) returns (r: seq<RunWithStats>)
    ensures |r| == |RunService.ListRuns(st.runs, limit)|
    ensures forall i :: 0 <= i < |r| ==>
      r[i] == Enriched(st.runs, st.projects, st.cases, RunService.ListRuns(st.runs, limit)[i])
  {
    var runs := RunService.ListRuns(st.runs, limit);
    r := EnrichAll(st.runs, st.projects, st.cases, runs);
  }

  /** The loop of `list_runs_with_stats`, appending one row per listed run. */
  method EnrichAll(runs: map<Id, TestRun>, projects: map<Id, Project>, cases: map<Id, TestCase>, ids: seq<Id>)
    returns (r: seq<RunWithStats>)
    requires forall i :: 0 <= i < |ids| ==> ids[i] in runs
    ensures |r| == |ids|
    ensures forall i :: 0 <= i < |r| ==> r[i] == Enriched(runs, projects, cases, ids[i])
  {
    r := [];
    var i := 0;
    while i < |ids|
      invariant 0 <= i <= |ids|
      invariant |r| == i
      invariant forall k :: 0 <= k < i ==> r[k] == Enriched(runs, projects, cases, ids[k])
    {
      r := r + [Enriched(runs, projects, cases, ids[i])];
      i := i + 1;
    }
  }
}
