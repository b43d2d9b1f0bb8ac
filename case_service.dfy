/** Recording test cases with their embedded steps, the checkpoint query
    used by a recovering client, the case listings and hard deletion. */
module CaseService {
  import opened Common
  import opened Models
  import opened Listing
  import opened Store

  /** One submitted step; its position in the submitted list is its order. */
  datatype StepData = StepData(description: string, status: string)

  /** The `case_data` dictionary given to `create_test_case`. A `steps` of
      None stands for a dictionary without that key; a `definitionId` of
      None for an absent, null or empty `definition_id`. */
  datatype CaseData = CaseData(
    name: string,
    status: string,
    duration: Option<int>,
    errorMessage: Option<string>,
    errorStack: Option<string>,
    steps: Option<seq<StepData>>,
    definitionId: Option<Id>)

  /** The steps of a case data dictionary: `case_data.get("steps", [])`. */
  function SubmittedSteps(data: CaseData): seq<StepData>
  {
    if data.steps.Some? then data.steps.value else []
  }

  /** The embedded steps built from the submitted ones, numbered by their
      position: step i gets order index i whatever the caller sent. */
  function NumberSteps(steps: seq<StepData>): (r: seq<TestStep>)
    ensures |r| == |steps|
    ensures forall i :: 0 <= i < |r| ==> r[i].orderIndex == i
  {
    seq(|steps|, i requires 0 <= i < |steps| => TestStep(steps[i].description, steps[i].status, i))
  }

  /** What a stored step says about the submitted one, its number dropped. */
  function Unnumbered(steps: seq<TestStep>): (r: seq<StepData>)
    ensures |r| == |steps|
  {
    if steps == [] then [] else [StepData(steps[0].description, steps[0].status)] + Unnumbered(steps[1..])
  }

  /** Numbering loses nothing: the stored steps give back the submitted list,
      in submission order. */
  lemma {:induction false} NumberingRoundTrip(steps: seq<StepData>)
    ensures Unnumbered(NumberSteps(steps)) == steps
  {
    UnnumberedAt(NumberSteps(steps));
  }

  lemma {:induction false} UnnumberedAt(steps: seq<TestStep>)
    ensures forall i :: 0 <= i < |steps| ==>
      Unnumbered(steps)[i] == StepData(steps[i].description, steps[i].status)
  {
    if steps != [] {
      UnnumberedAt(steps[1..]);
      assert forall i :: 0 < i < |steps| ==> Unnumbered(steps)[i] == Unnumbered(steps[1..])[i - 1];
    }
  }

  /** The set of order indices of a step list. */
  function OrderIndices(steps: seq<TestStep>): set<int>
  {
    set s | s in steps :: s.orderIndex
  }

  /** The order indices of the stored steps are exactly 0 .. n-1. */
  lemma NumberingIsDense(steps: seq<StepData>)
    ensures forall k :: k in OrderIndices(NumberSteps(steps)) <==> 0 <= k < |steps|
  {
    var r := NumberSteps(steps);
    forall k | 0 <= k < |steps| ensures k in OrderIndices(r) {
      assert r[k] in r;
    }
  }

  /** `create_test_case`: inserts the case with its numbered steps. The run
      and the definition reference are stored as given, without checking
      that they exist; `created_at` is not passed, so the case gets the
      field's default, the reading taken when the record class was loaded. */
  method CreateTestCase(st: Store, runId: Id, data: CaseData, screenshotPath: Option<string>)
    returns (id: Id, c: TestCase)
    requires st.Valid()
    modifies st
    ensures st.Valid()
    ensures id !in old(st.cases)
    ensures c.runId == runId && c.name == data.name && c.status == data.status
    ensures c.duration == data.duration && c.errorMessage == data.errorMessage && c.errorStack == data.errorStack
    ensures c.screenshotPath == screenshotPath && c.definitionId == data.definitionId
    ensures c.createdAt == st.importTime
    ensures c.steps == NumberSteps(SubmittedSteps(data)) && StepCount(c) == |SubmittedSteps(data)|
    ensures st.Contents() == old(st.Contents()).(cases := old(st.cases)[id := c])
  {
    var steps := NumberSteps(SubmittedSteps(data));
    c := TestCase(runId, data.name, data.status, data.duration, data.errorMessage, data.errorStack,
                  screenshotPath, st.importTime, data.definitionId, steps);
    id := st.FreshId();
    st.cases := st.cases[id := c];
  }

  /** The ids of the cases recorded for a run. */
  function RunCases(cases: map<Id, TestCase>, runId: Id): set<Id>
  {
    set id | id in cases && cases[id].runId == runId
  }

  /** The names of the listed cases, in listing order. */
  function NamesOf(cases: map<Id, TestCase>, ids: seq<Id>): (r: seq<string>)
    requires forall i :: 0 <= i < |ids| ==> ids[i] in cases
    ensures |r| == |ids|
  {
    if ids == [] then [] else [cases[ids[0]].name] + NamesOf(cases, ids[1..])
  }

  /** The listed cases that carry a given name. */
  function ListedWithName(cases: map<Id, TestCase>, ids: seq<Id>, n: string): set<Id>
    requires forall i :: 0 <= i < |ids| ==> ids[i] in cases
  {
    set id | id in ids && cases[id].name == n
  }

  /** Each name occurs in a listing as often as cases of that name are listed. */
  lemma {:induction false} NameMultiplicity(cases: map<Id, TestCase>, ids: seq<Id>, n: string)
    requires forall i :: 0 <= i < |ids| ==> ids[i] in cases
    requires forall i, j :: 0 <= i < j < |ids| ==> ids[i] != ids[j]
    ensures multiset(NamesOf(cases, ids))[n] == |ListedWithName(cases, ids, n)|
  {
    if ids != [] {
      var tail := ids[1..];
      assert forall k :: 0 <= k < |tail| ==> tail[k] == ids[k + 1];
      ListedWithNameSplit(cases, ids, n);
      NameMultiplicity(cases, tail, n);
      assert NamesOf(cases, ids) == [cases[ids[0]].name] + NamesOf(cases, tail);
    }
  }

  /** The listed cases of a name are the first one, if it has that name,
      and those among the rest. */
  lemma ListedWithNameSplit(cases: map<Id, TestCase>, ids: seq<Id>, n: string)
    requires ids != []
    requires forall i :: 0 <= i < |ids| ==> ids[i] in cases
    requires forall i, j :: 0 <= i < j < |ids| ==> ids[i] != ids[j]
    ensures ids[0] !in ListedWithName(cases, ids[1..], n)
    ensures ListedWithName(cases, ids, n)
            == ListedWithName(cases, ids[1..], n) + (if cases[ids[0]].name == n then {ids[0]} else {})
  {
    var tail := ids[1..];
    assert forall k :: 0 <= k < |tail| ==> tail[k] == ids[k + 1];
    assert forall x :: x in ids <==> x == ids[0] || x in tail by {
      assert ids == [ids[0]] + tail;
    }
  }

  /** `get_completed_case_names` (the checkpoint): one name per case of the
      run, in insertion order, duplicates kept; cases of other runs are left
      out. */
  function CompletedCaseNames(cases: map<Id, TestCase>, runId: Id): (r: seq<string>)
    ensures |r| == |RunCases(cases, runId)|
    ensures forall n :: multiset(r)[n] == |set id | id in cases && cases[id].runId == runId && cases[id].name == n|
  {
    var ids := NaturalOrder(RunCases(cases, runId));
    RunCasesListed(cases, runId);
    forall n ensures multiset(NamesOf(cases, ids))[n]
                     == |set id | id in cases && cases[id].runId == runId && cases[id].name == n| {
      CheckpointMultiplicity(cases, runId, n);
    }
    NamesOf(cases, ids)
  }

  lemma RunCasesListed(cases: map<Id, TestCase>, runId: Id)
    ensures var ids := NaturalOrder(RunCases(cases, runId));
      forall i :: 0 <= i < |ids| ==> ids[i] in cases && cases[ids[i]].runId == runId
  {
    var ids := NaturalOrder(RunCases(cases, runId));
    forall i | 0 <= i < |ids| ensures ids[i] in RunCases(cases, runId) {
      assert ids[i] in ids;
    }
  }

  lemma CheckpointMultiplicity(cases: map<Id, TestCase>, runId: Id, n: string)
    ensures var ids := NaturalOrder(RunCases(cases, runId));
      (forall i :: 0 <= i < |ids| ==> ids[i] in cases)
      && multiset(NamesOf(cases, ids))[n] == |set id | id in cases && cases[id].runId == runId && cases[id].name == n|
  {
    var ids := NaturalOrder(RunCases(cases, runId));
    RunCasesListed(cases, runId);
    NameMultiplicity(cases, ids, n);
    var listed := ListedWithName(cases, ids, n);
    var stored := set id | id in cases && cases[id].runId == runId && cases[id].name == n;
    forall id | id in stored ensures id in listed {
      assert id in RunCases(cases, runId);
    }
    assert listed == stored;
  }

  /** Whether a case passes the optional status filter (an empty filter is
      no filter). */
  predicate StatusMatches(c: TestCase, statusFilter: Option<string>)
  {
    !Truthy(statusFilter) || c.status == statusFilter.value
  }

  /** `get_cases_by_run`: the run's cases, restricted to the status filter
      when one is given, oldest first. */
  function CasesByRun(cases: map<Id, TestCase>, runId: Id, statusFilter: Option<string>): (r: seq<Id>)
    ensures forall id :: id in r <==> id in cases && cases[id].runId == runId && StatusMatches(cases[id], statusFilter)
    ensures forall i, j :: 0 <= i < j < |r| ==> (r[i] != r[j] &&
      (cases[r[i]].createdAt < cases[r[j]].createdAt || (cases[r[i]].createdAt == cases[r[j]].createdAt && r[i] < r[j])))
  {
    var ids := set id | id in cases && cases[id].runId == runId && StatusMatches(cases[id], statusFilter);
    OldestFirstOf(cases, ids, (c: TestCase) => c.createdAt)
  }

  /** When every case carries the same `created_at` (what `CreateTestCase`
      stores), the sort by `created_at` leaves the cases in insertion order. */
  lemma SameStampListsInInsertionOrder(cases: map<Id, TestCase>, runId: Id, statusFilter: Option<string>, t: Time)
    requires forall id :: id in cases ==> cases[id].createdAt == t
    ensures var r := CasesByRun(cases, runId, statusFilter);
      forall i, j :: 0 <= i < j < |r| ==> r[i] < r[j]
  {
  }

  /** `get_cases_by_definition`: every execution linked to the definition,
      newest first. */
  function CasesByDefinition(cases: map<Id, TestCase>, definitionId: Id): (r: seq<Id>)
    ensures forall id :: id in r <==> id in cases && cases[id].definitionId == Some(definitionId)
    ensures forall i, j :: 0 <= i < j < |r| ==> r[i] != r[j] && cases[r[i]].createdAt >= cases[r[j]].createdAt
  {
    var ids := set id | id in cases && cases[id].definitionId == Some(definitionId);
    NewestFirstOf(cases, ids, (c: TestCase) => c.createdAt)
  }

  /** The state of the screenshot file when a case is deleted. */
  datatype FileState = FileAbsent | FileRemovable | RemoveFailsWithOSError

  /** What happened to the screenshot, as the service logs it. */
  datatype Cleanup = NoScreenshot | NotOnDisk | Deleted | DeleteFailed

  /** The best-effort screenshot removal of `delete_test_case`. */
  function ScreenshotCleanup(c: TestCase, file: FileState): (r: Cleanup)
    ensures r == NoScreenshot <==> !HasScreenshot(c)
    ensures r == Deleted <==> HasScreenshot(c) && file == FileRemovable
    ensures r == DeleteFailed <==> HasScreenshot(c) && file == RemoveFailsWithOSError
  {
    if !HasScreenshot(c) then NoScreenshot
    else match file
      case FileAbsent => NotOnDisk
      case FileRemovable => Deleted
      case RemoveFailsWithOSError => DeleteFailed
  }

  /** `delete_test_case`: removes the case, and its embedded steps with it,
      whatever happens to its screenshot file. */
  method DeleteTestCase(st: Store, caseId: Id, file: FileState) returns (r: Result<Cleanup>)
    requires st.Valid()
    modifies st
    ensures st.Valid() && st.nextId == old(st.nextId)
    ensures caseId !in old(st.cases) ==> r == Err(CaseNotFound(caseId)) && st.Contents() == old(st.Contents())
    ensures caseId in old(st.cases) ==> r == Ok(ScreenshotCleanup(old(st.cases)[caseId], file))
    ensures caseId in old(st.cases) ==> st.Contents() == old(st.Contents()).(cases := old(st.cases) - {caseId})
  {
    var found := Get(st.cases, caseId);
    if found.None? {
      return Err(CaseNotFound(caseId));
    }
    var cleanup := ScreenshotCleanup(found.value, file);
    st.cases := st.cases - {caseId};
    r := Ok(cleanup);
  }
}
