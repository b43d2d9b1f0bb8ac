/** The document records of the store (one datatype per collection), their
    enumerations and the properties derived from a single record. */
module Models {
  import opened Common

  /** Lifecycle states of a test run. */
  datatype RunStatus = Running | Completed | Aborted

  /** The three outcome strings of a test case or step. The record fields
      themselves are free strings, as in the documents. */
  const PASSED: string := "passed"
  const FAILED: string := "failed"
  const SKIPPED: string := "skipped"

  /** Definition priority levels; the document field is a free string. */
  const PRIORITY_CRITICAL: string := "critical"
  const PRIORITY_HIGH: string := "high"
  const PRIORITY_MEDIUM: string := "medium"
  const PRIORITY_LOW: string := "low"

  datatype Project = Project(
    name: string,
    description: Option<string>,
    createdAt: Time)

  datatype Epic = Epic(
    projectId: Id,
    name: string,
    description: Option<string>,
    externalRef: Option<string>,
    createdAt: Time)

  datatype Feature = Feature(
    epicId: Id,
    name: string,
    description: Option<string>,
    createdAt: Time)

  /** One planned step of a definition, stored exactly as supplied. */
  datatype StepSpec = StepSpec(description: string, order: int)

  datatype Definition = Definition(
    featureId: Id,
    title: string,
    description: Option<string>,
    preconditions: Option<string>,
    steps: seq<StepSpec>,
    expectedResult: Option<string>,
    priority: string,
    isActive: bool,
    createdAt: Time,
    updatedAt: Time)

  datatype TestRun = TestRun(
    name: string,
    status: RunStatus,
    startTime: Time,
    endTime: Option<Time>,
    projectId: Option<Id>)

  /** A step embedded in its test case (no collection of its own). */
  datatype TestStep = TestStep(description: string, status: string, orderIndex: int)

  datatype TestCase = TestCase(
    runId: Id,
    name: string,
    status: string,
    duration: Option<int>,
    errorMessage: Option<string>,
    errorStack: Option<string>,
    screenshotPath: Option<string>,
    createdAt: Time,
    definitionId: Option<Id>,
    steps: seq<TestStep>)

  /** Microseconds as whole milliseconds, truncated toward zero the way
      `int()` truncates a float. */
  function MillisOf(micros: int): (ms: int)
    ensures micros >= 0 ==> 0 <= ms && ms * 1000 <= micros < ms * 1000 + 1000
    ensures micros < 0 ==> ms <= 0 && micros <= ms * 1000 < micros + 1000
  {
    if micros >= 0 then micros / 1000 else -((-micros) / 1000)
  }

  /** The derived `duration` of a run in whole milliseconds: undefined while
      the run has no end time, otherwise the elapsed time truncated toward
      zero (negative if the clock went backwards). */
  function Duration(run: TestRun): (d: Option<int>)
    ensures d.None? <==> run.endTime.None?
    ensures d.Some? && run.startTime <= run.endTime.value ==>
      0 <= d.value && d.value * 1000 <= run.endTime.value - run.startTime < d.value * 1000 + 1000
    ensures d.Some? && run.endTime.value < run.startTime ==>
      d.value <= 0 && run.endTime.value - run.startTime <= d.value * 1000 < run.endTime.value - run.startTime + 1000
  {
    match run.endTime
    case None => None
    case Some(end) => Some(MillisOf(end - run.startTime))
  }

  /** `has_screenshot`: the stored path is neither None nor empty. */
  predicate HasScreenshot(c: TestCase)
  {
    Truthy(c.screenshotPath)
  }

  /** `step_count`. */
  function StepCount(c: TestCase): nat
  {
    |c.steps|
  }
}
