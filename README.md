# RedstoneReporter service layer in Dafny

RedstoneReporter collects the results of automated test runs and the test
catalogue they belong to. A **project** contains **epics**. Epics contain
**features**, and features contain **test case definitions** (the catalogue).
A **test run** optionally belongs to a project. It collects **test cases**:
the executed results, each with embedded steps and an optional screenshot.
They can be linked to a definition.

This project models the service layer that reads and writes those documents.
The document store is one in-memory object, `Store.Store`. It holds one map
per collection (projects, epics, features, definitions, runs, cases) and a
counter that hands out fresh ids. Every service operation is written in the
form the source has:

- Operations that insert, patch or delete documents are methods on the
  store. Each one is specified by what the new contents are.
- Where the source decides between error and success, that decision is a
  pure outcome function. The method's `ensures` ties its result to that
  function (`FinishOutcome`, `DeleteEpicOutcome`, ...).
- Queries, counts and sorting are functions over the maps. Their meaning is
  proved against set comprehensions over the collections.
- The statistics loops are methods with loop invariants.

The modules follow the source files:

- `Common`: ids, times, `Option`/`Result`, the service errors and the
  sparse-update rule.
- `Models`: the document types and their derived properties.
- `Listing`: sorted and limited query results.
- `Store`: the store object.
- `Taxonomy`: the project → epic → feature → definition containment sets.
- `RunService`, `CaseService`, `ProjectService`, `EpicService`,
  `FeatureService`, `DefinitionService`, `ScreenshotService` and
  `StatsService`: one module per service file.
- `Text`: Python's `str.split` and `str.strip`.

Modelling conventions:

- **Ids.** An id is a `nat`. The model takes a larger id as a later
  insertion. ObjectIds order by a timestamp in seconds and then by a
  per-process counter, so this agrees with them within one server process
  or across different seconds. Documents with equal sort keys are listed in insertion order.
- **Time.** A time is an `int` of microseconds, the resolution of
  `datetime`. Every call to `datetime.utcnow()` becomes a `now` parameter.
- **Default creation stamps.** The document models declare their time
  stamps (`created_at`, the definitions' `updated_at`, the runs'
  `start_time`) with the default `datetime.utcnow()`, and that default is
  evaluated once, when the module is imported. All service functions except
  `create_test_case` pass an explicit time. So every test case created by
  one server process carries that process's import-time stamp
  (`Store.importTime`), and the model does so too.
  `CaseService.SameStampListsInInsertionOrder` shows the consequence: the
  run's `+created_at` listing degenerates to the tie order, which the model
  takes as insertion order.
- **Unique project names.** The unique index on project names
  (`models/project.py:10`) is part of the store's invariant. The duplicate-key
  failure it raises on insert and on save becomes the error
  `DuplicateProjectName`.
- **Run errors.** `run_service.py` raises `ValueError` for an unknown run and
  for a run that is already completed. The model names the two cases
  `RunNotFound` and `RunAlreadyCompleted`. `abort_run` has no status check, so
  a completed run can be aborted, and the model allows it too.

## Model

| member | source | states |
|---|---|---|
| Common.Get | app/services/run_service.py:22-24 | A lookup by id finds a document exactly when the id is stored, and returns that document |
| Common.Apply | app/services/definition_service.py:90-92 | A sparse update keeps the current value when the argument is None and takes the given value otherwise |
| Common.ApplyOptional | app/services/definition_service.py:90-92 | The same for optional fields: None never clears a field that is set |
| Models.MillisOf | app/models/test_run.py:23 | Microseconds become whole milliseconds truncated toward zero, as `int()` truncates, for both signs of the elapsed time |
| Models.Duration | app/models/test_run.py:19-24 | The duration is absent exactly when there is no end time; otherwise it is the elapsed time in milliseconds, truncated toward zero |
| Models.HasScreenshot | app/models/test_case.py:32-35 | `has_screenshot` is the truthiness of the stored path; its use in deletion is characterised by `CaseService.ScreenshotCleanup` |
| Models.StepCount | app/models/test_case.py:37-40 | `step_count` is the number of stored steps, which `CaseService.CreateTestCase` sets to the number of submitted steps |
| Listing.SortedBy | app/services/run_service.py:43 | A sorted listing holds exactly the matching ids, once each, in ascending key order with ties in insertion order |
| Listing.NaturalOrder | app/services/case_service.py:49-51 | An unsorted `find` lists exactly the matching ids, once each, in insertion order |
| Listing.Limit | app/services/run_service.py:43 | `limit(n)` keeps the first n results; a limit of 0 or one at least the result size keeps them all |
| Listing.LimitOfSorted | app/services/run_service.py:43 | A limited sorted listing is sorted, and nothing it leaves out precedes anything it keeps |
| Listing.NewestFirstOf | app/services/project_service.py:29 | A `-created_at` listing holds exactly the matching ids, once each, newest first; equal stamps keep insertion order |
| Listing.OldestFirstOf | app/services/case_service.py:63 | A `+created_at` listing holds exactly the matching ids, once each, oldest first; equal stamps keep insertion order |
| Store.Store.constructor | app/models/project.py:10 | A fresh store is empty and satisfies the store invariant, including unique project names |
| Store.Store.FreshId | app/services/project_service.py:17 | An inserted document gets an id that no collection uses yet |
| Taxonomy.ActiveAmongAll | app/services/feature_service.py:69-80 | The active definitions under some features are a subset of all definitions under them, so the active count never exceeds the total |
| Taxonomy.UnderDisjointUnion | app/services/epic_service.py:76-83 | The definitions under two disjoint sets of features are the disjoint union of those under each set, and their counts add up |
| RunService.CreateRun | app/services/run_service.py:10-19 | A new run is running, starts now, has no end time or duration, keeps the optional project reference, and nothing else changes |
| RunService.FinishOutcome | app/services/run_service.py:27-38 | An unknown run is an error, and so is a run that is already completed. Otherwise the run becomes completed with end time now and keeps its name and start time |
| RunService.FinishRun | app/services/run_service.py:27-38 | Finishing stores exactly that outcome, and an error leaves the store unchanged |
| RunService.AbortOutcome | app/services/run_service.py:46-55 | Aborting fails only for an unknown run; it sets the status to aborted and the end time to now, whatever the previous status was |
| RunService.AbortRun | app/services/run_service.py:46-55 | Aborting stores exactly that outcome, and an error leaves the store unchanged |
| RunService.ListRuns | app/services/run_service.py:41-43 | The listing holds min(limit, number of runs) distinct runs, newest start first, and no run left out started later than one listed |
| RunService.NewestFirstOrder | app/services/run_service.py:43 | The listing's sort key puts later start times first |
| RunService.FinishTwice | app/services/run_service.py:32-33 | Once a run is finished, finishing it again is refused as already completed; the finished run has an end time and so a duration |
| CaseService.NumberSteps | app/services/case_service.py:21-28 | Submitted steps are stored one for one, and step i gets order index i |
| CaseService.Unnumbered | app/models/test_case.py:9-13 | Forgetting the order index keeps one entry per step |
| CaseService.NumberingRoundTrip | app/services/case_service.py:21-28 | Numbering keeps each step's description and status: removing the indices gives back the submitted steps |
| CaseService.UnnumberedAt | app/models/test_case.py:9-13 | Forgetting the indices keeps each step's description and status in place |
| CaseService.NumberingIsDense | app/services/case_service.py:25-27 | The order indices of a case's steps are exactly 0 up to the step count minus 1 |
| CaseService.CreateTestCase | app/services/case_service.py:15-44 | A new case gets a fresh id and stores the submitted fields, the screenshot path, the definition link and the numbered steps; its creation stamp is the import-time default; nothing else changes |
| CaseService.NamesOf | app/services/case_service.py:52 | The checkpoint lists one name per case |
| CaseService.NameMultiplicity | app/services/case_service.py:52 | A name occurs in the list of names as often as there are listed cases with that name |
| CaseService.CompletedCaseNames | app/services/case_service.py:47-52 | The checkpoint lists one name per case of the run, and each name as often as the run has cases with that name |
| CaseService.RunCasesListed | app/services/case_service.py:49-51 | The checkpoint query lists only cases of the run |
| CaseService.CheckpointMultiplicity | app/services/case_service.py:47-52 | The names the checkpoint returns count each name as often as the run's cases carry it |
| CaseService.CasesByRun | app/services/case_service.py:55-63 | The listing holds exactly the run's cases that pass the status filter (an empty filter passes all), each once, oldest first, equal stamps in insertion order |
| CaseService.SameStampListsInInsertionOrder | app/models/test_case.py:25 | When every case has the same creation stamp, the run listing is in insertion order |
| CaseService.CasesByDefinition | app/services/case_service.py:76-80 | The listing holds exactly the cases linked to the definition, each once, newest first |
| CaseService.ScreenshotCleanup | app/services/case_service.py:89-96 | A file removal is attempted exactly when the case has a non-empty screenshot path and the file exists; a failed removal is logged and does not stop the deletion |
| CaseService.DeleteTestCase | app/services/case_service.py:83-99 | An unknown case is an error and changes nothing; otherwise the case is removed, whatever happens to its screenshot file |
| ProjectService.CreateProject | app/services/project_service.py:14-19 | Creation fails exactly when the name is already taken, because the name index is unique. Otherwise the project is stored under a fresh id with the given name, description and time |
| ProjectService.ListProjects | app/services/project_service.py:27-29 | All projects, each once, newest first |
| ProjectService.PatchProject | app/services/project_service.py:37-39 | Given fields replace the stored ones, absent fields keep them, and the creation time is kept |
| ProjectService.UpdateProject | app/services/project_service.py:32-42 | An unknown project is an error. Otherwise the update succeeds exactly when the new name, if one is given, is not used by another project. Only that project changes |
| ProjectService.EpicCount | app/services/project_service.py:61-63 | The number of epics of the project; zero exactly when no epic refers to it |
| ProjectService.RunCount | app/services/project_service.py:54 | Zero exactly when no run refers to the project |
| ProjectService.TestDefinitionCount | app/services/project_service.py:66-77 | The number of definitions whose feature belongs to an epic of the project; the early returns for no epics and no features agree with it |
| ProjectService.ActiveTestDefinitionCount | app/services/project_service.py:80-93 | The number of active definitions under the project, never more than the total |
| ProjectService.SumOverEpicsCountsUnion | app/services/project_service.py:66-77 | Summing per-epic definition counts over distinct epics gives the count of their union |
| ProjectService.CountIsSumOverEpics | app/services/project_service.py:66-93 | A project's definition count, total or active, is the sum of its epics' counts |
| ProjectService.DeleteProjectOutcome | app/services/project_service.py:45-58 | An unknown project is an error. Epics are checked before runs, and each gives its own deletion-constraint error. Deletion is allowed exactly when no epic and no run refers to the project |
| ProjectService.DeleteProject | app/services/project_service.py:45-58 | Deleting stores exactly that outcome: only the project is removed, and an error changes nothing |
| EpicService.CreateEpic | app/services/epic_service.py:14-30 | The epic is stored under a fresh id with the given fields and time; nothing else changes |
| EpicService.ListEpicsByProject | app/services/epic_service.py:38-42 | Exactly the project's epics, each once, newest first |
| EpicService.PatchEpic | app/services/epic_service.py:50-52 | Given fields replace the stored ones, absent fields keep them, and the project and creation time are kept |
| EpicService.UpdateEpic | app/services/epic_service.py:45-55 | An unknown epic is an error and changes nothing; otherwise only that epic is patched |
| EpicService.FeatureCount | app/services/epic_service.py:71-73 | The number of features of the epic; zero exactly when no feature refers to it |
| EpicService.TestDefinitionCount | app/services/epic_service.py:76-83 | The number of definitions whose feature belongs to the epic; the early return for no features agrees with it |
| EpicService.ActiveTestDefinitionCount | app/services/epic_service.py:86-95 | The number of active definitions under the epic, never more than the total |
| EpicService.SumOverFeaturesCountsUnion | app/services/epic_service.py:76-83 | Summing per-feature definition counts over distinct features gives the count of their union |
| EpicService.CountIsSumOverFeatures | app/services/epic_service.py:76-95 | An epic's definition count, total or active, is the sum of its features' counts |
| EpicService.DeleteEpicOutcome | app/services/epic_service.py:58-68 | An unknown epic is an error. An epic with features gives the deletion-constraint error. Deletion is allowed exactly when no feature refers to the epic |
| EpicService.DeleteEpic | app/services/epic_service.py:58-68 | Deleting stores exactly that outcome: only the epic is removed, and an error changes nothing |
| FeatureService.CreateFeature | app/services/feature_service.py:14-28 | The feature is stored under a fresh id with the given fields and time; nothing else changes |
| FeatureService.ListFeaturesByEpic | app/services/feature_service.py:36-40 | Exactly the epic's features, each once, newest first |
| FeatureService.PatchFeature | app/services/feature_service.py:48-50 | Given fields replace the stored ones, absent fields keep them, and the epic and creation time are kept |
| FeatureService.PatchFeatureIdempotent | app/services/feature_service.py:48-50 | Applying the same patch twice is the same as once, and an empty patch changes nothing |
| FeatureService.UpdateFeature | app/services/feature_service.py:43-53 | An unknown feature is an error and changes nothing; otherwise only that feature is patched |
| FeatureService.TestDefinitionCount | app/services/feature_service.py:69-73 | The number of definitions of the feature; zero exactly when none refers to it |
| FeatureService.ActiveTestDefinitionCount | app/services/feature_service.py:76-80 | The number of active definitions of the feature, never more than the total |
| FeatureService.DeleteFeatureOutcome | app/services/feature_service.py:56-66 | An unknown feature is an error. A feature with definitions gives the deletion-constraint error. Deletion is allowed exactly when no definition refers to the feature |
| FeatureService.DeleteFeature | app/services/feature_service.py:56-66 | Deleting stores exactly that outcome: only the feature is removed, and an error changes nothing |
| DefinitionService.CreateDefinition | app/services/definition_service.py:14-38 | The definition stores the given fields. Its priority defaults to medium. It is active, and its created and updated times are the same instant. Nothing else changes |
| DefinitionService.ListDefinitionsByFeature | app/services/definition_service.py:46-54 | Exactly the feature's definitions, or only the active ones when asked, each once, newest first |
| DefinitionService.PriorityAllowed | app/services/definition_service.py:77-79 | A definition passes the priority filter when the parameter is absent or empty, or its priority is one of the stripped tokens; `DefinitionService.ListDefinitionsByProject` states this per listed definition |
| DefinitionService.ScopeFeatures | app/services/definition_service.py:64-75 | The features searched: the given feature alone; otherwise exactly the given epic's features; otherwise exactly the features of the project's epics |
| DefinitionService.PriorityTokens | app/services/definition_service.py:78 | One token per comma-separated piece of the filter, each stripped of surrounding whitespace |
| DefinitionService.PriorityTokensOfPair | app/services/definition_service.py:78 | The filter "a, b" yields exactly the priorities a and b |
| DefinitionService.ListDefinitionsByProject | app/services/definition_service.py:57-81 | Only active definitions are listed, and only those allowed by the priority filter. A feature id takes precedence over an epic id, which takes precedence over the project. Results are newest first |
| DefinitionService.PatchDefinition | app/services/definition_service.py:90-94 | Every given field replaces the stored one and absent fields are kept. The feature and creation time are kept, and the update time becomes now |
| DefinitionService.PatchDefinitionFacts | app/services/definition_service.py:90-94 | An empty patch only moves the update time; a patch with is_active set to true reactivates a soft-deleted definition |
| DefinitionService.UpdateDefinition | app/services/definition_service.py:84-97 | An unknown definition is an error and changes nothing; otherwise only that definition is patched |
| DefinitionService.SoftDeleted | app/services/definition_service.py:106-107 | A soft-deleted definition is inactive with update time now; every other field is unchanged |
| DefinitionService.SoftDeleteTwice | app/services/definition_service.py:100-110 | Soft-deleting twice is the same as soft-deleting once at the later time |
| DefinitionService.SoftDeleteDefinition | app/services/definition_service.py:100-110 | An unknown definition is an error; otherwise only that definition is deactivated, and no execution count changes |
| DefinitionService.SoftDeleteCounts | app/services/definition_service.py:100-110 | A soft delete keeps the feature's definition count and lowers its active count by one if the definition was active |
| DefinitionService.HardDeleteDefinition | app/services/definition_service.py:113-120 | An unknown definition is an error. Otherwise only the definition is removed; its executed cases stay, and so does every execution count |
| DefinitionService.HardDeleteCounts | app/services/definition_service.py:113-120 | A hard delete lowers the feature's definition count by one |
| DefinitionService.ExecutionCount | app/services/definition_service.py:123-127 | The number of cases linked to the definition, which is the length of the by-definition listing; zero exactly when no case links to it |
| Text.Split | app/services/definition_service.py:78 | `str.split(sep)` yields at least one piece and no piece contains the separator |
| Text.JoinSplit | app/services/definition_service.py:78 | Joining the pieces with the separator gives back the string |
| Text.SplitJoin | app/services/definition_service.py:78 | Splitting a join of separator-free pieces gives back the pieces |
| Text.SplitNoSeparator | app/services/definition_service.py:78 | A string without the separator splits into itself alone |
| Text.StripLeft | app/services/definition_service.py:78 | Removes exactly the leading whitespace |
| Text.StripRight | app/services/definition_service.py:78 | Removes exactly the trailing whitespace |
| Text.Strip | app/services/definition_service.py:78 | `str.strip()` returns a middle slice with only whitespace removed on either side and no whitespace at either end |
| Text.StripIdempotent | app/services/definition_service.py:78 | Stripping twice is the same as stripping once |
| ScreenshotService.KeepAllowed | app/services/screenshot_service.py:23 | The first substitution leaves only word characters, whitespace and hyphens, and leaves such text unchanged |
| ScreenshotService.KeepAllowedCounts | app/services/screenshot_service.py:23 | Each character of `[\w\s-]` survives the first substitution exactly as often as it occurs; every other character is removed |
| ScreenshotService.KeepAllowedConcat | app/services/screenshot_service.py:23 | The substitution of a concatenation is the concatenation of the substitutions, so the kept characters stay in their order |
| ScreenshotService.CollapseSpaces | app/services/screenshot_service.py:24 | The second substitution; its meaning is stated by `CollapseRemovesSpaces` (no whitespace left), `CollapseRun` (a whitespace run becomes one underscore), `CollapseWithoutSpaces` and `CollapseKeepsWordChars` |
| ScreenshotService.CollapseRemovesSpaces | app/services/screenshot_service.py:24 | After the second substitution no whitespace is left |
| ScreenshotService.CollapseKeepsWordChars | app/services/screenshot_service.py:23-24 | When only word characters, whitespace and hyphens go in, only word characters (underscore included) and hyphens come out |
| ScreenshotService.CollapseWithoutSpaces | app/services/screenshot_service.py:24 | Text without whitespace passes the second substitution unchanged |
| ScreenshotService.Lower | app/services/screenshot_service.py:25 | Lower-casing maps each character and keeps the length |
| ScreenshotService.Slugify | app/services/screenshot_service.py:13-25 | A slug contains only lower-case word characters, hyphens and underscores: no whitespace and no capitals |
| ScreenshotService.CollapseRun | app/services/screenshot_service.py:24 | A whole run of whitespace becomes one underscore |
| ScreenshotService.SlugifyIdempotent | app/services/screenshot_service.py:13-25 | Slugifying a slug changes nothing |
| ScreenshotService.SlugifyTwoWords | app/services/screenshot_service.py:13-25 | Two words separated by whitespace become the lower-cased words joined by one underscore |
| ScreenshotService.LoginTest | app/services/screenshot_service.py:46-48 | "Login Test" becomes "login_test", as the documented example says |
| ScreenshotService.NatToString | app/services/screenshot_service.py:58 | A number's decimal form is a non-empty string of digits |
| ScreenshotService.NatToStringRoundTrip | app/services/screenshot_service.py:58 | Reading the decimal form back gives the number |
| ScreenshotService.LastNamed | app/services/screenshot_service.py:56 | The index of the last path component that is neither empty nor `.`, with every later component empty or `.`; -1 when there is none |
| ScreenshotService.FileNameOf | app/services/screenshot_service.py:56 | `Path(filename).name` is the last component of the `/`-split path that is neither empty nor `.`, or "" when there is none; it contains no slash |
| ScreenshotService.FileNameInDirectory | app/services/screenshot_service.py:56 | The name of `dir/name` is `name` |
| ScreenshotService.LastDot | app/services/screenshot_service.py:56 | The last dot of a name, or none |
| ScreenshotService.Suffix | app/services/screenshot_service.py:56 | `Path.suffix` is non-empty exactly when the last dot neither starts nor ends the name, and is then the name from that dot on: a dot followed by at least one dot-free character |
| ScreenshotService.SuffixOfStemAndExtension | app/services/screenshot_service.py:56 | The suffix of `stem.ext` is `.ext` |
| ScreenshotService.Extension | app/services/screenshot_service.py:56 | Without a file name the extension is ".png"; otherwise it is the suffix of the name, and it never contains a slash |
| ScreenshotService.UploadExtension | app/services/screenshot_service.py:56 | An upload named "dir/shot.png" gets the extension ".png" |
| ScreenshotService.ScreenshotFileName | app/services/screenshot_service.py:57-58 | The stored file name contains no slash |
| ScreenshotService.RelativePath | app/services/screenshot_service.py:68-69 | The returned path `{run_id}/{filename}`; its meaning is stated by `RelativePathInRunDirectory` and `DistinctTimestampsDistinctPaths` |
| ScreenshotService.RelativePathInRunDirectory | app/services/screenshot_service.py:51-69 | The stored path `{run_id}/{slug}_{timestamp}{ext}` has exactly two components: the run's directory and the file name |
| ScreenshotService.DistinctTimestampsDistinctPaths | app/services/screenshot_service.py:54-58 | Two uploads for the same case at different seconds get different paths |
| ScreenshotService.FullPath | app/services/screenshot_service.py:72-89 | A full path is returned exactly when the relative path is non-empty and the file exists, and the full path ends with the relative path |
| StatsService.LastCountOfRow | app/services/stats_service.py:53-56 | When statuses are distinct, the count kept for a status is the count of its row |
| StatsService.LastCountAbsent | app/services/stats_service.py:49 | A status with no row keeps its count of 0 |
| StatsService.LastCountIsCount | app/services/stats_service.py:38-56 | Given a correct grouping, the count kept for a status is the number of cases with that status |
| StatsService.CountOutcomes | app/services/stats_service.py:49-56 | The loop over the grouped rows yields, for passed, failed and skipped, the count of that status's row, or 0 |
| StatsService.SuccessRate | app/services/stats_service.py:62 | The rate is 0 when there are no tests; otherwise passed/total × 100, which lies between 0 and 100 |
| StatsService.PartitionCounts | app/services/stats_service.py:61 | The passed, failed and skipped counts add up to the counted cases, never more than all cases |
| StatsService.CalculateRunStatistics | app/services/stats_service.py:27-72 | An unknown run gives all zeros. Otherwise each count is the run's number of cases with that status. The total is their sum, which never exceeds the run's cases, and the rate is within 0 to 100 |
| StatsService.CalculateGlobalStatistics | app/services/stats_service.py:117-142 | Reports the number of runs and of cases and the per-status counts. The counts never exceed the number of cases, and the rate is taken over all cases, within 0 to 100 |
| StatsService.StatusCount | app/services/stats_service.py:95-97 | A per-status count is the number of the run's cases carrying that status |
| StatsService.Enriched | app/services/stats_service.py:90-112 | A dashboard row copies the run's fields. Its duration is 0 without an end time. The project appears exactly when the run refers to a stored project. The test count is passed + failed + skipped, never more than the run's cases |
| StatsService.ListRunsWithStats | app/services/stats_service.py:75-114 | One enriched row for each run of the newest-first, limited run listing, in that order |
| StatsService.EnrichAll | app/services/stats_service.py:89-112 | The loop yields one enriched row per listed run, in order |

## Left out

- The HTTP API, web routes, request/response schemas, templates, configuration, database connection and engine setup are not part of this model.
- Ids are `nat`s, not parsed ObjectId strings. An invalid id string, which the source turns into an exception while parsing, is not modelled. An empty optional id (`project_id`, `definition_id`, `feature_id`, `epic_id`) is modelled as an absent one, which is how the source's truthiness tests treat it.
- The `**kwargs` sparse updates are restricted to the fields each API schema allows, one `Option` per field (`ProjectPatch`, `EpicPatch`, `FeaturePatch`, `DefinitionPatch`). `setattr` of an arbitrary attribute name is not modelled.
- Clock readings (`datetime.utcnow()`, `time.time()`) are parameters. The timestamp in a screenshot name is the `nat` of whole seconds.
- Filesystem effects are not modelled. Directory creation and the file write in `save_screenshot` are left out, and only the stored relative path is modelled. Whether a file exists, and whether its removal fails, are parameters (`FileState`, `fileExists`). `delete_screenshot` (app/services/screenshot_service.py:92-110) is covered through `FullPath` and the cleanup decision of `CaseService.ScreenshotCleanup`; its return value is not modelled on its own.
- ScreenshotService.FullPath: `Path` joining is concatenation with a slash separator; normalisation of `..` and of duplicate separators is not modelled.
- ScreenshotService.Slugify: `\w` is taken to be the ASCII letters, digits and underscore, so non-ASCII letters and digits, which Python keeps, are dropped. `str.lower` is modelled for ASCII letters only. Whitespace is Python's full `str.isspace` set.
- StatsService.CalculateRunStatistics: `avg_duration` and the `round(..., 2)` of the success rate are left out. The rate is the exact rational value, because floating point is not modelled.
- StatsService.CalculateGlobalStatistics: `round(..., 2)` is left out for the same reason.
- StatsService.CountOutcomes: the rows returned by the Mongo `$group` stage are an input that `GroupedByStatus` constrains, because the aggregation engine is not part of this model. Their order is arbitrary; the counts do not depend on it.
- Models.Duration: `total_seconds() * 1000` is floating point; the model uses the exact integer value truncated toward zero, which agrees except where floating-point rounding crosses an integer.
- Listing.SortedBy: Mongo does not promise an order among documents with equal sort keys; the model breaks ties by insertion order.
- Each service call is modelled as one atomic step on the store. In the source, every `await` of the database is a point where other requests can interleave. For example, `delete_project`, `delete_epic` and `delete_feature` (app/services/project_service.py:45-58, app/services/epic_service.py:58-68, app/services/feature_service.py:56-66) count the children and then delete in separate awaits, so a child inserted in between is left orphaned. The deletion guards are proved only for calls that run without interleaving.
- The store models one server process: it starts empty and has a single import time. Test cases written by an earlier process carry that process's import-time stamp, which the model does not represent.
- Default arguments are not modelled: `limit=50` of `list_runs` (app/services/run_service.py:41) and `list_runs_with_stats` (app/services/stats_service.py:75), and `active_only=True` of `list_definitions_by_feature` (app/services/definition_service.py:46-48), are explicit parameters of `RunService.ListRuns`, `StatsService.ListRunsWithStats` and `DefinitionService.ListDefinitionsByFeature`.
- Logging calls are left out.
- Integer widths play no role: counts and ids are unbounded, as in Python.
