/** Projects: the root of the hierarchy. Project names are unique, which
    the store's index enforces on every insert and save. */
module ProjectService {
  import opened Common
  import opened Models
  import opened Listing
  import opened Store
  import opened Taxonomy
  import EpicService

  /** `create_project`: the insert is rejected by the unique index when the
      name is already in use; otherwise the project is stored as given. */
  method CreateProject(st: Store, name: string, description: Option<string>, now: Time) returns (r: Result<Id>)
    requires st.Valid()
    modifies st
    ensures st.Valid()
    ensures r.Err? <==> NameTaken(old(st.projects), name, None)
    ensures r.Err? ==> r.error == DuplicateProjectName(name) && st.Contents() == old(st.Contents())
    ensures r.Ok? ==> r.value !in old(st.projects)
    ensures r.Ok? ==> st.Contents() == old(st.Contents()).(projects := old(st.projects)[r.value := Project(name, description, now)])
  {
    if NameTaken(st.projects, name, None) {
      return Err(DuplicateProjectName(name));
    }
    var id := st.FreshId();
    st.projects := st.projects[id := Project(name, description, now)];
    r := Ok(id);
  }

  /** `list_projects`: every project, newest first. */
  function ListProjects(projects: map<Id, Project>): (r: seq<Id>)
    ensures |r| == |projects|
    ensures forall id :: id in r <==> id in projects
    ensures forall i, j :: 0 <= i < j < |r| ==> r[i] != r[j] && projects[r[i]].createdAt >= projects[r[j]].createdAt
  {
    NewestFirstOf(projects, projects.Keys, (p: Project) => p.createdAt)
  }

  /** The keyword arguments `update_project` receives; None means "leave as is". */
  datatype ProjectPatch = ProjectPatch(name: Option<string>, description: Option<string>)

  /** The project after the sparse update: each given field replaced, the
      creation time kept. */
  function PatchProject(p: Project, patch: ProjectPatch): (r: Project)
    ensures r.createdAt == p.createdAt
    ensures patch.name.Some? ==> r.name == patch.name.value
    ensures patch.name.None? ==> r.name == p.name
    ensures patch.description.Some? ==> r.description == patch.description
    ensures patch.description.None? ==> r.description == p.description
  {
    p.(name := Apply(p.name, patch.name), description := ApplyOptional(p.description, patch.description))
  }

  /** `update_project`: fails on an unknown id, and the save is rejected by
      the unique index when the new name belongs to another project;
      otherwise only that project changes. */
  method UpdateProject(st: Store, projectId: Id, patch: ProjectPatch) returns (r: Result<Project>)
    requires st.Valid()
    modifies st
    ensures st.Valid() && st.nextId == old(st.nextId)
    ensures projectId !in old(st.projects) ==> r == Err(ProjectNotFound(projectId))
    ensures r.Ok? <==> projectId in old(st.projects)
                       && !(patch.name.Some? && NameTaken(old(st.projects), patch.name.value, Some(projectId)))
    ensures r.Err? ==> st.Contents() == old(st.Contents())
    ensures r.Ok? ==> r.value == PatchProject(old(st.projects)[projectId], patch)
    ensures r.Ok? ==> st.Contents() == old(st.Contents()).(projects := old(st.projects)[projectId := r.value])
  {
    var found := Get(st.projects, projectId);
    if found.None? {
      return Err(ProjectNotFound(projectId));
    }
    if patch.name.Some? && NameTaken(st.projects, patch.name.value, Some(projectId)) {
      return Err(DuplicateProjectName(patch.name.value));
    }
    var project := PatchProject(found.value, patch);
    st.projects := st.projects[projectId := project];
    r := Ok(project);
  }

  /** `get_epic_count`: the epics whose project is this one. */
  function EpicCount(epics: map<Id, Epic>, projectId: Id): (n: nat)
    ensures n == |EpicsOf(epics, projectId)|
    ensures n == 0 <==> forall e :: e in epics ==> epics[e].projectId != projectId
  {
    var s := EpicsOf(epics, projectId);
    assert forall e :: e in epics && epics[e].projectId == projectId ==> e in s;
    |s|
  }

  /** The runs filed under the project. */
  function RunCount(runs: map<Id, TestRun>, projectId: Id): (n: nat)
    ensures n == 0 <==> forall id :: id in runs ==> runs[id].projectId != Some(projectId)
  {
    var s := set id | id in runs && runs[id].projectId == Some(projectId);
    assert forall id :: id in runs && runs[id].projectId == Some(projectId) ==> id in s;
    |s|
  }

  /** `get_test_definition_count`: the definitions whose feature belongs to
      one of the project's epics; the two early returns (no epics, no
      features) agree with it. */
  function TestDefinitionCount(epics: map<Id, Epic>, features: map<Id, Feature>, defs: map<Id, Definition>, projectId: Id): (n: nat)
    ensures n == |DefinitionsUnder(defs, FeaturesUnder(features, EpicsOf(epics, projectId)), false)|
    ensures n == |set d | d in defs && defs[d].featureId in features && features[defs[d].featureId].epicId in epics
                          && epics[features[defs[d].featureId].epicId].projectId == projectId|
  {
    var epicIds := EpicsOf(epics, projectId);
    var featureIds := FeaturesUnder(features, epicIds);
    assert DefinitionsUnder(defs, featureIds, false)
        == set d | d in defs && defs[d].featureId in features && features[defs[d].featureId].epicId in epics
                   && epics[features[defs[d].featureId].epicId].projectId == projectId;
    if epicIds == {} then
      assert DefinitionsUnder(defs, featureIds, false) == {};
      0
    else if featureIds == {} then
      assert DefinitionsUnder(defs, featureIds, false) == {};
      0
    else
      |DefinitionsUnder(defs, featureIds, false)|
  }

  /** `get_active_test_definition_count`: the same, active definitions
      only, so never more than the total. */
  function ActiveTestDefinitionCount(epics: map<Id, Epic>, features: map<Id, Feature>, defs: map<Id, Definition>, projectId: Id): (n: nat)
    ensures n == |DefinitionsUnder(defs, FeaturesUnder(features, EpicsOf(epics, projectId)), true)|
    ensures n <= TestDefinitionCount(epics, features, defs, projectId)
  {
    var epicIds := EpicsOf(epics, projectId);
    var featureIds := FeaturesUnder(features, epicIds);
    ActiveAmongAll(defs, featureIds);
    if epicIds == {} then
      assert DefinitionsUnder(defs, featureIds, true) == {};
      0
    else if featureIds == {} then
      assert DefinitionsUnder(defs, featureIds, true) == {};
      0
    else
      |DefinitionsUnder(defs, featureIds, true)|
  }

  /** One epic's count as its own service reports it. */
  function EpicTally(features: map<Id, Feature>, defs: map<Id, Definition>, epicId: Id, activeOnly: bool): nat
  {
    if activeOnly then EpicService.ActiveTestDefinitionCount(features, defs, epicId)
    else EpicService.TestDefinitionCount(features, defs, epicId)
  }

  /** The per-epic counts of a listing, added up. */
  function SumOverEpics(features: map<Id, Feature>, defs: map<Id, Definition>, es: seq<Id>, activeOnly: bool): nat
  {
    if es == [] then 0 else EpicTally(features, defs, es[0], activeOnly) + SumOverEpics(features, defs, es[1..], activeOnly)
  }

  lemma {:induction false} SumOverEpicsCountsUnion(features: map<Id, Feature>, defs: map<Id, Definition>, es: seq<Id>, activeOnly: bool)
    requires Distinct(es)
    ensures SumOverEpics(features, defs, es, activeOnly) == |DefinitionsUnder(defs, FeaturesUnder(features, Elements(es)), activeOnly)|
  {
    if es == [] {
      assert FeaturesUnder(features, Elements(es)) == {};
      assert DefinitionsUnder(defs, {}, activeOnly) == {};
    } else {
      ElementsSplit(es);
      SumOverEpicsCountsUnion(features, defs, es[1..], activeOnly);
      FeaturesUnderSplit(features, es[0], Elements(es[1..]));
      UnderDisjointUnion(defs, FeaturesOf(features, es[0]), FeaturesUnder(features, Elements(es[1..])), activeOnly);
    }
  }

  /** The project's count (total or active) is the sum of the counts of the
      epics it lists, each of which is the sum over its features. */
  lemma CountIsSumOverEpics(epics: map<Id, Epic>, features: map<Id, Feature>, defs: map<Id, Definition>,
                            projectId: Id, activeOnly: bool)
    ensures (if activeOnly then ActiveTestDefinitionCount(epics, features, defs, projectId)
             else TestDefinitionCount(epics, features, defs, projectId))
            == SumOverEpics(features, defs, EpicService.ListEpicsByProject(epics, projectId), activeOnly)
  {
    var es := EpicService.ListEpicsByProject(epics, projectId);
    assert Elements(es) == EpicsOf(epics, projectId);
    SumOverEpicsCountsUnion(features, defs, es, activeOnly);
  }

  /** What `delete_project` decides: not found; blocked by an epic; blocked
      by a run (checked only when there is no epic); or allowed. */
  function DeleteProjectOutcome(projects: map<Id, Project>, epics: map<Id, Epic>, runs: map<Id, TestRun>, projectId: Id)
    : (r: Result<()>)
    ensures projectId !in projects ==> r == Err(ProjectNotFound(projectId))
    ensures projectId in projects && EpicCount(epics, projectId) > 0 ==>
      r == Err(DeletionConstraint("Project", projectId, "has associated Epics"))
    ensures projectId in projects && EpicCount(epics, projectId) == 0 && RunCount(runs, projectId) > 0 ==>
      r == Err(DeletionConstraint("Project", projectId, "has associated TestRuns"))
    ensures r.Ok? <==> projectId in projects
                       && (forall e :: e in epics ==> epics[e].projectId != projectId)
                       && (forall id :: id in runs ==> runs[id].projectId != Some(projectId))
  {
    if projectId !in projects then Err(ProjectNotFound(projectId))
    else if EpicCount(epics, projectId) > 0 then
      Err(DeletionConstraint("Project", projectId, "has associated Epics"))
    else if RunCount(runs, projectId) > 0 then
      Err(DeletionConstraint("Project", projectId, "has associated TestRuns"))
    else Ok(())
  }

  /** `delete_project`: a refused deletion changes nothing; an allowed one
      removes that project only. */
  method DeleteProject(st: Store, projectId: Id) returns (r: Result<()>)
    requires st.Valid()
    modifies st
    ensures st.Valid() && st.nextId == old(st.nextId)
    ensures r == DeleteProjectOutcome(old(st.projects), old(st.epics), old(st.runs), projectId)
    ensures r.Err? ==> st.Contents() == old(st.Contents())
    ensures r.Ok? ==> st.Contents() == old(st.Contents()).(projects := old(st.projects) - {projectId})
  {
    var found := Get(st.projects, projectId);
    if found.None? {
      return Err(ProjectNotFound(projectId));
    }
    var epicCount := EpicCount(st.epics, projectId);
    if epicCount > 0 {
      return Err(DeletionConstraint("Project", projectId, "has associated Epics"));
    }
    var runCount := RunCount(st.runs, projectId);
    if runCount > 0 {
      return Err(DeletionConstraint("Project", projectId, "has associated TestRuns"));
    }
    st.projects := st.projects - {projectId};
    r := Ok(());
  }
}
