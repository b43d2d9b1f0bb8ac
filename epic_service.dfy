/** Epics: the second level of the hierarchy, owned by a project and owning
    features. */
module EpicService {
  import opened Common
  import opened Models
  import opened Listing
  import opened Store
  import opened Taxonomy
  import FeatureService

  /** `create_epic`: the project reference is recorded as given; nothing
      checks that the project exists. */
  method CreateEpic(st: Store, projectId: Id, name: string, description: Option<string>,
                    externalRef: Option<string>, now: Time)
    returns (id: Id, epic: Epic)
    requires st.Valid()
    modifies st
    ensures st.Valid()
    ensures id !in old(st.epics)
    ensures epic == Epic(projectId, name, description, externalRef, now)
    ensures st.Contents() == old(st.Contents()).(epics := old(st.epics)[id := epic])
  {
    id := st.FreshId();
    epic := Epic(projectId, name, description, externalRef, now);
    st.epics := st.epics[id := epic];
  }

  /** `list_epics_by_project`: the project's epics only, newest first. */
  function ListEpicsByProject(epics: map<Id, Epic>, projectId: Id): (r: seq<Id>)
    ensures |r| == |EpicsOf(epics, projectId)|
    ensures forall id :: id in r <==> id in epics && epics[id].projectId == projectId
    ensures forall i, j :: 0 <= i < j < |r| ==> r[i] != r[j] && epics[r[i]].createdAt >= epics[r[j]].createdAt
  {
    NewestFirstOf(epics, EpicsOf(epics, projectId), (e: Epic) => e.createdAt)
  }

  /** The keyword arguments `update_epic` receives; None means "leave as is". */
  datatype EpicPatch = EpicPatch(name: Option<string>, description: Option<string>, externalRef: Option<string>)

  /** The epic after the sparse update: each given field replaced, the
      project and the creation time kept. */
  function PatchEpic(e: Epic, p: EpicPatch): (r: Epic)
    ensures r.projectId == e.projectId && r.createdAt == e.createdAt
    ensures p.name.Some? ==> r.name == p.name.value
    ensures p.name.None? ==> r.name == e.name
    ensures p.description.Some? ==> r.description == p.description
    ensures p.description.None? ==> r.description == e.description
    ensures p.externalRef.Some? ==> r.externalRef == p.externalRef
    ensures p.externalRef.None? ==> r.externalRef == e.externalRef
  {
    e.(name := Apply(e.name, p.name),
       description := ApplyOptional(e.description, p.description),
       externalRef := ApplyOptional(e.externalRef, p.externalRef))
  }

  /** `update_epic`: fails on an unknown id; otherwise only that epic changes. */
  method UpdateEpic(st: Store, epicId: Id, p: EpicPatch) returns (r: Result<Epic>)
    requires st.Valid()
    modifies st
    ensures st.Valid() && st.nextId == old(st.nextId)
    ensures r.Err? <==> epicId !in old(st.epics)
    ensures r.Err? ==> r.error == EpicNotFound(epicId) && st.Contents() == old(st.Contents())
    ensures r.Ok? ==> r.value == PatchEpic(old(st.epics)[epicId], p)
    ensures r.Ok? ==> st.Contents() == old(st.Contents()).(epics := old(st.epics)[epicId := r.value])
  {
    var found := Get(st.epics, epicId);
    if found.None? {
      return Err(EpicNotFound(epicId));
    }
    var epic := PatchEpic(found.value, p);
    st.epics := st.epics[epicId := epic];
    r := Ok(epic);
  }

  /** `get_feature_count`: the features whose epic is this one. */
  function FeatureCount(features: map<Id, Feature>, epicId: Id): (n: nat)
    ensures n == |FeaturesOf(features, epicId)|
    ensures n == 0 <==> forall f :: f in features ==> features[f].epicId != epicId
  {
    var s := FeaturesOf(features, epicId);
    assert forall f :: f in features && features[f].epicId == epicId ==> f in s;
    |s|
  }

  /** `get_test_definition_count`: the definitions whose feature belongs to
      the epic; the early return for an epic without features agrees. */
  function TestDefinitionCount(features: map<Id, Feature>, defs: map<Id, Definition>, epicId: Id): (n: nat)
    ensures n == |DefinitionsUnder(defs, FeaturesOf(features, epicId), false)|
    ensures n == |set d | d in defs && defs[d].featureId in features && features[defs[d].featureId].epicId == epicId|
  {
    var featureIds := FeaturesOf(features, epicId);
    assert DefinitionsUnder(defs, featureIds, false)
        == set d | d in defs && defs[d].featureId in features && features[defs[d].featureId].epicId == epicId;
    if featureIds == {} then
      assert DefinitionsUnder(defs, featureIds, false) == {};
      0
    else
      |DefinitionsUnder(defs, featureIds, false)|
  }

  /** `get_active_test_definition_count`: the same, active definitions
      only, so never more than the total. */
  function ActiveTestDefinitionCount(features: map<Id, Feature>, defs: map<Id, Definition>, epicId: Id): (n: nat)
    ensures n == |DefinitionsUnder(defs, FeaturesOf(features, epicId), true)|
    ensures n <= TestDefinitionCount(features, defs, epicId)
  {
    var featureIds := FeaturesOf(features, epicId);
    ActiveAmongAll(defs, featureIds);
    if featureIds == {} then
      assert DefinitionsUnder(defs, featureIds, true) == {};
      0
    else
      |DefinitionsUnder(defs, featureIds, true)|
  }

  /** One feature's count as its own service reports it. */
  function FeatureTally(defs: map<Id, Definition>, featureId: Id, activeOnly: bool): nat
  {
    if activeOnly then FeatureService.ActiveTestDefinitionCount(defs, featureId)
    else FeatureService.TestDefinitionCount(defs, featureId)
  }

  /** The per-feature counts of a listing, added up. */
  function SumOverFeatures(defs: map<Id, Definition>, fs: seq<Id>, activeOnly: bool): nat
  {
    if fs == [] then 0 else FeatureTally(defs, fs[0], activeOnly) + SumOverFeatures(defs, fs[1..], activeOnly)
  }

  lemma {:induction false} SumOverFeaturesCountsUnion(defs: map<Id, Definition>, fs: seq<Id>, activeOnly: bool)
    requires Distinct(fs)
    ensures SumOverFeatures(defs, fs, activeOnly) == |DefinitionsUnder(defs, Elements(fs), activeOnly)|
  {
    if fs == [] {
      assert DefinitionsUnder(defs, Elements(fs), activeOnly) == {};
    } else {
      ElementsSplit(fs);
      SumOverFeaturesCountsUnion(defs, fs[1..], activeOnly);
      UnderDisjointUnion(defs, {fs[0]}, Elements(fs[1..]), activeOnly);
    }
  }

  /** The epic's count (total or active) is the sum of the counts of the
      features it lists: adding up feature by feature gives the same
      number as the single query. */
  lemma CountIsSumOverFeatures(features: map<Id, Feature>, defs: map<Id, Definition>, epicId: Id, activeOnly: bool)
    ensures (if activeOnly then ActiveTestDefinitionCount(features, defs, epicId)
             else TestDefinitionCount(features, defs, epicId))
            == SumOverFeatures(defs, FeatureService.ListFeaturesByEpic(features, epicId), activeOnly)
  {
    var fs := FeatureService.ListFeaturesByEpic(features, epicId);
    assert Elements(fs) == FeaturesOf(features, epicId);
    SumOverFeaturesCountsUnion(defs, fs, activeOnly);
  }

  /** What `delete_epic` decides: not found, blocked by any feature, or
      allowed. */
  function DeleteEpicOutcome(epics: map<Id, Epic>, features: map<Id, Feature>, epicId: Id): (r: Result<()>)
    ensures epicId !in epics ==> r == Err(EpicNotFound(epicId))
    ensures epicId in epics && FeatureCount(features, epicId) > 0 ==>
      r == Err(DeletionConstraint("Epic", epicId, "has associated Features"))
    ensures r.Ok? <==> epicId in epics && forall f :: f in features ==> features[f].epicId != epicId
  {
    if epicId !in epics then Err(EpicNotFound(epicId))
    else if FeatureCount(features, epicId) > 0 then
      Err(DeletionConstraint("Epic", epicId, "has associated Features"))
    else Ok(())
  }

  /** `delete_epic`: a refused deletion changes nothing; an allowed one
      removes that epic only, so a call that runs without interleaving
      leaves no feature orphaned. */
  method DeleteEpic(st: Store, epicId: Id) returns (r: Result<()>)
    requires st.Valid()
    modifies st
    ensures st.Valid() && st.nextId == old(st.nextId)
    ensures r == DeleteEpicOutcome(old(st.epics), old(st.features), epicId)
    ensures r.Err? ==> st.Contents() == old(st.Contents())
    ensures r.Ok? ==> st.Contents() == old(st.Contents()).(epics := old(st.epics) - {epicId})
  {
    var found := Get(st.epics, epicId);
    if found.None? {
      return Err(EpicNotFound(epicId));
    }
    var featureCount := FeatureCount(st.features, epicId);
    if featureCount > 0 {
      return Err(DeletionConstraint("Epic", epicId, "has associated Features"));
    }
    st.epics := st.epics - {epicId};
    r := Ok(());
  }
}
