/** Features: the third level of the hierarchy, owned by an epic and owning
    test case definitions. */
module FeatureService {
  import opened Common
  import opened Models
  import opened Listing
  import opened Store
  import opened Taxonomy

  /** `create_feature`: the epic reference is recorded as given; nothing
      checks that the epic exists. */
  method CreateFeature(st: Store, epicId: Id, name: string, description: Option<string>, now: Time)
    returns (id: Id, feature: Feature)
    requires st.Valid()
    modifies st
    ensures st.Valid()
    ensures id !in old(st.features)
    ensures feature == Feature(epicId, name, description, now)
    ensures st.Contents() == old(st.Contents()).(features := old(st.features)[id := feature])
  {
    id := st.FreshId();
    feature := Feature(epicId, name, description, now);
    st.features := st.features[id := feature];
  }

  /** `list_features_by_epic`: the epic's features, newest first. */
  function ListFeaturesByEpic(features: map<Id, Feature>, epicId: Id): (r: seq<Id>)
    ensures |r| == |FeaturesOf(features, epicId)|
    ensures forall id :: id in r <==> id in features && features[id].epicId == epicId
    ensures forall i, j :: 0 <= i < j < |r| ==> r[i] != r[j] && features[r[i]].createdAt >= features[r[j]].createdAt
  {
    NewestFirstOf(features, FeaturesOf(features, epicId), (f: Feature) => f.createdAt)
  }

  /** The keyword arguments `update_feature` receives; None means "leave as is". */
  datatype FeaturePatch = FeaturePatch(name: Option<string>, description: Option<string>)

  /** The feature after the sparse update: each given field replaced, every
      other field (the epic, the creation time) kept. */
  function PatchFeature(f: Feature, p: FeaturePatch): (r: Feature)
    ensures r.epicId == f.epicId && r.createdAt == f.createdAt
    ensures p.name.Some? ==> r.name == p.name.value
    ensures p.name.None? ==> r.name == f.name
    ensures p.description.Some? ==> r.description == p.description
    ensures p.description.None? ==> r.description == f.description
  {
    f.(name := Apply(f.name, p.name), description := ApplyOptional(f.description, p.description))
  }

  /** Applying the same patch twice is applying it once, and an empty patch
      changes nothing. */
  lemma PatchFeatureIdempotent(f: Feature, p: FeaturePatch)
    ensures PatchFeature(PatchFeature(f, p), p) == PatchFeature(f, p)
    ensures PatchFeature(f, FeaturePatch(None, None)) == f
  {
  }

  /** `update_feature`: fails on an unknown id; otherwise only that feature
      changes. */
  method UpdateFeature(st: Store, featureId: Id, p: FeaturePatch) returns (r: Result<Feature>)
    requires st.Valid()
    modifies st
    ensures st.Valid() && st.nextId == old(st.nextId)
    ensures r.Err? <==> featureId !in old(st.features)
    ensures r.Err? ==> r.error == FeatureNotFound(featureId) && st.Contents() == old(st.Contents())
    ensures r.Ok? ==> r.value == PatchFeature(old(st.features)[featureId], p)
    ensures r.Ok? ==> st.Contents() == old(st.Contents()).(features := old(st.features)[featureId := r.value])
  {
    var found := Get(st.features, featureId);
    if found.None? {
      return Err(FeatureNotFound(featureId));
    }
    var feature := PatchFeature(found.value, p);
    st.features := st.features[featureId := feature];
    r := Ok(feature);
  }

  /** `get_test_definition_count`: definitions filed under the feature,
      active or not. */
  function TestDefinitionCount(defs: map<Id, Definition>, featureId: Id): (n: nat)
    ensures n == |DefinitionsUnder(defs, {featureId}, false)|
    ensures n == 0 <==> forall d :: d in defs ==> defs[d].featureId != featureId
  {
    var s := set d | d in defs && defs[d].featureId == featureId;
    assert s == DefinitionsUnder(defs, {featureId}, false);
    assert forall d :: d in defs && defs[d].featureId == featureId ==> d in s;
    |s|
  }

  /** `get_active_test_definition_count`: only the active ones, so never
      more than the total. */
  function ActiveTestDefinitionCount(defs: map<Id, Definition>, featureId: Id): (n: nat)
    ensures n == |DefinitionsUnder(defs, {featureId}, true)|
    ensures n <= TestDefinitionCount(defs, featureId)
  {
    var s := set d | d in defs && defs[d].featureId == featureId && defs[d].isActive;
    assert s == DefinitionsUnder(defs, {featureId}, true);
    ActiveAmongAll(defs, {featureId});
    |s|
  }

  /** What `delete_feature` decides: not found, blocked by any definition
      (active or soft-deleted), or allowed. */
  function DeleteFeatureOutcome(features: map<Id, Feature>, defs: map<Id, Definition>, featureId: Id): (r: Result<()>)
    ensures featureId !in features ==> r == Err(FeatureNotFound(featureId))
    ensures featureId in features && TestDefinitionCount(defs, featureId) > 0 ==>
      r == Err(DeletionConstraint("Feature", featureId, "has associated TestCaseDefinitions"))
    ensures r.Ok? <==> featureId in features && forall d :: d in defs ==> defs[d].featureId != featureId
  {
    if featureId !in features then Err(FeatureNotFound(featureId))
    else if TestDefinitionCount(defs, featureId) > 0 then
      Err(DeletionConstraint("Feature", featureId, "has associated TestCaseDefinitions"))
    else Ok(())
  }

  /** `delete_feature`: a refused deletion changes nothing; an allowed one
      removes that feature only, so a call that runs without interleaving
      leaves no definition orphaned. */
  method DeleteFeature(st: Store, featureId: Id) returns (r: Result<()>)
    requires st.Valid()
    modifies st
    ensures st.Valid() && st.nextId == old(st.nextId)
    ensures r == DeleteFeatureOutcome(old(st.features), old(st.definitions), featureId)
    ensures r.Err? ==> st.Contents() == old(st.Contents())
    ensures r.Ok? ==> st.Contents() == old(st.Contents()).(features := old(st.features) - {featureId})
  {
    var found := Get(st.features, featureId);
    if found.None? {
      return Err(FeatureNotFound(featureId));
    }
    var defCount := TestDefinitionCount(st.definitions, featureId);
    if defCount > 0 {
      return Err(DeletionConstraint("Feature", featureId, "has associated TestCaseDefinitions"));
    }
    st.features := st.features - {featureId};
    r := Ok(());
  }
}
