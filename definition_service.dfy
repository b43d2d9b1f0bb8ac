/** Test case definitions: the reusable test plans filed under a feature.
    They are soft-deleted by clearing their active flag, or removed outright;
    neither touches the recorded executions that refer to them. */
module DefinitionService {
  import opened Common
  import opened Models
  import opened Listing
  import opened Store
  import opened Taxonomy
  import opened Text
  import FeatureService
  import CaseService

  /** `create_definition`: a new active definition, created and updated at
      the same instant, its steps stored exactly as supplied. An omitted
      priority is "medium". The feature reference is not checked. */
  method CreateDefinition(st: Store, featureId: Id, title: string, steps: seq<StepSpec>,
                          description: Option<string>, preconditions: Option<string>,
                          expectedResult: Option<string>, priority: Option<string>, now: Time)
    returns (id: Id, d: Definition)
    requires st.Valid()
    modifies st
    ensures st.Valid()
    ensures id !in old(st.definitions)
    ensures d.featureId == featureId && d.title == title && d.steps == steps
    ensures d.description == description && d.preconditions == preconditions && d.expectedResult == expectedResult
    ensures d.priority == (if priority.Some? then priority.value else PRIORITY_MEDIUM)
    ensures d.isActive && d.createdAt == now && d.updatedAt == now
    ensures st.Contents() == old(st.Contents()).(definitions := old(st.definitions)[id := d])
  {
    id := st.FreshId();
    var p := if priority.Some? then priority.value else PRIORITY_MEDIUM;
    d := Definition(featureId, title, description, preconditions, steps, expectedResult, p, true, now, now);
    st.definitions := st.definitions[id := d];
  }

  /** `list_definitions_by_feature`: the feature's definitions (only the
      active ones when `activeOnly`), newest first. */
  function ListDefinitionsByFeature(defs: map<Id, Definition>, featureId: Id, activeOnly: bool): (r: seq<Id>)
    ensures forall d :: d in r <==> d in defs && defs[d].featureId == featureId && (!activeOnly || defs[d].isActive)
    ensures forall i, j :: 0 <= i < j < |r| ==> r[i] != r[j] && defs[r[i]].createdAt >= defs[r[j]].createdAt
  {
    NewestFirstOf(defs, DefinitionsUnder(defs, {featureId}, activeOnly), (d: Definition) => d.createdAt)
  }

  /** The priorities a `priority` query parameter asks for: the
      comma-separated tokens, each stripped of surrounding whitespace. */
  function PriorityTokens(priority: string): (r: seq<string>)
    ensures |r| == |Split(priority, ',')|
    ensures forall i :: 0 <= i < |r| ==> r[i] == Strip(Split(priority, ',')[i])
  {
    var parts := Split(priority, ',');
    seq(|parts|, i requires 0 <= i < |parts| => Strip(parts[i]))
  }

  /** Two priorities written with a space after the comma, such as
      "high, critical", give exactly those two priorities. */
  lemma PriorityTokensOfPair(a: string, b: string)
    requires ',' !in a && ',' !in b && Trimmed(a) && Trimmed(b)
    ensures PriorityTokens(a + ", " + b) == [a, b]
  {
    SplitPair(a, b, ',');
    TokensOfTwo(a + ", " + b, a, " " + b);
    StripPair(a, b);
  }

  /** A parameter with two comma-separated pieces gives their stripped forms. */
  lemma TokensOfTwo(s: string, x: string, y: string)
    requires Split(s, ',') == [x, y]
    ensures PriorityTokens(s) == [Strip(x), Strip(y)]
  {
    var r := PriorityTokens(s);
    assert r[0] == Strip(x) && r[1] == Strip(y);
  }

  /** Whether a definition's priority passes the filter: no filter when the
      parameter is absent or empty, otherwise membership in the tokens. */
  predicate PriorityAllowed(priority: Option<string>, p: string)
  {
    !Truthy(priority) || p in PriorityTokens(priority.value)
  }

  /** The features a project listing covers: the given feature if any,
      otherwise the given epic's features, otherwise those of every epic of
      the project. A given feature or epic is used as is, even when it
      belongs to another project. */
  function ScopeFeatures(epics: map<Id, Epic>, features: map<Id, Feature>, projectId: Id,
                         epicId: Option<Id>, featureId: Option<Id>): (r: set<Id>)
    ensures featureId.Some? ==> r == {featureId.value}
    ensures featureId.None? && epicId.Some? ==>
      forall f :: f in r <==> f in features && features[f].epicId == epicId.value
    ensures featureId.None? && epicId.None? ==>
      forall f :: f in r <==> f in features && features[f].epicId in epics
                              && epics[features[f].epicId].projectId == projectId
  {
    if featureId.Some? then {featureId.value}
    else if epicId.Some? then FeaturesOf(features, epicId.value)
    else FeaturesUnder(features, EpicsOf(epics, projectId))
  }

  /** `list_definitions_by_project`: active definitions only, scoped by
      feature before epic before project, filtered by priority, newest first. */
  function ListDefinitionsByProject(epics: map<Id, Epic>, features: map<Id, Feature>, defs: map<Id, Definition>,
                                    projectId: Id, epicId: Option<Id>, featureId: Option<Id>,
                                    priority: Option<string>): (r: seq<Id>)
    ensures forall d :: d in r ==> d in defs && defs[d].isActive && PriorityAllowed(priority, defs[d].priority)
    ensures featureId.Some? ==>
      forall d :: d in r <==> d in defs && defs[d].isActive && PriorityAllowed(priority, defs[d].priority)
                              && defs[d].featureId == featureId.value
    ensures featureId.None? && epicId.Some? ==>
      forall d :: d in r <==> d in defs && defs[d].isActive && PriorityAllowed(priority, defs[d].priority)
                              && defs[d].featureId in features && features[defs[d].featureId].epicId == epicId.value
    ensures featureId.None? && epicId.None? ==>
      forall d :: d in r <==> d in defs && defs[d].isActive && PriorityAllowed(priority, defs[d].priority)
                              && defs[d].featureId in features && features[defs[d].featureId].epicId in epics
                              && epics[features[defs[d].featureId].epicId].projectId == projectId
    ensures forall i, j :: 0 <= i < j < |r| ==> r[i] != r[j] && defs[r[i]].createdAt >= defs[r[j]].createdAt
  {
    var scope := ScopeFeatures(epics, features, projectId, epicId, featureId);
    var ids := set d | d in DefinitionsUnder(defs, scope, true) && PriorityAllowed(priority, defs[d].priority);
    NewestFirstOf(defs, ids, (d: Definition) => d.createdAt)
  }

  /** The keyword arguments `update_definition` receives; None means
      "leave as is". */
  datatype DefinitionPatch = DefinitionPatch(
    title: Option<string>,
    description: Option<string>,
    preconditions: Option<string>,
    steps: Option<seq<StepSpec>>,
    expectedResult: Option<string>,
    priority: Option<string>,
    isActive: Option<bool>)

  /** The definition after the sparse update: each given field replaced,
      the feature and creation time kept, and the update time set to now
      whatever the patch holds. */
  function PatchDefinition(d: Definition, p: DefinitionPatch, now: Time): (r: Definition)
    ensures r.featureId == d.featureId && r.createdAt == d.createdAt && r.updatedAt == now
    ensures r.title == Apply(d.title, p.title) && r.steps == Apply(d.steps, p.steps)
    ensures r.priority == Apply(d.priority, p.priority) && r.isActive == Apply(d.isActive, p.isActive)
    ensures r.description == ApplyOptional(d.description, p.description)
    ensures r.preconditions == ApplyOptional(d.preconditions, p.preconditions)
    ensures r.expectedResult == ApplyOptional(d.expectedResult, p.expectedResult)
  {
    d.(title := Apply(d.title, p.title),
       description := ApplyOptional(d.description, p.description),
       preconditions := ApplyOptional(d.preconditions, p.preconditions),
       steps := Apply(d.steps, p.steps),
       expectedResult := ApplyOptional(d.expectedResult, p.expectedResult),
       priority := Apply(d.priority, p.priority),
       isActive := Apply(d.isActive, p.isActive),
       updatedAt := now)
  }

  /** An empty patch still bumps the update time and changes nothing else,
      and `isActive = true` brings a soft-deleted definition back. */
  lemma PatchDefinitionFacts(d: Definition, p: DefinitionPatch, now: Time)
    ensures PatchDefinition(d, DefinitionPatch(None, None, None, None, None, None, None), now) == d.(updatedAt := now)
    ensures p.isActive == Some(true) ==> PatchDefinition(SoftDeleted(d, now), p, now).isActive
  {
  }

  /** `update_definition`: fails on an unknown id; otherwise only that
      definition changes. */
  method UpdateDefinition(st: Store, definitionId: Id, p: DefinitionPatch, now: Time) returns (r: Result<Definition>)
    requires st.Valid()
    modifies st
    ensures st.Valid() && st.nextId == old(st.nextId)
    ensures r.Err? <==> definitionId !in old(st.definitions)
    ensures r.Err? ==> r.error == DefinitionNotFound(definitionId) && st.Contents() == old(st.Contents())
    ensures r.Ok? ==> r.value == PatchDefinition(old(st.definitions)[definitionId], p, now)
    ensures r.Ok? ==> st.Contents() == old(st.Contents()).(definitions := old(st.definitions)[definitionId := r.value])
  {
    var found := Get(st.definitions, definitionId);
    if found.None? {
      return Err(DefinitionNotFound(definitionId));
    }
    var d := PatchDefinition(found.value, p, now);
    st.definitions := st.definitions[definitionId := d];
    r := Ok(d);
  }

  /** The definition after a soft delete: inactive, updated now, otherwise
      as it was. */
  function SoftDeleted(d: Definition, now: Time): (r: Definition)
    ensures !r.isActive && r.updatedAt == now
    ensures r.(isActive := d.isActive, updatedAt := d.updatedAt) == d
  {
    d.(isActive := false, updatedAt := now)
  }

  /** Soft-deleting again keeps the definition inactive and only moves the
      update time. */
  lemma SoftDeleteTwice(d: Definition, t1: Time, t2: Time)
    ensures SoftDeleted(SoftDeleted(d, t1), t2) == SoftDeleted(d, t2)
  {
  }

  /** `soft_delete_definition`: fails on an unknown id; otherwise only that
      definition changes, and no execution count moves. */
  method SoftDeleteDefinition(st: Store, definitionId: Id, now: Time) returns (r: Result<Definition>)
    requires st.Valid()
    modifies st
    ensures st.Valid() && st.nextId == old(st.nextId)
    ensures r.Err? <==> definitionId !in old(st.definitions)
    ensures r.Err? ==> r.error == DefinitionNotFound(definitionId) && st.Contents() == old(st.Contents())
    ensures r.Ok? ==> r.value == SoftDeleted(old(st.definitions)[definitionId], now)
    ensures r.Ok? ==> st.Contents() == old(st.Contents()).(definitions := old(st.definitions)[definitionId := r.value])
    ensures forall x :: ExecutionCount(st.cases, x) == ExecutionCount(old(st.cases), x)
  {
    var found := Get(st.definitions, definitionId);
    if found.None? {
      return Err(DefinitionNotFound(definitionId));
    }
    var d := SoftDeleted(found.value, now);
    st.definitions := st.definitions[definitionId := d];
    r := Ok(d);
  }

  /** A soft delete keeps the definition in its feature's total count and
      takes it out of the active count if it was active. */
  lemma SoftDeleteCounts(defs: map<Id, Definition>, definitionId: Id, now: Time)
    requires definitionId in defs
    ensures var after := defs[definitionId := SoftDeleted(defs[definitionId], now)];
            var f := defs[definitionId].featureId;
            && FeatureService.TestDefinitionCount(after, f) == FeatureService.TestDefinitionCount(defs, f)
            && FeatureService.ActiveTestDefinitionCount(after, f)
               == FeatureService.ActiveTestDefinitionCount(defs, f) - (if defs[definitionId].isActive then 1 else 0)
  {
    var after := defs[definitionId := SoftDeleted(defs[definitionId], now)];
    var f := defs[definitionId].featureId;
    assert DefinitionsUnder(after, {f}, false) == DefinitionsUnder(defs, {f}, false);
    var before := DefinitionsUnder(defs, {f}, true);
    assert DefinitionsUnder(after, {f}, true) == before - {definitionId};
    if defs[definitionId].isActive {
      assert definitionId in before;
    } else {
      assert definitionId !in before;
    }
  }

  /** `hard_delete_definition`: fails on an unknown id; otherwise removes
      that definition only. Recorded executions keep their reference. */
  method HardDeleteDefinition(st: Store, definitionId: Id) returns (r: Result<()>)
    requires st.Valid()
    modifies st
    ensures st.Valid() && st.nextId == old(st.nextId)
    ensures r.Err? <==> definitionId !in old(st.definitions)
    ensures r.Err? ==> r.error == DefinitionNotFound(definitionId) && st.Contents() == old(st.Contents())
    ensures r.Ok? ==> st.Contents() == old(st.Contents()).(definitions := old(st.definitions) - {definitionId})
    ensures forall x :: ExecutionCount(st.cases, x) == ExecutionCount(old(st.cases), x)
  {
    var found := Get(st.definitions, definitionId);
    if found.None? {
      return Err(DefinitionNotFound(definitionId));
    }
    st.definitions := st.definitions - {definitionId};
    r := Ok(());
  }

  /** A hard delete takes the definition out of its feature's count. */
  lemma HardDeleteCounts(defs: map<Id, Definition>, definitionId: Id)
    requires definitionId in defs
    ensures var f := defs[definitionId].featureId;
            FeatureService.TestDefinitionCount(defs - {definitionId}, f) == FeatureService.TestDefinitionCount(defs, f) - 1
  {
    var f := defs[definitionId].featureId;
    var before := DefinitionsUnder(defs, {f}, false);
    assert DefinitionsUnder(defs - {definitionId}, {f}, false) == before - {definitionId};
    assert definitionId in before;
  }

  /** `get_execution_count`: the recorded cases linked to the definition,
      exactly those `get_cases_by_definition` lists. */
  function ExecutionCount(cases: map<Id, TestCase>, definitionId: Id): (n: nat)
    ensures n == |CaseService.CasesByDefinition(cases, definitionId)|
    ensures n == 0 <==> forall c :: c in cases ==> cases[c].definitionId != Some(definitionId)
  {
    var s := set c | c in cases && cases[c].definitionId == Some(definitionId);
    var listed := CaseService.CasesByDefinition(cases, definitionId);
    DistinctCard(listed, s);
    assert forall c :: c in cases && cases[c].definitionId == Some(definitionId) ==> c in s;
    |s|
  }

  /** A listing without repetitions has as many entries as the set it lists. */
  lemma {:induction false} DistinctCard(r: seq<Id>, s: set<Id>)
    requires forall i, j :: 0 <= i < j < |r| ==> r[i] != r[j]
    requires forall x :: x in r <==> x in s
    ensures |r| == |s|
    decreases |r|
  {
    if r != [] {
      var tail := r[1..];
      assert forall x :: x in tail <==> x in s - {r[0]} by {
        forall x ensures x in tail <==> x in s - {r[0]} {
          if x in tail {
            var k :| 0 <= k < |tail| && tail[k] == x;
            assert r[k + 1] == x;
          }
          if x in s - {r[0]} {
            assert x in r;
            var k :| 0 <= k < |r| && r[k] == x;
            assert k != 0;
            assert tail[k - 1] == x;
          }
        }
      }
      DistinctCard(tail, s - {r[0]});
    } else {
      assert forall x :: x !in s;
    }
  }
}
