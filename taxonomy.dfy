/** Child lookups over the Project → Epic → Feature → Definition tree, as the
    services query them by parent reference, and the facts that let a count
    over a whole subtree be split into per-child counts. */
module Taxonomy {
  import opened Common
  import opened Models

  /** `Epic.find(Epic.project_id == p)`. */
  function EpicsOf(epics: map<Id, Epic>, projectId: Id): set<Id>
  {
    set e | e in epics && epics[e].projectId == projectId
  }

  /** `Feature.find(Feature.epic_id == e)`. */
  function FeaturesOf(features: map<Id, Feature>, epicId: Id): set<Id>
  {
    set f | f in features && features[f].epicId == epicId
  }

  /** `Feature.find({"epic_id": {"$in": epicIds}})`. */
  function FeaturesUnder(features: map<Id, Feature>, epicIds: set<Id>): set<Id>
  {
    set f | f in features && features[f].epicId in epicIds
  }

  /** `TestCaseDefinition.find({"feature_id": {"$in": featureIds}})`, with
      `"is_active": True` added when `activeOnly`. */
  function DefinitionsUnder(defs: map<Id, Definition>, featureIds: set<Id>, activeOnly: bool): set<Id>
  {
    set d | d in defs && defs[d].featureId in featureIds && (!activeOnly || defs[d].isActive)
  }

  /** The active definitions are among all definitions of the same features,
      so an active count never exceeds the matching total. */
  lemma ActiveAmongAll(defs: map<Id, Definition>, featureIds: set<Id>)
    ensures DefinitionsUnder(defs, featureIds, true) <= DefinitionsUnder(defs, featureIds, false)
    ensures |DefinitionsUnder(defs, featureIds, true)| <= |DefinitionsUnder(defs, featureIds, false)|
  {
    var active := DefinitionsUnder(defs, featureIds, true);
    var all := DefinitionsUnder(defs, featureIds, false);
    assert all == active + (all - active);
  }

  /** Definitions under two disjoint groups of features are the disjoint
      union of those under each group. */
  lemma UnderDisjointUnion(defs: map<Id, Definition>, a: set<Id>, b: set<Id>, activeOnly: bool)
    requires a !! b
    ensures DefinitionsUnder(defs, a + b, activeOnly)
            == DefinitionsUnder(defs, a, activeOnly) + DefinitionsUnder(defs, b, activeOnly)
    ensures |DefinitionsUnder(defs, a + b, activeOnly)|
            == |DefinitionsUnder(defs, a, activeOnly)| + |DefinitionsUnder(defs, b, activeOnly)|
  {
    var da := DefinitionsUnder(defs, a, activeOnly);
    var db := DefinitionsUnder(defs, b, activeOnly);
    assert da !! db;
  }

  /** The distinct elements of a listing. */
  function Elements(s: seq<Id>): set<Id>
  {
    set x | x in s
  }

  predicate Distinct(s: seq<Id>)
  {
    forall i, j :: 0 <= i < j < |s| ==> s[i] != s[j]
  }

  lemma ElementsSplit(s: seq<Id>)
    requires s != [] && Distinct(s)
    ensures Elements(s) == {s[0]} + Elements(s[1..])
    ensures s[0] !in Elements(s[1..])
    ensures Distinct(s[1..])
  {
    assert s == [s[0]] + s[1..];
    assert forall k :: 0 <= k < |s| - 1 ==> s[1..][k] == s[k + 1];
  }

  /** Features of different epics are different features. */
  lemma FeaturesUnderSplit(features: map<Id, Feature>, e: Id, rest: set<Id>)
    requires e !in rest
    ensures FeaturesUnder(features, {e} + rest) == FeaturesOf(features, e) + FeaturesUnder(features, rest)
    ensures FeaturesOf(features, e) !! FeaturesUnder(features, rest)
  {
  }
}
