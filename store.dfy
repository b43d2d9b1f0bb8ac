/** The document store the services share: one collection per entity kind,
    keyed by id, with test steps embedded in their test case. */
module Store {
  import opened Common
  import opened Models

  /** The contents of all six collections at one moment. */
  datatype Db = Db(
    projects: map<Id, Project>,
    epics: map<Id, Epic>,
    features: map<Id, Feature>,
    definitions: map<Id, Definition>,
    runs: map<Id, TestRun>,
    cases: map<Id, TestCase>)

  /** No two projects share a name: the unique index on `Project.name`. */
  ghost predicate NamesUnique(projects: map<Id, Project>)
  {
    forall a, b :: a in projects && b in projects && projects[a].name == projects[b].name ==> a == b
  }

  /** Whether some stored project other than `except` has this name. */
  predicate NameTaken(projects: map<Id, Project>, name: string, except: Option<Id>)
  {
    exists id :: id in projects && projects[id].name == name && except != Some(id)
  }

  class Store {
    var projects: map<Id, Project>
    var epics: map<Id, Epic>
    var features: map<Id, Feature>
    var definitions: map<Id, Definition>
    var runs: map<Id, TestRun>
    var cases: map<Id, TestCase>
    /** The next identifier to hand out. */
    var nextId: Id
    /** The clock reading taken when the record classes were loaded: the
        default `created_at` of a test case. */
    const importTime: Time

    ghost function Contents(): Db
      reads this
    {
      Db(projects, epics, features, definitions, runs, cases)
    }

    ghost predicate Valid()
      reads this
    {
      && (forall id :: id in projects ==> id < nextId)
      && (forall id :: id in epics ==> id < nextId)
      && (forall id :: id in features ==> id < nextId)
      && (forall id :: id in definitions ==> id < nextId)
      && (forall id :: id in runs ==> id < nextId)
      && (forall id :: id in cases ==> id < nextId)
      && NamesUnique(projects)
    }

    /** An empty store, connected when the application starts. */
    constructor (importTime: Time)
      ensures Valid()
      ensures Contents() == Db(map[], map[], map[], map[], map[], map[])
      ensures this.importTime == importTime
    {
      projects, epics, features, definitions, runs, cases := map[], map[], map[], map[], map[], map[];
      nextId := 0;
      this.importTime := importTime;
    }

    /** A fresh identifier, unused in every collection. */
    method FreshId() returns (id: Id)
      requires Valid()
      modifies this`nextId
      ensures Valid()
      ensures id == old(nextId) && nextId == id + 1
      ensures id !in projects && id !in epics && id !in features
      ensures id !in definitions && id !in runs && id !in cases
    {
      id := nextId;
      nextId := nextId + 1;
    }
  }
}
