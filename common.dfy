/** Shared vocabulary of the service layer: identifiers, clock readings,
    optional values, results and the typed errors the services raise. */
module Common {

  /** A document identifier. The store hands identifiers out in increasing
      order, so ascending identifiers are insertion order. */
  type Id = nat

  /** A reading of `datetime.utcnow()`, in microseconds (the resolution of
      Python's datetime). */
  type Time = int

  datatype Option<+T> = None | Some(value: T)

  datatype Result<+R> = Ok(value: R) | Err(error: Error)

  /** The exceptions raised by the services. `run_service` raises a plain
      `ValueError` in two situations; they are told apart here by variant.
      `DuplicateProjectName` is the failure of the store's unique index on
      project names. */
  datatype Error =
    | RunNotFound(runId: Id)
    | RunAlreadyCompleted(runId: Id)
    | CaseNotFound(caseId: Id)
    | ProjectNotFound(projectId: Id)
    | EpicNotFound(epicId: Id)
    | FeatureNotFound(featureId: Id)
    | DefinitionNotFound(definitionId: Id)
    | DeletionConstraint(kind: string, id: Id, reason: string)
    | DuplicateProjectName(name: string)

  /** `Document.get(id)`: the stored record, or None for an unknown id
      (never an error). */
  function Get<T>(m: map<Id, T>, id: Id): (r: Option<T>)
    ensures r.Some? <==> id in m
    ensures r.Some? ==> r.value == m[id]
  {
    if id in m then Some(m[id]) else None
  }

  /** Python truthiness of an optional string: neither None nor "". */
  predicate Truthy(s: Option<string>)
  {
    s.Some? && s.value != ""
  }

  /** One step of the services' sparse update loop: a keyword argument is
      written to its field unless its value is None. */
  function Apply<T>(current: T, given: Option<T>): (r: T)
    ensures given.None? ==> r == current
    ensures given.Some? ==> r == given.value
  {
    if given.Some? then given.value else current
  }

  /** The same for a field that may hold None: a None argument is skipped,
      so the update can set such a field but never clear it. */
  function ApplyOptional<T>(current: Option<T>, given: Option<T>): (r: Option<T>)
    ensures given.None? ==> r == current
    ensures given.Some? ==> r == given
    ensures current.Some? ==> r.Some?
  {
    if given.Some? then given else current
  }
}
