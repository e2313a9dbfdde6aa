/** The errors a route part reports. The LrsError and LrsOrigin classes live in error.py,
    which is not part of this model; the model keeps the kind, the route id, the measure
    and the provenance and drops the geometry each error carries for display. */
module Errors {
  import opened Wrappers

  type RouteId = string

  /** Provenance: a feature id and its sub-geometry index and count. */
  datatype Origin = Origin(fid: int, geoPart: int, nGeoParts: int)

  datatype ErrorKind = NotEnoughMilestones | DirectionGuess | WrongMeasure

  datatype LrsError = LrsError(kind: ErrorKind, routeId: RouteId, measure: Option<real>, origins: seq<Origin>)
}
