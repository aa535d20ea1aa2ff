/** What a report or a session can be alerted to. */
module Alerts {

  type Id = nat

  /** An uncovered target names every reservation waiting on it, and each other alert names one. */
  datatype Alert =
    | TargetMissing(id: Id)
    | TargetUncovered(waiting: seq<Id>)
    | MergeExtentUnavailable(id: Id)
    | LostIntegrationEvidence(id: Id)
    | OrphanedOutstanding(id: Id)
  {
    function Reservations(): seq<Id> {
      match this
      case TargetUncovered(waiting) => waiting
      case TargetMissing(id) => [id]
      case MergeExtentUnavailable(id) => [id]
      case LostIntegrationEvidence(id) => [id]
      case OrphanedOutstanding(id) => [id]
    }
  }
}
