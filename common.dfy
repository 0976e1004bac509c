/** Results and the error taxonomy of the services.  Every exception the
    services throw on a rejected request becomes an `Error`; a request that
    is accepted yields `Ok`. */
module Common {

  datatype Option<+T> = None | Some(value: T) {
    function GetOr(default: T): T {
      match this
      case Some(v) => v
      case None => default
    }
  }

  /** Why a `BadRequest` or `Conflict` was raised; the source tells them apart
      only by their message text. */
  datatype Reason =
    | PastDeadline          // joining a meeting whose date has passed
    | HostCannotJoin        // the host asked to join their own meeting
    | MeetingFull           // current >= max on join or approve
    | AlreadyApplied        // a participation for (user, meeting) exists
    | NotPending            // approve/reject of a row that is not PENDING
    | NotAccepted           // cancel-approval of a row that is not ACCEPTED
    | NotRejected           // cancel-rejection of a row that is not REJECTED
    | NotEnoughSlots        // approve-all with more pending rows than free seats
    | CapacityBelowCurrent  // edit lowering maxParticipants below the occupancy
    | MeetingFinished       // deleting a meeting whose date has passed
    | EmailTaken
    | NicknameTaken

  datatype Error =
    | NotFound
    | Gone
    | Forbidden
    | BadRequest(reason: Reason)
    | Conflict(reason: Reason)
    | Internal              // any other exception (store errors, missing user id)

  datatype Result<+T> = Ok(value: T) | Err(error: Error)

  /** What an operation without a return value reports. */
  datatype Outcome = Done | Failed(error: Error)
}
