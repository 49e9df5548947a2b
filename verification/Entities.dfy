/** The ids, instants and statuses that several parts of the product speak of. */
module Entities {

  /** User ids are opaque keys; numbers stand for the source's uuid strings. */
  type UserId = nat

  type TaskId = nat

  type DutyId = nat

  /** A request or job under way. */
  type Pid = nat

  /** Milliseconds since 1 January 1970, UTC. */
  type Time = int

  datatype Status = Open | InProgress | OnHold | Review | Completed | Canceled
}
