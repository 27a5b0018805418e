/** Optional values, and the status a remote call ends with. */
module Outcomes {

  datatype Option<+T> = None | Some(value: T)

  /** grpc::Status. */
  datatype Status = Ok | Failed(message: string)
}
