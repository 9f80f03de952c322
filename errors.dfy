/** Failure-carrying values shared by the whole model. */
module Errors {

  /** An optional value; `None` stands for Go's nil error or an absent result. */
  datatype Option<+T> = None | Some(value: T)

  /** A value or the error that prevented it, as Go's `(T, error)` pairs. */
  datatype Result<+T> = Success(value: T) | Failure(error: Error)

  /** The errors this core produces itself, and an opaque one for errors
      that come back from the cluster provider or the task runner. */
  datatype Error =
    | NoNodesFound(cluster: string)  // "no nodes found for cluster %q"
    | UnknownNode(name: string)      // "unknown node: %q"
    | External(message: string)      // passed through unchanged
}
