/** Values shared by the registry and the race: what a dial task carries
    into a peer's queue, and what a failed dial reports. */
module DialTypes {

  /** `None` stands for a JavaScript value that is falsy (`null`,
      `undefined`, …); `Some(v)` for a truthy value `v`. */
  datatype Option<+T> = None | Some(value: T)

  /** An error recorded for one failed dial: the error the attempt reported,
      or the default `CONNECTION_FAILED` error when it reported none. */
  datatype DialError<+E> = Reported(error: E) | ConnectionFailed

  /** The `{ cancel }` object one `dialMany` call shares with all of its
      tasks. `id` stands for the identity of the JavaScript object, so two
      tasks share a token exactly when their ids are equal. */
  datatype CancelToken = CancelToken(id: nat, cancel: bool)

  /** The completion handler of task `task` of the `dialMany` call whose
      token has id `call`. */
  datatype TaskHandler = TaskHandler(call: nat, task: nat)

  /** A transport object, by identity. */
  datatype Transport = Transport(id: nat)

  /** A candidate address, by its string form; equal strings are duplicates. */
  datatype Multiaddr = Multiaddr(text: string)

  /** A connection a successful dial produces, by identity. */
  datatype Connection = Connection(id: nat)

  /** An error a failed dial reports. */
  datatype Failure = Failure(message: string)

  /** The arguments of one `q.push(transport, addr, token, callback)`. */
  datatype DialJob = DialJob(transport: Transport, addr: Multiaddr, token: CancelToken, handler: TaskHandler)
}
