# Limit dialer: dial racing and the per-peer queue registry

A Dafny model of the `LimitDialer` of a libp2p switch
(`src/limit-dialer/index.js`). The dialer keeps one dial queue per peer.
`dialMany` races one dial task per candidate address of a peer and reports
to its caller once. The report is either the first connection that succeeds
or, when every attempt has failed, the list of their errors.

The model has two parts.

- **The queue registry** (`limit_dialer.dfy`, module `LimitDialer`). A
  `Dialer` holds `perPeerLimit`, `dialTimeout` and a
  `map<string, DialQueue>` keyed by the peer's string id. `DialSingle` is
  `dialSingle`: it reuses the peer's queue or creates one from the dialer's
  configuration, then pushes the job. A push appends to the queue's pending
  list; nothing else about the queue is modelled. `StartDialMany` is the
  start of `dialMany`. It creates one fresh, uncancelled token and one job
  per address, each with its own completion handler, and pushes them all
  onto the peer's queue. A token's identity is its `id`. Freshness is the
  precondition that no queued job already carries that id, as line 41
  builds a new object on every call.
- **The completion state machine** (`dial_race.dfy`, module `DialRace`;
  proofs in `dial_race_proofs.dfy`, module `DialRaceProofs`). JavaScript
  runs one callback at a time, so a run of one `dialMany` call is a
  sequence of `Completion(task, err, res)` events. `None` stands for a falsy
  `err` or `res`. `Step` handles one event in three layers:
  - `Handle` is the task's handler. A truthy result signals a win. Any other
    result pushes `err || CONNECTION_FAILED()` onto the shared `errors`
    array, and signals when the array length reaches the task count.
  - `Settle` is the race. Its first signal resolves it: the phase goes from
    `Pending` to `Succeeded(conn)` or `Failed(errors)`, and the final
    callback calls the caller. Every later signal is ignored.
  - `Invoke` is the `once` wrapper around the caller's callback.

  `Run(n, trace)` folds `Step` over the events. The state's `calls` field
  records every call that reached the caller.

`dial_types.dfy` (module `DialTypes`) holds the shared values: `Option`,
the recorded `DialError` (a reported error or `ConnectionFailed`), the
`CancelToken`, the pushed `DialJob`, and opaque stand-ins for transports,
addresses, connections and reported errors. The race itself is generic in
the connection and error types.

Three behaviours one might expect of a dial racer are not in this code, and
the model follows the code:

- The token is not cancelled once a winner is found. This file never sets
  `token.cancel`: it creates the token with `cancel: false` at line 41, so
  every pushed job carries an uncancelled token.
- There is no dedicated "no addresses" failure. The file passes an empty
  task list to `async/race` unchanged, and what happens then is that
  library's behaviour.
- Delivery is "at most once" for every order of events
  (`AtMostOneDelivery`), not "exactly once". It is exactly once when there
  is at least one task and at least one completion per task arrives
  (`ExactlyOnceWhenAllReported`).

## Model

| member | source | states |
|---|---|---|
| LimitDialer.NewDialer | src/limit-dialer/index.js:22-27 | the constructor keeps `perPeerLimit` and `dialTimeout` as given and starts with an empty registry |
| LimitDialer.DialSingle | src/limit-dialer/index.js:78-90 | after `dialSingle` the peer has a queue and no other key is added; an existing queue keeps its configuration and a created one takes the dialer's; the job is appended to that peer's pending list only; every other peer's queue is untouched; queues built from the dialer's configuration stay so |
| LimitDialer.DialAllKeys | src/limit-dialer/index.js:81-87 | after any sequence of `dialSingle` calls, the peers with a queue are exactly those that had one plus those that were dialled, so there is one queue per peer |
| LimitDialer.DialAllPending | src/limit-dialer/index.js:78-90 | however calls for different peers interleave, each peer's queue holds its earlier jobs followed by exactly the jobs addressed to it, in call order |
| LimitDialer.DialAllConfig | src/limit-dialer/index.js:82-87 | a sequence of `dialSingle` calls never replaces a queue: an existing queue keeps its limit and timeout, the dialer's configuration is unchanged, and every queue still carries the dialer's configuration |
| LimitDialer.StartDialMany | src/limit-dialer/index.js:38-57 | for a token id not yet in use, `dialMany` keeps the peer's earlier jobs and appends exactly one job per address after them, in address order and without removing duplicates; all jobs carry the transport and share that one uncancelled token, and job `i` has the handler of task `i`; the dialer's configuration is unchanged, every other peer's queue is unchanged in full, the peer's existing queue keeps its limit and timeout, and a queue is created only for this peer; the race starts pending with as many tasks as addresses |
| LimitDialer.NewDialerQueues | src/limit-dialer/index.js:22-90 | starting from a newly constructed dialer, after any sequence of `dialSingle` calls exactly the dialled peers have a queue, each built from the dialer's configuration and holding exactly the jobs addressed to that peer, in call order |
| DialRace.Handle | src/limit-dialer/index.js:46-54 | a truthy result signals a win with that result and records no error; a falsy result records exactly one error and sends the failure signal `cb(errors)` exactly when the error count reaches the task count, and no signal otherwise; the handler never touches the race or the caller |
| DialRace.Invoke | src/limit-dialer/index.js:42 | the `once` wrapper passes the first call through and swallows every later one; it never changes the race's phase, the error log or the task count |
| DialRace.Settle | src/limit-dialer/index.js:57-65 | the race's resolve-once guard: a resolved race ignores every signal and nothing changes; on a pending race a win resolves it as `Succeeded(conn)` and calls the caller with `(null, conn)`, exhaustion resolves it as `Failed(errors)` and calls the caller with the error list; resolving uses up the `once` wrapper; the error log is untouched |
| DialRace.Step | src/limit-dialer/index.js:46-65 | one completion appends at most its one error; a resolved race never changes phase or calls the caller again; a success on a pending race makes it `Succeeded` with exactly one call `(null, conn)`; the failure that brings the count to the task count makes it `Failed` with the error list; any other failure leaves it pending; the reachable-state invariant is preserved |
| DialRaceProofs.RunInvariant | src/limit-dialer/index.js:42-65 | every reachable state satisfies the invariant: once-flag set iff resolved, no call while pending, exactly the resolving call afterwards, an aggregate failure of one error per task taken from the front of the log; the error log equals the reference `Failures` |
| DialRaceProofs.ErrorsInArrivalOrder | src/limit-dialer/index.js:47-49 | each failure appends exactly one error, with `CONNECTION_FAILED` standing in for a missing error; a success appends none; the log is the failures' errors in arrival order, also after resolution |
| DialRaceProofs.AtMostOneDelivery | src/limit-dialer/index.js:42-65 | for any sequence of completions the caller's callback is invoked at most once |
| DialRaceProofs.OnceNeverSuppresses | src/limit-dialer/index.js:42-65 | the `once` flag is set exactly when the race has resolved and exactly when the caller has been called, so the race's guard alone prevents a second call |
| DialRaceProofs.QuietUntilSignalled | src/limit-dialer/index.js:46-54 | while no completion has been a success or brought the failure count to the task count, the race is pending and the caller has not been called |
| DialRaceProofs.PendingIsQuiet | src/limit-dialer/index.js:46-54 | conversely, a race that is still pending has seen no success and no failure that brought the count to the task count |
| DialRaceProofs.ResolutionIsFinal | src/limit-dialer/index.js:57-65 | once resolved, later completions (successes or failures) change neither the outcome nor the caller's calls |
| DialRaceProofs.SuccessWins | src/limit-dialer/index.js:47-60 | if the first completion to signal the race has a truthy result, the race ends `Succeeded` with it and the caller receives exactly `(null, conn)` for that result, whatever arrives later |
| DialRaceProofs.SuccessWhilePending | src/limit-dialer/index.js:47-60 | a success arriving while the race is pending is the one the caller receives, as its only call, whatever arrives later |
| DialRaceProofs.LastFailureWhilePending | src/limit-dialer/index.js:49-64 | the failure that brings the count to the task count while the race is pending delivers the whole error log, as many errors as tasks, in arrival order, as the caller's only call |
| DialRaceProofs.AggregateFailure | src/limit-dialer/index.js:49-64 | if the first completion to signal is the failure that brings the count to the task count, the caller receives exactly the error list: one error per failure in arrival order, as many as tasks |
| DialRaceProofs.DeliveryNeedsSignal | src/limit-dialer/index.js:51-65 | the caller is called only if some completion was a success or brought the failure count to the task count |
| DialRaceProofs.PendingMeansNoWinner | src/limit-dialer/index.js:47-53 | while the race is pending, every completion so far has failed and, with at least one task, fewer completions than tasks have arrived |
| DialRaceProofs.ExactlyOnceWhenAllReported | src/limit-dialer/index.js:45-65 | with at least one task, once at least as many completions as tasks have arrived the caller has been called exactly once |
| DialRaceProofs.EveryTaskFailed | src/limit-dialer/index.js:45-64 | when each task reports at most once, an aggregate failure means every task reported exactly once and failed; no success arrived, and the delivered list is the whole error log, one error per task in arrival order |

## Left out

- The dial queue (`./queue`) is not part of this model. Its concurrency limit, FIFO admission, per-attempt timeout and token checks are not modelled; a push is an append to the queue's pending list.
- Cancellation is not modelled. This file creates the token but never sets `token.cancel`.
- The internals of `async/race` and `once` are library code. The model assumes that `race` starts every task once, in array order, and resolves on the first call of its `cb`; `Settle` encodes that as an explicit guard.
- The empty address list is not modelled, because the outcome of `race([])` is decided by `async/race`. The proofs about exactly-once delivery and aggregate failure assume at least one task.
- Logging (`debug`) is left out. `peer.toB58String()` becomes the `key` string parameter, and `addr.toString()` is used only for logging.
- Transport dialing, timers and real concurrency are left out. Completions arrive as an ordered event sequence, and which events happen is a parameter of the proofs.
- `perPeerLimit` and `dialTimeout` are JavaScript numbers and are not validated by the constructor. The model uses `int` and does not validate them either.
- Object identity is modelled by values: the token by its `id`, each task's callback by `TaskHandler(call, task)`, transports and connections by an `id`, and addresses by a string, so equal strings are duplicate addresses.
- The caller receives the shared `errors` array, and the handler keeps pushing to it after resolution. The model records a snapshot instead. `EveryTaskFailed` shows that no push follows an aggregate failure when each task reports at most once, so the snapshot equals the array there.
