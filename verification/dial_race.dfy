/** The completion handling of one `dialMany` call, as a deterministic
    state machine over the order in which its tasks report back. JavaScript
    runs one callback at a time, so any run of the call is one sequence of
    completions fed to `Step`. */
module DialRace {
  import opened DialTypes

  /** One task reporting back through its `dialSingle` callback `(err, res)`. */
  datatype Completion<C, E> = Completion(task: nat, err: Option<E>, res: Option<C>)

  /** One invocation of the caller's callback: `callback(null, conn)` or
      `callback(errors)`. */
  datatype Delivery<C, E> = Connected(conn: C) | AllFailed(errors: seq<DialError<E>>)

  /** What a task passes to the race's `cb`: `cb(null, res)` or `cb(errors)`. */
  datatype Signal<C> = Won(conn: C) | Exhausted

  /** Whether the race has resolved, and how. */
  datatype Phase<C, E> = Pending | Succeeded(conn: C) | Failed(errors: seq<DialError<E>>)

  /** `tasks` is `tasks.length`; `errors` the shared `errors` array;
      `onceCalled` the flag of the `once` wrapper around the caller's
      callback; `calls` every invocation that reached the caller. */
  datatype RaceState<C, E> = RaceState(
    tasks: nat,
    errors: seq<DialError<E>>,
    phase: Phase<C, E>,
    onceCalled: bool,
    calls: seq<Delivery<C, E>>)

  /** The state right after `dialMany` has created `tasks` tasks. */
  function Start<C, E>(tasks: nat): RaceState<C, E>
  {
    RaceState(tasks, [], Pending, false, [])
  }

  /** The error recorded for a failed dial: `err || CONNECTION_FAILED()`. */
  function ErrorOf<E>(err: Option<E>): DialError<E>
  {
    if err.Some? then Reported(err.value) else ConnectionFailed
  }

  /** The error a completion contributes: none for a truthy result. */
  function ErrorsOf<C, E>(c: Completion<C, E>): seq<DialError<E>>
  {
    if c.res.Some? then [] else [ErrorOf(c.err)]
  }

  /** The task's completion handler: a truthy result signals the race at
      once; otherwise the error is recorded and the race is signalled when
      the error count has reached the task count. */
  function Handle<C, E>(s: RaceState<C, E>, c: Completion<C, E>): (r: (RaceState<C, E>, Option<Signal<C>>))
    ensures r.0 == s.(errors := s.errors + ErrorsOf(c))
    ensures c.res.Some? ==> r.1 == Some(Won(c.res.value))
    ensures c.res.None? ==> r.1 == (if |s.errors| + 1 == s.tasks then Some(Exhausted) else None)
  {
    if c.res.Some? then (s, Some(Won(c.res.value)))
    else
      var errors := s.errors + [ErrorOf(c.err)];
      (s.(errors := errors), if |errors| == s.tasks then Some(Exhausted) else None)
  }

  /** The caller's callback behind `once`: only the first invocation gets
      through. */
  function Invoke<C, E>(s: RaceState<C, E>, d: Delivery<C, E>): (r: RaceState<C, E>)
    ensures r.onceCalled
    ensures r.tasks == s.tasks && r.errors == s.errors && r.phase == s.phase
    ensures s.onceCalled ==> r.calls == s.calls
    ensures !s.onceCalled ==> r.calls == s.calls + [d]
  {
    if s.onceCalled then s else s.(onceCalled := true, calls := s.calls + [d])
  }

  /** The race's `cb`: resolved by the first signal it receives, which the
      final callback turns into a call of the caller's callback; every later
      signal is ignored. */
  function Settle<C, E>(s: RaceState<C, E>, sig: Signal<C>): (r: RaceState<C, E>)
    ensures !s.phase.Pending? ==> r == s
    ensures s.phase.Pending? && sig.Won? ==>
              r.phase == Succeeded(sig.conn) && r.calls == s.calls + (if s.onceCalled then [] else [Connected(sig.conn)])
    ensures s.phase.Pending? && sig.Exhausted? ==>
              r.phase == Failed(s.errors) && r.calls == s.calls + (if s.onceCalled then [] else [AllFailed(s.errors)])
    ensures r.tasks == s.tasks && r.errors == s.errors
    ensures r.onceCalled == (s.onceCalled || s.phase.Pending?)
  {
    if !s.phase.Pending? then s
    else
      match sig
      case Won(conn) => Invoke(s.(phase := Succeeded(conn)), Connected(conn))
      case Exhausted => Invoke(s.(phase := Failed(s.errors)), AllFailed(s.errors))
  }

  /** The delivery a resolved phase stands for. */
  function DeliveryOf<C, E>(p: Phase<C, E>): Delivery<C, E>
    requires !p.Pending?
  {
    if p.Succeeded? then Connected(p.conn) else AllFailed(p.errors)
  }

  /** What every state reachable from `Start` satisfies: the `once` flag is
      set exactly when the race has resolved, the caller has been called
      exactly once after resolution and never before, and an aggregate
      failure carries one error per task, taken from the front of the errors
      recorded so far. */
  ghost predicate Inv<C, E>(s: RaceState<C, E>)
  {
    && (s.onceCalled <==> !s.phase.Pending?)
    && (s.phase.Pending? ==> s.calls == [] && (s.tasks == 0 || |s.errors| < s.tasks))
    && (!s.phase.Pending? ==> s.calls == [DeliveryOf(s.phase)])
    && (s.phase.Failed? ==> |s.phase.errors| == s.tasks && s.phase.errors <= s.errors)
  }

  /** One completion handled to the end: the handler, then (if it signalled)
      the race, then (if the race was still pending) the caller. */
  function Step<C, E>(s: RaceState<C, E>, c: Completion<C, E>): (r: RaceState<C, E>)
    ensures r.tasks == s.tasks
    ensures r.errors == s.errors + ErrorsOf(c)
    ensures !s.phase.Pending? ==> r.phase == s.phase && r.calls == s.calls
    ensures Inv(s) && s.phase.Pending? && c.res.Some? ==>
              r.phase == Succeeded(c.res.value) && r.calls == [Connected(c.res.value)]
    ensures Inv(s) && s.phase.Pending? && c.res.None? && |r.errors| == s.tasks ==>
              r.phase == Failed(r.errors) && r.calls == [AllFailed(r.errors)]
    ensures s.phase.Pending? && c.res.None? && |r.errors| != s.tasks ==> r.phase.Pending? && r.calls == s.calls
    ensures Inv(s) ==> Inv(r)
  {
    var (s1, sig) := Handle(s, c);
    if sig.None? then s1 else Settle(s1, sig.value)
  }

  /** The state after the completions of `trace`, handled in order, from
      the start of a call with `tasks` tasks. */
  function Run<C, E>(tasks: nat, trace: seq<Completion<C, E>>): RaceState<C, E>
  {
    if |trace| == 0 then Start(tasks)
    else Step(Run(tasks, trace[..|trace| - 1]), trace[|trace| - 1])
  }
}
