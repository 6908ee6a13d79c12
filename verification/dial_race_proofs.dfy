/** Properties of the `dialMany` completion handling over every order in
    which its tasks may report back. */
module DialRaceProofs {
  import opened DialTypes
  import opened DialRace

  /** Reference definition of the error log: one error per completion whose
      result is falsy, in arrival order. */
  function Failures<C, E>(trace: seq<Completion<C, E>>): seq<DialError<E>>
  {
    if |trace| == 0 then []
    else
      var last := trace[|trace| - 1];
      Failures(trace[..|trace| - 1]) + (if last.res.None? then [ErrorOf(last.err)] else [])
  }

  /** The handler of the last completion of `prefix` signals the race: its
      result is truthy, or its failure brings the failure count to `n`. */
  ghost predicate SignalsAtEnd<C, E>(n: nat, prefix: seq<Completion<C, E>>)
  {
    |prefix| > 0 && (prefix[|prefix| - 1].res.Some? || |Failures(prefix)| == n)
  }

  /** No completion of `trace` signals the race. */
  ghost predicate NeverSignals<C, E>(n: nat, trace: seq<Completion<C, E>>)
  {
    forall k :: 0 < k <= |trace| ==> !SignalsAtEnd(n, trace[..k])
  }

  /** The completions come from tasks `0 .. n-1`, each reporting at most once. */
  ghost predicate WellFormed<C, E>(n: nat, trace: seq<Completion<C, E>>)
  {
    && (forall i :: 0 <= i < |trace| ==> trace[i].task < n)
    && (forall i, j :: 0 <= i < j < |trace| ==> trace[i].task != trace[j].task)
  }

  /** The tasks that report in `trace`. */
  ghost function TasksOf<C, E>(trace: seq<Completion<C, E>>): set<nat>
  {
    set i | 0 <= i < |trace| :: trace[i].task
  }

  /** Every reachable state satisfies the invariant, keeps the task count
      and holds exactly the reference error log. */
  lemma {:induction false} RunInvariant<C, E>(n: nat, trace: seq<Completion<C, E>>)
    ensures Inv(Run(n, trace))
    ensures Run(n, trace).tasks == n
    ensures Run(n, trace).errors == Failures(trace)
  {
    if |trace| > 0 {
      RunInvariant(n, trace[..|trace| - 1]);
    }
  }

  /** Each failure appends exactly one error, in arrival order, with
      `CONNECTION_FAILED` standing in for a missing error; a success appends
      none. This holds after resolution too: the shared array keeps growing. */
  lemma ErrorsInArrivalOrder<C, E>(n: nat, trace: seq<Completion<C, E>>, c: Completion<C, E>)
    ensures Run(n, trace + [c]).errors == Run(n, trace).errors + (if c.res.Some? then [] else [ErrorOf(c.err)])
    ensures Run(n, trace).errors == Failures(trace)
  {
    assert (trace + [c])[..|trace|] == trace;
    RunInvariant(n, trace);
  }

  /** The caller's callback is invoked at most once, whatever completions
      arrive and in whatever order. */
  lemma AtMostOneDelivery<C, E>(n: nat, trace: seq<Completion<C, E>>)
    ensures |Run(n, trace).calls| <= 1
  {
    RunInvariant(n, trace);
  }

  /** The `once` wrapper never swallows a call: its flag is set exactly when
      the race has resolved, so the race's own guard already keeps the
      caller from a second call. */
  lemma OnceNeverSuppresses<C, E>(n: nat, trace: seq<Completion<C, E>>)
    ensures Run(n, trace).onceCalled <==> !Run(n, trace).phase.Pending?
    ensures Run(n, trace).onceCalled <==> |Run(n, trace).calls| == 1
  {
    RunInvariant(n, trace);
  }

  /** While no completion has signalled the race, it stays pending and the
      caller has not been called. */
  lemma {:induction false} QuietUntilSignalled<C, E>(n: nat, trace: seq<Completion<C, E>>)
    requires NeverSignals(n, trace)
    ensures Run(n, trace).phase.Pending?
    ensures Run(n, trace).calls == []
  {
    if |trace| > 0 {
      var init := trace[..|trace| - 1];
      forall k | 0 < k <= |init| ensures !SignalsAtEnd(n, init[..k]) {
        assert init[..k] == trace[..k];
      }
      QuietUntilSignalled(n, init);
      RunInvariant(n, trace);
      assert trace[..|trace|] == trace;
      assert !SignalsAtEnd(n, trace[..|trace|]);
    }
  }

  /** The converse: a race that is still pending has had no completion that
      signals it, so `SuccessWins` and `AggregateFailure` apply to any
      completion arriving while the race is pending. */
  lemma {:induction false} PendingIsQuiet<C, E>(n: nat, trace: seq<Completion<C, E>>)
    requires Run(n, trace).phase.Pending?
    ensures NeverSignals(n, trace)
  {
    PendingMeansNoWinner(n, trace);
    forall k | 0 < k <= |trace| ensures !SignalsAtEnd(n, trace[..k]) {
      assert trace[k - 1] == trace[..k][k - 1];
      FailuresBound(trace[..k]);
      assert |Failures(trace[..k])| == k by {
        forall i | 0 <= i < k ensures trace[..k][i].res.None? {
          assert trace[..k][i] == trace[i];
        }
        FailuresOfFailures(trace[..k]);
      }
    }
  }

  /** A trace of failures only has one error per completion. */
  lemma {:induction false} FailuresOfFailures<C, E>(trace: seq<Completion<C, E>>)
    requires forall i :: 0 <= i < |trace| ==> trace[i].res.None?
    ensures |Failures(trace)| == |trace|
  {
    if |trace| > 0 {
      var init := trace[..|trace| - 1];
      forall i | 0 <= i < |init| ensures init[i].res.None? {
        assert init[i] == trace[i];
      }
      FailuresOfFailures(init);
    }
  }

  /** No transition leaves a resolved state: later completions change
      neither the outcome nor the caller's calls. */
  lemma {:induction false} ResolutionIsFinal<C, E>(n: nat, pre: seq<Completion<C, E>>, post: seq<Completion<C, E>>)
    requires !Run(n, pre).phase.Pending?
    ensures Run(n, pre + post).phase == Run(n, pre).phase
    ensures Run(n, pre + post).calls == Run(n, pre).calls
  {
    if |post| > 0 {
      var init := post[..|post| - 1];
      ResolutionIsFinal(n, pre, init);
      assert (pre + post)[..|pre + post| - 1] == pre + init;
    } else {
      assert pre + post == pre;
    }
  }

  /** Success wins: the first completion to signal the race, if its result
      is truthy, is the one the caller receives as `(null, conn)`, and
      nothing that arrives later reaches the caller. */
  lemma SuccessWins<C, E>(n: nat, pre: seq<Completion<C, E>>, c: Completion<C, E>, post: seq<Completion<C, E>>)
    requires NeverSignals(n, pre)
    requires c.res.Some?
    ensures Run(n, pre + [c] + post).phase == Succeeded(c.res.value)
    ensures Run(n, pre + [c] + post).calls == [Connected(c.res.value)]
  {
    QuietUntilSignalled(n, pre);
    RunInvariant(n, pre);
    assert (pre + [c])[..|pre|] == pre;
    ResolutionIsFinal(n, pre + [c], post);
  }

  /** Aggregate failure: when the first completion to signal the race is the
      failure that brings the count to `n`, the caller receives the error
      list, holding one error per failure in arrival order, `n` in all; and
      nothing that arrives later reaches the caller. */
  lemma AggregateFailure<C, E>(n: nat, pre: seq<Completion<C, E>>, c: Completion<C, E>, post: seq<Completion<C, E>>)
    requires NeverSignals(n, pre)
    requires c.res.None?
    requires |Failures(pre)| + 1 == n
    ensures Run(n, pre + [c] + post).phase == Failed(Failures(pre + [c]))
    ensures Run(n, pre + [c] + post).calls == [AllFailed(Failures(pre) + [ErrorOf(c.err)])]
    ensures |Failures(pre + [c])| == n
  {
    QuietUntilSignalled(n, pre);
    RunInvariant(n, pre);
    RunInvariant(n, pre + [c]);
    assert (pre + [c])[..|pre|] == pre;
    ResolutionIsFinal(n, pre + [c], post);
  }

  /** A success arriving while the race is pending is the one the caller
      receives, whatever arrives later. */
  lemma SuccessWhilePending<C, E>(n: nat, pre: seq<Completion<C, E>>, c: Completion<C, E>, post: seq<Completion<C, E>>)
    requires Run(n, pre).phase.Pending?
    requires c.res.Some?
    ensures Run(n, pre + [c] + post).calls == [Connected(c.res.value)]
  {
    PendingIsQuiet(n, pre);
    SuccessWins(n, pre, c, post);
  }

  /** The failure that brings the count to `n` while the race is pending
      delivers the whole error log, `n` errors in arrival order. */
  lemma LastFailureWhilePending<C, E>(n: nat, pre: seq<Completion<C, E>>, c: Completion<C, E>, post: seq<Completion<C, E>>)
    requires Run(n, pre).phase.Pending?
    requires c.res.None?
    requires |Failures(pre)| + 1 == n
    ensures Run(n, pre + [c] + post).calls == [AllFailed(Failures(pre + [c]))]
    ensures |Failures(pre + [c])| == n
  {
    PendingIsQuiet(n, pre);
    AggregateFailure(n, pre, c, post);
  }

  /** The caller is called only if some completion signalled the race. */
  lemma DeliveryNeedsSignal<C, E>(n: nat, trace: seq<Completion<C, E>>)
    requires Run(n, trace).calls != []
    ensures exists k :: 0 < k <= |trace| && SignalsAtEnd(n, trace[..k])
  {
    if NeverSignals(n, trace) {
      QuietUntilSignalled(n, trace);
    }
  }

  /** While the race is pending, every completion so far has failed and
      fewer than `n` of them have arrived (for `n > 0`). */
  lemma {:induction false} PendingMeansNoWinner<C, E>(n: nat, trace: seq<Completion<C, E>>)
    requires Run(n, trace).phase.Pending?
    ensures forall i :: 0 <= i < |trace| ==> trace[i].res.None?
    ensures |Failures(trace)| == |trace|
    ensures n == 0 || |trace| < n
  {
    if |trace| > 0 {
      var init := trace[..|trace| - 1];
      RunInvariant(n, init);
      assert Run(n, init).phase.Pending?;
      PendingMeansNoWinner(n, init);
      RunInvariant(n, trace);
    }
  }

  /** Once at least `n > 0` completions have arrived, in particular once
      every task has reported, the caller has been called exactly once. */
  lemma ExactlyOnceWhenAllReported<C, E>(n: nat, trace: seq<Completion<C, E>>)
    requires 0 < n <= |trace|
    ensures |Run(n, trace).calls| == 1
  {
    RunInvariant(n, trace);
    if Run(n, trace).phase.Pending? {
      PendingMeansNoWinner(n, trace);
    }
  }

  /** The task indices `0 .. n-1`. */
  ghost function AllTasks(n: nat): set<nat>
  {
    if n == 0 then {} else AllTasks(n - 1) + {n - 1}
  }

  lemma {:induction false} AllTasksCard(n: nat)
    ensures |AllTasks(n)| == n
    ensures forall t: nat :: t in AllTasks(n) <==> t < n
  {
    if n > 0 {
      AllTasksCard(n - 1);
      assert n - 1 !in AllTasks(n - 1);
    }
  }

  /** Distinct reporting tasks: as many tasks as completions. */
  lemma {:induction false} DistinctTasksCard<C, E>(n: nat, trace: seq<Completion<C, E>>)
    requires WellFormed(n, trace)
    ensures |TasksOf(trace)| == |trace|
    ensures TasksOf(trace) <= AllTasks(n)
  {
    if |trace| > 0 {
      var init := trace[..|trace| - 1];
      var last := trace[|trace| - 1];
      DistinctTasksCard(n, init);
      AllTasksCard(n);
      assert TasksOf(trace) == TasksOf(init) + {last.task} by {
        forall t | t in TasksOf(trace) ensures t in TasksOf(init) + {last.task} {
          var i :| 0 <= i < |trace| && trace[i].task == t;
          if i < |trace| - 1 {
            assert init[i].task == t;
          }
        }
      }
      assert last.task !in TasksOf(init);
    }
  }

  /** A subset of the tasks as large as all of them is all of them. */
  lemma FullSubset(a: set<nat>, b: set<nat>)
    requires a <= b && |a| == |b|
    ensures a == b
  {
    assert b == a + (b - a);
    assert |b - a| == 0;
  }

  /** For completions that come from the tasks, each reporting at most
      once, an aggregate failure means every task failed: the trace holds
      exactly one completion per task, all failures, no success, and the
      caller receives every error recorded, one per task in arrival order. */
  lemma {:induction false} EveryTaskFailed<C, E>(n: nat, trace: seq<Completion<C, E>>)
    requires WellFormed(n, trace)
    requires Run(n, trace).phase.Failed?
    ensures |trace| == n && TasksOf(trace) == AllTasks(n)
    ensures forall i :: 0 <= i < |trace| ==> trace[i].res.None?
    ensures Run(n, trace).calls == [AllFailed(Failures(trace))]
  {
    var s := Run(n, trace);
    RunInvariant(n, trace);
    assert |s.phase.errors| == n && s.phase.errors <= Failures(trace);
    DistinctTasksCard(n, trace);
    AllTasksCard(n);
    SubsetCard(TasksOf(trace), AllTasks(n));
    assert |trace| <= n;
    FailuresBound(trace);
    assert |Failures(trace)| == n == |trace|;
    assert s.phase.errors == Failures(trace);
    FullSubset(TasksOf(trace), AllTasks(n));
  }

  lemma SubsetCard(a: set<nat>, b: set<nat>)
    requires a <= b
    ensures |a| <= |b|
  {
    assert b == a + (b - a);
  }

  /** A trace holds at most as many failures as completions, and exactly as
      many only when every completion failed. */
  lemma {:induction false} FailuresBound<C, E>(trace: seq<Completion<C, E>>)
    ensures |Failures(trace)| <= |trace|
    ensures |Failures(trace)| == |trace| ==> forall i :: 0 <= i < |trace| ==> trace[i].res.None?
  {
    if |trace| > 0 {
      var init := trace[..|trace| - 1];
      FailuresBound(init);
      if |Failures(trace)| == |trace| {
        forall i | 0 <= i < |trace| ensures trace[i].res.None? {
          if i < |init| {
            assert init[i] == trace[i];
          }
        }
      }
    }
  }
}
