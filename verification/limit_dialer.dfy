/** The dialer object: its configuration, the registry of per-peer dial
    queues keyed by the peer's string id, and the way `dialMany` hands one
    job per address to that registry. The queue itself is opaque here: a
    push appends to the queue's list of pending jobs. */
module LimitDialer {
  import opened DialTypes
  import DialRace

  /** One peer's queue: the configuration it was built with and every job
      pushed to it, in push order. */
  datatype DialQueue<J> = DialQueue(limit: int, timeout: int, pending: seq<J>)

  datatype Dialer<J> = Dialer(perPeerLimit: int, dialTimeout: int, queues: map<string, DialQueue<J>>)

  /** Every registered queue was built from the dialer's own configuration. */
  ghost predicate WellConfigured<J>(d: Dialer<J>)
  {
    forall k :: k in d.queues ==> d.queues[k].limit == d.perPeerLimit && d.queues[k].timeout == d.dialTimeout
  }

  /** The jobs waiting in the queue of peer `key`; none when it has no queue. */
  function PendingOf<J>(d: Dialer<J>, key: string): seq<J>
  {
    if key in d.queues then d.queues[key].pending else []
  }

  /** The constructor: configuration stored as given, no queue yet. */
  function NewDialer(perPeerLimit: int, dialTimeout: int): (d: Dialer<DialJob>)
    ensures d.perPeerLimit == perPeerLimit && d.dialTimeout == dialTimeout
    ensures d.queues == map[]
  {
    Dialer(perPeerLimit, dialTimeout, map[])
  }

  /** The queue `dialSingle` pushes to: the registered one, or a new empty
      one built from the dialer's configuration. */
  function QueueFor<J>(d: Dialer<J>, key: string): DialQueue<J>
  {
    if key in d.queues then d.queues[key] else DialQueue(d.perPeerLimit, d.dialTimeout, [])
  }

  function Push<J>(q: DialQueue<J>, job: J): DialQueue<J>
  {
    q.(pending := q.pending + [job])
  }

  /** `dialSingle(peer, transport, addr, token, callback)` with `key` the
      peer's string id and `job` the pushed arguments: get-or-create the
      peer's queue, then push the job to it. */
  function DialSingle<J>(d: Dialer<J>, key: string, job: J): (d': Dialer<J>)
    ensures d'.perPeerLimit == d.perPeerLimit && d'.dialTimeout == d.dialTimeout
    ensures d'.queues.Keys == d.queues.Keys + {key}
    ensures key in d.queues ==>
              d'.queues[key].limit == d.queues[key].limit && d'.queues[key].timeout == d.queues[key].timeout
    ensures key !in d.queues ==>
              d'.queues[key].limit == d.perPeerLimit && d'.queues[key].timeout == d.dialTimeout
    ensures PendingOf(d', key) == PendingOf(d, key) + [job]
    ensures forall k :: k != key ==> (k in d'.queues <==> k in d.queues)
    ensures forall k :: k != key && k in d.queues ==> d'.queues[k] == d.queues[k]
    ensures WellConfigured(d) ==> WellConfigured(d')
  {
    d.(queues := d.queues[key := Push(QueueFor(d, key), job)])
  }

  /** A sequence of `dialSingle` calls, each a (peer key, job) pair, made
      in order against the same dialer. */
  function DialAll<J>(d: Dialer<J>, calls: seq<(string, J)>): Dialer<J>
  {
    if |calls| == 0 then d
    else
      var last := calls[|calls| - 1];
      DialSingle(DialAll(d, calls[..|calls| - 1]), last.0, last.1)
  }

  /** The jobs among `calls` addressed to peer `key`, in call order. */
  function JobsFor<J>(calls: seq<(string, J)>, key: string): seq<J>
  {
    if |calls| == 0 then []
    else
      var last := calls[|calls| - 1];
      JobsFor(calls[..|calls| - 1], key) + (if last.0 == key then [last.1] else [])
  }

  /** The peer keys that `calls` mention. */
  function KeysOf<J>(calls: seq<(string, J)>): set<string>
  {
    set i | 0 <= i < |calls| :: calls[i].0
  }

  /** The peers with a queue after a run of `dialSingle` calls: the ones
      that had one, and every peer dialled. */
  lemma {:induction false} DialAllKeys<J>(d: Dialer<J>, calls: seq<(string, J)>)
    ensures DialAll(d, calls).queues.Keys == d.queues.Keys + KeysOf(calls)
  {
    if |calls| > 0 {
      var init := calls[..|calls| - 1];
      var last := calls[|calls| - 1];
      DialAllKeys(d, init);
      forall k | k in KeysOf(calls) ensures k in KeysOf(init) + {last.0} {
        var i :| 0 <= i < |calls| && calls[i].0 == k;
        if i < |calls| - 1 {
          assert init[i].0 == k;
        }
      }
      forall k | k in KeysOf(init) ensures k in KeysOf(calls) {
        var i :| 0 <= i < |init| && init[i].0 == k;
        assert calls[i].0 == k;
      }
    }
  }

  /** However the `dialSingle` calls for different peers interleave, each
      peer's queue holds its earlier jobs followed by exactly the jobs
      addressed to that peer, in call order. */
  lemma {:induction false} DialAllPending<J>(d: Dialer<J>, calls: seq<(string, J)>, key: string)
    ensures PendingOf(DialAll(d, calls), key) == PendingOf(d, key) + JobsFor(calls, key)
  {
    if |calls| > 0 {
      DialAllPending(d, calls[..|calls| - 1], key);
    }
  }

  /** A run of `dialSingle` calls never replaces a queue: a queue that
      existed keeps its configuration, and a created one takes the dialer's. */
  lemma {:induction false} DialAllConfig<J>(d: Dialer<J>, calls: seq<(string, J)>)
    ensures DialAll(d, calls).perPeerLimit == d.perPeerLimit && DialAll(d, calls).dialTimeout == d.dialTimeout
    ensures forall key :: key in d.queues ==>
              key in DialAll(d, calls).queues &&
              DialAll(d, calls).queues[key].limit == d.queues[key].limit &&
              DialAll(d, calls).queues[key].timeout == d.queues[key].timeout
    ensures WellConfigured(d) ==> WellConfigured(DialAll(d, calls))
  {
    if |calls| > 0 {
      DialAllConfig(d, calls[..|calls| - 1]);
    }
  }

  /** From construction on, whatever `dialSingle` calls follow: exactly the
      dialled peers have a queue, each built from the dialer's configuration
      and holding exactly the jobs addressed to that peer, in call order. */
  lemma {:induction false} NewDialerQueues(perPeerLimit: int, dialTimeout: int, calls: seq<(string, DialJob)>)
    ensures DialAll(NewDialer(perPeerLimit, dialTimeout), calls).queues.Keys == KeysOf(calls)
    ensures WellConfigured(DialAll(NewDialer(perPeerLimit, dialTimeout), calls))
    ensures forall key :: PendingOf(DialAll(NewDialer(perPeerLimit, dialTimeout), calls), key) == JobsFor(calls, key)
  {
    var d := NewDialer(perPeerLimit, dialTimeout);
    DialAllKeys(d, calls);
    DialAllConfig(d, calls);
    forall key ensures PendingOf(DialAll(d, calls), key) == JobsFor(calls, key) {
      DialAllPending(d, calls, key);
    }
  }

  /** The jobs the tasks of one `dialMany` call push, one per address, in
      address order, all sharing that call's fresh token. */
  function TaskJobs(transport: Transport, addrs: seq<Multiaddr>, call: nat): seq<DialJob>
  {
    seq(|addrs|, i requires 0 <= i < |addrs| => DialJob(transport, addrs[i], CancelToken(call, false), TaskHandler(call, i)))
  }

  /** The `dialSingle` calls those tasks make, all for the same peer. */
  function TaskCalls<J>(key: string, jobs: seq<J>): seq<(string, J)>
  {
    seq(|jobs|, i requires 0 <= i < |jobs| => (key, jobs[i]))
  }

  /** `added` holds one job per address of `addrs`, in address order, every
      one sharing the uncancelled token of call `call` and carrying the
      handler of the task at its position. */
  ghost predicate OneJobPerAddress(added: seq<DialJob>, transport: Transport, addrs: seq<Multiaddr>, call: nat)
  {
    && |added| == |addrs|
    && forall i :: 0 <= i < |added| ==>
         added[i] == DialJob(transport, addrs[i], CancelToken(call, false), TaskHandler(call, i))
  }

  /** No job queued anywhere in the registry carries a token with id `call`:
      `call` stands for a token object that does not exist yet. */
  ghost predicate TokenUnused(d: Dialer<DialJob>, call: nat)
  {
    forall k, j :: k in d.queues && j in d.queues[k].pending ==> j.token.id != call
  }

  /** The start of `dialMany(peer, transport, addrs, callback)`: a fresh
      uncancelled token, one task per address, every task pushing its job to
      the peer's queue, and a race that waits on all of them. */
  function StartDialMany(d: Dialer<DialJob>, key: string, transport: Transport, addrs: seq<Multiaddr>, call: nat)
    : (r: (Dialer<DialJob>, DialRace.RaceState<Connection, Failure>))
    requires TokenUnused(d, call)
    ensures r.1 == DialRace.Start(|addrs|)
    ensures r.0.perPeerLimit == d.perPeerLimit && r.0.dialTimeout == d.dialTimeout
    ensures PendingOf(d, key) <= PendingOf(r.0, key)
    ensures OneJobPerAddress(PendingOf(r.0, key)[|PendingOf(d, key)|..], transport, addrs, call)
    ensures forall k :: k != key ==> PendingOf(r.0, k) == PendingOf(d, k)
    ensures forall k :: k != key && k in d.queues ==> k in r.0.queues && r.0.queues[k] == d.queues[k]
    ensures key in d.queues ==>
              key in r.0.queues && r.0.queues[key].limit == d.queues[key].limit && r.0.queues[key].timeout == d.queues[key].timeout
    ensures r.0.queues.Keys == d.queues.Keys + (if |addrs| == 0 then {} else {key})
    ensures WellConfigured(d) ==> WellConfigured(r.0)
  {
    StartLayout(d, key, transport, addrs, call);
    (DialAll(d, TaskCalls(key, TaskJobs(transport, addrs, call))), DialRace.Start(|addrs|))
  }

  /** The registry once every task of a `dialMany` call has pushed its job. */
  lemma StartLayout(d: Dialer<DialJob>, key: string, transport: Transport, addrs: seq<Multiaddr>, call: nat)
    ensures var d' := DialAll(d, TaskCalls(key, TaskJobs(transport, addrs, call)));
      && PendingOf(d, key) <= PendingOf(d', key)
      && OneJobPerAddress(PendingOf(d', key)[|PendingOf(d, key)|..], transport, addrs, call)
      && (forall k :: k != key ==> PendingOf(d', k) == PendingOf(d, k))
      && d'.queues.Keys == d.queues.Keys + (if |addrs| == 0 then {} else {key})
      && (WellConfigured(d) ==> WellConfigured(d'))
      && d'.perPeerLimit == d.perPeerLimit && d'.dialTimeout == d.dialTimeout
      && (forall k :: k != key && k in d.queues ==> k in d'.queues && d'.queues[k] == d.queues[k])
      && (key in d.queues ==>
            key in d'.queues && d'.queues[key].limit == d.queues[key].limit && d'.queues[key].timeout == d.queues[key].timeout)
  {
    var jobs := TaskJobs(transport, addrs, call);
    var d' := DialAll(d, TaskCalls(key, jobs));
    StartOwnQueue(d, key, jobs);
    StartOtherQueues(d, key, jobs);
    StartKeys(d, key, jobs);
    StartOthersUnchanged(d, key, jobs);
    assert PendingOf(d, key) <= PendingOf(d, key) + jobs;
    assert PendingOf(d', key)[|PendingOf(d, key)|..] == jobs;
    assert OneJobPerAddress(jobs, transport, addrs, call);
  }

  /** The pushing peer's queue gains exactly the call's jobs, in order. */
  lemma StartOwnQueue<J>(d: Dialer<J>, key: string, jobs: seq<J>)
    ensures PendingOf(DialAll(d, TaskCalls(key, jobs)), key) == PendingOf(d, key) + jobs
  {
    TaskCallsFor(key, jobs);
    DialAllPending(d, TaskCalls(key, jobs), key);
  }

  /** No other peer's queue gains anything. */
  lemma StartOtherQueues<J>(d: Dialer<J>, key: string, jobs: seq<J>)
    ensures forall k :: k != key ==> PendingOf(DialAll(d, TaskCalls(key, jobs)), k) == PendingOf(d, k)
  {
    forall k | k != key ensures PendingOf(DialAll(d, TaskCalls(key, jobs)), k) == PendingOf(d, k) {
      TaskCallsFor(key, jobs);
      DialAllPending(d, TaskCalls(key, jobs), k);
    }
  }

  /** Every other peer's queue, configuration and jobs alike, is left as it
      was, and so is the dialer's own configuration. */
  lemma StartOthersUnchanged<J>(d: Dialer<J>, key: string, jobs: seq<J>)
    ensures DialAll(d, TaskCalls(key, jobs)).perPeerLimit == d.perPeerLimit
    ensures DialAll(d, TaskCalls(key, jobs)).dialTimeout == d.dialTimeout
    ensures forall k :: k != key && k in d.queues ==>
              k in DialAll(d, TaskCalls(key, jobs)).queues && DialAll(d, TaskCalls(key, jobs)).queues[k] == d.queues[k]
    ensures key in d.queues ==>
              key in DialAll(d, TaskCalls(key, jobs)).queues &&
              DialAll(d, TaskCalls(key, jobs)).queues[key].limit == d.queues[key].limit &&
              DialAll(d, TaskCalls(key, jobs)).queues[key].timeout == d.queues[key].timeout
  {
    var d' := DialAll(d, TaskCalls(key, jobs));
    DialAllConfig(d, TaskCalls(key, jobs));
    StartOtherQueues(d, key, jobs);
    forall k | k != key && k in d.queues ensures d'.queues[k] == d.queues[k] {
      assert PendingOf(d', k) == PendingOf(d, k);
    }
  }

  /** A queue is created for the peer unless there are no jobs; the others
      keep their configuration. */
  lemma StartKeys<J>(d: Dialer<J>, key: string, jobs: seq<J>)
    ensures DialAll(d, TaskCalls(key, jobs)).queues.Keys == d.queues.Keys + (if |jobs| == 0 then {} else {key})
    ensures WellConfigured(d) ==> WellConfigured(DialAll(d, TaskCalls(key, jobs)))
  {
    TaskCallsFor(key, jobs);
    DialAllKeys(d, TaskCalls(key, jobs));
    DialAllConfig(d, TaskCalls(key, jobs));
  }

  /** All of one call's jobs go to its own peer, none to any other. */
  lemma {:induction false} TaskCallsFor<J>(key: string, jobs: seq<J>)
    ensures JobsFor(TaskCalls(key, jobs), key) == jobs
    ensures forall k :: k != key ==> JobsFor(TaskCalls(key, jobs), k) == []
    ensures KeysOf(TaskCalls(key, jobs)) == if |jobs| == 0 then {} else {key}
  {
    if |jobs| > 0 {
      var init := jobs[..|jobs| - 1];
      TaskCallsFor(key, init);
      assert TaskCalls(key, jobs)[..|jobs| - 1] == TaskCalls(key, init);
      assert TaskCalls(key, jobs)[0].0 == key;
    }
  }
}
