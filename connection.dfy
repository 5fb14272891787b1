/**
 * The RDMA connection manager's event loop (`connection_utils.cpp`).  Each
 * connection-manager event is answered with a few verbs calls; the
 * user's pre-connect, connect and disconnect hooks run only for the first
 * event of their kind (the `latch` booleans), while every ESTABLISHED event
 * counts one more connection in the process-wide context, which is built
 * once, for one device.
 *
 * The verbs and connection-manager calls are foreign: they are recorded
 * as `Action`s and assumed to succeed.  The event channel is the
 * sequence of events `rdma_get_cm_event` delivers; when it is used up,
 * `rdma_get_cm_event` fails and the loop ends.
 */
module Connection {

  /** `rdma_cm_event_type`; `Unlisted` stands for any value the source does not name. */
  datatype EventKind =
    | AddrResolved | AddrError | RouteResolved | RouteError
    | ConnectRequest | ConnectResponse | ConnectError | Unreachable | Rejected
    | Established | Disconnected | DeviceRemoval
    | MulticastJoin | MulticastError | AddrChange | TimewaitExit
    | Unlisted(code: int)

  /** A connection-manager event: its kind, its `rdma_cm_id` and that id's device (`id->verbs`). */
  datatype Event = Event(kind: EventKind, id: nat, device: nat)

  /** The queue-pair types of the verbs interface. */
  datatype QpType = ReliableConnected | UnreliableConnected | UnreliableDatagram

  /**
   * `ibv_qp_init_attr` as `build_qp_attr` fills it; `sharedCq` says that
   * both completion queues are the context's one queue (otherwise they
   * are left null).
   */
  datatype QpAttr = QpAttr(sharedCq: bool, qpType: QpType, maxSendWr: nat, maxRecvWr: nat,
                           maxSendSge: nat, maxRecvSge: nat, signalAll: bool)

  /** `rdma_conn_param` as `build_params` fills it. */
  datatype ConnParams = ConnParams(initiatorDepth: nat, responderResources: nat, rnrRetryCount: nat)

  /** The user hooks registered by `rc_init`; `false` is a null callback. */
  datatype Hooks = Hooks(preConnect: bool, connect: bool, disconnect: bool)

  /** A verbs or connection-manager call, or a user hook, made in answer to an event. */
  datatype Action =
    | CreateContext(device: nat)
    | CreateQp(id: nat, attr: QpAttr)
    | PreConnectHook(id: nat)
    | ResolveRoute(id: nat)
    | Connect(id: nat, params: ConnParams)
    | Accept(id: nat, params: ConnParams)
    | ConnectHook(id: nat)
    | DestroyQp(id: nat)
    | DisconnectHook(id: nat)
    | DestroyId(id: nat)

  /** Why the event loop returned (or would have thrown or died). */
  datatype Stop =
    | ChannelClosed          // `rdma_get_cm_event` failed
    | DisconnectExit         // `exit_on_disconnect` and a DISCONNECTED event
    | OtherDevice            // `rc_die`: an event for a second device
    | NoContext(calls: seq<Action>)  // ESTABLISHED before any context exists: the calls made, then a null dereference
    | NotHandled(kind: EventKind)  // `throw`, after logging `EventName(kind)`

  /** `max_qp_wr` of the device, from the comment next to `max_send_wr`. */
  const DEVICE_MAX_QP_WR: nat := 16351

  /**
   * `build_qp_attr`: a reliable-connected queue pair with room for 16000
   * outstanding sends, ten receives, one scatter-gather entry each way and
   * no implicit signalling; only qp0 shares the context's completion queue.
   */
  function BuildQpAttr(isQp0: bool): (a: QpAttr)
    ensures a.sharedCq <==> isQp0
    ensures a.qpType == ReliableConnected && !a.signalAll
    ensures a.maxSendWr == 16000 <= DEVICE_MAX_QP_WR && a.maxRecvWr == 10
    ensures a.maxSendSge == 1 && a.maxRecvSge == 1
  {
    QpAttr(isQp0, ReliableConnected, 16000, 10, 1, 1, false)
  }

  /** `build_params`: depth one each way and infinite receiver-not-ready retry (7). */
  function BuildParams(): (p: ConnParams)
    ensures p.initiatorDepth == 1 && p.responderResources == 1 && p.rnrRetryCount == 7
  {
    ConnParams(1, 1, 7)
  }

  /** `cm_event_to_string`: the enumerator's own name, or a fixed text for anything else. */
  function EventName(k: EventKind): (s: string)
    ensures k.Unlisted? <==> s == "To string event unknown"
  {
    match k
    case AddrResolved => "RDMA_CM_EVENT_ADDR_RESOLVED"
    case AddrError => "RDMA_CM_EVENT_ADDR_ERROR"
    case RouteResolved => "RDMA_CM_EVENT_ROUTE_RESOLVED"
    case RouteError => "RDMA_CM_EVENT_ROUTE_ERROR"
    case ConnectRequest => "RDMA_CM_EVENT_CONNECT_REQUEST"
    case ConnectResponse => "RDMA_CM_EVENT_CONNECT_RESPONSE"
    case ConnectError => "RDMA_CM_EVENT_CONNECT_ERROR"
    case Unreachable => "RDMA_CM_EVENT_UNREACHABLE"
    case Rejected => "RDMA_CM_EVENT_REJECTED"
    case Established => "RDMA_CM_EVENT_ESTABLISHED"
    case Disconnected => "RDMA_CM_EVENT_DISCONNECTED"
    case DeviceRemoval => "RDMA_CM_EVENT_DEVICE_REMOVAL"
    case MulticastJoin => "RDMA_CM_EVENT_MULTICAST_JOIN"
    case MulticastError => "RDMA_CM_EVENT_MULTICAST_ERROR"
    case AddrChange => "RDMA_CM_EVENT_ADDR_CHANGE"
    case TimewaitExit => "RDMA_CM_EVENT_TIMEWAIT_EXIT"
    case Unlisted(_) => "To string event unknown"
  }

  /** The prefix every listed event's name carries. */
  const PREFIX := "RDMA_CM_EVENT_"

  /** Every listed event is logged under a name in the connection manager's `RDMA_CM_EVENT_` family. */
  lemma ListedNames(k: EventKind)
    requires !k.Unlisted?
    ensures |EventName(k)| > |PREFIX| && EventName(k)[..|PREFIX|] == PREFIX
  {
    match k
    case AddrResolved =>
    case AddrError =>
    case RouteResolved =>
    case RouteError =>
    case ConnectRequest =>
    case ConnectResponse =>
    case ConnectError =>
    case Unreachable =>
    case Rejected =>
    case Established =>
    case Disconnected =>
    case DeviceRemoval =>
    case MulticastJoin =>
    case MulticastError =>
    case AddrChange =>
    case TimewaitExit =>
  }

  /** The events that go through `build_connection` (and so `build_context`). */
  predicate Builds(k: EventKind) { k == AddrResolved || k == ConnectRequest }

  /** The events the loop answers; any other kind throws. */
  predicate Handled(k: EventKind)
  {
    k == AddrResolved || k == RouteResolved || k == ConnectRequest || k == Established || k == Disconnected
  }

  /** Some event of `events` has kind `k`. */
  predicate Seen(events: seq<Event>, k: EventKind)
  {
    Count(events, k) > 0
  }

  /** Some event of `events` builds a connection. */
  predicate SeenBuild(events: seq<Event>)
  {
    Seen(events, AddrResolved) || Seen(events, ConnectRequest)
  }

  /** Event i is the first of its kind (its kind's latch is still clear). */
  predicate First(events: seq<Event>, i: nat)
    requires i < |events|
  {
    !Seen(events[..i], events[i].kind)
  }

  /** Optional action: `a` when the hook is registered and its latch is clear. */
  function If(b: bool, a: Action): seq<Action> { if b then [a] else [] }

  /**
   * The calls the loop makes for one handled event, given whether it is
   * the first of its kind (the latch) and, for the events that build a
   * connection, whether the shared context does not exist yet.
   */
  function Answer(e: Event, first: bool, hooks: Hooks, noContext: bool): seq<Action>
  {
    match e.kind
    case AddrResolved =>
      If(noContext, CreateContext(e.device)) + [CreateQp(e.id, BuildQpAttr(first))]
      + If(hooks.preConnect && first, PreConnectHook(e.id)) + [ResolveRoute(e.id)]
    case RouteResolved => [Connect(e.id, BuildParams())]
    case ConnectRequest =>
      If(noContext, CreateContext(e.device)) + [CreateQp(e.id, BuildQpAttr(first))]
      + If(hooks.preConnect && first, PreConnectHook(e.id)) + [Accept(e.id, BuildParams())]
    case Established => If(hooks.connect && first, ConnectHook(e.id))
    case Disconnected =>
      [DestroyQp(e.id)] + If(hooks.disconnect && first, DisconnectHook(e.id)) + [DestroyId(e.id)]
    case _ => []
  }

  /** The number of events of kind `k`. */
  function Count(events: seq<Event>, k: EventKind): nat
  {
    if |events| == 0 then 0
    else Count(events[..|events| - 1], k) + (if events[|events| - 1].kind == k then 1 else 0)
  }

  /**
   * `answers[k]` is the answer to event k, with the latch and the context
   * as they stood then (starting from context `device0`).
   */
  predicate Fit(events: seq<Event>, hooks: Hooks, device0: int, answers: seq<seq<Action>>)
  {
    |answers| <= |events|
    && (|answers| > 0 ==>
          var k := |answers| - 1;
          && Fit(events, hooks, device0, answers[..k])
          && answers[k] == Answer(events[k], First(events, k), hooks, device0 == -1 && !SeenBuild(events[..k])))
  }

  /** What `Fit` says of each answer. */
  lemma {:induction false} FitAt(events: seq<Event>, hooks: Hooks, device0: int, answers: seq<seq<Action>>, k: nat)
    requires Fit(events, hooks, device0, answers) && k < |answers|
    ensures answers[k] == Answer(events[k], First(events, k), hooks, device0 == -1 && !SeenBuild(events[..k]))
  {
    if k < |answers| - 1 {
      FitAt(events, hooks, device0, answers[..|answers| - 1], k);
    }
  }

  /** Answering the next event extends a fitting sequence of answers. */
  lemma FitStep(events: seq<Event>, hooks: Hooks, device0: int, answers: seq<seq<Action>>, acts: seq<Action>)
    requires Fit(events, hooks, device0, answers) && |answers| < |events|
    requires acts == Answer(events[|answers|], First(events, |answers|), hooks,
                            device0 == -1 && !SeenBuild(events[..|answers|]))
    ensures Fit(events, hooks, device0, answers + [acts])
  {
    assert (answers + [acts])[..|answers|] == answers;
  }

  /** The four latches of `event_loop`: has an event of each answered kind been seen. */
  datatype Latches = Latches(addr: bool, request: bool, established: bool, disconnected: bool)

  /** The latches after answering `events`. */
  function LatchesAfter(events: seq<Event>): Latches
  {
    Latches(Seen(events, AddrResolved), Seen(events, ConnectRequest),
            Seen(events, Established), Seen(events, Disconnected))
  }

  /**
   * The process-wide state of `connection_utils.cpp`: the shared context
   * `s_ctx` (absent, or built for one device) and its connection counter.
   */
  class Runtime {
    var device: int        // the context's device; -1 while `s_ctx` is null
    var connections: nat

    /** No context yet, as at program start. */
    constructor ()
      ensures device == -1 && connections == 0
    {
      device := -1;
      connections := 0;
    }

    /**
     * `build_context`: the first call builds the context for `verbs`
     * with no connections; a later call for the same device changes
     * nothing, and one for another device dies (`ok` is false).
     */
    method BuildContext(verbs: nat) returns (ok: bool, created: bool)
      modifies this
      ensures created <==> old(device) == -1
      ensures ok <==> old(device) == -1 || old(device) == verbs
      ensures created ==> device == verbs && connections == 0
      ensures !created ==> device == old(device) && connections == old(connections)
    {
      if device != -1 {
        return device == verbs, false;
      }
      device := verbs;
      connections := 0;
      return true, true;
    }

    /**
     * The state after answering the first `|answers|` events, starting
     * from context `device0` with `base` connections: each answer is
     * `Answer` with the latch and the context as they stood, the latches
     * record the kinds seen, the context belongs to the first building
     * event's device, and the counter has one more per ESTABLISHED event.
     */
    ghost predicate Answered(events: seq<Event>, hooks: Hooks, device0: int, base: nat,
                             answers: seq<seq<Action>>)
      reads this
    {
      && |answers| <= |events|
      && Fit(events, hooks, device0, answers)
      && ContextAfter(events[..|answers|], device0, base, device, connections)
    }

    /** The loop may go on after `answers`: with `exit_on_disconnect`, no DISCONNECTED yet. */
    ghost predicate Looping(events: seq<Event>, hooks: Hooks, exitOnDisconnect: bool, device0: int, base: nat,
                            answers: seq<seq<Action>>, latches: Latches)
      reads this
    {
      && Answered(events, hooks, device0, base, answers)
      && latches == LatchesAfter(events[..|answers|])
      && (exitOnDisconnect ==> !latches.disconnected)
    }

    /**
     * `event_loop`: answer the events in order until the channel is used
     * up, a DISCONNECTED event arrives with `exit_on_disconnect`, or an
     * event cannot be handled.  `answers[i]` is the calls made for event
     * i; the hooks run only for the first event of their kind; every
     * ESTABLISHED event adds one connection; the context is built once,
     * for the device of the first event that builds a connection, and an
     * event for another device ends the run.
     */
    method EventLoop(events: seq<Event>, hooks: Hooks, exitOnDisconnect: bool)
      returns (stop: Stop, answers: seq<seq<Action>>)
      modifies this
      ensures Answered(events, hooks, old(device), old(connections), answers)
      ensures stop == ChannelClosed ==> |answers| == |events|
      ensures stop == DisconnectExit ==>
        exitOnDisconnect && 0 < |answers| && events[|answers| - 1].kind == Disconnected
      ensures exitOnDisconnect && stop != DisconnectExit ==> !Seen(events[..|answers|], Disconnected)
      ensures stop.NotHandled? ==>
        |answers| < |events| && !Handled(events[|answers|].kind) && stop.kind == events[|answers|].kind
      ensures stop == OtherDevice ==>
        |answers| < |events| && Builds(events[|answers|].kind) && device != -1 && device != events[|answers|].device
      ensures stop.NoContext? ==>
        |answers| < |events| && events[|answers|].kind == Established && device == -1
        && stop.calls == If(hooks.connect && First(events, |answers|), ConnectHook(events[|answers|].id))
    {
      // `build_params` and the four latches
      var params := BuildParams();
      var latches := Latches(false, false, false, false);
      ghost var base := connections;
      ghost var device0 := device;
      answers := [];
      var done := false;
      stop := ChannelClosed;
      assert events[..0] == [];
      while !done && |answers| < |events|
        invariant Answered(events, hooks, device0, base, answers)
        invariant !done ==> Looping(events, hooks, exitOnDisconnect, device0, base, answers, latches)
        invariant !done ==> stop == ChannelClosed
        invariant done ==> Stopping(events, hooks, exitOnDisconnect, stop, answers)
        decreases |events| - |answers|, !done
      {
        ghost var answers0 := answers;
        stop, done, answers, latches := Step(events, hooks, exitOnDisconnect, params, device0, base, answers, latches);
        assert Stepped(events, hooks, exitOnDisconnect, device0, base, answers0, stop, done, answers, latches);
      }
    }

    /** What the loop's way of stopping says about the events. */
    ghost predicate Stopping(events: seq<Event>, hooks: Hooks, exitOnDisconnect: bool, stop: Stop, answers: seq<seq<Action>>)
      reads this
    {
      && |answers| <= |events|
      && stop != ChannelClosed
      && (stop == DisconnectExit ==>
            exitOnDisconnect && 0 < |answers| && events[|answers| - 1].kind == Disconnected
            && !Seen(events[..|answers| - 1], Disconnected))
      && (exitOnDisconnect && stop != DisconnectExit ==> !Seen(events[..|answers|], Disconnected))
      && (stop.NotHandled? ==>
            |answers| < |events| && !Handled(events[|answers|].kind) && stop.kind == events[|answers|].kind)
      && (stop == OtherDevice ==>
            |answers| < |events| && Builds(events[|answers|].kind) && device != -1 && device != events[|answers|].device)
      && (stop.NoContext? ==>
            |answers| < |events| && events[|answers|].kind == Established && device == -1
            && stop.calls == If(hooks.connect && First(events, |answers|), ConnectHook(events[|answers|].id)))
    }

    /** What one turn of the loop leaves: the next answer and the loop state, or a way of stopping. */
    ghost predicate Stepped(events: seq<Event>, hooks: Hooks, exitOnDisconnect: bool, device0: int, base: nat,
                            answers: seq<seq<Action>>, stop: Stop, done: bool,
                            answers': seq<seq<Action>>, latches': Latches)
      reads this
    {
      && Answered(events, hooks, device0, base, answers')
      && (!done ==> |answers'| == |answers| + 1 && stop == ChannelClosed)
      && (!done ==> Looping(events, hooks, exitOnDisconnect, device0, base, answers', latches'))
      && (done ==> Stopping(events, hooks, exitOnDisconnect, stop, answers') && |answers| <= |answers'|)
    }

    /** One turn of the `event_loop` while-loop: answer event `|answers|`, or stop. */
    method Step(events: seq<Event>, hooks: Hooks, exitOnDisconnect: bool, params: ConnParams,
                ghost device0: int, ghost base: nat, answers: seq<seq<Action>>, latches: Latches)
      returns (stop: Stop, done: bool, answers': seq<seq<Action>>, latches': Latches)
      requires params == BuildParams() && |answers| < |events|
      requires Looping(events, hooks, exitOnDisconnect, device0, base, answers, latches)
      modifies this
      ensures Stepped(events, hooks, exitOnDisconnect, device0, base, answers, stop, done, answers', latches')
    {
      var i := |answers|;
      var e := events[i];
      Advance(events, i);
      var first := FirstBy(events, i, latches);
      if e.kind == AddrResolved {
        stop, done, answers', latches' := AnswerAddrResolved(events, hooks, exitOnDisconnect, device0, base, answers, latches, first);
      } else if e.kind == ConnectRequest {
        stop, done, answers', latches' := AnswerConnectRequest(events, hooks, exitOnDisconnect, params, device0, base, answers, latches, first);
      } else if e.kind == RouteResolved {
        stop, done, answers', latches' := AnswerRoute(events, hooks, exitOnDisconnect, params, device0, base, answers, latches);
      } else if e.kind == Established {
        stop, done, answers', latches' := AnswerEstablished(events, hooks, exitOnDisconnect, device0, base, answers, latches, first);
      } else if e.kind == Disconnected {
        stop, done, answers', latches' := AnswerDisconnected(events, hooks, exitOnDisconnect, device0, base, answers, latches, first);
      } else {
        stop, done, answers', latches' := NotHandled(e.kind), true, answers, latches;
        assert Stopping(events, hooks, exitOnDisconnect, stop, answers');
      }
    }

    /** ROUTE_RESOLVED (client): connect with the parameters of `build_params`. */
    method AnswerRoute(events: seq<Event>, hooks: Hooks, exitOnDisconnect: bool, params: ConnParams,
                       ghost device0: int, ghost base: nat, answers: seq<seq<Action>>, latches: Latches)
      returns (stop: Stop, done: bool, answers': seq<seq<Action>>, latches': Latches)
      requires params == BuildParams() && |answers| < |events| && events[|answers|].kind == RouteResolved
      requires Looping(events, hooks, exitOnDisconnect, device0, base, answers, latches)
      ensures Stepped(events, hooks, exitOnDisconnect, device0, base, answers, stop, done, answers', latches')
    {
      var i := |answers|;
      var e := events[i];
      Advance(events, i);
      ContextStep(events[..i], e, device0, base, device, connections, device, connections);
      var acts := [Connect(e.id, params)];
      FitStep(events, hooks, device0, answers, acts);
      stop, done, answers', latches' := ChannelClosed, false, answers + [acts], latches;
    }

    /**
     * ADDR_RESOLVED (client): `build_connection` builds the context if
     * there is none (and dies on a second device) and the queue pair, qp0
     * for the first such event, which alone runs the pre-connect hook;
     * then the route is resolved.
     */
    method AnswerAddrResolved(events: seq<Event>, hooks: Hooks, exitOnDisconnect: bool,
                              ghost device0: int, ghost base: nat, answers: seq<seq<Action>>, latches: Latches, first: bool)
      returns (stop: Stop, done: bool, answers': seq<seq<Action>>, latches': Latches)
      requires |answers| < |events| && events[|answers|].kind == AddrResolved
      requires Looping(events, hooks, exitOnDisconnect, device0, base, answers, latches)
      requires first == First(events, |answers|)
      modifies this
      ensures Stepped(events, hooks, exitOnDisconnect, device0, base, answers, stop, done, answers', latches')
    {
      var i := |answers|;
      var e := events[i];
      Advance(events, i);
      ghost var d, c := device, connections;
      var ok, created := BuildContext(e.device);
      if !ok {
        return OtherDevice, true, answers, latches;
      }
      ContextStep(events[..i], e, device0, base, d, c, device, connections);
      var acts := If(created, CreateContext(e.device)) + [CreateQp(e.id, BuildQpAttr(first))]
                  + If(hooks.preConnect && first, PreConnectHook(e.id)) + [ResolveRoute(e.id)];
      FitStep(events, hooks, device0, answers, acts);
      stop, done, answers', latches' := ChannelClosed, false, answers + [acts], latches.(addr := true);
    }

    /**
     * CONNECT_REQUEST (server): as ADDR_RESOLVED, with its own latch,
     * and the request is then accepted.
     */
    method AnswerConnectRequest(events: seq<Event>, hooks: Hooks, exitOnDisconnect: bool, params: ConnParams,
                                ghost device0: int, ghost base: nat, answers: seq<seq<Action>>, latches: Latches, first: bool)
      returns (stop: Stop, done: bool, answers': seq<seq<Action>>, latches': Latches)
      requires params == BuildParams() && |answers| < |events| && events[|answers|].kind == ConnectRequest
      requires Looping(events, hooks, exitOnDisconnect, device0, base, answers, latches)
      requires first == First(events, |answers|)
      modifies this
      ensures Stepped(events, hooks, exitOnDisconnect, device0, base, answers, stop, done, answers', latches')
    {
      var i := |answers|;
      var e := events[i];
      Advance(events, i);
      ghost var d, c := device, connections;
      var ok, created := BuildContext(e.device);
      if !ok {
        return OtherDevice, true, answers, latches;
      }
      ContextStep(events[..i], e, device0, base, d, c, device, connections);
      var acts := If(created, CreateContext(e.device)) + [CreateQp(e.id, BuildQpAttr(first))]
                  + If(hooks.preConnect && first, PreConnectHook(e.id)) + [Accept(e.id, params)];
      FitStep(events, hooks, device0, answers, acts);
      stop, done, answers', latches' := ChannelClosed, false, answers + [acts], latches.(request := true);
    }

    /**
     * ESTABLISHED: the connect hook for the first one only; one more
     * connection each time.  With no context yet the hook still runs, and
     * the counter's update then dereferences null.
     */
    method AnswerEstablished(events: seq<Event>, hooks: Hooks, exitOnDisconnect: bool,
                             ghost device0: int, ghost base: nat, answers: seq<seq<Action>>, latches: Latches, first: bool)
      returns (stop: Stop, done: bool, answers': seq<seq<Action>>, latches': Latches)
      requires |answers| < |events| && events[|answers|].kind == Established
      requires Looping(events, hooks, exitOnDisconnect, device0, base, answers, latches)
      requires first == First(events, |answers|)
      modifies this
      ensures Stepped(events, hooks, exitOnDisconnect, device0, base, answers, stop, done, answers', latches')
    {
      var i := |answers|;
      var e := events[i];
      Advance(events, i);
      var acts := If(hooks.connect && first, ConnectHook(e.id));
      if device == -1 {
        return NoContext(acts), true, answers, latches;
      }
      latches' := latches.(established := true);
      connections := connections + 1;
      ContextStep(events[..i], e, device0, base, device, connections - 1, device, connections);
      FitStep(events, hooks, device0, answers, acts);
      stop, done, answers' := ChannelClosed, false, answers + [acts];
    }

    /**
     * DISCONNECTED: the queue pair and the id are destroyed, the
     * disconnect hook runs for the first one only, and with
     * `exit_on_disconnect` the loop ends here.
     */
    method AnswerDisconnected(events: seq<Event>, hooks: Hooks, exitOnDisconnect: bool,
                              ghost device0: int, ghost base: nat, answers: seq<seq<Action>>, latches: Latches, first: bool)
      returns (stop: Stop, done: bool, answers': seq<seq<Action>>, latches': Latches)
      requires |answers| < |events| && events[|answers|].kind == Disconnected
      requires Looping(events, hooks, exitOnDisconnect, device0, base, answers, latches)
      requires first == First(events, |answers|)
      modifies this
      ensures Stepped(events, hooks, exitOnDisconnect, device0, base, answers, stop, done, answers', latches')
    {
      var i := |answers|;
      var e := events[i];
      Advance(events, i);
      ContextStep(events[..i], e, device0, base, device, connections, device, connections);
      var acts := [DestroyQp(e.id)] + If(hooks.disconnect && first, DisconnectHook(e.id)) + [DestroyId(e.id)];
      FitStep(events, hooks, device0, answers, acts);
      answers' := answers + [acts];
      if exitOnDisconnect {
        return DisconnectExit, true, answers', latches;
      }
      stop, done, latches' := ChannelClosed, false, latches.(disconnected := true);
    }
  }

  /** Every event of `events` that builds a connection is for device `d`. */
  predicate BuiltOn(events: seq<Event>, d: int)
  {
    |events| > 0 ==>
      BuiltOn(events[..|events| - 1], d) && (Builds(events[|events| - 1].kind) ==> events[|events| - 1].device == d)
  }

  /** With no building event, any device will do. */
  lemma {:induction false} NoneBuilt(events: seq<Event>, d: int)
    requires !SeenBuild(events)
    ensures BuiltOn(events, d)
  {
    if |events| > 0 {
      var n := |events| - 1;
      assert events[..n + 1] == events;
      CountOne(events, n, AddrResolved);
      CountOne(events, n, ConnectRequest);
      NoneBuilt(events[..n], d);
    }
  }

  /** What `BuiltOn` says of each event. */
  lemma {:induction false} BuiltAt(events: seq<Event>, d: int, k: nat)
    requires BuiltOn(events, d) && k < |events| && Builds(events[k].kind)
    ensures events[k].device == d
  {
    if k < |events| - 1 {
      BuiltAt(events[..|events| - 1], d, k);
    }
  }

  /**
   * The shared context after the events `seen`, starting from context
   * `device0` with `base` connections: it exists once an event has built
   * a connection, it belongs to every building event's device, an
   * ESTABLISHED event never came before it, and it counts one connection
   * per ESTABLISHED event (from zero when it was built during `seen`).
   */
  predicate ContextAfter(seen: seq<Event>, device0: int, base: nat, device: int, connections: nat)
  {
    && (device == -1 <==> device0 == -1 && !SeenBuild(seen))
    && (device == -1 ==> !Seen(seen, Established))
    && BuiltOn(seen, device)
    && (device0 != -1 ==> device == device0)
    && connections == (if device0 == -1 && SeenBuild(seen) then 0 else base) + Count(seen, Established)
  }

  /**
   * How one event moves the context: a building event creates it (with
   * no connections) or finds it on the same device, ESTABLISHED needs it
   * and adds a connection, any other event leaves it alone.
   */
  lemma ContextStep(seen: seq<Event>, e: Event, device0: int, base: nat, d: int, c: nat, d': int, c': nat)
    requires ContextAfter(seen, device0, base, d, c)
    requires Builds(e.kind) ==> (d == -1 || d == e.device) && d' == e.device && c' == (if d == -1 then 0 else c)
    requires e.kind == Established ==> d != -1 && d' == d && c' == c + 1
    requires !Builds(e.kind) && e.kind != Established ==> d' == d && c' == c
    ensures ContextAfter(seen + [e], device0, base, d', c')
  {
    var seen' := seen + [e];
    assert seen'[..|seen|] == seen;
    if d == -1 && Builds(e.kind) {
      NoneBuilt(seen, d');
    }
  }

  /** The latches after one more event of kind `k`: that kind's latch is set. */
  function Latch(l: Latches, k: EventKind): Latches
  {
    if k == AddrResolved then l.(addr := true)
    else if k == ConnectRequest then l.(request := true)
    else if k == Established then l.(established := true)
    else if k == Disconnected then l.(disconnected := true)
    else l
  }

  /** One more event sets its kind's latch and counts once more. */
  lemma Advance(events: seq<Event>, i: nat)
    requires i < |events|
    ensures events[..i + 1] == events[..i] + [events[i]]
    ensures LatchesAfter(events[..i + 1]) == Latch(LatchesAfter(events[..i]), events[i].kind)
    ensures SeenBuild(events[..i + 1]) <==> SeenBuild(events[..i]) || Builds(events[i].kind)
    ensures Count(events[..i + 1], Established)
            == Count(events[..i], Established) + (if events[i].kind == Established then 1 else 0)
  {
    CountOne(events, i, AddrResolved);
    CountOne(events, i, ConnectRequest);
    CountOne(events, i, Established);
    CountOne(events, i, Disconnected);
  }

  /** `Count` on a prefix one event longer. */
  lemma CountOne(events: seq<Event>, i: nat, k: EventKind)
    requires i < |events|
    ensures Count(events[..i + 1], k) == Count(events[..i], k) + (if events[i].kind == k then 1 else 0)
  {
    assert events[..i + 1][..i] == events[..i];
  }

  /** The latch of event i's kind, read as `First`. */
  method FirstBy(events: seq<Event>, i: nat, latches: Latches) returns (first: bool)
    requires i < |events| && latches == LatchesAfter(events[..i])
    ensures Handled(events[i].kind) && events[i].kind != RouteResolved ==> first == First(events, i)
  {
    var k := events[i].kind;
    if k == AddrResolved {
      first := !latches.addr;
    } else if k == ConnectRequest {
      first := !latches.request;
    } else if k == Established {
      first := !latches.established;
    } else if k == Disconnected {
      first := !latches.disconnected;
    } else {
      first := true;
    }
  }

  /**
   * Each hook runs at most once per kind of event: a later event of the
   * same kind never calls the pre-connect, connect or disconnect hook.
   */
  lemma HooksOnce(events: seq<Event>, answers: seq<seq<Action>>, hooks: Hooks, device0: int, i: nat, j: nat)
    requires Fit(events, hooks, device0, answers)
    requires i < j < |answers| && events[i].kind == events[j].kind
    ensures forall id :: ConnectHook(id) !in answers[j] && DisconnectHook(id) !in answers[j]
    ensures forall id :: PreConnectHook(id) !in answers[j]
  {
    FitAt(events, hooks, device0, answers, j);
    SeenAt(events[..j], i);
  }

  /** An event of a sequence makes its kind seen. */
  lemma {:induction false} SeenAt(events: seq<Event>, i: nat)
    requires i < |events|
    ensures Seen(events, events[i].kind)
  {
    var n := |events| - 1;
    if i < n {
      SeenAt(events[..n], i);
    }
  }
}
