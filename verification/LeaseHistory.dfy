/** The pool inside the server: every run of interleaved handlers is a history of pool operations. */
module LeaseHistory {
  import opened Results
  import opened Mac
  import opened Ipv4
  import opened Pool
  import opened PoolRuns
  import opened Handlers
  import opened Lifecycle
  import opened Scenarios

  // The pool operation that an event makes the server carry out, if any.
  ghost function PoolOps(net: Network, s: System, e: Event): seq<Op>
  {
    if e.Advance? && e.i < |s.handlers| && e.i < |s.seen| && s.handlers[e.i].DhcpAssign? then
      [OpOf(net, s.handlers[e.i].msg, s.clock + e.delay)]
    else []
  }

  function OpOf(net: Network, msg: DhcpMessage, now: int): Op
  {
    if msg.kind == Discover then Allocating(Client(net, msg), Requested(msg.requested), now)
    else LookingUp(Client(net, msg), now)
  }

  ghost function History(net: Network, start: int, events: seq<Event>): seq<Op>
  {
    if events == [] then []
    else
      var n := |events| - 1;
      History(net, start, events[..n]) + PoolOps(net, Run(Some(net), start, events[..n]), events[n])
  }

  // Only a DISCOVER's pool step changes the bindings.
  lemma StepOnPool(net: Network, sh: Shared, h: Handler, now: int)
    ensures Step(Some(net), sh, h, now).shared.bindings
         == if h.DhcpAssign? && h.msg.kind == Discover then
              Allocate(net.pool, sh.bindings, Client(net, h.msg), Requested(h.msg.requested), now)
            else sh.bindings
  {
    hide NormalizeMAC, Client, Requested, Choose, Lookup, Handlers.Assigned;
    hide DhcpFindNext, MqttFindNext, RegisterFindNext, InstallFindNext, Reported;
    if h.DhcpAssign? && h.msg.kind == Discover {
      RefusalChangesNothing(net.pool, sh.bindings, Client(net, h.msg), Requested(h.msg.requested), now);
    }
    hide Allocate;
  }

  lemma RefusalChangesNothing(cfg: Config, b: Bindings, client: string, req: Option<uint32>, now: int)
    ensures !Choose(cfg, b, client, req).Granted? ==> Allocate(cfg, b, client, req, now) == b
  {
    hide Choose;
  }

  lemma ReactFollowsPool(net: Network, s: System, e: Event, ops: seq<Op>)
    requires After(net.pool, ops) == s.shared.bindings
    ensures After(net.pool, ops + PoolOps(net, s, e)) == React(Some(net), s, e).shared.bindings
    ensures s.clock <= React(Some(net), s, e).clock
  {
    hide Step, After, Apply, OpOf, Client, Requested, Allocate;
    if e.Advance? && e.i < |s.handlers| && e.i < |s.seen| {
      var h, now := s.handlers[e.i], s.clock + e.delay;
      StepOnPool(net, s.shared, h, now);
      if h.DhcpAssign? {
        AfterAppend(net.pool, ops, OpOf(net, h.msg, now));
        ApplyOp(net, s.shared.bindings, h.msg, now);
      } else {
        assert ops + [] == ops;
      }
    } else {
      assert ops + [] == ops;
    }
  }

  lemma AfterAppend(cfg: Config, ops: seq<Op>, op: Op)
    ensures After(cfg, ops + [op]) == Apply(cfg, After(cfg, ops), op)
  {
    assert (ops + [op])[..|ops|] == ops;
    hide Apply;
  }

  lemma ApplyOp(net: Network, b: Bindings, msg: DhcpMessage, now: int)
    ensures Apply(net.pool, b, OpOf(net, msg, now))
         == if msg.kind == Discover then Allocate(net.pool, b, Client(net, msg), Requested(msg.requested), now) else b
  {
    hide Allocate, Client, Requested;
  }

  // An operation that neither releases nor renews, no later than a time.
  predicate IsTimed(op: Op, clock: int) { !op.Releasing? && !op.Renewing? && op.now <= clock }

  lemma ClockAppend(ops: seq<Op>, more: seq<Op>, clock: int, later: int)
    requires ClockNeverGoesBack(ops) && clock <= later && |more| <= 1
    requires forall op | op in ops :: IsTimed(op, clock)
    requires forall op | op in more :: IsTimed(op, later) && clock <= op.now
    ensures ClockNeverGoesBack(ops + more) && forall op | op in ops + more :: IsTimed(op, later)
  {
    var all := ops + more;
    forall p, q | 0 <= p < q < |all|
      ensures Time(all[p]).Some? && Time(all[q]).Some? && Time(all[p]).value <= Time(all[q]).value
    {
      assert all[p] in ops && (q < |ops| ==> all[q] == ops[q] && all[q] in ops) && (q >= |ops| ==> all[q] in more);
      if q < |ops| {
        assert Time(ops[p]).Some? && Time(ops[q]).Some?;
      }
    }
  }

  lemma PoolOpsAreTimed(net: Network, s: System, e: Event)
    ensures |PoolOps(net, s, e)| <= 1
    ensures forall op | op in PoolOps(net, s, e) :: IsTimed(op, React(Some(net), s, e).clock) && s.clock <= op.now
  {
    hide Step, Client, Requested;
  }

  // Every run's bindings are those after its history, which releases and renews nothing and whose clock never goes back.
  lemma {:induction false} RunIsPoolHistory(net: Network, start: int, events: seq<Event>)
    ensures After(net.pool, History(net, start, events)) == Run(Some(net), start, events).shared.bindings
    ensures ClockNeverGoesBack(History(net, start, events))
    ensures forall op | op in History(net, start, events) :: IsTimed(op, Run(Some(net), start, events).clock)
  {
    hide React, PoolOps, ClockNeverGoesBack, IsTimed;
    if events != [] {
      var n := |events| - 1;
      RunIsPoolHistory(net, start, events[..n]);
      var s, ops := Run(Some(net), start, events[..n]), History(net, start, events[..n]);
      ReactFollowsPool(net, s, events[n], ops);
      PoolOpsAreTimed(net, s, events[n]);
      hide After;
      ClockAppend(ops, PoolOps(net, s, events[n]), s.clock, React(Some(net), s, events[n]).clock);
    } else {
      EmptyClock();
    }
  }

  lemma EmptyClock()
    ensures ClockNeverGoesBack([])
  {
  }

  lemma {:induction false} HistoryGrows(net: Network, start: int, events: seq<Event>, n: nat)
    requires n < |events|
    ensures var s := Run(Some(net), start, events[..n]);
            History(net, start, events[..n]) + PoolOps(net, s, events[n]) <= History(net, start, events)
    decreases |events|
  {
    var m := |events| - 1;
    hide PoolOps, Run;
    if n < m {
      HistoryGrows(net, start, events[..m], n);
      assert events[..m][..n] == events[..n];
    }
  }

  // The event lets a handler make its pool step for this message, at this time.
  ghost predicate IsPoolStep(s: System, e: Event, msg: DhcpMessage, now: int)
  {
    && e.Advance? && e.i < |s.handlers| && e.i < |s.seen|
    && s.handlers[e.i].DhcpAssign? && s.handlers[e.i].msg == msg
    && now == s.clock + e.delay
  }

  // The answer of the pool to that step.
  ghost function PoolAnswer(net: Network, s: System, msg: DhcpMessage, now: int): Option<uint32>
  {
    if msg.kind == Discover then
      match Choose(net.pool, s.shared.bindings, Client(net, msg), Requested(msg.requested))
      case Granted(a) => Some(a)
      case _ => None
    else
      match Lookup(s.shared.bindings, Client(net, msg), now)
      case Ok(a) => Some(a)
      case Err(_) => None
  }

  lemma AnswerIsHandOut(net: Network, s: System, msg: DhcpMessage, now: int, ops: seq<Op>, a: uint32)
    requires After(net.pool, ops) == s.shared.bindings
    ensures PoolAnswer(net, s, msg, now) == Some(a)
       <==> HandsOut(net.pool, After(net.pool, ops), OpOf(net, msg, now), Client(net, msg), a)
  {
    hide After, Client, Requested, Choose, Lookup;
  }

  // A pool step is an operation of the history, after those of the events before it.
  lemma PoolStepInHistory(net: Network, start: int, events: seq<Event>, n: nat, msg: DhcpMessage, now: int)
    requires n < |events| && IsPoolStep(Run(Some(net), start, events[..n]), events[n], msg, now)
    ensures var i, all := |History(net, start, events[..n])|, History(net, start, events);
            i < |all| && all[..i] == History(net, start, events[..n]) && all[i] == OpOf(net, msg, now)
  {
    hide History, Run, OpOf, PoolOps, IsPoolStep;
    var s, before := Run(Some(net), start, events[..n]), History(net, start, events[..n]);
    HistoryGrows(net, start, events, n);
    PoolOpsOfStep(net, s, events[n], msg, now);
    PrefixLast(before, OpOf(net, msg, now), History(net, start, events));
  }

  lemma PoolOpsOfStep(net: Network, s: System, e: Event, msg: DhcpMessage, now: int)
    requires IsPoolStep(s, e, msg, now)
    ensures PoolOps(net, s, e) == [OpOf(net, msg, now)]
  {
    hide OpOf;
  }

  lemma PrefixLast<T>(before: seq<T>, x: T, all: seq<T>)
    requires before + [x] <= all
    ensures |before| < |all| && all[..|before|] == before && all[|before|] == x
  {
    assert (before + [x])[|before|] == x;
  }

  lemma NeverReleases(ops: seq<Op>, clock: int, a: uint32)
    requires forall op | op in ops :: IsTimed(op, clock)
    ensures forall k | 0 <= k < |ops| :: ops[k] != Releasing(a)
  {
    assert forall k | 0 <= k < |ops| :: ops[k] in ops;
  }

  lemma OfferInHistory(net: Network, ops: seq<Op>, i: nat, j: nat, offer: DhcpMessage, t: int, later: DhcpMessage, t': int,
                       a: uint32)
    requires i < j < |ops| && ops[i] == OpOf(net, offer, t) && ops[j] == OpOf(net, later, t')
    requires ClockNeverGoesBack(ops) && forall k | 0 <= k < |ops| :: ops[k] != Releasing(a)
    requires offer.kind == Discover && (later.kind == Discover || t' - t <= net.pool.leaseTime)
    requires Client(net, later) == Client(net, offer)
    requires HandsOut(net.pool, After(net.pool, ops[..i]), ops[i], Client(net, offer), a)
    ensures HandsOut(net.pool, After(net.pool, ops[..j]), ops[j], Client(net, later), a)
  {
    hide Client, Requested, After, ClockNeverGoesBack, HandsOut;
    OfferIsHonoured(net.pool, ops, i, j, a);
  }

  // In every interleaving: once a DISCOVER has been offered an address, a REQUEST of the same client whose pool step comes
  // within the lease time is given that address, and so is a later DISCOVER at any time.
  lemma OfferIsHonouredInRuns(net: Network, start: int, events: seq<Event>, n: nat, m: nat,
                              offer: DhcpMessage, t: int, later: DhcpMessage, t': int, a: uint32)
    requires n < m < |events|
    requires IsPoolStep(Run(Some(net), start, events[..n]), events[n], offer, t) && offer.kind == Discover
    requires IsPoolStep(Run(Some(net), start, events[..m]), events[m], later, t')
    requires Client(net, later) == Client(net, offer)
    requires PoolAnswer(net, Run(Some(net), start, events[..n]), offer, t) == Some(a)
    requires later.kind == Discover || t' - t <= net.pool.leaseTime
    ensures PoolAnswer(net, Run(Some(net), start, events[..m]), later, t') == Some(a)
  {
    var s, s' := Run(Some(net), start, events[..n]), Run(Some(net), start, events[..m]);
    var all := History(net, start, events);
    var i, j := |History(net, start, events[..n])|, |History(net, start, events[..m])|;
    hide Run, History, Client, Requested, After, PoolAnswer, IsPoolStep, ClockNeverGoesBack, HandsOut,
         IsTimed, OpOf;
    RunIsPoolHistory(net, start, events[..n]);
    RunIsPoolHistory(net, start, events[..m]);
    RunIsPoolHistory(net, start, events);
    PoolStepInHistory(net, start, events, n, offer, t);
    PoolStepInHistory(net, start, events, m, later, t');
    assert events[..m][..n] == events[..n] && events[..m][n] == events[n];
    PoolStepInHistory(net, start, events[..m], n, offer, t);
    AnswerIsHandOut(net, s, offer, t, all[..i], a);
    AnswerIsHandOut(net, s', later, t', all[..j], a);
    NeverReleases(all, Run(Some(net), start, events).clock, a);
    OfferInHistory(net, all, i, j, offer, t, later, t', a);
  }

  // That answer is what the handler goes on with.
  lemma AnswerIsTaken(net: Network, s: System, e: Event, msg: DhcpMessage, now: int)
    requires IsPoolStep(s, e, msg, now) && PoolAnswer(net, s, msg, now).Some?
    ensures React(Some(net), s, e).handlers[e.i]
         == Handlers.Assigned(net, s.handlers[e.i].node, PoolAnswer(net, s, msg, now).value)
  {
    hide Client, Requested, Choose, Lookup, Handlers.Assigned;
  }

  // ---- a REQUEST does not extend the lease ----

  // After every run, a message other than DISCOVER is answered exactly when its client is bound and the lease time since
  // its last DISCOVER's pool step has not passed; the answer is the bound address.
  lemma RequestAnsweredIff(net: Network, start: int, events: seq<Event>, msg: DhcpMessage, now: int)
    requires msg.kind != Discover
    ensures var b, client := Run(Some(net), start, events).shared.bindings, Client(net, msg);
            var last := LastDiscover(History(net, start, events), client);
            PoolAnswer(net, Run(Some(net), start, events), msg, now)
            == if client in b && last.Some? && now - last.value <= net.pool.leaseTime then Some(b[client].addr) else None
    ensures Client(net, msg) in Run(Some(net), start, events).shared.bindings ==>
              LastDiscover(History(net, start, events), Client(net, msg)).Some?
  {
    var client, ops := Client(net, msg), History(net, start, events);
    RunIsPoolHistory(net, start, events);
    LookupWhileFresh(net.pool, ops, client, now);
    hide Run, History, After, Lookup;
    LastTouchIsDiscover(ops, client, Run(Some(net), start, events).clock);
  }

  // The time of the client's last allocation.
  function LastDiscover(ops: seq<Op>, client: string): Option<int>
  {
    if ops == [] then None
    else
      var op := ops[|ops| - 1];
      if op.Allocating? && op.mac == client then Some(op.now) else LastDiscover(ops[..|ops| - 1], client)
  }

  lemma {:induction false} LastTouchIsDiscover(ops: seq<Op>, client: string, clock: int)
    requires forall op | op in ops :: IsTimed(op, clock)
    ensures LastTouch(ops, client) == LastDiscover(ops, client)
  {
    if ops != [] {
      assert ops[|ops| - 1] in ops;
      LastTouchIsDiscover(ops[..|ops| - 1], client, clock);
    }
  }

  // A DISCOVER and two REQUESTs of one client, all at their pool steps.
  function WaitingRun(discover: DhcpMessage, request: DhcpMessage): seq<Event>
  {
    Reaching(0, discover) + Reaching(1, request) + Reaching(2, request)
  }

  lemma ReachesThree(net: Option<Network>, start: int, discover: DhcpMessage, request: DhcpMessage)
    requires |discover.hw| == 6 && discover.kind == Discover
    requires request.hw == discover.hw && request.kind == Request
    ensures Run(net, start, WaitingRun(discover, request)) == WaitingState(start, discover, request)
  {
    var s0 := System(Shared(map[], map[]), [], [], [], start);
    var s1 := AtPoolStep(s0, discover);
    var s2 := AtPoolStep(s1, request);
    var e1, e2, e3 := Reaching(0, discover), Reaching(1, request), Reaching(2, request);
    assert |s1.handlers| == 1 && |s2.handlers| == 2;
    assert KnowsAtMost(s0, discover.hw);
    hide Run, ReactAll, Reaching, KnowsAtMost, AtPoolStep;
    RunFromStart(net, start, e1);
    ReachesPoolStep(net, s0, discover);
    RunAppend(net, start, e1, e2);
    ReachesPoolStep(net, s1, request);
    RunAppend(net, start, e1 + e2, e3);
    ReachesPoolStep(net, s2, request);
  }

  function WaitingState(start: int, discover: DhcpMessage, request: DhcpMessage): System
  {
    AtPoolStep(AtPoolStep(AtPoolStep(System(Shared(map[], map[]), [], [], [], start), discover), request), request)
  }

  lemma WaitingHandlers(start: int, discover: DhcpMessage, request: DhcpMessage)
    requires request.hw == discover.hw
    ensures var s, r := WaitingState(start, discover, request), Blank(Hex(discover.hw), start);
            && s.handlers == [DhcpAssign(discover, r), DhcpAssign(request, r), DhcpAssign(request, r)]
            && |s.seen| == 3 && s.shared.bindings == map[] && s.clock == start
  {
    hide Blank, Hex;
  }

  // For any network with an address to give and any hardware address: the DISCOVER is offered an address, the REQUEST that
  // comes exactly at the end of the lease time is given it, and the REQUEST that follows a tick later is not answered.
  lemma RenewalIsNotKept(net: Network, start: int, discover: DhcpMessage, request: DhcpMessage)
    requires |discover.hw| == 6 && discover.kind == Discover
    requires request.hw == discover.hw && request.kind == Request
    requires net.pool.start <= net.pool.end && net.pool.leaseTime >= 0
    ensures var s, end := Run(Some(net), start, WaitingRun(discover, request)), start + net.pool.leaseTime;
            var t := React(Some(net), s, Advance(0, 0));
            var u := React(Some(net), t, Advance(1, net.pool.leaseTime));
            && IsPoolStep(s, Advance(0, 0), discover, start) && PoolAnswer(net, s, discover, start).Some?
            && IsPoolStep(t, Advance(1, net.pool.leaseTime), request, end)
            && PoolAnswer(net, t, request, end) == PoolAnswer(net, s, discover, start)
            && IsPoolStep(u, Advance(2, 1), request, end + 1) && PoolAnswer(net, u, request, end + 1) == None
  {
    assert Client(net, discover) == Client(net, request);
    hide *;
    ReachesThree(Some(net), start, discover, request);
    WaitingHandlers(start, discover, request);
    PoolStepsOfRenewal(net, Run(Some(net), start, WaitingRun(discover, request)), discover, request);
  }

  lemma PoolStepsOfRenewal(net: Network, s: System, discover: DhcpMessage, request: DhcpMessage)
    requires discover.kind == Discover && request.kind == Request && Client(net, discover) == Client(net, request)
    requires net.pool.start <= net.pool.end && net.pool.leaseTime >= 0
    requires |s.handlers| == |s.seen| == 3 && s.shared.bindings == map[]
    requires s.handlers[0].DhcpAssign? && s.handlers[0].msg == discover
    requires s.handlers[1].DhcpAssign? && s.handlers[1].msg == request && s.handlers[2] == s.handlers[1]
    ensures var end := s.clock + net.pool.leaseTime;
            var t := React(Some(net), s, Advance(0, 0));
            var u := React(Some(net), t, Advance(1, net.pool.leaseTime));
            && IsPoolStep(s, Advance(0, 0), discover, s.clock) && PoolAnswer(net, s, discover, s.clock).Some?
            && IsPoolStep(t, Advance(1, net.pool.leaseTime), request, end)
            && PoolAnswer(net, t, request, end) == PoolAnswer(net, s, discover, s.clock)
            && IsPoolStep(u, Advance(2, 1), request, end + 1) && PoolAnswer(net, u, request, end + 1) == None
  {
    EmptyPoolGrants(net.pool, Client(net, discover), Requested(discover.requested));
    hide Client, Requested, Choose, Handlers.Assigned;
  }
}
