/** What runs of interleaved handlers do to the addresses in the node records. */
module AddressHistory {
  import opened Results
  import opened Mac
  import opened Ipv4
  import opened Pool
  import opened Nodes
  import opened Handlers
  import opened Lifecycle

  // A status report or a registration that arrived named this address for this node.
  ghost predicate WasReported(events: seq<Event>, key: string, ip: string)
  {
    exists e :: e in events && e.Arrive? && Names(e.handler, key, ip)
  }

  ghost predicate Names(h: Handler, key: string, ip: string)
  {
    match h
    case MqttFind(topic, payload) => TopicMac(topic) == Some(key) && payload.Some? && payload.value.ip == ip
    case RegisterFind(mac, ip') => NormalizeMAC(mac) == key && ip' == ip
    case _ => false
  }

  // The text of the address bound to the client with this record key.
  ghost predicate IsLeased(net: Option<Network>, b: Bindings, key: string, ip: string)
  {
    net.Some? && exists hw :: NormalizeMAC(PrintHardware(hw)) == key && LeasedTo(net.value, b, hw, ip)
  }

  ghost predicate LeasedTo(net: Network, b: Bindings, hw: seq<byte>, ip: string)
  {
    var client := net.normalizeMAC(PrintHardware(hw));
    client in b && AddressText(b[client].addr) == ip
  }

  ghost predicate Explained(net: Option<Network>, b: Bindings, events: seq<Event>, node: Record)
  {
    node.ip == "" || WasReported(events, node.mac, node.ip) || IsLeased(net, b, node.mac, node.ip)
  }

  // A handler's messages are messages that arrived, and they concern the node it carries.
  ghost predicate FromMessage(events: seq<Event>, h: Handler)
  {
    match h
    case MqttFind(topic, payload) =>
      payload.Some? && TopicMac(topic).Some? ==> WasReported(events, TopicMac(topic).value, payload.value.ip)
    case MqttCheck(report, node) => WasReported(events, node.mac, report.ip)
    case RegisterFind(mac, ip) => WasReported(events, NormalizeMAC(mac), ip)
    case DhcpSave(msg, node) => node.mac == NormalizeMAC(PrintHardware(msg.hw))
    case DhcpAssign(msg, node) => node.mac == NormalizeMAC(PrintHardware(msg.hw))
    case _ => true
  }

  ghost predicate AddressInv(net: Option<Network>, events: seq<Event>, s: System)
  {
    && (forall k | k in s.shared.store :: Explained(net, s.shared.bindings, events, s.shared.store[k]))
    && (forall h | h in s.handlers ::
          FromMessage(events, h) && (Carried(h).Some? ==> Explained(net, s.shared.bindings, events, Carried(h).value)))
  }

  // Bound addresses stay bound.
  ghost predicate KeepsBindings(b: Bindings, later: Bindings)
  {
    forall m | m in b :: m in later && later[m].addr == b[m].addr
  }

  ghost predicate AssignsWell(net: Option<Network>, sh: Shared, h: Handler, m: Move)
  {
    && KeepsBindings(sh.bindings, m.shared.bindings)
    && !IsEntry(m.next)
    && match h
       case DhcpFind(msg) => m.next.DhcpSave? ==>
         m.next.msg == msg && m.next.node.mac == NormalizeMAC(PrintHardware(msg.hw))
       case DhcpSave(msg, node) => m.next.DhcpAssign? ==> m.next.msg == msg
       case DhcpAssign(msg, node) =>
         m.next == h || m.next.Done? ||
         (net.Some? && Client(net.value, msg) in m.shared.bindings
          && var a := m.shared.bindings[Client(net.value, msg)].addr;
             m.next == DhcpRecord(a, WithNetwork(net.value, node, a)))
       case MqttFind(topic, payload) => m.next.MqttCheck? ==>
         payload.Some? && m.next.report == payload.value && TopicMac(topic) == Some(m.next.node.mac)
       case RegisterFind(mac, ip) => m.next.RegisterSave? ==>
         m.next.node.mac == NormalizeMAC(mac) && m.next.node.ip == ip
       case _ => true
  }

  lemma StepAssigns(net: Option<Network>, sh: Shared, h: Handler, now: int)
    requires forall k | k in sh.store :: sh.store[k].mac == k
    ensures AssignsWell(net, sh, h, Step(net, sh, h, now))
  {
    hide NormalizeMAC, PrintHardware, TopicMac, Client, Requested, WithNetwork, Choose;
    NormalizeFacts();
    if h.MqttFind? {
      TopicIsNormal(h.topic);
    }
    AllocateKeeps(net, sh, h, now);
  }

  lemma AllocateKeeps(net: Option<Network>, sh: Shared, h: Handler, now: int)
    ensures h.DhcpAssign? && net.Some? ==>
              var client, req := Client(net.value, h.msg), Requested(h.msg.requested);
              var b := Allocate(net.value.pool, sh.bindings, client, req, now);
              && KeepsBindings(sh.bindings, b)
              && (Choose(net.value.pool, sh.bindings, client, req).Granted? ==>
                    client in b && b[client].addr == Choose(net.value.pool, sh.bindings, client, req).addr)
  {
  }

  lemma ExplainedGrows(net: Option<Network>, b: Bindings, later: Bindings, events: seq<Event>, more: seq<Event>,
                       node: Record)
    requires Explained(net, b, events, node) && KeepsBindings(b, later) && events <= more
    ensures Explained(net, later, more, node)
  {
  }

  lemma FromMessageGrows(events: seq<Event>, more: seq<Event>, h: Handler)
    requires FromMessage(events, h) && events <= more
    ensures FromMessage(more, h)
  {
  }

  // The node a handler carries after its step is explained, and so is a record it writes.
  lemma NextExplained(net: Option<Network>, events: seq<Event>, s: System, i: nat, m: Move, now: int)
    requires GoodMove(s, i, m, now) && AssignsWell(net, s.shared, s.handlers[i], m) && AddressInv(net, events, s)
    ensures FromMessage(events, m.next)
    ensures Carried(m.next).Some? ==> Explained(net, m.shared.bindings, events, Carried(m.next).value)
    ensures forall k | k in m.shared.store :: Explained(net, m.shared.bindings, events, m.shared.store[k])
  {
    hide NormalizeMAC, PrintHardware, TopicMac, WasReported, IsLeased, StoreIsLog, HistoryGood, Client, WithNetwork;
    var h := s.handlers[i];
    assert FromMessage(events, h);
    forall k | k in m.shared.store
      ensures Explained(net, m.shared.bindings, events, m.shared.store[k])
    {
      if k in s.shared.store {
        ExplainedGrows(net, s.shared.bindings, m.shared.bindings, events, events, s.shared.store[k]);
      }
      if Carried(h).Some? {
        ExplainedGrows(net, s.shared.bindings, m.shared.bindings, events, events, Carried(h).value);
      }
    }
    if Carried(h).Some? {
      ExplainedGrows(net, s.shared.bindings, m.shared.bindings, events, events, Carried(h).value);
    }
    if h.DhcpAssign? && m.next.DhcpRecord? {
      AssignedIsLeased(net.value, m.shared.bindings, h.msg, h.node);
    }
  }

  lemma AssignedIsLeased(net: Network, b: Bindings, msg: DhcpMessage, node: Record)
    requires node.mac == NormalizeMAC(PrintHardware(msg.hw)) && Client(net, msg) in b
    ensures var node' := WithNetwork(net, node, b[Client(net, msg)].addr);
            node'.mac == node.mac && IsLeased(Some(net), b, node.mac, node'.ip)
  {
  }

  lemma ReactKeepsAddresses(net: Option<Network>, events: seq<Event>, s: System, e: Event)
    requires RepositoryInv(s) && AddressInv(net, events, s)
    ensures AddressInv(net, events + [e], React(net, s, e))
  {
    var more, t := events + [e], React(net, s, e);
    hide Explained, FromMessage, Step, NormalizeMAC, StoreIsLog, HistoryGood;
    if e.Advance? && e.i < |s.handlers| {
      var now := s.clock + e.delay;
      var m := Step(net, s.shared, s.handlers[e.i], now);
      StepIsGood(net, s, e.i, now);
      StepAssigns(net, s.shared, s.handlers[e.i], now);
      NextExplained(net, events, s, e.i, m, now);
      MovedKeepsAddresses(net, events, s, e, m, now);
    } else {
      forall h | h in t.handlers
        ensures FromMessage(more, h) && (Carried(h).Some? ==> Explained(net, t.shared.bindings, more, Carried(h).value))
      {
        if h in s.handlers {
          OldHandlerKept(net, events, more, s, t, h);
        } else {
          ArrivalIsMessage(more, h);
        }
      }
      forall k | k in t.shared.store
        ensures Explained(net, t.shared.bindings, more, t.shared.store[k])
      {
        ExplainedGrows(net, s.shared.bindings, t.shared.bindings, events, more, s.shared.store[k]);
      }
    }
  }

  lemma OldHandlerKept(net: Option<Network>, events: seq<Event>, more: seq<Event>, s: System, t: System, h: Handler)
    requires AddressInv(net, events, s) && h in s.handlers
    requires KeepsBindings(s.shared.bindings, t.shared.bindings) && events <= more
    ensures FromMessage(more, h) && (Carried(h).Some? ==> Explained(net, t.shared.bindings, more, Carried(h).value))
  {
  }

  lemma ArrivalIsMessage(events: seq<Event>, h: Handler)
    requires IsEntry(h) && Arrive(h) in events
    ensures FromMessage(events, h)
  {
  }

  lemma MovedKeepsAddresses(net: Option<Network>, events: seq<Event>, s: System, e: Event, m: Move, now: int)
    requires e.Advance? && e.i < |s.handlers| == |s.seen| && AddressInv(net, events, s)
    requires KeepsBindings(s.shared.bindings, m.shared.bindings)
    requires FromMessage(events, m.next)
    requires Carried(m.next).Some? ==> Explained(net, m.shared.bindings, events, Carried(m.next).value)
    requires forall k | k in m.shared.store :: Explained(net, m.shared.bindings, events, m.shared.store[k])
    ensures AddressInv(net, events + [e], Moved(s, e.i, m, now))
  {
    hide Explained, FromMessage, Written;
    var more, t := events + [e], Moved(s, e.i, m, now);
    forall h | h in t.handlers
      ensures FromMessage(more, h) && (Carried(h).Some? ==> Explained(net, t.shared.bindings, more, Carried(h).value))
    {
      if h == m.next {
        FromMessageGrows(events, more, h);
        if Carried(h).Some? {
          ExplainedGrows(net, m.shared.bindings, m.shared.bindings, events, more, Carried(h).value);
        }
      } else {
        OldHandlerKept(net, events, more, s, t, h);
      }
    }
    forall k | k in t.shared.store
      ensures Explained(net, t.shared.bindings, more, t.shared.store[k])
    {
      ExplainedGrows(net, m.shared.bindings, m.shared.bindings, events, more, m.shared.store[k]);
    }
  }

  lemma {:induction false} RunKeepsAddresses(net: Option<Network>, start: int, events: seq<Event>)
    ensures AddressInv(net, events, Run(net, start, events))
  {
    hide React;
    if events != [] {
      hide AddressInv;
      var n := |events| - 1;
      RunKeepsAddresses(net, start, events[..n]);
      RunKeepsRepository(net, start, events[..n]);
      ReactKeepsAddresses(net, events[..n], Run(net, start, events[..n]), events[n]);
      assert events[..n] + [events[n]] == events;
    }
  }

  // ---- the pool inside the server ----

  ghost predicate PoolGood(net: Option<Network>, s: System)
  {
    net.Some? ==> Inv(net.value.pool, s.shared.bindings)
  }

  lemma StepKeepsPool(net: Option<Network>, sh: Shared, h: Handler, now: int)
    requires net.Some? ==> Inv(net.value.pool, sh.bindings)
    ensures net.Some? ==> Inv(net.value.pool, Step(net, sh, h, now).shared.bindings)
  {
    hide NormalizeMAC, PrintHardware, Client, Inv, Allocate, Choose, TopicMac;
    if net.Some? && h.DhcpAssign? {
      OperationsKeepInv(net.value.pool, sh.bindings, Client(net.value, h.msg), Requested(h.msg.requested), 0, now);
    }
  }

  lemma {:induction false} RunKeepsPool(net: Option<Network>, start: int, events: seq<Event>)
    ensures PoolGood(net, Run(net, start, events))
  {
    hide React, PoolGood;
    if events != [] {
      RunKeepsPool(net, start, events[..|events| - 1]);
      ReactKeepsPool(net, Run(net, start, events[..|events| - 1]), events[|events| - 1]);
    } else {
      EmptyPoolGood(net, start);
    }
  }

  lemma EmptyPoolGood(net: Option<Network>, start: int)
    ensures PoolGood(net, Run(net, start, []))
  {
  }

  lemma ReactKeepsPool(net: Option<Network>, s: System, e: Event)
    requires PoolGood(net, s)
    ensures PoolGood(net, React(net, s, e))
  {
    hide Step, Inv;
    if e.Advance? && e.i < |s.handlers| {
      StepKeepsPool(net, s.shared, s.handlers[e.i], s.clock + e.delay);
    }
  }

  lemma ReactKeepsBindings(net: Option<Network>, s: System, e: Event)
    requires RepositoryInv(s)
    ensures KeepsBindings(s.shared.bindings, React(net, s, e).shared.bindings)
  {
    hide Step, NormalizeMAC, StoreIsLog, HistoryGood;
    if e.Advance? && e.i < |s.handlers| {
      StepAssigns(net, s.shared, s.handlers[e.i], s.clock + e.delay);
    }
  }

  // ---- the theorems ----

  // No handler releases an address: in every interleaving a client, once bound, holds its address for the rest of the
  // run, whether or not its lease expires, and no other client holds it.
  lemma {:induction false} BoundForGood(net: Option<Network>, start: int, events: seq<Event>, n: nat, client: string)
    requires n <= |events| && client in Run(net, start, events[..n]).shared.bindings
    ensures var b, later := Run(net, start, events[..n]).shared.bindings, Run(net, start, events).shared.bindings;
            && client in later && later[client].addr == b[client].addr
            && (net.Some? ==> forall other | other in later && later[other].addr == b[client].addr :: other == client)
    decreases |events| - n
  {
    if n < |events| {
      RunKeepsRepository(net, start, events[..n]);
      RunStep(net, start, events, n);
      hide React, Run, RepositoryInv;
      ReactKeepsBindings(net, Run(net, start, events[..n]), events[n]);
      BoundForGood(net, start, events, n + 1, client);
    } else {
      assert events[..n] == events;
      RunKeepsPool(net, start, events);
    }
  }

  // net.ParseMAC reads a printed hardware address back, or fails and leaves the text alone: either way nothing changes.
  ghost predicate LeavesPrintedAlone(net: Option<Network>)
  {
    net.Some? ==> forall hw :: net.value.normalizeMAC(PrintHardware(hw)) == PrintHardware(hw)
  }

  // In every interleaving of all handlers, the address in the record of a hardware address is empty, one that a status
  // report or a registration for that node named, or exactly the address bound to it in the pool.
  lemma RecordedAddress(net: Option<Network>, start: int, events: seq<Event>, hw: seq<byte>)
    requires LeavesPrintedAlone(net)
    requires NormalizeMAC(PrintHardware(hw)) in Run(net, start, events).shared.store
    ensures var s, key := Run(net, start, events), NormalizeMAC(PrintHardware(hw));
            var ip := s.shared.store[key].ip;
            ip == "" || WasReported(events, key, ip)
            || (net.Some? && PrintHardware(hw) in s.shared.bindings
                && ip == AddressText(s.shared.bindings[PrintHardware(hw)].addr))
  {
    RunKeepsAddresses(net, start, events);
    RunKeepsRepository(net, start, events);
    var s, key := Run(net, start, events), NormalizeMAC(PrintHardware(hw));
    hide Run, WasReported, AddressText, NormalizeMAC, PrintHardware, StoreIsLog, HistoryGood, HandlersGood;
    var node := s.shared.store[key];
    assert Explained(net, s.shared.bindings, events, node);
    if node.ip != "" && !WasReported(events, key, node.ip) {
      var hw' :| NormalizeMAC(PrintHardware(hw')) == key && LeasedTo(net.value, s.shared.bindings, hw', node.ip);
      HardwareKeyInjective(hw, hw');
    }
  }

  // So two nodes share a non-empty recorded address only if a report or a registration named it for one of them.
  lemma RecordedAddressesDiffer(net: Option<Network>, start: int, events: seq<Event>, k1: string, k2: string)
    requires LeavesPrintedAlone(net)
    requires k1 in Run(net, start, events).shared.store && k2 in Run(net, start, events).shared.store && k1 != k2
    ensures var store := Run(net, start, events).shared.store;
            store[k1].ip == store[k2].ip ==>
              store[k1].ip == "" || WasReported(events, k1, store[k1].ip) || WasReported(events, k2, store[k2].ip)
  {
    RunKeepsAddresses(net, start, events);
    RunKeepsRepository(net, start, events);
    RunKeepsPool(net, start, events);
    var s := Run(net, start, events);
    hide Run, WasReported, AddressText, NormalizeMAC, PrintHardware, StoreIsLog, HistoryGood, HandlersGood;
    var n1, n2 := s.shared.store[k1], s.shared.store[k2];
    assert Explained(net, s.shared.bindings, events, n1) && Explained(net, s.shared.bindings, events, n2);
    if n1.ip == n2.ip && n1.ip != "" && !WasReported(events, k1, n1.ip) && !WasReported(events, k2, n2.ip) {
      var hw1 :| NormalizeMAC(PrintHardware(hw1)) == k1 && LeasedTo(net.value, s.shared.bindings, hw1, n1.ip);
      var hw2 :| NormalizeMAC(PrintHardware(hw2)) == k2 && LeasedTo(net.value, s.shared.bindings, hw2, n2.ip);
      AddressTextInjective(s.shared.bindings[PrintHardware(hw1)].addr, s.shared.bindings[PrintHardware(hw2)].addr);
      HardwareKeyInjective(hw1, hw2);
    }
  }

  // The address bound to the hardware address that has this record key.
  ghost predicate IsOwnLease(b: Bindings, key: string, ip: string)
  {
    exists hw :: NormalizeMAC(PrintHardware(hw)) == key && HasLease(b, hw, ip)
  }

  ghost predicate HasLease(b: Bindings, hw: seq<byte>, ip: string)
  {
    PrintHardware(hw) in b && AddressText(b[PrintHardware(hw)].addr) == ip
  }

  // As long as only DHCP messages and install requests arrive, every recorded address is empty or exactly the lease of
  // its own node, so two nodes never hold the same non-empty address.
  lemma DhcpAndInstallsOnly(net: Option<Network>, start: int, events: seq<Event>, k1: string, k2: string)
    requires LeavesPrintedAlone(net)
    requires forall e | e in events && e.Arrive? :: e.handler.DhcpFind? || e.handler.InstallFind?
    requires k1 in Run(net, start, events).shared.store
    ensures var s := Run(net, start, events).shared;
            && (s.store[k1].ip == "" || IsOwnLease(s.bindings, k1, s.store[k1].ip))
            && (k2 in s.store && k1 != k2 && s.store[k1].ip != "" ==> s.store[k1].ip != s.store[k2].ip)
  {
    RunKeepsAddresses(net, start, events);
    RunKeepsRepository(net, start, events);
    if k2 in Run(net, start, events).shared.store && k1 != k2 {
      RecordedAddressesDiffer(net, start, events, k1, k2);
    }
    var s := Run(net, start, events);
    hide Run, TopicMac, NormalizeMAC, PrintHardware, AddressText, StoreIsLog, HistoryGood, HandlersGood;
    var node := s.shared.store[k1];
    assert Explained(net, s.shared.bindings, events, node);
    if node.ip != "" {
      var hw :| NormalizeMAC(PrintHardware(hw)) == k1 && LeasedTo(net.value, s.shared.bindings, hw, node.ip);
      assert HasLease(s.shared.bindings, hw, node.ip);
    }
  }
}
