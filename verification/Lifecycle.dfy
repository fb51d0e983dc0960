/**
 Runs of the whole server: any number of DHCP, MQTT and HTTP handlers, interleaved step by step in any order, from an
 empty database and an empty pool, with a clock that never goes back.
 */
module Lifecycle {
  import opened Results
  import opened Text
  import opened Mac
  import opened Ipv4
  import opened Pool
  import opened Nodes
  import opened Store
  import opened Handlers

  // One write to the bucket: what was stored, the handler at the step that stored it, and how long the log was when that
  // handler last touched the bucket before (for an UpdateStatus, which reads in its own transaction, at the write).
  datatype Write = Write(key: string, record: Record, step: Handler, seen: nat)

  datatype System = System(shared: Shared, handlers: seq<Handler>, seen: seq<nat>, log: seq<Write>, clock: int)

  // A message arrives and starts a handler, or a handler makes one step some time after the last event.
  datatype Event = Arrive(handler: Handler) | Advance(i: nat, delay: nat)

  // Steps that read or write the bucket: only the check of a status report and the pool step do not.
  predicate TouchesStore(h: Handler) { !h.DhcpAssign? && !h.MqttCheck? && !h.Done? }

  ghost function React(net: Option<Network>, s: System, e: Event): System
  {
    match e
    case Arrive(h) =>
      if IsEntry(h) then s.(handlers := s.handlers + [h], seen := s.seen + [|s.log|]) else s
    case Advance(i, delay) =>
      if i < |s.handlers| && i < |s.seen| then
        Moved(s, i, Step(net, s.shared, s.handlers[i], s.clock + delay), s.clock + delay)
      else s
  }

  ghost function Moved(s: System, i: nat, m: Move, now: int): System
    requires i < |s.handlers| && i < |s.seen|
  {
    var h := s.handlers[i];
    var log := s.log + Written(s, i, m);
    System(m.shared, s.handlers[i := m.next], if TouchesStore(h) then s.seen[i := |log|] else s.seen, log, now)
  }

  ghost function Written(s: System, i: nat, m: Move): seq<Write>
    requires i < |s.handlers| && i < |s.seen|
  {
    if m.wrote.Some? && m.wrote.value in m.shared.store then
      [Write(m.wrote.value, m.shared.store[m.wrote.value], s.handlers[i],
             if s.handlers[i].InstallApply? then |s.log| else s.seen[i])]
    else []
  }

  ghost function Run(net: Option<Network>, start: int, events: seq<Event>): System
  {
    if events == [] then System(Shared(map[], map[]), [], [], [], start)
    else React(net, Run(net, start, events[..|events| - 1]), events[|events| - 1])
  }

  // ---- the repository is a map from normalised address to the last record written ----

  function Last(log: seq<Write>, key: string): Option<Record>
  {
    if log == [] then None
    else if log[|log| - 1].key == key then Some(log[|log| - 1].record)
    else Last(log[..|log| - 1], key)
  }

  predicate GoodNode(node: Record)
  {
    |node.mac| == 12 && NormalizeMAC(node.mac) == node.mac && IsValidStatus(node.status)
  }

  // The node a handler carries between its find and its last save.
  function Carried(h: Handler): Option<Record>
  {
    match h
    case DhcpSave(_, node) => Some(node)
    case DhcpAssign(_, node) => Some(node)
    case DhcpRecord(_, node) => Some(node)
    case MqttCheck(_, node) => Some(node)
    case MqttSave(_, node) => Some(node)
    case RegisterSave(node) => Some(node)
    case _ => None
  }

  function At(store: Bucket, key: string): Option<Record> { if key in store then Some(store[key]) else None }

  // The bucket holds, under every key, the last record the log wrote there.
  ghost predicate StoreIsLog(s: System)
  {
    forall k :: Last(s.log, k) == At(s.shared.store, k)
  }

  ghost predicate StoreGood(s: System)
  {
    forall k | k in s.shared.store ::
      && GoodNode(s.shared.store[k])
      && s.shared.store[k].mac == k
      && s.shared.store[k].createdAt <= s.shared.store[k].updatedAt <= s.clock
  }

  ghost predicate HandlersGood(s: System)
  {
    && |s.seen| == |s.handlers|
    && forall i | 0 <= i < |s.handlers| && Carried(s.handlers[i]).Some? :: GoodNode(Carried(s.handlers[i]).value)
  }

  // A key keeps its record, and the record its creation time; update times never go back.
  ghost predicate HistoryGood(s: System)
  {
    && (forall i | 0 <= i < |s.log| ::
          && GoodNode(s.log[i].record)
          && s.log[i].record.mac == s.log[i].key
          && s.log[i].key in s.shared.store
          && s.log[i].record.createdAt == s.shared.store[s.log[i].key].createdAt <= s.log[i].record.updatedAt <= s.clock)
    && (forall i, j | 0 <= i < j < |s.log| :: s.log[i].record.updatedAt <= s.log[j].record.updatedAt)
  }

  ghost predicate RepositoryInv(s: System)
  {
    StoreIsLog(s) && StoreGood(s) && HandlersGood(s) && HistoryGood(s)
  }

  // A writing step puts one record under its normalised key, out of the node it carries or, for an install, out of the
  // record that is there; every other step leaves the bucket as it was.
  ghost predicate WritesWell(sh: Shared, h: Handler, now: int, m: Move)
  {
    match m.wrote
    case None => m.shared.store == sh.store
    case Some(k) =>
      && k in m.shared.store
      && m.shared.store == sh.store[k := m.shared.store[k]]
      && if h.InstallApply? then
           && k == NormalizeMAC(h.mac) && k in sh.store
           && m.shared.store[k] == sh.store[k].(status := Installing, updatedAt := now)
           && CanTransition(sh.store[k].status, Installing)
         else
           && Carried(h).Some? && TouchesStore(h)
           && k == NormalizeMAC(Carried(h).value.mac)
           && m.shared.store[k] == Stamped(sh.store, Carried(h).value, now)
           && IsValidStatus(Carried(h).value.status)
  }

  lemma StepWrites(net: Option<Network>, sh: Shared, h: Handler, now: int)
    ensures WritesWell(sh, h, now, Step(net, sh, h, now))
  {
  }

  // What a handler carries after a step comes from the bucket, is a new discovered node, or is its own earlier node.
  ghost predicate CarriesWell(sh: Shared, h: Handler, now: int, m: Move)
  {
    Carried(m.next).Some? ==>
      var node := Carried(m.next).value;
      && GoodNode(node)
      && match h
         case DhcpFind(_) => m.next.DhcpSave?
           && if node.mac in sh.store then node == sh.store[node.mac] else node.status == Discovered && node.ip == ""
         case RegisterFind(_, ip) => m.next.RegisterSave?
           && node.mac !in sh.store && node.status == Discovered && node.ip == ip
         case MqttFind(_, _) => m.next.MqttCheck? && node.mac in sh.store && node == sh.store[node.mac]
         case MqttCheck(report, before) => m.next.MqttSave? && m.next.report == report
           && node == Reported(report, before, now)
         case DhcpSave(_, before) => m.next.DhcpAssign?
           && m.wrote == Some(before.mac) && node == Stamped(sh.store, before, now)
         case DhcpAssign(_, before) => (m.next.DhcpAssign? || m.next.DhcpRecord?)
           && node.mac == before.mac && node.status == before.status
         case _ => false
  }

  lemma StepCarries(net: Option<Network>, sh: Shared, h: Handler, now: int)
    requires forall k | k in sh.store :: GoodNode(sh.store[k]) && sh.store[k].mac == k
    requires Carried(h).Some? ==> GoodNode(Carried(h).value)
    ensures CarriesWell(sh, h, now, Step(net, sh, h, now))
  {
    hide NormalizeMAC, PrintHardware, TopicMac, AddressText, MaskText, Dotted, Join, DnsTexts, Client, Requested;
    hide Choose, Lookup, Allocate;
    NormalizeFacts();
  }

  lemma NormalizeFacts()
    ensures forall m: string :: NormalizeMAC(NormalizeMAC(m)) == NormalizeMAC(m)
  {
    forall m: string
      ensures NormalizeMAC(NormalizeMAC(m)) == NormalizeMAC(m)
    {
      NormalizeIdempotent(m);
    }
  }

  // One step of one handler, from a state in which the repository invariant holds.
  ghost predicate GoodMove(s: System, i: nat, m: Move, now: int)
  {
    && RepositoryInv(s)
    && i < |s.handlers|
    && s.clock <= now
    && WritesWell(s.shared, s.handlers[i], now, m)
    && CarriesWell(s.shared, s.handlers[i], now, m)
  }

  lemma StepIsGood(net: Option<Network>, s: System, i: nat, now: int)
    requires RepositoryInv(s) && i < |s.handlers| && s.clock <= now
    ensures GoodMove(s, i, Step(net, s.shared, s.handlers[i], now), now)
  {
    hide Step, WritesWell, CarriesWell;
    StepWrites(net, s.shared, s.handlers[i], now);
    StepCarries(net, s.shared, s.handlers[i], now);
  }

  lemma LastAppend(log: seq<Write>, w: Write, key: string)
    ensures Last(log + [w], key) == if w.key == key then Some(w.record) else Last(log, key)
  {
  }

  lemma WrittenRecordGood(s: System, i: nat, m: Move, now: int)
    requires GoodMove(s, i, m, now) && m.wrote.Some?
    ensures var k := m.wrote.value;
            && k in m.shared.store && m.shared.store == s.shared.store[k := m.shared.store[k]]
            && GoodNode(m.shared.store[k]) && m.shared.store[k].mac == k
            && m.shared.store[k].updatedAt == now && m.shared.store[k].createdAt <= now
            && m.shared.store[k].createdAt == if k in s.shared.store then s.shared.store[k].createdAt else now
  {
  }

  lemma MoveKeepsHandlers(s: System, i: nat, m: Move, now: int)
    requires GoodMove(s, i, m, now)
    ensures HandlersGood(Moved(s, i, m, now))
  {
  }

  lemma WriteKeepsHistory(s: System, i: nat, m: Move, now: int)
    requires GoodMove(s, i, m, now) && m.wrote.Some?
    ensures HistoryGood(Moved(s, i, m, now))
  {
    hide NormalizeMAC, WritesWell, CarriesWell, StoreIsLog;
    WrittenRecordGood(s, i, m, now);
    var t, k := Moved(s, i, m, now), m.wrote.value;
    assert t.log == s.log + [t.log[|s.log|]];
    forall j | 0 <= j < |s.log|
      ensures s.log[j].key in t.shared.store && s.log[j].record.createdAt == t.shared.store[s.log[j].key].createdAt
    {
      assert s.log[j].key in s.shared.store;
    }
  }

  lemma WriteKeepsStore(s: System, i: nat, m: Move, now: int)
    requires GoodMove(s, i, m, now) && m.wrote.Some?
    ensures StoreIsLog(Moved(s, i, m, now)) && StoreGood(Moved(s, i, m, now))
  {
    hide NormalizeMAC, WritesWell, CarriesWell, HistoryGood;
    WrittenRecordGood(s, i, m, now);
    var t := Moved(s, i, m, now);
    var w := t.log[|s.log|];
    assert t.log == s.log + [w];
    forall k
      ensures Last(t.log, k) == At(t.shared.store, k)
    {
      LastAppend(s.log, w, k);
    }
  }

  lemma MoveKeepsRepository(s: System, i: nat, m: Move, now: int)
    requires GoodMove(s, i, m, now)
    ensures RepositoryInv(Moved(s, i, m, now))
  {
    hide NormalizeMAC;
    MoveKeepsHandlers(s, i, m, now);
    if m.wrote.Some? {
      hide *;
      WriteKeepsHistory(s, i, m, now);
      WriteKeepsStore(s, i, m, now);
    } else {
      assert Moved(s, i, m, now).log == s.log;
    }
  }

  lemma ReactKeepsRepository(net: Option<Network>, s: System, e: Event)
    requires RepositoryInv(s)
    ensures RepositoryInv(React(net, s, e))
  {
    hide Step, NormalizeMAC, StoreGood, HistoryGood;
    match e
    case Arrive(h) =>
      ArrivalKeepsStore(s, React(net, s, e));
    case Advance(i, delay) =>
      if i < |s.handlers| {
        StepIsGood(net, s, i, s.clock + delay);
        MoveKeepsRepository(s, i, Step(net, s.shared, s.handlers[i], s.clock + delay), s.clock + delay);
      }
  }

  lemma ArrivalKeepsStore(s: System, t: System)
    requires RepositoryInv(s)
    requires t.shared == s.shared && t.log == s.log && t.clock == s.clock
    ensures StoreIsLog(t) && StoreGood(t) && HistoryGood(t)
  {
  }

  lemma {:induction false} RunKeepsRepository(net: Option<Network>, start: int, events: seq<Event>)
    ensures RepositoryInv(Run(net, start, events))
  {
    if events != [] {
      hide RepositoryInv, React;
      RunKeepsRepository(net, start, events[..|events| - 1]);
      ReactKeepsRepository(net, Run(net, start, events[..|events| - 1]), events[|events| - 1]);
    }
  }

  lemma RunStep(net: Option<Network>, start: int, events: seq<Event>, n: nat)
    requires n < |events|
    ensures Run(net, start, events[..n + 1]) == React(net, Run(net, start, events[..n]), events[n])
  {
    assert events[..n + 1][..n] == events[..n];
  }

  // The log only grows.
  lemma {:induction false} LogGrows(net: Option<Network>, start: int, events: seq<Event>, n: nat)
    requires n <= |events|
    ensures Run(net, start, events[..n]).log <= Run(net, start, events).log
    decreases |events| - n
  {
    if n < |events| {
      LogGrows(net, start, events, n + 1);
      RunStep(net, start, events, n);
      hide Step, Run;
    } else {
      assert events[..n] == events;
    }
  }

  // In every interleaving the bucket is a map from normalised address to the last record written there. A record once
  // stored is never removed, keeps its creation time, and is updated at times that never go back.
  lemma RepositoryHistory(net: Option<Network>, start: int, events: seq<Event>, n: nat)
    requires n <= |events|
    ensures var s, t := Run(net, start, events[..n]).shared.store, Run(net, start, events).shared.store;
            && WellFormed(t)
            && (forall k | k in s :: k in t && s[k].createdAt == t[k].createdAt && s[k].updatedAt <= t[k].updatedAt)
    ensures var log := Run(net, start, events).log;
            forall k :: Last(log, k) == At(Run(net, start, events).shared.store, k)
  {
    hide React, NormalizeMAC;
    RunKeepsRepository(net, start, events[..n]);
    RunKeepsRepository(net, start, events);
    LogGrows(net, start, events, n);
    var s, t := Run(net, start, events[..n]), Run(net, start, events);
    hide Run;
    forall k | k in s.shared.store
      ensures k in t.shared.store && s.shared.store[k].createdAt == t.shared.store[k].createdAt
      ensures s.shared.store[k].updatedAt <= t.shared.store[k].updatedAt
    {
      var i := LastIsWritten(s.log, k);
      assert t.log[i] == s.log[i];
      var j := LastIsWritten(t.log, k);
    }
  }

  lemma {:induction false} LastIsWritten(log: seq<Write>, key: string) returns (i: nat)
    requires Last(log, key).Some?
    ensures i < |log| && log[i].key == key && log[i].record == Last(log, key).value
    ensures forall j | i < j < |log| :: log[j].key != key
  {
    var n := |log| - 1;
    if log[n].key == key {
      i := n;
    } else {
      i := LastIsWritten(log[..n], key);
    }
  }
}
