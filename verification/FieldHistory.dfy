/** What runs of interleaved handlers do to the fields of a record: a handler changes its own fields and no others. */
module FieldHistory {
  import opened Results
  import opened Text
  import opened Mac
  import opened Ipv4
  import opened Pool
  import opened Nodes
  import opened Store
  import opened Handlers
  import opened Lifecycle
  import opened Scenarios
  import opened StatusHistory
  import DnsList

  predicate IsNew(node: Record)
  {
    && node.netmask == node.gateway == node.dns == node.hostname == ""
    && node.status == Discovered && node.lastHeartbeat == NEVER
  }

  // What a handler stores, against the record it had seen: a refresh, the network settings of the assigned address, what
  // a status report makes of it, a registration of an unknown node, or the status of an install.
  ghost predicate OwnFields(net: Option<Network>, before: Option<Record>, step: Handler, after: Record)
  {
    match step
    case DhcpSave(_, _) =>
      if before.None? then IsNew(after) && after.ip == ""
      else after == before.value.(updatedAt := after.updatedAt)
    case DhcpRecord(a, _) =>
      before.Some? && net.Some? && after == WithNetwork(net.value, before.value, a).(updatedAt := after.updatedAt)
    case MqttSave(report, _) =>
      before.Some? && after == Reported(report, before.value, after.lastHeartbeat).(updatedAt := after.updatedAt)
    case RegisterSave(node) => before.None? && IsNew(after) && after.ip == node.ip
    case InstallApply(_) => before.Some? && after == before.value.(status := Installing, updatedAt := after.updatedAt)
    case _ => false
  }

  ghost predicate LogOwn(net: Option<Network>, log: seq<Write>)
  {
    forall j | 0 <= j < |log| ::
      log[j].seen <= j && OwnFields(net, Last(log[..log[j].seen], log[j].key), log[j].step, log[j].record)
  }

  // The record a handler carries, against the one in the bucket when the handler last touched it.
  ghost predicate CarriesOwn(net: Option<Network>, s: System, i: nat)
    requires i < |s.handlers| == |s.seen|
  {
    Carried(s.handlers[i]).Some? ==>
      var node := Carried(s.handlers[i]).value;
      && s.seen[i] <= |s.log|
      && var before := Last(s.log[..s.seen[i]], node.mac);
         if s.handlers[i].DhcpAssign? || s.handlers[i].MqttCheck? then before == Some(node)
         else OwnFields(net, before, s.handlers[i], node)
  }

  ghost predicate OwnInv(net: Option<Network>, s: System)
  {
    && |s.seen| == |s.handlers|
    && LogOwn(net, s.log)
    && forall i | 0 <= i < |s.handlers| :: CarriesOwn(net, s, i)
  }

  // Stamping a carried node changes only its times, and not its creation time where it had been read from the bucket.
  lemma StampedIsOwn(net: Option<Network>, before: Option<Record>, step: Handler, node: Record, after: Record)
    requires OwnFields(net, before, step, node)
    requires after == node.(createdAt := after.createdAt, updatedAt := after.updatedAt)
    requires before.Some? ==> after.createdAt == before.value.createdAt
    ensures OwnFields(net, before, step, after)
  {
    hide AddressText, MaskText, Dotted, Join, DnsTexts;
  }

  // The last record of a key before a point of the log is filed there, with the one creation time of that key.
  lemma LastIsFiled(s: System, key: string, j: nat)
    requires HistoryGood(s) && j <= |s.log|
    ensures Last(s.log[..j], key).Some? ==>
              key in s.shared.store
              && Last(s.log[..j], key).value.mac == key
              && Last(s.log[..j], key).value.createdAt == s.shared.store[key].createdAt
  {
    if Last(s.log[..j], key).Some? {
      var i := LastIsWritten(s.log[..j], key);
      assert s.log[i] == s.log[..j][i];
    }
  }

  lemma WrittenIsOwn(net: Option<Network>, s: System, i: nat, m: Move, now: int)
    requires GoodMove(s, i, m, now) && OwnInv(net, s) && m.wrote.Some?
    ensures var w := Moved(s, i, m, now).log[|s.log|];
            w.seen <= |s.log| && OwnFields(net, Last(s.log[..w.seen], w.key), w.step, w.record)
  {
    hide NormalizeMAC, CarriesWell, StoreGood, HistoryGood;
    assert CarriesOwn(net, s, i);
    var k, h := m.wrote.value, s.handlers[i];
    if h.InstallApply? {
      assert s.log[..|s.log|] == s.log;
      assert Last(s.log, k) == At(s.shared.store, k);
    } else {
      var before := Last(s.log[..s.seen[i]], k);
      LastIsFiled(s, k, s.seen[i]);
      hide OwnFields, Last;
      StampedIsOwn(net, before, h, Carried(h).value, m.shared.store[k]);
    }
  }

  lemma MoveKeepsLogOwn(net: Option<Network>, s: System, i: nat, m: Move, now: int)
    requires GoodMove(s, i, m, now) && OwnInv(net, s)
    ensures LogOwn(net, Moved(s, i, m, now).log)
  {
    hide NormalizeMAC, CarriesWell, WritesWell, OwnFields, StoreGood, HistoryGood, StoreIsLog;
    var log := Moved(s, i, m, now).log;
    assert s.log <= log;
    if |log| > |s.log| {
      WrittenIsOwn(net, s, i, m, now);
    }
    forall j | 0 <= j < |log|
      ensures log[j].seen <= j && OwnFields(net, Last(log[..log[j].seen], log[j].key), log[j].step, log[j].record)
    {
      if j < |s.log| {
        assert log[j] == s.log[j];
      }
      assert log[..log[j].seen] == s.log[..log[j].seen];
    }
  }

  lemma NextCarriesOwn(net: Option<Network>, s: System, i: nat, m: Move, now: int)
    requires GoodMove(s, i, m, now) && OwnInv(net, s) && Carried(m.next).Some?
    requires s.handlers[i].DhcpAssign? && m.next.DhcpRecord? ==>
               OwnFields(net, Some(s.handlers[i].node), m.next, m.next.node)
    requires s.handlers[i].DhcpAssign? && m.next.DhcpAssign? ==> m.next == s.handlers[i]
    requires s.handlers[i].DhcpFind? && Carried(m.next).value.mac !in s.shared.store ==> IsNew(Carried(m.next).value)
    requires s.handlers[i].RegisterFind? ==> IsNew(Carried(m.next).value)
    ensures i < |s.seen| && CarriesOwn(net, Moved(s, i, m, now), i)
  {
    hide NormalizeMAC, StoreGood, HistoryGood;
    var t, node := Moved(s, i, m, now), Carried(m.next).value;
    assert CarriesOwn(net, s, i);
    assert t.log[..|t.log|] == t.log;
    if s.handlers[i].DhcpSave? {
      assert t.log == s.log + [t.log[|s.log|]];
      LastAppend(s.log, t.log[|s.log|], node.mac);
    } else {
      assert t.log == s.log;
      assert Last(s.log, node.mac) == At(s.shared.store, node.mac);
    }
  }

  lemma MoveKeepsOwn(net: Option<Network>, s: System, i: nat, m: Move, now: int)
    requires GoodMove(s, i, m, now) && OwnInv(net, s) && m == Step(net, s.shared, s.handlers[i], now)
    ensures OwnInv(net, Moved(s, i, m, now))
  {
    StepShapes(net, s.shared, s.handlers[i], now);
    hide NormalizeMAC, OwnFields, Step, LogOwn;
    var t := Moved(s, i, m, now);
    assert s.log <= t.log;
    MoveKeepsLogOwn(net, s, i, m, now);
    forall j | 0 <= j < |t.handlers|
      ensures CarriesOwn(net, t, j)
    {
      if j != i {
        hide WritesWell, CarriesWell;
        assert CarriesOwn(net, s, j);
        if Carried(s.handlers[j]).Some? {
          assert t.log[..s.seen[j]] == s.log[..s.seen[j]];
        }
      } else if Carried(m.next).Some? {
        NextCarriesOwn(net, s, i, m, now);
      }
    }
  }

  // New nodes are blank, and the pool step writes only network fields into the node.
  lemma StepShapes(net: Option<Network>, sh: Shared, h: Handler, now: int)
    requires forall k | k in sh.store :: sh.store[k].mac == k
    ensures var m := Step(net, sh, h, now);
            && (h.DhcpAssign? && m.next.DhcpRecord? ==> OwnFields(net, Some(h.node), m.next, m.next.node))
            && (h.DhcpAssign? && m.next.DhcpAssign? ==> m.next == h)
            && (h.DhcpFind? && m.next.DhcpSave? && m.next.node.mac !in sh.store ==> IsNew(m.next.node))
            && (h.RegisterFind? && m.next.RegisterSave? ==> IsNew(m.next.node))
  {
    hide NormalizeMAC, PrintHardware, TopicMac, Client, Requested, Choose, Lookup, Allocate;
  }

  lemma ReactKeepsOwn(net: Option<Network>, s: System, e: Event)
    requires RepositoryInv(s) && OwnInv(net, s)
    ensures OwnInv(net, React(net, s, e))
  {
    hide Step, LogOwn, OwnFields, Last;
    if e.Advance? && e.i < |s.handlers| {
      var now := s.clock + e.delay;
      hide OwnInv;
      StepIsGood(net, s, e.i, now);
      MoveKeepsOwn(net, s, e.i, Step(net, s.shared, s.handlers[e.i], now), now);
    } else {
      var t := React(net, s, e);
      forall i | 0 <= i < |t.handlers|
        ensures CarriesOwn(net, t, i)
      {
        assert i < |s.handlers| ==> CarriesOwn(net, s, i);
      }
    }
  }

  lemma {:induction false} RunKeepsOwn(net: Option<Network>, start: int, events: seq<Event>)
    ensures OwnInv(net, Run(net, start, events))
  {
    hide React;
    if events != [] {
      hide OwnInv;
      var before := events[..|events| - 1];
      RunKeepsOwn(net, start, before);
      RunKeepsRepository(net, start, before);
      ReactKeepsOwn(net, Run(net, start, before), events[|events| - 1]);
    }
  }

  // In every interleaving, a write is the record its handler had seen with only that handler's own fields changed.
  lemma WritesChangeOwnFields(net: Option<Network>, start: int, events: seq<Event>, j: nat)
    requires j < |Run(net, start, events).log|
    ensures var log := Run(net, start, events).log;
            log[j].seen <= j && OwnFields(net, Last(log[..log[j].seen], log[j].key), log[j].step, log[j].record)
  {
    RunKeepsOwn(net, start, events);
  }

  // In every interleaving: the record that follows an assigned address holds that address, the pool's mask, gateway and
  // name servers where it has them, and in every other field what the record held that the handler had seen.
  lemma RecordedNetwork(net: Option<Network>, start: int, events: seq<Event>, log: seq<Write>, j: nat)
    requires log == Run(net, start, events).log && j < |log| && log[j].step.DhcpRecord?
    ensures net.Some? && log[j].seen <= j && Last(log[..log[j].seen], log[j].key).Some?
    ensures var n, r, seen := net.value, log[j].record, Last(log[..log[j].seen], log[j].key).value;
            && r.ip == AddressText(log[j].step.addr)
            && (if n.netmask != [] then r.netmask == MaskText(n.netmask) else r.netmask == seen.netmask)
            && (if n.gateway.Some? then r.gateway == Dotted(n.gateway.value) else r.gateway == seen.gateway)
            && (if n.dns == [] then r.dns == seen.dns
                else |DnsList.Entries(r.dns)| == |n.dns|
                     && forall i | 0 <= i < |n.dns| :: DnsList.Entries(r.dns)[i] == Dotted(n.dns[i]))
            && (r.hostname, r.status, r.lastHeartbeat, r.createdAt)
               == (seen.hostname, seen.status, seen.lastHeartbeat, seen.createdAt)
  {
    WritesChangeOwnFields(net, start, events, j);
    hide Run, AddressText, MaskText, Dotted, Join, DnsList.Entries;
    DnsList.RecordedDnsIsReadBack(net.value.dns);
  }

  // In every interleaving, a report that came to its check is stored by the next two steps, whatever the check says.
  lemma CheckedReportIsWritten(net: Option<Network>, start: int, events: seq<Event>, s: System, i: nat, delay: nat)
    requires s == Run(net, start, events) && i < |s.handlers| && (s.handlers[i].MqttCheck? || s.handlers[i].MqttSave?)
    ensures var t, now := React(net, s, Advance(i, delay)), s.clock + delay;
            match s.handlers[i]
            case MqttCheck(report, node) =>
              t.handlers == s.handlers[i := MqttSave(report, Reported(report, node, now))] && t.log == s.log
            case MqttSave(_, node) =>
              && i < |s.seen|
              && t.log == s.log + [Write(node.mac, Stamped(s.shared.store, node, now), s.handlers[i], s.seen[i])]
  {
    RunKeepsRepository(net, start, events);
    hide Run, NormalizeMAC, Reported, StoreIsLog, StoreGood, HistoryGood;
    assert Carried(s.handlers[i]).Some? && GoodNode(Carried(s.handlers[i]).value);
  }

  // ---- which writes lose a field that another handler stored ----

  // What the handler had seen and what is stored agree in every field that the write does not decide by itself. A report
  // decides the status when its check passes, and the address and host name when it names them.
  predicate SameOthers(net: Option<Network>, step: Handler, seen: Option<Record>, stored: Option<Record>)
  {
    match (seen, stored)
    case (None, None) => true
    case (None, Some(y)) => step.DhcpSave? && IsNew(y) && y.ip == ""
    case (Some(_), None) => false
    case (Some(x), Some(y)) =>
      match step
      case DhcpSave(_, _) =>
        && SameNetwork(x, y) && x.ip == y.ip && x.hostname == y.hostname && x.status == y.status
        && x.lastHeartbeat == y.lastHeartbeat
      case DhcpRecord(_, _) =>
        && net.Some? && x.hostname == y.hostname && x.status == y.status && x.lastHeartbeat == y.lastHeartbeat
        && (net.value.netmask == [] ==> x.netmask == y.netmask)
        && (net.value.gateway == None ==> x.gateway == y.gateway)
        && (net.value.dns == [] ==> x.dns == y.dns)
      case MqttSave(report, _) =>
        && SameNetwork(x, y) && (report.ip == "" ==> x.ip == y.ip) && (report.hostname == "" ==> x.hostname == y.hostname)
        && CanTransition(x.status, report.status) == CanTransition(y.status, report.status)
        && (CanTransition(x.status, report.status) || x.status == y.status)
      case InstallApply(_) =>
        SameNetwork(x, y) && x.ip == y.ip && x.hostname == y.hostname && x.lastHeartbeat == y.lastHeartbeat
      case _ => false
  }

  predicate SameNetwork(x: Record, y: Record) { x.netmask == y.netmask && x.gateway == y.gateway && x.dns == y.dns }

  lemma {:induction false} LastGrows(log: seq<Write>, key: string, i: nat, j: nat)
    requires i <= j <= |log|
    ensures Last(log[..i], key).Some? ==> Last(log[..j], key).Some?
    decreases j
  {
    if i < j {
      LastGrows(log, key, i, j - 1);
      assert log[..j][..j - 1] == log[..j - 1];
    }
  }

  lemma SameOthersIff(net: Option<Network>, step: Handler, seen: Option<Record>, stored: Option<Record>, after: Record)
    requires OwnFields(net, seen, step, after)
    requires seen.Some? ==>
               stored.Some? && seen.value.mac == stored.value.mac && seen.value.createdAt == stored.value.createdAt
    requires stored.Some? ==> after.mac == stored.value.mac && after.createdAt == stored.value.createdAt
    ensures OwnFields(net, stored, step, after) <==> SameOthers(net, step, seen, stored)
  {
    hide AddressText, MaskText, Dotted, Join, DnsTexts;
  }

  // For every write of every run: it is the record stored just before it with only its own handler's fields changed, so
  // that nothing another handler stored is lost, exactly when what its handler had seen and what is stored agree in the
  // other fields. Save compares nothing; this is the comparison it would have to make.
  lemma WriteLosesNothingIff(net: Option<Network>, start: int, events: seq<Event>, log: seq<Write>, j: nat)
    requires log == Run(net, start, events).log && j < |log|
    ensures log[j].seen <= j
    ensures OwnFields(net, Last(log[..j], log[j].key), log[j].step, log[j].record)
       <==> SameOthers(net, log[j].step, Last(log[..log[j].seen], log[j].key), Last(log[..j], log[j].key))
  {
    var s := Run(net, start, events);
    RunKeepsRepository(net, start, events);
    WritesChangeOwnFields(net, start, events, j);
    hide Run, OwnFields, SameOthers, Last, StoreIsLog, StoreGood, NormalizeMAC;
    var key, seen := log[j].key, log[j].seen;
    LastGrows(log, key, seen, j);
    LastIsFiled(s, key, seen);
    LastIsFiled(s, key, j);
    SameOthersIff(net, log[j].step, Last(log[..seen], key), Last(log[..j], key), log[j].record);
  }

  // So when handlers of the same node do not overlap, no write loses a field that another handler had stored: each is the
  // record stored just before it with only its own handler's fields changed.
  lemma SerialRunsLoseNothing(net: Option<Network>, start: int, events: seq<Event>, j: nat)
    requires NoOverlap(net, start, events)
    requires j < |Run(net, start, events).log|
    ensures var log := Run(net, start, events).log;
            OwnFields(net, Last(log[..j], log[j].key), log[j].step, log[j].record)
  {
    RunKeepsUndisturbed(net, start, events);
    WritesChangeOwnFields(net, start, events, j);
    var log := Run(net, start, events).log;
    hide Run, OwnFields;
    LastUndisturbed(log, log[j].key, log[j].seen, j);
  }

  // ---- a run in which a field is lost ----

  // A DISCOVER of an unknown node is recorded; a status report of the node finds that record; the DHCP handler assigns an
  // address and records it; the report saves what it had found.
  function LosingRun(msg: DhcpMessage, report: StatusMessage): seq<Event>
  {
    Reaching(0, msg)
    + [Arrive(MqttFind(StatusTopic(Hex(msg.hw)), Some(report))), Advance(1, 0), Advance(1, 0)]
    + [Advance(0, 0), Advance(0, 0), Advance(1, 0)]
  }

  lemma ReportChecks(net: Option<Network>, s: System, mac: string, r: Record, report: StatusMessage)
    requires s.shared.store == map[mac := r] && |s.handlers| == |s.seen| == 1
    requires TopicMac(StatusTopic(mac)) == Some(mac) && NormalizeMAC(mac) == mac && IsValidStatus(report.status)
    ensures ReactAll(net, s, [Arrive(MqttFind(StatusTopic(mac), Some(report))), Advance(1, 0), Advance(1, 0)])
         == s.(handlers := s.handlers + [MqttSave(report, Reported(report, r, s.clock))], seen := s.seen + [|s.log|])
  {
    hide NormalizeMAC, TopicMac, StatusTopic, ReactAll, Reported;
    var arrival := Arrive(MqttFind(StatusTopic(mac), Some(report)));
    ReactThree(net, s, arrival, Advance(1, 0), Advance(1, 0));
    var t := React(net, s, arrival);
    var u := React(net, t, Advance(1, 0));
    assert u == s.(handlers := s.handlers + [MqttCheck(report, r)], seen := s.seen + [|s.log|]);
    var v := React(net, u, Advance(1, 0));
    assert v.handlers == s.handlers + [MqttSave(report, Reported(report, r, s.clock))];
    assert v.log == s.log;
  }

  lemma RecordsThenReports(net: Network, s: System, mac: string, r: Record, msg: DhcpMessage, report: StatusMessage,
                           q: Record, a: uint32)
    requires s.shared == Shared(map[mac := r], map[]) && s.handlers == [DhcpAssign(msg, r), MqttSave(report, q)]
    requires |s.seen| == 2 && |s.log| == 1
    requires r.mac == q.mac == mac == NormalizeMAC(mac) && mac != "" && IsValidStatus(r.status) && IsValidStatus(q.status)
    requires msg.kind == Discover && a != 0
    requires Choose(net.pool, map[], Client(net, msg), Requested(msg.requested)) == Granted(a)
    ensures var log := ReactAll(Some(net), s, [Advance(0, 0), Advance(0, 0), Advance(1, 0)]).log;
            && |log| == 3 && log[1].key == log[2].key == mac
            && log[1].record.ip == AddressText(a) && log[1].step == DhcpRecord(a, WithNetwork(net, r, a))
            && log[2].record.ip == q.ip && log[2].step == MqttSave(report, q)
  {
    hide NormalizeMAC, ReactAll, Client, Requested, Choose, AddressText, MaskText, Dotted, Join, DnsTexts;
    ReactThree(Some(net), s, Advance(0, 0), Advance(0, 0), Advance(1, 0));
    var t := React(Some(net), s, Advance(0, 0));
    assert t.handlers == [DhcpRecord(a, WithNetwork(net, r, a)), MqttSave(report, q)];
    assert t.log == s.log && t.shared.store == map[mac := r];
    var u := React(Some(net), t, Advance(0, 0));
    assert u.handlers == [Done, MqttSave(report, q)];
    assert |u.log| == 2 && u.log[1].record.ip == AddressText(a);
  }

  lemma BeforeErasure(net: Option<Network>, start: int, msg: DhcpMessage, report: StatusMessage)
    requires |msg.hw| == 6 && msg.kind == Discover && IsValidStatus(report.status)
    ensures var mac, r := Hex(msg.hw), Blank(Hex(msg.hw), start);
            Run(net, start, Reaching(0, msg)
                            + [Arrive(MqttFind(StatusTopic(mac), Some(report))), Advance(1, 0), Advance(1, 0)])
            == System(Shared(map[mac := r], map[]), [DhcpAssign(msg, r), MqttSave(report, Reported(report, r, start))],
                      [1, 1], [Write(mac, r, DhcpSave(msg, r), 0)], start)
  {
    var mac, r := Hex(msg.hw), Blank(Hex(msg.hw), start);
    TopicRoundTrip(mac);
    NormalizeFixedPoint(mac);
    hide NormalizeMAC, TopicMac, StatusTopic, Hex, Run, ReactAll, Reaching, Reported;
    var e1, e2 := Reaching(0, msg), [Arrive(MqttFind(StatusTopic(mac), Some(report))), Advance(1, 0), Advance(1, 0)];
    RunFromStart(net, start, e1);
    ReachesPoolStep(net, System(Shared(map[], map[]), [], [], [], start), msg);
    RunAppend(net, start, e1, e2);
    ReportChecks(net, Run(net, start, e1), mac, r, report);
  }

  // For any hardware address, any network with an address to give and any report that names no address: in that run the
  // address that the DHCP handler has just recorded is erased by the report.
  lemma OverlapLosesAddress(net: Network, start: int, msg: DhcpMessage, report: StatusMessage)
    requires |msg.hw| == 6 && msg.kind == Discover && 0 < net.pool.start <= net.pool.end
    requires IsValidStatus(report.status) && report.ip == ""
    ensures var log := Run(Some(net), start, LosingRun(msg, report)).log;
            && |log| == 3 && log[1].key == log[2].key == Hex(msg.hw)
            && log[1].step.DhcpRecord? && log[1].record.ip == AddressText(log[1].step.addr) != ""
            && log[2].step.MqttSave? && log[2].record.ip == ""
            && !OwnFields(Some(net), Last(log[..2], log[2].key), log[2].step, log[2].record)
    ensures !NoOverlap(Some(net), start, LosingRun(msg, report))
  {
    var mac, r := Hex(msg.hw), Blank(Hex(msg.hw), start);
    var q := Reported(report, r, start);
    EmptyPoolGrants(net.pool, Client(net, msg), Requested(msg.requested));
    var a := Choose(net.pool, map[], Client(net, msg), Requested(msg.requested)).addr;
    NormalizeFixedPoint(mac);
    assert q.ip == "" && q.mac == mac && IsValidStatus(q.status);
    var e3 := [Advance(0, 0), Advance(0, 0), Advance(1, 0)];
    var before := LosingRun(msg, report)[..6];
    assert LosingRun(msg, report) == before + e3;
    BeforeErasure(Some(net), start, msg, report);
    hide NormalizeMAC, Hex, Run, ReactAll, Blank, LosingRun, Client, Requested, Choose, Reported, OwnFields, NoOverlap;
    RunAppend(Some(net), start, before, e3);
    RecordsThenReports(net, Run(Some(net), start, before), mac, r, msg, report, q, a);
    AddressTextNotEmpty(a);
    ErasedAddress(Some(net), Run(Some(net), start, LosingRun(msg, report)).log, report, q);
    if NoOverlap(Some(net), start, LosingRun(msg, report)) {
      SerialRunsLoseNothing(Some(net), start, LosingRun(msg, report), 2);
    }
  }

  lemma ErasedAddress(net: Option<Network>, log: seq<Write>, report: StatusMessage, q: Record)
    requires |log| == 3 && log[1].key == log[2].key && log[2].step == MqttSave(report, q) && report.ip == ""
    requires log[1].record.ip != log[2].record.ip
    ensures !OwnFields(net, Last(log[..2], log[2].key), log[2].step, log[2].record)
  {
    assert log[..2] == log[..1] + [log[1]];
    LastAppend(log[..1], log[1], log[2].key);
  }

  lemma AddressTextNotEmpty(a: uint32)
    ensures AddressText(a) != ""
  {
    DnsList.DottedIsText(FromInt(a));
  }
}
