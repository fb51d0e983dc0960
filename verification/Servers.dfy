/** The handlers as the code writes them, one undisturbed run each, against the step programs of module Handlers. */
module Servers {
  import opened Results
  import opened Text
  import opened Mac
  import opened Ipv4
  import opened Pool
  import opened Nodes
  import opened Store
  import opened Handlers
  import opened Repositories
  import opened IPManagers
  import DnsList

  // A handler's program with the shared state, one step further.
  ghost function Then(net: Option<Network>, at: (Shared, Handler), now: int): (Shared, Handler)
  {
    var m := Step(net, at.0, at.1, now);
    (m.shared, m.next)
  }

  lemma DoneStays(net: Option<Network>, sh: Shared, now: int)
    ensures Then(net, (sh, Done), now) == (sh, Done)
  {
  }

  lemma FindThen(net: Option<Network>, sh: Shared, msg: DhcpMessage, now: int)
    ensures Then(net, (sh, DhcpFind(msg)), now) == (sh, DhcpFindNext(sh.store, msg, now))
  {
  }

  lemma SaveThen(net: Option<Network>, sh: Shared, h: Handler, node: Record, now: int)
    requires (h.MqttSave? || h.RegisterSave? || h.DhcpRecord?) && h.node == node
    ensures Then(net, (sh, h), now) == (sh.(store := Save(sh.store, node, now)), Done)
  {
  }

  lemma DhcpSaveThen(net: Option<Network>, sh: Shared, msg: DhcpMessage, node: Record, now: int)
    ensures Then(net, (sh, DhcpSave(msg, node)), now)
         == (sh.(store := Save(sh.store, node, now)),
             if SaveError(node).Some? then Done else DhcpAssign(msg, Stamped(sh.store, node, now)))
  {
  }

  lemma AssignThen(net: Option<Network>, sh: Shared, msg: DhcpMessage, node: Record, now: int)
    ensures Then(net, (sh, DhcpAssign(msg, node)), now)
         == if net.None? then (sh, Done)
            else if msg.kind == Discover then
              (sh.(bindings :=
                     Allocate(net.value.pool, sh.bindings, Client(net.value, msg), Requested(msg.requested), now)),
               match Choose(net.value.pool, sh.bindings, Client(net.value, msg), Requested(msg.requested))
               case Granted(a) => Handlers.Assigned(net.value, node, a)
               case Exhausted => Done
               case Hangs => DhcpAssign(msg, node))
            else
              (sh,
               match Lookup(sh.bindings, Client(net.value, msg), now)
               case Ok(a) => Handlers.Assigned(net.value, node, a)
               case Err(_) => Done)
  {
  }

  // NeverReturns is the handler that waits for ever in AllocateIP.
  datatype Reply = Silent | Echoed(address: NetIP) | Assigned(ip: IPv4) | NeverReturns

  // The answer to a message when its handler comes to the pool step: an allocation for a DISCOVER, the lease for a
  // REQUEST, silence when the pool refuses, and an echo when there is no pool.
  ghost function Answer(net: Option<Network>, b: Bindings, msg: DhcpMessage, now: int): Reply
  {
    if net.None? then Echoed(if msg.requested != [] then msg.requested else msg.current)
    else if msg.kind == Discover then
      match Choose(net.value.pool, b, Client(net.value, msg), Requested(msg.requested))
      case Granted(a) => Assigned(FromInt(a))
      case Exhausted => Silent
      case Hangs => NeverReturns
    else
      match Lookup(b, Client(net.value, msg), now)
      case Ok(a) => Assigned(FromInt(a))
      case Err(_) => Silent
  }

  // The answer from the bytes of the message and the bindings. Without a pool every message is echoed. A REQUEST is given
  // its client's address while the lease lasts. A DISCOVER is given its client's address; else the address it asks for, if
  // that is one of the range, other than 0.0.0.0, and free; else the least free one; and silence when the range is full.
  lemma AnswerIff(net: Option<Network>, b: Bindings, msg: DhcpMessage, now: int)
    ensures net.None? ==>
              Answer(net, b, msg, now) == Echoed(if msg.requested == [] then msg.current else msg.requested)
    ensures net.Some? ==>
              var client, v, cfg := Client(net.value, msg), To4(msg.requested), net.value.pool;
              if msg.kind != Discover then
                Answer(net, b, msg, now)
                == if client in b && now <= b[client].expires then Assigned(FromInt(b[client].addr)) else Silent
              else if client in b then Answer(net, b, msg, now) == Assigned(FromInt(b[client].addr))
              else if v.Some? && v.value != IPv4(0, 0, 0, 0) && cfg.start <= ToInt(v.value) <= cfg.end
                      && !Taken(b, ToInt(v.value)) then
                Answer(net, b, msg, now) == Assigned(v.value)
              else
                && (forall a: uint32 | IsLeastFree(cfg, b, a) :: Answer(net, b, msg, now) == Assigned(FromInt(a)))
                && (RangeFull(cfg, b) && cfg.end < MAX ==> Answer(net, b, msg, now) == Silent)
  {
    hide Choose, Requested, Client, ToInt, FromInt, IsLeastFree, RangeFull, Taken;
    if net.Some? {
      AnswerToRequest(net.value.pool, b, Client(net.value, msg), msg.requested);
      if To4(msg.requested).Some? {
        FromToInt(To4(msg.requested).value);
      }
    }
  }

  // A handler that never comes to the pool step stays silent.
  ghost function ReplyAt(net: Option<Network>, at: (Shared, Handler), now: int): Reply
  {
    match at.1
    case DhcpAssign(msg, _) => Answer(net, at.0.bindings, msg, now)
    case _ => Silent
  }

  // An address in an answer is one that the client holds once the pool step is over.
  lemma AnsweredIsHeld(net: Option<Network>, sh: Shared, msg: DhcpMessage, node: Record, now: int)
    requires Answer(net, sh.bindings, msg, now).Assigned?
    ensures var b := Then(net, (sh, DhcpAssign(msg, node)), now).0.bindings;
            && Client(net.value, msg) in b
            && ToInt(Answer(net, sh.bindings, msg, now).ip) == b[Client(net.value, msg)].addr
  {
    hide Scan, CanHonour, Client, Requested, Handlers.Assigned, ToInt, FromInt;
    NumbersRoundTrip();
  }

  // A call that does not return has changed nothing, and would not return later either.
  lemma HangingStays(net: Network, sh: Shared, msg: DhcpMessage, now: int, later: int)
    requires Answer(Some(net), sh.bindings, msg, now) == NeverReturns
    ensures msg.kind == Discover && Answer(Some(net), sh.bindings, msg, later) == NeverReturns
    ensures Allocate(net.pool, sh.bindings, Client(net, msg), Requested(msg.requested), now) == sh.bindings
    ensures Allocate(net.pool, sh.bindings, Client(net, msg), Requested(msg.requested), later) == sh.bindings
  {
    hide Choose, Client, Requested, Lookup, FromInt;
  }

  lemma NumbersRoundTrip()
    ensures forall a: uint32 :: ToInt(FromInt(a)) == a
  {
    forall a: uint32
      ensures ToInt(FromInt(a)) == a
    {
      ToFromInt(a);
    }
  }

  // ---- the whole effect of a DHCP message ----

  // A DISCOVER or REQUEST with a hardware address, which has six bytes unless the node is known already.
  predicate IsServed(store: Bucket, msg: DhcpMessage)
  {
    msg.kind != Other && msg.hw != [] && (|msg.hw| == 6 || Hex(msg.hw) in store)
  }

  // The record of the first Save: the node's own, or a blank one.
  function Greeted(store: Bucket, msg: DhcpMessage, now: int): Record
  {
    var k := Hex(msg.hw);
    if k in store then store[k].(updatedAt := now) else Record(k, "", "", "", "", "", Discovered, NEVER, now, now)
  }

  // The record of the second Save: the answered address, and what the pool has of mask, gateway and name servers.
  function Settled(net: Network, node: Record, ip: IPv4, now: int): Record
  {
    node.(ip := Dotted(ip),
          netmask := if net.netmask == [] then node.netmask else MaskText(net.netmask),
          gateway := if net.gateway == None then node.gateway else Dotted(net.gateway.value),
          dns := if net.dns == [] then node.dns else Join(TextsOf(net.dns), ','),
          updatedAt := now)
  }

  function TextsOf(ips: seq<IPv4>): seq<string> { if ips == [] then [] else [Dotted(ips[0])] + TextsOf(ips[1..]) }

  lemma {:induction false} TextsAreDnsTexts(ips: seq<IPv4>)
    ensures TextsOf(ips) == DnsTexts(ips)
  {
    hide Dotted;
    if ips != [] {
      TextsAreDnsTexts(ips[1..]);
    }
  }

  // The bucket after the message, whose two saves fall at t1 and t3 and whose answer falls at t2.
  ghost function AfterDhcp(net: Option<Network>, sh: Shared, msg: DhcpMessage, t1: int, t2: int, t3: int): Bucket
  {
    if !IsServed(sh.store, msg) then sh.store
    else
      var answer, r := Answer(net, sh.bindings, msg, t2), Greeted(sh.store, msg, t1);
      if net.Some? && answer.Assigned? && answer.ip != IPv4(0, 0, 0, 0) then
        sh.store[Hex(msg.hw) := Settled(net.value, r, answer.ip, t3)]
      else sh.store[Hex(msg.hw) := r]
  }

  lemma GreetThen(net: Option<Network>, sh: Shared, msg: DhcpMessage, t0: int, t1: int)
    requires WellFormed(sh.store) && "" !in sh.store
    ensures Then(net, Then(net, (sh, DhcpFind(msg)), t0), t1)
         == if IsServed(sh.store, msg) then
              (sh.(store := sh.store[Hex(msg.hw) := Greeted(sh.store, msg, t1)]),
               DhcpAssign(msg, Greeted(sh.store, msg, t1)))
            else (sh, Done)
  {
    NormalizePrinted(msg.hw);
    NormalizeFixedPoint(Hex(msg.hw));
    assert PrintHardware(msg.hw) == "" <==> msg.hw == [];
    hide NormalizeMAC, PrintHardware, Hex, AssignMove, MqttFindNext, RegisterFindNext, InstallFindNext, InstallMove;
  }

  lemma SettledIsWithNetwork(net: Network, node: Record, a: uint32, now: int)
    ensures Settled(net, node, FromInt(a), now) == WithNetwork(net, node, a).(updatedAt := now)
    ensures FromInt(a) == IPv4(0, 0, 0, 0) <==> a == 0
  {
    hide ToInt, FromInt, Dotted, MaskText, Join, DnsTexts, TextsOf;
    ToFromInt(a);
    ZeroIsUnspecified(FromInt(a));
    TextsAreDnsTexts(net.dns);
  }

  // The second Save, if there is an address to record.
  lemma RecordThen(net: Network, sh: Shared, r: Record, a: uint32, now: int)
    requires NormalizeMAC(r.mac) == r.mac != "" && IsValidStatus(r.status)
    requires r.mac in sh.store && sh.store[r.mac].createdAt == r.createdAt
    ensures Then(Some(net), (sh, Handlers.Assigned(net, r, a)), now)
         == (if FromInt(a) == IPv4(0, 0, 0, 0) then sh
             else sh.(store := sh.store[r.mac := Settled(net, r, FromInt(a), now)]),
             Done)
  {
    SettledIsWithNetwork(net, r, a, now);
    hide Then, ToInt, FromInt, NormalizeMAC, Settled, Dotted, MaskText, Join, DnsTexts;
    if a == 0 {
      DoneStays(Some(net), sh, now);
    } else {
      SaveThen(Some(net), sh, DhcpRecord(a, WithNetwork(net, r, a)), WithNetwork(net, r, a), now);
    }
  }

  // From the pool step on.
  lemma SettleThen(net: Option<Network>, sh: Shared, msg: DhcpMessage, r: Record, t2: int, t3: int)
    requires NormalizeMAC(r.mac) == r.mac != "" && IsValidStatus(r.status)
    requires r.mac in sh.store && sh.store[r.mac].createdAt == r.createdAt
    ensures var answer := Answer(net, sh.bindings, msg, t2);
            var at := Then(net, Then(net, (sh, DhcpAssign(msg, r)), t2), t3);
            && at.0.store == (if net.Some? && answer.Assigned? && answer.ip != IPv4(0, 0, 0, 0) then
                                sh.store[r.mac := Settled(net.value, r, answer.ip, t3)]
                              else sh.store)
            && at.0.bindings == (if net.Some? && msg.kind == Discover then
                                   Allocate(net.value.pool, sh.bindings, Client(net.value, msg),
                                            Requested(msg.requested), t2)
                                 else sh.bindings)
            && if answer == NeverReturns then at.1 == DhcpAssign(msg, r) else at.1 == Done
  {
    hide Then, Choose, Allocate, Lookup, Requested, Client, NormalizeMAC, FromInt, Settled, Handlers.Assigned;
    AssignThen(net, sh, msg, r, t2);
    var sh3 := Then(net, (sh, DhcpAssign(msg, r)), t2).0;
    DoneStays(net, sh3, t3);
    if net.Some? {
      forall a: uint32
        ensures Then(net, (sh3, Handlers.Assigned(net.value, r, a)), t3)
             == (if FromInt(a) == IPv4(0, 0, 0, 0) then sh3
                 else sh3.(store := sh3.store[r.mac := Settled(net.value, r, FromInt(a), t3)]),
                 Done)
      {
        RecordThen(net.value, sh3, r, a, t3);
      }
    }
    if Answer(net, sh.bindings, msg, t2) == NeverReturns {
      HangingStays(net.value, sh, msg, t2, t3);
      AssignThen(net, sh, msg, r, t3);
    }
  }

  // For every message and every state with normalised keys: what the four undisturbed steps leave in the bucket and in the
  // pool, and the reply.
  lemma DhcpEffect(net: Option<Network>, sh: Shared, msg: DhcpMessage, t0: int, t1: int, t2: int, t3: int)
    requires WellFormed(sh.store) && "" !in sh.store
    ensures var at := Then(net, Then(net, (sh, DhcpFind(msg)), t0), t1);
            var last := Then(net, Then(net, at, t2), t3);
            && last.0.store == AfterDhcp(net, sh, msg, t1, t2, t3)
            && last.0.bindings == (if IsServed(sh.store, msg) && net.Some? && msg.kind == Discover then
                                     Allocate(net.value.pool, sh.bindings, Client(net.value, msg),
                                              Requested(msg.requested), t2)
                                   else sh.bindings)
            && ReplyAt(net, at, t2) == if IsServed(sh.store, msg) then Answer(net, sh.bindings, msg, t2) else Silent
  {
    hide Then, Answer, Allocate, Requested, Client, NormalizeMAC, Hex, Settled, Greeted, WellFormed, IsServed;
    GreetThen(net, sh, msg, t0, t1);
    if IsServed(sh.store, msg) {
      var r := Greeted(sh.store, msg, t1);
      GreetedIsGood(sh.store, msg, t1);
      SettleThen(net, sh.(store := sh.store[Hex(msg.hw) := r]), msg, r, t2, t3);
    } else {
      DoneStays(net, sh, t2);
      DoneStays(net, sh, t3);
    }
  }

  lemma GreetedIsGood(store: Bucket, msg: DhcpMessage, now: int)
    requires WellFormed(store) && "" !in store && IsServed(store, msg)
    ensures var r := Greeted(store, msg, now); NormalizeMAC(r.mac) == r.mac == Hex(msg.hw) != "" && IsValidStatus(r.status)
  {
    NormalizeFixedPoint(Hex(msg.hw));
    hide NormalizeMAC;
  }

  lemma DhcpOutcome(net: Option<Network>, sh: Shared, msg: DhcpMessage, t0: int, t1: int, t2: int, t3: int)
    ensures WellFormed(sh.store) && "" !in sh.store ==>
              Then(net, Then(net, Then(net, Then(net, (sh, DhcpFind(msg)), t0), t1), t2), t3).0.store
              == AfterDhcp(net, sh, msg, t1, t2, t3)
  {
    hide *;
    if WellFormed(sh.store) && "" !in sh.store {
      DhcpEffect(net, sh, msg, t0, t1, t2, t3);
    }
  }

  class DHCPServer {
    const repo: BoltNodeRepository
    const ipManager: IPManager?

    constructor (repo: BoltNodeRepository, ipManager: IPManager?)
      ensures this.repo == repo && this.ipManager == ipManager
    {
      this.repo, this.ipManager := repo, ipManager;
    }

    ghost function Net(): Option<Network>
    {
      if ipManager == null then None
      else Some(Network(ipManager.Cfg(), ipManager.netmask, ipManager.gateway, ipManager.dns, ipManager.normalizeMAC))
    }

    ghost function Now(): Shared
      reads repo, ipManager
    {
      Shared(repo.nodes, if ipManager == null then map[] else ipManager.bindings)
    }

    ghost predicate Valid()
      reads ipManager, if ipManager == null then {} else ipManager.Repr
    {
      ipManager != null ==> ipManager.Valid()
    }

    // The address part: AllocateIP for a DISCOVER, GetLease for a REQUEST, an echo without a pool.
    method BuildResponse(msg: DhcpMessage, now: int) returns (reply: Reply)
      requires Valid()
      modifies ipManager, if ipManager == null then {} else ipManager.Repr
      ensures Valid()
      ensures reply == Answer(Net(), old(Now().bindings), msg, now)
      ensures Now().bindings
           == if ipManager != null && msg.kind == Discover then
                Allocate(ipManager.Cfg(), old(Now().bindings), Client(Net().value, msg), Requested(msg.requested), now)
              else old(Now().bindings)
    {
      hide PrintHardware, Choose, Allocate, Requested, Lookup, ToInt, FromInt, To4, IsLeastFree, RangeFull, Taken;
      if ipManager == null {
        return Echoed(if msg.requested != [] then msg.requested else msg.current);
      }
      var mac := PrintHardware(msg.hw);
      var answer;
      if msg.kind == Discover {
        answer := ipManager.AllocateIP(mac, msg.requested, now);
      } else {
        answer := ipManager.GetLease(mac, now);
      }
      match answer {
        case Ok(ip) => reply := Assigned(ip);
        case Err(e) => reply := if e == DoesNotReturn then NeverReturns else Silent;
      }
    }

    // The network fields are copied into the node, each only when the pool has it.
    method RecordNetwork(node: Node, ip: IPv4)
      requires ipManager != null
      modifies node
      ensures node.Value() == WithNetwork(Net().value, old(node.Value()), ToInt(ip))
    {
      FromToInt(ip);
      hide Dotted, MaskText;
      assert AddressText(ToInt(ip)) == Dotted(ip);
      node.ip := Dotted(ip);
      if ipManager.netmask != [] {
        node.netmask := MaskText(ipManager.netmask);
      }
      if ipManager.gateway.Some? {
        node.gateway := Dotted(ipManager.gateway.value);
      }
      if |ipManager.dns| > 0 {
        var dnsStr := DnsList.JoinDNS(ipManager.dns);
        node.dns := dnsStr;
      }
    }

    // The second half of handleStandard: the pool step, then the second Save.
    method AssignAndRecord(msg: DhcpMessage, node: Node, t2: int, t3: int) returns (reply: Reply)
      requires Valid()
      modifies repo, node, ipManager, if ipManager == null then {} else ipManager.Repr
      ensures Valid()
      ensures (Now(), if reply == NeverReturns then DhcpAssign(msg, old(node.Value())) else Done)
           == Then(Net(), Then(Net(), (old(Now()), DhcpAssign(msg, old(node.Value()))), t2), t3)
      ensures reply == Answer(Net(), old(Now().bindings), msg, t2)
    {
      hide Then, Step, PrintHardware, NormalizeMAC, Choose, Allocate, Lookup, Requested;
      hide SaveError, Stamped, Save, WithNetwork;
      hide ToInt, FromInt, IPManager.Valid;
      ghost var net, sh, value := Net(), Now(), node.Value();
      AssignThen(net, sh, msg, value, t2);
      NumbersRoundTrip();
      reply := BuildResponse(msg, t2);
      ghost var sh3 := Now();
      DoneStays(net, sh3, t3);
      if reply == NeverReturns {
        HangingStays(net.value, sh, msg, t2, t3);
        AssignThen(net, sh, msg, value, t3);
      }
      if reply.Assigned? && ToInt(reply.ip) != 0 {
        RecordNetwork(node, reply.ip);
        SaveThen(net, sh3, DhcpRecord(ToInt(reply.ip), node.Value()), node.Value(), t3);
        var again := repo.Save(node, t3);
      }
    }

    // The handler. Run without interruption, with its four accesses to the shared state at times t0 to t3, it does what
    // its four steps do.
    method HandleDHCP(msg: DhcpMessage, t0: int, t1: int, t2: int, t3: int) returns (reply: Reply)
      requires Valid()
      modifies repo, ipManager, if ipManager == null then {} else ipManager.Repr
      ensures Valid()
      ensures var at := Then(Net(), Then(Net(), Then(Net(), Then(Net(), (old(Now()), DhcpFind(msg)), t0), t1), t2), t3);
              at.0 == Now() && if reply == NeverReturns then at.1.DhcpAssign? else at.1 == Done
      ensures reply == ReplyAt(Net(), Then(Net(), Then(Net(), (old(Now()), DhcpFind(msg)), t0), t1), t2)
      ensures old(WellFormed(repo.nodes) && "" !in repo.nodes) ==>
                repo.nodes == AfterDhcp(Net(), old(Now()), msg, t1, t2, t3)
    {
      hide WellFormed, AfterDhcp, Then, Step, PrintHardware, NormalizeMAC, Choose, Allocate, Lookup, Requested;
      hide SaveError, Stamped, Save, WithNetwork;
      hide IPManager.Valid;
      ghost var net, sh := Net(), Now();
      DhcpOutcome(net, sh, msg, t0, t1, t2, t3);
      FindThen(net, sh, msg, t0);
      DoneStays(net, sh, t1);
      DoneStays(net, sh, t2);
      DoneStays(net, sh, t3);
      reply := Silent;
      if msg.kind == Other {
        return;
      }
      var mac := PrintHardware(msg.hw);
      if mac == "" {
        return;
      }
      var normalizedMAC := NormalizeMAC(mac);
      var node := repo.FindByMAC(normalizedMAC);
      if node == null {
        var created := NewNode(normalizedMAC, Discovered, t0);
        if created.None? {
          return;
        }
        node := new Node(created.value);
      }
      DhcpSaveThen(net, sh, msg, node.Value(), t1);
      var error := repo.Save(node, t1);
      DoneStays(net, Now(), t2);
      DoneStays(net, Now(), t3);
      if error.Some? {
        return;
      }
      reply := AssignAndRecord(msg, node, t2, t3);
    }
  }

  // The record that a report is about: its topic is read, its payload parses, its status is one of the three, and the node
  // is known.
  function Heard(store: Bucket, topic: string, payload: Option<StatusMessage>): Option<string>
  {
    var mac := TopicMac(topic);
    if mac.Some? && payload.Some? && IsValidStatus(payload.value.status) && mac.value in store then mac else None
  }

  // A report is heard exactly when its topic is node/<spelling>/status for a spelling of the key of a record.
  lemma HeardIff(store: Bucket, topic: string, payload: Option<StatusMessage>, k: string)
    ensures Heard(store, topic, payload) == Some(k)
       <==> payload.Some? && !payload.value.status.Unknown? && k in store
            && exists spelling :: Spells(topic, spelling, k)
  {
    hide NormalizeMAC, TopicMac, StatusTopic;
    TopicAcceptedIff(topic);
    if TopicMac(topic) == Some(k) {
      var spelling :| '/' !in spelling && topic == StatusTopic(spelling);
      TopicRoundTrip(spelling);
      StatusTopicText(spelling);
      assert Spells(topic, spelling, k);
    }
    if spelling :| Spells(topic, spelling, k) {
      StatusTopicText(spelling);
      TopicRoundTrip(spelling);
    }
  }

  predicate Spells(topic: string, spelling: string, k: string)
  {
    '/' !in spelling && topic == "node/" + spelling + "/status" && NormalizeMAC(spelling) == k
  }

  // The bucket after a report whose check falls at t1 and whose Save falls at t2.
  function AfterReport(store: Bucket, topic: string, payload: Option<StatusMessage>, t1: int, t2: int): Bucket
  {
    match Heard(store, topic, payload)
    case None => store
    case Some(k) =>
      var r, report := store[k], payload.value;
      store[k := r.(lastHeartbeat := t1,
                    updatedAt := t2,
                    ip := if report.ip != "" then report.ip else r.ip,
                    hostname := if report.hostname != "" then report.hostname else r.hostname,
                    status := if CanTransition(r.status, report.status) then report.status else r.status)]
  }

  // What three undisturbed steps of the report handler do to any bucket of normalised keys: nothing but for a report that
  // is heard, and that one they write whether or not its transition is allowed.
  lemma ReportEffect(net: Option<Network>, sh: Shared, topic: string, payload: Option<StatusMessage>, t0: int, t1: int,
                     t2: int)
    requires WellFormed(sh.store) && "" !in sh.store
    ensures var at := Then(net, Then(net, (sh, MqttFind(topic, payload)), t0), t1);
            && Then(net, at, t2) == (sh.(store := AfterReport(sh.store, topic, payload, t1, t2)), Done)
            && Step(net, at.0, at.1, t2).wrote == Heard(sh.store, topic, payload)
  {
    TopicIsNormal(topic);
    hide NormalizeMAC, TopicMac;
  }

  lemma ReportOutcome(sh: Shared, topic: string, payload: Option<StatusMessage>, t0: int, t1: int, t2: int)
    ensures WellFormed(sh.store) && "" !in sh.store ==>
              Then(None, Then(None, Then(None, (sh, MqttFind(topic, payload)), t0), t1), t2).0.store
              == AfterReport(sh.store, topic, payload, t1, t2)
  {
    hide WellFormed, AfterReport, Then, Step, Heard;
    if WellFormed(sh.store) && "" !in sh.store {
      ReportEffect(None, sh, topic, payload, t0, t1, t2);
    }
  }

  // The requirements promise that a report whose transition is rejected leaves the database alone. For a report of a known
  // node that arrives after the node's last update, that holds exactly when the reported status is not one of the three;
  // otherwise the record changes, and keeps its status.
  lemma RejectedReportIsHarmlessIff(store: Bucket, topic: string, report: StatusMessage, t1: int, t2: int)
    requires WellFormed(store)
    requires TopicMac(topic).Some? && TopicMac(topic).value in store
    requires !CanTransition(store[TopicMac(topic).value].status, report.status)
    requires store[TopicMac(topic).value].updatedAt < t2
    ensures var k, after := TopicMac(topic).value, AfterReport(store, topic, Some(report), t1, t2);
            && (after == store <==> !IsValidStatus(report.status))
            && k in after && after[k].status == store[k].status
            && (forall other | other != k :: other in after <==> other in store)
            && (forall other | other != k && other in store :: after[other] == store[other])
  {
    hide TopicMac, NormalizeMAC;
  }

  // The scenario of the requirements: a discovered node reports installed, and its heartbeat is stored.
  lemma RejectedReportIsStored(net: Option<Network>, b: Bindings, mac: string, r: Record, t0: int, t1: int, t2: int)
    requires |mac| == 12 && Canonical(mac) && r.mac == mac && r.status == Discovered && r.createdAt <= r.updatedAt < t2
    ensures var report := StatusMessage(Installed, "", "");
            var start := (Shared(map[mac := r], b), MqttFind(StatusTopic(mac), Some(report)));
            var after := Then(net, Then(net, Then(net, start, t0), t1), t2).0.store;
            after == map[mac := r.(lastHeartbeat := t1, updatedAt := t2)] != map[mac := r]
  {
    var report, store := StatusMessage(Installed, "", ""), map[mac := r];
    NormalizeFixedPoint(mac);
    TopicRoundTrip(mac);
    assert '/' !in mac;
    hide Then, NormalizeMAC, TopicMac, StatusTopic, AfterReport, Canonical;
    ReportEffect(net, Shared(store, b), StatusTopic(mac), Some(report), t0, t1, t2);
    HeartbeatOnly(mac, StatusTopic(mac), r, t1, t2);
  }

  lemma HeartbeatOnly(mac: string, topic: string, r: Record, t1: int, t2: int)
    requires TopicMac(topic) == Some(mac) && r.status == Discovered && r.updatedAt < t2
    ensures AfterReport(map[mac := r], topic, Some(StatusMessage(Installed, "", "")), t1, t2)
         == map[mac := r.(lastHeartbeat := t1, updatedAt := t2)] != map[mac := r]
  {
    hide TopicMac;
    var store := map[mac := r];
    var after := AfterReport(store, topic, Some(StatusMessage(Installed, "", "")), t1, t2);
    assert after[mac] == r.(lastHeartbeat := t1, updatedAt := t2) != store[mac];
    assert after.Keys == {mac};
  }

  // The server's MQTT client. Its pool is not at hand, so the state's bindings are whatever they are.
  class StatusClient {
    const repo: BoltNodeRepository

    constructor (repo: BoltNodeRepository)
      ensures this.repo == repo
    {
      this.repo := repo;
    }

    // The handler, with its accesses to the bucket and the clock at times t0 to t2. payload is None when the JSON text
    // does not parse.
    method OnStatusMessage(topic: string, payload: Option<StatusMessage>, t0: int, t1: int, t2: int, ghost b: Bindings)
      modifies repo
      ensures (Shared(repo.nodes, b), Done)
           == Then(None, Then(None, Then(None, (Shared(old(repo.nodes), b), MqttFind(topic, payload)), t0), t1), t2)
      ensures old(WellFormed(repo.nodes) && "" !in repo.nodes) ==>
                repo.nodes == AfterReport(old(repo.nodes), topic, payload, t1, t2)
    {
      hide WellFormed, AfterReport, Then, Step, NormalizeMAC, TopicMac, SaveError, Stamped, Save;
      ghost var sh := Shared(repo.nodes, b);
      ReportOutcome(sh, topic, payload, t0, t1, t2);
      MqttFindThen(sh, topic, payload, t0);
      DoneStays(None, sh, t1);
      DoneStays(None, sh, t2);
      var mac := TopicMac(topic);
      if mac.None? || payload.None? {
        return;
      }
      var statusMsg := payload.value;
      if !IsValidStatus(statusMsg.status) {
        return;
      }
      var node := repo.FindByMAC(mac.value);
      if node == null {
        return;
      }
      ghost var found := node.Value();
      if !CanTransition(node.status, statusMsg.status) {
        node.lastHeartbeat := t1;
        if statusMsg.ip != "" {
          node.ip := statusMsg.ip;
        }
        if statusMsg.hostname != "" {
          node.hostname := statusMsg.hostname;
        }
      } else {
        node.status := statusMsg.status;
        node.lastHeartbeat := t1;
        if statusMsg.ip != "" {
          node.ip := statusMsg.ip;
        }
        if statusMsg.hostname != "" {
          node.hostname := statusMsg.hostname;
        }
      }
      MqttCheckThen(sh, statusMsg, found, t1);
      SaveThen(None, sh, MqttSave(statusMsg, node.Value()), node.Value(), t2);
      var error := repo.Save(node, t2);
    }
  }

  lemma MqttFindThen(sh: Shared, topic: string, payload: Option<StatusMessage>, now: int)
    ensures Then(None, (sh, MqttFind(topic, payload)), now) == (sh, MqttFindNext(sh.store, topic, payload))
  {
  }

  lemma MqttCheckThen(sh: Shared, report: StatusMessage, node: Record, now: int)
    ensures Then(None, (sh, MqttCheck(report, node)), now) == (sh, MqttSave(report, Reported(report, node, now)))
  {
  }

  class ApiHandler {
    const repo: BoltNodeRepository

    constructor (repo: BoltNodeRepository)
      ensures this.repo == repo
    {
      this.repo := repo;
    }

    // RegisterNode: the find and the Save at times t0 and t1.
    method RegisterNode(mac: string, ip: string, t0: int, t1: int, ghost b: Bindings)
      modifies repo
      ensures (Shared(repo.nodes, b), Done)
           == Then(None, Then(None, (Shared(old(repo.nodes), b), RegisterFind(mac, ip)), t0), t1)
      ensures repo.nodes == AfterRegister(old(repo.nodes), mac, ip, t1)
    {
      RegisterEffect(None, Shared(repo.nodes, b), mac, ip, t0, t1);
      hide AfterRegister, Then, Step, NormalizeMAC, SaveError, Stamped, Save;
      ghost var sh := Shared(repo.nodes, b);
      RegisterFindThen(sh, mac, ip, t0);
      DoneStays(None, sh, t1);
      if !IsValidMAC(mac) {
        return;
      }
      var normalizedMAC := NormalizeMAC(mac);
      var existing := repo.FindByMAC(normalizedMAC);
      if existing != null {
        return;
      }
      var created := NewNode(normalizedMAC, Discovered, t0);
      if created.None? {
        return;
      }
      var node := new Node(created.value);
      if ip != "" {
        node.ip := ip;
      }
      SaveThen(None, sh, RegisterSave(node.Value()), node.Value(), t1);
      var error := repo.Save(node, t1);
    }

    // UpdateNode with the install action: the find and the UpdateStatus at times t0 and t1.
    method Install(mac: string, t0: int, t1: int, ghost b: Bindings)
      modifies repo
      ensures (Shared(repo.nodes, b), Done)
           == Then(None, Then(None, (Shared(old(repo.nodes), b), InstallFind(mac)), t0), t1)
      ensures repo.nodes == AfterInstall(old(repo.nodes), mac, t1)
    {
      InstallEffect(None, Shared(repo.nodes, b), mac, t0, t1);
      hide AfterInstall, Then, Step, NormalizeMAC, Store.UpdateStatus;
      ghost var sh := Shared(repo.nodes, b);
      InstallThen(sh, mac, t0, t1);
      DoneStays(None, sh, t1);
      var node := repo.FindByMAC(mac);
      if node == null {
        return;
      }
      if node.status != Discovered {
        return;
      }
      var error := repo.UpdateStatus(mac, Installing, t1);
    }
  }

  // A registration, for every state and every spelling: a valid spelling without a record gets a blank record with the
  // given address under its key; anything else changes nothing.
  function AfterRegister(store: Bucket, mac: string, ip: string, now: int): Bucket
  {
    var k := NormalizeMAC(mac);
    if |k| == 12 && k !in store then store[k := Record(k, ip, "", "", "", "", Discovered, NEVER, now, now)] else store
  }

  lemma RegisterEffect(net: Option<Network>, sh: Shared, mac: string, ip: string, t0: int, t1: int)
    ensures Then(net, Then(net, (sh, RegisterFind(mac, ip)), t0), t1)
         == (sh.(store := AfterRegister(sh.store, mac, ip, t1)), Done)
  {
    NormalizeIdempotent(mac);
    hide NormalizeMAC;
  }

  // An install request, for every state and every spelling: a known node that is discovered becomes installing; anything
  // else changes nothing.
  function AfterInstall(store: Bucket, mac: string, now: int): Bucket
  {
    var k := NormalizeMAC(mac);
    if k in store && store[k].status == Discovered then store[k := store[k].(status := Installing, updatedAt := now)]
    else store
  }

  lemma InstallEffect(net: Option<Network>, sh: Shared, mac: string, t0: int, t1: int)
    ensures Then(net, Then(net, (sh, InstallFind(mac)), t0), t1) == (sh.(store := AfterInstall(sh.store, mac, t1)), Done)
  {
    hide NormalizeMAC;
  }

  lemma RegisterFindThen(sh: Shared, mac: string, ip: string, now: int)
    ensures Then(None, (sh, RegisterFind(mac, ip)), now) == (sh, RegisterFindNext(sh.store, mac, ip, now))
  {
  }

  lemma InstallThen(sh: Shared, mac: string, t0: int, t1: int)
    ensures Then(None, (sh, InstallFind(mac)), t0) == (sh, InstallFindNext(sh.store, mac))
    ensures Then(None, (sh, InstallApply(mac)), t1)
         == (match Store.UpdateStatus(sh.store, mac, Installing, t1)
             case Ok(store) => sh.(store := store)
             case Err(_) => sh,
             Done)
  {
  }
}
