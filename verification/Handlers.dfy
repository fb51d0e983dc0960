/**
 The message handlers as programs of atomic steps over one shared state.

 A handler's variant is its program counter, its fields are its local variables. A step is one database transaction or
 one locked pool operation together with the local computation that follows it; whatever other handlers do, they do
 between two steps.
 */
module Handlers {
  import opened Results
  import opened Text
  import opened Mac
  import opened Ipv4
  import opened Pool
  import opened Nodes
  import opened Store

  datatype MessageType = Discover | Request | Other

  // The parts of a DHCP message that the handler reads; an absent request is the empty slice.
  datatype DhcpMessage = DhcpMessage(kind: MessageType, hw: seq<byte>, requested: NetIP, current: NetIP)

  datatype StatusMessage = StatusMessage(status: Status, ip: string, hostname: string)

  // What the DHCP server hands to its clients, and the pool's own normalizeMAC.
  datatype Network = Network(
    pool: Config, netmask: seq<byte>, gateway: Option<IPv4>, dns: seq<IPv4>, normalizeMAC: string -> string)

  datatype Shared = Shared(store: Bucket, bindings: Bindings)

  datatype Handler =
    | DhcpFind(msg: DhcpMessage)
    | DhcpSave(msg: DhcpMessage, node: Record)
    | DhcpAssign(msg: DhcpMessage, node: Record)
    | DhcpRecord(addr: uint32, node: Record)
    | MqttFind(topic: string, payload: Option<StatusMessage>)
    | MqttCheck(report: StatusMessage, node: Record)
    | MqttSave(report: StatusMessage, node: Record)
    | RegisterFind(mac: string, ip: string)
    | RegisterSave(node: Record)
    | InstallFind(mac: string)
    | InstallApply(mac: string)
    | Done

  predicate IsEntry(h: Handler) { h.DhcpFind? || h.MqttFind? || h.RegisterFind? || h.InstallFind? }

  // The state after a step, the handler's next step, and the key of the record written, if one was.
  datatype Move = Move(shared: Shared, next: Handler, wrote: Option<string>)

  function Stay(sh: Shared, next: Handler): Move { Move(sh, next, None) }

  // One Save transaction; next says how the handler goes on with the stamped node.
  function SaveMove(sh: Shared, node: Record, now: int, next: Handler): Move
  {
    if SaveError(node).Some? then Stay(sh, Done)
    else Move(sh.(store := Save(sh.store, node, now)), next, Some(NormalizeMAC(node.mac)))
  }

  function DnsTexts(dns: seq<IPv4>): (texts: seq<string>)
    ensures |texts| == |dns| && forall i | 0 <= i < |dns| :: texts[i] == Dotted(dns[i])
  {
    seq(|dns|, i requires 0 <= i < |dns| => Dotted(dns[i]))
  }

  // The network fields that the DHCP handler copies into the node it will save.
  function WithNetwork(net: Network, node: Record, a: uint32): Record
  {
    node.(ip := AddressText(a),
          netmask := if net.netmask != [] then MaskText(net.netmask) else node.netmask,
          gateway := if net.gateway.Some? then Dotted(net.gateway.value) else node.gateway,
          dns := if net.dns != [] then Join(DnsTexts(net.dns), ',') else node.dns)
  }

  // After an address is assigned: an unspecified one is not recorded.
  function Assigned(net: Network, node: Record, a: uint32): Handler
  {
    if a == 0 then Done else DhcpRecord(a, WithNetwork(net, node, a))
  }

  function Client(net: Network, msg: DhcpMessage): string { net.normalizeMAC(PrintHardware(msg.hw)) }

  ghost function AssignMove(net: Network, sh: Shared, msg: DhcpMessage, node: Record, now: int): Move
  {
    if msg.kind == Discover then
      match Choose(net.pool, sh.bindings, Client(net, msg), Requested(msg.requested))
      case Granted(a) =>
        Stay(sh.(bindings := Allocate(net.pool, sh.bindings, Client(net, msg), Requested(msg.requested), now)),
             Assigned(net, node, a))
      case Exhausted => Stay(sh, Done)
      case Hangs => Stay(sh, DhcpAssign(msg, node))
    else
      match Lookup(sh.bindings, Client(net, msg), now)
      case Ok(a) => Stay(sh, Assigned(net, node, a))
      case Err(_) => Stay(sh, Done)
  }

  function DhcpFindNext(store: Bucket, msg: DhcpMessage, now: int): Handler
  {
    var mac := PrintHardware(msg.hw);
    if msg.kind == Other || mac == "" then Done
    else
      match Find(store, NormalizeMAC(mac))
      case Some(node) => DhcpSave(msg, node)
      case None =>
        match NewNode(NormalizeMAC(mac), Discovered, now)
        case Some(node) => DhcpSave(msg, node)
        case None => Done
  }

  function MqttFindNext(store: Bucket, topic: string, payload: Option<StatusMessage>): Handler
  {
    var mac := TopicMac(topic);
    if mac.None? || payload.None? || !IsValidStatus(payload.value.status) then Done
    else
      match Find(store, mac.value)
      case Some(node) => MqttCheck(payload.value, node)
      case None => Done
  }

  // Both outcomes of the transition check refresh heartbeat, address and host name; only a passing check moves the
  // status.
  function Reported(report: StatusMessage, node: Record, now: int): Record
  {
    node.(lastHeartbeat := now,
          ip := if report.ip != "" then report.ip else node.ip,
          hostname := if report.hostname != "" then report.hostname else node.hostname,
          status := if CanTransition(node.status, report.status) then report.status else node.status)
  }

  function RegisterFindNext(store: Bucket, mac: string, ip: string, now: int): Handler
  {
    if !IsValidMAC(mac) || Find(store, NormalizeMAC(mac)).Some? then Done
    else
      match NewNode(NormalizeMAC(mac), Discovered, now)
      case Some(node) => RegisterSave(node.(ip := ip))
      case None => Done
  }

  function InstallFindNext(store: Bucket, mac: string): Handler
  {
    match Find(store, mac)
    case Some(node) => if node.status == Discovered then InstallApply(mac) else Done
    case None => Done
  }

  function InstallMove(sh: Shared, mac: string, now: int): Move
  {
    match UpdateStatus(sh.store, mac, Installing, now)
    case Ok(store) => Move(sh.(store := store), Done, Some(NormalizeMAC(mac)))
    case Err(_) => Stay(sh, Done)
  }

  ghost function Step(net: Option<Network>, sh: Shared, h: Handler, now: int): Move
  {
    match h
    case DhcpFind(msg) => Stay(sh, DhcpFindNext(sh.store, msg, now))
    case DhcpSave(msg, node) => SaveMove(sh, node, now, DhcpAssign(msg, Stamped(sh.store, node, now)))
    case DhcpAssign(msg, node) => if net.Some? then AssignMove(net.value, sh, msg, node, now) else Stay(sh, Done)
    case DhcpRecord(_, node) => SaveMove(sh, node, now, Done)
    case MqttFind(topic, payload) => Stay(sh, MqttFindNext(sh.store, topic, payload))
    case MqttCheck(report, node) => Stay(sh, MqttSave(report, Reported(report, node, now)))
    case MqttSave(_, node) => SaveMove(sh, node, now, Done)
    case RegisterFind(mac, ip) => Stay(sh, RegisterFindNext(sh.store, mac, ip, now))
    case RegisterSave(node) => SaveMove(sh, node, now, Done)
    case InstallFind(mac) => Stay(sh, InstallFindNext(sh.store, mac))
    case InstallApply(mac) => InstallMove(sh, mac, now)
    case Done => Stay(sh, Done)
  }
}
