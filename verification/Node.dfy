/** Node records and the one-way life cycle discovered, installing, installed. */
module Nodes {
  import opened Results
  import opened Mac

  // A status is one of three strings; any other text is Unknown.
  datatype Status = Discovered | Installing | Installed | Unknown(text: string)

  predicate IsValidStatus(s: Status) { !s.Unknown? }

  // How far along the life cycle a status is.
  function Rank(s: Status): int
  {
    match s
    case Unknown(_) => -1
    case Discovered => 1
    case Installing => 2
    case Installed => 3
  }

  // The transition check: a valid new status that is the current one or an allowed successor of it.
  predicate CanTransition(from: Status, to: Status)
  {
    && IsValidStatus(to)
    && (from == to || (from == Discovered && to == Installing) || (from == Installing && to == Installed))
  }

  lemma CanTransitionIffNextStage(from: Status, to: Status)
    requires IsValidStatus(from)
    ensures CanTransition(from, to) <==> IsValidStatus(to) && 0 <= Rank(to) - Rank(from) <= 1
  {
  }

  const NEVER: int := 0

  // A node as the database holds it.
  datatype Record = Record(
    mac: string, ip: string, netmask: string, gateway: string, dns: string, hostname: string, status: Status,
    lastHeartbeat: int, createdAt: int, updatedAt: int)

  function NewNode(mac: string, status: Status, now: int): Option<Record>
  {
    if IsValidMAC(mac) && IsValidStatus(status) then
      Some(Record(NormalizeMAC(mac), "", "", "", "", "", status, NEVER, now, now))
    else None
  }

  predicate Validates(node: Record) { node.mac != "" && IsValidStatus(node.status) }
}
