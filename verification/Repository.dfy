/** The repository as an object: nodes that callers change in place, and a bucket changed one transaction at a time. */
module Repositories {
  import opened Results
  import opened Mac
  import opened Nodes
  import opened Store

  // A node in memory. The repository stores and returns copies; a caller's node is never shared with the bucket.
  class Node {
    var mac: string
    var ip: string
    var netmask: string
    var gateway: string
    var dns: string
    var hostname: string
    var status: Status
    var lastHeartbeat: int
    var createdAt: int
    var updatedAt: int

    function Value(): Record
      reads this
    {
      Record(mac, ip, netmask, gateway, dns, hostname, status, lastHeartbeat, createdAt, updatedAt)
    }

    constructor (r: Record)
      ensures Value() == r
    {
      mac, ip, netmask, gateway, dns, hostname := r.mac, r.ip, r.netmask, r.gateway, r.dns, r.hostname;
      status, lastHeartbeat, createdAt, updatedAt := r.status, r.lastHeartbeat, r.createdAt, r.updatedAt;
    }
  }

  class BoltNodeRepository {
    var nodes: Bucket

    constructor ()
      ensures nodes == map[]
    {
      nodes := map[];
    }

    // The caller's node is stamped even when the bucket then refuses an empty key.
    method Save(node: Node, now: int) returns (error: Option<RepoError>)
      modifies this, node
      ensures error == SaveError(old(node.Value()))
      ensures nodes == Store.Save(old(nodes), old(node.Value()), now)
      ensures node.Value()
           == if error == Some(NotValid) then old(node.Value()) else Stamped(old(nodes), old(node.Value()), now)
    {
      if node.mac == "" || !IsValidStatus(node.status) {
        return Some(NotValid);
      }
      var key := NormalizeMAC(node.mac);
      if key in nodes {
        node.createdAt := nodes[key].createdAt;
      } else {
        node.createdAt := now;
      }
      node.updatedAt := now;
      node.mac := key;
      if key == "" {
        return Some(KeyRequired);
      }
      nodes := nodes[key := node.Value()];
      error := None;
    }

    method FindByMAC(mac: string) returns (node: Node?)
      ensures node == null <==> Find(nodes, mac).None?
      ensures node != null ==> fresh(node) && Find(nodes, mac) == Some(node.Value())
    {
      var key := NormalizeMAC(mac);
      if key !in nodes {
        return null;
      }
      node := new Node(nodes[key]);
    }

    method UpdateStatus(mac: string, status: Status, now: int) returns (error: Option<RepoError>)
      modifies this
      ensures match Store.UpdateStatus(old(nodes), mac, status, now)
              case Ok(store) => error == None && nodes == store
              case Err(e) => error == Some(e) && nodes == old(nodes)
    {
      var key := NormalizeMAC(mac);
      if key !in nodes {
        return Some(NodeNotFound);
      }
      var node := new Node(nodes[key]);
      if !CanTransition(node.status, status) {
        return Some(InvalidTransition);
      }
      node.status := status;
      node.updatedAt := now;
      nodes := nodes[key := node.Value()];
      error := None;
    }

    method Delete(mac: string) returns (error: Option<RepoError>)
      modifies this
      ensures match Store.Delete(old(nodes), mac)
              case Ok(store) => error == None && nodes == store
              case Err(e) => error == Some(e) && nodes == old(nodes)
    {
      var key := NormalizeMAC(mac);
      if key !in nodes {
        return Some(NodeNotFound);
      }
      nodes := nodes - {key};
      error := None;
    }
  }
}
