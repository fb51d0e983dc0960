/** The node bucket: each database transaction as one atomic function on a map from key to record. */
module Store {
  import opened Results
  import opened Mac
  import opened Nodes

  type Bucket = map<string, Record>

  datatype RepoError = NotValid | KeyRequired | NodeNotFound | InvalidTransition

  // Save accepts a valid node; the bucket itself refuses an empty key, that of a MAC without hexadecimal digits.
  function SaveError(node: Record): Option<RepoError>
  {
    if !Validates(node) then Some(NotValid)
    else if NormalizeMAC(node.mac) == "" then Some(KeyRequired)
    else None
  }

  // What Save writes: the caller's fields under the normalised key, the first creation time and a fresh update time.
  function Stamped(store: Bucket, node: Record, now: int): Record
  {
    var key := NormalizeMAC(node.mac);
    node.(mac := key, createdAt := if key in store then store[key].createdAt else now, updatedAt := now)
  }

  function Save(store: Bucket, node: Record, now: int): Bucket
  {
    if SaveError(node).Some? then store
    else store[NormalizeMAC(node.mac) := Stamped(store, node, now)]
  }

  function Find(store: Bucket, mac: string): Option<Record>
  {
    var key := NormalizeMAC(mac);
    if key in store then Some(store[key]) else None
  }

  function UpdateStatus(store: Bucket, mac: string, status: Status, now: int): Result<Bucket, RepoError>
  {
    var key := NormalizeMAC(mac);
    if key !in store then Err(NodeNotFound)
    else if !CanTransition(store[key].status, status) then Err(InvalidTransition)
    else Ok(store[key := store[key].(status := status, updatedAt := now)])
  }

  function Delete(store: Bucket, mac: string): Result<Bucket, RepoError>
  {
    if NormalizeMAC(mac) !in store then Err(NodeNotFound) else Ok(store - {NormalizeMAC(mac)})
  }

  // Every record is filed under its own normalised address, has a valid status, and was not updated before its creation.
  ghost predicate WellFormed(store: Bucket)
  {
    forall k | k in store ::
      && k == NormalizeMAC(store[k].mac) == store[k].mac
      && IsValidStatus(store[k].status)
      && store[k].createdAt <= store[k].updatedAt
  }

  lemma TransactionsKeepWellFormed(store: Bucket, node: Record, mac: string, status: Status, now: int)
    requires WellFormed(store)
    requires forall k | k in store :: store[k].updatedAt <= now
    ensures WellFormed(Save(store, node, now))
    ensures UpdateStatus(store, mac, status, now).Ok? ==> WellFormed(UpdateStatus(store, mac, status, now).value)
    ensures Delete(store, mac).Ok? ==> WellFormed(Delete(store, mac).value)
  {
    NormalizeIdempotent(node.mac);
  }

  // A saved node is found by every spelling of its address, and saving it disturbs no other spelling's record; its
  // creation time is that of the record it replaces.
  lemma SaveThenFind(store: Bucket, node: Record, now: int, spelling: string)
    requires SaveError(node).None?
    ensures Find(Save(store, node, now), spelling)
         == if NormalizeMAC(spelling) == NormalizeMAC(node.mac) then Some(Stamped(store, node, now)) else Find(store, spelling)
    ensures Find(store, node.mac).Some? ==>
              Find(Save(store, node, now), node.mac).value.createdAt == Find(store, node.mac).value.createdAt
  {
  }

  // A Save is refused only for a node without an address, without a digit in it, or without one of the three statuses.
  lemma SaveErrorIff(node: Record)
    ensures SaveError(node) == Some(NotValid) <==> node.mac == "" || node.status.Unknown?
    ensures SaveError(node).None? <==> NormalizeMAC(node.mac) != "" && !node.status.Unknown?
  {
  }

  // A status update changes the status and the update time of one record, found by every spelling, and no other record.
  lemma UpdateStatusThenFind(store: Bucket, mac: string, status: Status, now: int, spelling: string)
    ensures var after := UpdateStatus(store, mac, status, now);
            if after.Err? then after.error == if Find(store, mac).None? then NodeNotFound else InvalidTransition
            else
              Find(store, mac).Some?
              && Find(after.value, spelling)
                 == if NormalizeMAC(spelling) != NormalizeMAC(mac) then Find(store, spelling)
                    else Some(Find(store, mac).value.(status := status, updatedAt := now))
  {
  }

  // A deleted node is found by no spelling, and every other node is found as before; only an unknown node is an error.
  lemma DeleteThenFind(store: Bucket, mac: string, spelling: string)
    ensures var after := Delete(store, mac);
            if after.Err? then after.error == NodeNotFound && Find(store, mac).None?
            else
              Find(store, mac).Some?
              && Find(after.value, spelling)
                 == if NormalizeMAC(spelling) == NormalizeMAC(mac) then None else Find(store, spelling)
  {
  }

  // Save makes no transition check. It keeps the life cycle of an existing record exactly when that check would pass.
  lemma SaveKeepsLifeCycleIff(store: Bucket, node: Record, now: int)
    requires WellFormed(store) && SaveError(node).None? && Find(store, node.mac).Some?
    ensures 0 <= Rank(Find(Save(store, node, now), node.mac).value.status) - Rank(Find(store, node.mac).value.status) <= 1
       <==> CanTransition(Find(store, node.mac).value.status, node.status)
  {
  }

  // UpdateStatus moves an existing record by at most one stage forward, or fails.
  lemma UpdateStatusIff(store: Bucket, mac: string, status: Status, now: int)
    requires WellFormed(store)
    ensures UpdateStatus(store, mac, status, now).Ok?
       <==> Find(store, mac).Some? && IsValidStatus(status) && 0 <= Rank(status) - Rank(Find(store, mac).value.status) <= 1
  {
  }
}
