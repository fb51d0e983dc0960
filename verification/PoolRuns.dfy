/** Runs of the address pool: any sequence of its operations, in any order and at any times, from an empty pool. */
module PoolRuns {
  import opened Results
  import opened Ipv4
  import opened Pool

  datatype Op =
    | Allocating(mac: string, req: Option<uint32>, now: int)
    | Releasing(addr: uint32)
    | Renewing(mac: string, now: int)
    | LookingUp(mac: string, now: int)

  ghost function Apply(cfg: Config, b: Bindings, op: Op): Bindings
  {
    match op
    case Allocating(mac, req, now) => Allocate(cfg, b, mac, req, now)
    case Releasing(addr) => Release(b, addr)
    case Renewing(mac, now) => Renew(cfg, b, mac, now)
    case LookingUp(_, _) => b
  }

  ghost function After(cfg: Config, ops: seq<Op>): Bindings
  {
    if ops == [] then map[] else Apply(cfg, After(cfg, ops[..|ops| - 1]), ops[|ops| - 1])
  }

  // The operation answers client mac with address a.
  ghost predicate HandsOut(cfg: Config, b: Bindings, op: Op, mac: string, a: uint32)
  {
    match op
    case Allocating(m, req, _) => m == mac && Choose(cfg, b, m, req) == Granted(a)
    case LookingUp(m, now) => m == mac && Lookup(b, m, now) == Ok(a)
    case _ => false
  }

  lemma AfterStep(cfg: Config, ops: seq<Op>, i: nat)
    requires i < |ops|
    ensures After(cfg, ops[..i + 1]) == Apply(cfg, After(cfg, ops[..i]), ops[i])
  {
    assert ops[..i + 1][..i] == ops[..i];
  }

  lemma {:induction false} ReachableInv(cfg: Config, ops: seq<Op>)
    ensures Inv(cfg, After(cfg, ops))
  {
    if ops != [] {
      var n := |ops| - 1;
      ReachableInv(cfg, ops[..n]);
      var b := After(cfg, ops[..n]);
      match ops[n]
      case Allocating(mac, req, now) => OperationsKeepInv(cfg, b, mac, req, 0, now);
      case Releasing(addr) => OperationsKeepInv(cfg, b, "", None, addr, 0);
      case Renewing(mac, now) => OperationsKeepInv(cfg, b, mac, None, 0, now);
      case LookingUp(_, _) =>
    }
  }

  // Until its address is released a client keeps it, expired or not.
  lemma {:induction false} KeepsAddress(cfg: Config, ops: seq<Op>, i: nat, j: nat, mac: string)
    requires i <= j <= |ops|
    requires mac in After(cfg, ops[..i])
    requires forall k | i <= k < j :: ops[k] != Releasing(After(cfg, ops[..i])[mac].addr)
    ensures mac in After(cfg, ops[..j]) && After(cfg, ops[..j])[mac].addr == After(cfg, ops[..i])[mac].addr
    decreases j
  {
    if i < j {
      KeepsAddress(cfg, ops, i, j - 1, mac);
      AfterStep(cfg, ops, j - 1);
    }
  }

  // What is handed out is bound to that client when the operation is over.
  lemma HandedOutIsBound(cfg: Config, ops: seq<Op>, i: nat, mac: string, a: uint32)
    requires i < |ops| && HandsOut(cfg, After(cfg, ops[..i]), ops[i], mac, a)
    ensures mac in After(cfg, ops[..i + 1]) && After(cfg, ops[..i + 1])[mac].addr == a
  {
    AfterStep(cfg, ops, i);
  }

  // No address is handed to two clients unless it was released in between.
  lemma NoDoubleAssignment(cfg: Config, ops: seq<Op>, i: nat, j: nat, first: string, second: string, a: uint32)
    requires i < j < |ops| && first != second
    requires HandsOut(cfg, After(cfg, ops[..i]), ops[i], first, a)
    requires HandsOut(cfg, After(cfg, ops[..j]), ops[j], second, a)
    ensures exists k :: i < k < j && ops[k] == Releasing(a)
  {
    HandedOutIsBound(cfg, ops, i, first, a);
    HandedOutIsBound(cfg, ops, j, second, a);
    if forall k | i < k < j :: ops[k] != Releasing(a) {
      assert ops[j] != Releasing(a);
      KeepsAddress(cfg, ops, i + 1, j + 1, first);
      ReachableInv(cfg, ops[..j + 1]);
    }
  }

  // ---- expiry ----

  // The time of the client's last AllocateIP or RenewLease call.
  function LastTouch(ops: seq<Op>, mac: string): Option<int>
  {
    if ops == [] then None
    else
      match ops[|ops| - 1]
      case Allocating(m, _, now) => if m == mac then Some(now) else LastTouch(ops[..|ops| - 1], mac)
      case Renewing(m, now) => if m == mac then Some(now) else LastTouch(ops[..|ops| - 1], mac)
      case _ => LastTouch(ops[..|ops| - 1], mac)
  }

  lemma {:induction false} ExpiryIsLastTouch(cfg: Config, ops: seq<Op>, mac: string)
    requires mac in After(cfg, ops)
    ensures LastTouch(ops, mac).Some?
    ensures After(cfg, ops)[mac].expires == LastTouch(ops, mac).value + cfg.leaseTime
  {
    var n := |ops| - 1;
    if mac in After(cfg, ops[..n]) {
      ExpiryIsLastTouch(cfg, ops[..n], mac);
    }
  }

  // GetLease answers exactly while the lease time since the client's last AllocateIP or RenewLease has not passed.
  lemma {:induction false} LookupWhileFresh(cfg: Config, ops: seq<Op>, mac: string, now: int)
    ensures mac !in After(cfg, ops) ==> Lookup(After(cfg, ops), mac, now) == Err(LeaseNotFound)
    ensures mac in After(cfg, ops) ==>
              && LastTouch(ops, mac).Some?
              && Lookup(After(cfg, ops), mac, now) ==
                 if now - LastTouch(ops, mac).value <= cfg.leaseTime then Ok(After(cfg, ops)[mac].addr)
                 else Err(LeaseExpired)
  {
    if mac in After(cfg, ops) {
      ExpiryIsLastTouch(cfg, ops, mac);
    }
  }

  // At every point of every run of a range below 255.255.255.255, a client is refused exactly when it has no address
  // and the addresses bound so far are as many as the pool holds.
  lemma RefusalInRuns(cfg: Config, ops: seq<Op>, mac: string, req: Option<uint32>)
    requires cfg.end < MAX
    ensures Choose(cfg, After(cfg, ops), mac, req) == Exhausted
       <==> mac !in After(cfg, ops) && |After(cfg, ops)| == PoolSize(cfg)
    ensures |After(cfg, ops)| <= PoolSize(cfg) && !Choose(cfg, After(cfg, ops), mac, req).Hangs?
  {
    ReachableInv(cfg, ops);
    RefusesExactlyWhenFull(cfg, After(cfg, ops), mac, req);
  }

  function Time(op: Op): Option<int>
  {
    match op
    case Releasing(_) => None
    case _ => Some(op.now)
  }

  ghost predicate ClockNeverGoesBack(ops: seq<Op>)
  {
    forall p, q | 0 <= p < q < |ops| && Time(ops[p]).Some? && Time(ops[q]).Some? ::
      Time(ops[p]).value <= Time(ops[q]).value
  }

  lemma {:induction false} LastTouchNotBefore(ops: seq<Op>, i: nat, j: nat)
    requires i < j <= |ops| && ops[i].Allocating? && ClockNeverGoesBack(ops)
    ensures LastTouch(ops[..j], ops[i].mac).Some? && LastTouch(ops[..j], ops[i].mac).value >= ops[i].now
    decreases j
  {
    assert ops[..j][..j - 1] == ops[..j - 1];
    if i < j - 1 {
      LastTouchNotBefore(ops, i, j - 1);
      assert Time(ops[i]).value == ops[i].now;
      assert !ops[j - 1].Releasing? ==> Time(ops[j - 1]).value == ops[j - 1].now;
    }
  }

  // A DISCOVER offers an address. Unless that address is released, a REQUEST made within the lease time is given the
  // same address, and a later DISCOVER is given it at any time.
  lemma OfferIsHonoured(cfg: Config, ops: seq<Op>, i: nat, j: nat, a: uint32)
    requires ClockNeverGoesBack(ops)
    requires i < j < |ops| && ops[i].Allocating?
    requires HandsOut(cfg, After(cfg, ops[..i]), ops[i], ops[i].mac, a)
    requires forall k | i < k < j :: ops[k] != Releasing(a)
    ensures ops[j].LookingUp? && ops[j].mac == ops[i].mac && ops[j].now <= ops[i].now + cfg.leaseTime
        ==> HandsOut(cfg, After(cfg, ops[..j]), ops[j], ops[i].mac, a)
    ensures ops[j].Allocating? && ops[j].mac == ops[i].mac
        ==> HandsOut(cfg, After(cfg, ops[..j]), ops[j], ops[i].mac, a)
  {
    var mac := ops[i].mac;
    HandedOutIsBound(cfg, ops, i, mac, a);
    KeepsAddress(cfg, ops, i + 1, j, mac);
    LastTouchNotBefore(ops, i, j);
    ExpiryIsLastTouch(cfg, ops[..j], mac);
  }
}
