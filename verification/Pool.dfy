/**
 The DHCP address pool as its callers see it: a finite map from client to bound address and expiry.

 The pool's lock makes every operation one atomic step, so each is a function of the bindings. The scan for a free
 address is described by the addresses a wrapping 32-bit counter visits, so that a range ending at 255.255.255.255,
 which the loop guard can never leave, is described as well.
 */
module Pool {
  import opened Results
  import opened Ipv4

  datatype Config = Config(start: uint32, end: uint32, leaseTime: int)

  datatype Binding = Binding(addr: uint32, expires: int)

  type Bindings = map<string, Binding>

  // What a request for an address comes to. Hangs is a scan that never ends, so a call that never returns.
  datatype Outcome = Granted(addr: uint32) | Exhausted | Hangs

  predicate InRange(cfg: Config, a: uint32) { cfg.start <= a <= cfg.end }

  ghost predicate Taken(b: Bindings, a: uint32) { exists m :: m in b && b[m].addr == a }

  ghost predicate Injective(b: Bindings)
  {
    forall m, m' :: m in b && m' in b && b[m].addr == b[m'].addr ==> m == m'
  }

  ghost predicate AllInRange(cfg: Config, b: Bindings)
  {
    forall m :: m in b ==> InRange(cfg, b[m].addr)
  }

  // ---- the scan ----

  // ip++ on a uint32.
  function Next(ip: uint32): uint32 { if ip == MAX then 0 else ip + 1 }

  // The counter's value at the n-th test of the loop guard.
  function Visited(cfg: Config, n: nat): uint32
  {
    if n == 0 then cfg.start else Next(Visited(cfg, n - 1))
  }

  lemma {:induction false} VisitedModulo(cfg: Config, n: nat)
    ensures Visited(cfg, n) == (cfg.start + n) % 0x1_0000_0000
  {
    if n > 0 {
      VisitedModulo(cfg, n - 1);
    }
  }

  // The n-th round finds its address taken and moves on.
  ghost predicate Passes(cfg: Config, b: Bindings, n: nat)
  {
    Visited(cfg, n) <= cfg.end && Taken(b, Visited(cfg, n))
  }

  ghost predicate StopsAt(cfg: Config, b: Bindings, n: nat)
  {
    !Passes(cfg, b, n) && forall k: nat | k < n :: Passes(cfg, b, k)
  }

  ghost predicate Halts(cfg: Config, b: Bindings) { exists n: nat :: StopsAt(cfg, b, n) }

  ghost function LastRound(cfg: Config, b: Bindings): (n: nat)
    requires Halts(cfg, b)
    ensures StopsAt(cfg, b, n)
  {
    var n: nat :| StopsAt(cfg, b, n);
    n
  }

  ghost function Scan(cfg: Config, b: Bindings): Outcome
  {
    if Halts(cfg, b) then ScanAnswer(cfg, LastRound(cfg, b)) else Hangs
  }

  // The loop returns the address it stopped at, or falls out of its guard.
  function ScanAnswer(cfg: Config, n: nat): Outcome
  {
    if Visited(cfg, n) <= cfg.end then Granted(Visited(cfg, n)) else Exhausted
  }

  lemma ScanStops(cfg: Config, b: Bindings, n: nat)
    requires StopsAt(cfg, b, n)
    ensures Scan(cfg, b) == ScanAnswer(cfg, n)
  {
  }

  // ---- the operations ----

  // A requested address counts when it is an IPv4 address other than 0.0.0.0.
  function Requested(ip: NetIP): Option<uint32>
  {
    if ip == [] || IsUnspecified(ip) || To4(ip).None? then None else Some(ToInt(To4(ip).value))
  }

  ghost predicate CanHonour(cfg: Config, b: Bindings, req: Option<uint32>)
  {
    req.Some? && InRange(cfg, req.value) && !Taken(b, req.value)
  }

  ghost function Choose(cfg: Config, b: Bindings, mac: string, req: Option<uint32>): Outcome
  {
    if mac in b then Granted(b[mac].addr)
    else if CanHonour(cfg, b, req) then Granted(req.value)
    else Scan(cfg, b)
  }

  ghost function Allocate(cfg: Config, b: Bindings, mac: string, req: Option<uint32>, now: int): Bindings
  {
    match Choose(cfg, b, mac, req)
    case Granted(a) => b[mac := Binding(a, now + cfg.leaseTime)]
    case _ => b
  }

  function Release(b: Bindings, a: uint32): Bindings
  {
    map m | m in b && b[m].addr != a :: b[m]
  }

  function Renew(cfg: Config, b: Bindings, mac: string, now: int): Bindings
  {
    if mac in b then b[mac := b[mac].(expires := now + cfg.leaseTime)] else b
  }

  datatype LeaseError = LeaseNotFound | LeaseExpired

  function Lookup(b: Bindings, mac: string, now: int): Result<uint32, LeaseError>
  {
    if mac !in b then Err(LeaseNotFound)
    else if now > b[mac].expires then Err(LeaseExpired)
    else Ok(b[mac].addr)
  }

  // ---- what every operation keeps ----

  // A partial injection from clients to addresses, inside the range unless the range ends at 255.255.255.255.
  ghost predicate Inv(cfg: Config, b: Bindings)
  {
    Injective(b) && (cfg.end < MAX ==> AllInRange(cfg, b))
  }

  lemma OperationsKeepInv(cfg: Config, b: Bindings, mac: string, req: Option<uint32>, a: uint32, now: int)
    requires Inv(cfg, b)
    ensures Inv(cfg, Allocate(cfg, b, mac, req, now))
    ensures Inv(cfg, Release(b, a)) && !Taken(Release(b, a), a)
    ensures Inv(cfg, Renew(cfg, b, mac, now))
  {
    ScanGrantsFree(cfg, b);
  }

  // The scan never grants an address that is taken, nor one outside the range unless its counter has wrapped.
  lemma ScanGrantsFree(cfg: Config, b: Bindings)
    ensures Scan(cfg, b).Granted? ==> !Taken(b, Scan(cfg, b).addr)
    ensures Scan(cfg, b).Granted? && cfg.end < MAX ==> InRange(cfg, Scan(cfg, b).addr)
  {
    if Scan(cfg, b).Granted? {
      var n := LastRound(cfg, b);
      if cfg.end < MAX {
        PassesStayBelow(cfg, b, n);
      }
    }
  }

  ghost predicate RangeFull(cfg: Config, b: Bindings)
  {
    forall x: uint32 | InRange(cfg, x) :: Taken(b, x)
  }

  ghost predicate IsLeastFree(cfg: Config, b: Bindings, a: uint32)
  {
    InRange(cfg, a) && !Taken(b, a) && forall x: uint32 | cfg.start <= x < a :: Taken(b, x)
  }

  // As long as every round passes, a counter that cannot wrap climbs from start to at most one past end.
  lemma {:induction false} PassesStayBelow(cfg: Config, b: Bindings, n: nat)
    requires cfg.end < MAX
    requires forall k: nat | k < n :: Passes(cfg, b, k)
    ensures Visited(cfg, n) == cfg.start + n
    ensures n > 0 ==> cfg.start + n <= cfg.end + 1
  {
    if n > 0 {
      PassesStayBelow(cfg, b, n - 1);
      assert Passes(cfg, b, n - 1);
    }
  }

  // ---- the scan inside the range ----

  // For every range: if it has a free address, the scan stops at the least one.
  lemma ScanFindsLeastFree(cfg: Config, b: Bindings, a: uint32)
    requires InRange(cfg, a) && !Taken(b, a)
    requires forall x: uint32 | cfg.start <= x < a :: Taken(b, x)
    ensures Scan(cfg, b) == Granted(a)
  {
    hide Visited, Taken;
    var n := a - cfg.start;
    VisitedInside(cfg, n);
    forall k: nat | k < n
      ensures Passes(cfg, b, k)
    {
      VisitedInside(cfg, k);
    }
    ScanStops(cfg, b, n);
  }

  // An empty pool grants an address of its range.
  lemma EmptyPoolGrants(cfg: Config, mac: string, req: Option<uint32>)
    requires cfg.start <= cfg.end
    ensures Choose(cfg, map[], mac, req).Granted? && InRange(cfg, Choose(cfg, map[], mac, req).addr)
  {
    ScanFindsLeastFree(cfg, map[], cfg.start);
  }

  // Up to 255.255.255.255 the counter simply climbs.
  lemma VisitedInside(cfg: Config, n: nat)
    requires cfg.start + n <= MAX
    ensures Visited(cfg, n) == cfg.start + n
  {
    VisitedModulo(cfg, n);
  }

  lemma ScanExhausts(cfg: Config, b: Bindings)
    requires cfg.end < MAX && RangeFull(cfg, b)
    ensures Scan(cfg, b) == Exhausted
  {
    hide Visited, Taken;
    var n: nat := if cfg.start <= cfg.end then cfg.end + 1 - cfg.start else 0;
    VisitedInside(cfg, n);
    forall k: nat | k < n
      ensures Passes(cfg, b, k)
    {
      VisitedInside(cfg, k);
    }
    ScanStops(cfg, b, n);
  }

  lemma LeastFree(b: Bindings, lo: uint32, a: uint32) returns (least: uint32)
    requires lo <= a && !Taken(b, a)
    ensures lo <= least <= a && !Taken(b, least)
    ensures forall x: uint32 | lo <= x < least :: Taken(b, x)
    decreases a
  {
    if x: uint32 :| lo <= x < a && !Taken(b, x) {
      least := LeastFree(b, lo, x);
    } else {
      least := a;
    }
  }

  // ---- counting: the pool is full exactly when as many addresses are bound as it holds ----

  function PoolSize(cfg: Config): nat { if cfg.start <= cfg.end then cfg.end - cfg.start + 1 else 0 }

  function Addresses(b: Bindings): set<uint32> { set m | m in b :: b[m].addr }

  function Interval(lo: int, hi: int): (s: set<int>)
    ensures forall x :: x in s <==> lo <= x <= hi
    decreases hi - lo
  {
    if lo <= hi then Interval(lo, hi - 1) + {hi} else {}
  }

  lemma {:induction false} IntervalSize(lo: int, hi: int)
    ensures |Interval(lo, hi)| == if lo <= hi then hi - lo + 1 else 0
    decreases hi - lo
  {
    if lo <= hi {
      IntervalSize(lo, hi - 1);
    }
  }

  lemma {:induction false} AddressesSize(b: Bindings)
    requires Injective(b)
    ensures |Addresses(b)| == |b|
    decreases |b|
  {
    if b != map[] {
      var m :| m in b;
      var rest := b - {m};
      assert b.Keys == rest.Keys + {m};
      AddressesSize(rest);
      AddressesWithout(b, m);
    } else {
      assert Addresses(b) == {};
    }
  }

  lemma AddressesWithout(b: Bindings, m: string)
    requires Injective(b) && m in b
    ensures b[m].addr !in Addresses(b - {m})
    ensures Addresses(b) == Addresses(b - {m}) + {b[m].addr}
  {
    var rest := b - {m};
    forall k | k in b && k != m
      ensures b[k].addr in Addresses(rest)
    {
      assert k in rest && rest[k] == b[k];
    }
    forall k | k in rest
      ensures rest[k].addr != b[m].addr
    {
      assert rest[k] == b[k];
    }
  }

  lemma SubsetFull(s: set<int>, t: set<int>)
    requires s <= t
    ensures |s| <= |t|
    ensures |s| == |t| <==> s == t
  {
    assert t == s + (t - s);
    assert |t| == |s| + |t - s|;
  }

  lemma Pigeonhole(b: Bindings, lo: uint32, hi: uint32)
    requires Injective(b)
    requires forall m | m in b :: lo <= b[m].addr <= hi
    ensures |b| == |Addresses(b)| <= |Interval(lo, hi)|
    ensures |b| == |Interval(lo, hi)| <==> forall x: uint32 | lo <= x <= hi :: Taken(b, x)
  {
    AddressesSize(b);
    var used: set<int> := set m | m in b :: b[m].addr as int;
    assert used == Addresses(b);
    SubsetFull(used, Interval(lo, hi));
    assert forall x: uint32 :: x in used <==> Taken(b, x);
    if forall x: uint32 | lo <= x <= hi :: Taken(b, x) {
      forall x | x in Interval(lo, hi)
        ensures x in used
      {
        assert Taken(b, x as uint32);
      }
    }
  }

  // A range below 255.255.255.255 never hangs, holds at most PoolSize bindings, and refuses a client exactly when it
  // has no binding and the pool is full.
  lemma RefusesExactlyWhenFull(cfg: Config, b: Bindings, mac: string, req: Option<uint32>)
    requires cfg.end < MAX && Inv(cfg, b)
    ensures |b| <= PoolSize(cfg)
    ensures !Choose(cfg, b, mac, req).Hangs?
    ensures Choose(cfg, b, mac, req) == Exhausted <==> mac !in b && |b| == PoolSize(cfg)
  {
    SelectionOrder(cfg, b, mac, req);
    Pigeonhole(b, cfg.start, cfg.end);
    IntervalSize(cfg.start, cfg.end);
  }

  // ---- a range that ends at 255.255.255.255 ----

  // The counter goes round the whole address space, so any free address is reached in the end.
  lemma WrappingScan(cfg: Config, b: Bindings, n: nat)
    requires cfg.end == MAX
    requires StopsAt(cfg, b, n)
    ensures Scan(cfg, b) == Granted(Visited(cfg, n)) && !Taken(b, Visited(cfg, n))
  {
  }

  lemma LeastStop(cfg: Config, b: Bindings, n: nat) returns (k: nat)
    requires !Passes(cfg, b, n)
    ensures k <= n && StopsAt(cfg, b, k)
  {
    if j: nat :| j < n && !Passes(cfg, b, j) {
      k := LeastStop(cfg, b, j);
    } else {
      k := n;
    }
  }

  lemma VisitsEverything(cfg: Config, a: uint32) returns (n: nat)
    ensures Visited(cfg, n) == a && n <= MAX
  {
    n := if cfg.start <= a then a - cfg.start else a + 0x1_0000_0000 - cfg.start;
    VisitedModulo(cfg, n);
  }

  lemma WrappingScanOutcome(cfg: Config, b: Bindings)
    requires cfg.end == MAX
    ensures Scan(cfg, b) != Exhausted
    ensures Scan(cfg, b).Hangs? <==> forall a: uint32 :: Taken(b, a)
  {
    if a: uint32 :| !Taken(b, a) {
      var n := VisitsEverything(cfg, a);
      var k := LeastStop(cfg, b, n);
      WrappingScan(cfg, b, k);
    } else {
      assert forall n: nat :: Passes(cfg, b, n);
    }
  }

  // ---- the order of choice ----

  // Section 4.3.1 of RFC 2131: the client's current binding; else the requested address if it is in the pool and
  // free; else a free address of the pool, here always the least one; else a refusal.
  ghost predicate FollowsOrder(cfg: Config, b: Bindings, mac: string, req: Option<uint32>, answer: Outcome)
  {
    if mac in b then answer == Granted(b[mac].addr)
    else if CanHonour(cfg, b, req) then answer == Granted(req.value)
    else if RangeFull(cfg, b) then answer == Exhausted
    else answer.Granted? && IsLeastFree(cfg, b, answer.addr)
  }

  // The pool chooses in that order for every range, but in one case: a client without a binding, whose request cannot be
  // honoured, asks a full range that ends at 255.255.255.255.
  lemma SelectionOrder(cfg: Config, b: Bindings, mac: string, req: Option<uint32>)
    ensures FollowsOrder(cfg, b, mac, req, Choose(cfg, b, mac, req))
       <==> !(mac !in b && !CanHonour(cfg, b, req) && RangeFull(cfg, b) && cfg.end == MAX)
  {
    if a: uint32 :| InRange(cfg, a) && !Taken(b, a) {
      var least := LeastFree(b, cfg.start, a);
      ScanFindsLeastFree(cfg, b, least);
    } else if cfg.end < MAX {
      ScanExhausts(cfg, b);
    } else {
      WrappingScanOutcome(cfg, b);
    }
  }

  // The bytes of a request, for every slice: an IPv4 address other than 0.0.0.0 inside the range and free is honoured for
  // a client without a binding; with any other bytes it gets the least free address, or is refused when there is none.
  lemma AnswerToRequest(cfg: Config, b: Bindings, mac: string, ip: NetIP)
    ensures var answer, v := Choose(cfg, b, mac, Requested(ip)), To4(ip);
            if mac in b then answer == Granted(b[mac].addr)
            else if v.Some? && v.value != IPv4(0, 0, 0, 0) && cfg.start <= ToInt(v.value) <= cfg.end
                    && !Taken(b, ToInt(v.value)) then
              answer == Granted(ToInt(v.value))
            else
              && (forall a: uint32 | IsLeastFree(cfg, b, a) :: answer == Granted(a))
              && (RangeFull(cfg, b) && cfg.end < MAX ==> answer == Exhausted)
  {
    hide Choose, ToInt, Taken;
    SelectionOrder(cfg, b, mac, Requested(ip));
    ChoiceUnfolds(cfg, b, mac, Requested(ip));
    if To4(ip).Some? {
      ZeroIsUnspecified(To4(ip).value);
    }
    forall a: uint32 | IsLeastFree(cfg, b, a)
      ensures Scan(cfg, b) == Granted(a)
    {
      ScanFindsLeastFree(cfg, b, a);
    }
  }

  lemma ChoiceUnfolds(cfg: Config, b: Bindings, mac: string, req: Option<uint32>)
    ensures mac !in b && !CanHonour(cfg, b, req) ==> Choose(cfg, b, mac, req) == Scan(cfg, b)
    ensures mac !in b && CanHonour(cfg, b, req) ==> Choose(cfg, b, mac, req) == Granted(req.value)
    ensures mac in b ==> Choose(cfg, b, mac, req) == Granted(b[mac].addr)
  {
  }

  lemma ZeroIsUnspecified(ip: IPv4)
    ensures ToInt(ip) == 0 <==> ip == IPv4(0, 0, 0, 0)
  {
  }

  // Such a pool never reports that it is full. A call hangs exactly when the client has no binding and every one of
  // the 2^32 addresses is bound.
  lemma UnboundedRangeNeverRefuses(cfg: Config, b: Bindings, mac: string, req: Option<uint32>)
    requires cfg.end == MAX && Inv(cfg, b)
    ensures Choose(cfg, b, mac, req) != Exhausted
    ensures Choose(cfg, b, mac, req).Hangs? <==> mac !in b && |b| == 0x1_0000_0000
  {
    FullSpace(b);
    WrappingScanOutcome(cfg, b);
    if CanHonour(cfg, b, req) {
      assert !Taken(b, req.value);
    }
  }

  lemma FullSpace(b: Bindings)
    requires Injective(b)
    ensures |b| == 0x1_0000_0000 <==> forall a: uint32 :: Taken(b, a)
  {
    var size := |Interval(0, MAX)|;
    assert size == 0x1_0000_0000 by {
      IntervalSize(0, MAX);
    }
    Pigeonhole(b, 0, MAX);
  }

  // One full turn of the counter without a stop means that there is none.
  lemma FullTurnHangs(cfg: Config, b: Bindings)
    requires forall k: nat | k < 0x1_0000_0000 :: Passes(cfg, b, k)
    ensures Scan(cfg, b) == Hangs
  {
    hide Visited, Taken;
    forall n: nat
      ensures Passes(cfg, b, n)
    {
      var k := VisitedPeriodic(cfg, n);
      assert Passes(cfg, b, k);
    }
  }

  lemma VisitedPeriodic(cfg: Config, n: nat) returns (k: nat)
    ensures k < 0x1_0000_0000 && Visited(cfg, k) == Visited(cfg, n)
  {
    hide Visited;
    k := n % 0x1_0000_0000;
    VisitedModulo(cfg, n);
    VisitedModulo(cfg, k);
  }

  // A new binding lies outside the configured range exactly when the range ends at 255.255.255.255 and is full.
  lemma OutsideRangeIff(cfg: Config, b: Bindings, mac: string, req: Option<uint32>)
    requires Inv(cfg, b) && mac !in b
    requires Choose(cfg, b, mac, req).Granted?
    ensures !InRange(cfg, Choose(cfg, b, mac, req).addr)
       <==> cfg.end == MAX && RangeFull(cfg, b)
  {
    ScanGrantsFree(cfg, b);
    var a := Choose(cfg, b, mac, req).addr;
    if cfg.end == MAX && !CanHonour(cfg, b, req) && a < cfg.start {
      var n := LastRound(cfg, b);
      forall x: uint32 | InRange(cfg, x)
        ensures Taken(b, x)
      {
        var k: nat := x - cfg.start;
        VisitedModulo(cfg, k);
        VisitedModulo(cfg, n);
        assert k < n;
        assert Passes(cfg, b, k);
      }
    }
  }

  // The one-address pool 255.255.255.255: its second client is given 0.0.0.0.
  lemma WrappedPoolLeavesItsRange(leaseTime: int, now: int, first: string, second: string)
    requires first != second
    ensures var cfg := Config(MAX, MAX, leaseTime);
            var b := Allocate(cfg, map[], first, None, now);
            b == map[first := Binding(MAX, now + leaseTime)]
            && Choose(cfg, b, second, None) == Granted(0) && !InRange(cfg, 0)
  {
    var cfg := Config(MAX, MAX, leaseTime);
    assert Visited(cfg, 0) == MAX && Visited(cfg, 1) == 0;
    assert !Passes(cfg, map[], 0);
    ScanStops(cfg, map[], 0);
    var b := Allocate(cfg, map[], first, None, now);
    assert b[first].addr == MAX;
    assert Taken(b, MAX) && Passes(cfg, b, 0) && !Passes(cfg, b, 1);
    ScanStops(cfg, b, 1);
  }
}
