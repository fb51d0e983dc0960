/** What it means for the reverse index to agree with the bindings. */
module LeaseTables {
  import opened Ipv4
  import opened Pool

  type Owners = map<string, string>

  // The index from address text to client and the bindings are inverse to each other.
  ghost predicate Inverse(b: Bindings, owners: Owners)
  {
    && (forall m | m in b :: AddressText(b[m].addr) in owners && owners[AddressText(b[m].addr)] == m)
    && (forall t | t in owners :: owners[t] in b && AddressText(b[owners[t]].addr) == t)
  }

  // The index, keyed by text, holds exactly the taken addresses.
  lemma IndexedIffTaken(b: Bindings, owners: Owners, a: uint32)
    requires Inverse(b, owners)
    ensures AddressText(a) in owners <==> Taken(b, a)
    ensures AddressText(a) in owners ==> forall m | m in b :: b[m].addr == a <==> m == owners[AddressText(a)]
  {
    var t := AddressText(a);
    if t in owners {
      AddressTextInjective(b[owners[t]].addr, a);
      assert Taken(b, a);
    }
    if m :| m in b && b[m].addr == a {
      assert AddressText(b[m].addr) in owners;
    }
  }

  lemma TextOfNumber(ip: IPv4)
    ensures Dotted(ip) == AddressText(ToInt(ip))
  {
    FromToInt(ip);
  }

  lemma ReleaseUntaken(b: Bindings, a: uint32)
    requires !Taken(b, a)
    ensures Release(b, a) == b
  {
  }

  lemma InsertKeepsInverse(b: Bindings, owners: Owners, mac: string, x: Binding)
    requires Inverse(b, owners) && mac !in b && !Taken(b, x.addr)
    ensures Inverse(b[mac := x], owners[AddressText(x.addr) := mac])
  {
    hide AddressText;
    IndexedIffTaken(b, owners, x.addr);
    var b', owners' := b[mac := x], owners[AddressText(x.addr) := mac];
    forall m | m in b'
      ensures AddressText(b'[m].addr) in owners' && owners'[AddressText(b'[m].addr)] == m
    {
      if m != mac {
        assert AddressText(b[m].addr) in owners;
      }
    }
    forall t | t in owners'
      ensures owners'[t] in b' && AddressText(b'[owners'[t]].addr) == t
    {
      if t != AddressText(x.addr) {
        assert owners[t] in b;
      }
    }
  }

  lemma RefreshKeepsInverse(b: Bindings, owners: Owners, mac: string, t: int)
    requires Inverse(b, owners) && mac in b
    ensures Inverse(b[mac := b[mac].(expires := t)], owners)
  {
  }

  lemma RemoveKeepsInverse(b: Bindings, owners: Owners, a: uint32)
    requires Inverse(b, owners) && AddressText(a) in owners
    ensures owners[AddressText(a)] in b
    ensures Release(b, a) == b - {owners[AddressText(a)]}
    ensures Inverse(Release(b, a), owners - {AddressText(a)})
  {
    hide AddressText;
    IndexedIffTaken(b, owners, a);
    forall m | m in Release(b, a)
      ensures AddressText(b[m].addr) != AddressText(a)
    {
      AddressTextInjective(b[m].addr, a);
    }
  }

  // Inverse tables stand for a partial injection ...
  lemma InverseMeansInjective(b: Bindings, owners: Owners)
    requires Inverse(b, owners)
    ensures Injective(b)
  {
  }

  // ... and have the same size.
  lemma {:induction false} InverseMeansSameSize(b: Bindings, owners: Owners)
    requires Inverse(b, owners)
    ensures |b| == |owners|
    decreases |owners|
  {
    hide AddressText;
    if t :| t in owners {
      var m := owners[t];
      RemoveKeepsInverse(b, owners, b[m].addr);
      InverseMeansSameSize(b - {m}, owners - {t});
      assert b.Keys == (b - {m}).Keys + {m} && owners.Keys == (owners - {t}).Keys + {t};
    } else if m :| m in b {
      assert AddressText(b[m].addr) in owners;
    }
  }
}

/** The pool as the code keeps it: lease objects by client, and a reverse index from address text to client. */
module IPManagers {
  import opened Results
  import opened Mac
  import opened Ipv4
  import opened Pool
  import opened LeaseTables

  // DoesNotReturn stands for the one call that does not come back.
  datatype PoolError = InvalidIP | IPNotAllocated | PoolExhausted | NoLease(error: LeaseError) | DoesNotReturn

  class Lease {
    const mac: string
    const ip: IPv4
    var expiresAt: int

    constructor (mac: string, ip: IPv4, expiresAt: int)
      ensures this.mac == mac && this.ip == ip && this.expiresAt == expiresAt
    {
      this.mac, this.ip, this.expiresAt := mac, ip, expiresAt;
    }
  }

  class IPManager {
    const start: IPv4
    const end: IPv4
    const netmask: seq<byte>
    const gateway: Option<IPv4>
    const dns: seq<IPv4>
    const leaseTime: int
    // The pool's own normalizeMAC, a wrapper round the library parser net.ParseMAC.
    const normalizeMAC: string -> string

    var leases: map<string, Lease>
    // The reverse index that the source calls allocated, a reserved word here.
    var owners: map<string, string>

    // The abstract state: which address is bound to whom, until when.
    ghost var bindings: Bindings
    // The lease objects ever created.
    ghost var Repr: set<Lease>

    // The lease objects say what bindings says, each under its own client, and the two tables are mutually inverse.
    ghost predicate Valid()
      reads this, Repr
    {
      && (forall m :: m in leases <==> m in bindings)
      && (forall m | m in leases ::
            && leases[m] in Repr
            && leases[m].mac == m
            && ToInt(leases[m].ip) == bindings[m].addr
            && leases[m].expiresAt == bindings[m].expires)
      && Inverse(bindings, owners)
    }

    ghost function Cfg(): Config
    {
      Config(ToInt(start), ToInt(end), leaseTime)
    }

    constructor (start: IPv4, end: IPv4, netmask: seq<byte>, gateway: Option<IPv4>, dns: seq<IPv4>, leaseTime: int,
                 normalizeMAC: string -> string)
      ensures Valid() && bindings == map[] && Repr == {}
      ensures Cfg() == Config(ToInt(start), ToInt(end), leaseTime)
      ensures this.netmask == netmask && this.gateway == gateway && this.dns == dns
      ensures this.normalizeMAC == normalizeMAC
    {
      this.start, this.end, this.netmask, this.gateway, this.dns := start, end, netmask, gateway, dns;
      this.leaseTime, this.normalizeMAC := leaseTime, normalizeMAC;
      leases, owners, bindings, Repr := map[], map[], map[], {};
    }

    lemma ValidMeansInjective()
      requires Valid()
      ensures Injective(bindings) && |owners| == |leases|
    {
      InverseMeansInjective(bindings, owners);
      InverseMeansSameSize(bindings, owners);
      assert leases.Keys == bindings.Keys;
    }

    predicate IsIPInPool(ip: NetIP)
    {
      To4(ip).Some? && ToInt(start) <= ToInt(To4(ip).value) <= ToInt(end)
    }

    predicate IsIPAllocated(ip: NetIP)
      reads this
    {
      To4(ip).Some? && Dotted(To4(ip).value) in owners
    }

    lemma AllocatedIffTaken(ip: NetIP)
      requires Valid() && To4(ip).Some?
      ensures IsIPAllocated(ip) <==> Taken(bindings, ToInt(To4(ip).value))
    {
      FromToInt(To4(ip).value);
      IndexedIffTaken(bindings, owners, ToInt(To4(ip).value));
    }

    method GrantIP(mac: string, ip: IPv4, now: int) returns (granted: IPv4)
      requires Valid() && mac !in leases && !Taken(bindings, ToInt(ip))
      modifies this
      ensures Valid() && fresh(Repr - old(Repr))
      ensures granted == ip
      ensures bindings == old(bindings)[mac := Binding(ToInt(ip), now + leaseTime)]
    {
      hide Inverse, AddressText, ToInt, FromInt, Dotted, Taken;
      TextOfNumber(ip);
      InsertKeepsInverse(bindings, owners, mac, Binding(ToInt(ip), now + leaseTime));
      var lease := new Lease(mac, ip, now + leaseTime);
      leases := leases[mac := lease];
      Repr := Repr + {lease};
      owners := owners[Dotted(ip) := mac];
      bindings := bindings[mac := Binding(ToInt(ip), now + leaseTime)];
      granted := ip;
    }

    // The scan of AllocateIP, a wrapping 32-bit counter. The second guard is not in the code: a counter that has gone
    // once round without a stop goes round for ever, and the model says so instead.
    method NextFree() returns (outcome: Outcome)
      requires Valid()
      ensures outcome == Scan(Cfg(), bindings)
    {
      hide Inverse, AddressText, ToInt, FromInt, Dotted;
      var ip: uint32 := ToInt(start);
      var n: nat := 0;
      while ip <= ToInt(end) && n < 0x1_0000_0000
        invariant ip == Visited(Cfg(), n) && n <= 0x1_0000_0000
        invariant forall k: nat | k < n :: Passes(Cfg(), bindings, k)
        decreases 0x1_0000_0000 - n
      {
        var free := FromInt(ip);
        ToFromInt(ip);
        AllocatedIffTaken(Bytes(free));
        if !IsIPAllocated(Bytes(free)) {
          ScanStops(Cfg(), bindings, n);
          return Granted(ip);
        }
        assert Passes(Cfg(), bindings, n);
        ip := Next(ip);
        n := n + 1;
      }
      if ip <= ToInt(end) {
        FullTurnHangs(Cfg(), bindings);
        return Hangs;
      }
      ScanStops(Cfg(), bindings, n);
      outcome := Exhausted;
    }

    // Pool.UnboundedRangeNeverRefuses says which call never returns.
    method AllocateIP(mac: string, requestedIP: NetIP, now: int) returns (r: Result<IPv4, PoolError>)
      requires Valid()
      modifies this, Repr
      ensures Valid() && fresh(Repr - old(Repr))
      ensures bindings == Allocate(Cfg(), old(bindings), normalizeMAC(mac), Requested(requestedIP), now)
      ensures r == match Choose(Cfg(), old(bindings), normalizeMAC(mac), Requested(requestedIP))
                   case Granted(a) => Ok(FromInt(a))
                   case Exhausted => Err(PoolExhausted)
                   case Hangs => Err(DoesNotReturn)
      ensures var b, client, v := old(bindings), normalizeMAC(mac), To4(requestedIP);
              if client in b then
                && r == Ok(FromInt(b[client].addr))
                && bindings == b[client := Binding(b[client].addr, now + leaseTime)]
              else if v.Some? && v.value != IPv4(0, 0, 0, 0) && ToInt(start) <= ToInt(v.value) <= ToInt(end)
                      && !Taken(b, ToInt(v.value)) then
                && r == Ok(v.value)
                && bindings == b[client := Binding(ToInt(v.value), now + leaseTime)]
              else
                && (forall a: uint32 | IsLeastFree(Cfg(), b, a) ::
                      r == Ok(FromInt(a)) && bindings == b[client := Binding(a, now + leaseTime)])
                && (RangeFull(Cfg(), b) && ToInt(end) < MAX ==> r == Err(PoolExhausted) && bindings == b)
    {
      hide Inverse, AddressText, ToInt, FromInt, Dotted, IsLeastFree, RangeFull, Taken, Scan;
      var client := normalizeMAC(mac);
      AnswerToRequest(Cfg(), bindings, client, requestedIP);
      if client in leases {
        var existing := leases[client];
        SetExpiry(client, now + leaseTime);
        FromToInt(existing.ip);
        return Ok(existing.ip);
      }

      if requestedIP != [] && !IsUnspecified(requestedIP) && To4(requestedIP).Some? {
        var reqIP := To4(requestedIP).value;
        FromToInt(reqIP);
        AllocatedIffTaken(requestedIP);
        if IsIPInPool(requestedIP) {
          if !IsIPAllocated(requestedIP) {
            var granted := GrantIP(client, reqIP, now);
            return Ok(granted);
          }
        }
      }

      var outcome := NextFree();
      match outcome {
        case Granted(a) =>
          ToFromInt(a);
          ScanGrantsFree(Cfg(), bindings);
          var granted := GrantIP(client, FromInt(a), now);
          r := Ok(granted);
        case Exhausted => r := Err(PoolExhausted);
        case Hangs => r := Err(DoesNotReturn);
      }
    }

    // One lease's expiry is overwritten; the others are different objects, being filed under other clients.
    method SetExpiry(client: string, t: int)
      requires Valid() && client in leases
      modifies this`bindings, leases[client]
      ensures Valid() && bindings == old(bindings)[client := old(bindings)[client].(expires := t)]
    {
      hide Inverse, AddressText, ToInt, FromInt, Dotted;
      RefreshKeepsInverse(bindings, owners, client, t);
      var lease := leases[client];
      lease.expiresAt := t;
      bindings := bindings[client := bindings[client].(expires := t)];
      forall m | m in leases && m != client
        ensures leases[m].expiresAt == bindings[m].expires
      {
        assert leases[m].mac != lease.mac;
      }
    }

    method ReleaseIP(ip: NetIP) returns (r: Result<(), PoolError>)
      requires Valid()
      modifies this
      ensures Valid() && Repr == old(Repr)
      ensures To4(ip).None? ==> r == Err(InvalidIP) && bindings == old(bindings)
      ensures To4(ip).Some? ==>
                var a := ToInt(To4(ip).value);
                && bindings == Release(old(bindings), a)
                && r == if Taken(old(bindings), a) then Ok(()) else Err(IPNotAllocated)
    {
      hide Inverse, AddressText, ToInt, FromInt, Dotted, To4, Taken, Release;
      if To4(ip).None? {
        return Err(InvalidIP);
      }
      var v4 := To4(ip).value;
      AllocatedIffTaken(ip);
      TextOfNumber(v4);
      var text := Dotted(v4);
      if text !in owners {
        ReleaseUntaken(bindings, ToInt(v4));
        return Err(IPNotAllocated);
      }
      RemoveKeepsInverse(bindings, owners, ToInt(v4));
      var mac := owners[text];
      Forget(mac, text);
      r := Ok(());
    }

    // Both deletes of ReleaseIP.
    method Forget(mac: string, text: string)
      requires Valid() && mac in bindings
      requires Inverse(bindings - {mac}, owners - {text})
      modifies this
      ensures Valid() && Repr == old(Repr) && bindings == old(bindings) - {mac}
    {
      hide Inverse;
      leases := leases - {mac};
      owners := owners - {text};
      bindings := bindings - {mac};
    }

    method RenewLease(mac: string, now: int) returns (r: Result<(), PoolError>)
      requires Valid()
      modifies this`bindings, Repr
      ensures Valid() && bindings == Renew(Cfg(), old(bindings), normalizeMAC(mac), now)
      ensures r == if normalizeMAC(mac) in old(bindings) then Ok(()) else Err(NoLease(LeaseNotFound))
    {
      hide Inverse, AddressText, ToInt, FromInt, Dotted;
      var client := normalizeMAC(mac);
      if client !in leases {
        return Err(NoLease(LeaseNotFound));
      }
      SetExpiry(client, now + leaseTime);
      r := Ok(());
    }

    method GetLease(mac: string, now: int) returns (r: Result<IPv4, PoolError>)
      requires Valid()
      ensures r == match Lookup(bindings, normalizeMAC(mac), now)
                   case Ok(a) => Ok(FromInt(a))
                   case Err(e) => Err(NoLease(e))
    {
      hide Inverse, AddressText, ToInt, FromInt, Dotted;
      var client := normalizeMAC(mac);
      if client !in leases {
        return Err(NoLease(LeaseNotFound));
      }
      var lease := leases[client];
      if now > lease.expiresAt {
        return Err(NoLease(LeaseExpired));
      }
      FromToInt(lease.ip);
      r := Ok(lease.ip);
    }
  }
}
