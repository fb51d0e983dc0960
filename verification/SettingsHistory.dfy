/** The network settings that runs of the server leave in the records, and what an installer is told of them. */
module SettingsHistory {
  import opened Results
  import opened Text
  import opened Mac
  import opened Ipv4
  import opened Pool
  import opened Nodes
  import opened Handlers
  import opened Lifecycle
  import opened Preseed
  import DnsList

  // Text of digits, dots and commas only, which a query carries unharmed.
  predicate IsQuiet(s: string) { forall c | c in s :: '0' <= c <= '9' || 'a' <= c <= 'f' || c == '.' || c == ',' }

  lemma QuietIsPlain(s: string)
    requires IsQuiet(s)
    ensures Plain(s) && Contained(s)
  {
  }

  lemma {:induction false} JoinQuiet(parts: seq<string>)
    requires forall p | p in parts :: IsQuiet(p)
    ensures IsQuiet(Join(parts, ','))
  {
    if |parts| > 0 {
      assert parts[0] in parts;
      if |parts| > 1 {
        JoinQuiet(parts[1..]);
      }
    }
  }

  lemma DottedQuiet(ip: IPv4)
    ensures IsQuiet(Dotted(ip)) && Dotted(ip) != ""
  {
    hide Dotted;
    DnsList.DottedIsText(ip);
  }

  lemma DnsQuiet(dns: seq<IPv4>)
    ensures IsQuiet(Join(DnsTexts(dns), ','))
  {
    hide Dotted, Join;
    forall p | p in DnsTexts(dns)
      ensures IsQuiet(p)
    {
      var i :| 0 <= i < |dns| && p == Dotted(dns[i]);
      DottedQuiet(dns[i]);
    }
    JoinQuiet(DnsTexts(dns));
  }

  // Only the DHCP handler writes these three fields.
  predicate IsSettled(node: Record) { IsQuiet(node.netmask) && IsQuiet(node.gateway) && IsQuiet(node.dns) }

  lemma NetworkIsSettled(net: Network, node: Record, a: uint32)
    requires IsSettled(node)
    ensures IsSettled(WithNetwork(net, node, a)) && IsQuiet(AddressText(a)) && AddressText(a) != ""
  {
    DottedQuiet(FromInt(a));
    MaskQuiet(net.netmask);
    if net.gateway.Some? {
      DottedQuiet(net.gateway.value);
    }
    DnsQuiet(net.dns);
    hide IsQuiet, Dotted, Join, MaskText;
  }

  lemma MaskQuiet(mask: seq<byte>)
    ensures mask != [] ==> IsQuiet(MaskText(mask))
  {
  }

  ghost predicate SettledInv(s: System)
  {
    && (forall k | k in s.shared.store :: IsSettled(s.shared.store[k]))
    && (forall h | h in s.handlers && Carried(h).Some? :: IsSettled(Carried(h).value))
  }

  lemma NextIsSettled(net: Option<Network>, sh: Shared, h: Handler, now: int)
    requires forall k | k in sh.store :: IsSettled(sh.store[k])
    requires Carried(h).Some? ==> IsSettled(Carried(h).value)
    ensures Carried(Step(net, sh, h, now).next).Some? ==> IsSettled(Carried(Step(net, sh, h, now).next).value)
  {
    if h.DhcpAssign? && net.Some? {
      forall a: uint32
        ensures IsSettled(WithNetwork(net.value, h.node, a))
      {
        NetworkIsSettled(net.value, h.node, a);
      }
    }
    BlankIsQuiet();
    hide IsQuiet, WithNetwork, NormalizeMAC, PrintHardware, TopicMac, Client, Requested, Choose, Lookup, Allocate;
  }

  lemma BlankIsQuiet()
    ensures IsQuiet("")
  {
  }

  lemma ReactKeepsSettled(net: Option<Network>, s: System, e: Event)
    requires RepositoryInv(s) && SettledInv(s)
    ensures SettledInv(React(net, s, e))
  {
    hide Step, IsQuiet, NormalizeMAC, StoreIsLog, StoreGood, HistoryGood;
    if e.Advance? && e.i < |s.handlers| {
      var now := s.clock + e.delay;
      StepIsGood(net, s, e.i, now);
      NextIsSettled(net, s.shared, s.handlers[e.i], now);
    }
  }

  lemma {:induction false} RunKeepsSettled(net: Option<Network>, start: int, events: seq<Event>)
    ensures SettledInv(Run(net, start, events))
  {
    hide React;
    if events != [] {
      hide SettledInv;
      var before := events[..|events| - 1];
      RunKeepsSettled(net, start, before);
      RunKeepsRepository(net, start, before);
      ReactKeepsSettled(net, Run(net, start, before), events[|events| - 1]);
    }
  }

  // In every interleaving of all handlers: the query that the install script prints from a record agrees with the record
  // exactly when its address is plain and leaves the structure of the query alone, or there is none, or a query of that
  // address alone names none. Nothing is asked of the other fields.
  lemma QueryAgreesInRuns(net: Option<Network>, start: int, events: seq<Event>, key: string, node: Record)
    requires key in Run(net, start, events).shared.store && node == Run(net, start, events).shared.store[key]
    ensures Chosen(node, RawQuery(Printed(node))) == Chosen(node, "")
       <==> node.ip == "" || QueryGet(RawQuery("?ip=" + node.ip), "ip") == "" || (Plain(node.ip) && Contained(node.ip))
  {
    RunKeepsSettled(net, start, events);
    hide Run, IsQuiet, Plain, Contained, Chosen, RawQuery, QueryGet, Printed;
    QuietIsPlain(node.netmask);
    QuietIsPlain(node.gateway);
    QuietIsPlain(node.dns);
    if node.ip != "" {
      AddressAloneNames(node);
    }
    QueryAgreesWithRecordIff(node);
  }

  // In every interleaving: what the DHCP handler is about to record after its pool step comes back unchanged through the
  // query, whatever address it was assigned.
  lemma DhcpSettingsSurvive(net: Network, start: int, events: seq<Event>, h: Handler, a: uint32)
    requires h in Run(Some(net), start, events).handlers && h.DhcpAssign?
    ensures var node := WithNetwork(net, h.node, a);
            node.ip == AddressText(a) && Chosen(node, RawQuery(Printed(node))) == Recorded(node)
  {
    RunKeepsSettled(Some(net), start, events);
    assert Carried(h).Some?;
    var node := WithNetwork(net, h.node, a);
    NetworkIsSettled(net, h.node, a);
    hide Run, IsQuiet, Plain, Contained, Chosen, RawQuery, QueryGet, AddressText, MaskText, Join, Dotted;
    QuietIsPlain(node.ip);
    QuietIsPlain(node.netmask);
    QuietIsPlain(node.gateway);
    QuietIsPlain(node.dns);
    QueryAgreesWithRecordIff(node);
  }
}
