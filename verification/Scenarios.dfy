/** Runs written out event by event: how a given list of events continues a run. */
module Scenarios {
  import opened Results
  import opened Mac
  import opened Nodes
  import opened Handlers
  import opened Lifecycle

  ghost function ReactAll(net: Option<Network>, s: System, events: seq<Event>): System
    decreases |events|
  {
    if events == [] then s else ReactAll(net, React(net, s, events[0]), events[1..])
  }

  lemma {:induction false} RunAppend(net: Option<Network>, start: int, before: seq<Event>, after: seq<Event>)
    ensures Run(net, start, before + after) == ReactAll(net, Run(net, start, before), after)
    decreases |after|
  {
    hide React;
    if after == [] {
      assert before + after == before;
    } else {
      var next := before + [after[0]];
      assert next[..|before|] == before;
      assert before + after == next + after[1..];
      RunAppend(net, start, next, after[1..]);
    }
  }

  lemma ReactTwo(net: Option<Network>, s: System, e: Event, f: Event)
    ensures ReactAll(net, s, [e, f]) == React(net, React(net, s, e), f)
  {
    hide React;
    assert [e, f][1..] == [f];
    assert [f][1..] == [];
    assert ReactAll(net, React(net, React(net, s, e), f), []) == React(net, React(net, s, e), f);
  }

  lemma ReactThree(net: Option<Network>, s: System, e: Event, f: Event, g: Event)
    ensures ReactAll(net, s, [e, f, g]) == React(net, React(net, React(net, s, e), f), g)
  {
    hide React;
    assert [e, f, g][1..] == [f, g];
    ReactTwo(net, React(net, s, e), f, g);
  }

  lemma RunFromStart(net: Option<Network>, start: int, events: seq<Event>)
    ensures Run(net, start, events) == ReactAll(net, System(Shared(map[], map[]), [], [], [], start), events)
  {
    RunAppend(net, start, [], events);
    assert [] + events == events;
    hide React, ReactAll;
  }

  // A DHCP message arrives and its handler goes on to its pool step.
  function Reaching(n: nat, msg: DhcpMessage): seq<Event>
  {
    [Arrive(DhcpFind(msg)), Advance(n, 0), Advance(n, 0)]
  }

  function Blank(mac: string, now: int): Record { Record(mac, "", "", "", "", "", Discovered, NEVER, now, now) }

  // The state when the handler has come to that step: the node has a record, blank if it had none before.
  function AtPoolStep(s: System, msg: DhcpMessage): System
  {
    var mac, r := Hex(msg.hw), Blank(Hex(msg.hw), s.clock);
    System(s.shared.(store := map[mac := r]), s.handlers + [DhcpAssign(msg, r)], s.seen + [|s.log| + 1],
           s.log + [Write(mac, r, DhcpSave(msg, r), |s.log|)], s.clock)
  }

  predicate KnowsAtMost(s: System, hw: seq<byte>)
  {
    |s.seen| == |s.handlers| && (s.shared.store == map[] || s.shared.store == map[Hex(hw) := Blank(Hex(hw), s.clock)])
  }

  lemma ReachesPoolStep(net: Option<Network>, s: System, msg: DhcpMessage)
    requires |msg.hw| == 6 && msg.kind != Other && KnowsAtMost(s, msg.hw)
    ensures ReactAll(net, s, Reaching(|s.handlers|, msg)) == AtPoolStep(s, msg) && KnowsAtMost(AtPoolStep(s, msg), msg.hw)
  {
    var mac, n, r := Hex(msg.hw), |s.handlers|, Blank(Hex(msg.hw), s.clock);
    NormalizePrinted(msg.hw);
    NormalizeFixedPoint(mac);
    assert PrintHardware(msg.hw) != "";
    hide NormalizeMAC, PrintHardware, Hex, ReactAll;
    var arrival := Arrive(DhcpFind(msg));
    ReactThree(net, s, arrival, Advance(n, 0), Advance(n, 0));
    var t := React(net, s, arrival);
    var u := React(net, t, Advance(n, 0));
    assert u.handlers == s.handlers + [DhcpSave(msg, r)];
    assert u == s.(handlers := s.handlers + [DhcpSave(msg, r)], seen := s.seen + [|s.log|]);
    SavesBlank(net, u, s, msg, r);
  }

  lemma SavesBlank(net: Option<Network>, u: System, s: System, msg: DhcpMessage, r: Record)
    requires KnowsAtMost(s, msg.hw) && r == Blank(Hex(msg.hw), s.clock)
    requires u == s.(handlers := s.handlers + [DhcpSave(msg, r)], seen := s.seen + [|s.log|])
    requires NormalizeMAC(Hex(msg.hw)) == Hex(msg.hw) != ""
    ensures React(net, u, Advance(|s.handlers|, 0)) == AtPoolStep(s, msg)
  {
    hide NormalizeMAC, Hex;
    var v := React(net, u, Advance(|s.handlers|, 0));
    assert v.handlers == s.handlers + [DhcpAssign(msg, r)];
    assert v.shared.store == map[Hex(msg.hw) := r];
    assert v.seen == s.seen + [|s.log| + 1];
  }
}
