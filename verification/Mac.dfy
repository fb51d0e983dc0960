/** MAC addresses: the shared spelling rules of server and agent, hardware addresses and the status topic. */
module Mac {
  import opened Results
  import opened Text

  type byte = b: int | 0 <= b < 256

  predicate IsLowerHex(c: char) { '0' <= c <= '9' || 'a' <= c <= 'f' }

  predicate IsHex(c: char) { IsLowerHex(c) || 'A' <= c <= 'F' }

  function Lower(c: char): char
  {
    if 'A' <= c <= 'F' then (c as int + 32) as char else c
  }

  predicate Canonical(m: string) { forall c | c in m :: IsLowerHex(c) }

  // What NormalizeMAC stands for: keep the hexadecimal digits, in order, in lower case.
  function NormalizeMAC(mac: string): (m: string)
    ensures Canonical(m) && |m| <= |mac|
  {
    if mac == "" then ""
    else (if IsHex(mac[0]) then [Lower(mac[0])] else "") + NormalizeMAC(mac[1..])
  }

  predicate IsValidMAC(mac: string) { |NormalizeMAC(mac)| == 12 }

  lemma {:induction false} NormalizeConcat(a: string, b: string)
    ensures NormalizeMAC(a + b) == NormalizeMAC(a) + NormalizeMAC(b)
  {
    if a == "" {
      assert a + b == b;
    } else {
      NormalizeConcat(a[1..], b);
      assert (a + b)[1..] == a[1..] + b && (a + b)[0] == a[0];
      var first := if IsHex(a[0]) then [Lower(a[0])] else "";
      var m, n := NormalizeMAC(a[1..]), NormalizeMAC(b);
      assert first + (m + n) == first + m + n;
    }
  }

  // Character by character: digits and lower-case letters stay, upper-case ones become lower-case, the rest is dropped.
  lemma NormalizeOfChar(c: char)
    ensures c in "0123456789abcdef" ==> NormalizeMAC([c]) == [c]
    ensures forall i | 0 <= i < 6 && c == "ABCDEF"[i] :: NormalizeMAC([c]) == ["abcdef"[i]]
    ensures c !in "0123456789abcdefABCDEF" ==> NormalizeMAC([c]) == ""
  {
    assert [c][1..] == "";
  }

  // A spelling is left alone exactly when it is already lower-case hexadecimal.
  lemma {:induction false} NormalizeFixedPoint(m: string)
    ensures NormalizeMAC(m) == m <==> Canonical(m)
  {
    if m != "" {
      NormalizeFixedPoint(m[1..]);
      if Canonical(m) {
        assert m[0] in m && forall c | c in m[1..] :: c in m;
        assert m == [m[0]] + m[1..];
      }
    }
  }

  lemma NormalizeIdempotent(mac: string)
    ensures NormalizeMAC(NormalizeMAC(mac)) == NormalizeMAC(mac)
  {
    NormalizeFixedPoint(NormalizeMAC(mac));
  }

  // The two passes of the source: collect the digits, then lower each collected letter in place.
  method Normalize(mac: string) returns (result: string)
    ensures result == NormalizeMAC(mac)
  {
    result := [];
    for i := 0 to |mac|
      invariant result == HexDigits(mac[..i])
    {
      assert mac[..i + 1][..i] == mac[..i];
      if IsHex(mac[i]) {
        result := result + [mac[i]];
      }
    }
    assert mac[..|mac|] == mac;
    ghost var digits := result;
    for i := 0 to |result|
      invariant |result| == |digits|
      invariant forall k | 0 <= k < |digits| :: result[k] == if k < i then Lower(digits[k]) else digits[k]
    {
      if 'A' <= result[i] <= 'F' {
        result := result[i := (result[i] as int + 32) as char];
      }
    }
    LowerDigits(mac);
  }

  // The first pass alone, growing to the right.
  ghost function HexDigits(s: string): string
  {
    if s == "" then ""
    else HexDigits(s[..|s| - 1]) + if IsHex(s[|s| - 1]) then [s[|s| - 1]] else ""
  }

  lemma NormalizeAppend(s: string, c: char)
    ensures NormalizeMAC(s + [c]) == NormalizeMAC(s) + if IsHex(c) then [Lower(c)] else ""
  {
    NormalizeConcat(s, [c]);
    assert [c][1..] == "";
  }

  lemma {:induction false} LowerDigits(s: string)
    ensures |NormalizeMAC(s)| == |HexDigits(s)|
    ensures forall k | 0 <= k < |HexDigits(s)| :: NormalizeMAC(s)[k] == Lower(HexDigits(s)[k])
  {
    if s != "" {
      var n := |s| - 1;
      LowerDigits(s[..n]);
      NormalizeAppend(s[..n], s[n]);
      assert s[..n] + [s[n]] == s;
      hide NormalizeMAC;
    }
  }

  // ---- the agent's side ----

  // The agent's own check of an address it has already normalised.
  method AgentIsValid(mac: string) returns (ok: bool)
    ensures ok <==> |mac| == 12 && Canonical(mac)
  {
    if |mac| != 12 {
      return false;
    }
    for i := 0 to |mac|
      invariant forall k | 0 <= k < i :: IsLowerHex(mac[k])
    {
      if !IsLowerHex(mac[i]) {
        return false;
      }
    }
    return true;
  }

  // A network interface: its two relevant flags and its hardware address.
  datatype Interface = Interface(loopback: bool, up: bool, hw: seq<byte>)

  // An interface whose printed address the agent accepts: up, no loopback, six bytes (see UsableIff).
  predicate IsUsable(i: Interface) { !i.loopback && i.up && i.hw != [] && IsValidMAC(PrintHardware(i.hw)) }

  lemma UsableIff(i: Interface)
    ensures IsUsable(i) <==> !i.loopback && i.up && |i.hw| == 6
    ensures IsUsable(i) ==> NormalizeMAC(PrintHardware(i.hw)) == Hex(i.hw)
  {
    NormalizePrinted(i.hw);
    HardwareKeyInjective(i.hw, i.hw);
  }

  // The agent's address: from its environment if that is set, else from the first usable interface; None stands for an
  // error, interfaces is None when listing them fails. The agent accepts exactly the spellings the server accepts, and
  // holds the very key under which the server files the node.
  method AgentAddress(env: string, interfaces: Option<seq<Interface>>) returns (mac: Option<string>)
    ensures env != "" ==> mac == if IsValidMAC(env) then Some(NormalizeMAC(env)) else None
    ensures env == "" && interfaces.None? ==> mac == None
    ensures env == "" && interfaces.Some? ==>
              if exists i :: 0 <= i < |interfaces.value| && IsUsable(interfaces.value[i]) then
                exists i :: 0 <= i < |interfaces.value| && IsUsable(interfaces.value[i])
                  && (forall j | 0 <= j < i :: !IsUsable(interfaces.value[j]))
                  && mac == Some(Hex(interfaces.value[i].hw))
              else mac == None
  {
    if env != "" {
      var m := Normalize(env);
      var ok := AgentIsValid(m);
      return if ok then Some(m) else None;
    }
    if interfaces.None? {
      return None;
    }
    var all := interfaces.value;
    for k := 0 to |all|
      invariant forall j | 0 <= j < k :: !IsUsable(all[j])
    {
      UsableIff(all[k]);
      if !all[k].loopback && all[k].up && |all[k].hw| != 0 {
        var m := Normalize(PrintHardware(all[k].hw));
        var ok := AgentIsValid(m);
        if ok {
          return Some(m);
        }
      }
    }
    mac := None;
  }

  function Upper(c: char): char
  {
    if 'a' <= c <= 'z' then (c as int - 32) as char else c
  }

  // XX:XX:XX:XX:XX:XX for twelve characters, anything else unchanged.
  method FormatMAC(mac: string) returns (result: string)
    ensures result == if |mac| == 12 then Join(PairsUpper(mac, 6), ':') else mac
    ensures NormalizeMAC(result) == NormalizeMAC(mac)
    ensures |mac| == 12 ==>
              && |result| == 17
              && (forall i | 0 <= i < 5 :: result[3 * i + 2] == ':')
              && (forall c | c in result :: !('a' <= c <= 'z'))
  {
    if |mac| != 12 {
      return mac;
    }
    hide NormalizeMAC, Join;
    result := "";
    var i := 0;
    JoinOfNone();
    while i < 12
      invariant 0 <= i <= 12 && i % 2 == 0
      invariant result == Join(PairsUpper(mac, i / 2), ':')
    {
      JoinAppend(PairsUpper(mac, i / 2), [Upper(mac[i]), Upper(mac[i + 1])], ':');
      if i > 0 {
        result := result + ":";
      }
      result := result + [Upper(mac[i]), Upper(mac[i + 1])];
      i := i + 2;
    }
    NormalizePairs(mac, 6);
    assert mac[..12] == mac;
    PairsText(mac, 6);
  }

  // Two characters a pair and one between.
  lemma {:induction false} PairsText(mac: string, n: nat)
    requires 0 < n && 2 * n <= |mac|
    ensures var text := Join(PairsUpper(mac, n), ':');
            && |text| == 3 * n - 1
            && (forall i | 0 <= i < n - 1 :: text[3 * i + 2] == ':')
            && (forall c | c in text :: !('a' <= c <= 'z'))
  {
    var pair := [Upper(mac[2 * n - 2]), Upper(mac[2 * n - 1])];
    JoinAppend(PairsUpper(mac, n - 1), pair, ':');
    if n > 1 {
      PairsText(mac, n - 1);
      hide Join;
    }
  }

  lemma JoinOfNone()
    ensures Join([], ':') == ""
  {
  }

  // The first n two-character groups of an address, in upper case.
  ghost function PairsUpper(mac: string, n: nat): (pairs: seq<string>)
    requires 2 * n <= |mac|
    ensures |pairs| == n
  {
    if n == 0 then [] else PairsUpper(mac, n - 1) + [[Upper(mac[2 * n - 2]), Upper(mac[2 * n - 1])]]
  }

  // Formatting neither loses nor adds a hexadecimal digit.
  lemma {:induction false} NormalizePairs(mac: string, n: nat)
    requires 2 * n <= |mac|
    ensures NormalizeMAC(Join(PairsUpper(mac, n), ':')) == NormalizeMAC(mac[..2 * n])
  {
    if n > 0 {
      var c, d := mac[2 * n - 2], mac[2 * n - 1];
      var before, pair := PairsUpper(mac, n - 1), [Upper(c), Upper(d)];
      NormalizePairs(mac, n - 1);
      JoinAppend(before, pair, ':');
      assert mac[..2 * n] == mac[..2 * n - 2] + [c, d];
      NormalizeConcat(mac[..2 * n - 2], [c, d]);
      NormalizeUpperPair(c, d);
      if before == [] {
        assert mac[..2 * n - 2] == "";
      } else {
        NormalizeColon(Join(before, ':'), pair);
      }
    }
  }

  lemma NormalizeUpperPair(c: char, d: char)
    ensures NormalizeMAC([Upper(c), Upper(d)]) == NormalizeMAC([c, d])
  {
  }

  lemma NormalizeColon(a: string, b: string)
    ensures NormalizeMAC(a + [':'] + b) == NormalizeMAC(a) + NormalizeMAC(b)
  {
    NormalizeConcat(a, [':']);
    NormalizeConcat(a + [':'], b);
    NormalizeOfColon();
  }

  lemma NormalizeOfColon()
    ensures NormalizeMAC([':']) == ""
  {
  }

  // ---- the status topic ----

  // The topic the agent publishes on: node/<mac>/status.
  function StatusTopic(mac: string): string
  {
    Join(["node", mac, "status"], '/')
  }

  lemma StatusTopicText(mac: string)
    ensures StatusTopic(mac) == "node/" + mac + "/status"
  {
    JoinConcat(["node"], [mac, "status"], '/');
    JoinConcat([mac], ["status"], '/');
    assert ["node"] + [mac, "status"] == ["node", mac, "status"] && [mac] + ["status"] == [mac, "status"];
    assert "node" + ['/'] + (mac + ['/'] + "status") == "node/" + mac + "/status";
  }

  // The server's reading of a topic: the normalised middle of node/<mac>/status, or nothing.
  function TopicMac(topic: string): Option<string>
  {
    var parts := Split(topic, '/');
    if |parts| != 3 || parts[0] != "node" || parts[2] != "status" then None
    else Some(NormalizeMAC(parts[1]))
  }

  // A spelling without a slash is read back as its own key; a topic built from one with a slash is not read at all.
  lemma TopicRoundTrip(spelling: string)
    ensures TopicMac(StatusTopic(spelling)) == if '/' in spelling then None else Some(NormalizeMAC(spelling))
  {
    hide Join, Split, NormalizeMAC;
    TopicPieces("node", spelling, "status");
    assert forall c | c in "node" :: c != '/';
    assert forall c | c in "status" :: c != '/';
  }

  // The server reads exactly the topics built from some spelling without a slash.
  lemma TopicAcceptedIff(topic: string)
    ensures TopicMac(topic).Some? <==> exists spelling :: '/' !in spelling && topic == StatusTopic(spelling)
  {
    if TopicMac(topic).Some? {
      var parts := Split(topic, '/');
      JoinSplit(topic, '/');
      assert parts == ["node", parts[1], "status"];
      assert parts[1] in parts && topic == StatusTopic(parts[1]);
    }
    if spelling :| '/' !in spelling && topic == StatusTopic(spelling) {
      TopicRoundTrip(spelling);
    }
  }

  lemma TopicIsNormal(topic: string)
    ensures TopicMac(topic).Some? ==> NormalizeMAC(TopicMac(topic).value) == TopicMac(topic).value
  {
    hide Split;
    if TopicMac(topic).Some? {
      NormalizeIdempotent(Split(topic, '/')[1]);
    }
  }

  lemma TopicPieces(a: string, b: string, c: string)
    requires '/' !in a && '/' !in c
    ensures |Split(Join([a, b, c], '/'), '/')| == 3 <==> '/' !in b
    ensures '/' !in b ==> Split(Join([a, b, c], '/'), '/') == [a, b, c]
  {
    var parts := [a, b, c];
    SplitJoinCount(parts, '/');
    assert parts[1] == b;
    if '/' !in b {
      SplitJoin(parts, '/');
    }
  }

  // Two agents' reports reach the same record exactly when their environments spell the same address.
  lemma AgentReportReachesItsRecord(env: string, other: string)
    requires IsValidMAC(env) && IsValidMAC(other)
    ensures TopicMac(StatusTopic(NormalizeMAC(env))) == Some(NormalizeMAC(env))
    ensures TopicMac(StatusTopic(NormalizeMAC(env))) == TopicMac(StatusTopic(NormalizeMAC(other)))
       <==> NormalizeMAC(env) == NormalizeMAC(other)
  {
    assert forall m: string | Canonical(m) :: '/' !in m;
    TopicRoundTrip(NormalizeMAC(env));
    TopicRoundTrip(NormalizeMAC(other));
    NormalizeIdempotent(env);
    NormalizeIdempotent(other);
  }

  // ---- hardware addresses ----

  function HexDigit(n: int): char
    requires 0 <= n < 16
  {
    if n < 10 then ('0' as int + n) as char else ('a' as int + n - 10) as char
  }

  function Hex(hw: seq<byte>): (s: string)
    ensures |s| == 2 * |hw| && Canonical(s)
  {
    if hw == [] then "" else [HexDigit(hw[0] / 16), HexDigit(hw[0] % 16)] + Hex(hw[1..])
  }

  // net.HardwareAddr.String: two lower-case digits a byte, colons between.
  function PrintHardware(hw: seq<byte>): string
  {
    if hw == [] then ""
    else if |hw| == 1 then Hex(hw)
    else Hex(hw[..1]) + ":" + PrintHardware(hw[1..])
  }

  // Two digits a byte, the high one first.
  lemma {:induction false} HexText(hw: seq<byte>, i: nat)
    requires i < |hw|
    ensures Hex(hw)[2 * i] == "0123456789abcdef"[hw[i] / 16] && Hex(hw)[2 * i + 1] == "0123456789abcdef"[hw[i] % 16]
  {
    if i > 0 {
      HexText(hw[1..], i - 1);
      hide HexDigit;
    }
  }

  // The digits of every byte, with colons between bytes.
  lemma {:induction false} PrintedText(hw: seq<byte>, i: nat)
    requires i < |hw|
    ensures |PrintHardware(hw)| == 3 * |hw| - 1
    ensures PrintHardware(hw)[3 * i] == Hex(hw)[2 * i] && PrintHardware(hw)[3 * i + 1] == Hex(hw)[2 * i + 1]
    ensures i + 1 < |hw| ==> PrintHardware(hw)[3 * i + 2] == ':'
  {
    hide HexDigit;
    if |hw| > 1 {
      PrintedText(hw[1..], if i == 0 then 0 else i - 1);
      HexOfOne(hw);
      var first, rest := Hex(hw[..1]), PrintHardware(hw[1..]);
      assert PrintHardware(hw) == first + ":" + rest && Hex(hw) == first + Hex(hw[1..]);
      hide Hex, PrintHardware;
      if i > 0 {
        assert (first + ":" + rest)[3 * i] == rest[3 * (i - 1)] && (first + ":" + rest)[3 * i + 1] == rest[3 * (i - 1) + 1];
      }
    }
  }

  lemma HexOfOne(hw: seq<byte>)
    requires hw != []
    ensures Hex(hw[..1]) == [HexDigit(hw[0] / 16), HexDigit(hw[0] % 16)]
  {
    assert hw[..1] == [hw[0]] && [hw[0]][1..] == [];
  }

  lemma {:induction false} HexInjective(x: seq<byte>, y: seq<byte>)
    requires Hex(x) == Hex(y)
    ensures x == y
  {
    if x == [] || y == [] {
      assert |Hex(x)| == |Hex(y)|;
    } else {
      assert Hex(x)[0] == Hex(y)[0] && Hex(x)[1] == Hex(y)[1];
      assert Hex(x)[2..] == Hex(x[1..]) && Hex(y)[2..] == Hex(y[1..]);
      HexInjective(x[1..], y[1..]);
      assert x == [x[0]] + x[1..] && y == [y[0]] + y[1..];
    }
  }

  lemma {:induction false} NormalizePrinted(hw: seq<byte>)
    ensures NormalizeMAC(PrintHardware(hw)) == Hex(hw)
  {
    if |hw| == 1 {
      NormalizeFixedPoint(Hex(hw));
    } else if |hw| > 1 {
      NormalizePrinted(hw[1..]);
      NormalizeFixedPoint(Hex(hw[..1]));
      NormalizeConcat(Hex(hw[..1]) + ":", PrintHardware(hw[1..]));
      NormalizeConcat(Hex(hw[..1]), ":");
      assert ":"[1..] == "";
      assert NormalizeMAC(":") == "";
      assert Hex(hw[..1]) == [HexDigit(hw[0] / 16), HexDigit(hw[0] % 16)] + Hex(hw[..1][1..]);
    }
  }

  // The record key tells hardware addresses apart, and it is a valid MAC exactly for six bytes.
  lemma HardwareKeyInjective(x: seq<byte>, y: seq<byte>)
    ensures NormalizeMAC(PrintHardware(x)) == NormalizeMAC(PrintHardware(y)) <==> x == y
    ensures IsValidMAC(PrintHardware(x)) <==> |x| == 6
  {
    NormalizePrinted(x);
    NormalizePrinted(y);
    if Hex(x) == Hex(y) {
      HexInjective(x, y);
    }
  }
}
