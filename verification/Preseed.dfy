/** The installer's network settings: printed into the boot script's query, read back for the preseed file. */
module Preseed {
  import opened Results
  import opened Text
  import opened Mac
  import opened Nodes
  import opened Store

  datatype NetConfig = NetConfig(ip: string, netmask: string, gateway: string, dns: string)

  function Recorded(node: Record): NetConfig { NetConfig(node.ip, node.netmask, node.gateway, node.dns) }

  // ---- the query that the install script carries ----

  function Field(name: string, value: string): seq<string>
  {
    if value == "" then [] else [name + ['='] + value]
  }

  function Fields(c: NetConfig): seq<string>
  {
    Field("ip", c.ip) + (Field("netmask", c.netmask) + (Field("gateway", c.gateway) + Field("dns", c.dns)))
  }

  // What the install script appends to the preseed address: nothing for a node without an address.
  function Printed(node: Record): string
  {
    if node.ip == "" then "" else "?" + Join(Fields(Recorded(node)), '&')
  }

  // A field of the record that is printed only when it holds something.
  function Optional(before: string, value: string): string { if value == "" then "" else before + value }

  lemma PrintedText(node: Record)
    ensures Printed(node)
         == if node.ip == "" then ""
            else "?ip=" + node.ip
                 + (Optional("&netmask=", node.netmask)
                    + (Optional("&gateway=", node.gateway) + Optional("&dns=", node.dns)))
  {
    if node.ip != "" {
      var f3 := Field("dns", node.dns);
      var f2 := Field("gateway", node.gateway) + f3;
      var f1 := Field("netmask", node.netmask) + f2;
      ParameterNames();
      var first := "ip" + ['='] + node.ip;
      assert Fields(Recorded(node)) == [first] + f1 && "?" + first == "?ip=" + node.ip;
      hide Field, Join, Continued, Optional;
      FieldText("netmask", "&netmask=", node.netmask, f2);
      FieldText("gateway", "&gateway=", node.gateway, f3);
      FieldText("dns", "&dns=", node.dns, []);
      NothingContinued('&');
      assert f3 + [] == f3;
      JoinContinued(first, f1, '&');
      assert "?" + (first + Continued(f1, '&')) == "?" + first + Continued(f1, '&');
    }
  }

  lemma ParameterNames()
    ensures "&netmask=" == "&" + "netmask" + "=" && "&gateway=" == "&" + "gateway" + "=" && "&dns=" == "&" + "dns" + "="
    ensures "ip" + ['='] == "ip="
  {
  }

  lemma NothingContinued(sep: char)
    ensures Continued([], sep) == ""
  {
  }

  lemma FieldText(name: string, before: string, value: string, rest: seq<string>)
    requires before == "&" + name + "="
    ensures Continued(Field(name, value) + rest, '&') == Optional(before, value) + Continued(rest, '&')
  {
    if value == "" {
      assert Field(name, value) + rest == rest;
    } else {
      ContinuedPiece(name + ['='] + value, rest, '&');
      assert ['&'] + (name + ['='] + value) == before + value;
    }
  }

  // The parameters are appended one by one.
  method NetParams(node: Record) returns (params: string)
    ensures params == Printed(node)
    ensures params
         == if node.ip == "" then ""
            else "?ip=" + node.ip
                 + (Optional("&netmask=", node.netmask)
                    + (Optional("&gateway=", node.gateway) + Optional("&dns=", node.dns)))
  {
    PrintedText(node);
    params := "";
    if node.ip != "" {
      hide Join;
      ghost var fields := [['i', 'p', '='] + node.ip];
      JoinOne(fields[0], '&');
      params := "?" + (['i', 'p', '='] + node.ip);
      params, fields := AddParam(params, "netmask", node.netmask, fields);
      params, fields := AddParam(params, "gateway", node.gateway, fields);
      params, fields := AddParam(params, "dns", node.dns, fields);
      assert "ip" + ['='] == ['i', 'p', '='];
      assert fields == Fields(Recorded(node));
    }
  }

  lemma JoinOne(part: string, sep: char)
    ensures Join([part], sep) == part
  {
  }

  // One optional parameter of the script.
  method AddParam(before: string, name: string, value: string, ghost fields: seq<string>)
    returns (params: string, ghost more: seq<string>)
    requires fields != [] && before == "?" + Join(fields, '&')
    ensures more == fields + Field(name, value) && params == "?" + Join(more, '&')
  {
    params := before;
    more := fields + Field(name, value);
    if value != "" {
      JoinAppend(fields, name + ['='] + value, '&');
      params := params + (['&'] + (name + ['='] + value));
      hide Join;
      var text, part := Join(fields, '&'), name + ['='] + value;
      assert "?" + text + (['&'] + part) == "?" + (text + ['&'] + part);
    } else {
      assert more == fields;
    }
  }

  // ---- reading a query (net/url) ----

  // The query of an address suffix: what follows the question mark, up to a fragment.
  function RawQuery(suffix: string): string
  {
    if suffix == "" then "" else Split(suffix[1..], '#')[0]
  }

  function HexValue(c: char): int
    requires IsHex(c)
  {
    if c <= '9' then c as int - '0' as int else Lower(c) as int - 'a' as int + 10
  }

  // url.QueryUnescape: None for a percent sign without two hexadecimal digits.
  function Unescape(s: string): Option<string>
  {
    if s == "" then Some("")
    else if s[0] == '%' then
      if |s| < 3 || !IsHex(s[1]) || !IsHex(s[2]) then None
      else
        match Unescape(s[3..])
        case None => None
        case Some(t) => Some([(16 * HexValue(s[1]) + HexValue(s[2])) as char] + t)
    else
      match Unescape(s[1..])
      case None => None
      case Some(t) => Some([if s[0] == '+' then ' ' else s[0]] + t)
  }

  // One piece between ampersands: nothing for an empty piece, one with a semicolon, or one that cannot be unescaped.
  function Pair(piece: string): Option<(string, string)>
  {
    if piece == "" || ';' in piece then None
    else
      var (k, v) :=
        if '=' in piece then (piece[..IndexOf(piece, '=')], piece[IndexOf(piece, '=') + 1..]) else (piece, "");
      match (Unescape(k), Unescape(v))
      case (Some(key), Some(value)) => Some((key, value))
      case _ => None
  }

  // Values.Get: the first value of a key, or the empty string.
  function Get(pieces: seq<string>, key: string): string
  {
    if pieces == [] then ""
    else
      match Pair(pieces[0])
      case Some(pair) => if pair.0 == key then pair.1 else Get(pieces[1..], key)
      case None => Get(pieces[1..], key)
  }

  function QueryGet(query: string, key: string): string { Get(Split(query, '&'), key) }

  // ---- the preseed file ----

  // The source of the network settings: the query if it names an address, else the record if it has one.
  function Chosen(node: Record, query: string): NetConfig
  {
    if QueryGet(query, "ip") == "" && node.ip != "" then Recorded(node)
    else NetConfig(QueryGet(query, "ip"), QueryGet(query, "netmask"), QueryGet(query, "gateway"), QueryGet(query, "dns"))
  }

  function Prefix(key: string): string { "d-i netcfg/" + key + " " }

  function Line(key: string, value: string): seq<string>
  {
    if value == "" then [] else [Prefix(key) + value]
  }

  // The lines of the network section, after the empty first line.
  function SectionLines(c: NetConfig): seq<string>
  {
    if c.ip == "" then
      ["", "# DHCP network configuration (default)"] + Line("disable_dhcp boolean", "false")
    else
      ["", "# Static network configuration"]
      + (Line("disable_autoconfig boolean", "true") + (Line("disable_dhcp boolean", "true") + StaticLines(c)))
  }

  function StaticLines(c: NetConfig): seq<string>
  {
    Line("get_ipaddress string", c.ip)
    + (Line("get_netmask string", c.netmask)
       + (Line("get_gateway string", c.gateway)
          + (Line("get_nameservers string", c.dns) + Line("confirm_static boolean", "true"))))
  }

  function Hostname(node: Record): string { if node.hostname != "" then node.hostname else "node-" + node.mac }

  // The fixed text around the host name and the network section is a parameter.
  datatype Template = Template(head: string, middle: string, tail: string)

  function Render(t: Template, hostname: string, lines: seq<string>): string
  {
    t.head + hostname + t.middle + Join(lines, '\n') + t.tail
  }

  // One more line of the section, unless its value is empty.
  method AddSetting(before: string, key: string, value: string, ghost lines: seq<string>)
    returns (section: string, ghost more: seq<string>)
    requires lines != [] && before == Join(lines, '\n')
    ensures more == lines + Line(key, value) && section == Join(more, '\n')
  {
    section, more := before, lines + Line(key, value);
    if value != "" {
      JoinAppend(lines, Prefix(key) + value, '\n');
      section := before + ['\n'] + (Prefix(key) + value);
    } else {
      assert more == lines;
    }
  }

  lemma HeadingText(heading: string)
    ensures Join(["", heading], '\n') == ['\n'] + heading
  {
    assert ["", heading][1..] == [heading];
    assert "" + ['\n'] + heading == ['\n'] + heading;
  }

  // The text of one line, or nothing for an empty value.
  function LineOf(key: string, value: string): string
  {
    if value == "" then "" else "\n" + ("d-i netcfg/" + key + " " + value)
  }

  // The text of the section: with an address, the settings that hold something; without, the line that asks for DHCP.
  function NetworkText(ip: string, netmask: string, gateway: string, dns: string): string
  {
    if ip == "" then "\n" + "# DHCP network configuration (default)" + LineOf("disable_dhcp boolean", "false")
    else
      "\n" + "# Static network configuration"
      + (LineOf("disable_autoconfig boolean", "true")
         + (LineOf("disable_dhcp boolean", "true")
            + (LineOf("get_ipaddress string", ip)
               + (LineOf("get_netmask string", netmask)
                  + (LineOf("get_gateway string", gateway)
                     + (LineOf("get_nameservers string", dns) + LineOf("confirm_static boolean", "true")))))))
  }

  lemma LineText(key: string, value: string, rest: seq<string>)
    ensures Continued(Line(key, value) + rest, '\n') == LineOf(key, value) + Continued(rest, '\n')
  {
    if value == "" {
      assert Line(key, value) + rest == rest;
    } else {
      ContinuedPiece(Prefix(key) + value, rest, '\n');
    }
  }

  lemma HeadedText(heading: string, rest: seq<string>)
    ensures Join(["", heading] + rest, '\n') == "\n" + heading + Continued(rest, '\n')
  {
    assert ["", heading] + rest == [""] + ([heading] + rest);
    hide Join, Continued;
    JoinContinued("", [heading] + rest, '\n');
    ContinuedPiece(heading, rest, '\n');
    assert "" + (['\n'] + heading + Continued(rest, '\n')) == "\n" + heading + Continued(rest, '\n');
  }

  lemma StaticText(c: NetConfig)
    ensures Continued(StaticLines(c), '\n')
         == LineOf("get_ipaddress string", c.ip)
            + (LineOf("get_netmask string", c.netmask)
               + (LineOf("get_gateway string", c.gateway)
                  + (LineOf("get_nameservers string", c.dns) + LineOf("confirm_static boolean", "true"))))
  {
    var l4 := Line("confirm_static boolean", "true");
    var l3 := Line("get_nameservers string", c.dns) + l4;
    var l2 := Line("get_gateway string", c.gateway) + l3;
    var l1 := Line("get_netmask string", c.netmask) + l2;
    assert l4 + [] == l4;
    hide Line, LineOf, Continued;
    NothingContinued('\n');
    LineText("get_ipaddress string", c.ip, l1);
    LineText("get_netmask string", c.netmask, l2);
    LineText("get_gateway string", c.gateway, l3);
    LineText("get_nameservers string", c.dns, l4);
    LineText("confirm_static boolean", "true", []);
  }

  lemma SectionText(c: NetConfig)
    ensures Join(SectionLines(c), '\n') == NetworkText(c.ip, c.netmask, c.gateway, c.dns)
  {
    hide Line, LineOf, Continued, Join, StaticLines;
    NothingContinued('\n');
    if c.ip == "" {
      var rest := Line("disable_dhcp boolean", "false");
      assert rest + [] == rest;
      HeadedText("# DHCP network configuration (default)", rest);
      LineText("disable_dhcp boolean", "false", []);
    } else {
      var rest := Line("disable_dhcp boolean", "true") + StaticLines(c);
      StaticText(c);
      HeadedText("# Static network configuration", Line("disable_autoconfig boolean", "true") + rest);
      LineText("disable_autoconfig boolean", "true", rest);
      LineText("disable_dhcp boolean", "true", StaticLines(c));
    }
  }

  method NetworkSection(c: NetConfig) returns (section: string)
    ensures section == Join(SectionLines(c), '\n') == NetworkText(c.ip, c.netmask, c.gateway, c.dns)
  {
    SectionText(c);
    hide Join, Line, NetworkText;
    ghost var lines;
    if c.ip != "" {
      HeadingText("# Static network configuration");
      section, lines := ['\n'] + "# Static network configuration", ["", "# Static network configuration"];
      section, lines := AddSetting(section, "disable_autoconfig boolean", "true", lines);
      section, lines := AddSetting(section, "disable_dhcp boolean", "true", lines);
      section, lines := AddSetting(section, "get_ipaddress string", c.ip, lines);
      section, lines := AddSetting(section, "get_netmask string", c.netmask, lines);
      section, lines := AddSetting(section, "get_gateway string", c.gateway, lines);
      section, lines := AddSetting(section, "get_nameservers string", c.dns, lines);
      section, lines := AddSetting(section, "confirm_static boolean", "true", lines);
    } else {
      HeadingText("# DHCP network configuration (default)");
      section, lines := ['\n'] + "# DHCP network configuration (default)", ["", "# DHCP network configuration (default)"];
      section, lines := AddSetting(section, "disable_dhcp boolean", "false", lines);
    }
    assert lines == SectionLines(c);
  }

  // The preseed file of a known node; nothing for an unknown one.
  method GenerateWithQuery(store: Bucket, mac: string, query: string, t: Template) returns (preseed: Option<string>)
    ensures preseed == match Find(store, mac)
                       case None => None
                       case Some(node) => Some(Render(t, Hostname(node), SectionLines(Chosen(node, query))))
    ensures preseed == match Find(store, mac)
                       case None => None
                       case Some(node) =>
                         var section :=
                           if QueryGet(query, "ip") == "" && node.ip != "" then
                             NetworkText(node.ip, node.netmask, node.gateway, node.dns)
                           else
                             NetworkText(QueryGet(query, "ip"), QueryGet(query, "netmask"), QueryGet(query, "gateway"),
                                         QueryGet(query, "dns"));
                         Some(t.head + (if node.hostname != "" then node.hostname else "node-" + node.mac) + t.middle
                              + section + t.tail)
  {
    hide Join, Get, Split, Line, SectionLines, NormalizeMAC, NetworkText, QueryGet;
    var node := Find(store, mac);
    if node.None? {
      return None;
    }
    SectionText(Chosen(node.value, query));
    var ip, netmask, gateway, dns :=
      QueryGet(query, "ip"), QueryGet(query, "netmask"), QueryGet(query, "gateway"), QueryGet(query, "dns");
    if ip == "" && node.value.ip != "" {
      ip := node.value.ip;
      netmask := node.value.netmask;
      gateway := node.value.gateway;
      dns := node.value.dns;
    }
    var section := NetworkSection(NetConfig(ip, netmask, gateway, dns));
    preseed := Some(t.head + Hostname(node.value) + t.middle + section + t.tail);
  }

  // ---- reading the section back ----

  // What the installer finds for a key: the rest of the first line that starts with its prefix.
  function Setting(lines: seq<string>, key: string): string
  {
    if lines == [] then ""
    else if Prefix(key) <= lines[0] then lines[0][|Prefix(key)|..]
    else Setting(lines[1..], key)
  }

  // Keys that differ at the first, fifth or sixth character.
  predicate Apart(k: string, l: string)
  {
    |k| > 5 && |l| > 5 && (k[0] != l[0] || k[4] != l[4] || k[5] != l[5])
  }

  lemma PrefixCharacters(key: string, rest: string, i: nat)
    requires i < |key|
    ensures |Prefix(key)| == |key| + 12 && (Prefix(key) + rest)[11 + i] == key[i] && Prefix(key)[0] == 'd'
  {
  }

  lemma SettingOfLine(key: string, other: string, value: string, rest: seq<string>)
    requires key == other || Apart(key, other)
    ensures Setting(Line(other, value) + rest, key) == if key == other && value != "" then value else Setting(rest, key)
  {
    hide Prefix;
    if value == "" {
      assert Line(other, value) + rest == rest;
    } else {
      var line := Prefix(other) + value;
      assert (Line(other, value) + rest)[0] == line && (Line(other, value) + rest)[1..] == rest;
      if key == other {
        assert line[|Prefix(key)|..] == value;
      } else {
        LinesApart(key, other, value);
      }
    }
  }

  lemma LinesApart(key: string, other: string, value: string)
    requires Apart(key, other)
    ensures !(Prefix(key) <= Prefix(other) + value)
  {
    hide Prefix;
    var i := if key[0] != other[0] then 0 else if key[4] != other[4] then 4 else 5;
    PrefixCharacters(key, "", i);
    assert Prefix(key) + "" == Prefix(key);
    PrefixCharacters(other, value, i);
  }

  lemma SettingOfHeading(heading: string, rest: seq<string>, key: string)
    requires heading != "" && heading[0] == '#'
    ensures Setting(["", heading] + rest, key) == Setting(rest, key)
  {
    var lines := ["", heading] + rest;
    assert lines[1..] == [heading] + rest && lines[1..][1..] == rest;
    if key != "" {
      PrefixCharacters(key, "", 0);
    }
  }

  // The four keys that the installer reads, and their values.
  function Value(c: NetConfig, key: string): string
  {
    if c.ip == "" then ""
    else if key == "get_ipaddress string" then c.ip
    else if key == "get_netmask string" then c.netmask
    else if key == "get_gateway string" then c.gateway
    else c.dns
  }

  predicate IsKey(key: string)
  {
    key == "get_ipaddress string" || key == "get_netmask string" || key == "get_gateway string"
    || key == "get_nameservers string"
  }

  lemma KeysApart(key: string)
    requires IsKey(key)
    ensures Apart(key, "disable_autoconfig boolean") && Apart(key, "disable_dhcp boolean")
    ensures Apart(key, "confirm_static boolean")
    ensures key == "get_ipaddress string" || Apart(key, "get_ipaddress string")
    ensures key == "get_netmask string" || Apart(key, "get_netmask string")
    ensures key == "get_gateway string" || Apart(key, "get_gateway string")
    ensures key == "get_nameservers string" || Apart(key, "get_nameservers string")
  {
  }

  lemma SettingOfStatic(c: NetConfig, key: string)
    requires IsKey(key) && c.ip != ""
    ensures Setting(StaticLines(c), key) == Value(c, key)
  {
    KeysApart(key);
    hide Line, Setting, Apart;
    var l4 := Line("confirm_static boolean", "true");
    var l3 := Line("get_nameservers string", c.dns) + l4;
    var l2 := Line("get_gateway string", c.gateway) + l3;
    var l1 := Line("get_netmask string", c.netmask) + l2;
    SettingOfLine(key, "get_ipaddress string", c.ip, l1);
    SettingOfLine(key, "get_netmask string", c.netmask, l2);
    SettingOfLine(key, "get_gateway string", c.gateway, l3);
    SettingOfLine(key, "get_nameservers string", c.dns, l4);
    SettingOfLine(key, "confirm_static boolean", "true", []);
    assert l4 + [] == l4;
    NoSetting(key);
  }

  lemma NoSetting(key: string)
    ensures Setting([], key) == ""
  {
  }

  lemma SettingOfSection(c: NetConfig, key: string)
    requires IsKey(key)
    ensures Setting(SectionLines(c), key) == Value(c, key)
  {
    KeysApart(key);
    hide Line, Setting, Apart, StaticLines;
    NoSetting(key);
    if c.ip == "" {
      var rest := Line("disable_dhcp boolean", "false");
      SettingOfHeading("# DHCP network configuration (default)", rest, key);
      SettingOfLine(key, "disable_dhcp boolean", "false", []);
      assert rest + [] == rest;
    } else {
      SettingOfStatic(c, key);
      var rest := Line("disable_dhcp boolean", "true") + StaticLines(c);
      SettingOfHeading("# Static network configuration", Line("disable_autoconfig boolean", "true") + rest, key);
      SettingOfLine(key, "disable_autoconfig boolean", "true", rest);
      SettingOfLine(key, "disable_dhcp boolean", "true", StaticLines(c));
    }
  }

  // What the installer finds in the section for a record and a query: the query's settings when it names an address,
  // whatever the record holds; else the record's, when it has an address; else none.
  lemma SettingsFound(node: Record, query: string)
    ensures var lines := SectionLines(Chosen(node, query));
            var ip, netmask, gateway, dns :=
              Setting(lines, "get_ipaddress string"), Setting(lines, "get_netmask string"),
              Setting(lines, "get_gateway string"), Setting(lines, "get_nameservers string");
            if QueryGet(query, "ip") != "" then
              && ip == QueryGet(query, "ip") && netmask == QueryGet(query, "netmask")
              && gateway == QueryGet(query, "gateway") && dns == QueryGet(query, "dns")
            else if node.ip != "" then
              ip == node.ip && netmask == node.netmask && gateway == node.gateway && dns == node.dns
            else
              ip == netmask == gateway == dns == ""
  {
    var c := Chosen(node, query);
    SettingOfSection(c, "get_ipaddress string");
    SettingOfSection(c, "get_netmask string");
    SettingOfSection(c, "get_gateway string");
    SettingOfSection(c, "get_nameservers string");
    hide Setting, SectionLines, QueryGet;
  }

  predicate OneLine(c: NetConfig)
  {
    '\n' !in c.ip && '\n' !in c.netmask && '\n' !in c.gateway && '\n' !in c.dns
  }

  predicate AllOneLine(lines: seq<string>) { forall l | l in lines :: '\n' !in l }

  lemma LineThenRest(key: string, value: string, rest: seq<string>)
    requires '\n' !in key && '\n' !in value && AllOneLine(rest)
    ensures AllOneLine(Line(key, value) + rest)
  {
  }

  lemma HeadingThenRest(heading: string, rest: seq<string>)
    requires '\n' !in heading && AllOneLine(rest)
    ensures AllOneLine(["", heading] + rest)
  {
  }

  lemma StaticIsLines(c: NetConfig)
    requires OneLine(c)
    ensures AllOneLine(StaticLines(c))
  {
    hide Line, AllOneLine;
    var l4 := Line("confirm_static boolean", "true");
    var l3 := Line("get_nameservers string", c.dns) + l4;
    var l2 := Line("get_gateway string", c.gateway) + l3;
    var l1 := Line("get_netmask string", c.netmask) + l2;
    NoLines();
    LineThenRest("confirm_static boolean", "true", []);
    assert l4 + [] == l4;
    LineThenRest("get_nameservers string", c.dns, l4);
    LineThenRest("get_gateway string", c.gateway, l3);
    LineThenRest("get_netmask string", c.netmask, l2);
    LineThenRest("get_ipaddress string", c.ip, l1);
  }

  lemma NoLines()
    ensures AllOneLine([])
  {
  }

  lemma DhcpHeading()
    ensures '\n' !in "# DHCP network configuration (default)"
  {
  }

  lemma StaticHeading()
    ensures '\n' !in "# Static network configuration"
  {
  }

  lemma DhcpIsLines()
    ensures AllOneLine(["", "# DHCP network configuration (default)"] + Line("disable_dhcp boolean", "false"))
  {
    hide Line, AllOneLine;
    NoLines();
    LineThenRest("disable_dhcp boolean", "false", []);
    assert Line("disable_dhcp boolean", "false") + [] == Line("disable_dhcp boolean", "false");
    DhcpHeading();
    HeadingThenRest("# DHCP network configuration (default)", Line("disable_dhcp boolean", "false"));
  }

  lemma StaticHeadIsLines(rest: seq<string>)
    requires AllOneLine(rest)
    ensures AllOneLine(Line("disable_autoconfig boolean", "true") + (Line("disable_dhcp boolean", "true") + rest))
  {
    hide Line, AllOneLine;
    LineThenRest("disable_dhcp boolean", "true", rest);
    LineThenRest("disable_autoconfig boolean", "true", Line("disable_dhcp boolean", "true") + rest);
  }

  lemma SectionIsLines(c: NetConfig)
    requires OneLine(c)
    ensures AllOneLine(SectionLines(c))
  {
    StaticIsLines(c);
    hide Line, StaticLines, AllOneLine, OneLine;
    DhcpIsLines();
    StaticHeadIsLines(StaticLines(c));
    StaticHeading();
    HeadingThenRest("# Static network configuration",
                    Line("disable_autoconfig boolean", "true") + (Line("disable_dhcp boolean", "true") + StaticLines(c)));
  }

  // A setting that holds nothing has no line.
  lemma SectionSize(c: NetConfig)
    ensures |SectionLines(c)|
         == if c.ip == "" then 3 else 6 + Used(c.netmask) + Used(c.gateway) + Used(c.dns)
  {
    hide Prefix;
  }

  // The text of the section gives back every setting it was made from, for values without line breaks: it is the static
  // section of exactly those settings, or the DHCP section, in which no setting is found.
  lemma SectionIsReadBack(c: NetConfig, key: string)
    requires OneLine(c) && IsKey(key)
    ensures Setting(Split(Join(SectionLines(c), '\n'), '\n'), key) == Value(c, key)
  {
    SectionIsLines(c);
    SettingOfSection(c, key);
    assert SectionLines(c) != [];
    hide SectionLines;
    SplitJoin(SectionLines(c), '\n');
  }

  // So two sections are equal exactly when they were made from the same settings, or both without an address.
  lemma SectionDeterminesSettings(c: NetConfig, d: NetConfig)
    requires OneLine(c) && OneLine(d)
    ensures Join(SectionLines(c), '\n') == Join(SectionLines(d), '\n') <==> c == d || (c.ip == "" && d.ip == "")
  {
    SectionIsReadBack(c, "get_ipaddress string");
    SectionIsReadBack(d, "get_ipaddress string");
    SectionIsReadBack(c, "get_netmask string");
    SectionIsReadBack(d, "get_netmask string");
    SectionIsReadBack(c, "get_gateway string");
    SectionIsReadBack(d, "get_gateway string");
    SectionIsReadBack(c, "get_nameservers string");
    SectionIsReadBack(d, "get_nameservers string");
    assert c.ip == "" && d.ip == "" ==> SectionLines(c) == SectionLines(d);
    hide Setting, SectionLines, Join, Split;
  }

  // ---- the round trip ----

  // A piece of the query whose value is rejected, so that the whole piece is dropped.
  predicate Dropped(value: string) { ';' in value || Unescape(value).None? }

  // A value that comes back as it was printed.
  predicate Plain(value: string) { '%' !in value && '+' !in value && ';' !in value }

  // A value that leaves the structure of the address alone.
  predicate Contained(value: string) { '&' !in value && '#' !in value }

  function ReadBack(value: string): string
  {
    if value == "" || Dropped(value) then "" else Unescape(value).value
  }

  lemma {:induction false} UnescapeSize(s: string)
    ensures Unescape(s).Some? ==> |Unescape(s).value| <= |s|
    ensures Unescape(s).Some? && |Unescape(s).value| == |s| ==> '%' !in s
    ensures s != "" && Unescape(s).Some? ==> Unescape(s).value != ""
  {
    if s != "" {
      if s[0] == '%' && |s| >= 3 {
        UnescapeSize(s[3..]);
      } else {
        UnescapeSize(s[1..]);
        assert s == [s[0]] + s[1..];
      }
    }
  }

  lemma {:induction false} UnescapeWithoutPercent(s: string)
    requires '%' !in s
    ensures Unescape(s).Some? && |Unescape(s).value| == |s|
    ensures forall i | 0 <= i < |s| :: Unescape(s).value[i] == if s[i] == '+' then ' ' else s[i]
  {
    if s != "" {
      UnescapeWithoutPercent(s[1..]);
    }
  }

  lemma UnescapesToItselfIff(s: string)
    ensures Unescape(s) == Some(s) <==> '%' !in s && '+' !in s
  {
    if '%' !in s {
      UnescapeWithoutPercent(s);
      var t := Unescape(s).value;
      if '+' in s {
        var i :| 0 <= i < |s| && s[i] == '+';
        assert t[i] != s[i];
      } else {
        assert t == s;
      }
    } else {
      UnescapeSize(s);
    }
  }

  // A field is read back as it was exactly when it is plain.
  lemma ReadBackIff(value: string)
    ensures ReadBack(value) == value <==> Plain(value)
    ensures ReadBack(value) == "" <==> value == "" || Dropped(value)
  {
    UnescapesToItselfIff(value);
    UnescapeSize(value);
  }

  // A percent sign and two hexadecimal digits, of either case, stand for the character with that number.
  lemma UnescapeOfEscape(high: nat, low: nat, rest: string)
    requires high < 16 && low < 16
    ensures var expected := match Unescape(rest)
                            case None => None
                            case Some(t) => Some([(16 * high + low) as char] + t);
            && Unescape(['%', "0123456789abcdef"[high], "0123456789abcdef"[low]] + rest) == expected
            && Unescape(['%', "0123456789ABCDEF"[high], "0123456789ABCDEF"[low]] + rest) == expected
  {
    DigitValue(high);
    DigitValue(low);
    var lower := ['%', "0123456789abcdef"[high], "0123456789abcdef"[low]] + rest;
    var upper := ['%', "0123456789ABCDEF"[high], "0123456789ABCDEF"[low]] + rest;
    assert lower[3..] == rest && upper[3..] == rest;
    hide HexValue, IsHex;
  }

  lemma DigitValue(n: nat)
    requires n < 16
    ensures IsHex("0123456789abcdef"[n]) && HexValue("0123456789abcdef"[n]) == n
    ensures IsHex("0123456789ABCDEF"[n]) && HexValue("0123456789ABCDEF"[n]) == n
  {
  }

  // A piece is cut at its first equals sign, and both sides are unescaped; without one its value is empty.
  lemma PairOf(key: string, value: string)
    requires '=' !in key && ';' !in key && ';' !in value
    ensures Pair(key + ['='] + value)
         == if Unescape(key).Some? && Unescape(value).Some? then Some((Unescape(key).value, Unescape(value).value)) else None
    ensures key != "" ==> Pair(key) == if Unescape(key).Some? then Some((Unescape(key).value, "")) else None
  {
    var piece := key + ['='] + value;
    assert piece[..|key|] == key && piece[|key|] == '=' && piece[|key| + 1..] == value;
    IndexOfIsFirst(piece, '=', |key|);
    hide IndexOf;
  }

  predicate IsName(name: string) { name != "" && forall c | c in name :: 'a' <= c <= 'z' }

  lemma PairOfField(name: string, value: string)
    requires IsName(name)
    ensures Pair(name + ['='] + value) == if Dropped(value) then None else Some((name, Unescape(value).value))
  {
    var piece := name + ['='] + value;
    assert piece[..|name|] == name && piece[|name|] == '=' && piece[|name| + 1..] == value;
    assert ';' in piece <==> ';' in value by {
      assert forall i | 0 <= i < |value| :: piece[|name| + 1 + i] == value[i];
    }
    IndexOfIsFirst(piece, '=', |name|);
    UnescapesToItselfIff(name);
  }

  // Looking a key up in a query that starts with one field.
  lemma GetField(name: string, value: string, rest: seq<string>, key: string)
    requires IsName(name)
    ensures Get(Field(name, value) + rest, key)
         == if key == name && value != "" && !Dropped(value) then Unescape(value).value else Get(rest, key)
  {
    if value == "" {
      assert Field(name, value) + rest == rest;
    } else {
      PairOfField(name, value);
      var pieces := Field(name, value) + rest;
      assert pieces[0] == name + ['='] + value && pieces[1..] == rest;
      hide Pair, Unescape;
    }
  }

  lemma GetFields(c: NetConfig)
    ensures Get(Fields(c), "ip") == ReadBack(c.ip)
    ensures Get(Fields(c), "netmask") == ReadBack(c.netmask)
    ensures Get(Fields(c), "gateway") == ReadBack(c.gateway)
    ensures Get(Fields(c), "dns") == ReadBack(c.dns)
  {
    GetOneOf(c, "ip");
    GetOneOf(c, "netmask");
    GetOneOf(c, "gateway");
    GetOneOf(c, "dns");
  }

  lemma GetOneOf(c: NetConfig, key: string)
    ensures Get(Fields(c), key)
         == if key == "ip" then ReadBack(c.ip)
            else if key == "netmask" then ReadBack(c.netmask)
            else if key == "gateway" then ReadBack(c.gateway)
            else if key == "dns" then ReadBack(c.dns)
            else ""
  {
    hide Unescape, Pair, Get, Dropped, Field;
    var f3 := Field("dns", c.dns);
    var f2 := Field("gateway", c.gateway) + f3;
    var f1 := Field("netmask", c.netmask) + f2;
    GetField("ip", c.ip, f1, key);
    GetField("netmask", c.netmask, f2, key);
    GetField("gateway", c.gateway, f3, key);
    GetField("dns", c.dns, [], key);
    assert f3 + [] == f3;
    GetNothing(key);
  }

  lemma GetNothing(key: string)
    ensures Get([], key) == ""
  {
  }

  lemma FieldsContained(c: NetConfig)
    requires Contained(c.ip) && Contained(c.netmask) && Contained(c.gateway) && Contained(c.dns)
    ensures forall p | p in Fields(c) :: Contained(p)
  {
  }

  lemma {:induction false} JoinContained(parts: seq<string>, sep: char)
    requires sep != '#' && forall p | p in parts :: '#' !in p
    ensures '#' !in Join(parts, sep)
  {
    if |parts| > 1 {
      JoinContained(parts[1..], sep);
    }
  }

  // Reading the query that was printed from a record.
  lemma PrintedQuery(c: NetConfig)
    requires c.ip != ""
    requires Contained(c.ip) && Contained(c.netmask) && Contained(c.gateway) && Contained(c.dns)
    ensures Split(RawQuery("?" + Join(Fields(c), '&')), '&') == Fields(c)
  {
    FieldsContained(c);
    var text := Join(Fields(c), '&');
    assert ("?" + text)[1..] == text;
    JoinContained(Fields(c), '&');
    assert Fields(c) != [];
    hide Fields, Join;
    SplitJoin(Fields(c), '&');
  }

  // For every record: asking for the preseed file with the query that the install script prints uses the same settings as
  // asking without a query exactly when there is no address to print, or the query as read names no address, so that the
  // record is used after all, or every field is plain and leaves the structure of the address alone.
  lemma QueryAgreesWithRecordIff(node: Record)
    ensures Chosen(node, RawQuery(Printed(node))) == Chosen(node, "")
       <==> node.ip == "" || QueryGet(RawQuery(Printed(node)), "ip") == "" || AllPlain(Recorded(node))
    ensures node.ip != "" ==> Chosen(node, "") == Recorded(node)
  {
    EmptyQuery();
    if node.ip != "" {
      var c, query := Recorded(node), RawQuery(Printed(node));
      if AllPlain(c) {
        PrintedQuery(c);
        GetFields(c);
        AllPlainReadBack(c);
      }
      hide Get, AllPlain, Fields, Join, RawQuery, Split, Unescape;
      if QueryGet(query, "ip") == c.ip && QueryGet(query, "netmask") == c.netmask
         && QueryGet(query, "gateway") == c.gateway && QueryGet(query, "dns") == c.dns {
        ReadBackIsContained(c);
        PrintedQuery(c);
        GetFields(c);
        ReadBackIsPlain(c);
      }
    }
  }

  // A record whose fields are plain and leave the structure of the query alone: each parameter comes back under its own
  // name, and the installer finds the settings that were printed, whatever record the node has by then.
  lemma PrintedFieldsComeBack(node: Record, later: Record)
    requires node.ip != ""
    requires Plain(node.ip) && Plain(node.netmask) && Plain(node.gateway) && Plain(node.dns)
    requires Contained(node.ip) && Contained(node.netmask) && Contained(node.gateway) && Contained(node.dns)
    ensures var query := RawQuery(Printed(node));
            && QueryGet(query, "ip") == node.ip && QueryGet(query, "netmask") == node.netmask
            && QueryGet(query, "gateway") == node.gateway && QueryGet(query, "dns") == node.dns
    ensures var lines := SectionLines(Chosen(later, RawQuery(Printed(node))));
            && Setting(lines, "get_ipaddress string") == node.ip
            && Setting(lines, "get_netmask string") == node.netmask
            && Setting(lines, "get_gateway string") == node.gateway
            && Setting(lines, "get_nameservers string") == node.dns
  {
    var c := Recorded(node);
    PrintedQuery(c);
    GetFields(c);
    AllPlainReadBack(c);
    SettingsFound(later, RawQuery(Printed(node)));
    hide Setting, SectionLines, Get, RawQuery, Join, Fields, ReadBack, Plain, Contained;
  }

  predicate AllContained(c: NetConfig)
  {
    Contained(c.ip) && Contained(c.netmask) && Contained(c.gateway) && Contained(c.dns)
  }

  predicate AllPlain(c: NetConfig)
  {
    AllContained(c) && Plain(c.ip) && Plain(c.netmask) && Plain(c.gateway) && Plain(c.dns)
  }

  // When no field holds & or #, the query names no address exactly when the address is dropped from it.
  lemma NamesNoAddressIff(node: Record)
    requires node.ip != "" && AllContained(Recorded(node))
    ensures QueryGet(RawQuery(Printed(node)), "ip") == "" <==> Dropped(node.ip)
  {
    PrintedQuery(Recorded(node));
    GetFields(Recorded(node));
    ReadBackIff(node.ip);
  }

  // ---- the address that a query names ----

  // Pieces without a key add nothing to what is found for it.
  lemma {:induction false} GetPrefix(a: seq<string>, b: seq<string>, key: string)
    requires Get(b, key) == ""
    ensures Get(a + b, key) == Get(a, key)
  {
    if a == [] {
      assert a + b == b;
    } else {
      assert (a + b)[1..] == a[1..] + b;
      GetPrefix(a[1..], b, key);
      hide Pair;
    }
  }

  // The fields after the address.
  function OtherFields(c: NetConfig): seq<string>
  {
    Field("netmask", c.netmask) + (Field("gateway", c.gateway) + Field("dns", c.dns))
  }

  lemma OthersNameNoAddress(c: NetConfig)
    ensures Get(OtherFields(c), "ip") == ""
  {
    GetOneOf(c.(ip := ""), "ip");
    assert Fields(c.(ip := "")) == OtherFields(c);
  }

  // When the other three fields leave the structure of the query alone, the address that it names depends on the record's
  // own address only.
  lemma AddressAloneNames(node: Record)
    requires node.ip != "" && Contained(node.netmask) && Contained(node.gateway) && Contained(node.dns)
    ensures QueryGet(RawQuery(Printed(node)), "ip") == QueryGet(RawQuery("?ip=" + node.ip), "ip")
  {
    var c, first := Recorded(node), "ip=" + node.ip;
    assert "ip" + ['='] == "ip=" && Fields(c) == [first] + OtherFields(c);
    assert ("?ip=" + node.ip)[1..] == first;
    if OtherFields(c) == [] {
      assert Fields(c) == [first];
    } else {
      OthersNameNoAddress(c);
      OthersContained(c);
      var rest := Join(OtherFields(c), '&');
      assert ([first] + OtherFields(c))[1..] == OtherFields(c);
      assert Join(Fields(c), '&') == first + ['&'] + rest;
      assert ("?" + (first + ['&'] + rest))[1..] == first + ['&'] + rest;
      JoinContained(OtherFields(c), '&');
      hide Join, Get, OtherFields, Fields, Field;
      CutFirst(first, rest);
      if '#' !in first {
        SplitConcat(first, rest, '&');
        SplitJoin(OtherFields(c), '&');
        GetPrefix(Split(first, '&'), OtherFields(c), "ip");
      }
    }
  }

  lemma OthersContained(c: NetConfig)
    requires Contained(c.netmask) && Contained(c.gateway) && Contained(c.dns)
    ensures forall p | p in OtherFields(c) :: Contained(p)
  {
    FieldsContained(c.(ip := ""));
    assert Fields(c.(ip := "")) == OtherFields(c);
  }

  // Only what stands before the first fragment sign is read.
  lemma CutFirst(first: string, rest: string)
    requires '#' !in rest
    ensures Split(first + ['&'] + rest, '#')[0]
         == if '#' in first then Split(first, '#')[0] else first + ['&'] + rest
    ensures '#' !in first ==> Split(first, '#')[0] == first
  {
    hide Split;
    if '#' in first {
      CutInside(first, ['&'] + rest);
      assert first + (['&'] + rest) == first + ['&'] + rest;
    } else {
      CutNowhere(first);
      CutNowhere(first + ['&'] + rest);
    }
  }

  lemma CutInside(first: string, rest: string)
    requires '#' in first
    ensures Split(first + rest, '#')[0] == Split(first, '#')[0]
  {
    var i := IndexOf(first, '#');
    assert (first + rest)[..i] == first[..i];
    hide Split, IndexOf;
    SplitAt(first + rest, '#', i);
    SplitAt(first, '#', i);
  }

  lemma CutNowhere(text: string)
    requires '#' !in text
    ensures Split(text, '#')[0] == text
  {
  }

  lemma AllPlainReadBack(c: NetConfig)
    requires AllPlain(c)
    ensures ReadBack(c.ip) == c.ip && ReadBack(c.netmask) == c.netmask
    ensures ReadBack(c.gateway) == c.gateway && ReadBack(c.dns) == c.dns
  {
    ReadBackIff(c.ip);
    ReadBackIff(c.netmask);
    ReadBackIff(c.gateway);
    ReadBackIff(c.dns);
  }

  lemma ReadBackIsPlain(c: NetConfig)
    requires AllContained(c)
    requires ReadBack(c.ip) == c.ip && ReadBack(c.netmask) == c.netmask
    requires ReadBack(c.gateway) == c.gateway && ReadBack(c.dns) == c.dns
    ensures AllPlain(c)
  {
    ReadBackIff(c.ip);
    ReadBackIff(c.netmask);
    ReadBackIff(c.gateway);
    ReadBackIff(c.dns);
  }

  // ---- a field with & or # never comes back: there are not enough characters in the query ----

  function Total(pieces: seq<string>): nat
  {
    if pieces == [] then 0 else |pieces[0]| + Total(pieces[1..])
  }

  // The characters that a piece with this key and value takes, and the pieces.
  function Cost(name: string, value: string): nat { if value == "" then 0 else |name| + 1 + |value| }

  function Used(value: string): nat { if value == "" then 0 else 1 }

  lemma {:induction false} JoinSize(parts: seq<string>, sep: char)
    requires parts != []
    ensures |Join(parts, sep)| == Total(parts) + |parts| - 1
  {
    if |parts| > 1 {
      JoinSize(parts[1..], sep);
    } else {
      assert parts[1..] == [];
    }
  }

  lemma PairSize(piece: string)
    ensures Pair(piece).Some? && Pair(piece).value.1 != "" ==>
              |Pair(piece).value.0| + 1 + |Pair(piece).value.1| <= |piece|
  {
    if '=' in piece {
      UnescapeSize(piece[..IndexOf(piece, '=')]);
      UnescapeSize(piece[IndexOf(piece, '=') + 1..]);
    }
  }

  function CostOf(pieces: seq<string>): nat
  {
    Cost("ip", Get(pieces, "ip")) + Cost("netmask", Get(pieces, "netmask"))
    + Cost("gateway", Get(pieces, "gateway")) + Cost("dns", Get(pieces, "dns"))
  }

  function UsedBy(pieces: seq<string>): nat
  {
    Used(Get(pieces, "ip")) + Used(Get(pieces, "netmask")) + Used(Get(pieces, "gateway")) + Used(Get(pieces, "dns"))
  }

  // The four values come out of different pieces, so they are no longer than the pieces, and no more of them.
  lemma {:induction false} ValuesFitPieces(pieces: seq<string>)
    ensures CostOf(pieces) <= Total(pieces) && UsedBy(pieces) <= |pieces|
  {
    if pieces != [] {
      ValuesFitPieces(pieces[1..]);
      PairSize(pieces[0]);
      hide Pair;
    }
  }

  lemma FieldsSize(c: NetConfig)
    ensures Total(Fields(c))
         == Cost("ip", c.ip) + Cost("netmask", c.netmask) + Cost("gateway", c.gateway) + Cost("dns", c.dns)
    ensures |Fields(c)| == Used(c.ip) + Used(c.netmask) + Used(c.gateway) + Used(c.dns)
  {
    hide Field;
    var f3 := Field("dns", c.dns);
    var f2 := Field("gateway", c.gateway) + f3;
    var f1 := Field("netmask", c.netmask) + f2;
    FieldSize("ip", c.ip, f1);
    FieldSize("netmask", c.netmask, f2);
    FieldSize("gateway", c.gateway, f3);
    FieldSize("dns", c.dns, []);
    assert f3 + [] == f3;
  }

  lemma FieldSize(name: string, value: string, rest: seq<string>)
    ensures Total(Field(name, value) + rest) == Cost(name, value) + Total(rest)
    ensures |Field(name, value)| == Used(value)
  {
    if value == "" {
      assert Field(name, value) + rest == rest;
    } else {
      assert (Field(name, value) + rest)[1..] == rest;
    }
  }

  lemma CutSize(text: string)
    ensures |Split(text, '#')[0]| <= |text|
    ensures |Split(text, '#')[0]| == |text| ==> '#' !in text && Split(text, '#')[0] == text
  {
  }

  lemma {:induction false} JoinHolds(parts: seq<string>, sep: char, p: string, c: char)
    requires p in parts && c in p
    ensures c in Join(parts, sep)
  {
    if |parts| > 1 {
      assert parts == [parts[0]] + parts[1..];
      if p != parts[0] {
        JoinHolds(parts[1..], sep, p, c);
      }
    }
  }

  lemma FieldsHoldValues(c: NetConfig)
    requires forall p | p in Fields(c) :: Contained(p)
    ensures AllContained(c)
  {
    FieldHoldsValue("ip", c.ip, Fields(c));
    FieldHoldsValue("netmask", c.netmask, Fields(c));
    FieldHoldsValue("gateway", c.gateway, Fields(c));
    FieldHoldsValue("dns", c.dns, Fields(c));
  }

  lemma FieldHoldsValue(name: string, value: string, pieces: seq<string>)
    requires forall p | p in Field(name, value) :: p in pieces
    requires forall p | p in pieces :: Contained(p)
    ensures Contained(value)
  {
    if value != "" {
      var p := name + ['='] + value;
      assert p in Field(name, value);
      assert forall c | c in value :: c in p;
    }
  }

  lemma ReadBackIsContained(c: NetConfig)
    requires c.ip != ""
    requires var pieces := Split(RawQuery("?" + Join(Fields(c), '&')), '&');
             c == NetConfig(Get(pieces, "ip"), Get(pieces, "netmask"), Get(pieces, "gateway"), Get(pieces, "dns"))
    ensures AllContained(c)
  {
    var fields, text := Fields(c), Join(Fields(c), '&');
    assert ("?" + text)[1..] == text;
    var query := Split(text, '#')[0];
    var pieces := Split(query, '&');
    ValuesFitPieces(pieces);
    FieldsSize(c);
    hide Get, Fields, Join, Split;
    JoinSize(fields, '&');
    JoinSize(pieces, '&');
    JoinSplit(query, '&');
    CutSize(text);
    assert |pieces| == |fields| && query == text;
    SplitJoinCount(fields, '&');
    forall p | p in fields
      ensures Contained(p)
    {
      if '#' in p {
        JoinHolds(fields, '&', p, '#');
      }
    }
    FieldsHoldValues(c);
  }

  lemma EmptyQuery()
    ensures QueryGet("", "ip") == ""
  {
  }
}
