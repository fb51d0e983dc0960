/** The comma-separated list of name servers: parsed from the configuration, joined again into the node record. */
module DnsList {
  import opened Text
  import opened Ipv4
  import opened Handlers

  // unicode.IsSpace.
  predicate IsSpace(c: char)
  {
    '\t' <= c <= '\r' || c == ' ' || c == '\U{85}' || c == '\U{A0}' || c == '\U{1680}' || '\U{2000}' <= c <= '\U{200A}'
    || c == '\U{2028}' || c == '\U{2029}' || c == '\U{202F}' || c == '\U{205F}' || c == '\U{3000}'
  }

  predicate IsTrimmed(s: string) { s == "" || (!IsSpace(s[0]) && !IsSpace(s[|s| - 1])) }

  // strings.TrimSpace.
  function Trim(s: string): (t: string)
    ensures IsTrimmed(t)
    ensures IsTrimmed(s) ==> t == s
    ensures forall c | c in t :: c in s
  {
    if s == "" then ""
    else if IsSpace(s[0]) then Trim(s[1..])
    else if IsSpace(s[|s| - 1]) then Trim(s[..|s| - 1])
    else s
  }

  lemma IsSpaceIff(c: char)
    ensures IsSpace(c) <==> c in "\t\n\U{B}\U{C}\r \U{85}\U{A0}\U{1680}" || '\U{2000}' <= c <= '\U{200A}'
                            || c in "\U{2028}\U{2029}\U{202F}\U{205F}\U{3000}"
  {
  }

  predicate AllSpaces(s: string) { forall c | c in s :: IsSpace(c) }

  // The text stands in the piece, with nothing but white space around it.
  ghost predicate Pads(piece: string, text: string)
  {
    exists a, b :: AllSpaces(a) && AllSpaces(b) && piece == a + text + b
  }

  // Whatever white space surrounds a trimmed text is what trimming takes away.
  lemma {:induction false} TrimPadded(a: string, t: string, b: string)
    requires AllSpaces(a) && AllSpaces(b) && IsTrimmed(t)
    ensures Trim(a + t + b) == t
    decreases |a| + |b|
  {
    var s := a + t + b;
    if a != "" {
      assert s[1..] == a[1..] + t + b && s[0] == a[0];
      TrimPadded(a[1..], t, b);
    } else if b != "" {
      var n := |b| - 1;
      assert s[..|s| - 1] == a + t + b[..n] && s[|s| - 1] == b[n];
      TrimPadded(a, t, b[..n]);
      if t == "" {
        TrimPadded("", "", b[1..]);
        assert s[1..] == "" + "" + b[1..];
      }
    } else {
      assert s == t;
    }
  }

  lemma PadsGrows(c: char, piece: string, text: string)
    requires IsSpace(c) && Pads(piece, text)
    ensures Pads([c] + piece, text) && Pads(piece + [c], text)
  {
    hide IsSpace;
    var a, b :| AllSpaces(a) && AllSpaces(b) && piece == a + text + b;
    assert [c] + piece == ([c] + a) + text + b && AllSpaces([c] + a);
    assert piece + [c] == a + text + (b + [c]) && AllSpaces(b + [c]);
  }

  lemma {:induction false} TrimPads(s: string)
    ensures Pads(s, Trim(s))
    decreases |s|
  {
    if s != "" && IsSpace(s[0]) {
      TrimPads(s[1..]);
      PadsGrows(s[0], s[1..], Trim(s));
      assert s == [s[0]] + s[1..];
    } else if s != "" && IsSpace(s[|s| - 1]) {
      var n := |s| - 1;
      TrimPads(s[..n]);
      PadsGrows(s[n], s[..n], Trim(s));
      assert s == s[..n] + [s[n]];
    } else {
      assert AllSpaces("") && s == "" + Trim(s) + "";
    }
  }

  // So trimming is the one way to take a text apart into white space, a trimmed text and white space.
  lemma TrimIff(s: string, t: string)
    ensures Trim(s) == t <==> IsTrimmed(t) && Pads(s, t)
  {
    TrimPads(s);
    if IsTrimmed(t) && Pads(s, t) {
      var a, b :| AllSpaces(a) && AllSpaces(b) && s == a + t + b;
      TrimPadded(a, t, b);
    }
  }

  function TrimAll(parts: seq<string>): (result: seq<string>)
    ensures forall p | p in result :: p != "" && IsTrimmed(p)
    ensures forall p, c | p in result && c in p :: exists q :: q in parts && c in q
  {
    if parts == [] then []
    else
      var front, last := TrimAll(parts[..|parts| - 1]), Trim(parts[|parts| - 1]);
      if last == "" then front else front + [last]
  }

  // What the list means: the non-empty trimmed pieces between commas.
  function Entries(s: string): seq<string>
  {
    if s == "" then [] else TrimAll(Split(s, ','))
  }

  predicate IsEntry(p: string) { p != "" && ',' !in p && IsTrimmed(p) }

  method ParseDNSList(s: string) returns (result: seq<string>)
    ensures result == Entries(s)
    ensures forall p | p in result :: IsEntry(p)
  {
    EntriesAreEntries(s);
    if s == "" {
      return [];
    }
    var parts := Split(s, ',');
    result := [];
    for i := 0 to |parts|
      invariant result == TrimAll(parts[..i])
    {
      assert parts[..i + 1][..i] == parts[..i];
      var trimmed := Trim(parts[i]);
      if trimmed != "" {
        result := result + [trimmed];
      }
    }
    assert parts[..|parts|] == parts;
  }

  lemma EntriesAreEntries(s: string)
    ensures forall p | p in Entries(s) :: IsEntry(p)
  {
  }

  lemma {:induction false} TrimAllKeepsEntries(parts: seq<string>)
    requires forall p | p in parts :: p != "" && IsTrimmed(p)
    ensures TrimAll(parts) == parts
  {
    if parts != [] {
      var n := |parts| - 1;
      assert forall p | p in parts[..n] :: p in parts;
      TrimAllKeepsEntries(parts[..n]);
      assert parts[n] in parts && parts == parts[..n] + [parts[n]];
    }
  }

  // The DHCP handler's loop: a comma before every entry but the first.
  method JoinDNS(dns: seq<IPv4>) returns (dnsStr: string)
    ensures dnsStr == Join(DnsTexts(dns), ',')
  {
    dnsStr := "";
    for i := 0 to |dns|
      invariant dnsStr == Join(DnsTexts(dns)[..i], ',')
    {
      assert DnsTexts(dns)[..i + 1] == DnsTexts(dns)[..i] + [Dotted(dns[i])];
      JoinAppend(DnsTexts(dns)[..i], Dotted(dns[i]), ',');
      if i > 0 {
        dnsStr := dnsStr + ",";
      }
      dnsStr := dnsStr + Dotted(dns[i]);
    }
    assert DnsTexts(dns)[..|dns|] == DnsTexts(dns);
  }

  // Parsing undoes joining exactly for lists of non-empty, trimmed entries without commas.
  lemma ParseUndoesJoinIff(parts: seq<string>)
    ensures Entries(Join(parts, ',')) == parts <==> forall p | p in parts :: IsEntry(p)
  {
    EntriesAreEntries(Join(parts, ','));
    if parts != [] && forall p | p in parts :: IsEntry(p) {
      SplitJoin(parts, ',');
      TrimAllKeepsEntries(parts);
      assert parts[0] in parts;
      assert Join(parts, ',') != "";
    }
  }

  function NonEmpty(texts: seq<string>): seq<string>
  {
    if texts == [] then [] else (if texts[0] == "" then [] else [texts[0]]) + NonEmpty(texts[1..])
  }

  lemma {:induction false} NonEmptyAppend(texts: seq<string>, t: string)
    ensures NonEmpty(texts + [t]) == NonEmpty(texts) + if t == "" then [] else [t]
  {
    if texts == [] {
      assert [] + [t] == [t] && [t][1..] == [];
    } else {
      assert (texts + [t])[1..] == texts[1..] + [t];
      NonEmptyAppend(texts[1..], t);
    }
  }

  lemma {:induction false} TrimAllOfPadded(pieces: seq<string>, texts: seq<string>)
    requires |pieces| == |texts|
    requires forall i | 0 <= i < |texts| :: IsTrimmed(texts[i]) && Pads(pieces[i], texts[i])
    ensures TrimAll(pieces) == NonEmpty(texts)
  {
    hide Pads, IsTrimmed, Trim;
    if pieces != [] {
      var n := |pieces| - 1;
      var last := texts[n];
      assert TrimAll(pieces) == TrimAll(pieces[..n]) + if Trim(pieces[n]) == "" then [] else [Trim(pieces[n])];
      hide NonEmpty, TrimAll;
      TrimAllOfPadded(pieces[..n], texts[..n]);
      TrimIff(pieces[n], last);
      NonEmptyAppend(texts[..n], last);
      assert texts == texts[..n] + [last];
    }
  }

  // A list whose entries are padded with white space in any way parses to the entries, in order and without the empty ones.
  lemma PaddedListIsParsed(pieces: seq<string>, texts: seq<string>)
    requires |pieces| == |texts|
    requires forall i | 0 <= i < |texts| :: ',' !in pieces[i] && IsTrimmed(texts[i]) && Pads(pieces[i], texts[i])
    ensures Entries(Join(pieces, ',')) == NonEmpty(texts)
  {
    TrimAllOfPadded(pieces, texts);
    if pieces != [] {
      hide Pads, IsTrimmed;
      SplitJoin(pieces, ',');
      if Join(pieces, ',') == "" {
        assert Split("", ',') == [""];
        assert TrimAll([""]) == [] by {
          assert [""][..0] == [];
        }
      }
    }
  }

  // For every text: parsing, joining and parsing again gives what parsing gave.
  lemma ParseJoinParse(s: string)
    ensures Entries(Join(Entries(s), ',')) == Entries(s)
  {
    EntriesAreEntries(s);
    ParseUndoesJoinIff(Entries(s));
  }

  // The text that the DHCP handler stores in a record lists exactly the pool's name servers.
  lemma RecordedDnsIsReadBack(dns: seq<IPv4>)
    ensures Entries(Join(DnsTexts(dns), ',')) == DnsTexts(dns)
  {
    forall p | p in DnsTexts(dns)
      ensures IsEntry(p)
    {
      var i :| 0 <= i < |dns| && p == Dotted(dns[i]);
      DottedIsEntry(dns[i]);
    }
    ParseUndoesJoinIff(DnsTexts(dns));
  }

  lemma DottedIsEntry(ip: IPv4)
    ensures IsEntry(Dotted(ip))
  {
    hide Dotted;
    DottedIsText(ip);
    var s := Dotted(ip);
    assert s[0] in s && s[|s| - 1] in s;
  }

  predicate IsDottedText(s: string) { s != "" && forall c | c in s :: '0' <= c <= '9' || c == '.' }

  lemma DottedIsText(ip: IPv4)
    ensures IsDottedText(Dotted(ip))
  {
    JoinOfTexts([Decimal(ip.a), Decimal(ip.b), Decimal(ip.c), Decimal(ip.d)]);
  }

  lemma {:induction false} JoinOfTexts(parts: seq<string>)
    requires parts != [] && forall p | p in parts :: IsDottedText(p)
    ensures IsDottedText(Join(parts, '.'))
  {
    assert parts[0] in parts;
    if |parts| > 1 {
      JoinOfTexts(parts[1..]);
    }
  }
}
