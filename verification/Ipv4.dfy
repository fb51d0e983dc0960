/** IPv4 addresses as the pool handles them: byte slices, 32-bit numbers and dotted-decimal text. */
module Ipv4 {
  import opened Results
  import opened Text
  import opened Mac

  type uint32 = n: int | 0 <= n < 0x1_0000_0000

  const MAX: uint32 := 0xFFFF_FFFF

  // A net.IP is a byte slice of any length, nil being the empty one; its IPv4 form, when it has one, is four bytes.
  type NetIP = seq<byte>
  datatype IPv4 = IPv4(a: byte, b: byte, c: byte, d: byte)

  function ToInt(ip: IPv4): uint32
  {
    0x100_0000 * (ip.a as int) + 0x1_0000 * (ip.b as int) + 0x100 * (ip.c as int) + ip.d as int
  }

  function FromInt(n: uint32): IPv4
  {
    IPv4(n / 0x100_0000, n / 0x1_0000 % 256, n / 256 % 256, n % 256)
  }

  lemma FromToInt(ip: IPv4)
    ensures FromInt(ToInt(ip)) == ip
  {
    var a: int, b: int, c: int, d: int := ip.a, ip.b, ip.c, ip.d;
    var n: int := ToInt(ip);
    var n1 := 0x1_0000 * a + 0x100 * b + c;
    var n2 := 0x100 * a + b;
    assert n == 256 * n1 + d && n1 == 256 * n2 + c;
    assert n / 256 == n1 && n1 / 256 == n2 && n2 / 256 == a;
    assert n / 0x1_0000 == n2 && n / 0x100_0000 == a;
  }

  lemma ToFromInt(n: uint32)
    ensures ToInt(FromInt(n)) == n
  {
    assert n / 0x1_0000 == n / 256 / 256;
    assert n / 0x100_0000 == n / 256 / 256 / 256;
  }

  // The number orders addresses as their four bytes do, the first byte first.
  lemma ToIntOrders(x: IPv4, y: IPv4)
    ensures ToInt(x) < ToInt(y)
       <==> x.a < y.a || (x.a == y.a && (x.b < y.b || (x.b == y.b && (x.c < y.c || (x.c == y.c && x.d < y.d)))))
  {
  }

  function Bytes(ip: IPv4): NetIP { [ip.a, ip.b, ip.c, ip.d] }

  // net.IP.To4: four bytes stay, an IPv4-mapped sixteen-byte slice loses its prefix, the rest has no IPv4 form.
  function To4(ip: NetIP): Option<IPv4>
  {
    if |ip| == 4 then Some(IPv4(ip[0], ip[1], ip[2], ip[3]))
    else if |ip| == 16 && (forall i | 0 <= i < 10 :: ip[i] == 0) && ip[10] == 255 && ip[11] == 255 then
      Some(IPv4(ip[12], ip[13], ip[14], ip[15]))
    else None
  }

  predicate IsUnspecified(ip: NetIP)
  {
    To4(ip) == Some(IPv4(0, 0, 0, 0)) || (|ip| == 16 && forall i | 0 <= i < 16 :: ip[i] == 0)
  }

  // An address has two forms as a byte slice, and no other slice is one.
  lemma To4Iff(x: NetIP, ip: IPv4)
    ensures To4(x) == Some(ip)
       <==> x == [ip.a, ip.b, ip.c, ip.d] || x == [0, 0, 0, 0, 0, 0, 0, 0, 0, 0, 255, 255, ip.a, ip.b, ip.c, ip.d]
  {
  }

  function Decimal(b: byte): (s: string)
    ensures 1 <= |s| <= 3 && forall c | c in s :: '0' <= c <= '9'
    ensures s[0] == '0' ==> s == "0"
  {
    if b < 10 then [Digit(b)]
    else if b < 100 then [Digit(b / 10), Digit(b % 10)]
    else [Digit(b / 100), Digit(b / 10 % 10), Digit(b % 10)]
  }

  function Digit(d: int): (c: char)
    requires 0 <= d < 10
    ensures '0' <= c <= '9' && c as int == '0' as int + d
  {
    ('0' as int + d) as char
  }

  // The number that a string of digits stands for.
  function Value(s: string): int
  {
    if s == "" then 0 else 10 * Value(s[..|s| - 1]) + (s[|s| - 1] as int - '0' as int)
  }

  lemma ValueOfDecimal(b: byte)
    ensures Value(Decimal(b)) == b
  {
    var s := Decimal(b);
    if b >= 100 {
      assert s[..2] == [Digit(b / 100), Digit(b / 10 % 10)];
      assert s[..2][..1] == [Digit(b / 100)];
      assert Value(s[..2][..1]) == b / 100;
    } else if b >= 10 {
      assert s[..1] == [Digit(b / 10)];
      assert Value(s[..1]) == b / 10;
    }
  }

  lemma DecimalInjective(x: byte, y: byte)
    requires Decimal(x) == Decimal(y)
    ensures x == y
  {
    ValueOfDecimal(x);
    ValueOfDecimal(y);
  }

  // net.IP.String of an IPv4 value.
  function Dotted(ip: IPv4): string
  {
    Join([Decimal(ip.a), Decimal(ip.b), Decimal(ip.c), Decimal(ip.d)], '.')
  }

  lemma DottedParts(ip: IPv4)
    ensures Split(Dotted(ip), '.') == [Decimal(ip.a), Decimal(ip.b), Decimal(ip.c), Decimal(ip.d)]
  {
    SplitJoin([Decimal(ip.a), Decimal(ip.b), Decimal(ip.c), Decimal(ip.d)], '.');
  }

  // Keying a table by dotted text is the same as keying it by address.
  lemma DottedInjective(x: IPv4, y: IPv4)
    ensures Dotted(x) == Dotted(y) <==> x == y
  {
    if Dotted(x) == Dotted(y) {
      DottedParts(x);
      DottedParts(y);
      assert Split(Dotted(x), '.') == Split(Dotted(y), '.');
      DecimalInjective(x.a, y.a);
      DecimalInjective(x.b, y.b);
      DecimalInjective(x.c, y.c);
      DecimalInjective(x.d, y.d);
    }
  }

  // The text of a numbered address, as lease tables and records hold it.
  function AddressText(n: uint32): string { Dotted(FromInt(n)) }

  lemma AddressTextInjective(x: uint32, y: uint32)
    ensures AddressText(x) == AddressText(y) <==> x == y
  {
    DottedInjective(FromInt(x), FromInt(y));
    ToFromInt(x);
    ToFromInt(y);
  }

  // net.IPMask.String: eight hexadecimal digits, never the dotted form.
  function MaskText(mask: seq<byte>): string { if mask == [] then "<nil>" else Hex(mask) }

  // Two digits a byte, the high one first: 255.255.255.0 is ffffff00.
  lemma MaskDigits(mask: seq<byte>, i: nat)
    requires i < |mask|
    ensures |MaskText(mask)| == 2 * |mask|
    ensures MaskText(mask)[2 * i] == "0123456789abcdef"[mask[i] / 16]
    ensures MaskText(mask)[2 * i + 1] == "0123456789abcdef"[mask[i] % 16]
  {
    HexText(mask, i);
  }

  // A mask is written as hexadecimal digits; its text is never that of an address.
  lemma MaskTextIsNotDotted(mask: seq<byte>, ip: IPv4)
    requires |mask| == 4
    ensures |MaskText(mask)| == 8 && '.' !in MaskText(mask) && MaskText(mask) != Dotted(ip)
  {
  }
}
