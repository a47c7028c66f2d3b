/** IP addresses as the analyser sees them: their bytes, their text, the
    network class shown in each hop row, and forward name resolution with its
    address-family preference and resolver fallback. */
module Net {
  import opened Common

  /** IPAddress.GetAddressBytes(): 4 bytes for IPv4, 16 for IPv6, network order. */
  type Address = b: seq<byte> | |b| == 4 || |b| == 16 witness [0, 0, 0, 0]

  predicate IsV6(a: Address) { |a| == 16 }

  /** IPAddress.IsLoopback: 127.0.0.0/8 for IPv4, ::1 for IPv6. */
  predicate IsLoopback(a: Address) {
    if |a| == 4 then a[0] == 127
    else (forall i :: 0 <= i < 15 ==> a[i] == 0) && a[15] == 1
  }

  /** The outcome of one ICMP echo: answered with a round-trip time, or not
      answered at all (a timeout, any non-Success status, or an exception). */
  datatype Echo = Answered(rtt: nat) | Unanswered

  /** The network class a hop row shows. `Unset` is the empty string a fresh
      hop record holds before discovery classifies it. */
  datatype NetworkType =
    | Unset
    | NotAvailable
    | Loopback
    | PrivateA
    | PrivateB
    | PrivateC
    | LinkLocal
    | Public

  /** The text the hop record stores for each class. */
  function Label(t: NetworkType): string {
    match t
    case Unset => ""
    case NotAvailable => "N/A"
    case Loopback => "Loopback"
    case PrivateA => "Privado (Classe A)"
    case PrivateB => "Privado (Classe B)"
    case PrivateC => "Privado (Classe C)"
    case LinkLocal => "Link-Local"
    case Public => "Público"
  }

  /** GetNetworkType: no address, loopback, the three RFC 1918 private blocks,
      the RFC 3927 link-local block, and "public" for everything else,
      including every IPv6 address other than ::1. */
  function Classify(address: Option<Address>): (t: NetworkType)
    ensures t != Unset
    ensures t == NotAvailable <==> address.None?
    ensures address.Some? && IsV6(address.value) ==>
              t == (if IsLoopback(address.value) then Loopback else Public)
  {
    match address
    case None => NotAvailable
    case Some(a) =>
      if IsLoopback(a) then Loopback
      else if |a| == 4 && a[0] == 10 then PrivateA
      else if |a| == 4 && a[0] == 172 && 16 <= a[1] <= 31 then PrivateB
      else if |a| == 4 && a[0] == 192 && a[1] == 168 then PrivateC
      else if |a| == 4 && a[0] == 169 && a[1] == 254 then LinkLocal
      else Public
  }

  /** An IPv4 address as one 32-bit number, most significant byte first. */
  function Number(a: Address): nat
    requires |a| == 4
  {
    ((a[0] as nat * 256 + a[1] as nat) * 256 + a[2] as nat) * 256 + a[3] as nat
  }

  function Pow2(n: nat): (p: nat)
    ensures p >= 1
  {
    if n == 0 then 1 else 2 * Pow2(n - 1)
  }

  /** CIDR membership: `a` lies in the block `network/prefix`. */
  predicate InBlock(a: Address, network: Address, prefix: nat)
    requires |a| == 4 && |network| == 4 && prefix <= 32
  {
    Number(a) / Pow2(32 - prefix) == Number(network) / Pow2(32 - prefix)
  }

  lemma BlockSizes()
    ensures Pow2(24) == 16777216 && Pow2(20) == 1048576 && Pow2(16) == 65536
  {
    assert Pow2(4) == 16;
    assert Pow2(8) == 256;
    assert Pow2(12) == 4096;
    assert Pow2(16) == 65536;
    assert Pow2(20) == 1048576;
    assert Pow2(24) == 16777216;
  }

  /** The octet tests of the classifier are exactly the CIDR blocks of
      RFC 1122 (127/8), RFC 1918 (10/8, 172.16/12, 192.168/16) and RFC 3927
      (169.254/16); an IPv4 address outside all of them is public. */
  lemma ClassifyIsCidr(a: Address)
    requires |a| == 4
    ensures Classify(Some(a)) == Loopback <==> InBlock(a, [127, 0, 0, 0], 8)
    ensures Classify(Some(a)) == PrivateA <==> InBlock(a, [10, 0, 0, 0], 8)
    ensures Classify(Some(a)) == PrivateB <==> InBlock(a, [172, 16, 0, 0], 12)
    ensures Classify(Some(a)) == PrivateC <==> InBlock(a, [192, 168, 0, 0], 16)
    ensures Classify(Some(a)) == LinkLocal <==> InBlock(a, [169, 254, 0, 0], 16)
    ensures Classify(Some(a)) == Public <==>
              && !InBlock(a, [127, 0, 0, 0], 8)
              && !InBlock(a, [10, 0, 0, 0], 8)
              && !InBlock(a, [172, 16, 0, 0], 12)
              && !InBlock(a, [192, 168, 0, 0], 16)
              && !InBlock(a, [169, 254, 0, 0], 16)
  {
    BlockTests(a);
  }

  /** Each block of the classifier as a test on the first two octets. */
  lemma BlockTests(a: Address)
    requires |a| == 4
    ensures InBlock(a, [127, 0, 0, 0], 8) <==> a[0] == 127
    ensures InBlock(a, [10, 0, 0, 0], 8) <==> a[0] == 10
    ensures InBlock(a, [172, 16, 0, 0], 12) <==> a[0] == 172 && 16 <= a[1] <= 31
    ensures InBlock(a, [192, 168, 0, 0], 16) <==> a[0] == 192 && a[1] == 168
    ensures InBlock(a, [169, 254, 0, 0], 16) <==> a[0] == 169 && a[1] == 254
  {
    BlockSizes();
    Octets(a);
    EightBitBlock(a, 127);
    EightBitBlock(a, 10);
    SixteenBitBlock(a, 192, 168);
    SixteenBitBlock(a, 169, 254);
    assert Number([172, 16, 0, 0]) == (172 * 16 + 1) * 1048576;
  }

  /** A /8 block is a test on the first octet. */
  lemma EightBitBlock(a: Address, b0: byte)
    requires |a| == 4 && Pow2(24) == 16777216
    requires Number(a) / 16777216 == a[0] as nat
    ensures InBlock(a, [b0, 0, 0, 0], 8) <==> a[0] == b0
  {
    assert Number([b0, 0, 0, 0]) == b0 as nat * 16777216;
  }

  /** A /16 block is a test on the first two octets. */
  lemma SixteenBitBlock(a: Address, b0: byte, b1: byte)
    requires |a| == 4 && Pow2(16) == 65536
    requires Number(a) / 65536 == a[0] as nat * 256 + a[1] as nat
    ensures InBlock(a, [b0, b1, 0, 0], 16) <==> a[0] == b0 && a[1] == b1
  {
    assert Number([b0, b1, 0, 0]) == (b0 as nat * 256 + b1 as nat) * 65536;
  }

  /** The high-order parts of an IPv4 number: the first octet, the first
      two octets, and the first octet with the high nibble of the second. */
  lemma Octets(a: Address)
    requires |a| == 4
    ensures Number(a) / 16777216 == a[0] as nat
    ensures Number(a) / 65536 == a[0] as nat * 256 + a[1] as nat
    ensures Number(a) / 1048576 == a[0] as nat * 16 + a[1] as nat / 16
  {
    var b0, b1, rest := a[0] as nat, a[1] as nat, a[2] as nat * 256 + a[3] as nat;
    assert Number(a) == b0 * 16777216 + b1 * 65536 + rest;
    assert Number(a) == (b0 * 16 + b1 / 16) * 1048576 + (b1 % 16) * 65536 + rest;
  }

  /** A lower-case hexadecimal digit for 0..15. */
  function HexDigit(d: nat): (c: char)
    requires d < 16
    ensures IsHexDigit(c) && HexDigitValue(c) == d
  {
    if d < 10 then ('0' as int + d) as char else ('a' as int + d - 10) as char
  }

  predicate IsHexDigit(c: char) {
    '0' <= c <= '9' || 'a' <= c <= 'f'
  }

  /** The value of a lower-case hexadecimal digit. */
  function HexDigitValue(c: char): int {
    if c <= '9' then c as int - '0' as int else c as int - 'a' as int + 10
  }

  /** The number a string of hexadecimal digits denotes, most significant first. */
  function HexValue(s: string): int
    decreases |s|
  {
    if s == [] then 0 else HexValue(s[..|s| - 1]) * 16 + HexDigitValue(s[|s| - 1])
  }

  /** Lower-case hexadecimal without leading zeros, as IPv6 text writes a
      group; it reads back as the number. */
  function Hex(n: nat): (s: string)
    ensures 1 <= |s|
    ensures forall i :: 0 <= i < |s| ==> IsHexDigit(s[i])
    ensures n >= 16 ==> s[0] != '0'
    ensures HexValue(s) == n
  {
    if n < 16 then [HexDigit(n)]
    else
      var s := Hex(n / 16) + [HexDigit(n % 16)];
      assert s[..|s| - 1] == Hex(n / 16);
      s
  }

  /** The 16-bit value of group `i` of an IPv6 address, high byte first. */
  function Group(a: seq<byte>, i: nat): nat
    requires 2 * i + 1 < |a|
  {
    a[2 * i] as nat * 256 + a[2 * i + 1] as nat
  }

  function V6Groups(a: seq<byte>): string
    requires |a| % 2 == 0 && |a| >= 2
    decreases |a|
  {
    var g := Hex(Group(a, 0));
    if |a| == 2 then g else g + ":" + V6Groups(a[2..])
  }

  /** IPAddress.ToString(): dotted decimal for IPv4; eight colon-separated
      hexadecimal groups for IPv6. */
  function Text(a: Address): string {
    if |a| == 4 then
      Decimal(a[0] as nat) + "." + Decimal(a[1] as nat) + "." + Decimal(a[2] as nat) + "." + Decimal(a[3] as nat)
    else V6Groups(a)
  }

  /** The colon-separated pieces of the group text are the groups, in order. */
  lemma {:induction false} V6GroupsPieces(a: seq<byte>)
    requires |a| % 2 == 0 && |a| >= 2
    ensures var pieces := Split(V6Groups(a), ':');
            |pieces| == |a| / 2 && forall i :: 0 <= i < |a| / 2 ==> pieces[i] == Hex(Group(a, i))
    decreases |a|
  {
    if |a| > 2 {
      var g, rest := Hex(Group(a, 0)), a[2..];
      V6GroupsPieces(rest);
      var later := Split(V6Groups(rest), ':');
      LeadingPiece(g, V6Groups(rest));
      var pieces := Split(V6Groups(a), ':');
      forall i | 1 <= i < |a| / 2
        ensures pieces[i] == Hex(Group(a, i))
      {
        assert pieces[i] == later[i - 1] == Hex(Group(rest, i - 1));
        assert rest[2 * (i - 1)] == a[2 * i] && rest[2 * (i - 1) + 1] == a[2 * i + 1];
      }
    } else {
      SplitWithout(Hex(Group(a, 0)), ':');
    }
  }

  /** A group followed by a colon is the first piece. */
  lemma LeadingPiece(g: string, rest: string)
    requires forall i :: 0 <= i < |g| ==> IsHexDigit(g[i])
    ensures Split(g + ":" + rest, ':') == [g] + Split(rest, ':')
  {
    SplitWithout(g, ':');
    SplitJoin(g, rest, ':');
  }

  /** The dotted pieces of IPv4 text are the four octets, and the colon
      pieces of IPv6 text are the eight groups: the text of an address reads
      back as the address. */
  lemma TextReadsBack(a: Address)
    ensures |a| == 4 ==>
              var pieces := Split(Text(a), '.');
              |pieces| == 4 && forall i :: 0 <= i < 4 ==> DecimalValue(pieces[i]) == a[i] as int
    ensures |a| == 16 ==>
              var pieces := Split(Text(a), ':');
              |pieces| == 8 && forall i :: 0 <= i < 8 ==> HexValue(pieces[i]) == Group(a, i)
  {
    if |a| == 4 {
      V4Pieces(a);
      var pieces := Split(Text(a), '.');
      assert DecimalValue(pieces[0]) == a[0] as int && DecimalValue(pieces[1]) == a[1] as int;
      assert DecimalValue(pieces[2]) == a[2] as int && DecimalValue(pieces[3]) == a[3] as int;
    } else {
      V6GroupsPieces(a);
    }
  }

  /** IPv4 text splits on dots into the four octets' numerals. */
  lemma V4Pieces(a: Address)
    requires |a| == 4
    ensures Split(Text(a), '.') == [Decimal(a[0] as nat), Decimal(a[1] as nat), Decimal(a[2] as nat), Decimal(a[3] as nat)]
  {
    DottedPieces(Decimal(a[0] as nat), Decimal(a[1] as nat), Decimal(a[2] as nat), Decimal(a[3] as nat));
  }

  /** Four numerals joined by dots split back into those numerals. */
  lemma DottedPieces(d0: string, d1: string, d2: string, d3: string)
    requires forall i :: 0 <= i < |d0| ==> '0' <= d0[i] <= '9'
    requires forall i :: 0 <= i < |d1| ==> '0' <= d1[i] <= '9'
    requires forall i :: 0 <= i < |d2| ==> '0' <= d2[i] <= '9'
    requires forall i :: 0 <= i < |d3| ==> '0' <= d3[i] <= '9'
    ensures Split(d0 + "." + d1 + "." + d2 + "." + d3, '.') == [d0, d1, d2, d3]
  {
    SplitWithout(d0, '.');
    SplitWithout(d1, '.');
    SplitWithout(d2, '.');
    SplitWithout(d3, '.');
    SplitJoin(d0, d1, '.');
    SplitJoin(d0 + "." + d1, d2, '.');
    SplitJoin(d0 + "." + d1 + "." + d2, d3, '.');
  }

  /** IPv4 text has no colon, so it splits on ':' into one piece. */
  lemma V4TextHasNoColon(a: Address)
    requires |a| == 4
    ensures Split(Text(a), ':') == [Text(a)]
  {
    var t := Text(a);
    assert forall i :: 0 <= i < |t| ==> t[i] != ':' by {
      var d0, d1, d2, d3 := Decimal(a[0] as nat), Decimal(a[1] as nat), Decimal(a[2] as nat), Decimal(a[3] as nat);
      assert t == d0 + "." + d1 + "." + d2 + "." + d3;
    }
    SplitWithout(t, ':');
  }

  /** Two addresses with the same text are the same address, so the text a
      hop row shows identifies the replying router. */
  lemma TextInjective(a: Address, b: Address)
    requires Text(a) == Text(b)
    ensures a == b
  {
    if |a| != |b| {
      if |a| == 4 { FamiliesDiffer(a, b); } else { FamiliesDiffer(b, a); }
    } else if |a| == 4 {
      V4Injective(a, b);
    } else {
      V6Injective(a, b);
    }
  }

  lemma V4Injective(a: Address, b: Address)
    requires |a| == 4 && |b| == 4 && Text(a) == Text(b)
    ensures a == b
  {
    V4Pieces(a);
    V4Pieces(b);
    SameNumerals(a, b);
  }

  /** Octets with the same numerals are the same octets. */
  lemma SameNumerals(a: Address, b: Address)
    requires |a| == 4 && |b| == 4
    requires [Decimal(a[0] as nat), Decimal(a[1] as nat), Decimal(a[2] as nat), Decimal(a[3] as nat)]
          == [Decimal(b[0] as nat), Decimal(b[1] as nat), Decimal(b[2] as nat), Decimal(b[3] as nat)]
    ensures a == b
  {
    forall i | 0 <= i < 4
      ensures a[i] == b[i]
    {
      assert Decimal(a[i] as nat) == Decimal(b[i] as nat);
    }
  }

  lemma V6Injective(a: Address, b: Address)
    requires |a| == 16 && |b| == 16 && V6Groups(a) == V6Groups(b)
    ensures a == b
  {
    V6GroupsPieces(a);
    V6GroupsPieces(b);
    forall i | 0 <= i < 16
      ensures a[i] == b[i]
    {
      assert Hex(Group(a, i / 2)) == Hex(Group(b, i / 2));
      GroupBytes(a, b, i / 2);
    }
  }

  /** IPv4 text is never IPv6 text: one colon piece against eight. */
  lemma FamiliesDiffer(a: Address, b: Address)
    requires |a| == 4 && |b| == 16
    ensures Text(a) != Text(b)
  {
    V4TextHasNoColon(a);
    V6GroupsPieces(b);
  }

  /** Equal groups have equal bytes. */
  lemma GroupBytes(a: seq<byte>, b: seq<byte>, i: nat)
    requires 2 * i + 1 < |a| && 2 * i + 1 < |b|
    requires Group(a, i) == Group(b, i)
    ensures a[2 * i] == b[2 * i] && a[2 * i + 1] == b[2 * i + 1]
  {
  }

  /** `addresses.FirstOrDefault(a => a.AddressFamily == family)`. */
  function FirstOfFamily(addresses: seq<Address>, v6: bool): (r: Option<Address>)
    ensures r.None? <==> forall i :: 0 <= i < |addresses| ==> IsV6(addresses[i]) != v6
    ensures r.Some? ==> exists i :: 0 <= i < |addresses| && addresses[i] == r.value && IsV6(r.value) == v6
                                    && forall j :: 0 <= j < i ==> IsV6(addresses[j]) != v6
  {
    if addresses == [] then None
    else if IsV6(addresses[0]) == v6 then Some(addresses[0])
    else
      var r := FirstOfFamily(addresses[1..], v6);
      assert forall i :: 1 <= i < |addresses| ==> addresses[i] == addresses[1..][i - 1];
      if r.Some? then
        var i :| 0 <= i < |addresses[1..]| && addresses[1..][i] == r.value && IsV6(r.value) == v6
                 && forall j :: 0 <= j < i ==> IsV6(addresses[1..][j]) != v6;
        assert addresses[i + 1] == r.value && forall j :: 0 <= j < i + 1 ==> IsV6(addresses[j]) != v6;
        r
      else r
  }

  /** The system resolver's pick: the first address of the preferred family,
      else the first of the other family. */
  function PickAddress(addresses: seq<Address>, preferV6: bool): (r: Option<Address>)
    ensures r.None? <==> addresses == []
    ensures r.Some? ==> r.value in addresses
  {
    if addresses != [] && FirstOfFamily(addresses, preferV6).None? then
      assert IsV6(addresses[0]) != preferV6;
      FirstOfFamily(addresses, !preferV6)
    else
    match FirstOfFamily(addresses, preferV6)
    case Some(a) => Some(a)
    case None => FirstOfFamily(addresses, !preferV6)
  }

  /** The pick is the first address of the preferred family whenever there is
      one, and otherwise the first address of the other family. */
  lemma PickAddressPrefers(addresses: seq<Address>, preferV6: bool)
    ensures (exists i :: 0 <= i < |addresses| && IsV6(addresses[i]) == preferV6) ==>
              PickAddress(addresses, preferV6) == FirstOfFamily(addresses, preferV6)
              && IsV6(PickAddress(addresses, preferV6).value) == preferV6
    ensures (forall i :: 0 <= i < |addresses| ==> IsV6(addresses[i]) != preferV6) ==>
              PickAddress(addresses, preferV6) == FirstOfFamily(addresses, !preferV6)
  {
  }

  /** Dns.GetHostAddressesAsync: it throws, or it returns addresses. */
  datatype SystemLookup = SystemFailed | SystemAnswered(addresses: seq<Address>)

  /** One DnsClient query: it throws, or it answers with the records of the
      queried type, in answer order. */
  datatype DnsQuery = QueryFailed | Records(addresses: seq<Address>)

  /** The DnsClient fallback: the preferred record type first; AAAA then A
      when IPv6 is preferred, A then AAAA otherwise. A query that throws ends
      the fallback with no address. */
  function DnsFallback(preferV6: bool, aQuery: DnsQuery, aaaaQuery: DnsQuery): (r: Option<Address>)
    ensures r.Some? ==> Returned(aQuery, r.value) || Returned(aaaaQuery, r.value)
    ensures var first := if preferV6 then aaaaQuery else aQuery;
            && (first.QueryFailed? ==> r.None?)
            && (first.Records? && first.addresses != [] ==> r == Some(first.addresses[0]))
    ensures var first := if preferV6 then aaaaQuery else aQuery;
            var second := if preferV6 then aQuery else aaaaQuery;
            first.Records? && first.addresses == [] ==>
              r == (if second.Records? && second.addresses != [] then Some(second.addresses[0]) else None)
  {
    var first := if preferV6 then aaaaQuery else aQuery;
    var second := if preferV6 then aQuery else aaaaQuery;
    if first.QueryFailed? then None
    else if first.addresses != [] then Some(first.addresses[0])
    else if second.QueryFailed? then None
    else if second.addresses != [] then Some(second.addresses[0])
    else None
  }

  /** The query answered with this address. */
  predicate Returned(q: DnsQuery, a: Address) {
    q.Records? && a in q.addresses
  }

  /** ResolveHostWithCustomDnsAsync. `literal` is what IPAddress.TryParse
      makes of the host text. A literal address is returned as parsed, without
      consulting any resolver; otherwise the system resolver's pick, otherwise
      the DnsClient fallback; None is "could not resolve host". */
  function ResolveHost(literal: Option<Address>, preferV6: bool, system: SystemLookup,
                       aQuery: DnsQuery, aaaaQuery: DnsQuery): (r: Option<Address>)
    ensures literal.Some? ==> r == literal
    ensures literal.None? && r.Some? ==>
              || (system.SystemAnswered? && r.value in system.addresses)
              || Returned(aQuery, r.value) || Returned(aaaaQuery, r.value)
  {
    if literal.Some? then literal
    else
      var picked := if system.SystemAnswered? then PickAddress(system.addresses, preferV6) else None;
      if picked.Some? then picked else DnsFallback(preferV6, aQuery, aaaaQuery)
  }

  /** Where a resolved address comes from: a literal host resolves to itself
      whatever the resolvers would say; otherwise a non-empty system answer
      decides (preferring the configured family); only an empty or failed
      system lookup reaches DnsClient. */
  lemma ResolveHostSources(literal: Option<Address>, preferV6: bool, system: SystemLookup,
                           aQuery: DnsQuery, aaaaQuery: DnsQuery,
                           system': SystemLookup, aQuery': DnsQuery, aaaaQuery': DnsQuery)
    ensures literal.Some? ==>
              ResolveHost(literal, preferV6, system, aQuery, aaaaQuery) == literal
              && ResolveHost(literal, preferV6, system', aQuery', aaaaQuery') == literal
    ensures literal.None? && system.SystemAnswered? && system.addresses != [] ==>
              ResolveHost(literal, preferV6, system, aQuery, aaaaQuery)
                == ResolveHost(literal, preferV6, system, aQuery', aaaaQuery')
              && ResolveHost(literal, preferV6, system, aQuery, aaaaQuery).value in system.addresses
    ensures literal.None? && system.SystemAnswered?
            && (exists i :: 0 <= i < |system.addresses| && IsV6(system.addresses[i]) == preferV6) ==>
              ResolveHost(literal, preferV6, system, aQuery, aaaaQuery) == FirstOfFamily(system.addresses, preferV6)
    ensures literal.None? && (system.SystemFailed? || system.addresses == []) ==>
              ResolveHost(literal, preferV6, system, aQuery, aaaaQuery) == DnsFallback(preferV6, aQuery, aaaaQuery)
  {
    if system.SystemAnswered? {
      PickAddressPrefers(system.addresses, preferV6);
    }
  }
}
