/** Addresses, the IPv4-in-IPv6 fold, and the one table that says how dialable an address is. */
module Scope {
  import opened Prelude

  type Octets4 = s: Bytes | |s| == 4 witness [0, 0, 0, 0]
  type Octets16 = s: Bytes | |s| == 16 witness [0, 0, 0, 0, 0, 0, 0, 0, 0, 0, 0, 0, 0, 0, 0, 0]

  datatype IpAddr = V4(o4: Octets4) | V6(o16: Octets16)

  datatype SocketAddr = SocketAddr(ip: IpAddr, port: u16)

  datatype Scope = NeverDialable | PrivateScope | GlobalUnicast

  /** The octets of an address, without saying which family. */
  function Octets(ip: IpAddr): Bytes {
    match ip case V4(o) => o case V6(o) => o
  }

  /** The `i`-th 16-bit group of an IPv6 address. */
  function Segment(o: Octets16, i: nat): u16
    requires i < 8
  {
    FromBe16(o[2 * i], o[2 * i + 1])
  }

  /** `Ipv6Addr::to_ipv4`: both the mapped and the deprecated compatible form. */
  predicate EmbedsIpv4(o: Octets16) {
    && o[..10] == [0, 0, 0, 0, 0, 0, 0, 0, 0, 0]
    && (o[10..12] == [0, 0] || o[10..12] == [0xff, 0xff])
  }

  function FoldIp(ip: IpAddr): IpAddr {
    match ip
    case V4(_) => ip
    case V6(o) => if EmbedsIpv4(o) then V4(o[12..]) else ip
  }

  function Fold(a: SocketAddr): SocketAddr {
    SocketAddr(FoldIp(a.ip), a.port)
  }

  function ScopeOfV4(o: Octets4): Scope {
    var a, b, c, d := o[0], o[1], o[2], o[3];
    var isThisNetwork := a == 0;
    var isLoopback := a == 127;
    var isLinkLocal := a == 169 && b == 254;
    var isMulticast := 224 <= a <= 239;
    var isBroadcast := o == [255, 255, 255, 255];
    var isDocumentation := o[..3] == [192, 0, 2] || o[..3] == [198, 51, 100] || o[..3] == [203, 0, 113];
    var isIetfProtocolAssignment := a == 192 && b == 0 && c == 0;
    var is6to4RelayAnycast := o[..3] == [192, 88, 99];
    var isBenchmarking := a == 198 && b - b % 2 == 18;
    var isReservedClassE := a >= 240;
    var isPrivate := a == 10 || (a == 172 && 16 <= b <= 31) || (a == 192 && b == 168);
    var isCarrierGradeNat := a == 100 && 64 <= b < 128;
    if o == [0, 0, 0, 0] || isLoopback || isLinkLocal || isMulticast || isBroadcast || isDocumentation
       || isThisNetwork || isIetfProtocolAssignment || is6to4RelayAnycast || isBenchmarking || isReservedClassE
    then NeverDialable
    else if isPrivate || isCarrierGradeNat then PrivateScope
    else GlobalUnicast
  }

  /** Only ever sees addresses that do not fold. Masks are written as the ranges they select. */
  function ScopeOfV6(o: Octets16): Scope {
    var s0, s1, s2, s3 := Segment(o, 0), Segment(o, 1), Segment(o, 2), Segment(o, 3);
    var isUnspecified := forall i :: 0 <= i < 16 ==> o[i] == 0;
    var isLoopback := (forall i :: 0 <= i < 15 ==> o[i] == 0) && o[15] == 1;
    var isMulticast := s0 / 0x100 == 0xff;
    var isLinkLocal := s0 / 0x40 == 0xfe80 / 0x40;
    var isDocumentation := s0 == 0x2001 && s1 == 0x0db8;
    var isBenchmarking := s0 == 0x2001 && s1 == 0x0002 && s2 == 0;
    var isDiscardOnly := s0 == 0x0100 && s1 == 0 && s2 == 0 && s3 == 0;
    var isUniqueLocal := s0 / 0x200 == 0xfc00 / 0x200;
    if isUnspecified || isLoopback || isMulticast || isLinkLocal || isDocumentation || isBenchmarking || isDiscardOnly
    then NeverDialable
    else if isUniqueLocal then PrivateScope
    else GlobalUnicast
  }

  function ScopeOfIp(ip: IpAddr): Scope {
    match FoldIp(ip)
    case V4(o) => ScopeOfV4(o)
    case V6(o) => ScopeOfV6(o)
  }

  function ScopeOf(a: SocketAddr): Scope {
    if a.port == 0 then NeverDialable else ScopeOfIp(a.ip)
  }

  /** Judging the folded address is judging the original one. */
  lemma FoldKeepsScope(a: SocketAddr)
    ensures ScopeOf(Fold(a)) == ScopeOf(a)
  {
  }

  // ----- the normative table, as address blocks -----

  datatype Block = Block(base: u32, size: nat, scope: Scope)

  /** The rows of the IPv4 table: first address, number of addresses, scope. */
  const TABLE_V4: seq<Block> := [
    Block(0x0000_0000, 0x100_0000, NeverDialable),    // 0.0.0.0/8
    Block(0x7f00_0000, 0x100_0000, NeverDialable),    // 127.0.0.0/8
    Block(0xa9fe_0000, 0x1_0000, NeverDialable),      // 169.254.0.0/16
    Block(0xc000_0000, 0x100, NeverDialable),         // 192.0.0.0/24
    Block(0xc000_0200, 0x100, NeverDialable),         // 192.0.2.0/24
    Block(0xc633_6400, 0x100, NeverDialable),         // 198.51.100.0/24
    Block(0xcb00_7100, 0x100, NeverDialable),         // 203.0.113.0/24
    Block(0xc058_6300, 0x100, NeverDialable),         // 192.88.99.0/24
    Block(0xc612_0000, 0x2_0000, NeverDialable),      // 198.18.0.0/15
    Block(0xe000_0000, 0x1000_0000, NeverDialable),   // 224.0.0.0/4
    Block(0xf000_0000, 0x1000_0000, NeverDialable),   // 240.0.0.0/4
    Block(0x0a00_0000, 0x100_0000, PrivateScope),     // 10.0.0.0/8
    Block(0xac10_0000, 0x10_0000, PrivateScope),      // 172.16.0.0/12
    Block(0xc0a8_0000, 0x1_0000, PrivateScope),       // 192.168.0.0/16
    Block(0x6440_0000, 0x40_0000, PrivateScope)       // 100.64.0.0/10
  ]

  predicate InBlock(o: Octets4, b: Block) {
    b.base <= FromBe32(o) < b.base + b.size
  }

  /** An address in some row has that row's scope, and an address in no row is global. */
  lemma ScopeV4IsTheTable(o: Octets4)
    ensures forall i :: 0 <= i < |TABLE_V4| && InBlock(o, TABLE_V4[i]) ==> ScopeOfV4(o) == TABLE_V4[i].scope
    ensures (forall i :: 0 <= i < |TABLE_V4| ==> !InBlock(o, TABLE_V4[i])) ==> ScopeOfV4(o) == GlobalUnicast
  {
    FirstRowsByOctets(o);
    LastRowsByOctets(o);
    forall i | 0 <= i < |TABLE_V4| && InBlock(o, TABLE_V4[i]) ensures ScopeOfV4(o) == TABLE_V4[i].scope {
      if i < 4 {} else if i < 8 {} else if i < 12 {} else {}
    }
    if ScopeOfV4(o) != GlobalUnicast {
      var a, b, c := o[0], o[1], o[2];
      assert InBlock(o, TABLE_V4[if a == 0 then 0 else if a == 127 then 1
                                 else if a == 169 then 2 else if a >= 240 then 10
                                 else if a >= 224 then 9 else if a == 10 then 11 else if a == 172 then 12
                                 else if a == 100 then 14 else if a == 203 then 6
                                 else if a == 198 then (if b == 51 then 5 else 8)
                                 else if b == 168 then 13 else if b == 88 then 7 else if c == 0 then 3 else 4]);
    }
  }

  lemma FirstRowsByOctets(o: Octets4)
    ensures InBlock(o, TABLE_V4[0]) <==> o[0] == 0
    ensures InBlock(o, TABLE_V4[1]) <==> o[0] == 127
    ensures InBlock(o, TABLE_V4[2]) <==> o[0] == 169 && o[1] == 254
    ensures InBlock(o, TABLE_V4[3]) <==> o[0] == 192 && o[1] == 0 && o[2] == 0
    ensures InBlock(o, TABLE_V4[4]) <==> o[0] == 192 && o[1] == 0 && o[2] == 2
    ensures InBlock(o, TABLE_V4[5]) <==> o[0] == 198 && o[1] == 51 && o[2] == 100
    ensures InBlock(o, TABLE_V4[6]) <==> o[0] == 203 && o[1] == 0 && o[2] == 113
    ensures InBlock(o, TABLE_V4[7]) <==> o[0] == 192 && o[1] == 88 && o[2] == 99
  {
  }

  lemma LastRowsByOctets(o: Octets4)
    ensures InBlock(o, TABLE_V4[8]) <==> o[0] == 198 && (o[1] == 18 || o[1] == 19)
    ensures InBlock(o, TABLE_V4[9]) <==> 224 <= o[0] <= 239
    ensures InBlock(o, TABLE_V4[10]) <==> o[0] >= 240
    ensures InBlock(o, TABLE_V4[11]) <==> o[0] == 10
    ensures InBlock(o, TABLE_V4[12]) <==> o[0] == 172 && 16 <= o[1] <= 31
    ensures InBlock(o, TABLE_V4[13]) <==> o[0] == 192 && o[1] == 168
    ensures InBlock(o, TABLE_V4[14]) <==> o[0] == 100 && 64 <= o[1] < 128
  {
  }

  /** The number that octets spell, the first being the most significant. */
  function Number(s: Bytes): nat {
    if s == [] then 0 else 0x100 * Number(Front(s)) + Last(s)
  }

  lemma NumberSnoc(s: Bytes, x: u8)
    ensures Number(s + [x]) == 0x100 * Number(s) + x
  {
    assert Front(s + [x]) == s;
  }

  lemma FourMoreOctets(s: Bytes, t: Bytes)
    requires |t| == 4
    ensures var a: nat, b: nat, c: nat, d: nat := t[0], t[1], t[2], t[3];
            Number(s + t) == 0x1_0000_0000 * Number(s) + 0x100_0000 * a + 0x1_0000 * b + 0x100 * c + d
  {
    hide Number;
    NumberSnoc(s, t[0]);
    NumberSnoc(s + [t[0]], t[1]);
    NumberSnoc(s + [t[0]] + [t[1]], t[2]);
    NumberSnoc(s + [t[0]] + [t[1]] + [t[2]], t[3]);
    assert s + t == s + [t[0]] + [t[1]] + [t[2]] + [t[3]];
  }

  /** The upper 64 bits of an IPv6 address; every row of the table below is a range of them. */
  function Upper64(o: Octets16): nat {
    Number(o[..8])
  }

  lemma UpperSegments(o: Octets16)
    ensures Upper64(o)
         == ((Segment(o, 0) * 0x1_0000 + Segment(o, 1)) * 0x1_0000 + Segment(o, 2)) * 0x1_0000 + Segment(o, 3)
  {
    hide Number;
    assert o[..8] == o[..4] + o[4..8] && o[..4] == [] + o[..4];
    FourMoreOctets([], o[..4]);
    FourMoreOctets(o[..4], o[4..8]);
    NumberOfNone();
  }

  lemma NumberOfNone()
    ensures Number([]) == 0
  {
  }

  datatype Range = Range(from: nat, size: nat, scope: Scope)

  /** The rows of the native IPv6 table; `::` and `::1` fold to IPv4 and never get here. */
  const TABLE_V6: seq<Range> := [
    Range(0xfe80_0000_0000_0000, 0x40_0000_0000_0000, NeverDialable),   // fe80::/10
    Range(0xff00_0000_0000_0000, 0x100_0000_0000_0000, NeverDialable),  // ff00::/8
    Range(0x2001_0db8_0000_0000, 0x1_0000_0000, NeverDialable),         // 2001:db8::/32
    Range(0x2001_0002_0000_0000, 0x1_0000, NeverDialable),              // 2001:2::/48
    Range(0x0100_0000_0000_0000, 1, NeverDialable),                     // 100::/64
    Range(0xfc00_0000_0000_0000, 0x200_0000_0000_0000, PrivateScope)    // fc00::/7
  ]

  predicate InRange(o: Octets16, r: Range) {
    r.from <= Upper64(o) < r.from + r.size
  }

  lemma RangesBySegments(o: Octets16)
    ensures InRange(o, TABLE_V6[0]) <==> Segment(o, 0) / 0x40 == 0xfe80 / 0x40
    ensures InRange(o, TABLE_V6[1]) <==> Segment(o, 0) / 0x100 == 0xff
    ensures InRange(o, TABLE_V6[2]) <==> Segment(o, 0) == 0x2001 && Segment(o, 1) == 0x0db8
    ensures InRange(o, TABLE_V6[3]) <==> Segment(o, 0) == 0x2001 && Segment(o, 1) == 2 && Segment(o, 2) == 0
    ensures InRange(o, TABLE_V6[4])
       <==> Segment(o, 0) == 0x0100 && Segment(o, 1) == 0 && Segment(o, 2) == 0 && Segment(o, 3) == 0
    ensures InRange(o, TABLE_V6[5]) <==> Segment(o, 0) / 0x200 == 0xfc00 / 0x200
  {
    hide Segment, Upper64;
    UpperSegments(o);
  }

  lemma ZeroFolds(o: Octets16)
    ensures (forall i :: 0 <= i < 15 ==> o[i] == 0) ==> EmbedsIpv4(o)
  {
  }

  /** A native IPv6 address in some row has that row's scope, and one in no row is global. */
  lemma ScopeV6IsTheTable(o: Octets16)
    requires !EmbedsIpv4(o)
    ensures forall i :: 0 <= i < |TABLE_V6| && InRange(o, TABLE_V6[i]) ==> ScopeOfV6(o) == TABLE_V6[i].scope
    ensures (forall i :: 0 <= i < |TABLE_V6| ==> !InRange(o, TABLE_V6[i])) ==> ScopeOfV6(o) == GlobalUnicast
  {
    hide Upper64, InRange, Segment, EmbedsIpv4;
    ZeroFolds(o);
    RangesBySegments(o);
    if forall i :: 0 <= i < |TABLE_V6| ==> !InRange(o, TABLE_V6[i]) {
      assert !InRange(o, TABLE_V6[0]) && !InRange(o, TABLE_V6[1]) && !InRange(o, TABLE_V6[2]);
      assert !InRange(o, TABLE_V6[3]) && !InRange(o, TABLE_V6[4]) && !InRange(o, TABLE_V6[5]);
    }
  }

  // ----- folding and judging, in terms of octets alone -----

  /** `::ffff:a.b.c.d` */
  function MappedForm(o: Octets4): Octets16 {
    [0, 0, 0, 0, 0, 0, 0, 0, 0, 0, 0xff, 0xff] + o
  }

  /** `::a.b.c.d` */
  function CompatibleForm(o: Octets4): Octets16 {
    [0, 0, 0, 0, 0, 0, 0, 0, 0, 0, 0, 0] + o
  }

  /** An IPv4 address, or an IPv6 address that is no IPv4 address in disguise. */
  ghost predicate IsNative(ip: IpAddr) {
    forall o: Octets4 :: ip != V6(MappedForm(o)) && ip != V6(CompatibleForm(o))
  }

  /** An IPv6 address is in disguise exactly if its first ten octets are zero and the next two zero or 0xff. */
  lemma EmbedsIff(x: Octets16, o: Octets4)
    ensures EmbedsIpv4(x) && x[12..] == o <==> x == MappedForm(o) || x == CompatibleForm(o)
  {
    assert x == x[..10] + x[10..12] + x[12..];
    assert MappedForm(o)[..10] == CompatibleForm(o)[..10] == [0, 0, 0, 0, 0, 0, 0, 0, 0, 0];
    assert MappedForm(o)[10..12] == [0xff, 0xff] && CompatibleForm(o)[10..12] == [0, 0];
    assert MappedForm(o)[12..] == CompatibleForm(o)[12..] == o;
  }

  /** Exactly which addresses fold to an IPv4 address: itself and its two IPv6 spellings. */
  lemma FoldsToIff(ip: IpAddr, o: Octets4)
    ensures FoldIp(ip) == V4(o) <==> ip == V4(o) || ip == V6(MappedForm(o)) || ip == V6(CompatibleForm(o))
  {
    hide EmbedsIpv4, MappedForm, CompatibleForm;
    if ip.V6? {
      EmbedsIff(ip.o16, o);
    }
  }

  /** Exactly the native addresses are their own fold. */
  lemma FoldsToItselfIff(ip: IpAddr)
    ensures FoldIp(ip) == ip <==> IsNative(ip)
  {
    hide EmbedsIpv4, MappedForm, CompatibleForm;
    if ip.V6? {
      if EmbedsIpv4(ip.o16) {
        EmbedsIff(ip.o16, ip.o16[12..]);
      }
      forall o: Octets4 | ip == V6(MappedForm(o)) || ip == V6(CompatibleForm(o)) ensures EmbedsIpv4(ip.o16) {
        EmbedsIff(ip.o16, o);
      }
    }
  }

  /** The IPv4 table's verdict: the scope of a row that holds the address, or global if no row does. */
  ghost predicate SaysTableV4(o: Octets4, scope: Scope) {
    || (exists i :: 0 <= i < |TABLE_V4| && InBlock(o, TABLE_V4[i]) && scope == TABLE_V4[i].scope)
    || ((forall i :: 0 <= i < |TABLE_V4| ==> !InBlock(o, TABLE_V4[i])) && scope == GlobalUnicast)
  }

  ghost predicate SaysTableV6(o: Octets16, scope: Scope) {
    || (exists i :: 0 <= i < |TABLE_V6| && InRange(o, TABLE_V6[i]) && scope == TABLE_V6[i].scope)
    || ((forall i :: 0 <= i < |TABLE_V6| ==> !InRange(o, TABLE_V6[i])) && scope == GlobalUnicast)
  }

  lemma SaysV4(o: Octets4, scope: Scope)
    ensures SaysTableV4(o, scope) <==> scope == ScopeOfV4(o)
  {
    hide InBlock, ScopeOfV4, TABLE_V4;
    ScopeV4IsTheTable(o);
  }

  lemma SaysV6(o: Octets16, scope: Scope)
    requires !EmbedsIpv4(o)
    ensures SaysTableV6(o, scope) <==> scope == ScopeOfV6(o)
  {
    hide InRange, ScopeOfV6, TABLE_V6, EmbedsIpv4;
    ScopeV6IsTheTable(o);
  }

  /**
   * The one classifier, for every socket address: port zero is never dialable; else an IPv4 address,
   * in whichever of its three spellings, gets exactly the verdict of the IPv4 table on its four
   * octets, and every other IPv6 address that of the IPv6 table.
   */
  lemma ScopeIsTheTable(a: SocketAddr, scope: Scope)
    ensures a.port == 0 ==> ScopeOf(a) == NeverDialable
    ensures forall o: Octets4 ::
              a.port != 0 && (a.ip == V4(o) || a.ip == V6(MappedForm(o)) || a.ip == V6(CompatibleForm(o))) ==>
                (ScopeOf(a) == scope <==> SaysTableV4(o, scope))
    ensures a.port != 0 && a.ip.V6? && IsNative(a.ip) ==> (ScopeOf(a) == scope <==> SaysTableV6(a.ip.o16, scope))
  {
    hide ScopeOfV4, ScopeOfV6, MappedForm, CompatibleForm, SaysTableV4, SaysTableV6, EmbedsIpv4, IsNative;
    forall o: Octets4 | a.ip == V4(o) || a.ip == V6(MappedForm(o)) || a.ip == V6(CompatibleForm(o))
      ensures a.port != 0 ==> (ScopeOf(a) == scope <==> SaysTableV4(o, scope))
    {
      FoldsToIff(a.ip, o);
      SaysV4(o, scope);
    }
    FoldsToItselfIff(a.ip);
    if a.ip.V6? && IsNative(a.ip) {
      SaysV6(a.ip.o16, scope);
    }
  }
}
