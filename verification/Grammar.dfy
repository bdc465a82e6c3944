/** The grammar of a reading's source: one printed form per independence class. */
module Grammar {
  import opened Prelude
  import opened Scope

  datatype SourceClass =
    | Operator(host: string, port: u16)
    | Relay(host: string)
    | Public(host: string)
    | PeerV4(a: u8, b: u8)
    | PeerV6(h0: u16, h1: u16)

  /** The class of a peer, from its transport address. */
  function PeerClass(ip: IpAddr): SourceClass {
    match FoldIp(ip)
    case V4(o) => PeerV4(o[0], o[1])
    case V6(o) => PeerV6(Segment(o, 0), Segment(o, 1))
  }

  predicate IsPeer(c: SourceClass) {
    c.PeerV4? || c.PeerV6?
  }

  /** Same IPv4 /16, or same IPv6 /32, after folding. */
  predicate SameGroup(p: IpAddr, q: IpAddr) {
    match (FoldIp(p), FoldIp(q))
    case (V4(o), V4(o')) => o[..2] == o'[..2]
    case (V6(o), V6(o')) => o[..4] == o'[..4]
    case _ => false
  }

  lemma PeerClassIsGroup(p: IpAddr, q: IpAddr)
    ensures PeerClass(p) == PeerClass(q) <==> SameGroup(p, q)
  {
  }

  // ----- printing -----

  function DigitChar(d: nat): char
    requires d < 16
  {
    "0123456789abcdef"[d]
  }

  function Decimal(n: nat): (r: string)
    ensures |r| > 0
  {
    if n < 10 then [DigitChar(n)] else Decimal(n / 10) + [DigitChar(n % 10)]
  }

  /** The last `width` hexadecimal digits. */
  function Hex(n: nat, width: nat): (r: string)
    ensures |r| == width
    decreases width
  {
    if width == 0 then [] else Hex(n / 0x10, width - 1) + [DigitChar(n % 0x10)]
  }

  /** `{:04x}` of a 16-bit group. */
  function Hex4(h: u16): (r: string)
    ensures |r| == 4
  {
    Hex(h, 4)
  }

  lemma Hex4Digits(h: u16)
    ensures Hex4(h)
         == [DigitChar(h / 0x1000), DigitChar(h / 0x100 % 0x10), DigitChar(h / 0x10 % 0x10), DigitChar(h % 0x10)]
  {
    hide DigitChar;
    assert h / 0x10 / 0x10 == h / 0x100 && h / 0x100 / 0x10 == h / 0x1000;
    var h1, h2, h3 := h / 0x10, h / 0x100, h / 0x1000;
    assert Hex(h3, 1) == [DigitChar(h3)];
    assert Hex(h2, 2) == [DigitChar(h3), DigitChar(h2 % 0x10)];
    assert Hex(h1, 3) == [DigitChar(h3), DigitChar(h2 % 0x10), DigitChar(h1 % 0x10)];
  }

  function Print(c: SourceClass): string {
    match c
    case Operator(host, port) => "operator:" + (host + [':'] + Decimal(port))
    case Relay(host) => "relay:" + host
    case Public(host) => "public:" + host
    case PeerV4(a, b) => "peer:v4:" + (Decimal(a) + ['.'] + Decimal(b))
    case PeerV6(h0, h1) => "peer:v6:" + (Hex4(h0) + [':'] + Hex4(h1))
  }

  /** One printed source of each kind. */
  lemma PrintedSources(host: string)
    ensures Print(Operator(host, 3478)) == "operator:" + host + ":3478"
    ensures Print(Relay(host)) == "relay:" + host && Print(Public(host)) == "public:" + host
    ensures Print(PeerV4(203, 0)) == "peer:v4:203.0"
    ensures Print(PeerV6(0x2001, 0x0db8)) == "peer:v6:2001:0db8"
  {
    hide Decimal, Hex4;
    PrintedDecimals();
    PrintedHex();
    assert host + [':'] + "3478" == host + ":3478";
    assert "203" + ['.'] + "0" == "203.0";
    assert "2001" + [':'] + "0db8" == "2001:0db8";
  }

  lemma PrintedHex()
    ensures Hex4(0x2001) == "2001" && Hex4(0x0db8) == "0db8"
  {
    hide Hex4, DigitChar;
    Hex4Digits(0x2001);
    Hex4Digits(0x0db8);
    SomeDigits();
  }

  lemma SomeDigits()
    ensures DigitChar(0) == '0' && DigitChar(1) == '1' && DigitChar(2) == '2' && DigitChar(8) == '8'
    ensures DigitChar(0xb) == 'b' && DigitChar(0xd) == 'd'
  {
  }

  lemma PrintedDecimals()
    ensures Decimal(203) == "203" && Decimal(0) == "0" && Decimal(3478) == "3478"
  {
    assert Decimal(20) == "20" && Decimal(347) == "347";
  }

  // ----- parsing -----

  function DigitValue(c: char, radix: nat): (r: Option<nat>)
    requires radix <= 16
    ensures r.Some? ==> r.value < radix
  {
    var v := if '0' <= c <= '9' then c as int - '0' as int
             else if 'a' <= c <= 'f' then c as int - 'a' as int + 10
             else if 'A' <= c <= 'F' then c as int - 'A' as int + 10
             else 16;
    if v < radix then Some(v) else None
  }

  function Digits(s: string, radix: nat): Option<nat>
    requires radix <= 16
  {
    if s == [] then Some(0)
    else
      var high, low := Digits(Front(s), radix), DigitValue(Last(s), radix);
      if high.Some? && low.Some? then Some(high.value * radix + low.value) else None
  }

  /** Rust's unsigned `from_str_radix`: an optional plus, at least one digit, no overflow. */
  function ParseUint(s: string, radix: nat, max: nat): (r: Option<nat>)
    requires radix <= 16
    ensures r.Some? ==> r.value <= max
  {
    if s == [] || s == "+" || s == "-" then None
    else
      var v := Digits(if s[0] == '+' then s[1..] else s, radix);
      if v.Some? && v.value <= max then v else None
  }

  function StripPrefix(s: string, prefix: string): Option<string> {
    if prefix <= s then Some(s[|prefix|..]) else None
  }

  /** `split_once`: around the first `c`. */
  function SplitOnce(s: string, c: char): Option<(string, string)> {
    if s == [] then None
    else if s[0] == c then Some(("", s[1..]))
    else
      match SplitOnce(s[1..], c)
      case None => None
      case Some((head, tail)) => Some(([s[0]] + head, tail))
  }

  /** `rsplit_once`: around the last `c`. */
  function SplitLast(s: string, c: char): Option<(string, string)> {
    if s == [] then None
    else if Last(s) == c then Some((Front(s), ""))
    else
      match SplitLast(Front(s), c)
      case None => None
      case Some((head, tail)) => Some((head, tail + [Last(s)]))
  }

  function ParseOperator(rest: string): Option<SourceClass> {
    match SplitLast(rest, ':')
    case None => None
    case Some((host, port)) =>
      match ParseUint(port, 10, 0xffff)
      case None => None
      case Some(n) => Some(Operator(host, n))
  }

  function ParsePeerV4(rest: string): Option<SourceClass> {
    match SplitOnce(rest, '.')
    case None => None
    case Some((a, b)) =>
      match (ParseUint(a, 10, 0xff), ParseUint(b, 10, 0xff))
      case (Some(x), Some(y)) => Some(PeerV4(x, y))
      case _ => None
  }

  function ParsePeerV6(rest: string): Option<SourceClass> {
    match SplitOnce(rest, ':')
    case None => None
    case Some((h0, h1)) =>
      match (ParseUint(h0, 16, 0xffff), ParseUint(h1, 16, 0xffff))
      case (Some(x), Some(y)) => Some(PeerV6(x, y))
      case _ => None
  }

  function Parse(s: string): Option<SourceClass> {
    if StripPrefix(s, "operator:").Some? then ParseOperator(s[9..])
    else if StripPrefix(s, "relay:").Some? then Some(Relay(s[6..]))
    else if StripPrefix(s, "public:").Some? then Some(Public(s[7..]))
    else if StripPrefix(s, "peer:v4:").Some? then ParsePeerV4(s[8..])
    else if StripPrefix(s, "peer:v6:").Some? then ParsePeerV6(s[8..])
    else None
  }

  // ----- numerals -----

  lemma DigitRoundTrip(d: nat, radix: nat)
    requires d < radix <= 16
    ensures DigitValue(DigitChar(d), radix) == Some(d)
    ensures DigitChar(d) != '+' && DigitChar(d) != '-' && DigitChar(d) != '.' && DigitChar(d) != ':'
    ensures !('A' <= DigitChar(d) <= 'F') && (DigitChar(d) == '0' <==> d == 0)
  {
  }

  lemma {:induction false} DigitsSnoc(s: string, c: char, radix: nat)
    requires radix <= 16
    ensures Digits(s + [c], radix) ==
              if Digits(s, radix).Some? && DigitValue(c, radix).Some?
              then Some(Digits(s, radix).value * radix + DigitValue(c, radix).value) else None
  {
  }

  /** A printed decimal: digits only, no superfluous zero, and its value is the number. */
  lemma {:induction false} DecimalReadsBack(n: nat)
    ensures Digits(Decimal(n), 10) == Some(n)
    ensures forall i :: 0 <= i < |Decimal(n)| ==> DigitValue(Decimal(n)[i], 10).Some?
    ensures |Decimal(n)| == 1 || Decimal(n)[0] != '0'
    ensures n > 0 ==> Decimal(n)[0] != '0'
  {
    if n < 10 {
      DigitRoundTrip(n, 10);
      assert Front([DigitChar(n)]) == [];
    } else {
      DecimalReadsBack(n / 10);
      DigitRoundTrip(n % 10, 10);
      DigitsSnoc(Decimal(n / 10), DigitChar(n % 10), 10);
      assert n / 10 * 10 + n % 10 == n;
    }
  }

  lemma DigitIsNoPunctuation(c: char, radix: nat)
    requires radix <= 16 && DigitValue(c, radix).Some?
    ensures c != '+' && c != '-' && c != '.' && c != ':'
  {
  }

  lemma ParseDecimal(n: nat, max: nat)
    requires n <= max
    ensures ParseUint(Decimal(n), 10, max) == Some(n)
    ensures forall i :: 0 <= i < |Decimal(n)| ==> Decimal(n)[i] != '.' && Decimal(n)[i] != ':'
  {
    DecimalReadsBack(n);
    forall i | 0 <= i < |Decimal(n)|
      ensures Decimal(n)[i] != '.' && Decimal(n)[i] != ':' && Decimal(n)[i] != '+' && Decimal(n)[i] != '-'
    {
      DigitIsNoPunctuation(Decimal(n)[i], 10);
    }
  }

  lemma HexDigits(h: u16)
    ensures var d0, d1, d2, d3 := h / 0x1000, h / 0x100 % 0x10, h / 0x10 % 0x10, h % 0x10;
            d0 < 16 && ((d0 * 16 + d1) * 16 + d2) * 16 + d3 == h
  {
    assert h / 0x10 / 0x10 == h / 0x100 && h / 0x100 / 0x10 == h / 0x1000;
  }

  lemma ParseHex4(h: u16)
    ensures ParseUint(Hex4(h), 16, 0xffff) == Some(h)
    ensures forall i :: 0 <= i < 4 ==> Hex4(h)[i] != ':'
  {
    hide Digits, DigitChar, DigitValue;
    var d0, d1, d2, d3 := h / 0x1000, h / 0x100 % 0x10, h / 0x10 % 0x10, h % 0x10;
    HexDigits(h);
    Hex4Digits(h);
    DigitRoundTrip(d0, 16);
    DigitRoundTrip(d1, 16);
    DigitRoundTrip(d2, 16);
    DigitRoundTrip(d3, 16);
    FourDigits(DigitChar(d0), DigitChar(d1), DigitChar(d2), DigitChar(d3), 16);
  }

  lemma FourDigits(a: char, b: char, c: char, d: char, radix: nat)
    requires radix <= 16
    requires DigitValue(a, radix).Some? && DigitValue(b, radix).Some?
    requires DigitValue(c, radix).Some? && DigitValue(d, radix).Some?
    ensures Digits([a, b, c, d], radix)
         == Some(((DigitValue(a, radix).value * radix + DigitValue(b, radix).value) * radix
                  + DigitValue(c, radix).value) * radix + DigitValue(d, radix).value)
  {
    DigitsSnoc([], a, radix);
    DigitsSnoc([a], b, radix);
    DigitsSnoc([a, b], c, radix);
    DigitsSnoc([a, b, c], d, radix);
    assert [] + [a] == [a] && [a] + [b] == [a, b] && [a, b] + [c] == [a, b, c] && [a, b, c] + [d] == [a, b, c, d];
  }

  // ----- splitting -----

  lemma {:induction false} SplitsAtFirst(head: string, c: char, tail: string)
    requires forall i :: 0 <= i < |head| ==> head[i] != c
    ensures SplitOnce(head + [c] + tail, c) == Some((head, tail))
  {
    var s := head + [c] + tail;
    if head == [] {
      assert s[1..] == tail;
    } else {
      SplitsAtFirst(head[1..], c, tail);
      assert s[1..] == head[1..] + [c] + tail;
      assert [head[0]] + head[1..] == head;
    }
  }

  lemma {:induction false} SplitsAtLast(head: string, c: char, tail: string)
    requires forall i :: 0 <= i < |tail| ==> tail[i] != c
    ensures SplitLast(head + [c] + tail, c) == Some((head, tail))
  {
    var s := head + [c] + tail;
    if tail == [] {
      assert Front(s) == head;
    } else {
      SplitsAtLast(head, c, Front(tail));
      assert Front(s) == head + [c] + Front(tail);
      assert Front(tail) + [Last(tail)] == tail;
    }
  }

  // ----- round trip -----

  lemma StripsOwn(prefix: string, rest: string)
    ensures prefix <= prefix + rest && (prefix + rest)[|prefix|..] == rest
  {
  }

  /** Two prefixes that differ somewhere are never both prefixes of the same string. */
  lemma OtherPrefix(s: string, p: string, q: string, i: nat)
    requires p <= s && i < |p| && i < |q| && p[i] != q[i]
    ensures !(q <= s)
  {
  }

  /** Every class is read back from the string that stands for it. */
  lemma ParsePrint(c: SourceClass)
    ensures Parse(Print(c)) == Some(c)
  {
    hide Decimal, Hex4, SplitOnce, SplitLast, ParseUint;
    var s := Print(c);
    match c
    case Operator(host, port) =>
      StripsOwn("operator:", host + [':'] + Decimal(port));
      ParseDecimal(port, 0xffff);
      SplitsAtLast(host, ':', Decimal(port));
    case Relay(host) =>
      StripsOwn("relay:", host);
      OtherPrefix(s, "relay:", "operator:", 0);
    case Public(host) =>
      StripsOwn("public:", host);
      OtherPrefix(s, "public:", "operator:", 0);
      OtherPrefix(s, "public:", "relay:", 0);
    case PeerV4(a, b) =>
      StripsOwn("peer:v4:", Decimal(a) + ['.'] + Decimal(b));
      OtherPrefix(s, "peer:v4:", "operator:", 0);
      OtherPrefix(s, "peer:v4:", "relay:", 0);
      OtherPrefix(s, "peer:v4:", "public:", 1);
      ParseDecimal(a, 0xff);
      ParseDecimal(b, 0xff);
      SplitsAtFirst(Decimal(a), '.', Decimal(b));
    case PeerV6(h0, h1) =>
      StripsOwn("peer:v6:", Hex4(h0) + [':'] + Hex4(h1));
      OtherPrefix(s, "peer:v6:", "operator:", 0);
      OtherPrefix(s, "peer:v6:", "relay:", 0);
      OtherPrefix(s, "peer:v6:", "public:", 1);
      OtherPrefix(s, "peer:v6:", "peer:v4:", 6);
      ParseHex4(h0);
      ParseHex4(h1);
      Hex4Plain(h0);
      SplitsAtFirst(Hex4(h0), ':', Hex4(h1));
  }

  lemma Hex4Plain(h: u16)
    ensures forall i :: 0 <= i < |Hex4(h)| ==> Hex4(h)[i] != ':'
  {
    Hex4Digits(h);
  }

  /** Different classes never print the same string: inequality of strings is inequality of classes. */
  lemma PrintInjective(c: SourceClass, d: SourceClass)
    ensures Print(c) == Print(d) <==> c == d
  {
    ParsePrint(c);
    ParsePrint(d);
  }

  // ----- which strings print back -----

  /** No sign, no superfluous leading zero. */
  predicate PlainDecimal(t: string) {
    t != [] && t[0] != '+' && (|t| == 1 || t[0] != '0')
  }

  /** Exactly four digits, none of them upper-case, no sign. */
  predicate PlainHex(t: string) {
    |t| == 4 && t[0] != '+' && forall i :: 0 <= i < 4 ==> !('A' <= t[i] <= 'F')
  }

  /** Every numeral of a source string is written the way the printer writes numerals. */
  predicate PlainNumerals(s: string) {
    if StripPrefix(s, "operator:").Some? then
      var parts := SplitLast(s[9..], ':');
      parts.Some? && PlainDecimal(parts.value.1)
    else if StripPrefix(s, "peer:v4:").Some? then
      var parts := SplitOnce(s[8..], '.');
      parts.Some? && PlainDecimal(parts.value.0) && PlainDecimal(parts.value.1)
    else if StripPrefix(s, "peer:v6:").Some? then
      var parts := SplitOnce(s[8..], ':');
      parts.Some? && PlainHex(parts.value.0) && PlainHex(parts.value.1)
    else true
  }

  lemma CharOfDigit(c: char, radix: nat)
    requires radix <= 16 && DigitValue(c, radix).Some? && !('A' <= c <= 'F')
    ensures DigitChar(DigitValue(c, radix).value) == c
  {
  }

  lemma {:induction false} DigitsPositive(t: string)
    requires t != [] && Digits(t, 10).Some? && t[0] != '0'
    ensures Digits(t, 10).value > 0
  {
    if |t| > 1 {
      DigitsPositive(Front(t));
    } else {
      assert Front(t) == [];
    }
  }

  lemma {:induction false} PlainDigitsPrint(t: string)
    requires Digits(t, 10).Some? && t != [] && (|t| == 1 || t[0] != '0')
    ensures Decimal(Digits(t, 10).value) == t
  {
    var n, low := Digits(t, 10).value, DigitValue(Last(t), 10).value;
    CharOfDigit(Last(t), 10);
    assert t == Front(t) + [Last(t)];
    if |t| == 1 {
      assert Front(t) == [];
    } else {
      var high := Digits(Front(t), 10).value;
      DigitsPositive(Front(t));
      PlainDigitsPrint(Front(t));
      assert n == high * 10 + low && n / 10 == high && n % 10 == low;
    }
  }

  lemma DecimalPrintsBack(t: string, max: nat)
    requires ParseUint(t, 10, max).Some?
    ensures Decimal(ParseUint(t, 10, max).value) == t <==> PlainDecimal(t)
  {
    var n := ParseUint(t, 10, max).value;
    if PlainDecimal(t) {
      PlainDigitsPrint(t);
    }
    if Decimal(n) == t {
      DecimalReadsBack(n);
      DigitIsNoPunctuation(t[0], 10);
    }
  }

  lemma HexPrintsBack(t: string)
    requires ParseUint(t, 16, 0xffff).Some?
    ensures Hex4(ParseUint(t, 16, 0xffff).value) == t <==> PlainHex(t)
  {
    var h := ParseUint(t, 16, 0xffff).value;
    if PlainHex(t) {
      PlainHexPrints(t, h);
    }
    if Hex4(h) == t {
      HexIsPlain(h);
    }
  }

  lemma HexIsPlain(h: u16)
    ensures PlainHex(Hex4(h))
  {
    Hex4Digits(h);
    DigitRoundTrip(h / 0x1000, 16);
    DigitRoundTrip(h / 0x100 % 0x10, 16);
    DigitRoundTrip(h / 0x10 % 0x10, 16);
    DigitRoundTrip(h % 0x10, 16);
  }

  lemma {:induction false} DigitsAreDigits(t: string, radix: nat)
    requires radix <= 16 && Digits(t, radix).Some?
    ensures forall i :: 0 <= i < |t| ==> DigitValue(t[i], radix).Some?
  {
    if t != [] {
      DigitsAreDigits(Front(t), radix);
    }
  }

  lemma PlainHexPrints(t: string, h: u16)
    requires PlainHex(t) && Digits(t, 16) == Some(h)
    ensures Hex4(h) == t
  {
    DigitsAreDigits(t, 16);
    var a, b, c, d := t[0], t[1], t[2], t[3];
    assert t == [a, b, c, d];
    FourDigits(a, b, c, d, 16);
    CharOfDigit(a, 16);
    CharOfDigit(b, 16);
    CharOfDigit(c, 16);
    CharOfDigit(d, 16);
    HexDigits(h);
    Hex4Digits(h);
    SameHexDigits(h, DigitValue(a, 16).value, DigitValue(b, 16).value,
                  DigitValue(c, 16).value, DigitValue(d, 16).value);
  }

  lemma SameHexDigits(h: u16, d0: nat, d1: nat, d2: nat, d3: nat)
    requires d0 < 16 && d1 < 16 && d2 < 16 && d3 < 16 && ((d0 * 16 + d1) * 16 + d2) * 16 + d3 == h
    ensures h / 0x1000 == d0 && h / 0x100 % 0x10 == d1 && h / 0x10 % 0x10 == d2 && h % 0x10 == d3
  {
  }

  lemma {:induction false} SplitOnceJoins(s: string, c: char)
    requires SplitOnce(s, c).Some?
    ensures s == SplitOnce(s, c).value.0 + [c] + SplitOnce(s, c).value.1
  {
    if s[0] != c {
      SplitOnceJoins(s[1..], c);
      assert s == [s[0]] + s[1..];
    }
  }

  lemma {:induction false} SplitLastJoins(s: string, c: char)
    requires SplitLast(s, c).Some?
    ensures s == SplitLast(s, c).value.0 + [c] + SplitLast(s, c).value.1
  {
    assert s == Front(s) + [Last(s)];
    if Last(s) != c {
      SplitLastJoins(Front(s), c);
    }
  }

  lemma SameRest(s: string, prefix: string, rest: string)
    requires prefix <= s
    ensures prefix + rest == s <==> rest == s[|prefix|..]
  {
  }

  lemma OperatorPrintsBack(rest: string)
    requires ParseOperator(rest).Some?
    ensures var c, parts := ParseOperator(rest).value, SplitLast(rest, ':').value;
            c.Operator? && (c.host + [':'] + Decimal(c.port) == rest <==> PlainDecimal(parts.1))
  {
    hide ParseUint, Decimal, PlainDecimal;
    var (host, port) := SplitLast(rest, ':').value;
    var n := ParseUint(port, 10, 0xffff).value;
    DecimalPrintsBack(port, 0xffff);
    SplitLastJoins(rest, ':');
    ParseDecimal(n, 0xffff);
    SplitsAtLast(host, ':', Decimal(n));
  }

  lemma PeerV4PrintsBack(rest: string)
    requires ParsePeerV4(rest).Some?
    ensures var c, parts := ParsePeerV4(rest).value, SplitOnce(rest, '.').value;
            && c.PeerV4?
            && (Decimal(c.a) + ['.'] + Decimal(c.b) == rest <==> PlainDecimal(parts.0) && PlainDecimal(parts.1))
  {
    hide ParseUint, Decimal, PlainDecimal;
    var (a, b) := SplitOnce(rest, '.').value;
    var x, y := ParseUint(a, 10, 0xff).value, ParseUint(b, 10, 0xff).value;
    DecimalPrintsBack(a, 0xff);
    DecimalPrintsBack(b, 0xff);
    SplitOnceJoins(rest, '.');
    ParseDecimal(x, 0xff);
    SplitsAtFirst(Decimal(x), '.', Decimal(y));
  }

  lemma PeerV6PrintsBack(rest: string)
    requires ParsePeerV6(rest).Some?
    ensures var c, parts := ParsePeerV6(rest).value, SplitOnce(rest, ':').value;
            c.PeerV6? && (Hex4(c.h0) + [':'] + Hex4(c.h1) == rest <==> PlainHex(parts.0) && PlainHex(parts.1))
  {
    hide ParseUint, Hex4, PlainHex;
    var (a, b) := SplitOnce(rest, ':').value;
    var x, y := ParseUint(a, 16, 0xffff).value, ParseUint(b, 16, 0xffff).value;
    HexPrintsBack(a);
    HexPrintsBack(b);
    SplitOnceJoins(rest, ':');
    Hex4Plain(x);
    SplitsAtFirst(Hex4(x), ':', Hex4(y));
  }

  /**
   * Section 7.2 of the dig-stun Normative Specification wants the parser to refuse whatever the
   * grammar does not print. It accepts more: a string that parses prints back exactly when its
   * numerals carry no sign, no superfluous zero and no upper-case digit, and hexadecimal ones have
   * four digits.
   */
  lemma PrintsBackIffPlain(s: string)
    requires Parse(s).Some?
    ensures Print(Parse(s).value) == s <==> PlainNumerals(s)
  {
    hide ParseUint, Decimal, Hex4, PlainDecimal, PlainHex, SplitOnce, SplitLast;
    var c := Parse(s).value;
    if StripPrefix(s, "operator:").Some? {
      OperatorPrintsBack(s[9..]);
      SameRest(s, "operator:", c.host + [':'] + Decimal(c.port));
    } else if StripPrefix(s, "relay:").Some? {
      SameRest(s, "relay:", c.host);
      OtherPrefix(s, "relay:", "peer:v4:", 0);
      OtherPrefix(s, "relay:", "peer:v6:", 0);
    } else if StripPrefix(s, "public:").Some? {
      SameRest(s, "public:", c.host);
      OtherPrefix(s, "public:", "peer:v4:", 1);
      OtherPrefix(s, "public:", "peer:v6:", 1);
    } else if StripPrefix(s, "peer:v4:").Some? {
      PeerV4PrintsBack(s[8..]);
      SameRest(s, "peer:v4:", Decimal(c.a) + ['.'] + Decimal(c.b));
    } else {
      PeerV6PrintsBack(s[8..]);
      SameRest(s, "peer:v6:", Hex4(c.h0) + [':'] + Hex4(c.h1));
    }
  }

  /** Among strings with plain numerals different strings are different classes. */
  lemma PlainIsUnique(s: string, t: string)
    requires Parse(s).Some? && Parse(t).Some? && PlainNumerals(s) && PlainNumerals(t)
    ensures Parse(s) == Parse(t) <==> s == t
  {
    hide Parse, Print, PlainNumerals;
    PrintsBackIffPlain(s);
    PrintsBackIffPlain(t);
  }

  /** Three strings, one class: independence is compared on strings, so they would count as three. */
  lemma OneClassThreeStrings()
    ensures Parse("peer:v4:1.2") == Parse("peer:v4:+1.2") == Parse("peer:v4:01.2") == Some(PeerV4(1, 2))
  {
    hide Parse, ParseUint;
    OneSpelledThreeWays();
    SpelledPeer("1", 1);
    SpelledPeer("+1", 1);
    SpelledPeer("01", 1);
    assert "peer:v4:" + ("1" + ['.'] + "2") == "peer:v4:1.2";
    assert "peer:v4:" + ("+1" + ['.'] + "2") == "peer:v4:+1.2";
    assert "peer:v4:" + ("01" + ['.'] + "2") == "peer:v4:01.2";
  }

  lemma OneSpelledThreeWays()
    ensures ParseUint("1", 10, 0xff) == ParseUint("+1", 10, 0xff) == ParseUint("01", 10, 0xff) == Some(1)
  {
  }

  lemma SpelledPeer(a: string, x: u8)
    requires ParseUint(a, 10, 0xff) == Some(x) && forall i :: 0 <= i < |a| ==> a[i] != '.'
    ensures Parse("peer:v4:" + (a + ['.'] + "2")) == Some(PeerV4(x, 2))
  {
    var rest := a + ['.'] + "2";
    var s := "peer:v4:" + rest;
    StripsOwn("peer:v4:", rest);
    OtherPrefix(s, "peer:v4:", "operator:", 0);
    OtherPrefix(s, "peer:v4:", "relay:", 0);
    OtherPrefix(s, "peer:v4:", "public:", 1);
    SplitsAtFirst(a, '.', "2");
    assert Front("2") == [];
    assert ParseUint("2", 10, 0xff) == Some(2);
  }
}
