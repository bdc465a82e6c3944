/** Exactly which strings stand for which class. */
module Spelling {
  import opened Prelude
  import opened Grammar

  /** The digits of a radix, in either case. */
  lemma DigitValueIff(c: char, radix: nat, v: nat)
    requires radix <= 16 && v < 16
    ensures DigitValue(c, radix) == Some(v)
       <==> v < radix && (c == "0123456789abcdef"[v] || c == "0123456789ABCDEF"[v])
  {
  }

  /** At least one digit, any number of zeros in front, and perhaps a plus before all of them. */
  ghost predicate IsNumeral(t: string, radix: nat, n: nat)
    requires radix <= 16
  {
    || (t != "" && Digits(t, radix) == Some(n))
    || (|t| > 1 && t[0] == '+' && Digits(t[1..], radix) == Some(n))
  }

  lemma NoPunctuation(t: string, radix: nat)
    requires radix <= 16 && Digits(t, radix).Some?
    ensures forall i :: 0 <= i < |t| ==> t[i] != '+' && t[i] != '-' && t[i] != '.' && t[i] != ':'
  {
    DigitsAreDigits(t, radix);
    forall i | 0 <= i < |t| ensures t[i] != '+' && t[i] != '-' && t[i] != '.' && t[i] != ':' {
      DigitIsNoPunctuation(t[i], radix);
    }
  }

  lemma ParseUintIff(t: string, radix: nat, max: nat, n: nat)
    requires radix <= 16
    ensures ParseUint(t, radix, max) == Some(n) <==> IsNumeral(t, radix, n) && n <= max
  {
    hide Digits;
    if t != "" && Digits(t, radix).Some? {
      NoPunctuation(t, radix);
    }
    if t != "" && t[0] == '+' && |t| == 1 {
      assert t == "+";
    }
  }

  lemma NumeralHasNoSeparator(t: string, radix: nat, n: nat)
    requires radix <= 16 && IsNumeral(t, radix, n)
    ensures forall i :: 0 <= i < |t| ==> t[i] != '.' && t[i] != ':'
  {
    hide Digits;
    if Digits(t, radix).Some? {
      NoPunctuation(t, radix);
    } else {
      NoPunctuation(t[1..], radix);
      assert forall i :: 1 <= i < |t| ==> t[i] == t[1..][i - 1];
    }
  }

  /** Two numerals with a separator between them. */
  ghost predicate IsPair(s: string, separator: char, radix: nat, m: nat, n: nat)
    requires radix <= 16
  {
    exists t, u :: IsNumeral(t, radix, m) && IsNumeral(u, radix, n) && s == t + [separator] + u
  }

  ghost predicate IsHostPort(s: string, host: string, port: u16) {
    exists t :: IsNumeral(t, 10, port) && s == host + [':'] + t
  }

  /** Which class a string stands for. */
  ghost predicate Spells(s: string, c: SourceClass) {
    match c
    case Operator(host, port) => "operator:" <= s && IsHostPort(s[9..], host, port)
    case Relay(host) => s == "relay:" + host
    case Public(host) => s == "public:" + host
    case PeerV4(a, b) => "peer:v4:" <= s && IsPair(s[8..], '.', 10, a, b)
    case PeerV6(h0, h1) => "peer:v6:" <= s && IsPair(s[8..], ':', 16, h0, h1)
  }

  lemma PairIff(s: string, separator: char, radix: nat, max: nat, m: nat, n: nat)
    requires radix <= 16 && (separator == '.' || separator == ':')
    ensures IsPair(s, separator, radix, m, n) && m <= max && n <= max
       <==> SplitOnce(s, separator).Some?
            && ParseUint(SplitOnce(s, separator).value.0, radix, max) == Some(m)
            && ParseUint(SplitOnce(s, separator).value.1, radix, max) == Some(n)
  {
    hide ParseUint, IsNumeral, SplitOnce;
    if SplitOnce(s, separator).Some? {
      var (t, u) := SplitOnce(s, separator).value;
      SplitOnceJoins(s, separator);
      ParseUintIff(t, radix, max, m);
      ParseUintIff(u, radix, max, n);
    }
    if IsPair(s, separator, radix, m, n) {
      var t, u :| IsNumeral(t, radix, m) && IsNumeral(u, radix, n) && s == t + [separator] + u;
      NumeralHasNoSeparator(t, radix, m);
      SplitsAtFirst(t, separator, u);
    }
  }

  lemma HostPortIff(s: string, host: string, port: u16)
    ensures IsHostPort(s, host, port) <==> ParseOperator(s) == Some(Operator(host, port))
  {
    hide ParseUint, IsNumeral, SplitLast;
    if SplitLast(s, ':').Some? {
      var (_, t) := SplitLast(s, ':').value;
      SplitLastJoins(s, ':');
      ParseUintIff(t, 10, 0xffff, port);
    }
    if IsHostPort(s, host, port) {
      var t :| IsNumeral(t, 10, port) && s == host + [':'] + t;
      NumeralHasNoSeparator(t, 10, port);
      SplitsAtLast(host, ':', t);
    }
  }

  lemma PeerV4Iff(s: string, a: u8, b: u8)
    ensures IsPair(s, '.', 10, a, b) <==> ParsePeerV4(s) == Some(PeerV4(a, b))
  {
    hide ParseUint, IsPair, SplitOnce;
    PairIff(s, '.', 10, 0xff, a, b);
  }

  lemma PeerV6Iff(s: string, h0: u16, h1: u16)
    ensures IsPair(s, ':', 16, h0, h1) <==> ParsePeerV6(s) == Some(PeerV6(h0, h1))
  {
    hide ParseUint, IsPair, SplitOnce;
    PairIff(s, ':', 16, 0xffff, h0, h1);
  }

  /** The prefixes exclude one another. */
  lemma OnePrefix(s: string)
    ensures "operator:" <= s ==> !("relay:" <= s) && !("public:" <= s) && !("peer:v4:" <= s) && !("peer:v6:" <= s)
    ensures "relay:" <= s ==> !("public:" <= s) && !("peer:v4:" <= s) && !("peer:v6:" <= s)
    ensures "public:" <= s ==> !("peer:v4:" <= s) && !("peer:v6:" <= s)
    ensures "peer:v4:" <= s ==> !("peer:v6:" <= s)
  {
    if "operator:" <= s {
      OtherPrefix(s, "operator:", "relay:", 0);
      OtherPrefix(s, "operator:", "public:", 0);
      OtherPrefix(s, "operator:", "peer:v4:", 0);
      OtherPrefix(s, "operator:", "peer:v6:", 0);
    } else if "relay:" <= s {
      OtherPrefix(s, "relay:", "public:", 0);
      OtherPrefix(s, "relay:", "peer:v4:", 0);
      OtherPrefix(s, "relay:", "peer:v6:", 0);
    } else if "public:" <= s {
      OtherPrefix(s, "public:", "peer:v4:", 1);
      OtherPrefix(s, "public:", "peer:v6:", 1);
    } else if "peer:v4:" <= s {
      OtherPrefix(s, "peer:v4:", "peer:v6:", 6);
    }
  }

  lemma EachItsKind(rest: string)
    ensures ParseOperator(rest).Some? ==> ParseOperator(rest).value.Operator?
    ensures ParsePeerV4(rest).Some? ==> ParsePeerV4(rest).value.PeerV4?
    ensures ParsePeerV6(rest).Some? ==> ParsePeerV6(rest).value.PeerV6?
  {
    hide ParseUint, SplitOnce, SplitLast;
  }

  lemma RestIs(s: string, prefix: string, rest: string)
    ensures s == prefix + rest <==> prefix <= s && s[|prefix|..] == rest
  {
  }

  /** Every string that is accepted, with its class, and no other. */
  lemma ParseIff(s: string, c: SourceClass)
    ensures Parse(s) == Some(c) <==> Spells(s, c)
  {
    hide ParseOperator, ParsePeerV4, ParsePeerV6, IsPair, IsHostPort;
    OnePrefix(s);
    if |s| >= 8 {
      EachItsKind(s[8..]);
    }
    if |s| >= 9 {
      EachItsKind(s[9..]);
    }
    match c
    case Operator(host, port) =>
      if "operator:" <= s {
        HostPortIff(s[9..], host, port);
      }
    case Relay(host) => RestIs(s, "relay:", host);
    case Public(host) => RestIs(s, "public:", host);
    case PeerV4(a, b) =>
      if "peer:v4:" <= s {
        PeerV4Iff(s[8..], a, b);
      }
    case PeerV6(h0, h1) =>
      if "peer:v6:" <= s {
        PeerV6Iff(s[8..], h0, h1);
      }
  }
}
