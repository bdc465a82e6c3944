/** Which realms are strings: exactly the encodings of sequences of Unicode scalar values (RFC 3629). */
module Utf8 {
  import opened Prelude
  import opened Response

  /** A Unicode code point that is no surrogate. */
  type Scalar = c: int | 0 <= c < 0xD800 || 0xE000 <= c < 0x11_0000

  /** Section 3 of RFC 3629: six bits to each trailing octet, and as few octets as will do. */
  function EncodeScalar(c: Scalar): (r: Bytes)
    ensures |r| == if c < 0x80 then 1 else if c < 0x800 then 2 else if c < 0x1_0000 then 3 else 4
  {
    if c < 0x80 then [c]
    else if c < 0x800 then [0xc0 + c / 0x40, 0x80 + c % 0x40]
    else if c < 0x1_0000 then [0xe0 + c / 0x1000, 0x80 + c / 0x40 % 0x40, 0x80 + c % 0x40]
    else [0xf0 + c / 0x4_0000, 0x80 + c / 0x1000 % 0x40, 0x80 + c / 0x40 % 0x40, 0x80 + c % 0x40]
  }

  function EncodeText(text: seq<Scalar>): Bytes {
    if text == [] then [] else EncodeScalar(text[0]) + EncodeText(text[1..])
  }

  lemma SixBits(a: nat, b: nat, c: nat)
    requires b < 0x40 && c < 0x40
    ensures var n := a * 0x1000 + b * 0x40 + c;
            n / 0x1000 == a && n / 0x40 % 0x40 == b && n % 0x40 == c && n / 0x40 == a * 0x40 + b
  {
    assert (a * 0x1000 + b * 0x40 + c) / 0x40 == a * 0x40 + b;
  }

  lemma TwoOctets(a: nat, b: nat)
    requires 2 <= a < 0x20 && b < 0x40
    ensures EncodeScalar(a * 0x40 + b) == [0xc0 + a, 0x80 + b]
  {
  }

  lemma ThreeOctets(a: nat, b: nat, c: nat)
    requires a < 0x10 && b < 0x40 && c < 0x40 && (a == 0 ==> b >= 0x20) && (a == 0xd ==> b < 0x20)
    ensures EncodeScalar(a * 0x1000 + b * 0x40 + c) == [0xe0 + a, 0x80 + b, 0x80 + c]
  {
    SixBits(a, b, c);
  }

  lemma FourOctets(a: nat, b: nat, c: nat, d: nat)
    requires a <= 4 && b < 0x40 && c < 0x40 && d < 0x40 && (a == 0 ==> b >= 0x10) && (a == 4 ==> b < 0x10)
    ensures EncodeScalar(a * 0x4_0000 + b * 0x1000 + c * 0x40 + d) == [0xf0 + a, 0x80 + b, 0x80 + c, 0x80 + d]
  {
    SixBits(a * 0x40 + b, c, d);
  }

  /** A well-formed text begins with the octets of one scalar value, and the rest is well-formed. */
  lemma FirstScalar(s: Bytes) returns (c: Scalar)
    requires IsUtf8(s) && s != []
    ensures |EncodeScalar(c)| <= |s| && s[..|EncodeScalar(c)|] == EncodeScalar(c) && IsUtf8(s[|EncodeScalar(c)|..])
  {
    hide EncodeScalar;
    var x0: nat := s[0];
    if x0 < 0x80 {
      c := x0;
      OneOctet(c);
    } else if x0 <= 0xdf {
      var x1: nat := s[1];
      TwoOctets(x0 - 0xc0, x1 - 0x80);
      c := (x0 - 0xc0) * 0x40 + (x1 - 0x80);
      assert s[..2] == [x0, x1];
    } else if x0 <= 0xef {
      var x1: nat, x2: nat := s[1], s[2];
      ThreeOctets(x0 - 0xe0, x1 - 0x80, x2 - 0x80);
      c := (x0 - 0xe0) * 0x1000 + (x1 - 0x80) * 0x40 + (x2 - 0x80);
      assert s[..3] == [x0, x1, x2];
    } else {
      var x1: nat, x2: nat, x3: nat := s[1], s[2], s[3];
      FourOctets(x0 - 0xf0, x1 - 0x80, x2 - 0x80, x3 - 0x80);
      c := (x0 - 0xf0) * 0x4_0000 + (x1 - 0x80) * 0x1000 + (x2 - 0x80) * 0x40 + (x3 - 0x80);
      assert s[..4] == [x0, x1, x2, x3];
    }
  }

  lemma OneOctet(c: nat)
    requires c < 0x80
    ensures EncodeScalar(c) == [c]
  {
  }

  /** Conversely the octets of a scalar value may stand before any well-formed text. */
  lemma ScalarBefore(c: Scalar, rest: Bytes)
    ensures IsUtf8(EncodeScalar(c) + rest) <==> IsUtf8(rest)
  {
    var e, s := EncodeScalar(c), EncodeScalar(c) + rest;
    assert s[|e|..] == rest;
    OctetsAllowed(c);
    forall i | 0 <= i < |e| ensures s[i] == e[i] {
    }
    hide EncodeScalar;
  }

  /** What the octets of a scalar value look like, by how many there are. */
  lemma OctetsAllowed(c: Scalar)
    ensures var e := EncodeScalar(c);
            && |e| > 0 && (forall i :: 1 <= i < |e| ==> IsTail(e[i]))
            && (|e| == 1 ==> e[0] < 0x80)
            && (|e| == 2 ==> 0xc2 <= e[0] <= 0xdf)
            && (|e| == 3 ==>
                 0xe0 <= e[0] <= 0xef && (e[0] == 0xe0 ==> e[1] >= 0xa0) && (e[0] == 0xed ==> e[1] <= 0x9f))
            && (|e| == 4 ==>
                 0xf0 <= e[0] <= 0xf4 && (e[0] == 0xf0 ==> e[1] >= 0x90) && (e[0] == 0xf4 ==> e[1] <= 0x8f))
  {
    SixBitDigits(c);
  }

  lemma SixBitDigits(c: nat)
    ensures c / 0x1000 * 0x1000 + c / 0x40 % 0x40 * 0x40 <= c < c / 0x1000 * 0x1000 + c / 0x40 % 0x40 * 0x40 + 0x40
    ensures c / 0x4_0000 * 0x4_0000 + c / 0x1000 % 0x40 * 0x1000 <= c
            < c / 0x4_0000 * 0x4_0000 + c / 0x1000 % 0x40 * 0x1000 + 0x1000
  {
    SixBitsMore(c, 0x40);
    SixBitsMore(c, 0x1000);
  }

  /** Dividing by `n` and then by 64 is dividing by 64 times `n`. */
  lemma SixBitsMore(c: nat, n: nat)
    requires n == 0x40 || n == 0x1000
    ensures c / n / 0x40 == c / (n * 0x40)
    ensures c / n * n <= c < c / n * n + n
    ensures c / n == 0x40 * (c / (n * 0x40)) + c / n % 0x40
  {
    var q := c / n;
    assert q == 0x40 * (q / 0x40) + q % 0x40;
    if n == 0x40 {
      assert c / 0x40 / 0x40 == c / 0x1000;
    } else {
      assert c / 0x1000 / 0x40 == c / 0x4_0000;
    }
  }

  lemma {:induction false} TextIsUtf8(text: seq<Scalar>)
    ensures IsUtf8(EncodeText(text))
  {
    hide EncodeScalar;
    if text != [] {
      TextIsUtf8(text[1..]);
      ScalarBefore(text[0], EncodeText(text[1..]));
    }
  }

  lemma {:induction false} Utf8IsText(s: Bytes) returns (text: seq<Scalar>)
    requires IsUtf8(s)
    ensures EncodeText(text) == s
  {
    hide EncodeScalar;
    text := [];
    if s != [] {
      var c := FirstScalar(s);
      var n := |EncodeScalar(c)|;
      OctetsAllowed(c);
      var rest := Utf8IsText(s[n..]);
      text := [c] + rest;
      assert text[1..] == rest;
      assert s == s[..n] + s[n..];
    }
  }

  /** Well-formed are exactly the encodings. */
  lemma Utf8Iff(s: Bytes)
    ensures IsUtf8(s) <==> exists text :: EncodeText(text) == s
  {
    hide IsUtf8, EncodeText;
    if IsUtf8(s) {
      var text := Utf8IsText(s);
    }
    forall text | EncodeText(text) == s ensures IsUtf8(s) {
      TextIsUtf8(text);
    }
  }
}
