/** Base64url without padding (section 5 of RFC 4648), the text form of a nonce. */
module Base64Url {
  import opened Prelude

  /** The alphabet: `A-Z`, `a-z`, `0-9`, `-`, `_`. */
  function Char64(v: nat): u8
    requires v < 64
  {
    if v < 26 then 65 + v
    else if v < 52 then 97 + (v - 26)
    else if v < 62 then 48 + (v - 52)
    else if v == 62 then 45
    else 95
  }

  function Value64(c: u8): (r: Option<u8>)
    ensures r.Some? ==> r.value < 64
  {
    if 65 <= c <= 90 then Some(c - 65)
    else if 97 <= c <= 122 then Some(c - 97 + 26)
    else if 48 <= c <= 57 then Some(c - 48 + 52)
    else if c == 45 then Some(62)
    else if c == 95 then Some(63)
    else None
  }

  predicate InAlphabet(t: Bytes) {
    forall i :: 0 <= i < |t| ==> Value64(t[i]).Some?
  }

  lemma AlphabetInverse(v: nat, c: u8)
    requires v < 64
    ensures Value64(Char64(v)) == Some(v)
    ensures Value64(c) == Some(v) <==> c == Char64(v)
  {
  }

  /** Table 2 of RFC 4648. */
  lemma AlphabetIsTable2(v: nat)
    requires v < 64
    ensures v < 26 ==> Char64(v) == Ascii("ABCDEFGHIJKLMNOPQRSTUVWXYZ")[v]
    ensures 26 <= v < 52 ==> Char64(v) == Ascii("abcdefghijklmnopqrstuvwxyz")[v - 26]
    ensures 52 <= v ==> Char64(v) == Ascii("0123456789-_")[v - 52]
  {
  }

  // ----- groups of three bytes and of four characters -----

  /** One chunk of up to three bytes as the characters it needs. */
  function EncodeGroup(chunk: Bytes): (r: Bytes)
    requires 1 <= |chunk| <= 3
    ensures |r| == |chunk| + 1
  {
    var b0: nat := chunk[0];
    var b1: nat := if |chunk| > 1 then chunk[1] else 0;
    var b2: nat := if |chunk| > 2 then chunk[2] else 0;
    var n := b0 * 0x1_0000 + b1 * 0x100 + b2;
    [Char64(n / 0x4_0000 % 0x40), Char64(n / 0x1000 % 0x40)]
    + (if |chunk| > 1 then [Char64(n / 0x40 % 0x40)] else [])
    + (if |chunk| > 2 then [Char64(n % 0x40)] else [])
  }

  function DecodeGroup(group: Bytes): (r: Option<Bytes>)
    requires 1 <= |group| <= 4
  {
    if !InAlphabet(group) || |group| == 1 then None
    else
      var v0, v1 := Value64(group[0]).value, Value64(group[1]).value;
      var v2 := if |group| > 2 then Value64(group[2]).value else 0;
      var v3 := if |group| > 3 then Value64(group[3]).value else 0;
      var n := v0 * 0x4_0000 + v1 * 0x1000 + v2 * 0x40 + v3;
      Some([n / 0x1_0000 % 0x100]
           + (if |group| > 2 then [n / 0x100 % 0x100] else [])
           + (if |group| > 3 then [n % 0x100] else []))
  }

  /** How many values of the last character stand for the same bytes. */
  function Slack(n: nat): nat {
    if n % 3 == 0 then 1 else if n % 3 == 1 then 16 else 4
  }

  /** `t` spells what `e` spells: the same characters, but for the unused low bits of the last one. */
  predicate SameText(t: Bytes, e: Bytes, slack: nat)
    requires slack > 0 && InAlphabet(e)
  {
    && |t| == |e|
    && InAlphabet(t)
    && (forall i :: 0 <= i < |e| - 1 ==> t[i] == e[i])
    && (e != [] ==> Value64(Last(t)).value / slack == Value64(Last(e)).value / slack)
  }

  lemma DivideBy64(q: nat, r: nat)
    requires r < 0x40
    ensures (q * 0x40 + r) / 0x40 == q && (q * 0x40 + r) % 0x40 == r
  {
  }

  lemma DivideBy4096(q: nat, r: nat)
    requires r < 0x1000
    ensures (q * 0x1000 + r) / 0x1000 == q
  {
  }

  lemma DivideBy262144(q: nat, r: nat)
    requires r < 0x4_0000
    ensures (q * 0x4_0000 + r) / 0x4_0000 == q
  {
  }

  lemma DivideBy256(q: nat, r: nat)
    requires r < 0x100
    ensures (q * 0x100 + r) / 0x100 == q && (q * 0x100 + r) % 0x100 == r
  {
  }

  lemma DivideBy65536(q: nat, r: nat)
    requires r < 0x1_0000
    ensures (q * 0x1_0000 + r) / 0x1_0000 == q
  {
  }

  lemma DigitsBase64(d0: nat, d1: nat, d2: nat, d3: nat)
    requires d0 < 64 && d1 < 64 && d2 < 64 && d3 < 64
    ensures var n := d0 * 0x4_0000 + d1 * 0x1000 + d2 * 0x40 + d3;
            n / 0x4_0000 % 0x40 == d0 && n / 0x1000 % 0x40 == d1 && n / 0x40 % 0x40 == d2 && n % 0x40 == d3
  {
    DivideBy262144(d0, d1 * 0x1000 + d2 * 0x40 + d3);
    DivideBy4096(d0 * 0x40 + d1, d2 * 0x40 + d3);
    DivideBy64(d0 * 0x1000 + d1 * 0x40 + d2, d3);
    DivideBy64(0, d0);
    DivideBy64(d0, d1);
    DivideBy64(d0 * 0x40 + d1, d2);
  }

  lemma DigitsBase256(d0: nat, d1: nat, d2: nat)
    requires d0 < 256 && d1 < 256 && d2 < 256
    ensures var n := d0 * 0x1_0000 + d1 * 0x100 + d2;
            n / 0x1_0000 % 0x100 == d0 && n / 0x100 % 0x100 == d1 && n % 0x100 == d2
  {
    DivideBy65536(d0, d1 * 0x100 + d2);
    DivideBy256(d0 * 0x100 + d1, d2);
    DivideBy256(0, d0);
    DivideBy256(d0, d1);
  }

  lemma JoinBits(v0: nat, v1: nat, v2: nat, v3: nat)
    requires v0 < 64 && v1 < 64 && v2 < 64 && v3 < 64
    ensures var n := v0 * 0x4_0000 + v1 * 0x1000 + v2 * 0x40 + v3;
            && n / 0x1_0000 % 0x100 == v0 * 4 + v1 / 16
            && n / 0x100 % 0x100 == v1 % 16 * 16 + v2 / 4
            && n % 0x100 == v2 % 4 * 64 + v3
  {
    var d0, d1, d2 := v0 * 4 + v1 / 16, v1 % 16 * 16 + v2 / 4, v2 % 4 * 64 + v3;
    assert v0 * 0x4_0000 + v1 * 0x1000 + v2 * 0x40 + v3 == d0 * 0x1_0000 + d1 * 0x100 + d2;
    DigitsBase256(d0, d1, d2);
  }

  /** The characters of a group, given the four digits of its bits. */
  lemma GroupSpells(chunk: Bytes, b1: nat, b2: nat, d0: nat, d1: nat, d2: nat, d3: nat)
    requires 1 <= |chunk| <= 3 && d0 < 64 && d1 < 64 && d2 < 64 && d3 < 64
    requires b1 == (if |chunk| > 1 then chunk[1] else 0) && b2 == (if |chunk| > 2 then chunk[2] else 0)
    requires chunk[0] * 0x1_0000 + b1 * 0x100 + b2 == d0 * 0x4_0000 + d1 * 0x1000 + d2 * 0x40 + d3
    ensures EncodeGroup(chunk) == [Char64(d0), Char64(d1)] + (if |chunk| > 1 then [Char64(d2)] else [])
                                  + (if |chunk| > 2 then [Char64(d3)] else [])
  {
    hide Char64;
    DigitsBase64(d0, d1, d2, d3);
  }

  lemma SplitBits(b0: nat, b1: nat, b2: nat)
    requires b0 < 256 && b1 < 256 && b2 < 256
    ensures b0 * 0x1_0000 + b1 * 0x100 + b2
         == b0 / 4 * 0x4_0000 + (b0 % 4 * 16 + b1 / 16) * 0x1000 + (b1 % 16 * 4 + b2 / 64) * 0x40 + b2 % 64
    ensures b0 / 4 < 64 && b0 % 4 * 16 + b1 / 16 < 64 && b1 % 16 * 4 + b2 / 64 < 64
  {
  }

  /** The characters of a group, bit field by bit field. */
  lemma GroupChars(chunk: Bytes)
    requires 1 <= |chunk| <= 3
    ensures InAlphabet(EncodeGroup(chunk))
    ensures var e := EncodeGroup(chunk);
            var b1 := if |chunk| > 1 then chunk[1] else 0;
            var b2 := if |chunk| > 2 then chunk[2] else 0;
            && Value64(e[0]).value == chunk[0] / 4
            && Value64(e[1]).value == chunk[0] % 4 * 16 + b1 / 16
            && (|chunk| > 1 ==> Value64(e[2]).value == b1 % 16 * 4 + b2 / 64)
            && (|chunk| > 2 ==> Value64(e[3]).value == b2 % 64)
  {
    hide EncodeGroup, Char64, Value64;
    var b1 := if |chunk| > 1 then chunk[1] else 0;
    var b2 := if |chunk| > 2 then chunk[2] else 0;
    var d0, d1, d2, d3 := chunk[0] / 4, chunk[0] % 4 * 16 + b1 / 16, b1 % 16 * 4 + b2 / 64, b2 % 64;
    SplitBits(chunk[0], b1, b2);
    GroupSpells(chunk, b1, b2, d0, d1, d2, d3);
    AlphabetInverse(d0, 0);
    AlphabetInverse(d1, 0);
    AlphabetInverse(d2, 0);
    AlphabetInverse(d3, 0);
  }

  /** The bytes of a group, bit field by bit field. */
  lemma GroupBytes(group: Bytes)
    requires 2 <= |group| <= 4 && InAlphabet(group)
    ensures DecodeGroup(group).Some? && |DecodeGroup(group).value| == |group| - 1
    ensures var d := DecodeGroup(group).value;
            var v0, v1 := Value64(group[0]).value, Value64(group[1]).value;
            var v2 := if |group| > 2 then Value64(group[2]).value else 0;
            var v3 := if |group| > 3 then Value64(group[3]).value else 0;
            && d[0] == v0 * 4 + v1 / 16
            && (|group| > 2 ==> d[1] == v1 % 16 * 16 + v2 / 4)
            && (|group| > 3 ==> d[2] == v2 % 4 * 64 + v3)
  {
    var v2 := if |group| > 2 then Value64(group[2]).value else 0;
    var v3 := if |group| > 3 then Value64(group[3]).value else 0;
    JoinBits(Value64(group[0]).value, Value64(group[1]).value, v2, v3);
  }

  lemma ValueDetermines(c: u8, d: u8)
    requires Value64(c).Some? && Value64(d).Some?
    ensures c == d <==> Value64(c).value == Value64(d).value
  {
  }

  /** Two sextets make this byte exactly when they are its upper six and its lower two bits. */
  lemma FirstByteIff(v0: nat, v1: nat, b0: u8, low: nat)
    requires v0 < 64 && v1 < 64 && low < 16
    ensures v0 * 4 + v1 / 16 == b0 <==> v0 == b0 / 4 && v1 / 16 == (b0 % 4 * 16 + low) / 16
  {
  }

  lemma SecondByteIff(v1: nat, v2: nat, b0: u8, b1: u8, low: nat)
    requires v1 < 64 && v2 < 64 && low < 4 && v1 / 16 == b0 % 4
    ensures v1 % 16 * 16 + v2 / 4 == b1
       <==> v1 == b0 % 4 * 16 + b1 / 16 && v2 / 4 == (b1 % 16 * 4 + low) / 4
  {
  }

  lemma ThirdByteIff(v2: nat, v3: nat, b1: u8, b2: u8)
    requires v2 < 64 && v3 < 64 && v2 / 4 == b1 % 16
    ensures v2 % 4 * 64 + v3 == b2 <==> v2 == b1 % 16 * 4 + b2 / 64 && v3 == b2 % 64
  {
  }

  /** A group of the right size decodes to a chunk exactly when its sextets carry the chunk's bits. */
  lemma DecodedGroupIff(group: Bytes, chunk: Bytes)
    requires 1 <= |chunk| <= 3 && |group| == |chunk| + 1 && InAlphabet(group)
    ensures DecodeGroup(group) == Some(chunk) <==>
              var v0, v1 := Value64(group[0]).value, Value64(group[1]).value;
              var b1 := if |chunk| > 1 then chunk[1] else 0;
              && v0 == chunk[0] / 4 && v1 / 16 == chunk[0] % 4
              && (|chunk| > 1 ==> v1 == chunk[0] % 4 * 16 + b1 / 16 && Value64(group[2]).value / 4 == b1 % 16)
              && (|chunk| > 2 ==> Value64(group[2]).value == b1 % 16 * 4 + chunk[2] / 64
                                  && Value64(group[3]).value == chunk[2] % 64)
  {
    GroupBytes(group);
    var d := DecodeGroup(group).value;
    var v0, v1 := Value64(group[0]).value, Value64(group[1]).value;
    FirstByteIff(v0, v1, chunk[0], 0);
    assert d == chunk <==> forall i :: 0 <= i < |chunk| ==> d[i] == chunk[i];
    if |chunk| > 1 && d[0] == chunk[0] {
      SecondByteIff(v1, Value64(group[2]).value, chunk[0], chunk[1], 0);
      if |chunk| > 2 && d[1] == chunk[1] {
        ThirdByteIff(Value64(group[2]).value, Value64(group[3]).value, chunk[1], chunk[2]);
      }
    }
  }

  /** A group decodes to a chunk exactly when it spells the chunk's own group. */
  lemma GroupIff(group: Bytes, chunk: Bytes)
    requires 1 <= |chunk| <= 3 && 1 <= |group| <= 4
    ensures InAlphabet(EncodeGroup(chunk))
    ensures DecodeGroup(group) == Some(chunk) <==> SameText(group, EncodeGroup(chunk), Slack(|chunk|))
  {
    hide Char64, Value64, EncodeGroup, DecodeGroup;
    GroupChars(chunk);
    var e := EncodeGroup(chunk);
    if InAlphabet(group) && |group| == |chunk| + 1 {
      DecodedGroupIff(group, chunk);
      forall i | 0 <= i < |chunk| ensures group[i] == e[i] <==> Value64(group[i]) == Value64(e[i]) {
        ValueDetermines(group[i], e[i]);
      }
    } else {
      GroupSucceedsIff(group);
    }
  }

  // ----- whole texts -----

  function Encode(b: Bytes): Bytes {
    if b == [] then []
    else if |b| <= 3 then EncodeGroup(b)
    else EncodeGroup(b[..3]) + Encode(b[3..])
  }

  function Decode(t: Bytes): Option<Bytes> {
    if t == [] then Some([])
    else if |t| <= 4 then DecodeGroup(t)
    else Prefixed(DecodeGroup(t[..4]), Decode(t[4..]))
  }

  /** Both halves, or nothing. */
  function Prefixed(head: Option<Bytes>, tail: Option<Bytes>): Option<Bytes> {
    if head.Some? && tail.Some? then Some(head.value + tail.value) else None
  }

  method EncodeLoop(input: Bytes) returns (out: Bytes)
    ensures out == Encode(input)
  {
    out := [];
    var i := 0;
    assert input[0..] == input && [] + Encode(input) == Encode(input);
    while i < |input|
      invariant 0 <= i <= |input|
      invariant Encode(input) == out + Encode(input[i..])
    {
      var end := if i + 3 <= |input| then i + 3 else |input|;
      var chunk := input[i..end];
      EncodeStep(input[i..]);
      assert input[i..][..|chunk|] == chunk && input[i..][|chunk|..] == input[end..];
      Regroup(out, EncodeGroup(chunk), Encode(input[end..]));
      out := PushChunk(out, chunk);
      i := end;
    }
    assert out + [] == out;
  }

  lemma Regroup(a: Bytes, b: Bytes, c: Bytes)
    ensures a + (b + c) == (a + b) + c
  {
  }

  method PushChunk(out: Bytes, chunk: Bytes) returns (r: Bytes)
    requires 1 <= |chunk| <= 3
    ensures r == out + EncodeGroup(chunk)
  {
    var b0: nat := chunk[0];
    var b1: nat := if |chunk| > 1 then chunk[1] else 0;
    var b2: nat := if |chunk| > 2 then chunk[2] else 0;
    var n := b0 * 0x1_0000 + b1 * 0x100 + b2;
    r := out + [Char64(n / 0x4_0000 % 0x40)];
    r := r + [Char64(n / 0x1000 % 0x40)];
    if |chunk| > 1 {
      r := r + [Char64(n / 0x40 % 0x40)];
    }
    if |chunk| > 2 {
      r := r + [Char64(n % 0x40)];
    }
  }

  lemma EncodeStep(b: Bytes)
    requires b != []
    ensures var k := if |b| <= 3 then |b| else 3;
            Encode(b) == EncodeGroup(b[..k]) + Encode(b[k..])
  {
    if |b| <= 3 {
      assert b[..|b|] == b;
    }
  }

  lemma DecodeStep(t: Bytes)
    requires t != []
    ensures var k := if |t| <= 4 then |t| else 4;
            Decode(t) == Prefixed(DecodeGroup(t[..k]), Decode(t[k..]))
  {
    if |t| <= 4 {
      assert t[..|t|] == t;
      var d := DecodeGroup(t);
      if d.Some? {
        assert d.value + [] == d.value;
      }
    }
  }

  lemma DecodeNothing()
    ensures Decode([]) == Some([])
  {
  }

  method DecodeLoop(input: Bytes) returns (r: Option<Bytes>)
    ensures r == Decode(input)
  {
    hide Decode, DecodeGroup;
    var out: Bytes := [];
    var i := 0;
    PrefixedNothing(Decode(input));
    assert input[0..] == input;
    while i < |input|
      invariant 0 <= i <= |input|
      invariant Decode(input) == Prefixed(Some(out), Decode(input[i..]))
    {
      var end := if i + 4 <= |input| then i + 4 else |input|;
      var group := input[i..end];
      DecodeStep(input[i..]);
      assert input[i..][..|group|] == group && input[i..][|group|..] == input[end..];
      var bytes := GroupLoop(group);
      if bytes.None? {
        return None;
      }
      PrefixedTwice(out, bytes.value, Decode(input[end..]));
      out := out + bytes.value;
      i := end;
    }
    DecodeNothing();
    assert input[i..] == [] && out + [] == out;
    return Some(out);
  }

  /** One group: all of its characters must have a value, and there must be at least two. */
  method GroupLoop(group: Bytes) returns (r: Option<Bytes>)
    requires 1 <= |group| <= 4
    ensures r == DecodeGroup(group)
  {
    var vals := Values(group);
    if vals.None? {
      return None;
    }
    var v := vals.value;
    if |v| == 4 {
      var n := v[0] * 0x4_0000 + v[1] * 0x1000 + v[2] * 0x40 + v[3];
      return Some([n / 0x1_0000 % 0x100] + [n / 0x100 % 0x100] + [n % 0x100]);
    } else if |v| == 3 {
      var n := v[0] * 0x4_0000 + v[1] * 0x1000 + v[2] * 0x40;
      var two := [n / 0x1_0000 % 0x100] + [n / 0x100 % 0x100];
      assert two + [] == two;
      return Some(two);
    } else if |v| == 2 {
      var n := v[0] * 0x4_0000 + v[1] * 0x1000;
      var one := [n / 0x1_0000 % 0x100];
      assert one + [] + [] == one;
      return Some(one);
    } else {
      return None;
    }
  }

  lemma PrefixedNothing(tail: Option<Bytes>)
    ensures Prefixed(Some([]), tail) == tail
  {
    if tail.Some? {
      assert [] + tail.value == tail.value;
    }
  }

  lemma PrefixedTwice(a: Bytes, b: Bytes, tail: Option<Bytes>)
    ensures Prefixed(Some(a), Prefixed(Some(b), tail)) == Prefixed(Some(a + b), tail)
  {
    if tail.Some? {
      assert a + (b + tail.value) == a + b + tail.value;
    }
  }

  /** The alphabet position of every character of a group, or nothing if one has none. */
  method Values(group: Bytes) returns (r: Option<seq<nat>>)
    ensures r.Some? <==> InAlphabet(group)
    ensures r.Some? ==> |r.value| == |group| && forall i :: 0 <= i < |group| ==> r.value[i] == Value64(group[i]).value
  {
    var vals: seq<nat> := [];
    for i := 0 to |group|
      invariant |vals| == i
      invariant forall k :: 0 <= k < i ==> Value64(group[k]).Some? && vals[k] == Value64(group[k]).value
    {
      if Value64(group[i]).None? {
        return None;
      }
      vals := vals + [Value64(group[i]).value];
    }
    return Some(vals);
  }

  lemma {:induction false} EncodeInAlphabet(b: Bytes)
    ensures InAlphabet(Encode(b)) && |Encode(b)| == (4 * |b| + 2) / 3
  {
    if |b| > 3 {
      GroupChars(b[..3]);
      EncodeInAlphabet(b[3..]);
    } else if b != [] {
      GroupChars(b);
    }
  }

  lemma AlphabetSplits(s: Bytes, t: Bytes)
    ensures InAlphabet(s + t) <==> InAlphabet(s) && InAlphabet(t)
  {
    if InAlphabet(s + t) {
      assert forall i :: 0 <= i < |s| ==> s[i] == (s + t)[i];
      assert forall i :: 0 <= i < |t| ==> t[i] == (s + t)[i + |s|];
    }
  }

  lemma GroupSucceedsIff(group: Bytes)
    requires 1 <= |group| <= 4
    ensures DecodeGroup(group).Some? <==> InAlphabet(group) && |group| >= 2
    ensures DecodeGroup(group).Some? ==> |DecodeGroup(group).value| == |group| - 1
  {
  }

  lemma FourMore(n: nat)
    ensures (n + 4) % 4 == n % 4 && 3 * (n + 4) / 4 == 3 + 3 * n / 4
  {
  }

  /** Decoding succeeds exactly on texts of the alphabet that do not leave a lone last character. */
  lemma {:induction false} DecodeSucceedsIff(t: Bytes)
    ensures Decode(t).Some? <==> InAlphabet(t) && |t| % 4 != 1
    ensures Decode(t).Some? ==> |Decode(t).value| == 3 * |t| / 4
  {
    if |t| > 4 {
      DecodeSucceedsIff(t[4..]);
      AlphabetSplits(t[..4], t[4..]);
      assert t[..4] + t[4..] == t;
      GroupSucceedsIff(t[..4]);
      FourMore(|t[4..]|);
    } else if t != [] {
      GroupSucceedsIff(t);
    }
  }

  lemma SameTextSplits(t: Bytes, g: Bytes, e: Bytes, slack: nat)
    requires slack > 0 && |g| == 4 && |e| > 0 && InAlphabet(g) && InAlphabet(e)
    ensures InAlphabet(g + e)
    ensures SameText(t, g + e, slack) <==> |t| >= 4 && t[..4] == g && SameText(t[4..], e, slack)
  {
  }

  /** The texts that decode to `b` are exactly those that spell what `Encode(b)` spells. */
  lemma {:induction false} DecodesIff(t: Bytes, b: Bytes)
    ensures InAlphabet(Encode(b))
    ensures Decode(t) == Some(b) <==> SameText(t, Encode(b), Slack(|b|))
    decreases |b|
  {
    EncodeInAlphabet(b);
    if |b| <= 3 {
      if b == [] {
        DecodeSucceedsIff(t);
      } else if 1 <= |t| <= 4 {
        GroupIff(t, b);
      } else {
        DecodeSucceedsIff(t);
      }
    } else {
      LongDecodesIff(t, b);
    }
  }

  lemma {:induction false} LongDecodesIff(t: Bytes, b: Bytes)
    requires |b| > 3 && InAlphabet(Encode(b))
    ensures Decode(t) == Some(b) <==> SameText(t, Encode(b), Slack(|b|))
    decreases |b|, 0
  {
    var g, e, slack := EncodeGroup(b[..3]), Encode(b[3..]), Slack(|b|);
    assert Slack(|b[3..]|) == slack;
    EncodeInAlphabet(b[3..]);
    assert SameText(t, Encode(b), slack) <==> |t| >= 4 && t[..4] == g && SameText(t[4..], e, slack) by {
      GroupChars(b[..3]);
      SameTextSplits(t, g, e, slack);
    }
    if |t| <= 4 {
      DecodeSucceedsIff(t);
    } else {
      assert Decode(t[4..]) == Some(b[3..]) <==> SameText(t[4..], e, slack) by {
        DecodesIff(t[4..], b[3..]);
      }
      FullGroupExact(t[..4], b[..3]);
      DecodeHeadTail(t, b);
    }
  }

  lemma FullGroupExact(group: Bytes, chunk: Bytes)
    requires |group| == 4 && |chunk| == 3
    ensures DecodeGroup(group) == Some(chunk) <==> group == EncodeGroup(chunk)
  {
    GroupIff(group, chunk);
    if SameText(group, EncodeGroup(chunk), 1) {
      ValueDetermines(group[3], EncodeGroup(chunk)[3]);
    }
  }

  lemma DecodeHeadTail(t: Bytes, b: Bytes)
    requires |t| > 4 && |b| > 3
    ensures Decode(t) == Some(b) <==> DecodeGroup(t[..4]) == Some(b[..3]) && Decode(t[4..]) == Some(b[3..])
  {
    var head, tail := DecodeGroup(t[..4]), Decode(t[4..]);
    if head.Some? {
      GroupBytes(t[..4]);
    }
    if Decode(t) == Some(b) {
      assert b[..3] == head.value && b[3..] == tail.value;
    }
    if head == Some(b[..3]) && tail == Some(b[3..]) {
      assert b[..3] + b[3..] == b;
    }
  }

  /** Encoding then decoding is the identity. */
  lemma RoundTrip(b: Bytes)
    ensures Decode(Encode(b)) == Some(b)
  {
    DecodesIff(Encode(b), b);
  }

  // ----- what one character can change -----

  lemma TwoGroups(t: Bytes)
    requires |t| > 8 && Decode(t).Some?
    ensures DecodeGroup(t[..4]).Some? && DecodeGroup(t[4..8]).Some? && Decode(t[8..]).Some?
    ensures InAlphabet(t[..4]) && InAlphabet(t[4..8])
    ensures Decode(t).value == DecodeGroup(t[..4]).value + DecodeGroup(t[4..8]).value + Decode(t[8..]).value
    ensures |DecodeGroup(t[..4]).value| == |DecodeGroup(t[4..8]).value| == 3
  {
    hide DecodeGroup;
    assert t[4..][..4] == t[4..8] && t[4..][4..] == t[8..];
    assert Decode(t) == Prefixed(DecodeGroup(t[..4]), Decode(t[4..]));
    assert Decode(t[4..]) == Prefixed(DecodeGroup(t[4..8]), Decode(t[8..]));
    GroupSucceedsIff(t[..4]);
    GroupSucceedsIff(t[4..8]);
    GroupBytes(t[..4]);
    GroupBytes(t[4..8]);
  }

  /** A change in the first six characters leaves all but five bytes alone, a later one the first four. */
  lemma OneCharacter(t: Bytes, i: nat, c: u8)
    requires i < |t| && |t| > 8 && Decode(t).Some? && Decode(t[i := c]).Some?
    ensures |Decode(t).value| >= 6 && |Decode(t[i := c]).value| >= 6
    ensures i < 6 ==> Decode(t[i := c]).value[5..] == Decode(t).value[5..]
    ensures i >= 6 ==> Decode(t[i := c]).value[..4] == Decode(t).value[..4]
  {
    hide Decode, DecodeGroup;
    var t' := t[i := c];
    TwoGroups(t);
    TwoGroups(t');
    GroupBytes(t[4..8]);
    GroupBytes(t'[4..8]);
    var d0, d1, rest := DecodeGroup(t[..4]).value, DecodeGroup(t[4..8]).value, Decode(t[8..]).value;
    var e0, e1, rest' := DecodeGroup(t'[..4]).value, DecodeGroup(t'[4..8]).value, Decode(t'[8..]).value;
    if i < 6 {
      assert t'[8..] == t[8..];
      assert d1[2] == e1[2];
      assert (d0 + d1 + rest)[5..] == [d1[2]] + rest;
      assert (e0 + e1 + rest')[5..] == [e1[2]] + rest';
    } else {
      assert t'[..4] == t[..4];
      assert d1[0] == e1[0];
      assert (d0 + d1 + rest)[..4] == d0 + [d1[0]];
      assert (e0 + e1 + rest')[..4] == e0 + [e1[0]];
    }
  }

  /** The bytes that the `i`-th group of characters stands for. */
  function ChunkAt(b: Bytes, i: nat): (r: Bytes)
    requires 3 * i < |b|
    ensures 1 <= |r| <= 3
  {
    if |b| < 3 * i + 3 then b[3 * i..] else b[3 * i..3 * i + 3]
  }

  lemma ChunkAfter(b: Bytes, i: nat)
    requires 3 * i < |b| && |b| > 3
    ensures i > 0 ==> ChunkAt(b[3..], i - 1) == ChunkAt(b, i)
    ensures i == 0 ==> ChunkAt(b, i) == b[..3]
  {
    if i > 0 {
      var k := 3 * (i - 1);
      assert b[3..][k..] == b[3 + k..];
      if |b| >= 3 * i + 3 {
        assert b[3..][k..k + 3] == b[3 + k..3 + k + 3];
      }
    }
  }

  lemma SliceAfter(g: Bytes, rest: Bytes, from: nat, until: nat)
    requires from <= until <= |rest|
    ensures (g + rest)[|g| + from..|g| + until] == rest[from..until]
  {
  }

  /** Three bytes at a time become four characters, and the last one or two bytes two or three. */
  lemma {:induction false} EncodedAt(b: Bytes, i: nat)
    requires 3 * i < |b|
    ensures |Encode(b)| == |b| + (|b| + 2) / 3
    ensures var g := EncodeGroup(ChunkAt(b, i));
            4 * i + |g| <= |Encode(b)| && Encode(b)[4 * i..4 * i + |g|] == g
  {
    hide EncodeGroup, ChunkAt;
    if |b| > 3 {
      var head, rest := EncodeGroup(b[..3]), b[3..];
      var j := if i > 0 then i - 1 else 0;
      EncodedAt(rest, j);
      ChunkAfter(b, i);
      assert Encode(b) == head + Encode(rest);
      if i > 0 {
        SliceAfter(head, Encode(rest), 4 * j, 4 * j + |EncodeGroup(ChunkAt(b, i))|);
      }
    } else {
      ShortChunk(b);
    }
  }

  lemma ShortChunk(b: Bytes)
    requires 0 < |b| <= 3
    ensures ChunkAt(b, 0) == b
  {
  }

  // ----- how many texts spell the same bytes -----

  /** The texts `prefix` plus one of `n` consecutive characters. */
  ghost function Variants(prefix: Bytes, v: nat, n: nat): set<Bytes>
    requires v + n <= 64
  {
    if n == 0 then {} else Variants(prefix, v, n - 1) + {prefix + [Char64(v + n - 1)]}
  }

  ghost predicate IsVariant(t: Bytes, prefix: Bytes, from: nat, until: nat) {
    && |t| == |prefix| + 1 && t[..|prefix|] == prefix
    && Value64(Last(t)).Some? && from <= Value64(Last(t)).value < until
  }

  lemma SingleVariant(t: Bytes, prefix: Bytes, v: nat)
    requires v < 64
    ensures t == prefix + [Char64(v)] <==> IsVariant(t, prefix, v, v + 1)
  {
  }

  lemma RangeSplits(t: Bytes, prefix: Bytes, from: nat, until: nat)
    requires from < until
    ensures IsVariant(t, prefix, from, until)
       <==> IsVariant(t, prefix, from, until - 1) || IsVariant(t, prefix, until - 1, until)
    ensures !(IsVariant(t, prefix, from, until - 1) && IsVariant(t, prefix, until - 1, until))
  {
  }

  lemma EmptyRange(prefix: Bytes, v: nat)
    ensures forall t :: !IsVariant(t, prefix, v, v)
  {
  }

  lemma {:induction false} VariantsAre(prefix: Bytes, v: nat, n: nat)
    requires v + n <= 64
    ensures |Variants(prefix, v, n)| == n
    ensures forall t :: t in Variants(prefix, v, n) <==> IsVariant(t, prefix, v, v + n)
  {
    hide Char64, IsVariant;
    EmptyRange(prefix, v);
    if n > 0 {
      var last := prefix + [Char64(v + n - 1)];
      VariantsAre(prefix, v, n - 1);
      SingleVariant(last, prefix, v + n - 1);
      RangeSplits(last, prefix, v, v + n);
      forall t ensures t in Variants(prefix, v, n) <==> IsVariant(t, prefix, v, v + n) {
        SingleVariant(t, prefix, v + n - 1);
        RangeSplits(t, prefix, v, v + n);
      }
    }
  }

  /** The texts that decode to `b`: those of its encoding with any unused low bits at the end. */
  ghost function Texts(b: Bytes): set<Bytes> {
    EncodeInAlphabet(b);
    var e, slack := Encode(b), Slack(|b|);
    if b == [] then {e} else Variants(Front(e), Value64(Last(e)).value / slack * slack, slack)
  }

  /** Exactly 1, 16 or 4 texts decode to `b`, as its length leaves a remainder of 0, 1 or 2. */
  lemma PreimageCount(b: Bytes)
    ensures |Texts(b)| == Slack(|b|)
    ensures forall t :: t in Texts(b) <==> Decode(t) == Some(b)
  {
    hide Decode, Value64, Variants, IsVariant, EncodeGroup;
    EncodeInAlphabet(b);
    var e, slack := Encode(b), Slack(|b|);
    if b != [] {
      VariantsAre(Front(e), Value64(Last(e)).value / slack * slack, slack);
    }
    forall t ensures t in Texts(b) <==> Decode(t) == Some(b) {
      DecodesIff(t, b);
      if b != [] {
        SameTextIsVariant(t, e, slack);
      }
    }
  }

  lemma SameQuotient(x: nat, v: nat, slack: nat)
    requires slack == 1 || slack == 4 || slack == 16
    ensures x / slack == v <==> v * slack <= x < v * slack + slack
  {
  }

  lemma SameTextIsVariant(t: Bytes, e: Bytes, slack: nat)
    requires (slack == 1 || slack == 4 || slack == 16) && e != [] && InAlphabet(e)
    ensures var v := Value64(Last(e)).value / slack;
            SameText(t, e, slack) <==> IsVariant(t, Front(e), v * slack, v * slack + slack)
  {
    hide Value64;
    var v := Value64(Last(e)).value / slack;
    if |t| == |e| {
      assert t == Front(t) + [Last(t)] && e == Front(e) + [Last(e)];
      assert Front(t) == Front(e) <==> forall i :: 0 <= i < |e| - 1 ==> t[i] == e[i];
      if Value64(Last(t)).Some? {
        SameQuotient(Value64(Last(t)).value, v, slack);
      }
      if Front(t) == Front(e) && Value64(Last(t)).Some? {
        assert InAlphabet(t);
      }
    }
  }
}
