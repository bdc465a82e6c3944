/**
 * The attribute area of a STUN message: type-length-value triples padded to four bytes, as the
 * writer lays them down and as one abstract decoding reads them back. The three walkers of the
 * source are proved against this decoding; they differ only in what an overrun means to them.
 */
module Tlv {
  import opened Prelude

  datatype Attr = Attr(attrType: u16, value: Bytes)

  /** What a walk finds: the attributes that fit, and whether the next one claimed too many bytes. */
  datatype Decoding = Decoding(attrs: seq<Attr>, overrun: bool)

  /** How many zero bytes follow a value of `n` bytes, up to the next multiple of four. */
  function Padding(n: nat): (r: nat)
    ensures r <= 3
  {
    if n == 0 then 0 else if n <= 4 then 4 - n else Padding(n - 4)
  }

  lemma {:induction false} PaddingIs(n: nat)
    ensures Padding(n) == (4 - (n % 4)) % 4
  {
    if n == 0 {
    } else if n < 4 {
      assert n % 4 == n;
    } else if n == 4 {
    } else {
      PaddingIs(n - 4);
      FourLess(n);
    }
  }

  lemma FourLess(n: nat)
    requires n >= 4
    ensures (n - 4) % 4 == n % 4
  {
    FourTimes(n / 4 - 1, n % 4);
  }

  lemma FourTimes(q: nat, r: nat)
    requires r < 4
    ensures (4 * q + r) % 4 == r
  {
  }

  function Zeros(n: nat): (r: Bytes)
    ensures |r| == n
  {
    seq(n, _ => 0)
  }

  /** One attribute on the wire; the length field keeps the low 16 bits of the length. */
  function EncodeAttr(a: Attr): (r: Bytes)
    ensures |r| == 4 + |a.value| + Padding(|a.value|)
  {
    Be16(a.attrType) + Be16(|a.value| % 0x1_0000) + a.value + Zeros(Padding(|a.value|))
  }

  function EncodeAttrs(attrs: seq<Attr>): Bytes {
    if attrs == [] then [] else EncodeAttr(attrs[0]) + EncodeAttrs(attrs[1..])
  }

  method WriteAttr(msg: Bytes, attrType: u16, value: Bytes) returns (r: Bytes)
    ensures r == msg + EncodeAttr(Attr(attrType, value))
  {
    PaddingIs(|value|);
    r := msg + Be16(attrType);
    r := r + Be16(|value| % 0x1_0000);
    r := r + value;
    r := r + Zeros((4 - (|value| % 4)) % 4);
  }

  // ----- reading one attribute -----

  function TypeAt(area: Bytes, off: nat): u16
    requires off + 4 <= |area|
  {
    FromBe16(area[off], area[off + 1])
  }

  function LengthAt(area: Bytes, off: nat): u16
    requires off + 4 <= |area|
  {
    FromBe16(area[off + 2], area[off + 3])
  }

  predicate Overruns(area: Bytes, off: nat)
    requires off + 4 <= |area|
  {
    off + 4 + LengthAt(area, off) > |area|
  }

  function AttrAt(area: Bytes, off: nat): Attr
    requires off + 4 <= |area| && !Overruns(area, off)
  {
    Attr(TypeAt(area, off), area[off + 4..off + 4 + LengthAt(area, off)])
  }

  /** Where the walk continues: past the value and its padding, possibly past the area. */
  function NextOffset(area: Bytes, off: nat): (r: nat)
    requires off + 4 <= |area|
    ensures r > off
  {
    off + 4 + LengthAt(area, off) + Padding(LengthAt(area, off))
  }

  /** The same, in terms of the four bytes of the attribute's head. */
  lemma AttrParts(area: Bytes, off: nat)
    requires off + 4 <= |area|
    ensures var n := FromBe16(area[off + 2], area[off + 3]);
            && (Overruns(area, off) <==> off + 4 + n > |area|)
            && (!Overruns(area, off) ==>
                 AttrAt(area, off) == Attr(FromBe16(area[off], area[off + 1]), area[off + 4..off + 4 + n]))
            && NextOffset(area, off) == off + 4 + n + ((4 - (n % 4)) % 4)
  {
    PaddingIs(FromBe16(area[off + 2], area[off + 3]));
  }

  /** The decoding of the area from `off` on. */
  function DecodeFrom(area: Bytes, off: nat): Decoding
    decreases |area| - off
  {
    if off + 4 > |area| then Decoding([], false)
    else if Overruns(area, off) then Decoding([], true)
    else
      var rest := DecodeFrom(area, NextOffset(area, off));
      Decoding([AttrAt(area, off)] + rest.attrs, rest.overrun)
  }

  function Decode(area: Bytes): Decoding {
    DecodeFrom(area, 0)
  }

  ghost predicate Encodable(attrs: seq<Attr>) {
    forall i :: 0 <= i < |attrs| ==> |attrs[i].value| < 0x1_0000
  }

  /** `s` lies in `area` at `off`. */
  ghost predicate Holds(area: Bytes, off: nat, s: Bytes) {
    off + |s| <= |area| && area[off..off + |s|] == s
  }

  lemma HoldsSplit(area: Bytes, off: nat, s: Bytes, t: Bytes)
    requires Holds(area, off, s + t)
    ensures Holds(area, off, s) && Holds(area, off + |s|, t)
  {
    var all := area[off..off + |s| + |t|];
    assert area[off..off + |s|] == all[..|s|];
    assert area[off + |s|..off + |s| + |t|] == all[|s|..];
  }

  lemma EncodedParts(a: Attr)
    ensures var e, t, n := EncodeAttr(a), Be16(a.attrType), Be16(|a.value| % 0x1_0000);
            e[0] == t[0] && e[1] == t[1] && e[2] == n[0] && e[3] == n[1] && e[4..4 + |a.value|] == a.value
  {
    hide Be16, Padding;
  }

  lemma SameBytes(area: Bytes, off: nat, s: Bytes, i: nat, j: nat)
    requires Holds(area, off, s) && i <= j <= |s|
    ensures area[off + i..off + j] == s[i..j]
    ensures forall k :: i <= k < j ==> area[off + k] == s[k]
  {
    forall k | i <= k < j ensures area[off + k] == s[k] {
      assert area[off..off + |s|][k] == area[off + k];
    }
    forall k | 0 <= k < j - i ensures area[off + i..off + j][k] == s[i..j][k] {
      assert area[off + (i + k)] == s[i + k];
    }
  }

  lemma EncodedAttrReadsBack(area: Bytes, off: nat, a: Attr)
    requires |a.value| < 0x1_0000 && Holds(area, off, EncodeAttr(a))
    ensures off + 4 <= |area| && !Overruns(area, off) && AttrAt(area, off) == a
    ensures NextOffset(area, off) == off + |EncodeAttr(a)|
  {
    hide Be16, FromBe16, EncodeAttr, Padding;
    var e := EncodeAttr(a);
    EncodedParts(a);
    SameBytes(area, off, e, 0, 4);
    SameBytes(area, off, e, 4, 4 + |a.value|);
    Be16RoundTrip(a.attrType);
    Be16RoundTrip(|a.value|);
    assert LengthAt(area, off) == |a.value| && TypeAt(area, off) == a.attrType;
  }

  lemma DecodeOne(area: Bytes, off: nat, a: Attr, next: nat, rest: Decoding)
    requires |a.value| < 0x1_0000 && Holds(area, off, EncodeAttr(a))
    requires next == off + |EncodeAttr(a)| && rest == DecodeFrom(area, next)
    ensures DecodeFrom(area, off) == Decoding([a] + rest.attrs, rest.overrun)
  {
    EncodedAttrReadsBack(area, off, a);
  }

  lemma EncodeAttrsCons(attrs: seq<Attr>)
    requires attrs != []
    ensures EncodeAttrs(attrs) == EncodeAttr(attrs[0]) + EncodeAttrs(attrs[1..])
  {
  }

  lemma Regroup<T>(s: seq<T>, t: seq<T>)
    requires s != []
    ensures s + t == [s[0]] + (s[1..] + t)
  {
  }

  /** Whatever list of attributes was written at `off`, the walk reads exactly it, and then what follows. */
  lemma {:induction false} DecodeEncoded(area: Bytes, off: nat, attrs: seq<Attr>, end: nat, rest: Decoding)
    requires Encodable(attrs) && Holds(area, off, EncodeAttrs(attrs))
    requires end == off + |EncodeAttrs(attrs)| && rest == DecodeFrom(area, end)
    ensures DecodeFrom(area, off) == Decoding(attrs + rest.attrs, rest.overrun)
    decreases |attrs|
  {
    if attrs == [] {
      assert attrs + rest.attrs == rest.attrs;
    } else {
      var next := off + |EncodeAttr(attrs[0])|;
      EncodeAttrsCons(attrs);
      HoldsSplit(area, off, EncodeAttr(attrs[0]), EncodeAttrs(attrs[1..]));
      var middle := DecodeFrom(area, next);
      DecodeEncoded(area, next, attrs[1..], end, rest);
      DecodeOne(area, off, attrs[0], next, middle);
      Regroup(attrs, rest.attrs);
    }
  }

  /** The writer and the walk are inverse. */
  lemma DecodeInvertsEncode(attrs: seq<Attr>)
    requires Encodable(attrs)
    ensures Decode(EncodeAttrs(attrs)) == Decoding(attrs, false)
  {
    var area := EncodeAttrs(attrs);
    assert area[0..0 + |area|] == area;
    DecodeEncoded(area, 0, attrs, |area|, Decoding([], false));
    assert attrs + [] == attrs;
  }

  /** Every attribute found fits into the area with its four-byte head. */
  lemma {:induction false} DecodedFits(area: Bytes, off: nat, i: nat)
    requires i < |DecodeFrom(area, off).attrs|
    ensures off + 4 + |DecodeFrom(area, off).attrs[i].value| <= |area|
    decreases i
  {
    if i > 0 {
      DecodedFits(area, NextOffset(area, off), i - 1);
    }
  }
}
