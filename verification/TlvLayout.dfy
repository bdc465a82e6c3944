/**
 * The decoding of any bytes at all by where each attribute lies in them: aligned to four bytes, one
 * after the other, until less than a head is left or the next value does not fit.
 */
module TlvLayout {
  import opened Prelude
  import opened Tlv

  /** An attribute lies at `off`: two bytes of type, two of length, the value. Padding may be anything, or missing. */
  ghost predicate LiesAt(area: Bytes, off: nat, a: Attr) {
    var n := |a.value|;
    && off + 4 + n <= |area|
    && area[off..off + 4] == [a.attrType / 0x100, a.attrType % 0x100, n / 0x100, n % 0x100]
    && area[off + 4..off + 4 + n] == a.value
  }

  /** The head at `off` announces a value of `n` bytes. */
  ghost predicate Announces(area: Bytes, off: nat, n: u16) {
    off + 4 <= |area| && area[off + 2..off + 4] == [n / 0x100, n % 0x100]
  }

  /** The head at `off` announces more bytes than there are. */
  ghost predicate BreaksOffAt(area: Bytes, off: nat) {
    exists n: u16 :: Announces(area, off, n) && off + 4 + n > |area|
  }

  /** The next multiple of four. */
  function RoundUp(n: nat): nat {
    if n == 0 then 0 else if n <= 4 then 4 else 4 + RoundUp(n - 4)
  }

  lemma {:induction false} RoundUpIs(n: nat)
    ensures n <= RoundUp(n) < n + 4 && RoundUp(n) % 4 == 0
    ensures RoundUp(n) == n + Padding(n)
  {
    if n > 4 {
      RoundUpIs(n - 4);
    }
  }

  /** `offs` says where the attributes of `d` lie, from `start` on, and where nothing more is read. */
  ghost predicate Walked(area: Bytes, start: nat, d: Decoding, offs: seq<nat>) {
    && |offs| == |d.attrs| + 1 && offs[0] == start
    && (forall i :: 0 <= i < |d.attrs| ==> LiesAt(area, offs[i], d.attrs[i]))
    && (forall i :: 0 <= i < |d.attrs| ==> offs[i + 1] == offs[i] + 4 + RoundUp(|d.attrs[i].value|))
    && if d.overrun then BreaksOffAt(area, offs[|d.attrs|]) else offs[|d.attrs|] + 4 > |area|
  }

  lemma HeadBytes(area: Bytes, off: nat, x: u16)
    requires off + 2 <= |area|
    ensures area[off..off + 2] == [x / 0x100, x % 0x100] <==> FromBe16(area[off], area[off + 1]) == x
  {
    var two := area[off..off + 2];
    assert two == [area[off], area[off + 1]];
    assert [x / 0x100, x % 0x100][0] == x / 0x100 && [x / 0x100, x % 0x100][1] == x % 0x100;
  }

  lemma BreaksOffIff(area: Bytes, off: nat)
    ensures BreaksOffAt(area, off) <==> off + 4 <= |area| && Overruns(area, off)
  {
    hide FromBe16, Announces;
    forall n: u16 ensures Announces(area, off, n) <==> off + 4 <= |area| && LengthAt(area, off) == n {
      AnnouncesIff(area, off, n);
    }
    if off + 4 <= |area| {
      assert Announces(area, off, LengthAt(area, off));
    }
  }

  lemma AnnouncesIff(area: Bytes, off: nat, n: u16)
    ensures Announces(area, off, n) <==> off + 4 <= |area| && LengthAt(area, off) == n
  {
    hide FromBe16;
    if off + 4 <= |area| {
      HeadBytes(area, off + 2, n);
    }
  }

  lemma LiesIff(area: Bytes, off: nat, a: Attr)
    ensures LiesAt(area, off, a) <==> off + 4 <= |area| && !Overruns(area, off) && AttrAt(area, off) == a
    ensures off + 4 <= |area| && LengthAt(area, off) == |a.value| ==>
              NextOffset(area, off) == off + 4 + RoundUp(|a.value|)
  {
    hide FromBe16;
    var n := |a.value|;
    RoundUpIs(n);
    if off + 4 <= |area| && n < 0x1_0000 {
      HeadBytes(area, off, a.attrType);
      HeadBytes(area, off + 2, n);
      var head := area[off..off + 4];
      assert head[..2] == area[off..off + 2] && head[2..] == area[off + 2..off + 4];
      var said := [a.attrType / 0x100, a.attrType % 0x100, n / 0x100, n % 0x100];
      assert said[..2] == [a.attrType / 0x100, a.attrType % 0x100] && said[2..] == [n / 0x100, n % 0x100];
      assert head == head[..2] + head[2..] && said == said[..2] + said[2..];
    }
    if LiesAt(area, off, a) {
      assert area[off..off + 4][2] == n / 0x100;
    }
  }

  lemma {:induction false} WalkOffsets(area: Bytes, off: nat) returns (offs: seq<nat>)
    ensures Walked(area, off, DecodeFrom(area, off), offs)
    decreases |area| - off
  {
    hide LiesAt, BreaksOffAt, AttrAt, Overruns, NextOffset;
    offs := [off];
    if off + 4 <= |area| {
      BreaksOffIff(area, off);
      if !Overruns(area, off) {
        var a := AttrAt(area, off);
        LiesIff(area, off, a);
        LengthOfAttr(area, off);
        var rest := WalkOffsets(area, NextOffset(area, off));
        offs := [off] + rest;
      }
    }
  }

  lemma LengthOfAttr(area: Bytes, off: nat)
    requires off + 4 <= |area| && !Overruns(area, off)
    ensures |AttrAt(area, off).value| == LengthAt(area, off)
  {
  }

  lemma {:induction false} WalkedDetermines(area: Bytes, off: nat, d: Decoding, offs: seq<nat>)
    requires Walked(area, off, d, offs)
    ensures DecodeFrom(area, off) == d
    decreases |d.attrs|
  {
    hide LiesAt, BreaksOffAt, AttrAt, Overruns, NextOffset;
    if d.attrs == [] {
      BreaksOffIff(area, off);
    } else {
      var a := d.attrs[0];
      LiesIff(area, off, a);
      LengthOfAttr(area, off);
      var rest := Decoding(d.attrs[1..], d.overrun);
      assert offs[1..][|rest.attrs|] == offs[|d.attrs|];
      WalkedDetermines(area, offs[1], rest, offs[1..]);
      assert d.attrs == [a] + rest.attrs;
    }
  }

  /** Exactly what any bytes decode to. */
  lemma DecodesIff(area: Bytes, d: Decoding)
    ensures Decode(area) == d <==> exists offs :: Walked(area, 0, d, offs)
  {
    hide Walked, DecodeFrom;
    var offs := WalkOffsets(area, 0);
    forall offs' | Walked(area, 0, d, offs') ensures Decode(area) == d {
      WalkedDetermines(area, 0, d, offs');
    }
  }
}
