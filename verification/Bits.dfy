/** Bitwise exclusive or and or, bit by bit, and the in-place mask the address codec uses. */
module Bits {
  import opened Prelude

  function XorBits(a: nat, b: nat, bits: nat): nat {
    if bits == 0 then 0 else 2 * XorBits(a / 2, b / 2, bits - 1) + (a % 2 + b % 2) % 2
  }

  function OrBits(a: nat, b: nat, bits: nat): nat {
    if bits == 0 then 0
    else 2 * OrBits(a / 2, b / 2, bits - 1) + if a % 2 == 0 && b % 2 == 0 then 0 else 1
  }

  function Pow2(n: nat): nat {
    if n == 0 then 1 else 2 * Pow2(n - 1)
  }

  lemma {:induction false} XorBounded(a: nat, b: nat, bits: nat)
    ensures XorBits(a, b, bits) < Pow2(bits)
  {
    if bits > 0 {
      XorBounded(a / 2, b / 2, bits - 1);
    }
  }

  lemma BitTwice(a: nat, k: nat)
    requires a < 2 && k < 2
    ensures ((a + k) % 2 + k) % 2 == a
  {
  }

  lemma XorUnfold(a: nat, b: nat, bits: nat)
    requires bits > 0
    ensures XorBits(a, b, bits) / 2 == XorBits(a / 2, b / 2, bits - 1)
    ensures XorBits(a, b, bits) % 2 == (a % 2 + b % 2) % 2
  {
  }

  /** Masking twice with the same key is masking not at all. */
  lemma {:induction false} XorTwice(a: nat, key: nat, bits: nat)
    requires a < Pow2(bits)
    ensures XorBits(XorBits(a, key, bits), key, bits) == a
  {
    if bits > 0 {
      XorUnfold(a, key, bits);
      XorTwice(a / 2, key / 2, bits - 1);
      BitTwice(a % 2, key % 2);
    }
  }

  lemma {:induction false} XorZeroIffEqual(a: nat, b: nat, bits: nat)
    requires a < Pow2(bits) && b < Pow2(bits)
    ensures XorBits(a, b, bits) == 0 <==> a == b
  {
    if bits > 0 {
      XorZeroIffEqual(a / 2, b / 2, bits - 1);
    }
  }

  lemma {:induction false} OrBounded(a: nat, b: nat, bits: nat)
    ensures OrBits(a, b, bits) < Pow2(bits)
  {
    if bits > 0 {
      OrBounded(a / 2, b / 2, bits - 1);
    }
  }

  lemma {:induction false} OrZeroIffBothZero(a: nat, b: nat, bits: nat)
    requires a < Pow2(bits) && b < Pow2(bits)
    ensures OrBits(a, b, bits) == 0 <==> a == 0 && b == 0
  {
    if bits > 0 {
      OrZeroIffBothZero(a / 2, b / 2, bits - 1);
    }
  }

  lemma Pow2Values()
    ensures Pow2(8) == 0x100 && Pow2(16) == 0x1_0000
  {
  }

  function Xor8(a: u8, b: u8): u8 {
    XorBounded(a, b, 8);
    Pow2Values();
    XorBits(a, b, 8)
  }

  function Or8(a: u8, b: u8): u8 {
    OrBounded(a, b, 8);
    Pow2Values();
    OrBits(a, b, 8)
  }

  function Xor16(a: u16, b: u16): u16 {
    XorBounded(a, b, 16);
    Pow2Values();
    XorBits(a, b, 16)
  }

  lemma Xor8Twice(a: u8, key: u8)
    ensures Xor8(Xor8(a, key), key) == a
  {
    Pow2Values();
    XorTwice(a, key, 8);
  }

  lemma Xor16Twice(a: u16, key: u16)
    ensures Xor16(Xor16(a, key), key) == a
  {
    Pow2Values();
    XorTwice(a, key, 16);
  }

  lemma DifferenceAccumulates(diff: u8, x: u8, y: u8)
    ensures Or8(diff, Xor8(x, y)) == 0 <==> diff == 0 && x == y
  {
    Pow2Values();
    XorZeroIffEqual(x, y, 8);
    OrZeroIffBothZero(diff, Xor8(x, y), 8);
  }

  // ----- bit by bit -----

  /** The `k`-th binary digit, the lowest being the zeroth. */
  function Bit(n: nat, k: nat): nat
    decreases k
  {
    if k == 0 then n % 2 else Bit(n / 2, k - 1)
  }

  lemma {:induction false} XorBit(a: nat, b: nat, bits: nat, k: nat)
    requires k < bits
    ensures Bit(XorBits(a, b, bits), k) == (Bit(a, k) + Bit(b, k)) % 2
    decreases bits
  {
    XorUnfold(a, b, bits);
    if k > 0 {
      XorBit(a / 2, b / 2, bits - 1, k - 1);
    }
  }

  /** A number of so many bits is determined by them. */
  lemma {:induction false} BitsDetermine(a: nat, b: nat, bits: nat)
    requires a < Pow2(bits) && b < Pow2(bits) && forall k :: 0 <= k < bits ==> Bit(a, k) == Bit(b, k)
    ensures a == b
  {
    if bits > 0 {
      assert Bit(a, 0) == Bit(b, 0);
      forall k | 0 <= k < bits - 1 ensures Bit(a / 2, k) == Bit(b / 2, k) {
        assert Bit(a, k + 1) == Bit(b, k + 1);
      }
      BitsDetermine(a / 2, b / 2, bits - 1);
    }
  }

  /** Every bit of `r` tells whether the two others differ there. */
  ghost predicate TellsApart(a: nat, b: nat, r: nat, bits: nat) {
    forall k :: 0 <= k < bits ==> Bit(r, k) == (Bit(a, k) + Bit(b, k)) % 2
  }

  lemma XorTellsApart(a: nat, b: nat, bits: nat)
    ensures TellsApart(a, b, XorBits(a, b, bits), bits)
  {
    hide Bit, XorBits;
    forall k | 0 <= k < bits ensures Bit(XorBits(a, b, bits), k) == (Bit(a, k) + Bit(b, k)) % 2 {
      XorBit(a, b, bits, k);
    }
  }

  lemma OnlyOneTellsApart(a: nat, b: nat, r: nat, r': nat, bits: nat)
    requires TellsApart(a, b, r, bits) && TellsApart(a, b, r', bits) && r < Pow2(bits) && r' < Pow2(bits)
    ensures r == r'
  {
    hide Bit;
    forall k | 0 <= k < bits ensures Bit(r, k) == Bit(r', k) {
      assert Bit(r, k) == (Bit(a, k) + Bit(b, k)) % 2;
      assert Bit(r', k) == (Bit(a, k) + Bit(b, k)) % 2;
    }
    BitsDetermine(r, r', bits);
  }

  /** The exclusive or is exactly the number that tells the two apart, bit by bit. */
  lemma Xor8Iff(a: u8, b: u8, r: u8)
    ensures r == Xor8(a, b) <==> TellsApart(a, b, r, 8)
  {
    hide TellsApart, XorBits;
    Pow2Values();
    XorTellsApart(a, b, 8);
    if TellsApart(a, b, r, 8) {
      OnlyOneTellsApart(a, b, r, Xor8(a, b), 8);
    }
  }

  lemma Xor16Iff(a: u16, b: u16, r: u16)
    ensures r == Xor16(a, b) <==> TellsApart(a, b, r, 16)
  {
    hide TellsApart, XorBits;
    Pow2Values();
    XorTellsApart(a, b, 16);
    if TellsApart(a, b, r, 16) {
      OnlyOneTellsApart(a, b, r, Xor16(a, b), 16);
    }
  }

  // ----- masks -----

  /** Every byte of `s` masked with the byte of `key` at its place. */
  function Masked(s: Bytes, key: Bytes): (r: Bytes)
    requires |s| <= |key|
    ensures |r| == |s|
  {
    seq(|s|, i requires 0 <= i < |s| => Xor8(s[i], key[i]))
  }

  lemma MaskedTwice(s: Bytes, key: Bytes)
    requires |s| <= |key|
    ensures Masked(Masked(s, key), key) == s
  {
    forall i | 0 <= i < |s| ensures Masked(Masked(s, key), key)[i] == s[i] {
      Xor8Twice(s[i], key[i]);
    }
  }

  method MaskInPlace(octets: array<u8>, key: Bytes)
    requires octets.Length <= |key|
    modifies octets
    ensures octets[..] == Masked(old(octets[..]), key)
  {
    for i := 0 to octets.Length
      invariant forall k :: 0 <= k < i ==> octets[k] == Xor8(old(octets[k]), key[k])
      invariant forall k :: i <= k < octets.Length ==> octets[k] == old(octets[k])
    {
      octets[i] := Xor8(octets[i], key[i]);
    }
  }

  /** Equality without an early exit: every difference is or-ed into one accumulator. */
  method ConstantTimeEq(a: Bytes, b: Bytes) returns (equal: bool)
    ensures equal <==> a == b
  {
    if |a| != |b| {
      return false;
    }
    var diff: u8 := 0;
    for i := 0 to |a|
      invariant diff == 0 <==> a[..i] == b[..i]
    {
      DifferenceAccumulates(diff, a[i], b[i]);
      diff := Or8(diff, Xor8(a[i], b[i]));
      assert a[..i + 1] == a[..i] + [a[i]] && b[..i + 1] == b[..i] + [b[i]];
    }
    assert a[..|a|] == a && b[..|b|] == b;
    return diff == 0;
  }
}
