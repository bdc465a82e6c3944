/** Machine integers, optional values and the few sequence helpers every other module shares. */
module Prelude {
  type u8 = x: int | 0 <= x < 0x100
  type u16 = x: int | 0 <= x < 0x1_0000
  type u32 = x: int | 0 <= x < 0x1_0000_0000
  type u64 = x: int | 0 <= x < 0x1_0000_0000_0000_0000

  type Bytes = seq<u8>

  datatype Option<+T> = None | Some(value: T)

  datatype Result<+T, +E> = Ok(value: T) | Err(error: E)

  /** Everything but the last element. */
  function Front<T>(s: seq<T>): (r: seq<T>)
    requires |s| > 0
  {
    s[..|s| - 1]
  }

  function Last<T>(s: seq<T>): T
    requires |s| > 0
  {
    s[|s| - 1]
  }

  /** Time never runs backwards along the sequence. */
  ghost predicate InOrder<T>(s: seq<T>, time: T -> nat) {
    forall i, j :: 0 <= i < j < |s| ==> time(s[i]) <= time(s[j])
  }

  lemma SubsetSize<T>(a: set<T>, b: set<T>)
    requires a <= b
    ensures |a| <= |b|
  {
    assert |b - a| + |a| == |b|;
  }

  /** `u16::to_be_bytes` and `u32::to_be_bytes`, and back. */
  function Be16(x: u16): (r: Bytes)
    ensures |r| == 2
  {
    [x / 0x100, x % 0x100]
  }

  function FromBe16(hi: u8, lo: u8): u16 {
    hi * 0x100 + lo
  }

  function Be32(x: u32): (r: Bytes)
    ensures |r| == 4
  {
    Be16(x / 0x1_0000) + Be16(x % 0x1_0000)
  }

  function FromBe32(s: Bytes): u32
    requires |s| == 4
  {
    var a: nat, b: nat, c: nat := s[0], s[1], s[2];
    a * 0x100_0000 + b * 0x1_0000 + c * 0x100 + s[3]
  }

  lemma Be16RoundTrip(x: u16)
    ensures FromBe16(Be16(x)[0], Be16(x)[1]) == x
  {
  }

  lemma Be32RoundTrip(x: u32)
    ensures FromBe32(Be32(x)) == x
  {
  }

  /** The string literals of the source, as the bytes they stand for. */
  function Ascii(s: string): (r: Bytes)
    requires forall i :: 0 <= i < |s| ==> s[i] < 128 as char
    ensures |r| == |s|
  {
    seq(|s|, i requires 0 <= i < |s| => s[i] as int)
  }
}
