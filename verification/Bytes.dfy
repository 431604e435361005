/** Bytes, fixed-width words and the little-endian and variable-length codings shared by the
    log, the tables and the block compressor. */
module Bytes {
  type byte = x: int | 0 <= x < 0x100
  type uint16 = x: int | 0 <= x < 0x1_0000
  type uint32 = x: int | 0 <= x < 0x1_0000_0000

  datatype Option<+T> = None | Some(value: T)

  /** The number that `s` spells in little-endian order. */
  function LittleEndian(s: seq<byte>): (n: nat) {
    if s == [] then 0 else s[0] + 0x100 * LittleEndian(s[1..])
  }

  /** The `width` low bytes of `n`, lowest first. */
  function Fixed(n: nat, width: nat): (s: seq<byte>)
    ensures |s| == width
  {
    if width == 0 then [] else [n % 0x100] + Fixed(n / 0x100, width - 1)
  }

  function Power256(width: nat): (p: nat)
    ensures p > 0
  {
    if width == 0 then 1 else 0x100 * Power256(width - 1)
  }

  lemma {:induction false} FixedRoundTrip(n: nat, width: nat)
    requires n < Power256(width)
    ensures LittleEndian(Fixed(n, width)) == n
  {
    if width > 0 {
      FixedRoundTrip(n / 0x100, width - 1);
    }
  }

  lemma {:induction false} LittleEndianBound(s: seq<byte>)
    ensures LittleEndian(s) < Power256(|s|)
  {
    if s != [] {
      LittleEndianBound(s[1..]);
    }
  }

  /** Seven bits a byte, lowest first; the high bit says that more follow. */
  function Varint(n: nat): (s: seq<byte>)
    ensures s != []
  {
    if n < 0x80 then [n] else [n % 0x80 + 0x80] + Varint(n / 0x80)
  }

  lemma Associate<T>(a: seq<T>, b: seq<T>, c: seq<T>)
    ensures a + b + c == a + (b + c)
  {
  }

  lemma {:induction false} SubsetSize<T>(a: set<T>, b: set<T>)
    requires a <= b
    ensures |a| <= |b|
  {
    if x :| x in a {
      SubsetSize(a - {x}, b - {x});
    }
  }
}
