/** Variable-length numbers: the coding shared by log-structured tables and compressed blocks. */
module Coding {
  import opened Bytes

  /** A variable-length number, at most five bytes of seven bits, kept to 32 bits, and what follows it. */
  function ReadLength(s: seq<byte>, index: nat): Option<(uint32, seq<byte>)>
    requires index <= 5
    decreases 5 - index
  {
    if index == 5 || s == [] then None
    else
      var low := s[0] % 0x80 * Shift(index) % 0x1_0000_0000;
      if s[0] < 0x80 then Some((low, s[1..]))
      else match ReadLength(s[1..], index + 1)
        case None => None
        case Some(r) => Some(((low + r.0) % 0x1_0000_0000, r.1))
  }

  /** Numbers in bytes: seven bits each, the lowest first, and the high bit where more follow. */
  lemma VarintExamples()
    ensures Varint(0) == [0] && Varint(127) == [0x7f] && Varint(128) == [0x80, 1] && Varint(300) == [0xac, 2]
    ensures Varint(16383) == [0xff, 0x7f] && Varint(0xffff_ffff) == [0xff, 0xff, 0xff, 0xff, 0x0f]
  {
    assert Varint(0xffff_ffff) == [0xff] + Varint(0x1ff_ffff) && Varint(0x1ff_ffff) == [0xff] + Varint(0x3_ffff);
    assert Varint(0x3_ffff) == [0xff] + Varint(0x7ff) && Varint(0x7ff) == [0xff] + Varint(0xf);
  }

  /** 2 to the power `7 * index`. */
  function Shift(index: nat): nat
    requires index <= 5
  {
    [0x1, 0x80, 0x4000, 0x20_0000, 0x1000_0000, 0x8_0000_0000][index]
  }

  method EncodeVarint32(v: uint32) returns (s: seq<byte>)
    ensures s == Varint(v) && |s| <= 5
  {
    if v < 0x80 {
      s := [v];
    } else if v < 0x4000 {
      s := [v % 0x80 + 0x80, v / 0x80];
    } else if v < 0x20_0000 {
      s := [v % 0x80 + 0x80, v / 0x80 % 0x80 + 0x80, v / 0x4000];
    } else if v < 0x1000_0000 {
      s := [v % 0x80 + 0x80, v / 0x80 % 0x80 + 0x80, v / 0x4000 % 0x80 + 0x80, v / 0x20_0000];
    } else {
      s := [v % 0x80 + 0x80, v / 0x80 % 0x80 + 0x80, v / 0x4000 % 0x80 + 0x80, v / 0x20_0000 % 0x80 + 0x80,
            v / 0x1000_0000];
    }
    VarintUnfolds(v);
  }

  lemma VarintUnfolds(v: uint32)
    ensures v >= 0x80 ==> Varint(v) == [v % 0x80 + 0x80] + Varint(v / 0x80)
    ensures v >= 0x4000 ==> Varint(v / 0x80) == [v / 0x80 % 0x80 + 0x80] + Varint(v / 0x4000)
    ensures v >= 0x20_0000 ==> Varint(v / 0x4000) == [v / 0x4000 % 0x80 + 0x80] + Varint(v / 0x20_0000)
    ensures v >= 0x1000_0000 ==> Varint(v / 0x20_0000) == [v / 0x20_0000 % 0x80 + 0x80] + Varint(v / 0x1000_0000)
  {
    assert v / 0x80 / 0x80 == v / 0x4000 && v / 0x4000 / 0x80 == v / 0x20_0000;
    assert v / 0x20_0000 / 0x80 == v / 0x1000_0000;
  }

  /** Taking one seven-bit digit off `n`. */
  lemma Digit(n: nat, m: nat)
    requires 0 < m && n * m < 0x1_0000_0000
    ensures n % 0x80 * m < 0x1_0000_0000 && n / 0x80 * (0x80 * m) < 0x1_0000_0000
    ensures n % 0x80 * m + n / 0x80 * (0x80 * m) == n * m
  {
    var d, q := n % 0x80, n / 0x80;
    assert n * m == (d + 0x80 * q) * m == d * m + q * (0x80 * m);
    assert d * m >= 0 && q * (0x80 * m) >= 0;
  }

  /** A length put in front is read back, whatever follows. */
  lemma {:induction false} LengthRoundTrip(n: nat, index: nat, rest: seq<byte>)
    requires index <= 4 && n * Shift(index) < 0x1_0000_0000
    ensures ReadLength(Varint(n) + rest, index) == Some((n * Shift(index), rest))
    decreases 5 - index
  {
    hide ReadLength;
    var s, m := Varint(n) + rest, Shift(index);
    Digit(n, m);
    if n < 0x80 {
      assert s == [n] + rest;
      ReadLast(n, index, rest);
    } else {
      assert index < 4 && Shift(index + 1) == 0x80 * m;
      LengthRoundTrip(n / 0x80, index + 1, rest);
      hide Shift;
      assert s[1..] == Varint(n / 0x80) + rest;
      assert s[0] % 0x80 == n % 0x80;
      ReadStep(s, index, rest, n % 0x80 * m, n / 0x80 * Shift(index + 1));
    }
  }

  lemma ReadLast(n: byte, index: nat, rest: seq<byte>)
    requires n < 0x80 && index < 5 && n * Shift(index) < 0x1_0000_0000
    ensures ReadLength([n] + rest, index) == Some((n * Shift(index), rest))
  {
    hide Shift;
    assert ([n] + rest)[1..] == rest;
  }

  lemma ReadStep(s: seq<byte>, index: nat, rest: seq<byte>, low: uint32, high: uint32)
    requires index < 5 && s != [] && s[0] >= 0x80
    requires low == s[0] % 0x80 * Shift(index) && low + high < 0x1_0000_0000
    requires ReadLength(s[1..], index + 1) == Some((high, rest))
    ensures ReadLength(s, index) == Some((low + high, rest))
  {
    hide Shift;
  }

  /** Reading the whole length is reading what is left and adding what was read. */
  ghost predicate Partial(input: seq<byte>, rest: seq<byte>, index: nat, result: nat)
    requires index <= 5
  {
    ReadLength(input, 0) ==
      match ReadLength(rest, index)
      case None => None
      case Some((high, tail)) => Some(((result + high) % 0x1_0000_0000, tail))
  }

  lemma PartialStart(input: seq<byte>)
    ensures Partial(input, input, 0, 0)
  {
    hide ReadLength;
  }

  lemma PartialEnd(input: seq<byte>, rest: seq<byte>, index: nat, result: nat)
    requires index <= 5 && (index == 5 || rest == []) && Partial(input, rest, index, result)
    ensures ReadLength(input, 0).None?
  {
  }

  lemma WrapAround(a: uint32, b: uint32, c: uint32)
    ensures (a + (b + c) % 0x1_0000_0000) % 0x1_0000_0000 == ((a + b) % 0x1_0000_0000 + c) % 0x1_0000_0000
  {
  }

  lemma PartialStep(input: seq<byte>, rest: seq<byte>, index: nat, result: uint32)
    requires index < 5 && rest != [] && Partial(input, rest, index, result)
    ensures var low := rest[0] % 0x80 * Shift(index) % 0x1_0000_0000;
            var sum := (result + low) % 0x1_0000_0000;
            if rest[0] < 0x80 then ReadLength(input, 0) == Some((sum, rest[1..]))
            else Partial(input, rest[1..], index + 1, sum)
  {
    hide Shift;
    var low: uint32 := rest[0] % 0x80 * Shift(index) % 0x1_0000_0000;
    ReadUnfolds(rest, index, low);
    hide ReadLength;
    var tail := ReadLength(rest[1..], index + 1);
    if rest[0] >= 0x80 && tail.Some? {
      WrapAround(result, low, tail.value.0);
    }
  }

  lemma ReadUnfolds(s: seq<byte>, index: nat, low: uint32)
    requires index < 5 && s != [] && low == s[0] % 0x80 * Shift(index) % 0x1_0000_0000
    ensures ReadLength(s, index) ==
      if s[0] < 0x80 then Some((low, s[1..]))
      else match ReadLength(s[1..], index + 1)
        case None => None
        case Some(r) => Some(((low + r.0) % 0x1_0000_0000, r.1))
  {
    hide Shift;
  }

  /** Where the number that starts at `p` ends, and what it is. */
  method GetVarint32Ptr(data: seq<byte>, p: nat, limit: nat) returns (r: Option<(uint32, nat)>)
    requires p <= limit <= |data|
    ensures r.Some? == ReadLength(data[p..limit], 0).Some?
    ensures r.Some? ==> p < r.value.1 <= limit
    ensures r.Some? ==> ReadLength(data[p..limit], 0) == Some((r.value.0, data[r.value.1..limit]))
  {
    hide ReadLength, Partial, Shift;
    ghost var input := data[p..limit];
    if p < limit && data[p] < 0x80 {
      OneByte(data[p], data[p + 1..limit]);
      assert input == [data[p]] + data[p + 1..limit];
      return Some((data[p], p + 1));
    }
    PartialStart(input);
    var result, index, q: nat := 0, 0, p;
    while index < 5 && q < limit
      invariant index <= 5 && p <= q <= limit && 0 <= result < 0x1_0000_0000
      invariant Partial(input, data[q..limit], index, result)
    {
      var b := data[q];
      PartialStep(input, data[q..limit], index, result);
      assert data[q..limit][1..] == data[q + 1..limit];
      result := (result + b % 0x80 * Shift(index) % 0x1_0000_0000) % 0x1_0000_0000;
      q := q + 1;
      if b < 0x80 {
        return Some((result, q));
      }
      index := index + 1;
    }
    PartialEnd(input, data[q..limit], index, result);
    r := None;
  }

  lemma OneByte(n: byte, rest: seq<byte>)
    requires n < 0x80
    ensures ReadLength([n] + rest, 0) == Some((n, rest)) && Varint(n) == [n]
  {
    assert ([n] + rest)[1..] == rest;
  }
}
