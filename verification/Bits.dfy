/** Bit operations, defined one bit at a time. */
module Bits {
  import opened Bytes

  function Pow2(n: nat): (p: nat)
    ensures p > 0
  {
    if n == 0 then 1 else 2 * Pow2(n - 1)
  }

  /** a ^ b */
  function Xor(a: nat, b: nat): nat
    decreases a + b
  {
    if a == 0 && b == 0 then 0 else 2 * Xor(a / 2, b / 2) + if a % 2 != b % 2 then 1 else 0
  }

  function ShiftLeft(n: nat, s: nat): nat {
    if s == 0 then n else 2 * ShiftLeft(n, s - 1)
  }

  function ShiftRight(n: nat, s: nat): nat {
    if s == 0 then n else ShiftRight(n / 2, s - 1)
  }

  /** The low `width` bits, as a cast keeps them. */
  function Low(n: nat, width: nat): nat {
    if width == 0 then 0 else 2 * Low(n / 2, width - 1) + n % 2
  }

  /** The position of the lowest bit that is set. */
  function LowestSet(n: nat): nat
    requires n > 0
  {
    if n % 2 == 1 then 0 else 1 + LowestSet(n / 2)
  }

  lemma {:induction false} LowestShifted(n: nat, s: nat)
    requires n > 0
    ensures ShiftLeft(n, s) > 0 && LowestSet(ShiftLeft(n, s)) == LowestSet(n) + s
  {
    if s > 0 {
      LowestShifted(n, s - 1);
      assert ShiftLeft(n, s) / 2 == ShiftLeft(n, s - 1);
    }
  }

  /** The lowest set bit is among the low bits, or among the others if those are all zero. */
  lemma {:induction false} LowestSplit(n: nat, width: nat)
    requires n > 0
    ensures Low(n, width) != 0 ==> LowestSet(n) == LowestSet(Low(n, width)) < width
    ensures Low(n, width) == 0 ==> ShiftRight(n, width) > 0 && LowestSet(n) == width + LowestSet(ShiftRight(n, width))
  {
    if width > 0 {
      var low := Low(n / 2, width - 1);
      assert Low(n, width) == 2 * low + n % 2;
      if n % 2 == 0 {
        LowestSplit(n / 2, width - 1);
        assert (2 * low) / 2 == low;
      }
    }
  }

  lemma {:induction false} LowBelow(n: nat, width: nat)
    ensures Low(n, width) < Pow2(width)
    ensures n < Pow2(width) ==> Low(n, width) == n
  {
    if width > 0 {
      LowBelow(n / 2, width - 1);
    }
  }

  lemma {:induction false} ShiftRightBelow(n: nat, s: nat, width: nat)
    requires n < Pow2(s + width)
    ensures ShiftRight(n, s) < Pow2(width)
  {
    if s > 0 {
      ShiftRightBelow(n / 2, s - 1, width);
    }
  }

  lemma LowestFits(n: nat, width: nat)
    requires 0 < n < Pow2(width)
    ensures LowestSet(n) < width
  {
    LowBelow(n, width);
    LowestSplit(n, width);
  }

  /** Halving the range in which the lowest set bit may be, by shifting it towards the top. */
  method FindLSBSetNonZero(n0: nat) returns (rc: int)
    requires 0 < n0 < Pow2(32)
    ensures rc == LowestSet(n0)
  {
    hide Pow2, LowestSet, Low, ShiftLeft;
    LowestFits(n0, 32);
    var n, shift := n0, 16;
    rc := 31;
    ghost var range: nat := 32;
    for i := 0 to 5
      invariant n > 0 && LowestSet(n) == LowestSet(n0) + (31 - rc) && 32 - range <= LowestSet(n) < 32
      invariant range == [32, 16, 8, 4, 2, 1][i] && shift == [16, 8, 4, 2, 1, 0][i]
    {
      var x := Low(ShiftLeft(n, shift), 32);
      LowestShifted(n, shift);
      LowestSplit(ShiftLeft(n, shift), 32);
      if x != 0 {
        n := x;
        rc := rc - shift;
      }
      shift := shift / 2;
      range := range / 2;
    }
  }

  method FindLSBSetNonZero64(n: nat) returns (rc: int)
    requires 0 < n < Pow2(64)
    ensures rc == LowestSet(n)
  {
    hide Pow2, LowestSet, Low, ShiftRight;
    var bottomBits := Low(n, 32);
    LowestSplit(n, 32);
    if bottomBits == 0 {
      ShiftRightBelow(n, 32, 32);
      var top := FindLSBSetNonZero(ShiftRight(n, 32));
      rc := 32 + top;
    } else {
      LowBelow(n, 32);
      rc := FindLSBSetNonZero(bottomBits);
    }
  }

  /** The logarithm, rounded down; -1 for zero. */
  method Log2Floor(n: nat) returns (log: int)
    requires n < Pow2(32)
    ensures n == 0 ==> log == -1
    ensures n > 0 ==> 0 <= log < 32 && Pow2(log) <= n < Pow2(log + 1)
  {
    if n == 0 {
      return -1;
    }
    hide Pow2, ShiftRight;
    log := 0;
    var value, shift: nat := n, 16;
    NoShift(n);
    while shift > 0
      invariant shift in {16, 8, 4, 2, 1, 0} && 0 <= log <= 32 - Range(shift)
      invariant value == ShiftRight(n, log) && 0 < value < Pow2(Range(shift))
    {
      var x := ShiftRight(value, shift);
      Halved(n, log, value, shift);
      if x != 0 {
        value := x;
        log := log + shift;
      }
      shift := shift / 2;
    }
    PowerStep(0);
    assert value == 1;
    OneLeft(n, log);
  }

  /** How many bits may be left when `shift` is next. */
  function Range(shift: nat): nat {
    if shift == 0 then 1 else 2 * shift
  }

  lemma Halved(n: nat, log: nat, value: nat, shift: nat)
    requires value == ShiftRight(n, log) && value < Pow2(2 * shift)
    ensures ShiftRight(value, shift) == ShiftRight(n, log + shift) < Pow2(shift)
    ensures ShiftRight(value, shift) == 0 ==> value < Pow2(shift)
  {
    hide Pow2, ShiftRight;
    ShiftTwice(n, log, shift);
    assert 2 * shift == shift + shift;
    ShiftRightBelow(value, shift, shift);
    ShiftedOut(value, shift);
  }

  lemma NoShift(n: nat)
    ensures ShiftRight(n, 0) == n
  {
  }

  lemma PowerStep(n: nat)
    ensures Pow2(n + 1) == 2 * Pow2(n) && Pow2(0) == 1
  {
  }

  lemma PowerByte(n: nat)
    ensures Pow2(n + 8) == 0x100 * Pow2(n)
  {
    PowerStep(n);
    PowerStep(n + 1);
    PowerStep(n + 2);
    PowerStep(n + 3);
    PowerStep(n + 4);
    PowerStep(n + 5);
    PowerStep(n + 6);
    PowerStep(n + 7);
  }

  /** A word of `k` bytes has `8 * k` bits. */
  lemma {:induction false} WordFits(s: seq<byte>)
    ensures LittleEndian(s) < Pow2(8 * |s|)
  {
    hide Pow2;
    PowerStep(0);
    if s != [] {
      WordFits(s[1..]);
      PowerByte(8 * |s[1..]|);
    }
  }

  lemma {:induction false} ShiftTwice(n: nat, a: nat, b: nat)
    ensures ShiftRight(ShiftRight(n, a), b) == ShiftRight(n, a + b)
  {
    if a > 0 {
      ShiftTwice(n / 2, a - 1, b);
    }
  }

  lemma {:induction false} ShiftedOut(n: nat, s: nat)
    ensures ShiftRight(n, s) == 0 <==> n < Pow2(s)
  {
    if s > 0 {
      ShiftedOut(n / 2, s - 1);
    }
  }

  /** When one bit is left, the distance shifted is the logarithm. */
  lemma {:induction false} OneLeft(n: nat, s: nat)
    requires ShiftRight(n, s) == 1
    ensures Pow2(s) <= n < Pow2(s + 1)
  {
    if s > 0 {
      OneLeft(n / 2, s - 1);
    }
  }

  // ---- Exclusive or of two words

  lemma {:induction false} XorZero(a: nat, b: nat)
    ensures Xor(a, b) == 0 <==> a == b
    decreases a + b
  {
    if a != 0 || b != 0 {
      XorZero(a / 2, b / 2);
    }
  }

  lemma {:induction false} XorParts(a: nat, b: nat, width: nat)
    ensures Low(Xor(a, b), width) == Xor(Low(a, width), Low(b, width))
    ensures ShiftRight(Xor(a, b), width) == Xor(ShiftRight(a, width), ShiftRight(b, width))
  {
    hide Xor;
    if width > 0 {
      XorParts(a / 2, b / 2, width - 1);
      XorHalves(a, b);
      XorHalves(Low(a, width), Low(b, width));
      LowHalves(a, width);
      LowHalves(b, width);
      LowHalves(Xor(a, b), width);
      Rejoin(Xor(Low(a, width), Low(b, width)), Low(Xor(a, b), width));
    } else {
      XorZero(0, 0);
    }
  }

  lemma LowHalves(n: nat, width: nat)
    requires width > 0
    ensures Low(n, width) / 2 == Low(n / 2, width - 1) && Low(n, width) % 2 == n % 2
  {
  }

  lemma Rejoin(a: nat, b: nat)
    requires a / 2 == b / 2 && a % 2 == b % 2
    ensures a == b
  {
  }

  lemma XorHalves(a: nat, b: nat)
    ensures Xor(a, b) / 2 == Xor(a / 2, b / 2) && Xor(a, b) % 2 == if a % 2 != b % 2 then 1 else 0
  {
  }

  lemma {:induction false} XorBelow(a: nat, b: nat, width: nat)
    requires a < Pow2(width) && b < Pow2(width)
    ensures Xor(a, b) < Pow2(width)
  {
    if width > 0 {
      XorBelow(a / 2, b / 2, width - 1);
    }
  }

  /** A word's lowest byte and the others. */
  lemma ByteOff(s: seq<byte>)
    requires s != []
    ensures Low(LittleEndian(s), 8) == s[0] && ShiftRight(LittleEndian(s), 8) == LittleEndian(s[1..])
  {
    LowEight(LittleEndian(s[1..]), s[0]);
  }

  lemma LowEight(high: nat, low: byte)
    ensures Low(low + 0x100 * high, 8) == low && ShiftRight(low + 0x100 * high, 8) == high
  {
    OneOff(low, high, 8);
    assert Pow2(8) == 0x100 by { assert Pow2(4) == 16; }
  }

  lemma {:induction false} OneOff(low: nat, high: nat, width: nat)
    requires low < Pow2(width)
    ensures Low(low + Pow2(width) * high, width) == low && ShiftRight(low + Pow2(width) * high, width) == high
  {
    if width > 0 {
      var n := low + Pow2(width) * high;
      assert n == low + 2 * (Pow2(width - 1) * high);
      assert n / 2 == low / 2 + Pow2(width - 1) * high && n % 2 == low % 2;
      OneOff(low / 2, high, width - 1);
    }
  }

  /** The lowest differing bit of two words is in the first byte that differs. */
  lemma {:induction false} FirstDifference(a: seq<byte>, b: seq<byte>)
    requires |a| == |b| && a != b
    ensures Xor(LittleEndian(a), LittleEndian(b)) > 0
    ensures var k := LowestSet(Xor(LittleEndian(a), LittleEndian(b))) / 8;
      k < |a| && a[..k] == b[..k] && a[k] != b[k]
  {
    hide LowestSet, Xor, Low, ShiftRight, LittleEndian;
    var x := Xor(LittleEndian(a), LittleEndian(b));
    ByteOff(a);
    ByteOff(b);
    XorParts(LittleEndian(a), LittleEndian(b), 8);
    XorZero(a[0], b[0]);
    Nonzero(x, 8);
    if a[0] != b[0] {
      LowestSplit(x, 8);
    } else {
      assert a == [a[0]] + a[1..] && b == [b[0]] + b[1..];
      FirstDifference(a[1..], b[1..]);
      Nonzero(x, 8);
      LowestSplit(x, 8);
      var k := LowestSet(Xor(LittleEndian(a[1..]), LittleEndian(b[1..]))) / 8;
      assert a[..k + 1] == [a[0]] + a[1..][..k] && b[..k + 1] == [b[0]] + b[1..][..k];
    }
  }

  lemma {:induction false} Nonzero(n: nat, width: nat)
    ensures Low(n, width) != 0 || ShiftRight(n, width) != 0 ==> n > 0
  {
    if width > 0 {
      Nonzero(n / 2, width - 1);
    }
  }
}
