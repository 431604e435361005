/** The Bloom filter: a filter never denies a key it was made from. */
module Bloom {
  import opened Bytes
  import opened Bits

  type KeyHash = seq<byte> -> uint32

  /** b & (1 << i), one bit at a time */
  predicate TestBit(b: nat, i: nat) {
    if i == 0 then b % 2 == 1 else TestBit(b / 2, i - 1)
  }

  /** b | (1 << i) */
  function WithBit(b: nat, i: nat): nat {
    if i == 0 then b / 2 * 2 + 1 else WithBit(b / 2, i - 1) * 2 + b % 2
  }

  lemma {:induction false} WithBitTests(b: nat, i: nat, j: nat)
    ensures TestBit(WithBit(b, i), j) <==> i == j || TestBit(b, j)
  {
    if i > 0 && j > 0 {
      WithBitTests(b / 2, i - 1, j - 1);
    }
  }

  lemma {:induction false} WithBitBound(b: nat, i: nat, width: nat)
    requires i < width && b < Pow2(width)
    ensures WithBit(b, i) < Pow2(width)
  {
    if i > 0 {
      WithBitBound(b / 2, i - 1, width - 1);
    }
  }

  function SetBit(b: byte, i: nat): byte
    requires i < 8
  {
    WithBitBound(b, i, 8);
    assert Pow2(8) == 256 by { assert Pow2(4) == 16; }
    WithBit(b, i)
  }

  /** Is bit `pos` of the bit array set? */
  predicate BitAt(bits: seq<byte>, pos: nat)
    requires pos < 8 * |bits|
  {
    TestBit(bits[pos / 8], pos % 8)
  }

  function Rotated(h: uint32): uint32 {
    h / 0x2_0000 + h % 0x2_0000 * 0x8000
  }

  /** The `j`-th probe. */
  function Probe(h: uint32, j: nat): uint32 {
    if j == 0 then h else (Probe(h, j - 1) as int + Rotated(h) as int) % 0x1_0000_0000
  }

  lemma ProbeStep(h: uint32, j: nat)
    ensures Probe(h, 0) == h
    ensures Probe(h, j + 1) == (Probe(h, j) as int + Rotated(h) as int) % 0x1_0000_0000
  {
  }

  /** The probes are an arithmetic progression, whose step is the hash rotated right by 17 bits. */
  lemma ProbeIs(h: uint32, j: nat)
    ensures Probe(h, j) == (h + j * (h / 0x2_0000 + h % 0x2_0000 * 0x8000)) % 0x1_0000_0000
  {
    assert Rotated(h) == h / 0x2_0000 + h % 0x2_0000 * 0x8000;
    hide *;
    ProbeSum(h, j, Rotated(h));
  }

  lemma {:induction false} ProbeSum(h: uint32, j: nat, step: nat)
    requires step == Rotated(h)
    ensures Probe(h, j) == (h + j * step) % 0x1_0000_0000
  {
    hide Probe, Rotated;
    if j == 0 {
      ProbeStep(h, 0);
    } else {
      ProbeSum(h, j - 1, step);
      ProbeStep(h, j - 1);
      OneMore(j - 1, step);
      Wrapped(h + (j - 1) * step, step);
    }
  }

  lemma OneMore(j: nat, d: nat)
    ensures (j + 1) * d == j * d + d
  {
  }

  lemma Wrapped(a: nat, d: nat)
    ensures (a % 0x1_0000_0000 + d) % 0x1_0000_0000 == (a + d) % 0x1_0000_0000
  {
  }

  lemma ProbeInRange(bits: nat, h: uint32)
    requires bits > 0
    ensures 0 <= h % bits < bits
  {
  }

  /** Every probe of the key hits a set bit. */
  ghost predicate Covers(bits: seq<byte>, k: nat, h: uint32)
    requires bits != []
  {
    forall j | 0 <= j < k :: BitAt(bits, Probe(h, j) % (8 * |bits|))
  }

  ghost predicate Superset(a: seq<byte>, b: seq<byte>) {
    |a| == |b| && forall p | 0 <= p < 8 * |a| :: BitAt(a, p) ==> BitAt(b, p)
  }

  /** What a filter says about a key with this hash; it may come from a builder with other settings. */
  ghost predicate MayMatch(filter: seq<byte>, h: uint32) {
    |filter| >= 2 && (filter[|filter| - 1] > 30 || Covers(filter[..|filter| - 1], filter[|filter| - 1], h))
  }

  /** Some of the first `k` probes of the key hits the bit. */
  ghost predicate Hit(h: uint32, k: nat, bits: nat, pos: nat)
    requires bits > 0
  {
    exists j :: 0 <= j < k && pos == Probe(h, j) % bits
  }

  /** The bits that were set before, and those that the first `k` probes hit. */
  ghost predicate SetBy(before: seq<byte>, after: seq<byte>, h: uint32, k: nat) {
    && before != [] && |after| == |before|
    && forall p | 0 <= p < 8 * |before| :: BitAt(after, p) <==> BitAt(before, p) || Hit(h, k, 8 * |before|, p)
  }

  /** Exactly the bits that a probe of one of the first `n` keys hits. */
  ghost predicate Exact(bits: seq<byte>, keys: seq<seq<byte>>, n: nat, k: nat, hash: KeyHash)
    requires n <= |keys| && bits != []
  {
    forall p | 0 <= p < 8 * |bits| :: BitAt(bits, p) <==> exists i :: 0 <= i < n && Hit(hash(keys[i]), k, 8 * |bits|, p)
  }

  lemma SetByMore(before: seq<byte>, middle: seq<byte>, h: uint32, j: nat, pos: nat)
    requires SetBy(before, middle, h, j) && pos < 8 * |middle| && pos == Probe(h, j) % (8 * |before|)
    ensures SetBy(before, middle[pos / 8 := SetBit(middle[pos / 8], pos % 8)], h, j + 1)
  {
    hide Probe, SetBit, TestBit;
    var after := middle[pos / 8 := SetBit(middle[pos / 8], pos % 8)];
    forall p | 0 <= p < 8 * |before| ensures BitAt(after, p) <==> BitAt(before, p) || Hit(h, j + 1, 8 * |before|, p) {
      BitSet(middle, pos, p);
      HitMore(h, j, 8 * |before|, p);
    }
  }

  lemma HitMore(h: uint32, j: nat, bits: nat, p: nat)
    requires bits > 0
    ensures Hit(h, j + 1, bits, p) <==> Hit(h, j, bits, p) || p == Probe(h, j) % bits
  {
    hide Probe;
  }

  /** Setting one bit changes no other. */
  lemma BitSet(bits: seq<byte>, pos: nat, p: nat)
    requires pos < 8 * |bits| && p < 8 * |bits|
    ensures BitAt(bits[pos / 8 := SetBit(bits[pos / 8], pos % 8)], p) <==> BitAt(bits, p) || p == pos
  {
    hide WithBit, TestBit;
    WithBitTests(bits[pos / 8], pos % 8, p % 8);
    assert pos == 8 * (pos / 8) + pos % 8 && p == 8 * (p / 8) + p % 8;
  }

  lemma ExactMore(before: seq<byte>, after: seq<byte>, keys: seq<seq<byte>>, n: nat, k: nat, hash: KeyHash)
    requires n < |keys| && SetBy(before, after, hash(keys[n]), k) && Exact(before, keys, n, k, hash)
    ensures Exact(after, keys, n + 1, k, hash)
  {
    hide Hit, BitAt;
    forall p | 0 <= p < 8 * |after|
      ensures BitAt(after, p) <==> exists i :: 0 <= i < n + 1 && Hit(hash(keys[i]), k, 8 * |after|, p)
    {
      if Hit(hash(keys[n]), k, 8 * |after|, p) {
        assert 0 <= n < n + 1;
      }
    }
  }

  lemma NoBitSet(bits: seq<byte>, p: nat)
    requires p < 8 * |bits| && bits[p / 8] == 0
    ensures !BitAt(bits, p)
  {
    NoBit(p % 8);
  }

  lemma {:induction false} NoBit(i: nat)
    ensures !TestBit(0, i)
  {
    if i > 0 {
      NoBit(i - 1);
    }
  }

  lemma NothingSet(bits: seq<byte>, keys: seq<seq<byte>>, k: nat, hash: KeyHash)
    requires bits != [] && forall i | 0 <= i < |bits| :: bits[i] == 0
    ensures Exact(bits, keys, 0, k, hash)
  {
    hide BitAt, Hit;
    forall p | 0 <= p < 8 * |bits| ensures !BitAt(bits, p) {
      NoBitSet(bits, p);
    }
  }

  lemma CoversMore(a: seq<byte>, b: seq<byte>, k: nat, h: uint32)
    requires a != [] && Superset(a, b) && Covers(a, k, h)
    ensures Covers(b, k, h)
  {
    forall j | 0 <= j < k ensures BitAt(b, Probe(h, j) % (8 * |b|)) {
      assert BitAt(a, Probe(h, j) % (8 * |a|));
    }
  }

  lemma SetOne(bits: seq<byte>, pos: nat)
    requires pos < 8 * |bits|
    ensures var after := bits[pos / 8 := SetBit(bits[pos / 8], pos % 8)];
      Superset(bits, after) && BitAt(after, pos)
  {
    hide WithBit, TestBit;
    var after := bits[pos / 8 := SetBit(bits[pos / 8], pos % 8)];
    WithBitTests(bits[pos / 8], pos % 8, pos % 8);
    forall p | 0 <= p < 8 * |bits| && BitAt(bits, p) ensures BitAt(after, p) {
      if p / 8 == pos / 8 {
        WithBitTests(bits[pos / 8], pos % 8, p % 8);
      }
    }
  }

  class BloomFilterPolicy {
    const bitsPerKey: nat
    const k: nat
    const hash: KeyHash

    ghost predicate Valid() {
      1 <= k <= 30
    }

    constructor (bitsPerKey: nat, hash: KeyHash)
      ensures Valid() && this.bitsPerKey == bitsPerKey && this.hash == hash
      ensures k == if bitsPerKey * 69 < 200 then 1 else if bitsPerKey * 69 >= 3000 then 30 else bitsPerKey * 69 / 100
    {
      var n := bitsPerKey * 69 / 100;
      this.bitsPerKey, this.hash := bitsPerKey, hash;
      k := if n < 1 then 1 else if n > 30 then 30 else n;
    }

    /** A filter of the right size for the keys, with exactly the bits set that their probes hit. */
    ghost predicate Makes(filter: seq<byte>, keys: seq<seq<byte>>) {
      && |filter| == (if |keys| * bitsPerKey < 64 then 8 else (|keys| * bitsPerKey + 7) / 8) + 1
      && filter[|filter| - 1] == k && Exact(filter[..|filter| - 1], keys, |keys|, k, hash)
    }

    /** The filter for the keys: a bit array and behind it the number of probes. */
    method CreateFilter(keys: seq<seq<byte>>) returns (filter: seq<byte>)
      requires Valid()
      ensures |filter| >= 9 && forall i | 0 <= i < |keys| :: MayMatch(filter, hash(keys[i]))
      ensures Makes(filter, keys)
    {
      hide Exact, SetBy;
      var bits := |keys| * bitsPerKey;
      if bits < 64 {
        bits := 64;
      }
      var bytes := (bits + 7) / 8;
      var bitArray := new byte[bytes](_ => 0);
      NothingSet(bitArray[..], keys, k, hash);
      for i := 0 to |keys|
        invariant forall l | 0 <= l < i :: Covers(bitArray[..], k, hash(keys[l]))
        invariant Exact(bitArray[..], keys, i, k, hash)
      {
        ghost var before := bitArray[..];
        SetProbes(bitArray, hash(keys[i]));
        ExactMore(before, bitArray[..], keys, i, k, hash);
        forall l | 0 <= l < i ensures Covers(bitArray[..], k, hash(keys[l])) {
          CoversMore(before, bitArray[..], k, hash(keys[l]));
        }
      }
      filter := bitArray[..] + [k];
      assert filter[..|filter| - 1] == bitArray[..];
    }

    method SetProbes(bitArray: array<byte>, h0: uint32)
      requires bitArray.Length >= 8
      modifies bitArray
      ensures Superset(old(bitArray[..]), bitArray[..]) && Covers(bitArray[..], k, h0)
      ensures SetBy(old(bitArray[..]), bitArray[..], h0, k)
    {
      hide Rotated, SetBit, TestBit;
      var h, delta := h0, Rotated(h0);
      for j := 0 to k
        invariant h == Probe(h0, j) && Superset(old(bitArray[..]), bitArray[..]) && Covers(bitArray[..], j, h0)
        invariant SetBy(old(bitArray[..]), bitArray[..], h0, j)
      {
        var bitPos := h % (8 * bitArray.Length);
        ghost var before := bitArray[..];
        SetOne(before, bitPos);
        SetByMore(old(bitArray[..]), before, h0, j, bitPos);
        bitArray[bitPos / 8] := SetBit(bitArray[bitPos / 8], bitPos % 8);
        assert bitArray[..] == before[bitPos / 8 := SetBit(before[bitPos / 8], bitPos % 8)];
        CoversMore(before, bitArray[..], j, h0);
        h := (h as int + delta as int) % 0x1_0000_0000;
      }
    }

    /** False only for keys the filter was not made from. */
    method KeyMayMatch(key: seq<byte>, filter: seq<byte>) returns (may: bool)
      ensures may <==> MayMatch(filter, hash(key))
    {
      hide Rotated, TestBit, Probe;
      var len := |filter|;
      if len < 2 {
        return false;
      }
      var bits, probes := (len - 1) * 8, filter[len - 1];
      if probes > 30 {
        return true;
      }
      var h, delta := hash(key), Rotated(hash(key));
      ghost var bitArray := filter[..len - 1];
      ProbeStep(h, 0);
      for j := 0 to probes
        invariant h == Probe(hash(key), j) && Covers(bitArray, j, hash(key))
      {
        var bitPos := h % bits;
        ProbeInRange(bits, h);
        ProbeStep(hash(key), j);
        assert bitArray[bitPos / 8] == filter[bitPos / 8];
        if !TestBit(filter[bitPos / 8], bitPos % 8) {
          assert !BitAt(bitArray, Probe(hash(key), j) % (8 * |bitArray|));
          return false;
        }
        h := (h as int + delta as int) % 0x1_0000_0000;
      }
      may := true;
    }
  }
}
