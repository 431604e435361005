/** The write-ahead log on disk: records cut into checksummed fragments that never straddle a
    block. */
module LogFormat {
  import opened Bytes

  const BLOCK_SIZE: nat := 32768
  const HEADER_SIZE: nat := 7

  const FULL: nat := 1
  const FIRST: nat := 2
  const MIDDLE: nat := 3
  const LAST: nat := 4
  const END_OF_FILE: nat := 5
  const BAD_RECORD: nat := 6

  const MASK_DELTA: nat := 0xa282_ead8

  /** The checksum folds an arbitrary byte step over the data. */
  type Step = (uint32, byte) -> uint32

  function Extend(step: Step, crc: uint32, data: seq<byte>): uint32
    decreases |data|
  {
    if data == [] then crc else Extend(step, step(crc, data[0]), data[1..])
  }

  /** Rotate right by fifteen bits and add a constant. */
  function Mask(crc: uint32): uint32 {
    (crc / 0x8000 + crc % 0x8000 * 0x2_0000 + MASK_DELTA) % 0x1_0000_0000
  }

  function Unmask(masked: uint32): uint32 {
    var rot := (masked - MASK_DELTA) % 0x1_0000_0000;
    rot / 0x2_0000 + rot % 0x2_0000 * 0x8000
  }

  lemma UnmaskUndoesMask(crc: uint32)
    ensures Unmask(Mask(crc)) == crc
  {
    var high, low := crc / 0x8000, crc % 0x8000;
    WrapBack(high + low * 0x2_0000);
    SplitAgain(high, low);
  }

  lemma WrapBack(rotated: uint32)
    ensures ((rotated + MASK_DELTA) % 0x1_0000_0000 - MASK_DELTA) % 0x1_0000_0000 == rotated
  {
  }

  lemma SplitAgain(high: nat, low: nat)
    requires high < 0x2_0000
    ensures (high + low * 0x2_0000) / 0x2_0000 == low && (high + low * 0x2_0000) % 0x2_0000 == high
  {
  }

  lemma {:induction false} ExtendTwice(step: Step, crc: uint32, a: seq<byte>, b: seq<byte>)
    ensures Extend(step, Extend(step, crc, a), b) == Extend(step, crc, a + b)
    decreases |a|
  {
    if a == [] {
      assert a + b == b;
    } else {
      ExtendTwice(step, step(crc, a[0]), a[1..], b);
      assert (a + b)[1..] == a[1..] + b;
    }
  }

  /** One physical record: masked checksum of type and data, length, type, data. */
  function Physical(step: Step, kind: byte, data: seq<byte>): (s: seq<byte>)
    requires |data| < 0x1_0000
    ensures |s| == HEADER_SIZE + |data|
  {
    Fixed(Mask(Extend(step, 0, [kind] + data)), 4) + [|data| % 0x100, |data| / 0x100, kind] + data
  }

  function Zeros(n: nat): (s: seq<byte>)
    ensures |s| == n
  {
    seq(n, _ => 0)
  }

  /** Bytes left over at file position `p`, too few for a header. */
  function Pad(p: nat): (n: nat)
    ensures n < HEADER_SIZE && (n > 0 ==> (p + n) % BLOCK_SIZE == 0)
  {
    if BLOCK_SIZE - p % BLOCK_SIZE < HEADER_SIZE then BLOCK_SIZE - p % BLOCK_SIZE else 0
  }

  /** How much data the fragment written from position `p` may carry. */
  function Room(p: nat): nat {
    BLOCK_SIZE - (p + Pad(p)) % BLOCK_SIZE - HEADER_SIZE
  }

  function KindOf(begin: bool, end: bool): byte {
    if begin && end then FULL else if begin then FIRST else if end then LAST else MIDDLE
  }

  /** The first fragment of `left` written at position `p`. */
  function Piece(left: seq<byte>, p: nat): nat {
    if |left| < Room(p) then |left| else Room(p)
  }

  /** One fragment with the padding before it. */
  function Head(step: Step, left: seq<byte>, begin: bool, p: nat): (s: seq<byte>)
    ensures |s| == Pad(p) + HEADER_SIZE + Piece(left, p)
  {
    var n := Piece(left, p);
    Zeros(Pad(p)) + Physical(step, KindOf(begin, n == |left|), left[..n])
  }

  /** Everything written for the data `left` of a record from file position `p` on. */
  function Fragments(step: Step, left: seq<byte>, begin: bool, p: nat): (s: seq<byte>)
    ensures |s| >= HEADER_SIZE
    decreases |left|, Room(p) == 0
  {
    var n, head := Piece(left, p), Head(step, left, begin, p);
    if n == |left| then head else head + Fragments(step, left[n..], false, p + |head|)
  }

  lemma FragmentsUnfold(step: Step, left: seq<byte>, begin: bool, p: nat)
    ensures var n, head := Piece(left, p), Head(step, left, begin, p);
            Fragments(step, left, begin, p) ==
              if n == |left| then head else head + Fragments(step, left[n..], false, p + |head|)
  {
    hide Head;
    hide Piece;
  }

  /** A whole log: records one after the other, from file position `p` on. */
  function Log(step: Step, records: seq<seq<byte>>, p: nat): seq<byte> {
    if records == [] then []
    else
      var first := Fragments(step, records[0], true, p);
      first + Log(step, records[1..], p + |first|)
  }

  /** The records whose last fragment ends at or before `cut`. */
  function Survivors(step: Step, records: seq<seq<byte>>, p: nat, cut: nat): seq<seq<byte>> {
    if records == [] then []
    else
      var q := p + |Fragments(step, records[0], true, p)|;
      if q <= cut then [records[0]] + Survivors(step, records[1..], q, cut) else []
  }

  /** A cut log loses records only from the end, and an uncut one loses none. */
  lemma {:induction false} SurvivorsArePrefix(step: Step, records: seq<seq<byte>>, p: nat, cut: nat)
    ensures Survivors(step, records, p, cut) <= records
    ensures p + |Log(step, records, p)| <= cut ==> Survivors(step, records, p, cut) == records
  {
    hide Fragments;
    if records != [] {
      SurvivorsArePrefix(step, records[1..], p + |Fragments(step, records[0], true, p)|, cut);
    }
  }

  lemma {:induction false} LogAppend(step: Step, records: seq<seq<byte>>, last: seq<byte>, p: nat)
    ensures Log(step, records + [last], p)
         == Log(step, records, p) + Fragments(step, last, true, p + |Log(step, records, p)|)
  {
    hide Fragments;
    if records == [] {
      assert records + [last] == [last] && [last][1..] == [];
    } else {
      LogAppend(step, records[1..], last, p + |Fragments(step, records[0], true, p)|);
      assert (records + [last])[1..] == records[1..] + [last];
    }
  }

  // ---- The bytes of short records

  /** A record that fits into the first block: checksum, length, kind 1, data. */
  lemma OneFragment(step: Step, data: seq<byte>)
    requires |data| <= 32761
    ensures Fragments(step, data, true, 0)
         == Fixed(Mask(Extend(step, 0, [1] + data)), 4) + [|data| % 0x100, |data| / 0x100, 1] + data
  {
    hide Mask, Extend, Fixed;
    FragmentsUnfold(step, data, true, 0);
    hide Fragments;
    FirstBlock();
    assert data[..|data|] == data && Head(step, data, true, 0) == [] + Physical(step, 1, data) == Physical(step, 1, data);
    PhysicalParts(step, 1, data);
  }

  /** One that fills the first block and ends in the second: kinds 2 and 4, the second block's at 32768. */
  lemma TwoFragments(step: Step, data: seq<byte>)
    requires 32761 < |data| <= 65522
    ensures var a, b := data[..32761], data[32761..];
      Fragments(step, data, true, 0)
      == Fixed(Mask(Extend(step, 0, [2] + a)), 4) + [0xf9, 0x7f, 2] + a
       + (Fixed(Mask(Extend(step, 0, [4] + b)), 4) + [|b| % 0x100, |b| / 0x100, 4] + b)
  {
    hide Mask, Extend, Fixed;
    var a, b := data[..32761], data[32761..];
    FragmentsUnfold(step, data, true, 0);
    FragmentsUnfold(step, b, false, 32768);
    hide Fragments;
    FirstBlock();
    assert Head(step, data, true, 0) == [] + Physical(step, 2, a) == Physical(step, 2, a);
    assert b[..|b|] == b && Head(step, b, false, 32768) == [] + Physical(step, 4, b) == Physical(step, 4, b);
    PhysicalParts(step, 2, a);
    PhysicalParts(step, 4, b);
  }

  lemma FirstBlock()
    ensures Pad(0) == 0 && Room(0) == 32761 && Pad(32768) == 0 && Room(32768) == 32761 && Zeros(0) == []
  {
  }

  lemma PhysicalParts(step: Step, kind: byte, data: seq<byte>)
    requires |data| < 0x1_0000
    ensures Physical(step, kind, data)
         == Fixed(Mask(Extend(step, 0, [kind] + data)), 4) + [|data| % 0x100, |data| / 0x100, kind] + data
  {
  }
}
