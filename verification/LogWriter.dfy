/** Appending records to a log file. */
module LogWriter {
  import opened Bytes
  import opened LogFormat

  class Writer {
    const step: Step
    const typeCrc: seq<uint32>
    var dest: seq<byte>
    var blockOffset: nat

    ghost predicate Valid()
      reads this
    {
      && blockOffset <= BLOCK_SIZE && blockOffset % BLOCK_SIZE == |dest| % BLOCK_SIZE
      && |typeCrc| == 5 && forall t | 0 <= t < 5 :: typeCrc[t] == Extend(step, 0, [t])
    }

    constructor (step: Step)
      ensures Valid() && dest == [] && this.step == step
    {
      this.step := step;
      typeCrc := seq(5, t requires 0 <= t < 5 => Extend(step, 0, [t]));
      dest, blockOffset := [], 0;
    }

    /** Write the whole record, in as many fragments as the blocks require. */
    method AddRecord(slice: seq<byte>)
      requires Valid()
      modifies this`dest, this`blockOffset
      ensures Valid() && dest == old(dest) + Fragments(step, slice, true, |old(dest)|)
    {
      hide Fragments;
      hide Room;
      var left, begin, more := slice, true, true;
      ghost var goal := old(dest) + Fragments(step, slice, true, |old(dest)|);
      while more
        invariant Valid()
        invariant more ==> dest + Fragments(step, left, begin, |dest|) == goal
        invariant !more ==> dest == goal
        decreases more, |left|, Room(|dest|) == 0
      {
        FragmentsStep(step, left, begin, dest);
        RoomAfterHeader(|dest|);
        var n := AddFragment(left, begin);
        left, begin := left[n..], false;
        more := left != [];
      }
    }

    /** One turn of the loop above. */
    method AddFragment(left: seq<byte>, begin: bool) returns (n: nat)
      requires Valid()
      modifies this`dest, this`blockOffset
      ensures Valid() && n == Piece(left, |old(dest)|) && dest == old(dest) + Head(step, left, begin, |old(dest)|)
    {
      hide Physical;
      hide Zeros;
      var leftover := BLOCK_SIZE - blockOffset;
      ghost var before, padded := dest, dest;
      if leftover < HEADER_SIZE {
        AppendZeros(leftover);
        padded := dest;
      }
      assert padded == before + Zeros(Pad(|before|));
      var avail := BLOCK_SIZE - blockOffset - HEADER_SIZE;
      n := if |left| < avail then |left| else avail;
      EmitPhysicalRecord(KindOf(begin, n == |left|), left[..n]);
      Associate(before, Zeros(Pad(|before|)), Physical(step, KindOf(begin, n == |left|), left[..n]));
    }

    /** Fill the trailer of a block that has no room for another header. */
    method AppendZeros(leftover: nat)
      requires Valid() && leftover == BLOCK_SIZE - blockOffset < HEADER_SIZE
      modifies this`dest, this`blockOffset
      ensures Valid() && dest == old(dest) + Zeros(Pad(|old(dest)|)) && blockOffset == 0
    {
      if leftover > 0 {
        dest := dest + Zeros(leftover);
      }
      blockOffset := 0;
    }

    method EmitPhysicalRecord(kind: byte, data: seq<byte>)
      requires Valid() && kind < 5 && blockOffset + HEADER_SIZE + |data| <= BLOCK_SIZE
      modifies this`dest, this`blockOffset
      ensures Valid() && dest == old(dest) + Physical(step, kind, data)
    {
      hide Mask;
      hide Fixed;
      hide Extend;
      ExtendTwice(step, 0, [kind], data);
      var crc := Mask(Extend(step, typeCrc[kind], data));
      var header := Fixed(crc, 4) + [|data| % 0x100, |data| / 0x100, kind];
      Associate(dest, header, data);
      dest := dest + header + data;
      blockOffset := blockOffset + HEADER_SIZE + |data|;
    }
  }

  /** One turn of the loop writes one padded fragment and leaves the rest of the record to write. */
  lemma FragmentsStep(step: Step, left: seq<byte>, begin: bool, dest: seq<byte>)
    ensures var n, next := Piece(left, |dest|), dest + Head(step, left, begin, |dest|);
            if n == |left| then dest + Fragments(step, left, begin, |dest|) == next
            else dest + Fragments(step, left, begin, |dest|) == next + Fragments(step, left[n..], false, |next|)
  {
    FragmentsUnfold(step, left, begin, |dest|);
    hide Fragments;
    hide Head;
    hide Piece;
    var n, head := Piece(left, |dest|), Head(step, left, begin, |dest|);
    if n < |left| {
      Associate(dest, head, Fragments(step, left[n..], false, |dest| + |head|));
    }
  }

  lemma RoomAfterHeader(p: nat)
    ensures Room(p) == 0 ==> Room(p + Pad(p) + HEADER_SIZE) > 0
  {
  }
}
