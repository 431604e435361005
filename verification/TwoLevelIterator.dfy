/** An index of blocks and the blocks themselves as one cursor on the concatenation. */
module TwoLevelIterator {
  import opened Bytes
  import opened Entries
  import opened EntryCursor

  /** Blocks in key order; a block's index key lies between its entries and the next block's. */
  ghost predicate Indexed(blocks: seq<seq<Entry>>, separators: seq<InternalKey>) {
    && |separators| == |blocks| && (forall b | 0 <= b < |blocks| :: KeyOrder(blocks[b]))
    && (forall b, i | 0 <= b < |blocks| && 0 <= i < |blocks[b]| :: !Precedes(separators[b], blocks[b][i].key))
    && (forall b, c | 0 <= b < c < |blocks| :: Precedes(separators[b], separators[c]))
    && forall b, c, i | 0 <= b < c < |blocks| && 0 <= i < |blocks[c]| :: Precedes(separators[b], blocks[c][i].key)
  }

  ghost predicate NoneIn(es: seq<Entry>, limit: Limit) {
    forall i | 0 <= i < |es| :: !In(limit, es[i].key)
  }

  ghost predicate AllIn(es: seq<Entry>, limit: Limit) {
    forall i | 0 <= i < |es| :: In(limit, es[i].key)
  }

  /** The first entry within the limit is at `pos` of block `block`, or in a later block. */
  ghost predicate FrontAt(blocks: seq<seq<Entry>>, limit: Limit, block: nat, pos: nat) {
    && block <= |blocks| && (block < |blocks| ==> FirstIn(blocks[block], limit, pos))
    && (forall b | 0 <= b < block :: NoneIn(blocks[b], limit))
    && forall b | block < b < |blocks| :: AllIn(blocks[b], limit)
  }

  /** The last one is at `pos` of `block`, or in an earlier block; block |blocks| means nowhere. */
  ghost predicate BackAt(blocks: seq<seq<Entry>>, limit: Limit, block: nat, pos: nat) {
    && block <= |blocks|
    && (block < |blocks| ==>
          && LastIn(blocks[block], limit, pos) && (forall b | 0 <= b < block :: AllIn(blocks[b], limit)))
    && (block == |blocks| ==> forall b | 0 <= b < |blocks| :: NoneIn(blocks[b], limit))
    && forall b | block < b < |blocks| :: NoneIn(blocks[b], limit)
  }

  lemma FrontIsLeast(blocks: seq<seq<Entry>>, separators: seq<InternalKey>, limit: Limit, block: nat, pos: nat)
    requires Indexed(blocks, separators) && FrontAt(blocks, limit, block, pos)
    requires block < |blocks| ==> pos < |blocks[block]|
    ensures LeastIn(Union(blocks), limit, if block < |blocks| then Some(blocks[block][pos]) else None)
  {
    hide Precedes;
    forall e | e in Union(blocks) && In(limit, e.key)
      ensures block < |blocks| && (e == blocks[block][pos] || Precedes(blocks[block][pos].key, e.key))
    {
      var b, i := InUnion(blocks, e);
      assert b >= block;
      if b > block {
        Ordered(blocks[block][pos].key, separators[block], e.key);
      }
    }
    if block < |blocks| {
      assert blocks[block][pos] in blocks[block];
    }
  }

  lemma BackIsGreatest(blocks: seq<seq<Entry>>, separators: seq<InternalKey>, limit: Limit, block: nat, pos: nat)
    requires Indexed(blocks, separators) && BackAt(blocks, limit, block, pos)
    requires block < |blocks| ==> pos < |blocks[block]|
    ensures GreatestIn(Union(blocks), limit, if block < |blocks| then Some(blocks[block][pos]) else None)
  {
    hide Precedes;
    forall e | e in Union(blocks) && In(limit, e.key)
      ensures block < |blocks| && (e == blocks[block][pos] || Precedes(e.key, blocks[block][pos].key))
    {
      var b, i := InUnion(blocks, e);
      assert b <= block;
      if b < block {
        Ordered(e.key, separators[b], blocks[block][pos].key);
      }
    }
    if block < |blocks| {
      assert blocks[block][pos] in blocks[block];
    }
  }

  class TwoLevelIterator {
    const blocks: seq<seq<Entry>>
    const separators: seq<InternalKey>
    var index: nat              // position of the index iterator; |blocks| when not valid
    var block: Option<nat>      // the block that the data iterator reads, None without one
    var pos: nat                // its position there; the block's length when not valid

    ghost predicate Inv()
      reads this
    {
      && Indexed(blocks, separators) && index <= |blocks|
      && (block.Some? ==> block.value == index < |blocks| && pos <= |blocks[index]|)
    }

    ghost function All(): set<Entry> {
      Union(blocks)
    }

    ghost function Cursor(): Option<Entry>
      requires Inv()
      reads this
    {
      if Valid() then Some(blocks[index][pos]) else None
    }

    predicate Valid()
      reads this
    {
      block.Some? && block.value < |blocks| && pos < |blocks[block.value]|
    }

    constructor (blocks: seq<seq<Entry>>, separators: seq<InternalKey>)
      requires Indexed(blocks, separators)
      ensures Inv() && Cursor() == None && this.blocks == blocks && this.separators == separators
    {
      this.blocks, this.separators := blocks, separators;
      index, block, pos := |blocks|, None, 0;
    }

    /** Opens the block the index points at, unless the data iterator already reads it. */
    method InitDataBlock()
      requires index <= |blocks| && (block.Some? ==> block.value < |blocks|)
      modifies this`block, this`pos
      ensures index == |blocks| ==> block == None
      ensures index < |blocks| ==> block == Some(index)
      ensures index < |blocks| ==> pos == if old(block) == Some(index) then old(pos) else |blocks[index]|
    {
      if index >= |blocks| {
        block := None;
      } else if block != Some(index) {
        block, pos := Some(index), |blocks[index]|;
      }
    }

    method SkipEmptyDataBlocksForward(ghost limit: Limit)
      requires Inv() && FrontAt(blocks, limit, index, pos) && (index < |blocks| ==> block.Some?)
      modifies this
      ensures Inv() && LeastIn(All(), limit, Cursor())
    {
      hide Indexed, FirstIn;
      while block == None || pos >= |blocks[block.value]|
        invariant Inv() && FrontAt(blocks, limit, index, pos) && (index < |blocks| ==> block.Some?)
        decreases |blocks| - index
      {
        if index >= |blocks| {
          block := None;
          FrontIsLeast(blocks, separators, limit, index, pos);
          return;
        }
        FrontMoves(blocks, limit, index, pos);
        index := index + 1;
        InitDataBlock();
        if block.Some? {
          pos := 0;
        }
      }
      FrontIsLeast(blocks, separators, limit, index, pos);
    }

    method SkipEmptyDataBlocksBackward(ghost limit: Limit)
      requires Inv() && BackAt(blocks, limit, index, pos) && (index < |blocks| ==> block.Some?)
      modifies this
      ensures Inv() && GreatestIn(All(), limit, Cursor())
    {
      hide Indexed, LastIn;
      while block == None || pos >= |blocks[block.value]|
        invariant Inv() && BackAt(blocks, limit, index, pos) && (index < |blocks| ==> block.Some?)
        decreases if index < |blocks| then index + 1 else 0
      {
        if index >= |blocks| {
          block := None;
          BackIsGreatest(blocks, separators, limit, index, pos);
          return;
        }
        BackMoves(blocks, limit, index, pos);
        index := if index == 0 then |blocks| else index - 1;
        InitDataBlock();
        if block.Some? {
          pos := LastOf(blocks[block.value]);
        }
      }
      BackIsGreatest(blocks, separators, limit, index, pos);
    }

    method Seek(target: InternalKey)
      requires Inv()
      modifies this
      ensures Inv() && LeastIn(All(), NotBefore(target), Cursor())
    {
      index := 0;
      while index < |blocks| && Precedes(separators[index], target)
        invariant index <= |blocks| && block == old(block) && pos == old(pos)
        invariant forall b | 0 <= b < index :: Precedes(separators[b], target)
      {
        index := index + 1;
      }
      InitDataBlock();
      if block.Some? {
        pos := SeekIn(blocks[block.value], target);
      }
      SeekFront(blocks, separators, target, index, pos);
      SkipEmptyDataBlocksForward(NotBefore(target));
    }

    method SeekToFirst()
      requires Inv()
      modifies this
      ensures Inv() && LeastIn(All(), Any, Cursor())
    {
      index := 0;
      InitDataBlock();
      if block.Some? {
        pos := 0;
      }
      SkipEmptyDataBlocksForward(Any);
    }

    method SeekToLast()
      requires Inv()
      modifies this
      ensures Inv() && GreatestIn(All(), Any, Cursor())
    {
      index := if blocks == [] then 0 else |blocks| - 1;
      InitDataBlock();
      if block.Some? {
        pos := LastOf(blocks[block.value]);
      }
      SkipEmptyDataBlocksBackward(Any);
    }

    method Next()
      requires Inv() && Valid()
      modifies this
      ensures Inv() && LeastIn(All(), Beyond(old(Cursor()).value.key), Cursor())
    {
      ghost var limit := Beyond(blocks[index][pos].key);
      NextFront(blocks, separators, index, pos);
      pos := pos + 1;
      SkipEmptyDataBlocksForward(limit);
    }

    method Prev()
      requires Inv() && Valid()
      modifies this
      ensures Inv() && GreatestIn(All(), Below(old(Cursor()).value.key), Cursor())
    {
      ghost var limit := Below(blocks[index][pos].key);
      PrevBack(blocks, separators, index, pos);
      pos := StepBack(blocks[index], pos);
      SkipEmptyDataBlocksBackward(limit);
    }

    method Step(op: Op) returns (now: Option<Entry>)
      requires Inv()
      modifies this
      ensures Inv() && now == Cursor() && Moves(All(), old(Cursor()), op, now)
    {
      hide LeastIn, GreatestIn, Indexed, Union;
      match op {
        case SeekToFirst => SeekToFirst();
        case SeekToLast => SeekToLast();
        case Seek(target) => Seek(target);
        case Next => if Valid() { Next(); }
        case Prev => if Valid() { Prev(); }
      }
      now := if Valid() then Some(blocks[block.value][pos]) else None;
    }

    /** Any run of client calls shows what the reference cursor on all entries shows. */
    method Run(ops: seq<Op>) returns (shown: seq<Option<Entry>>, ghost at: seq<Option<Entry>>)
      requires Inv() && Cursor() == None
      modifies this
      ensures Runs(All(), ops, at) && shown == at[1..]
    {
      hide Inv, Union, Moves;
      shown, at := [], [None];
      for i := 0 to |ops|
        invariant Inv() && |at| == i + 1 && Runs(All(), ops[..i], at) && at[i] == Cursor() && shown == at[1..]
      {
        var now := Step(ops[i]);
        RunsOn(All(), ops, i, at, now);
        at := at + [now];
        shown := shown + [now];
      }
      assert ops[..|ops|] == ops;
    }
  }

  lemma FrontMoves(blocks: seq<seq<Entry>>, limit: Limit, block: nat, pos: nat)
    requires FrontAt(blocks, limit, block, pos) && block < |blocks| && pos >= |blocks[block]|
    ensures FrontAt(blocks, limit, block + 1, 0)
  {
  }

  lemma BackMoves(blocks: seq<seq<Entry>>, limit: Limit, block: nat, pos: nat)
    requires BackAt(blocks, limit, block, pos) && block < |blocks| && pos >= |blocks[block]|
    ensures block > 0 ==> BackAt(blocks, limit, block - 1, LastOf(blocks[block - 1]))
    ensures block == 0 ==> forall p :: BackAt(blocks, limit, |blocks|, p)
  {
  }

  lemma SeekFront(blocks: seq<seq<Entry>>, separators: seq<InternalKey>, target: InternalKey, block: nat, pos: nat)
    requires Indexed(blocks, separators) && block <= |blocks|
    requires forall b | 0 <= b < block :: Precedes(separators[b], target)
    requires block < |blocks| ==> !Precedes(separators[block], target) && FirstIn(blocks[block], NotBefore(target), pos)
    ensures FrontAt(blocks, NotBefore(target), block, pos)
  {
    hide Precedes;
    forall b, i | 0 <= b < block && 0 <= i < |blocks[b]| ensures !In(NotBefore(target), blocks[b][i].key) {
      Ordered(blocks[b][i].key, separators[b], target);
    }
    forall b, i | block < b < |blocks| && 0 <= i < |blocks[b]| ensures In(NotBefore(target), blocks[b][i].key) {
      Ordered(separators[block], blocks[b][i].key, target);
    }
  }

  lemma NextFront(blocks: seq<seq<Entry>>, separators: seq<InternalKey>, block: nat, pos: nat)
    requires Indexed(blocks, separators) && block < |blocks| && pos < |blocks[block]|
    ensures FrontAt(blocks, Beyond(blocks[block][pos].key), block, pos + 1)
  {
    hide Precedes;
    var k := blocks[block][pos].key;
    Irreflexive(k);
    forall b, i | 0 <= b <= block && 0 <= i < |blocks[b]| && (b < block || i < pos) ensures !Precedes(k, blocks[b][i].key) {
      Ordered(blocks[b][i].key, separators[b], k);
      Asymmetric(blocks[b][i].key, k);
    }
    forall b, i | block < b < |blocks| && 0 <= i < |blocks[b]| ensures Precedes(k, blocks[b][i].key) {
      Ordered(k, separators[block], blocks[b][i].key);
    }
  }

  lemma PrevBack(blocks: seq<seq<Entry>>, separators: seq<InternalKey>, block: nat, pos: nat)
    requires Indexed(blocks, separators) && block < |blocks| && pos < |blocks[block]|
    ensures BackAt(blocks, Below(blocks[block][pos].key), block, StepBack(blocks[block], pos))
  {
    hide Precedes;
    var k := blocks[block][pos].key;
    Irreflexive(k);
    forall b, i | 0 <= b <= block && 0 <= i < |blocks[b]| && (b < block || i < pos) ensures Precedes(blocks[b][i].key, k) {
      Ordered(blocks[b][i].key, separators[b], k);
    }
    forall b, i | block <= b < |blocks| && 0 <= i < |blocks[b]| && (b > block || i > pos) ensures !Precedes(blocks[b][i].key, k) {
      Ordered(k, separators[block], blocks[b][i].key);
      Asymmetric(k, blocks[b][i].key);
    }
  }

  lemma Irreflexive(k: InternalKey)
    ensures !Precedes(k, k)
  {
  }

  lemma Asymmetric(a: InternalKey, b: InternalKey)
    ensures Precedes(a, b) ==> !Precedes(b, a)
  {
  }
}
