/** Building a table and looking a key up in it: index keys that separate blocks, and a filter that
    may only skip misses. */
module TableBuilder {
  import opened Bytes
  import opened BlockFormat
  import opened Bloom
  import opened FilterBlock
  import opened Comparator

  type BlockSize = seq<Pair> -> nat
  type Blocks = seq<seq<Pair>>

  predicate KeyOk(k: seq<byte>) {
    IsInternal(k) && Tag(k) <= MAX_TAG
  }

  /** Keys increase within and across blocks. */
  ghost predicate InOrder(blocks: Blocks) {
    && (forall b, i | 0 <= b < |blocks| && 0 <= i < |blocks[b]| :: KeyOk(blocks[b][i].key))
    && (forall b, i, j | 0 <= b < |blocks| && 0 <= i < j < |blocks[b]| :: InternalLess(blocks[b][i].key, blocks[b][j].key))
    && forall b, c, i, j | 0 <= b < c < |blocks| && 0 <= i < |blocks[b]| && 0 <= j < |blocks[c]| ::
         InternalLess(blocks[b][i].key, blocks[c][j].key)
  }

  /** The index key `k` of block `b`: not before the block, before all later blocks, and unless it
      is the block's last key, with a user key before all of theirs. */
  ghost predicate Separates(blocks: Blocks, b: nat, k: seq<byte>)
    requires b < |blocks|
  {
    && KeyOk(k) && blocks[b] != []
    && (forall i | 0 <= i < |blocks[b]| :: !InternalLess(k, blocks[b][i].key))
    && (forall c, j | b < c < |blocks| && 0 <= j < |blocks[c]| :: InternalLess(k, blocks[c][j].key))
    && (k == blocks[b][|blocks[b]| - 1].key
        || forall c, j | b < c < |blocks| && 0 <= j < |blocks[c]| :: LexLess(UserKey(k), UserKey(blocks[c][j].key)))
  }

  ghost predicate Indexed(blocks: Blocks, index: seq<seq<byte>>) {
    |index| <= |blocks| && forall b | 0 <= b < |index| :: Separates(blocks, b, index[b])
  }

  ghost function AllPairs(blocks: Blocks): set<Pair> {
    set b, e | 0 <= b < |blocks| && e in blocks[b] :: e
  }

  /** `e` is the first pair of the table at or after `k`. */
  ghost predicate IsLeastFrom(all: set<Pair>, k: seq<byte>, e: Pair) {
    e in all && !InternalLess(e.key, k) && forall o | o in all && !InternalLess(o.key, k) :: o == e || InternalLess(e.key, o.key)
  }

  /** The pair that answers a lookup of `k`: the first at or after it, if it has k's user key. */
  ghost predicate Answers(all: set<Pair>, k: seq<byte>, e: Pair) {
    IsLeastFrom(all, k, e) && IsInternal(e.key) && UserKey(e.key) == UserPart(k)
  }

  // ---- Growing the last block

  ghost function Grown(blocks: Blocks, e: Pair): Blocks
    requires blocks != []
  {
    blocks[|blocks| - 1 := blocks[|blocks| - 1] + [e]]
  }

  /** `last` is at or after every key so far. */
  ghost predicate Topped(blocks: Blocks, last: seq<byte>) {
    forall b, i | 0 <= b < |blocks| && 0 <= i < |blocks[b]| ::
      blocks[b][i].key == last || InternalLess(blocks[b][i].key, last)
  }

  lemma GrowInOrder(blocks: Blocks, last: seq<byte>, e: Pair)
    requires blocks != [] && InOrder(blocks) && Topped(blocks, last) && KeyOk(e.key)
    requires AllPairs(blocks) != {} ==> InternalLess(last, e.key)
    ensures InOrder(Grown(blocks, e)) && Topped(Grown(blocks, e), e.key)
    ensures AllPairs(Grown(blocks, e)) == AllPairs(blocks) + {e}
  {
    hide InternalLess;
    var grown, n := Grown(blocks, e), |blocks| - 1;
    forall b, i | 0 <= b < |blocks| && 0 <= i < |blocks[b]| ensures InternalLess(blocks[b][i].key, e.key) {
      assert blocks[b][i] in blocks[b] && blocks[b][i] in AllPairs(blocks);
      InternalTransitive(blocks[b][i].key, last, e.key);
    }
    assert forall b | 0 <= b < n :: grown[b] == blocks[b];
    assert grown[n] == blocks[n] + [e];
    GrownPairs(blocks, e);
  }

  lemma GrownPairs(blocks: Blocks, e: Pair)
    requires blocks != []
    ensures AllPairs(Grown(blocks, e)) == AllPairs(blocks) + {e}
  {
    var grown, n := Grown(blocks, e), |blocks| - 1;
    forall o | o in AllPairs(blocks) + {e} ensures o in AllPairs(grown) {
      if o in AllPairs(blocks) {
        var b :| 0 <= b < |blocks| && o in blocks[b];
        assert o in grown[b];
      } else {
        assert o in grown[n];
      }
    }
    forall o | o in AllPairs(grown) ensures o in AllPairs(blocks) + {e} {
      var b :| 0 <= b < |grown| && o in grown[b];
      assert b < n ==> o in blocks[b];
    }
  }

  lemma GrowSeparates(blocks: Blocks, b: nat, k: seq<byte>, e: Pair)
    requires b < |blocks| - 1 && Separates(blocks, b, k)
    requires InternalLess(k, e.key)
    requires k == blocks[b][|blocks[b]| - 1].key || LexLess(UserKey(k), UserKey(e.key))
    ensures Separates(Grown(blocks, e), b, k)
  {
    hide InternalLess, LexLess;
    var grown, n := Grown(blocks, e), |blocks| - 1;
    assert forall c | 0 <= c < n :: grown[c] == blocks[c];
    assert grown[n] == blocks[n] + [e];
  }

  /** Separators of earlier blocks stay, once the last block has an entry or its separator is fresh. */
  lemma GrowIndexed(blocks: Blocks, index: seq<seq<byte>>, e: Pair)
    requires blocks != [] && |index| == |blocks| - 1 && Indexed(blocks, index) && InOrder(blocks)
    requires forall b | 0 <= b < |index| :: Cleared(blocks, index, b, e.key)
    ensures Indexed(Grown(blocks, e), index)
  {
    hide InternalLess, LexLess, Separates;
    forall b | 0 <= b < |index| ensures Separates(Grown(blocks, e), b, index[b]) {
      assert Cleared(blocks, index, b, e.key);
      GrowSeparates(blocks, b, index[b], e);
    }
  }

  /** What lies behind an entry of a later block is beyond the separator of an earlier one. */
  lemma BeyondSeparator(blocks: Blocks, index: seq<seq<byte>>, b: nat, n: nat, key: seq<byte>)
    requires b < n < |blocks| && blocks[n] != [] && Indexed(blocks, index) && b < |index|
    requires IsInternal(key) && InternalLess(blocks[n][|blocks[n]| - 1].key, key)
    ensures Cleared(blocks, index, b, key)
  {
    hide LexLess;
    var last := blocks[n][|blocks[n]| - 1].key;
    assert Separates(blocks, b, index[b]);
    assert InternalLess(index[b], last);
    InternalTransitive(index[b], last, key);
    if index[b] != blocks[b][|blocks[b]| - 1].key {
      LexTransitive(UserKey(index[b]), UserKey(last), UserKey(key));
    }
  }

  /** The key is beyond the separator of block `b`, and so is its user key if the separator was shortened. */
  ghost predicate Cleared(blocks: Blocks, index: seq<seq<byte>>, b: nat, key: seq<byte>)
    requires b < |index| && b < |blocks|
  {
    && IsInternal(key) && blocks[b] != [] && IsInternal(index[b]) && InternalLess(index[b], key)
    && (index[b] == blocks[b][|blocks[b]| - 1].key || LexLess(UserKey(index[b]), UserKey(key)))
  }

  /** A key between the last block and what comes next is its separator. */
  lemma NewSeparator(blocks: Blocks, index: seq<seq<byte>>, m: nat, last: seq<byte>, r: seq<byte>)
    requires InOrder(blocks) && Indexed(blocks, index) && m == |index| < |blocks| && blocks[m] != []
    requires forall c | m < c < |blocks| :: blocks[c] == []
    requires last == blocks[m][|blocks[m]| - 1].key && KeyOk(r) && (r == last || InternalLess(last, r))
    ensures Indexed(blocks, index + [r])
  {
    hide LexLess;
    forall i | 0 <= i < |blocks[m]| ensures !InternalLess(r, blocks[m][i].key) {
      var k := blocks[m][i].key;
      InternalTransitive(k, last, r);
      InternalTransitive(r, k, r);
      InternalTransitive(k, k, k);
    }
    assert Separates(blocks, m, r);
    assert forall b | 0 <= b < m :: Separates(blocks, b, index[b]);
  }

  /** Closing the last block and opening an empty one. */
  lemma OpenEmpty(blocks: Blocks, index: seq<seq<byte>>, last: seq<byte>)
    requires InOrder(blocks) && Indexed(blocks, index) && Topped(blocks, last)
    ensures InOrder(blocks + [[]]) && Indexed(blocks + [[]], index) && Topped(blocks + [[]], last)
    ensures AllPairs(blocks + [[]]) == AllPairs(blocks)
  {
    hide InternalLess, LexLess;
    var more := blocks + [[]];
    assert forall b | 0 <= b < |blocks| :: more[b] == blocks[b];
    forall b | 0 <= b < |index| ensures Separates(more, b, index[b]) {
      assert Separates(blocks, b, index[b]);
    }
    forall e | e in AllPairs(blocks) ensures e in AllPairs(more) {
      var b :| 0 <= b < |blocks| && e in blocks[b];
      assert e in more[b];
    }
  }

  lemma CloseEmpty(blocks: Blocks, index: seq<seq<byte>>)
    requires InOrder(blocks + [[]]) && Indexed(blocks + [[]], index) && |index| == |blocks|
    ensures InOrder(blocks) && Indexed(blocks, index) && AllPairs(blocks) == AllPairs(blocks + [[]])
  {
    hide InternalLess, LexLess;
    var more := blocks + [[]];
    assert forall b | 0 <= b < |blocks| :: more[b] == blocks[b];
    forall b | 0 <= b < |index| ensures Separates(blocks, b, index[b]) {
      assert Separates(more, b, index[b]);
    }
    forall e | e in AllPairs(blocks) ensures e in AllPairs(more) {
      var b :| 0 <= b < |blocks| && e in blocks[b];
      assert e in more[b];
    }
  }

  // ---- The finished table

  /** A filter block; its filters, where each begins, and the hash they were made with. */
  datatype FilterData = FilterData(contents: seq<byte>, hash: KeyHash, result: seq<byte>, offsets: seq<nat>)

  /** Every key of every block passes the filter at the block's offset. */
  ghost predicate Covering(blocks: Blocks, handles: seq<nat>, f: FilterData) {
    && |handles| == |blocks| && Framed(f.result, f.offsets) && f.contents == FilterBytes(f.result, f.offsets)
    && forall b, i | 0 <= b < |blocks| && 0 <= i < |blocks[b]| ::
         AlwaysMatches(Added(handles[b], blocks[b][i].key), f.result, f.offsets, f.hash)
  }

  datatype Table = Table(blocks: Blocks, handles: seq<nat>, index: seq<seq<byte>>, filter: Option<FilterData>) {
    ghost predicate Sound() {
      && InOrder(blocks) && Indexed(blocks, index) && |index| == |blocks| == |handles|
      && (filter.Some? ==> Covering(blocks, handles, filter.value))
    }
  }

  // ---- The builder

  /** The filter has every key of every block, at the block's offset. */
  ghost predicate Filtered(blocks: Blocks, handles: seq<nat>, added: seq<Added>) {
    && |handles| == |blocks|
    && forall b, i | 0 <= b < |blocks| && 0 <= i < |blocks[b]| :: Added(handles[b], blocks[b][i].key) in added
  }

  /** One more index key. */
  predicate IsEntered(before: seq<seq<byte>>, after: seq<seq<byte>>) {
    |after| == |before| + 1 && after[..|before|] == before
  }

  class TableBuilder {
    const blockSize: nat
    const size: BlockSize        // size estimate of a block under construction
    const stored: BlockSize      // bytes that a block takes in the file
    const filter: FilterBlockBuilder?
    var blocks: Blocks                  // written so far
    var handles: seq<nat>               // their offsets in the file
    var index: seq<seq<byte>>           // their index keys, the last one perhaps still pending
    var dataBlock: seq<Pair>
    var lastKey: seq<byte>
    var pendingIndexEntry: bool
    var offset: nat
    var numEntries: nat

    /** The blocks and the one under construction. */
    ghost function Open(): Blocks
      reads this
    {
      blocks + [dataBlock]
    }

    ghost predicate Valid()
      reads this, filter
    {
      && InOrder(Open()) && Topped(Open(), lastKey) && Indexed(Open(), index) && |handles| == |blocks|
      && (numEntries == 0 <==> AllPairs(Open()) == {}) && (numEntries > 0 ==> KeyOk(lastKey))
      && (pendingIndexEntry ==>
            && numEntries > 0 && dataBlock == [] && |index| + 1 == |blocks| && blocks[|index|] != []
            && lastKey == blocks[|index|][|blocks[|index|]| - 1].key)
      && (!pendingIndexEntry ==> |index| == |blocks|)
      && (!pendingIndexEntry && dataBlock == [] ==> blocks == [])
      && (dataBlock != [] ==> numEntries > 0 && lastKey == dataBlock[|dataBlock| - 1].key)
      && (filter != null ==>
            filter.Valid() && filter.block == offset && Filtered(Open(), handles + [offset], filter.added))
    }

    constructor (blockSize: nat, size: BlockSize, stored: BlockSize, filter: FilterBlockBuilder?)
      requires filter != null ==> filter.Valid() && filter.added == [] && filter.block == 0
      ensures Valid() && AllPairs(Open()) == {} && this.filter == filter
    {
      this.blockSize, this.size, this.stored, this.filter := blockSize, size, stored, filter;
      blocks, handles, index, dataBlock, lastKey := [], [], [], [], [];
      pendingIndexEntry, offset, numEntries := false, 0, 0;
    }

    /** Keys must come in increasing order. */
    method Add(key: seq<byte>, value: seq<byte>)
      requires Valid() && KeyOk(key) && (numEntries > 0 ==> InternalLess(lastKey, key))
      modifies this, filter
      ensures Valid() && AllPairs(Open()) == old(AllPairs(Open())) + {Pair(key, value)}
      ensures lastKey == key && numEntries > 0
      ensures var block := old(dataBlock) + [Pair(key, value)];
        if size(block) >= blockSize then
          blocks == old(blocks) + [block] && dataBlock == [] && handles == old(handles) + [old(offset)]
          && offset == old(offset) + stored(block)
        else blocks == old(blocks) && dataBlock == block && handles == old(handles) && offset == old(offset)
      ensures if old(pendingIndexEntry) then IsEntered(old(index), index) && IsSeparator(old(lastKey), key, index[|index| - 1])
              else index == old(index)
    {
      hide InOrder, Separates, InternalLess, LexLess, Filtered, Topped, Cleared, AllPairs, IsSeparator;
      if pendingIndexEntry {
        WriteIndexEntry(key);
      } else {
        AllCleared(Open(), index, key, lastKey);
      }
      AddToBlock(key, value);
      if size(dataBlock) >= blockSize {
        Flush();
      }
    }

    /** The index entry of the block before, now that the next key is known. */
    method WriteIndexEntry(key: seq<byte>)
      requires Valid() && pendingIndexEntry && KeyOk(key) && KeyOk(lastKey) && InternalLess(lastKey, key)
      modifies this`index, this`pendingIndexEntry
      ensures IsEntered(old(index), index) && IsSeparator(lastKey, key, index[|index| - 1])
      ensures !pendingIndexEntry && |index| == |blocks| && Indexed(Open(), index)
      ensures forall b | 0 <= b < |index| :: Cleared(Open(), index, b, key)
    {
      hide InOrder, Separates, InternalLess, LexLess, Filtered, IsSeparator;
      ghost var before, m := index, |index|;
      var r := InternalSeparator(lastKey, key);
      NewSeparator(Open(), index, |index|, lastKey, r);
      forall b | 0 <= b < m ensures Cleared(Open(), before + [r], b, key) {
        BeyondSeparator(Open(), before, b, m, key);
        assert (before + [r])[b] == before[b];
      }
      index := index + [r];
      pendingIndexEntry := false;
    }

    method AddToBlock(key: seq<byte>, value: seq<byte>)
      requires InOrder(Open()) && Topped(Open(), lastKey) && Indexed(Open(), index) && |handles| == |blocks|
      requires KeyOk(key) && !pendingIndexEntry && |index| == |blocks|
      requires numEntries == 0 <==> AllPairs(Open()) == {}
      requires numEntries > 0 ==> InternalLess(lastKey, key)
      requires forall b | 0 <= b < |index| :: Cleared(Open(), index, b, key)
      requires filter != null ==>
        filter.Valid() && filter.block == offset && Filtered(Open(), handles + [offset], filter.added)
      modifies this, filter
      ensures Valid() && AllPairs(Open()) == old(AllPairs(Open())) + {Pair(key, value)}
      ensures lastKey == key && numEntries > 0 && !pendingIndexEntry && dataBlock == old(dataBlock) + [Pair(key, value)]
      ensures blocks == old(blocks) && handles == old(handles) && index == old(index) && offset == old(offset)
    {
      hide InOrder, Indexed, Separates, InternalLess, LexLess, Filtered, Topped, Cleared, AllPairs, AllMade, AllAccounted, Flat, Framed;
      ghost var e, open := Pair(key, value), Open();
      GrowInOrder(open, lastKey, e);
      GrowIndexed(open, index, e);
      if filter != null {
        GrowFiltered(open, handles + [offset], filter.added, e);
        filter.AddKey(key);
      }
      lastKey := key;
      numEntries := numEntries + 1;
      dataBlock := dataBlock + [Pair(key, value)];
      assert Open() == Grown(open, e);
    }

    /** Writes the block under construction, if it has entries. */
    method Flush()
      requires Valid()
      modifies this, filter
      ensures Valid() && AllPairs(Open()) == old(AllPairs(Open())) && dataBlock == []
      ensures lastKey == old(lastKey) && numEntries == old(numEntries) && index == old(index)
      ensures if old(dataBlock) == [] then
                blocks == old(blocks) && handles == old(handles) && offset == old(offset) && pendingIndexEntry == old(pendingIndexEntry)
              else
                blocks == old(blocks) + [old(dataBlock)] && handles == old(handles) + [old(offset)]
                && offset == old(offset) + stored(old(dataBlock)) && pendingIndexEntry
    {
      hide InOrder, Indexed, Separates, InternalLess, LexLess, Filtered, Topped, AllPairs;
      if dataBlock == [] {
        return;
      }
      ghost var open := Open();
      OpenEmpty(open, index, lastKey);
      handles := handles + [offset];
      offset := offset + stored(dataBlock);
      blocks := blocks + [dataBlock];
      dataBlock := [];
      pendingIndexEntry := true;
      assert Open() == open + [[]];
      if filter != null {
        EmptyFiltered(open, handles, offset, filter.added);
        filter.StartBlock(offset);
      }
    }

    /** The last block's index entry. */
    method FinishIndex()
      requires Valid() && dataBlock == []
      modifies this`index, this`pendingIndexEntry
      ensures !pendingIndexEntry && InOrder(blocks) && Indexed(blocks, index) && |index| == |blocks|
      ensures AllPairs(blocks) == AllPairs(Open())
      ensures if old(pendingIndexEntry) then IsEntered(old(index), index) && IsInternal(lastKey) && IsSuccessor(lastKey, index[|index| - 1])
              else index == old(index)
    {
      hide InOrder, Separates, InternalLess, LexLess, Topped, AllPairs, Filtered, IsSuccessor;
      if pendingIndexEntry {
        var r := InternalSuccessor(lastKey);
        NewSeparator(Open(), index, |index|, lastKey, r);
        index := index + [r];
        pendingIndexEntry := false;
      }
      CloseEmpty(blocks, index);
    }

    method FinishFilter() returns (filterBlock: Option<FilterData>)
      requires filter != null ==> filter.Valid() && Filtered(blocks + [[]], handles + [offset], filter.added)
      requires |handles| == |blocks|
      modifies filter
      ensures filterBlock.Some? <==> filter != null
      ensures filterBlock.Some? ==>
        Covering(blocks, handles, filterBlock.value) && filterBlock.value.hash == filter.policy.hash
    {
      hide Filtered, Covering, Framed, FilterBytes;
      filterBlock := None;
      if filter != null {
        var contents := filter.Finish();
        filterBlock := Some(FilterData(contents, filter.policy.hash, filter.result, filter.filterOffsets));
        FilterCovers(blocks, handles, offset, filter.added, filter.result, filter.filterOffsets, filter.policy.hash);
      }
    }

    /** The finished table. */
    method Finish() returns (t: Table)
      requires Valid()
      modifies this, filter
      ensures t.Sound() && AllPairs(t.blocks) == old(AllPairs(Open()))
      ensures t.filter.Some? <==> filter != null
      ensures t.filter.Some? ==> t.filter.value.hash == filter.policy.hash
      ensures t.blocks == old(blocks) + if old(dataBlock) == [] then [] else [old(dataBlock)]
      ensures t.handles == old(handles) + if old(dataBlock) == [] then [] else [old(offset)]
      ensures if old(pendingIndexEntry) || old(dataBlock) != [] then
                IsEntered(old(index), t.index) && IsInternal(old(lastKey)) && IsSuccessor(old(lastKey), t.index[|t.index| - 1])
              else t.index == old(index)
    {
      hide IsSuccessor;
      hide InOrder, Indexed, Separates, InternalLess, LexLess, Topped, AllPairs, Filtered, Covering;
      Flush();
      FinishIndex();
      var filterBlock := FinishFilter();
      t := Table(blocks, handles, index, filterBlock);
    }
  }

  lemma AllCleared(blocks: Blocks, index: seq<seq<byte>>, key: seq<byte>, last: seq<byte>)
    requires Indexed(blocks, index) && KeyOk(key) && |index| < |blocks|
    requires |index| > 0 ==> blocks[|blocks| - 1] != []
    requires blocks[|blocks| - 1] != [] ==>
      last == blocks[|blocks| - 1][|blocks[|blocks| - 1]| - 1].key && InternalLess(last, key)
    ensures forall b | 0 <= b < |index| :: Cleared(blocks, index, b, key)
  {
    hide InternalLess, LexLess, Separates;
    forall b | 0 <= b < |index| ensures Cleared(blocks, index, b, key) {
      BeyondSeparator(blocks, index, b, |blocks| - 1, key);
    }
  }

  lemma GrowFiltered(blocks: Blocks, handles: seq<nat>, added: seq<Added>, e: Pair)
    requires blocks != [] && Filtered(blocks, handles, added)
    ensures Filtered(Grown(blocks, e), handles, added + [Added(handles[|handles| - 1], e.key)])
  {
    var grown, n := Grown(blocks, e), |blocks| - 1;
    assert forall b | 0 <= b < n :: grown[b] == blocks[b];
    assert grown[n] == blocks[n] + [e];
  }

  lemma FilterCovers(blocks: Blocks, handles: seq<nat>, offset: nat, added: seq<Added>,
                     result: seq<byte>, offsets: seq<nat>, hash: KeyHash)
    requires |handles| == |blocks| && Filtered(blocks + [[]], handles + [offset], added) && Framed(result, offsets)
    requires forall a | a in added :: AlwaysMatches(a, result, offsets, hash)
    ensures Covering(blocks, handles, FilterData(FilterBytes(result, offsets), hash, result, offsets))
  {
    hide AlwaysMatches, Framed, FilterBytes;
    var more, all := blocks + [[]], handles + [offset];
    forall b, i | 0 <= b < |blocks| && 0 <= i < |blocks[b]|
      ensures AlwaysMatches(Added(handles[b], blocks[b][i].key), result, offsets, hash)
    {
      assert more[b] == blocks[b] && all[b] == handles[b];
    }
  }

  lemma EmptyFiltered(blocks: Blocks, handles: seq<nat>, offset: nat, added: seq<Added>)
    requires Filtered(blocks, handles, added)
    ensures Filtered(blocks + [[]], handles + [offset], added)
  {
  }

  // ---- Lookup

  ghost predicate IsFirstFrom(keys: seq<seq<byte>>, k: seq<byte>, i: nat) {
    && i <= |keys| && (forall j | 0 <= j < i :: InternalLess(keys[j], k))
    && (i < |keys| ==> !InternalLess(keys[i], k))
  }

  /** No block can hold the key: all end before it, or the filter of the one that could rejects it. */
  ghost predicate Rejected(t: Table, k: seq<byte>, i: nat)
    requires |t.handles| == |t.index|
  {
    i == |t.index|
    || (i < |t.index| && t.filter.Some?
        && var f, n := t.filter.value, t.handles[i] / FILTER_BASE;
           n < |f.offsets| && !MayMatch(FilterAt(f.result, f.offsets, n), f.hash(UserPart(k))))
  }

  /** First of the keys that is not before `k`; what a block iterator's Seek finds. */
  method SeekKey(keys: seq<seq<byte>>, k: seq<byte>) returns (i: nat)
    ensures IsFirstFrom(keys, k, i)
  {
    i := 0;
    while i < |keys| && InternalLess(keys[i], k)
      invariant i <= |keys| && forall j | 0 <= j < i :: InternalLess(keys[j], k)
    {
      i := i + 1;
    }
  }

  function Keys(es: seq<Pair>): (ks: seq<seq<byte>>)
    ensures |ks| == |es| && forall i | 0 <= i < |es| :: ks[i] == es[i].key
  {
    seq(|es|, i requires 0 <= i < |es| => es[i].key)
  }

  /** The first index key at or after `k` names the only block that can answer. */
  lemma OnlyBlock(blocks: Blocks, index: seq<seq<byte>>, k: seq<byte>, i: nat, b: nat, x: nat)
    requires InOrder(blocks) && Indexed(blocks, index) && |index| == |blocks| && KeyOk(k)
    requires i <= |index| && (forall j | 0 <= j < i :: InternalLess(index[j], k))
    requires i < |index| ==> !InternalLess(index[i], k)
    requires b < |blocks| && x < |blocks[b]| && !InternalLess(blocks[b][x].key, k)
    ensures b >= i
    ensures Answers(AllPairs(blocks), k, blocks[b][x]) ==> b == i
  {
    hide LexLess;
    var e := blocks[b][x];
    if b < i {
      assert Separates(blocks, b, index[b]);
      InternalTransitive(e.key, index[b], k);
      InternalTotal(e.key, index[b]);
      assert false;
    }
    if b > i && Answers(AllPairs(blocks), k, e) {
      assert Separates(blocks, i, index[i]);
      var last := blocks[i][|blocks[i]| - 1];
      assert last in blocks[i] && last in AllPairs(blocks);
      assert InternalLess(last.key, e.key);
      InternalTransitive(last.key, e.key, last.key);
    }
  }

  /** Within the block, the first entry at or after `k` is the answer, if there is one. */
  lemma BlockAnswers(blocks: Blocks, index: seq<seq<byte>>, k: seq<byte>, i: nat, j: nat)
    requires InOrder(blocks) && Indexed(blocks, index) && |index| == |blocks| && KeyOk(k)
    requires i < |index| && (forall l | 0 <= l < i :: InternalLess(index[l], k)) && !InternalLess(index[i], k)
    requires j < |blocks[i]| && (forall l | 0 <= l < j :: InternalLess(blocks[i][l].key, k))
    requires !InternalLess(blocks[i][j].key, k)
    ensures IsLeastFrom(AllPairs(blocks), k, blocks[i][j])
  {
    hide InternalLess, Separates;
    var e := blocks[i][j];
    assert e in blocks[i];
    forall o | o in AllPairs(blocks) && !InternalLess(o.key, k) ensures o == e || InternalLess(e.key, o.key) {
      var b :| 0 <= b < |blocks| && o in blocks[b];
      var x :| 0 <= x < |blocks[b]| && blocks[b][x] == o;
      OnlyBlock(blocks, index, k, i, b, x);
    }
  }

  lemma OneLeast(all: set<Pair>, k: seq<byte>, a: Pair, b: Pair)
    requires IsLeastFrom(all, k, a) && IsLeastFrom(all, k, b)
    ensures a == b
  {
    InternalTransitive(a.key, b.key, a.key);
  }

  /** The answer passes the filter, since its user key is the one looked up. */
  lemma AnswerPasses(t: Table, k: seq<byte>, i: nat, e: Pair)
    requires t.Sound() && t.filter.Some? && i < |t.blocks| && e in t.blocks[i] && KeyOk(k)
    requires Answers(AllPairs(t.blocks), k, e)
    ensures var f, n := t.filter.value, t.handles[i] / FILTER_BASE;
      n < |f.offsets| && MayMatch(FilterAt(f.result, f.offsets, n), f.hash(UserPart(k)))
  {
    hide MayMatch, FilterAt, IsLeastFrom;
    var x :| 0 <= x < |t.blocks[i]| && t.blocks[i][x] == e;
    assert AlwaysMatches(Added(t.handles[i], t.blocks[i][x].key), t.filter.value.result, t.filter.value.offsets, t.filter.value.hash);
  }

  lemma AnswerIn(t: Table, k: seq<byte>, i: nat, e: Pair)
    requires t.Sound() && KeyOk(k) && i <= |t.index| && (forall j | 0 <= j < i :: InternalLess(t.index[j], k))
    requires i < |t.index| ==> !InternalLess(t.index[i], k)
    requires Answers(AllPairs(t.blocks), k, e)
    ensures i < |t.blocks| && e in t.blocks[i]
  {
    hide InternalLess, Separates;
    var b :| 0 <= b < |t.blocks| && e in t.blocks[b];
    var x :| 0 <= x < |t.blocks[b]| && t.blocks[b][x] == e;
    OnlyBlock(t.blocks, t.index, k, i, b, x);
  }

  /** A lookup finds the answer whenever there is one, with or without a filter; whatever else it
      hands over has another user key. */
  method InternalGet(t: Table, policy: BloomFilterPolicy, k: seq<byte>) returns (r: Option<Pair>)
    requires t.Sound() && KeyOk(k)
    requires t.filter.Some? ==> t.filter.value.hash == policy.hash && |t.filter.value.result| < 0x1_0000_0000
    ensures forall e | Answers(AllPairs(t.blocks), k, e) :: r == Some(e)
    ensures r.Some? && UserPart(r.value.key) == UserKey(k) ==> Answers(AllPairs(t.blocks), k, r.value)
    ensures forall i: nat | IsFirstFrom(t.index, k, i) && Rejected(t, k, i) :: r == None
  {
    hide InternalLess, Separates, MayMatch, IsLeastFrom, FilterBytes, FilterAt;
    ghost var all := AllPairs(t.blocks);
    var i := SeekKey(t.index, k);
    forall l: nat | IsFirstFrom(t.index, k, l) ensures l == i {
    }
    forall e | Answers(all, k, e) ensures i < |t.blocks| && e in t.blocks[i] {
      AnswerIn(t, k, i, e);
    }
    if i >= |t.index| {
      return None;
    }
    if t.filter.Some? {
      var f := t.filter.value;
      forall e | Answers(all, k, e)
        ensures t.handles[i] / FILTER_BASE < |f.offsets|
          && MayMatch(FilterAt(f.result, f.offsets, t.handles[i] / FILTER_BASE), f.hash(UserPart(k)))
      {
        AnswerPasses(t, k, i, e);
      }
      var reader := new FilterBlockReader(policy, f.contents, f.result, f.offsets);
      var may := reader.KeyMayMatch(t.handles[i], k);
      if !may {
        return None;
      }
    }
    var j := SeekKey(Keys(t.blocks[i]), k);
    BlockSeek(t, k, i, j);
    r := if j < |t.blocks[i]| then Some(t.blocks[i][j]) else None;
  }

  lemma BlockSeek(t: Table, k: seq<byte>, i: nat, j: nat)
    requires t.Sound() && KeyOk(k) && i < |t.index| && (forall l | 0 <= l < i :: InternalLess(t.index[l], k))
    requires !InternalLess(t.index[i], k) && j <= |t.blocks[i]|
    requires forall l | 0 <= l < j :: InternalLess(Keys(t.blocks[i])[l], k)
    requires j < |t.blocks[i]| ==> !InternalLess(Keys(t.blocks[i])[j], k)
    ensures j < |t.blocks[i]| ==> IsLeastFrom(AllPairs(t.blocks), k, t.blocks[i][j]) && KeyOk(t.blocks[i][j].key)
    ensures forall e | Answers(AllPairs(t.blocks), k, e) :: j < |t.blocks[i]| && t.blocks[i][j] == e
  {
    hide InternalLess, Separates;
    var all := AllPairs(t.blocks);
    assert forall l | 0 <= l < |t.blocks[i]| :: Keys(t.blocks[i])[l] == t.blocks[i][l].key;
    if j < |t.blocks[i]| {
      BlockAnswers(t.blocks, t.index, k, i, j);
    }
    forall e | Answers(all, k, e) ensures j < |t.blocks[i]| && t.blocks[i][j] == e {
      AnswerIn(t, k, i, e);
      var x :| 0 <= x < |t.blocks[i]| && t.blocks[i][x] == e;
      if j < |t.blocks[i]| {
        OneLeast(all, k, e, t.blocks[i][j]);
      }
    }
  }

  // ---- Building a table and reading it

  function Sequence(k: seq<byte>): nat
    requires IsInternal(k)
  {
    Tag(k) / 256
  }

  /** The pair is one of `user` that a reader at `snapshot` may see. */
  predicate SeenBy(e: Pair, user: seq<byte>, snapshot: nat) {
    IsInternal(e.key) && UserKey(e.key) == user && Sequence(e.key) <= snapshot
  }

  ghost predicate NewestSeen(all: set<Pair>, user: seq<byte>, snapshot: nat, e: Pair) {
    e in all && SeenBy(e, user, snapshot) && forall o | o in all && SeenBy(o, user, snapshot) :: Tag(o.key) <= Tag(e.key)
  }

  /** A memtable's or a compaction's output: keys of the two kinds in increasing order. */
  ghost predicate Addable(es: seq<Pair>) {
    && (forall i | 0 <= i < |es| :: KeyOk(es[i].key) && Tag(es[i].key) % 256 <= 1)
    && forall i, j | 0 <= i < j < |es| :: InternalLess(es[i].key, es[j].key)
  }

  ghost function Pairs(es: seq<Pair>): set<Pair> {
    set e | e in es
  }

  /** The key that is looked up for a reader: of its sequence number and the last kind to sort. */
  function LookupKey(user: seq<byte>, snapshot: nat): (k: seq<byte>)
    requires snapshot <= MAX_TAG / 256
    ensures KeyOk(k) && UserKey(k) == user && Tag(k) == snapshot * 256 + 1
  {
    InternalParts(user, snapshot * 256 + 1);
    Internal(user, snapshot * 256 + 1)
  }

  lemma SeenMeans(e: Pair, user: seq<byte>, snapshot: nat, k: seq<byte>)
    requires IsInternal(k) && UserKey(k) == user && Tag(k) == snapshot * 256 + 1
    requires IsInternal(e.key) && Tag(e.key) % 256 <= 1
    ensures SeenBy(e, user, snapshot) <==> UserKey(e.key) == user && Tag(e.key) <= Tag(k)
    ensures SeenBy(e, user, snapshot) <==> UserKey(e.key) == user && !InternalLess(e.key, k)
  {
    hide LexLess, LittleEndian;
    LexIrreflexive(user);
  }

  /** The first pair at or after the lookup key, if of its user key, is the newest that the reader may see. */
  lemma AnswerIsNewest(es: seq<Pair>, user: seq<byte>, snapshot: nat, k: seq<byte>, e: Pair)
    requires Addable(es) && KeyOk(k) && UserKey(k) == user && Tag(k) == snapshot * 256 + 1
    ensures Answers(Pairs(es), k, e) <==> NewestSeen(Pairs(es), user, snapshot, e)
  {
    hide LexLess, Tag, UserKey;
    var all := Pairs(es);
    if Answers(all, k, e) {
      AnswerSeen(es, user, snapshot, k, e);
    }
    if NewestSeen(all, user, snapshot, e) {
      SeenMeans(e, user, snapshot, k);
      forall o | o in all && !InternalLess(o.key, k) ensures o == e || InternalLess(e.key, o.key) {
        SeenMeans(o, user, snapshot, k);
        InternalTotal(o.key, k);
        InOneOrder(es, o, e);
        LexIrreflexive(user);
      }
    }
  }

  lemma AnswerSeen(es: seq<Pair>, user: seq<byte>, snapshot: nat, k: seq<byte>, e: Pair)
    requires Addable(es) && KeyOk(k) && UserKey(k) == user && Tag(k) == snapshot * 256 + 1
    requires Answers(Pairs(es), k, e)
    ensures NewestSeen(Pairs(es), user, snapshot, e)
  {
    hide LexLess, Tag, UserKey;
    SeenMeans(e, user, snapshot, k);
    forall o | o in Pairs(es) && SeenBy(o, user, snapshot) ensures Tag(o.key) <= Tag(e.key) {
      SeenMeans(o, user, snapshot, k);
      LexIrreflexive(user);
    }
  }

  lemma InOneOrder(es: seq<Pair>, a: Pair, b: Pair)
    requires Addable(es) && a in es && b in es
    ensures a == b || InternalLess(a.key, b.key) || InternalLess(b.key, a.key)
  {
    var i :| 0 <= i < |es| && es[i] == a;
    var j :| 0 <= j < |es| && es[j] == b;
  }

  lemma NewestThere(all: set<Pair>, user: seq<byte>, snapshot: nat, e: Pair) returns (n: Pair)
    requires e in all && SeenBy(e, user, snapshot)
    ensures NewestSeen(all, user, snapshot, n)
    decreases snapshot * 256 + 255 - Tag(e.key)
  {
    hide LittleEndian;
    if o :| o in all && SeenBy(o, user, snapshot) && Tag(o.key) > Tag(e.key) {
      n := NewestThere(all, user, snapshot, o);
    } else {
      n := e;
    }
  }

  /** A table of the pairs, with a filter if there is a policy. */
  method Build(es: seq<Pair>, policy: BloomFilterPolicy?, blockSize: nat, size: BlockSize, stored: BlockSize)
    returns (t: Table)
    requires Addable(es) && (policy != null ==> policy.Valid())
    ensures t.Sound() && AllPairs(t.blocks) == Pairs(es)
    ensures t.filter.Some? <==> policy != null
    ensures t.filter.Some? ==> t.filter.value.hash == policy.hash
  {
    hide InOrder, Indexed, Separates, InternalLess, LexLess, Topped, AllPairs, Filtered, Covering, KeyOk, Addable,
      Pairs, IsSeparator, IsSuccessor, IsEntered;
    var builder := NewBuilder(policy, blockSize, size, stored);
    NoPairs(es);
    for i := 0 to |es|
      invariant fresh(builder) && (builder.filter != null ==> fresh(builder.filter)) && builder.Valid()
      invariant AllPairs(builder.Open()) == Pairs(es[..i])
      invariant builder.numEntries > 0 ==> i > 0 && builder.lastKey == es[i - 1].key
    {
      PairsMore(es, i);
      builder.Add(es[i].key, es[i].value);
    }
    assert es[..|es|] == es;
    t := builder.Finish();
  }

  method NewBuilder(policy: BloomFilterPolicy?, blockSize: nat, size: BlockSize, stored: BlockSize)
    returns (builder: TableBuilder)
    requires policy != null ==> policy.Valid()
    ensures fresh(builder) && (builder.filter != null ==> fresh(builder.filter) && builder.filter.policy == policy)
    ensures builder.Valid() && builder.numEntries == 0 && AllPairs(builder.Open()) == {}
    ensures builder.filter == null <==> policy == null
  {
    hide InOrder, Indexed, Topped, Filtered, AllPairs;
    var filter: FilterBlockBuilder? := null;
    if policy != null {
      filter := new FilterBlockBuilder(policy);
    }
    builder := new TableBuilder(blockSize, size, stored, filter);
  }

  lemma NoPairs(es: seq<Pair>)
    ensures Pairs(es[..0]) == {}
  {
  }

  lemma PairsMore(es: seq<Pair>, i: nat)
    requires Addable(es) && i < |es|
    ensures Pairs(es[..i + 1]) == Pairs(es[..i]) + {Pair(es[i].key, es[i].value)}
    ensures KeyOk(es[i].key) && (i > 0 ==> InternalLess(es[i - 1].key, es[i].key))
  {
    hide KeyOk, InternalLess;
    assert es[..i + 1] == es[..i] + [es[i]];
  }

  /** A lookup in a table just built hands over a pair of the user key exactly if the reader may see
      one, and then the newest of them.  Filters have to stay below four gigabytes. */
  method BuildAndGet(es: seq<Pair>, policy: BloomFilterPolicy, filtered: bool, blockSize: nat, size: BlockSize,
                     stored: BlockSize, user: seq<byte>, snapshot: nat)
    returns (t: Table, r: Option<Pair>)
    requires Addable(es) && policy.Valid() && snapshot <= MAX_TAG / 256
    ensures t.Sound() && (t.filter.Some? <==> filtered)
    ensures (filtered ==> |t.filter.value.result| < 0x1_0000_0000) ==>
      ((exists e :: e in es && SeenBy(e, user, snapshot)) <==> r.Some? && UserPart(r.value.key) == user)
    ensures (filtered ==> |t.filter.value.result| < 0x1_0000_0000) && r.Some? && UserPart(r.value.key) == user ==>
      NewestSeen(Pairs(es), user, snapshot, r.value)
  {
    hide KeyOk, InternalLess, Answers, SeenBy, Addable, UserKey, Tag, InOrder, Indexed;
    t := Build(es, if filtered then policy else null, blockSize, size, stored);
    r := None;
    if !filtered || |t.filter.value.result| < 0x1_0000_0000 {
      ghost var k := LookupKey(user, snapshot);
      r := InternalGet(t, policy, LookupKey(user, snapshot));
      if r.Some? {
        AnswerIsNewest(es, user, snapshot, k, r.value);
      }
      if e :| e in es && SeenBy(e, user, snapshot) {
        ghost var n := NewestThere(Pairs(es), user, snapshot, e);
        AnswerIsNewest(es, user, snapshot, k, n);
        NewestHasUser(Pairs(es), user, snapshot, n);
      }
    }
  }

  lemma NewestHasUser(all: set<Pair>, user: seq<byte>, snapshot: nat, e: Pair)
    requires NewestSeen(all, user, snapshot, e)
    ensures e in all && SeenBy(e, user, snapshot) && UserPart(e.key) == user
  {
  }
}
