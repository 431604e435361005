/** Reading a block: decoding entries, and a search on the restart points followed by a scan. */
module BlockIterator {
  import opened Bytes
  import opened Coding
  import opened BlockFormat
  import opened BlockBuilder

  type Less = (seq<byte>, seq<byte>) -> bool

  ghost predicate Transitive(less: Less) {
    forall a, b, c :: less(a, b) && less(b, c) ==> less(a, c)
  }

  /** Strictly increasing keys. */
  ghost predicate Increasing(less: Less, es: seq<Pair>) {
    forall i, j | 0 <= i < j < |es| :: less(es[i].key, es[j].key)
  }

  /** The first of the entries that is not before the target. */
  ghost predicate IsFirstFrom(less: Less, es: seq<Pair>, target: seq<byte>, i: nat) {
    && i <= |es| && (forall j | 0 <= j < i :: less(es[j].key, target))
    && (i < |es| ==> !less(es[i].key, target))
  }

  /** The lengths of the entry at `p`, and where its key bytes begin. */
  method DecodeEntry(data: seq<byte>, p: nat, limit: nat) returns (r: Option<(uint32, uint32, uint32, nat)>)
    requires p <= limit <= |data|
    ensures r.Some? == ReadHeader(data[p..limit]).Some?
    ensures r.Some? ==> p < r.value.3 <= limit
    ensures r.Some? ==>
      ReadHeader(data[p..limit]) == Some(((r.value.0, r.value.1, r.value.2), data[r.value.3..limit]))
  {
    hide ReadLength;
    if limit - p < 3 {
      return None;
    }
    var shared, nonShared, valueLength, q := data[p], data[p + 1], data[p + 2], p + 3;
    if shared < 0x80 && nonShared < 0x80 && valueLength < 0x80 {
      ShortHeader(data[p..limit]);
      assert data[p..limit][3..] == data[p + 3..limit];
      if limit - q < nonShared as int + valueLength as int {
        return None;
      }
      return Some((shared, nonShared, valueLength, q));
    }
    var a := GetVarint32Ptr(data, p, limit);
    if a.None? {
      return None;
    }
    var b := GetVarint32Ptr(data, a.value.1, limit);
    if b.None? {
      return None;
    }
    var c := GetVarint32Ptr(data, b.value.1, limit);
    if c.None? {
      return None;
    }
    if limit - c.value.1 < (b.value.0 as int + c.value.0 as int) % 0x1_0000_0000 {
      return None;
    }
    r := Some((a.value.0, b.value.0, c.value.0, c.value.1));
  }

  class Iterator {
    const data: seq<byte>
    const less: Less
    const restarts: nat           // offset of the restart array
    const numRestarts: nat
    var current: nat              // offset of the current entry; `restarts` when not valid
    var restartIndex: nat
    var key: seq<byte>
    var valueAt: nat
    var valueEnd: nat
    ghost const entries: seq<Pair>
    ghost const shared: seq<nat>
    ghost const points: seq<nat>

    ghost predicate Opened() {
      && Fits(entries, shared) && restarts + 4 * numRestarts <= |data| && numRestarts == |points|
      && Laid(data, restarts, entries, shared, points)
    }

    /** Offset of entry `i`. */
    ghost function Place(i: nat): nat
      requires Opened() && i <= |entries|
    {
      Offset(entries, shared, i)
    }

    /** The iterator stands at entry `i`, or at none when `i` is |entries|. */
    ghost predicate Stands(i: nat)
      requires Opened()
      reads this
    {
      && i <= |entries| && current == Place(i)
      && (i < |entries| ==>
            && key == entries[i].key && valueAt <= valueEnd == Place(i + 1) <= |data|
            && data[valueAt..valueEnd] == entries[i].value
            && restartIndex < numRestarts && points[restartIndex] <= i)
    }

    /** Ready to parse entry `i`. */
    ghost predicate Ready(i: nat)
      requires Opened()
      reads this
    {
      && i <= |entries| && valueEnd == Place(i) && restartIndex < numRestarts && points[restartIndex] <= i
      && (i < |entries| ==> shared[i] <= |key| && key[..shared[i]] == entries[i].key[..shared[i]])
    }

    constructor (contents: seq<byte>, less: Less, ghost es: seq<Pair>, ghost sh: seq<nat>, ghost rs: seq<nat>)
      requires IsBlock(contents, es, sh, rs)
      ensures Opened() && Stands(|es|) && entries == es && this.less == less
    {
      BlockIsLaid(contents, es, sh, rs);
      OffsetEnd(es, sh);
      var n := LittleEndian(contents[|contents| - 4..]);
      data, this.less, numRestarts, restarts := contents, less, n, |contents| - 4 * (1 + n);
      current, restartIndex := |contents| - 4 * (1 + n), n;
      key, valueAt, valueEnd := [], 0, 0;
      entries, shared, points := es, sh, rs;
    }

    predicate Valid()
      reads this
    {
      current < restarts
    }

    lemma EndIsLimit()
      requires Opened()
      ensures Place(|entries|) == restarts && Place(0) == 0
    {
      OffsetEnd(entries, shared);
    }

    lemma Decodes(i: nat)
      requires Opened() && i < |entries|
      ensures shared[i] <= |entries[i].key| && Place(i) < Place(i + 1) <= restarts
      ensures ReadHeader(data[Place(i)..restarts])
           == Some(((shared[i], |entries[i].key| - shared[i], |entries[i].value|),
                    entries[i].key[shared[i]..] + entries[i].value + data[Place(i + 1)..restarts]))
    {
      EntryDecodes(data, restarts, entries, shared, points, i);
    }

    lemma ValidMeans(i: nat)
      requires Opened() && Stands(i)
      ensures Valid() <==> i < |entries|
      ensures i < |entries| ==> shared[i] <= |entries[i].key|
    {
      EndIsLimit();
      BeforeByOffset(i, |entries|);
    }

    method GetRestartPoint(index: nat) returns (offset: nat)
      requires Opened() && index < numRestarts
      ensures points[index] <= |entries| && offset == Place(points[index])
    {
      RestartThere(data, restarts, entries, shared, points, index);
      offset := LittleEndian(data[restarts + 4 * index..restarts + 4 * index + 4]);
    }

    method SeekToRestartPoint(index: nat)
      requires Opened() && index < numRestarts
      modifies this
      ensures points[index] <= |entries| && Ready(points[index])
    {
      key, restartIndex := [], index;
      var offset := GetRestartPoint(index);
      valueAt, valueEnd := offset, offset;
    }

    /** Decodes the next entry.  A block that a builder made never takes the corruption branch. */
    method ParseNextKey(ghost i: nat) returns (more: bool)
      requires Opened() && Ready(i)
      modifies this
      ensures Stands(i) && more == (i < |entries|)
    {
      EndIsLimit();
      BeforeByOffset(i, |entries|);
      hide Laid, ReadHeader, Offset, Fits, Place;
      current := valueEnd;
      if current >= restarts {
        current, restartIndex := restarts, numRestarts;
        return false;
      }
      ParseEntry(i);
      Advance(i);
      more := true;
    }

    method ParseEntry(ghost i: nat)
      requires Opened() && i < |entries| && current == Place(i)
      requires shared[i] <= |key| && key[..shared[i]] == entries[i].key[..shared[i]]
      modifies this`key, this`valueAt, this`valueEnd
      ensures key == entries[i].key && valueAt <= valueEnd == Place(i + 1) <= |data|
      ensures data[valueAt..valueEnd] == entries[i].value
    {
      Decodes(i);
      hide Laid, ReadHeader, Offset, Fits, Place;
      var header := DecodeEntry(data, current, restarts);
      assert header.Some? && header.value.0 <= |key|;
      var (share, nonShared, valueLength, p) := header.value;
      ghost var e := entries[i];
      PartsAt(data, p, restarts, e.key[shared[i]..], e.value, Place(i + 1));
      key := key[..share] + data[p..p + nonShared];
      assert key == e.key[..share] + e.key[share..];
      valueAt, valueEnd := p + nonShared as int, p + nonShared as int + valueLength as int;
    }

    /** Moves the restart index up to the current entry. */
    method Advance(ghost i: nat)
      requires Opened() && i < |entries| && current == Place(i) && restartIndex < numRestarts && points[restartIndex] <= i
      modifies this`restartIndex
      ensures restartIndex < numRestarts && points[restartIndex] <= i
    {
      while restartIndex + 1 < numRestarts
        invariant restartIndex < numRestarts && points[restartIndex] <= i
        decreases numRestarts - restartIndex
      {
        var next := GetRestartPoint(restartIndex + 1);
        if next >= current {
          break;
        }
        BeforeByOffset(points[restartIndex + 1], i);
        restartIndex := restartIndex + 1;
      }
    }

    /** Offsets order entries. */
    lemma BeforeByOffset(i: nat, j: nat)
      requires Opened() && i <= |entries| && j <= |entries|
      ensures Place(i) < Place(j) <==> i < j
    {
      if i < j {
        OffsetsGrow(entries, shared, i, j);
      } else {
        OffsetsGrow(entries, shared, j, i);
      }
    }

    lemma ReadyNext(i: nat)
      requires Opened() && Stands(i) && i < |entries|
      ensures Ready(i + 1) && valueEnd == Place(i + 1)
    {
    }

    method Next(ghost i: nat)
      requires Opened() && Stands(i) && i < |entries|
      modifies this
      ensures Stands(i + 1)
    {
      ReadyNext(i);
      var more := ParseNextKey(i + 1);
    }

    method Prev(ghost i: nat)
      requires Opened() && Stands(i) && i < |entries|
      modifies this
      ensures Stands(if i == 0 then |entries| else i - 1)
    {
      EndIsLimit();
      hide Laid, Offset, Fits, Place;
      var original := current;
      while true
        invariant original == Place(i) && restartIndex < numRestarts && points[restartIndex] <= i && Stands(i)
        decreases restartIndex
      {
        var point := GetRestartPoint(restartIndex);
        BeforeByOffset(points[restartIndex], i);
        if point < original {
          break;
        }
        if restartIndex == 0 {
          FirstPoint();
          current, restartIndex := restarts, numRestarts;
          return;
        }
        PointsGrow(restartIndex - 1, restartIndex);
        restartIndex := restartIndex - 1;
      }
      ParseUpTo(original, i);
    }

    /** From the restart point before entry `i`, parses up to the entry just before it. */
    method ParseUpTo(original: nat, ghost i: nat)
      requires Opened() && i <= |entries| && original == Place(i) && restartIndex < numRestarts
      requires points[restartIndex] < i || (i == |entries| == 0 && points[restartIndex] == 0)
      modifies this
      ensures Stands(if i == 0 then 0 else i - 1)
    {
      hide Laid, Offset, Fits, Place, Stands, Ready;
      ghost var n := points[restartIndex];
      SeekToRestartPoint(restartIndex);
      var more := ParseNextKey(n);
      if more {
        BeforeByOffset(n + 1, i);
        ReadyNext(n);
      }
      while more && valueEnd < original
        invariant Stands(n) && n <= |entries| && (i > 0 ==> n < i && more) && (i == 0 ==> n == 0 && !more)
        invariant more ==> valueEnd == Place(n + 1) && Ready(n + 1) && (valueEnd < original <==> n + 1 < i)
        decreases i - n
      {
        n := n + 1;
        more := ParseNextKey(n);
        BeforeByOffset(n + 1, i);
        ReadyNext(n);
      }
    }

    lemma FirstPoint()
      requires Opened()
      ensures points[0] == 0
    {
    }

    lemma PointsGrow(a: nat, b: nat)
      requires Opened() && a < b < numRestarts
      ensures points[a] < points[b] < |entries|
    {
    }

    method SeekToFirst()
      requires Opened()
      modifies this
      ensures Stands(0)
    {
      SeekToRestartPoint(0);
      FirstPoint();
      var more := ParseNextKey(0);
    }

    method SeekToLast()
      requires Opened()
      modifies this
      ensures Stands(if entries == [] then 0 else |entries| - 1)
    {
      EndIsLimit();
      HasPoint();
      restartIndex := numRestarts - 1;
      ParseUpTo(restarts, |entries|);
    }

    lemma HasPoint()
      requires Opened()
      ensures numRestarts > 0 && (points[numRestarts - 1] < |entries| || (entries == [] && points[numRestarts - 1] == 0))
    {
    }

    /** Key of the entry at a restart point, which shares nothing. */
    method RestartKey(index: nat) returns (k: seq<byte>)
      requires Opened() && 0 < index < numRestarts
      ensures points[index] < |entries| && k == entries[points[index]].key
    {
      hide Laid, ReadHeader, Offset, Fits, Place;
      PointsGrow(0, index);
      SharesNothing(index);
      Decodes(points[index]);
      var offset := GetRestartPoint(index);
      var header := DecodeEntry(data, offset, restarts);
      assert header.Some? && header.value.0 == 0;
      ghost var k0 := entries[points[index]];
      assert k0.key[0..] == k0.key;
      var p, nonShared := header.value.3, header.value.1;
      PartsAt(data, p, restarts, k0.key[0..], k0.value, Place(points[index] + 1));
      k := data[p..p + nonShared];
    }

    lemma SharesNothing(index: nat)
      requires Opened() && index < numRestarts && points[index] < |entries|
      ensures shared[points[index]] == 0
    {
    }

    /** Binary search for the last restart point before the target, then a scan. */
    method Seek(target: seq<byte>) returns (ghost i: nat)
      requires Opened() && Transitive(less) && Increasing(less, entries)
      modifies this
      ensures IsFirstFrom(less, entries, target, i) && Stands(i)
    {
      hide Laid, Offset, Fits, Place;
      HasPoint();
      FirstPoint();
      var left := FindRestart(target);
      SeekToRestartPoint(left);
      i := points[left];
      while true
        invariant i <= |entries| && Ready(i) && forall j | 0 <= j < i :: less(entries[j].key, target)
        decreases |entries| - i
      {
        var more := ParseNextKey(i);
        if !more {
          return;
        }
        if !less(key, target) {
          return;
        }
        ReadyNext(i);
        i := i + 1;
      }
    }

    method FindRestart(target: seq<byte>) returns (left: nat)
      requires Opened() && Transitive(less) && Increasing(less, entries) && numRestarts > 0 && points[0] == 0
      ensures left < numRestarts && points[left] <= |entries|
      ensures forall j | 0 <= j < points[left] :: less(entries[j].key, target)
      ensures left > 0 ==> points[left] < |entries| && less(entries[points[left]].key, target)
      ensures left + 1 < numRestarts ==> points[left + 1] < |entries| && !less(entries[points[left + 1]].key, target)
    {
      hide Laid;
      left := 0;
      var right := numRestarts - 1;
      while left < right
        invariant 0 <= left <= right < numRestarts && points[left] <= |entries|
        invariant forall j | 0 <= j < points[left] :: less(entries[j].key, target)
        invariant left > 0 ==> points[left] < |entries| && less(entries[points[left]].key, target)
        invariant right + 1 < numRestarts ==> points[right + 1] < |entries| && !less(entries[points[right + 1]].key, target)
        decreases right - left
      {
        var mid := (left + right + 1) / 2;
        var midKey := RestartKey(mid);
        if less(midKey, target) {
          left := mid;
        } else {
          right := mid - 1;
        }
      }
    }
  }

  method Build(es: seq<Pair>, restartInterval: nat) returns (builder: BlockBuilder)
    requires restartInterval >= 1
    requires forall i | 0 <= i < |es| :: |es[i].key| < 0x1_0000_0000 && |es[i].value| < 0x1_0000_0000
    ensures fresh(builder) && builder.Valid() && !builder.finished && builder.entries == es
  {
    hide Sharing, Restarts, Data, Offsets;
    builder := new BlockBuilder(restartInterval);
    for i := 0 to |es|
      invariant fresh(builder) && builder.Valid() && !builder.finished && builder.entries == es[..i]
    {
      builder.Add(es[i].key, es[i].value);
    }
    assert es[..|es|] == es;
  }

  method ReadAll(iter: Iterator) returns (back: seq<Pair>)
    requires iter.Opened()
    modifies iter
    ensures back == iter.entries
  {
    hide Laid, Fits, Offset;
    iter.SeekToFirst();
    back := [];
    ghost var i, es := 0, iter.entries;
    iter.ValidMeans(0);
    while iter.Valid()
      invariant i <= |es| && iter.Stands(i) && back == es[..i] && (iter.Valid() <==> i < |es|)
      decreases |es| - i
    {
      back := back + [Pair(iter.key, iter.data[iter.valueAt..iter.valueEnd])];
      iter.Next(i);
      i := i + 1;
      iter.ValidMeans(i);
    }
  }

  /** Building a block and reading it from front to back gives the entries again. */
  method RoundTrip(es: seq<Pair>, restartInterval: nat, less: Less) returns (contents: seq<byte>, back: seq<Pair>)
    requires restartInterval >= 1
    requires forall i | 0 <= i < |es| :: |es[i].key| < 0x1_0000_0000 && |es[i].value| < 0x1_0000_0000
    ensures |contents| < 0x1_0000_0000 ==> back == es
  {
    hide IsBlock, Laid, Sharing, Restarts;
    var builder := Build(es, restartInterval);
    contents := builder.Finish();
    back := [];
    if |contents| < 0x1_0000_0000 {
      var iter := new Iterator(contents, less, es, builder.shared, builder.points);
      back := ReadAll(iter);
    }
  }
}
