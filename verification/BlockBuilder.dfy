/** Building a block: prefix compression with a restart point every so many entries. */
module BlockBuilder {
  import opened Bytes
  import opened Coding
  import opened BlockFormat

  /** The restart points are exactly an interval apart, and `counter` entries, at most an interval,
      stand at and behind the last of them. */
  ghost predicate Spaced(points: seq<nat>, n: nat, interval: nat, counter: nat) {
    && points != [] && points[0] == 0 && n == points[|points| - 1] + counter && counter <= interval
    && forall j | 0 <= j < |points| - 1 :: points[j + 1] == points[j] + interval
  }

  /** `n` is the length of the longest common prefix. */
  ghost predicate IsCommonPrefix(a: seq<byte>, b: seq<byte>, n: nat) {
    && n <= |a| && n <= |b| && a[..n] == b[..n]
    && (n < |a| && n < |b| ==> a[n] != b[n])
  }

  class BlockBuilder {
    const restartInterval: nat
    var buffer: seq<byte>
    var restarts: seq<nat>
    var counter: nat
    var lastKey: seq<byte>
    var finished: bool
    ghost var entries: seq<Pair>       // added since the last Reset
    ghost var shared: seq<nat>
    ghost var points: seq<nat>         // which entries the restart points are

    ghost predicate Valid()
      reads this
    {
      && restartInterval >= 1 && Sharing(entries, shared) && Restarts(entries, shared, points)
      && Spaced(points, |entries|, restartInterval, counter)
      && (entries == [] ==> lastKey == [])
      && (entries != [] ==> lastKey == entries[|entries| - 1].key)
      && restarts == Offsets(entries, shared, points)
      && (!finished ==> buffer == Data(entries, shared))
      && (finished && |buffer| < 0x1_0000_0000 ==> IsBlock(buffer, entries, shared, points))
    }

    constructor (restartInterval: nat)
      requires restartInterval >= 1
      ensures Valid() && entries == [] && !finished && this.restartInterval == restartInterval
    {
      this.restartInterval := restartInterval;
      buffer, restarts, counter, lastKey, finished := [], [0], 0, [], false;
      entries, shared, points := [], [], [0];
    }

    method Reset()
      requires restartInterval >= 1
      modifies this
      ensures Valid() && entries == [] && !finished
    {
      buffer, restarts, counter, finished, lastKey := [], [0], 0, false, [];
      entries, shared, points := [], [], [0];
    }

    function CurrentSizeEstimate(): nat
      reads this
    {
      |buffer| + 4 * |restarts| + 4
    }

    method Add(key: seq<byte>, value: seq<byte>)
      requires Valid() && !finished && |key| < 0x1_0000_0000 && |value| < 0x1_0000_0000
      modifies this
      ensures Valid() && !finished && entries == old(entries) + [Pair(key, value)]
      ensures points == old(points) + if old(counter) == restartInterval then [old(|entries|)] else []
      ensures |shared| == |old(shared)| + 1 && shared[..|old(shared)|] == old(shared)
      ensures var n := shared[|old(shared)|];
        if old(counter) == restartInterval then n == 0 else IsCommonPrefix(old(lastKey), key, n)
    {
      hide Data, Offsets, EntryBytes, Sharing, Restarts;
      ghost var e, restart := Pair(key, value), counter >= restartInterval;
      LastShares(entries, shared, points);
      var share := 0;
      if counter < restartInterval {
        share := CommonPrefix(lastKey, key);
      } else {
        restarts := restarts + [|buffer|];
        counter := 0;
        points := points + [|entries|];
      }
      Extended(entries, shared, old(points), e, share, restart);
      AppendEntry(share, key, value);
      lastKey := lastKey[..share] + key[share..];
      counter := counter + 1;
      entries, shared := entries + [e], shared + [share];
    }

    /** The three lengths, the rest of the key and the value. */
    method AppendEntry(share: nat, key: seq<byte>, value: seq<byte>)
      requires share <= |key| < 0x1_0000_0000 && |value| < 0x1_0000_0000
      modifies this`buffer
      ensures buffer == old(buffer) + EntryBytes(Pair(key, value), share)
    {
      hide Varint;
      var a := EncodeVarint32(share);
      var b := EncodeVarint32(|key| - share);
      var c := EncodeVarint32(|value|);
      buffer := buffer + a + b + c;
      buffer := buffer + key[share..];
      buffer := buffer + value;
      assert buffer == old(buffer) + (a + b + c + key[share..] + value);
    }

    method CommonPrefix(a: seq<byte>, b: seq<byte>) returns (n: nat)
      ensures IsCommonPrefix(a, b, n)
    {
      var min := if |a| < |b| then |a| else |b|;
      n := 0;
      while n < min && a[n] == b[n]
        invariant n <= min && a[..n] == b[..n]
      {
        n := n + 1;
      }
    }

    method Finish() returns (contents: seq<byte>)
      requires Valid() && !finished
      modifies this
      ensures Valid() && finished && contents == buffer && entries == old(entries)
      ensures |contents| < 0x1_0000_0000 ==> IsBlock(contents, entries, shared, points)
      ensures |contents| == old(CurrentSizeEstimate())
    {
      hide Data, Offsets, Sharing, Restarts;
      AppendRestarts();
      buffer := buffer + Fixed(|restarts|, 4);
      finished := true;
      contents := buffer;
    }

    method AppendRestarts()
      modifies this`buffer
      ensures buffer == old(buffer) + Fixed32s(restarts)
    {
      for i := 0 to |restarts|
        invariant buffer == old(buffer) + Fixed32s(restarts[..i])
      {
        assert restarts[..i + 1][..i] == restarts[..i];
        buffer := buffer + Fixed(restarts[i], 4);
      }
      assert restarts[..|restarts|] == restarts;
    }
  }

  lemma LastShares(es: seq<Pair>, shared: seq<nat>, points: seq<nat>)
    requires Sharing(es, shared) && Restarts(es, shared, points)
    ensures Fits(es, shared)
    ensures forall j | 0 <= j < |points| :: points[j] <= |es|
  {
  }

  /** Adding an entry, at a restart point or not, keeps the block's shape and its offsets. */
  lemma Extended(es: seq<Pair>, shared: seq<nat>, points: seq<nat>, e: Pair, n: nat, restart: bool)
    requires Sharing(es, shared) && Restarts(es, shared, points) && n <= |e.key|
    requires es == [] ==> n == 0 && !restart
    requires es != [] ==> n <= |es[|es| - 1].key| && e.key[..n] == es[|es| - 1].key[..n]
    requires restart ==> n == 0
    ensures Sharing(es + [e], shared + [n])
    ensures Restarts(es + [e], shared + [n], if restart then points + [|es|] else points)
    ensures Data(es + [e], shared + [n]) == Data(es, shared) + EntryBytes(e, n)
    ensures Offsets(es + [e], shared + [n], if restart then points + [|es|] else points)
         == Offsets(es, shared, points) + if restart then [|Data(es, shared)|] else []
  {
    hide Data, EntryBytes, Offsets;
    DataSnoc(es, shared, e, n);
    ExtendedRestarts(es, shared, points, e, n, restart);
    ExtendedOffsets(es, shared, points, e, n);
    if restart {
      ExtendedOffsets(es, shared, points + [|es|], e, n);
      OneMoreOffset(es, shared, points);
    }
  }

  lemma OneMoreOffset(es: seq<Pair>, shared: seq<nat>, points: seq<nat>)
    requires Fits(es, shared)
    requires forall j | 0 <= j < |points| :: points[j] <= |es|
    ensures Offsets(es, shared, points + [|es|]) == Offsets(es, shared, points) + [|Data(es, shared)|]
  {
    OffsetEnd(es, shared);
    hide Offset;
  }

  lemma ExtendedOffsets(es: seq<Pair>, shared: seq<nat>, points: seq<nat>, e: Pair, n: nat)
    requires Fits(es, shared) && n <= |e.key|
    requires forall j | 0 <= j < |points| :: points[j] <= |es|
    ensures Offsets(es + [e], shared + [n], points) == Offsets(es, shared, points)
  {
    hide Offset;
    forall j | 0 <= j < |points|
      ensures Offset(es + [e], shared + [n], points[j]) == Offset(es, shared, points[j])
    {
      OffsetStays(es, shared, e, n, points[j]);
    }
  }

  lemma ExtendedRestarts(es: seq<Pair>, shared: seq<nat>, points: seq<nat>, e: Pair, n: nat, restart: bool)
    requires Sharing(es, shared) && Restarts(es, shared, points) && n <= |e.key|
    requires es == [] ==> n == 0 && !restart
    requires restart ==> n == 0
    ensures Restarts(es + [e], shared + [n], if restart then points + [|es|] else points)
    ensures forall j | 0 <= j < |points| :: points[j] <= |es|
  {
  }

  lemma OffsetStays(es: seq<Pair>, shared: seq<nat>, e: Pair, n: nat, i: nat)
    requires Fits(es, shared) && n <= |e.key| && i <= |es|
    ensures Offset(es + [e], shared + [n], i) == Offset(es, shared, i)
  {
    assert (es + [e])[..i] == es[..i] && (shared + [n])[..i] == shared[..i];
  }
}
