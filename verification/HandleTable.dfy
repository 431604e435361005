/** The cache's hash table: buckets of chained handles. */
module HandleTable {
  import opened Bytes

  /** A cache entry.  Handles are named by the number of their allocation. */
  datatype Handle = Handle(key: seq<byte>, hash: uint32, value: int, charge: nat, refs: nat)

  type Heap = map<nat, Handle>

  predicate Matches(hs: Heap, id: nat, key: seq<byte>, hash: uint32) {
    id in hs && hs[id].hash == hash && hs[id].key == key
  }

  predicate PowerOfTwo(n: nat) {
    n == 1 || (n > 0 && n % 2 == 0 && PowerOfTwo(n / 2))
  }

  /** hash & (length - 1), for a power of two */
  function Slot(hash: uint32, length: nat): (b: nat)
    requires length > 0
    ensures b < length
  {
    hash % length
  }

  ghost predicate NoDuplicates(s: seq<nat>) {
    forall i, j | 0 <= i < j < |s| :: s[i] != s[j]
  }

  /** The chains hold exactly the handles `ids`, each in the bucket of its hash, and nowhere twice. */
  ghost predicate Chained(hs: Heap, buckets: seq<seq<nat>>, ids: set<nat>) {
    && |buckets| > 0
    && (forall id | id in ids :: id in hs && id in buckets[Slot(hs[id].hash, |buckets|)])
    && (forall b, id | 0 <= b < |buckets| && id in buckets[b] :: id in ids && Slot(hs[id].hash, |buckets|) == b)
    && forall b | 0 <= b < |buckets| :: NoDuplicates(buckets[b])
  }

  /** No two handles for one key. */
  ghost predicate OneEach(hs: Heap, ids: set<nat>) {
    forall a, b | a in ids && b in ids && a in hs && b in hs && hs[a].hash == hs[b].hash && hs[a].key == hs[b].key :: a == b
  }

  ghost predicate NoneMatches(hs: Heap, ids: set<nat>, key: seq<byte>, hash: uint32) {
    forall id | id in ids :: !Matches(hs, id, key, hash)
  }

  class HandleTable {
    var buckets: seq<seq<nat>>
    var elems: nat
    ghost var ids: set<nat>

    ghost predicate Sound(hs: Heap)
      reads this
    {
      Chained(hs, buckets, ids) && PowerOfTwo(|buckets|) && elems == |ids| && OneEach(hs, ids)
    }

    /** And there are at least as many buckets as handles. */
    ghost predicate Valid(hs: Heap)
      reads this
    {
      Sound(hs) && elems <= |buckets|
    }

    constructor ()
      ensures forall hs :: Valid(hs)
      ensures ids == {}
    {
      buckets, elems, ids := [[], [], [], []], 0, {};
      new;
      assert PowerOfTwo(4) by { assert PowerOfTwo(2); }
    }

    /** Only keys and hashes matter to the table. */
    lemma SameHandles(a: Heap, b: Heap)
      requires Valid(a) && forall id | id in ids :: id in a && id in b && a[id].hash == b[id].hash && a[id].key == b[id].key
      ensures Valid(b)
    {
      hide Slot, PowerOfTwo;
    }

    /** The place of the matching handle in its chain, or the chain's end. */
    method FindPointer(hs: Heap, key: seq<byte>, hash: uint32) returns (bucket: nat, at: nat)
      requires Valid(hs)
      ensures bucket == Slot(hash, |buckets|) && at <= |buckets[bucket]|
      ensures at < |buckets[bucket]| ==> buckets[bucket][at] in ids && Matches(hs, buckets[bucket][at], key, hash)
      ensures at == |buckets[bucket]| ==> NoneMatches(hs, ids, key, hash)
    {
      hide Slot, PowerOfTwo, OneEach;
      bucket, at := Slot(hash, |buckets|), 0;
      var chain := buckets[bucket];
      while at < |chain| && !Matches(hs, chain[at], key, hash)
        invariant at <= |chain| && forall i | 0 <= i < at :: !Matches(hs, chain[i], key, hash)
      {
        at := at + 1;
      }
    }

    method Lookup(hs: Heap, key: seq<byte>, hash: uint32) returns (found: Option<nat>)
      requires Valid(hs)
      ensures found.Some? ==> found.value in ids && Matches(hs, found.value, key, hash)
      ensures found.None? ==> NoneMatches(hs, ids, key, hash)
    {
      var bucket, at := FindPointer(hs, key, hash);
      found := if at < |buckets[bucket]| then Some(buckets[bucket][at]) else None;
    }

    /** Puts the handle in, in place of the one with the same key. */
    method Insert(hs: Heap, id: nat) returns (gone: Option<nat>)
      requires Valid(hs) && id in hs && id !in ids
      modifies this
      ensures Valid(hs)
      ensures gone.Some? ==> gone.value in old(ids) && Matches(hs, gone.value, hs[id].key, hs[id].hash)
      ensures gone.None? ==> NoneMatches(hs, old(ids), hs[id].key, hs[id].hash)
      ensures ids == old(ids) - (if gone.Some? then {gone.value} else {}) + {id}
      ensures |buckets| == old(|buckets|) || (gone.None? && old(elems) == old(|buckets|) && (|buckets| == 4 || |buckets| < 2 * elems))
    {
      hide Slot, Chained, PowerOfTwo, OneEach, Matches, NoneMatches;
      var bucket, at := FindPointer(hs, hs[id].key, hs[id].hash);
      var chain: seq<nat> := buckets[bucket];
      if at < |chain| {
        gone := Some(chain[at]);
        ReplaceKeeps(hs, buckets, ids, at, id);
        chain := chain[at := id];
        buckets := buckets[bucket := chain];
        ids := ids - {gone.value} + {id};
      } else {
        gone := None;
        Append(hs, bucket, id);
        if elems > |buckets| {
          Resize(hs);
        }
      }
    }

    method Append(hs: Heap, bucket: nat, id: nat)
      requires Valid(hs) && id in hs && id !in ids && NoneMatches(hs, ids, hs[id].key, hs[id].hash)
      requires bucket == Slot(hs[id].hash, |buckets|)
      modifies this
      ensures Sound(hs) && ids == old(ids) + {id} && elems == old(elems) + 1 && |buckets| == old(|buckets|)
    {
      hide Slot, Chained, PowerOfTwo, OneEach, NoneMatches;
      AppendKeeps(hs, buckets, ids, id);
      buckets := buckets[bucket := buckets[bucket] + [id]];
      elems, ids := elems + 1, ids + {id};
    }

    method Remove(hs: Heap, key: seq<byte>, hash: uint32) returns (gone: Option<nat>)
      requires Valid(hs)
      modifies this
      ensures Valid(hs)
      ensures gone.Some? ==> gone.value in old(ids) && Matches(hs, gone.value, key, hash)
      ensures gone.None? ==> NoneMatches(hs, old(ids), key, hash)
      ensures ids == old(ids) - if gone.Some? then {gone.value} else {}
    {
      hide Slot, Chained, PowerOfTwo, OneEach;
      var bucket, at := FindPointer(hs, key, hash);
      var chain := buckets[bucket];
      gone := None;
      if at < |chain| {
        gone := Some(chain[at]);
        RemoveKeeps(hs, buckets, ids, bucket, at);
        buckets := buckets[bucket := chain[..at] + chain[at + 1..]];
        elems, ids := elems - 1, ids - {gone.value};
      }
    }

    /** Twice the buckets until there is one for every handle; the handles stay. */
    method Resize(hs: Heap)
      requires Sound(hs)
      modifies this`buckets
      ensures Valid(hs) && (|buckets| == 4 || |buckets| < 2 * elems)
    {
      hide Slot, Chained, OneEach;
      var newLength := 4;
      assert PowerOfTwo(4) by { assert PowerOfTwo(2); }
      while newLength < elems
        invariant newLength > 0 && PowerOfTwo(newLength) && (newLength == 4 || newLength < 2 * elems)
      {
        newLength := newLength * 2;
      }
      hide PowerOfTwo;
      var moved := seq(newLength, _ => []);
      ghost var there := {};
      NothingChained(hs, moved);
      for i := 0 to |buckets|
        invariant buckets == old(buckets) && |moved| == newLength && Chained(hs, moved, there)
        invariant Fetched(hs, buckets, ids, i, there)
      {
        moved, there := MoveChain(hs, moved, there, i);
      }
      AllFetched(hs, buckets, ids, there);
      buckets := moved;
    }

    /** Moves chain `i` handle by handle to the front of the new chains. */
    method MoveChain(hs: Heap, moved: seq<seq<nat>>, ghost there: set<nat>, i: nat)
      returns (r: seq<seq<nat>>, ghost now: set<nat>)
      requires Sound(hs) && i < |buckets| && Chained(hs, moved, there) && Fetched(hs, buckets, ids, i, there)
      ensures |r| == |moved| && Chained(hs, r, now) && Fetched(hs, buckets, ids, i + 1, now)
    {
      hide Slot, Chained, PowerOfTwo, OneEach, Fetched;
      r, now := moved, there;
      var chain := buckets[i];
      FetchedFacts(hs, buckets, ids, i, there);
      ChainedFacts(hs, moved, there);
      for j := 0 to |chain|
        invariant |r| == |moved| > 0 && Chained(hs, r, now)
        invariant now == there + set k | 0 <= k < j :: chain[k]
      {
        var id := chain[j];
        var bucket := Slot(hs[id].hash, |r|);
        assert id !in now;
        PrependKeeps(hs, r, now, id);
        r := r[bucket := [id] + r[bucket]];
        now := now + {id};
      }
      FetchedNext(hs, buckets, ids, i, there, now);
    }
  }

  /** `there` are the handles of the first `i` chains. */
  ghost predicate Fetched(hs: Heap, buckets: seq<seq<nat>>, ids: set<nat>, i: nat, there: set<nat>) {
    && |buckets| > 0 && there <= ids
    && forall id | id in ids && id in hs :: id in there <==> Slot(hs[id].hash, |buckets|) < i
  }

  lemma FetchedFacts(hs: Heap, buckets: seq<seq<nat>>, ids: set<nat>, i: nat, there: set<nat>)
    requires Chained(hs, buckets, ids) && i < |buckets| && Fetched(hs, buckets, ids, i, there)
    ensures forall k | 0 <= k < |buckets[i]| :: buckets[i][k] in hs && buckets[i][k] !in there
    ensures NoDuplicates(buckets[i])
  {
    hide Slot;
  }

  lemma ChainedFacts(hs: Heap, buckets: seq<seq<nat>>, ids: set<nat>)
    requires Chained(hs, buckets, ids)
    ensures |buckets| > 0 && ids <= hs.Keys
  {
  }

  lemma FetchedNext(hs: Heap, buckets: seq<seq<nat>>, ids: set<nat>, i: nat, there: set<nat>, now: set<nat>)
    requires Chained(hs, buckets, ids) && i < |buckets| && Fetched(hs, buckets, ids, i, there)
    requires now == there + set k | 0 <= k < |buckets[i]| :: buckets[i][k]
    ensures Fetched(hs, buckets, ids, i + 1, now)
  {
    hide Slot;
  }

  lemma AllFetched(hs: Heap, buckets: seq<seq<nat>>, ids: set<nat>, there: set<nat>)
    requires Chained(hs, buckets, ids) && Fetched(hs, buckets, ids, |buckets|, there)
    ensures there == ids
  {
  }

  lemma NothingChained(hs: Heap, buckets: seq<seq<nat>>)
    requires |buckets| > 0 && forall b | 0 <= b < |buckets| :: buckets[b] == []
    ensures Chained(hs, buckets, {})
  {
  }

  /** One chain replaced. */
  lemma ChainSet(hs: Heap, buckets: seq<seq<nat>>, ids: set<nat>, bucket: nat, chain: seq<nat>, ids': set<nat>)
    requires Chained(hs, buckets, ids) && bucket < |buckets| && NoDuplicates(chain)
    requires forall id | id in chain :: id in ids' && id in hs && Slot(hs[id].hash, |buckets|) == bucket
    requires forall id | id in ids' :: id in chain || (id in ids && id !in buckets[bucket])
    requires forall id | id in ids && id !in buckets[bucket] :: id in ids'
    ensures Chained(hs, buckets[bucket := chain], ids')
  {
    hide Slot;
    var after := buckets[bucket := chain];
    forall id | id in ids' ensures id in hs && id in after[Slot(hs[id].hash, |buckets|)] {
      if id !in chain {
        assert id in buckets[Slot(hs[id].hash, |buckets|)];
      }
    }
    forall b, id | 0 <= b < |after| && id in after[b] ensures id in ids' && Slot(hs[id].hash, |buckets|) == b {
      if b != bucket {
        ChainFacts(hs, buckets, ids, b);
        ChainFacts(hs, buckets, ids, bucket);
        assert id in buckets[b] && id !in buckets[bucket];
      }
    }
  }

  lemma ReplaceKeeps(hs: Heap, buckets: seq<seq<nat>>, ids: set<nat>, at: nat, id: nat)
    requires Chained(hs, buckets, ids) && OneEach(hs, ids) && id in hs && id !in ids
    requires var bucket := Slot(hs[id].hash, |buckets|);
      at < |buckets[bucket]| && Matches(hs, buckets[bucket][at], hs[id].key, hs[id].hash)
    ensures var bucket := Slot(hs[id].hash, |buckets|);
      var chain: seq<nat> := buckets[bucket][at := id];
      var ids' := ids - {buckets[bucket][at]} + {id};
      Chained(hs, buckets[bucket := chain], ids') && OneEach(hs, ids') && |ids'| == |ids|
  {
    hide Slot;
    var bucket := Slot(hs[id].hash, |buckets|);
    var gone := buckets[bucket][at];
    var chain: seq<nat> := buckets[bucket][at := id];
    assert gone in buckets[bucket];
    assert forall i | 0 <= i < |buckets[bucket]| :: buckets[bucket][i] in buckets[bucket];
    forall x | x in buckets[bucket] && x != gone ensures x in chain {
      var i :| 0 <= i < |chain| && buckets[bucket][i] == x;
      assert chain[i] == x;
    }
    assert chain[at] == id;
    ChainSet(hs, buckets, ids, bucket, chain, ids - {gone} + {id});
  }

  lemma AppendKeeps(hs: Heap, buckets: seq<seq<nat>>, ids: set<nat>, id: nat)
    requires Chained(hs, buckets, ids) && OneEach(hs, ids) && id in hs && id !in ids
    requires NoneMatches(hs, ids, hs[id].key, hs[id].hash)
    ensures var bucket := Slot(hs[id].hash, |buckets|);
      Chained(hs, buckets[bucket := buckets[bucket] + [id]], ids + {id}) && OneEach(hs, ids + {id})
      && |ids + {id}| == |ids| + 1
  {
    hide Slot;
    var bucket := Slot(hs[id].hash, |buckets|);
    var chain := buckets[bucket] + [id];
    assert forall i | 0 <= i < |buckets[bucket]| :: buckets[bucket][i] in buckets[bucket];
    assert forall x | x in buckets[bucket] :: x in chain;
    assert chain[|buckets[bucket]|] == id;
    ChainSet(hs, buckets, ids, bucket, chain, ids + {id});
    forall o | o in ids ensures !(hs[o].hash == hs[id].hash && hs[o].key == hs[id].key) {
      assert !Matches(hs, o, hs[id].key, hs[id].hash);
    }
  }

  lemma PrependKeeps(hs: Heap, buckets: seq<seq<nat>>, ids: set<nat>, id: nat)
    requires Chained(hs, buckets, ids) && id in hs && id !in ids
    ensures var bucket := Slot(hs[id].hash, |buckets|);
      Chained(hs, buckets[bucket := [id] + buckets[bucket]], ids + {id})
  {
    hide Slot;
    var bucket := Slot(hs[id].hash, |buckets|);
    var chain := [id] + buckets[bucket];
    assert forall i | 0 <= i < |buckets[bucket]| :: buckets[bucket][i] in buckets[bucket];
    assert forall x | x in buckets[bucket] :: x in chain;
    assert chain[0] == id;
    ChainSet(hs, buckets, ids, bucket, chain, ids + {id});
  }

  lemma RemoveKeeps(hs: Heap, buckets: seq<seq<nat>>, ids: set<nat>, bucket: nat, at: nat)
    requires Chained(hs, buckets, ids) && OneEach(hs, ids) && bucket < |buckets| && at < |buckets[bucket]|
    ensures var chain := buckets[bucket];
      var ids' := ids - {chain[at]};
      && Chained(hs, buckets[bucket := chain[..at] + chain[at + 1..]], ids') && OneEach(hs, ids')
      && |ids'| == |ids| - 1
  {
    ChainFacts(hs, buckets, ids, bucket);
    hide Slot, Chained;
    var chain, ids' := buckets[bucket], ids - {buckets[bucket][at]};
    var rest := chain[..at] + chain[at + 1..];
    WithoutOne(chain, at);
    assert chain[at] in buckets[bucket];
    ChainSet(hs, buckets, ids, bucket, rest, ids');
  }

  lemma ChainFacts(hs: Heap, buckets: seq<seq<nat>>, ids: set<nat>, bucket: nat)
    requires Chained(hs, buckets, ids) && bucket < |buckets|
    ensures NoDuplicates(buckets[bucket])
    ensures forall id | id in buckets[bucket] :: id in ids && id in hs && Slot(hs[id].hash, |buckets|) == bucket
  {
  }

  lemma WithoutOne(chain: seq<nat>, at: nat)
    requires NoDuplicates(chain) && at < |chain|
    ensures NoDuplicates(chain[..at] + chain[at + 1..])
    ensures forall x :: x in chain[..at] + chain[at + 1..] <==> x in chain && x != chain[at]
  {
    var rest := chain[..at] + chain[at + 1..];
    forall x | x in chain && x != chain[at] ensures x in rest {
      var i :| 0 <= i < |chain| && chain[i] == x;
      assert rest[if i < at then i else i - 1] == x;
    }
  }
}
