/** The reference-counted cache: a ring in order of use over a hash table. */
module LruCache {
  import opened Bytes
  import opened HandleTable

  // ---- Charges

  ghost function Total(hs: Heap): nat {
    if hs == map[] then 0
    else
      var id :| id in hs;
      hs[id].charge + Total(hs - {id})
  }

  lemma {:induction false} TotalWithout(hs: Heap, id: nat)
    requires id in hs
    ensures Total(hs) == hs[id].charge + Total(hs - {id})
  {
    var first :| first in hs && Total(hs) == hs[first].charge + Total(hs - {first});
    if first != id {
      TotalWithout(hs - {first}, id);
      TotalWithout(hs - {id}, first);
      assert hs - {first} - {id} == hs - {id} - {first};
    }
  }

  lemma TotalUpdate(hs: Heap, id: nat, h: Handle)
    ensures id in hs ==> Total(hs[id := h]) + hs[id].charge == Total(hs) + h.charge
    ensures id !in hs ==> Total(hs[id := h]) == Total(hs) + h.charge
  {
    TotalWithout(hs[id := h], id);
    assert hs[id := h] - {id} == hs - {id};
    if id in hs {
      TotalWithout(hs, id);
    } else {
      assert hs - {id} == hs;
    }
  }

  // ---- The books: who holds what, and what that costs

  /** Every allocated handle is counted once for each holder; the others have been deleted, once. */
  ghost predicate Books(hs: Heap, held: multiset<nat>, usage: nat, next: nat, deleted: seq<nat>) {
    && (forall id | id in held :: id in hs) && (forall id | id in hs :: hs[id].refs == held[id] > 0)
    && usage == Total(hs) && (forall id | id in hs :: id < next) && (forall id | id in deleted :: id < next)
    && NoDuplicates(deleted) && forall id | 0 <= id < next :: id in hs <==> id !in deleted
  }

  /** The same handles with the same keys and charges. */
  ghost predicate Survive(a: Heap, b: Heap) {
    forall id | id in b :: id in a && b[id].(refs := 0) == a[id].(refs := 0)
  }

  lemma BooksTake(hs: Heap, held: multiset<nat>, usage: nat, next: nat, deleted: seq<nat>, id: nat)
    requires Books(hs, held, usage, next, deleted) && id in hs
    ensures Books(hs[id := hs[id].(refs := hs[id].refs + 1)], held + multiset{id}, usage, next, deleted)
  {
    TotalUpdate(hs, id, hs[id].(refs := hs[id].refs + 1));
  }

  lemma BooksGive(hs: Heap, held: multiset<nat>, usage: nat, next: nat, deleted: seq<nat>, id: nat)
    requires Books(hs, held, usage, next, deleted) && id in held
    ensures id in hs
    ensures held[id] > 1 ==>
      Books(hs[id := hs[id].(refs := hs[id].refs - 1)], held - multiset{id}, usage, next, deleted)
    ensures held[id] == 1 ==>
      usage >= hs[id].charge
      && Books(hs - {id}, held - multiset{id}, usage - hs[id].charge, next, deleted + [id])
  {
    if held[id] > 1 {
      TotalUpdate(hs, id, hs[id].(refs := hs[id].refs - 1));
    } else {
      TotalWithout(hs, id);
    }
  }

  lemma BooksNew(hs: Heap, held: multiset<nat>, usage: nat, next: nat, deleted: seq<nat>, h: Handle)
    requires Books(hs, held, usage, next, deleted) && h.refs == 2
    ensures next !in hs && next !in held
    ensures Books(hs[next := h], held + multiset{next, next}, usage + h.charge, next + 1, deleted)
  {
    TotalUpdate(hs, next, h);
  }

  ghost function Cached(ring: seq<nat>): set<nat> {
    set id | id in ring
  }

  function Without(ring: seq<nat>, id: nat): (r: seq<nat>) {
    if ring == [] then [] else if ring[0] == id then ring[1..] else [ring[0]] + Without(ring[1..], id)
  }

  lemma Prepended(head: nat, rest: seq<nat>)
    requires NoDuplicates(rest) && head !in rest
    ensures NoDuplicates([head] + rest) && forall x :: x in [head] + rest <==> x == head || x in rest
  {
  }

  lemma {:induction false} WithoutMembers(ring: seq<nat>, id: nat)
    requires NoDuplicates(ring)
    ensures NoDuplicates(Without(ring, id))
    ensures forall x :: x in Without(ring, id) <==> x in ring && x != id
    ensures id in ring ==> multiset(ring) == multiset(Without(ring, id)) + multiset{id}
    ensures id !in ring ==> Without(ring, id) == ring
  {
    if ring != [] {
      var head, tail := ring[0], ring[1..];
      assert ring == [head] + tail && head !in tail;
      WithoutMembers(tail, id);
      var rest := Without(tail, id);
      if head != id {
        Prepended(head, rest);
        assert multiset(ring) == multiset{head} + multiset(tail);
        assert multiset([head] + rest) == multiset{head} + multiset(rest);
      }
    }
  }

  class LRUCache {
    const capacity: nat
    const table: HandleTable
    var usage: nat
    var ring: seq<nat>                  // cached handles, least recently used first
    var heap: Heap
    var next: nat
    ghost var outstanding: multiset<nat> // handles that clients have not released
    ghost var deleted: seq<nat>          // deleter calls

    ghost predicate Valid()
      reads this, table
    {
      && table.Valid(heap) && NoDuplicates(ring) && table.ids == Cached(ring)
      && Books(heap, multiset(ring) + outstanding, usage, next, deleted)
    }

    constructor (capacity: nat)
      ensures Valid() && ring == [] && outstanding == multiset{} && this.capacity == capacity
      ensures fresh(table)
    {
      this.capacity := capacity;
      table := new HandleTable();
      usage, ring, heap, next, outstanding, deleted := 0, [], map[], 0, multiset{}, [];
    }

    /** Drops one reference; the last one deletes the entry. */
    method Unref(id: nat, ghost held: multiset<nat>)
      requires Books(heap, held, usage, next, deleted) && id in held
      modifies this`heap, this`usage, this`deleted
      ensures Books(heap, held - multiset{id}, usage, next, deleted) && Survive(old(heap), heap)
      ensures forall o | o in held && (o != id || held[id] > 1) :: o in heap
      ensures usage == if held[id] == 1 then old(usage) - old(heap)[id].charge else old(usage)
      ensures deleted == if held[id] == 1 then old(deleted) + [id] else old(deleted)
    {
      BooksGive(heap, held, usage, next, deleted, id);
      var h := heap[id];
      heap := heap[id := h.(refs := h.refs - 1)];
      if h.refs - 1 <= 0 {
        usage := usage - h.charge;
        deleted := deleted + [id];
        heap := heap - {id};
        assert heap == old(heap) - {id};
      }
    }

    /** A cached entry becomes the most recently used one and gets one more handle. */
    method Lookup(key: seq<byte>, hash: uint32) returns (e: Option<nat>)
      requires Valid()
      modifies this
      ensures Valid() && deleted == old(deleted) && usage == old(usage) && Survive(old(heap), heap)
      ensures e.None? ==> NoneMatches(heap, Cached(ring), key, hash)
      ensures e.None? ==> ring == old(ring) && outstanding == old(outstanding) && heap == old(heap)
      ensures e.Some? ==> e.value in old(ring) && Matches(heap, e.value, key, hash)
      ensures e.Some? ==> ring == Without(old(ring), e.value) + [e.value]
      ensures e.Some? ==> outstanding == old(outstanding) + multiset{e.value}
    {
      hide Books, HandleTable.Valid;
      e := table.Lookup(heap, key, hash);
      if e.Some? {
        Touch(e.value);
      }
    }

    /** One more handle for a cached entry, which moves to the recently used end. */
    method Touch(id: nat)
      requires Valid() && id in ring
      modifies this`heap, this`ring, this`outstanding
      ensures Valid() && id in old(heap) && heap == old(heap)[id := old(heap)[id].(refs := old(heap)[id].refs + 1)]
      ensures ring == Without(old(ring), id) + [id] && outstanding == old(outstanding) + multiset{id}
    {
      hide Books, HandleTable.Valid;
      ghost var held := multiset(ring) + outstanding;
      RingInHeap(heap, ring, outstanding, usage, next, deleted);
      BooksTake(heap, held, usage, next, deleted, id);
      WithoutMembers(ring, id);
      Appended(Without(ring, id), id);
      heap := heap[id := heap[id].(refs := heap[id].refs + 1)];
      ring := Without(ring, id) + [id];
      outstanding := outstanding + multiset{id};
      assert held + multiset{id} == multiset(ring) + outstanding;
      assert Cached(ring) == Cached(old(ring));
      table.SameHandles(old(heap), heap);
    }

    /** The client gives a handle back. */
    method Release(id: nat)
      requires Valid() && id in outstanding
      modifies this
      ensures Valid() && ring == old(ring) && outstanding == old(outstanding) - multiset{id}
      ensures id !in ring && old(outstanding)[id] == 1 ==> deleted == old(deleted) + [id]
      ensures id in ring || old(outstanding)[id] > 1 ==> deleted == old(deleted) && usage == old(usage)
    {
      ghost var held := multiset(ring) + outstanding;
      hide Books, HandleTable.Valid;
      OnceInRing(ring, id);
      Unref(id, held);
      outstanding := outstanding - multiset{id};
      assert held - multiset{id} == multiset(ring) + outstanding;
      RingInHeap(heap, ring, outstanding, usage, next, deleted);
      table.SameHandles(old(heap), heap);
    }

    /** Takes the entry out of the cache; clients keep the handles they have. */
    method Erase(key: seq<byte>, hash: uint32)
      requires Valid()
      modifies this, table
      ensures Valid() && outstanding == old(outstanding)
      ensures NoneMatches(old(heap), Cached(ring), key, hash)
      ensures ring == old(ring) || exists id :: id in old(ring) && Matches(old(heap), id, key, hash) && ring == Without(old(ring), id)
    {
      hide Books;
      RingInHeap(heap, ring, outstanding, usage, next, deleted);
      var e := table.Remove(heap, key, hash);
      if e.Some? {
        DropFromRing(e.value);
      }
    }

    /** The entry `id` leaves the ring after it left the table. */
    method DropFromRing(id: nat)
      requires table.Valid(heap) && NoDuplicates(ring) && id in ring && table.ids == Cached(ring) - {id}
      requires Books(heap, multiset(ring) + outstanding, usage, next, deleted)
      modifies this`ring, this`heap, this`usage, this`deleted
      ensures Valid() && ring == Without(old(ring), id) && Survive(old(heap), heap)
      ensures usage == old(usage) - if id in outstanding then 0 else old(heap)[id].charge
      ensures id in old(heap) && deleted == old(deleted) + if id in outstanding then [] else [id]
    {
      hide Books, HandleTable.Valid;
      ghost var held := multiset(ring) + outstanding;
      OnceInRing(ring, id);
      WithoutMembers(ring, id);
      RingInHeap(heap, ring, outstanding, usage, next, deleted);
      ring := Without(ring, id);
      Unref(id, held);
      assert held - multiset{id} == multiset(ring) + outstanding;
      RingInHeap(heap, ring, outstanding, usage, next, deleted);
      table.SameHandles(old(heap), heap);
    }

    /** Takes the least recently used entry out of the cache. */
    method EvictOldest()
      requires Valid() && ring != []
      modifies this`ring, this`heap, this`usage, this`deleted, table
      ensures Valid() && ring == old(ring)[1..] && Survive(old(heap), heap)
      ensures old(ring)[0] in old(heap)
      ensures usage == old(usage) - Released(old(heap), outstanding, old(ring)[0])
    {
      hide Books;
      var oldest := ring[0];
      RingInHeap(heap, ring, outstanding, usage, next, deleted);
      var gone := table.Remove(heap, heap[oldest].key, heap[oldest].hash);
      assert gone == Some(oldest);
      DropFromRing(oldest);
    }

    /** A new entry, held by the cache and by the client; it replaces the one with the same key. */
    method Add(key: seq<byte>, hash: uint32, value: int, charge: nat) returns (e: nat, ghost gone: Option<nat>)
      requires Valid()
      modifies this, table
      ensures Valid() && e == old(next) && outstanding == old(outstanding) + multiset{e}
      ensures e !in old(heap) && e in heap && heap[e].(refs := 0) == Handle(key, hash, value, charge, 0)
      ensures gone.Some? ==> gone.value in old(ring) && Matches(old(heap), gone.value, key, hash)
      ensures gone.None? ==> NoneMatches(old(heap), Cached(old(ring)), key, hash)
      ensures ring == (if gone.Some? then Without(old(ring), gone.value) else old(ring)) + [e]
      ensures usage == old(usage) + charge - if gone.Some? then Released(old(heap), old(outstanding), gone.value) else 0
      ensures forall id | id in heap && id != e :: id in old(heap) && heap[id].(refs := 0) == old(heap)[id].(refs := 0)
    {
      hide Books, HandleTable.Valid, NoneMatches, Without;
      ghost var was, before := ring, heap;
      e := Enter(Handle(key, hash, value, charge, 2));
      var replaced := table.Insert(heap, e);
      gone := replaced;
      SameMatches(before, heap, Cached(was), key, hash);
      if replaced.Some? {
        WithoutAppend(was, e, replaced.value);
        DropFromRing(replaced.value);
        RingInHeap(heap, ring, outstanding, usage, next, deleted);
      }
    }

    /** Allocates a handle with two references and puts it at the recently used end. */
    method Enter(h: Handle) returns (e: nat)
      requires Valid() && h.refs == 2
      modifies this
      ensures e == old(next) && e !in old(heap) && heap == old(heap)[e := h] && next == old(next) + 1
      ensures ring == old(ring) + [e] && NoDuplicates(ring) && Cached(ring) == Cached(old(ring)) + {e}
      ensures outstanding == old(outstanding) + multiset{e} && deleted == old(deleted) && usage == old(usage) + h.charge
      ensures Books(heap, multiset(ring) + outstanding, usage, next, deleted)
      ensures table.Valid(heap) && table.ids == Cached(old(ring)) && e !in table.ids
      ensures forall id | id in old(ring) :: id in old(heap)
    {
      hide Books, HandleTable.Valid;
      e := next;
      ghost var was, held := ring, multiset(ring) + outstanding;
      BooksNew(heap, held, usage, next, deleted, h);
      RingInHeap(heap, ring, outstanding, usage, next, deleted);
      Appended(ring, e);
      table.SameHandles(heap, heap[e := h]);
      heap := heap[e := h];
      ring := ring + [e];
      outstanding := outstanding + multiset{e};
      usage, next := usage + h.charge, next + 1;
      HeldTwice(was, e, old(outstanding));
    }

    /** Inserts, then evicts in order of last use until the cache fits or is empty, and no longer;
        `usages` are the totals before each eviction and at the end. */
    method Insert(key: seq<byte>, hash: uint32, value: int, charge: nat)
      returns (e: nat, ghost gone: Option<nat>, ghost evicted: nat, ghost usages: seq<nat>)
      requires Valid()
      modifies this, table
      ensures Valid() && e == old(next) && outstanding == old(outstanding) + multiset{e}
      ensures gone.Some? ==> gone.value in old(ring) && Matches(old(heap), gone.value, key, hash)
      ensures gone.None? ==> NoneMatches(old(heap), Cached(old(ring)), key, hash)
      ensures
        var all := (if gone.Some? then Without(old(ring), gone.value) else old(ring)) + [e];
        evicted <= |all| && ring == all[evicted..]
      ensures usage <= capacity || ring == []
      ensures |usages| == evicted + 1 && usages[evicted] == usage
      ensures usages[0] == old(usage) + charge - if gone.Some? then Released(old(heap), old(outstanding), gone.value) else 0
      ensures forall j | 0 <= j < evicted :: usages[j] > capacity
      ensures e !in old(heap) && e in heap && heap[e].(refs := 0) == Handle(key, hash, value, charge, 0)
      ensures forall id | id in heap && id != e :: id in old(heap) && heap[id].(refs := 0) == old(heap)[id].(refs := 0)
    {
      hide Books, HandleTable.Valid, Released;
      e, gone := Add(key, hash, value, charge);
      evicted, usages := 0, [usage];
      ghost var all, before := ring, heap;
      while usage > capacity && ring != []
        invariant Valid() && evicted <= |all| && ring == all[evicted..] && outstanding == old(outstanding) + multiset{e}
        invariant |usages| == evicted + 1 && usages[evicted] == usage && forall j | 0 <= j < evicted :: usages[j] > capacity
        invariant usages[0] == old(usage) + charge - if gone.Some? then Released(old(heap), old(outstanding), gone.value) else 0
        invariant Survive(before, heap)
        decreases |ring|
      {
        EvictOldest();
        evicted, usages := evicted + 1, usages + [usage];
      }
      RingInHeap(heap, ring, outstanding, usage, next, deleted);
      assert e in outstanding;
    }
  }

  /** What leaving the ring gives back: the charge, unless a client still holds the entry. */
  ghost function Released(hs: Heap, outstanding: multiset<nat>, id: nat): nat {
    if id in hs && id !in outstanding then hs[id].charge else 0
  }

  lemma WithoutAppend(ring: seq<nat>, e: nat, id: nat)
    requires id in ring
    ensures Without(ring + [e], id) == Without(ring, id) + [e]
  {
    assert (ring + [e])[0] == ring[0];
    if ring[0] == id {
      assert (ring + [e])[1..] == ring[1..] + [e];
    } else {
      WithoutAppend(ring[1..], e, id);
      assert (ring + [e])[1..] == ring[1..] + [e];
    }
  }

  lemma SameMatches(a: Heap, b: Heap, ids: set<nat>, key: seq<byte>, hash: uint32)
    requires forall id | id in ids :: id in a && id in b && a[id] == b[id]
    ensures NoneMatches(a, ids, key, hash) <==> NoneMatches(b, ids, key, hash)
    ensures forall id | id in ids :: Matches(a, id, key, hash) <==> Matches(b, id, key, hash)
  {
    forall id | id in ids ensures Matches(a, id, key, hash) <==> Matches(b, id, key, hash) {
    }
  }

  lemma HeldTwice(ring: seq<nat>, e: nat, outstanding: multiset<nat>)
    ensures multiset(ring + [e]) + (outstanding + multiset{e}) == multiset(ring) + outstanding + multiset{e, e}
  {
  }

  lemma Appended(rest: seq<nat>, id: nat)
    requires NoDuplicates(rest) && id !in rest
    ensures NoDuplicates(rest + [id]) && forall x :: x in rest + [id] <==> x == id || x in rest
  {
  }

  lemma RingInHeap(hs: Heap, ring: seq<nat>, outstanding: multiset<nat>, usage: nat, next: nat, deleted: seq<nat>)
    requires Books(hs, multiset(ring) + outstanding, usage, next, deleted)
    ensures forall id | id in ring :: id in hs
    ensures forall id | id in outstanding :: id in hs
  {
    forall id | id in ring ensures id in hs {
      assert id in multiset(ring) + outstanding;
    }
    forall id | id in outstanding ensures id in hs {
      assert id in multiset(ring) + outstanding;
    }
  }

  lemma {:induction false} OnceInRing(ring: seq<nat>, id: nat)
    requires NoDuplicates(ring)
    ensures multiset(ring)[id] == if id in ring then 1 else 0
  {
    if ring != [] {
      OnceInRing(ring[1..], id);
      assert ring == [ring[0]] + ring[1..];
    }
  }
}
