/** The memtable's skip list.  Keys are pairwise different, so a node is named by its key; a
    node's forward pointers are kept per level. */
module SkipList {
  import opened Bytes

  type Key = real

  const MAX_HEIGHT := 12

  /** A node pointer. */
  datatype Place = Head | At(key: Key) | Null

  /** Is `k` greater than the key of the node?  The head comes before everything, Null after. */
  predicate Before(p: Place, k: Key) {
    p.Head? || (p.At? && p.key < k)
  }

  predicate On(s: set<Key>, p: Place) {
    p.Head? || (p.At? && p.key in s)
  }

  /** `q` is the node of `s` that follows `p`; Null if there is none. */
  ghost predicate IsNext(s: set<Key>, p: Place, q: Place) {
    && !q.Head? && (q.At? ==> q.key in s && Before(p, q.key))
    && forall k | k in s && Before(p, k) :: q.At? && q.key <= k
  }

  /** A level whose nodes are `s` and whose every pointer leads to the next node of `s`. */
  ghost predicate Linked(level: map<Place, Place>, s: set<Key>) {
    forall p | On(s, p) :: p in level && IsNext(s, p, level[p])
  }

  /** Every level is linked, and every node of a level is on the level below. */
  ghost predicate AllLinked(next: seq<map<Place, Place>>, levels: seq<set<Key>>) {
    && |next| == |levels| == MAX_HEIGHT
    && (forall i | 0 <= i < MAX_HEIGHT :: Linked(next[i], levels[i]))
    && forall i, j | 0 <= i <= j < MAX_HEIGHT :: levels[j] <= levels[i]
  }

  // ---- The two stores that link a node in at one level

  /** x->next[i] = prev->next[i] */
  function Prepare(next: seq<map<Place, Place>>, i: nat, prev: Place, x: Key): seq<map<Place, Place>>
    requires i < |next| && prev in next[i]
  {
    next[i := next[i][At(x) := next[i][prev]]]
  }

  /** prev->next[i] = x */
  function Publish(next: seq<map<Place, Place>>, i: nat, prev: Place, x: Key): seq<map<Place, Place>>
    requires i < |next|
  {
    next[i := next[i][prev := At(x)]]
  }

  function Joined(levels: seq<set<Key>>, i: nat, x: Key): seq<set<Key>>
    requires i < |levels|
  {
    levels[i := levels[i] + {x}]
  }

  /** `p` is the last node of `s` before `x`. */
  ghost predicate IsPrev(s: set<Key>, x: Key, p: Place) {
    On(s, p) && Before(p, x) && forall k | k in s && Before(p, k) :: k >= x
  }

  lemma PrepareKeeps(next: seq<map<Place, Place>>, levels: seq<set<Key>>, i: nat, prev: Place, x: Key)
    requires AllLinked(next, levels) && i < MAX_HEIGHT && x !in levels[i] && On(levels[i], prev)
    ensures prev in next[i] && AllLinked(Prepare(next, i, prev, x), levels)
    ensures prev in Prepare(next, i, prev, x)[i]
  {
    assert Linked(next[i], levels[i]);
    assert forall p | On(levels[i], p) :: p != At(x);
  }

  lemma LinkOne(level: map<Place, Place>, s: set<Key>, prev: Place, x: Key)
    requires Linked(level, s) && x !in s && IsPrev(s, x, prev)
    requires At(x) in level && level[At(x)] == level[prev]
    ensures Linked(level[prev := At(x)], s + {x})
  {
    assert IsNext(s, prev, level[prev]);
    forall p | On(s + {x}, p)
      ensures p in level[prev := At(x)] && IsNext(s + {x}, p, level[prev := At(x)][p])
    {
      if p != prev && p != At(x) {
        assert IsNext(s, p, level[p]);
      }
    }
  }

  lemma PublishKeeps(next: seq<map<Place, Place>>, levels: seq<set<Key>>, i: nat, prev: Place, x: Key)
    requires AllLinked(next, levels) && i < MAX_HEIGHT && x !in levels[i] && IsPrev(levels[i], x, prev)
    requires forall j | 0 <= j < i :: x in levels[j]
    requires At(x) in next[i] && prev in next[i] && next[i][At(x)] == next[i][prev]
    ensures AllLinked(Publish(next, i, prev, x), Joined(levels, i, x))
  {
    hide Linked, IsPrev;
    LinkOne(next[i], levels[i], prev, x);
  }

  // ---- The list

  class SkipList {
    var next: seq<map<Place, Place>>
    var maxHeight: nat
    ghost var levels: seq<set<Key>>

    ghost predicate Valid()
      reads this
    {
      && |next| == |levels| == MAX_HEIGHT && 1 <= maxHeight <= MAX_HEIGHT && AllLinked(next, levels)
      && forall i | maxHeight <= i < MAX_HEIGHT :: levels[i] == {}
    }

    /** The keys in the list. */
    ghost function Keys(): set<Key>
      requires Valid()
      reads this
    {
      levels[0]
    }

    constructor ()
      ensures Valid() && Keys() == {}
    {
      next := seq(MAX_HEIGHT, i => map[Head := Null]);
      maxHeight := 1;
      levels := seq(MAX_HEIGHT, i => {});
    }

    /** The first node at or after the key, and on each level the last node before it. */
    method FindGreaterOrEqual(key: Key) returns (node: Place, prev: seq<Place>)
      requires Valid()
      ensures IsFirstFrom(Keys(), key, node)
      ensures |prev| == MAX_HEIGHT && forall i | 0 <= i < maxHeight :: IsPrev(levels[i], key, prev[i])
    {
      hide AllLinked, Linked, IsPrev, IsNext, IsFirstFrom;
      prev := seq(MAX_HEIGHT, i => Head);
      var x, level := Head, maxHeight - 1;
      while true
        invariant 0 <= level < maxHeight && On(levels[level], x) && Before(x, key) && |prev| == MAX_HEIGHT
        invariant forall i | level < i < maxHeight :: IsPrev(levels[i], key, prev[i])
        decreases level, Ahead(levels[level], x)
      {
        Follow(next, levels, level, x);
        var y := next[level][x];
        if y.At? && Before(y, key) {
          AheadShrinks(levels[level], x, y);
          x := y;
        } else {
          StopHere(levels[level], key, x, y);
          prev := prev[level := x];
          if level == 0 {
            return y, prev;
          }
          Descend(next, levels, level, x);
          level := level - 1;
        }
      }
    }

    /** The last node before the key; the head if there is none. */
    method FindLessThan(key: Key) returns (node: Place)
      requires Valid()
      ensures IsPrev(Keys(), key, node)
    {
      hide AllLinked, Linked, IsPrev, IsNext, IsFirstFrom;
      var x, level := Head, maxHeight - 1;
      while true
        invariant 0 <= level < maxHeight && On(levels[level], x) && Before(x, key)
        decreases level, Ahead(levels[level], x)
      {
        Follow(next, levels, level, x);
        var y := next[level][x];
        if y.Null? || y.key >= key {
          if level == 0 {
            StopHere(levels[level], key, x, y);
            return x;
          }
          Descend(next, levels, level, x);
          level := level - 1;
        } else {
          AheadShrinks(levels[level], x, y);
          x := y;
        }
      }
    }

    /** The last node; the head if the list is empty. */
    method FindLast() returns (node: Place)
      requires Valid()
      ensures On(Keys(), node) && forall k | k in Keys() :: node.At? && k <= node.key
    {
      hide AllLinked, Linked, IsPrev, IsFirstFrom;
      var x, level := Head, maxHeight - 1;
      while true
        invariant 0 <= level < maxHeight && On(levels[level], x)
        decreases level, Ahead(levels[level], x)
      {
        Follow(next, levels, level, x);
        var y := next[level][x];
        if y.Null? {
          if level == 0 {
            return x;
          }
          Descend(next, levels, level, x);
          level := level - 1;
        } else {
          AheadShrinks(levels[level], x, y);
          x := y;
        }
      }
    }

    /** The caller chooses the height; the source draws it at random. */
    method Insert(key: Key, height: nat)
      requires Valid() && key !in Keys() && 1 <= height <= MAX_HEIGHT
      modifies this
      ensures Valid() && Keys() == old(Keys()) + {key}
      ensures forall i | 0 <= i < MAX_HEIGHT ::
        levels[i] == if i < height then old(levels[i]) + {key} else old(levels[i])
    {
      var node, prev := FindGreaterOrEqual(key);
      if height > maxHeight {
        EmptyLevels(levels, maxHeight, key);
        for i := maxHeight to height
          invariant |prev| == MAX_HEIGHT
          invariant forall j | 0 <= j < i :: IsPrev(levels[j], key, prev[j])
        {
          prev := prev[i := Head];
        }
        maxHeight := height;
      }
      ghost var before := levels;
      for i := 0 to height
        invariant AllLinked(next, levels) && |levels| == |before| == MAX_HEIGHT
        invariant maxHeight == if height > old(maxHeight) then height else old(maxHeight)
        invariant forall j | 0 <= j < i :: levels[j] == before[j] + {key}
        invariant forall j | i <= j < MAX_HEIGHT :: levels[j] == before[j]
      {
        hide AllLinked, IsPrev, Linked;
        assert key !in levels[i] && levels[i] == before[i];
        InsertAt(i, prev[i], key);
      }
    }

    /** The two stores for one level. */
    method InsertAt(i: nat, prev: Place, key: Key)
      requires AllLinked(next, levels) && i < MAX_HEIGHT && key !in levels[i] && IsPrev(levels[i], key, prev)
      requires forall j | 0 <= j < i :: key in levels[j]
      modifies this`next, this`levels
      ensures AllLinked(next, levels) && levels == Joined(old(levels), i, key)
    {
      PrepareKeeps(next, levels, i, prev, key);
      next := Prepare(next, i, prev, key);
      PublishKeeps(next, levels, i, prev, key);
      next := Publish(next, i, prev, key);
      levels := Joined(levels, i, key);
    }

    method Contains(key: Key) returns (found: bool)
      requires Valid()
      ensures found <==> key in Keys()
    {
      var x, _ := FindGreaterOrEqual(key);
      found := x.At? && x.key == key;
    }
  }

  /** The first key at or after the target. */
  ghost predicate IsFirstFrom(s: set<Key>, target: Key, q: Place) {
    && !q.Head? && (q.At? ==> q.key in s && q.key >= target)
    && forall k | k in s && k >= target :: q.At? && q.key <= k
  }

  /** How many nodes lie ahead of `p`. */
  ghost function Ahead(s: set<Key>, p: Place): nat {
    |set k | k in s && Before(p, k)|
  }

  lemma AheadShrinks(s: set<Key>, p: Place, q: Place)
    requires q.At? && q.key in s && Before(p, q.key)
    ensures Ahead(s, q) < Ahead(s, p)
  {
    var a, b := set k | k in s && Before(p, k), set k | k in s && Before(q, k);
    assert b <= a - {q.key};
    SubsetSize(b, a - {q.key});
    assert |a - {q.key}| == |a| - 1;
  }

  /** Following a pointer of a node that is on a level. */
  lemma Follow(next: seq<map<Place, Place>>, levels: seq<set<Key>>, level: nat, x: Place)
    requires AllLinked(next, levels) && level < MAX_HEIGHT && On(levels[level], x)
    ensures |next| == |levels| == MAX_HEIGHT && x in next[level] && IsNext(levels[level], x, next[level][x])
    ensures !next[level][x].Head?
    ensures next[level][x].At? ==> next[level][x].key in levels[level] && Before(x, next[level][x].key)
  {
    assert Linked(next[level], levels[level]);
  }

  lemma Descend(next: seq<map<Place, Place>>, levels: seq<set<Key>>, level: nat, x: Place)
    requires AllLinked(next, levels) && 0 < level < MAX_HEIGHT && On(levels[level], x)
    ensures On(levels[level - 1], x)
  {
    assert levels[level] <= levels[level - 1];
  }

  lemma StopHere(s: set<Key>, key: Key, x: Place, y: Place)
    requires On(s, x) && Before(x, key) && IsNext(s, x, y) && !(y.At? && y.key < key)
    ensures IsPrev(s, key, x) && IsFirstFrom(s, key, y)
  {
  }

  lemma EmptyLevels(levels: seq<set<Key>>, from: nat, key: Key)
    requires |levels| == MAX_HEIGHT && forall i | from <= i < MAX_HEIGHT :: levels[i] == {}
    ensures forall i | from <= i < MAX_HEIGHT :: IsPrev(levels[i], key, Head)
  {
  }

  /** A position in the list, moved by the iterator's methods. */
  class Iterator {
    const list: SkipList
    var node: Place

    constructor (list: SkipList)
      ensures this.list == list && node == Null
    {
      this.list, node := list, Null;
    }

    predicate Valid()
      reads this
    {
      node.At?
    }

    method Next()
      requires list.Valid() && Valid() && node.key in list.Keys()
      modifies this
      ensures IsNext(list.Keys(), old(node), node)
    {
      Follow(list.next, list.levels, 0, node);
      node := list.next[0][node];
    }

    method Prev()
      requires list.Valid() && Valid()
      modifies this
      ensures if node.Null? then forall k | k in list.Keys() :: k >= old(node.key)
        else IsPrev(list.Keys(), old(node.key), node) && node.At?
    {
      node := list.FindLessThan(node.key);
      if node.Head? {
        node := Null;
      }
    }

    method Seek(target: Key)
      requires list.Valid()
      modifies this
      ensures IsFirstFrom(list.Keys(), target, node)
    {
      var prev;
      node, prev := list.FindGreaterOrEqual(target);
    }

    method SeekToFirst()
      requires list.Valid()
      modifies this
      ensures IsNext(list.Keys(), Head, node)
    {
      Follow(list.next, list.levels, 0, Head);
      node := list.next[0][Head];
    }

    method SeekToLast()
      requires list.Valid()
      modifies this
      ensures !node.Head? && (node.Null? ==> list.Keys() == {})
      ensures node.At? ==> node.key in list.Keys() && forall k | k in list.Keys() :: k <= node.key
    {
      node := list.FindLast();
      if node.Head? {
        ghost var keys := list.Keys();
        assert forall k | k in keys :: k !in keys;
        node := Null;
      }
    }
  }

  /** Stepping back from the node that a step forward led to returns to where it started. */
  lemma PrevUndoesNext(s: set<Key>, a: Place, b: Place, p: Place)
    requires a.At? && a.key in s && IsNext(s, a, b) && b.At? && IsPrev(s, b.key, p)
    ensures p == a
  {
  }
}
