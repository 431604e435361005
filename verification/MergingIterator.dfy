/** Merging several sorted iterators into one cursor on their union. */
module MergingIterator {
  import opened Bytes
  import opened Entries
  import opened EntryCursor

  datatype Direction = Forward | Reverse

  /** The lists are sorted and no key occurs in two of them. */
  ghost predicate Mergeable(lists: seq<seq<Entry>>) {
    && (forall i | 0 <= i < |lists| :: KeyOrder(lists[i]))
    && forall i, j, a, b | 0 <= i < |lists| && 0 <= j < |lists| && i != j
         && 0 <= a < |lists[i]| && 0 <= b < |lists[j]| :: !SameKey(lists[i][a].key, lists[j][b].key)
  }

  ghost predicate Positions(lists: seq<seq<Entry>>, pos: seq<nat>) {
    |pos| == |lists| && forall i | 0 <= i < |lists| :: pos[i] <= |lists[i]|
  }

  /** All children but `c` stand at their first entry in the limit. */
  ghost predicate AllFirst(lists: seq<seq<Entry>>, pos: seq<nat>, limit: Limit, c: int) {
    |pos| == |lists| && forall i | 0 <= i < |lists| && i != c :: FirstIn(lists[i], limit, pos[i])
  }

  ghost predicate AllLast(lists: seq<seq<Entry>>, pos: seq<nat>, limit: Limit, c: int) {
    |pos| == |lists| && forall i | 0 <= i < |lists| && i != c :: LastIn(lists[i], limit, pos[i])
  }

  /** `c` is a valid child with the smallest key among the valid ones. */
  ghost predicate Smallest(lists: seq<seq<Entry>>, pos: seq<nat>, c: Option<nat>) {
    && |pos| == |lists| && (c.Some? ==> c.value < |lists| && pos[c.value] < |lists[c.value]|)
    && forall i | 0 <= i < |lists| && pos[i] < |lists[i]| ::
         c.Some? && !Precedes(lists[i][pos[i]].key, lists[c.value][pos[c.value]].key)
  }

  ghost predicate Largest(lists: seq<seq<Entry>>, pos: seq<nat>, c: Option<nat>) {
    && |pos| == |lists| && (c.Some? ==> c.value < |lists| && pos[c.value] < |lists[c.value]|)
    && forall i | 0 <= i < |lists| && pos[i] < |lists[i]| ::
         c.Some? && !Precedes(lists[c.value][pos[c.value]].key, lists[i][pos[i]].key)
  }

  ghost function EntryAt(lists: seq<seq<Entry>>, pos: seq<nat>, c: Option<nat>): Option<Entry>
    requires |pos| == |lists| && (c.Some? ==> c.value < |lists| && pos[c.value] < |lists[c.value]|)
  {
    if c.Some? then Some(lists[c.value][pos[c.value]]) else None
  }

  /** The smallest child is the least entry of the union within the limit. */
  lemma SmallestIsLeast(lists: seq<seq<Entry>>, pos: seq<nat>, limit: Limit, c: Option<nat>)
    requires Mergeable(lists) && AllFirst(lists, pos, limit, -1) && Smallest(lists, pos, c)
    ensures LeastIn(Union(lists), limit, EntryAt(lists, pos, c))
  {
    hide In, Precedes, SameKey;
    if c.Some? {
      assert lists[c.value][pos[c.value]] in lists[c.value];
    }
    forall e | e in Union(lists) && In(limit, e.key)
      ensures c.Some? && (e == EntryAt(lists, pos, c).value || Precedes(EntryAt(lists, pos, c).value.key, e.key))
    {
      var i, j := InUnion(lists, e);
      assert pos[i] <= j;
      var least, here := lists[c.value][pos[c.value]], lists[i][pos[i]];
      assert j > pos[i] ==> Precedes(here.key, e.key);
      if i != c.value {
        assert !SameKey(here.key, least.key);
        Ordered(here.key, least.key, e.key);
        Ordered(least.key, here.key, e.key);
      }
    }
  }

  lemma LargestIsGreatest(lists: seq<seq<Entry>>, pos: seq<nat>, limit: Limit, c: Option<nat>)
    requires Mergeable(lists) && AllLast(lists, pos, limit, -1) && Largest(lists, pos, c)
    ensures GreatestIn(Union(lists), limit, EntryAt(lists, pos, c))
  {
    hide In, Precedes, SameKey;
    if c.Some? {
      assert lists[c.value][pos[c.value]] in lists[c.value];
    }
    forall e | e in Union(lists) && In(limit, e.key)
      ensures c.Some? && (e == EntryAt(lists, pos, c).value || Precedes(e.key, EntryAt(lists, pos, c).value.key))
    {
      var i, j := InUnion(lists, e);
      assert j <= pos[i] < |lists[i]|;
      var greatest, here := lists[c.value][pos[c.value]], lists[i][pos[i]];
      assert j < pos[i] ==> Precedes(e.key, here.key);
      if i != c.value {
        assert !SameKey(greatest.key, here.key);
        Ordered(greatest.key, here.key, e.key);
        Ordered(e.key, here.key, greatest.key);
      }
    }
  }

  /** What the direction means for the children that are not current. */
  ghost predicate Aligned(lists: seq<seq<Entry>>, pos: seq<nat>, c: Option<nat>, direction: Direction) {
    && Positions(lists, pos)
    && (c.Some? ==>
          && c.value < |lists| && pos[c.value] < |lists[c.value]|
          && var k := lists[c.value][pos[c.value]].key;
             if direction.Forward? then AllFirst(lists, pos, Beyond(k), c.value)
             else AllLast(lists, pos, Below(k), c.value))
  }

  /** After choosing the smallest, everyone else stands beyond it. */
  lemma AlignedForward(lists: seq<seq<Entry>>, pos: seq<nat>, limit: Limit, c: Option<nat>)
    requires Mergeable(lists) && AllFirst(lists, pos, limit, -1) && Smallest(lists, pos, c) && !limit.Below?
    ensures Aligned(lists, pos, c, Forward)
  {
    hide Precedes, SameKey;
    if c.Some? {
      var k := lists[c.value][pos[c.value]].key;
      forall i | 0 <= i < |lists| && i != c.value ensures FirstIn(lists[i], Beyond(k), pos[i]) {
        BeyondSmallest(lists, pos, limit, c.value, i);
      }
    }
  }

  lemma BeyondSmallest(lists: seq<seq<Entry>>, pos: seq<nat>, limit: Limit, c: nat, i: nat)
    requires Mergeable(lists) && AllFirst(lists, pos, limit, -1) && Smallest(lists, pos, Some(c)) && !limit.Below?
    requires i < |lists| && i != c
    ensures FirstIn(lists[i], Beyond(lists[c][pos[c]].key), pos[i])
  {
    hide Precedes, SameKey;
    var es, least := lists[i], lists[c][pos[c]].key;
    assert In(limit, least);
    forall j | 0 <= j < pos[i] ensures !Precedes(least, es[j].key) {
      if Precedes(least, es[j].key) {
        Upward(limit, least, es[j].key);
      }
    }
    forall j | pos[i] <= j < |es| ensures Precedes(least, es[j].key) {
      assert !SameKey(es[pos[i]].key, least);
      Ordered(es[pos[i]].key, least, es[j].key);
      Ordered(least, es[pos[i]].key, es[j].key);
      assert j > pos[i] ==> Precedes(es[pos[i]].key, es[j].key);
    }
  }

  lemma Upward(limit: Limit, a: InternalKey, b: InternalKey)
    requires !limit.Below? && In(limit, a) && Precedes(a, b)
    ensures In(limit, b)
  {
  }

  lemma AlignedReverse(lists: seq<seq<Entry>>, pos: seq<nat>, limit: Limit, c: Option<nat>)
    requires Mergeable(lists) && AllLast(lists, pos, limit, -1) && Largest(lists, pos, c)
    requires limit.Any? || limit.Below?
    ensures Aligned(lists, pos, c, Reverse)
  {
    hide Precedes, SameKey;
    if c.Some? {
      var k := lists[c.value][pos[c.value]].key;
      forall i | 0 <= i < |lists| && i != c.value ensures LastIn(lists[i], Below(k), pos[i]) {
        BelowLargest(lists, pos, limit, c.value, i);
      }
    }
  }

  lemma BelowLargest(lists: seq<seq<Entry>>, pos: seq<nat>, limit: Limit, c: nat, i: nat)
    requires Mergeable(lists) && AllLast(lists, pos, limit, -1) && Largest(lists, pos, Some(c))
    requires limit.Any? || limit.Below?
    requires i < |lists| && i != c
    ensures LastIn(lists[i], Below(lists[c][pos[c]].key), pos[i])
  {
    hide Precedes, SameKey;
    var es, greatest := lists[i], lists[c][pos[c]].key;
    assert In(limit, greatest);
    forall j | 0 <= j < |es| && (pos[i] == |es| || j > pos[i]) ensures !Precedes(es[j].key, greatest) {
      if Precedes(es[j].key, greatest) {
        Downward(limit, greatest, es[j].key);
      }
    }
    forall j | 0 <= j <= pos[i] < |es| ensures Precedes(es[j].key, greatest) {
      assert !SameKey(greatest, es[pos[i]].key);
      Ordered(greatest, es[pos[i]].key, es[j].key);
      Ordered(es[j].key, es[pos[i]].key, greatest);
      assert j < pos[i] ==> Precedes(es[j].key, es[pos[i]].key);
    }
  }

  lemma Downward(limit: Limit, a: InternalKey, b: InternalKey)
    requires (limit.Any? || limit.Below?) && In(limit, a) && Precedes(b, a)
    ensures In(limit, b)
  {
  }

  class MergingIterator {
    const children: seq<seq<Entry>>
    var pos: seq<nat>
    var current: Option<nat>
    var direction: Direction

    ghost predicate Inv()
      reads this
    {
      Mergeable(children) && Aligned(children, pos, current, direction)
    }

    ghost function All(): set<Entry> {
      Union(children)
    }

    /** The entry that key() and value() show. */
    ghost function Cursor(): Option<Entry>
      requires Inv()
      reads this
    {
      EntryAt(children, pos, current)
    }

    constructor (children: seq<seq<Entry>>)
      requires Mergeable(children)
      ensures Inv() && Cursor() == None && this.children == children
    {
      this.children := children;
      pos := seq(|children|, i requires 0 <= i < |children| => |children[i]|);
      current, direction := None, Forward;
    }

    predicate Valid()
      reads this
    {
      current.Some?
    }

    method FindSmallest()
      requires Positions(children, pos)
      modifies this`current
      ensures Smallest(children, pos, current)
    {
      var smallest: Option<nat> := None;
      for i := 0 to |children|
        invariant smallest.Some? ==> smallest.value < |children| && pos[smallest.value] < |children[smallest.value]|
        invariant forall j | 0 <= j < i && pos[j] < |children[j]| ::
          smallest.Some? && !Precedes(children[j][pos[j]].key, children[smallest.value][pos[smallest.value]].key)
      {
        if pos[i] < |children[i]| {
          if smallest == None || Precedes(children[i][pos[i]].key, children[smallest.value][pos[smallest.value]].key) {
            smallest := Some(i);
          }
        }
      }
      current := smallest;
    }

    method FindLargest()
      requires Positions(children, pos)
      modifies this`current
      ensures Largest(children, pos, current)
    {
      var largest: Option<nat> := None;
      for i := |children| downto 0
        invariant largest.Some? ==> largest.value < |children| && pos[largest.value] < |children[largest.value]|
        invariant forall j | i <= j < |children| && pos[j] < |children[j]| ::
          largest.Some? && !Precedes(children[largest.value][pos[largest.value]].key, children[j][pos[j]].key)
      {
        if pos[i] < |children[i]| {
          if largest == None || Precedes(children[largest.value][pos[largest.value]].key, children[i][pos[i]].key) {
            largest := Some(i);
          }
        }
      }
      current := largest;
    }

    method SeekToFirst()
      requires Inv()
      modifies this
      ensures Inv() && LeastIn(All(), Any, Cursor())
    {
      for i := 0 to |children|
        invariant Positions(children, pos) && forall j | 0 <= j < i :: FirstIn(children[j], Any, pos[j])
      {
        pos := pos[i := 0];
      }
      FindSmallest();
      SmallestIsLeast(children, pos, Any, current);
      AlignedForward(children, pos, Any, current);
      direction := Forward;
    }

    method SeekToLast()
      requires Inv()
      modifies this
      ensures Inv() && GreatestIn(All(), Any, Cursor())
    {
      for i := 0 to |children|
        invariant Positions(children, pos) && forall j | 0 <= j < i :: LastIn(children[j], Any, pos[j])
      {
        pos := pos[i := LastOf(children[i])];
      }
      FindLargest();
      LargestIsGreatest(children, pos, Any, current);
      AlignedReverse(children, pos, Any, current);
      direction := Reverse;
    }

    method Seek(target: InternalKey)
      requires Inv()
      modifies this
      ensures Inv() && LeastIn(All(), NotBefore(target), Cursor())
    {
      for i := 0 to |children|
        invariant Positions(children, pos)
        invariant forall j | 0 <= j < i :: FirstIn(children[j], NotBefore(target), pos[j])
      {
        var p := SeekIn(children[i], target);
        pos := pos[i := p];
      }
      FindSmallest();
      SmallestIsLeast(children, pos, NotBefore(target), current);
      AlignedForward(children, pos, NotBefore(target), current);
      direction := Forward;
    }

    /** Puts every child but the current one beyond the current key. */
    method TurnForward()
      requires Inv() && Valid()
      modifies this`pos, this`direction
      ensures Inv() && direction.Forward? && Cursor() == old(Cursor())
    {
      var c := current.value;
      var key := children[c][pos[c]].key;
      for i := 0 to |children|
        invariant Positions(children, pos) && pos[c] == old(pos[c])
        invariant forall j | 0 <= j < i && j != c :: FirstIn(children[j], Beyond(key), pos[j])
      {
        if i != c {
          var p := SeekIn(children[i], key);
          BeyondIsNext(children[i], key, p);
          if p < |children[i]| && !Precedes(key, children[i][p].key) {
            p := p + 1;
          }
          pos := pos[i := p];
        }
      }
      direction := Forward;
    }

    method TurnReverse()
      requires Inv() && Valid()
      modifies this`pos, this`direction
      ensures Inv() && direction.Reverse? && Cursor() == old(Cursor())
    {
      var c := current.value;
      var key := children[c][pos[c]].key;
      for i := 0 to |children|
        invariant Positions(children, pos) && pos[c] == old(pos[c])
        invariant forall j | 0 <= j < i && j != c :: LastIn(children[j], Below(key), pos[j])
      {
        if i != c {
          var p := SeekIn(children[i], key);
          BelowIsBefore(children[i], key, p);
          if p < |children[i]| {
            p := StepBack(children[i], p);
          } else {
            p := LastOf(children[i]);
          }
          pos := pos[i := p];
        }
      }
      direction := Reverse;
    }

    method Next()
      requires Inv() && Valid()
      modifies this
      ensures Inv() && LeastIn(All(), Beyond(old(Cursor()).value.key), Cursor())
    {
      if direction.Reverse? {
        TurnForward();
      }
      var c := current.value;
      ghost var limit := Beyond(children[c][pos[c]].key);
      pos := pos[c := pos[c] + 1];
      FindSmallest();
      SmallestIsLeast(children, pos, limit, current);
      AlignedForward(children, pos, limit, current);
    }

    method Prev()
      requires Inv() && Valid()
      modifies this
      ensures Inv() && GreatestIn(All(), Below(old(Cursor()).value.key), Cursor())
    {
      if direction.Forward? {
        TurnReverse();
      }
      var c := current.value;
      ghost var limit := Below(children[c][pos[c]].key);
      pos := pos[c := StepBack(children[c], pos[c])];
      FindLargest();
      LargestIsGreatest(children, pos, limit, current);
      AlignedReverse(children, pos, limit, current);
    }

    /** Any run of client calls shows what the reference cursor on the union shows. */
    method Run(ops: seq<Op>) returns (shown: seq<Option<Entry>>, ghost at: seq<Option<Entry>>)
      requires Inv() && Cursor() == None
      modifies this
      ensures Runs(All(), ops, at) && shown == at[1..]
    {
      hide Inv, Union, Moves;
      shown, at := [], [None];
      for i := 0 to |ops|
        invariant Inv() && |at| == i + 1 && Runs(All(), ops[..i], at) && at[i] == Cursor() && shown == at[1..]
      {
        var now := Step(ops[i]);
        RunsOn(All(), ops, i, at, now);
        at := at + [now];
        shown := shown + [now];
      }
      assert ops[..|ops|] == ops;
    }

    method Step(op: Op) returns (now: Option<Entry>)
      requires Inv()
      modifies this
      ensures Inv() && now == Cursor() && Moves(All(), old(Cursor()), op, now)
    {
      hide LeastIn, GreatestIn, Mergeable, Union;
      match op {
        case SeekToFirst => SeekToFirst();
        case SeekToLast => SeekToLast();
        case Seek(target) => Seek(target);
        case Next => if Valid() { Next(); }
        case Prev => if Valid() { Prev(); }
      }
      now := if current.Some? then Some(children[current.value][pos[current.value]]) else None;
    }
  }

  lemma BeyondIsNext(es: seq<Entry>, key: InternalKey, p: nat)
    requires KeyOrder(es) && FirstIn(es, NotBefore(key), p)
    ensures FirstIn(es, Beyond(key), if p < |es| && !Precedes(key, es[p].key) then p + 1 else p)
  {
    forall j | p < j < |es| ensures Precedes(key, es[j].key) {
      assert Precedes(es[p].key, es[j].key);
      Ordered(key, es[p].key, es[j].key);
    }
  }

  lemma BelowIsBefore(es: seq<Entry>, key: InternalKey, p: nat)
    requires FirstIn(es, NotBefore(key), p)
    ensures LastIn(es, Below(key), if p < |es| then StepBack(es, p) else LastOf(es))
  {
  }
}
