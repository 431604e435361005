/** The reference for internal iterators: a cursor on a set of entries in key order. */
module EntryCursor {
  import opened Bytes
  import opened Entries

  datatype Limit = Any | NotBefore(key: InternalKey) | Beyond(key: InternalKey) | Below(key: InternalKey)

  predicate In(limit: Limit, k: InternalKey) {
    match limit
    case Any => true
    case NotBefore(key) => !Precedes(k, key)
    case Beyond(key) => Precedes(key, k)
    case Below(key) => Precedes(k, key)
  }

  predicate SameKey(a: InternalKey, b: InternalKey) {
    a.user == b.user && a.Tag() == b.Tag()
  }

  /** Strictly increasing keys. */
  ghost predicate KeyOrder(es: seq<Entry>) {
    forall i, j | 0 <= i < j < |es| :: Precedes(es[i].key, es[j].key)
  }

  ghost predicate LeastIn(all: set<Entry>, limit: Limit, r: Option<Entry>) {
    match r
    case None => forall e | e in all :: !In(limit, e.key)
    case Some(e) => e in all && In(limit, e.key) && forall o | o in all && In(limit, o.key) :: o == e || Precedes(e.key, o.key)
  }

  ghost predicate GreatestIn(all: set<Entry>, limit: Limit, r: Option<Entry>) {
    match r
    case None => forall e | e in all :: !In(limit, e.key)
    case Some(e) => e in all && In(limit, e.key) && forall o | o in all && In(limit, o.key) :: o == e || Precedes(o.key, e.key)
  }

  datatype Op = SeekToFirst | SeekToLast | Seek(target: InternalKey) | Next | Prev

  /** One step of the reference cursor. */
  ghost predicate Moves(all: set<Entry>, from: Option<Entry>, op: Op, to: Option<Entry>) {
    match op
    case SeekToFirst => LeastIn(all, Any, to)
    case SeekToLast => GreatestIn(all, Any, to)
    case Seek(target) => LeastIn(all, NotBefore(target), to)
    case Next => if from.Some? then LeastIn(all, Beyond(from.value.key), to) else to == None
    case Prev => if from.Some? then GreatestIn(all, Below(from.value.key), to) else to == None
  }

  lemma MovesUnique(all: set<Entry>, from: Option<Entry>, op: Op, a: Option<Entry>, b: Option<Entry>)
    requires Moves(all, from, op, a) && Moves(all, from, op, b)
    ensures a == b
  {
  }

  /** Next and Prev undo each other in the interior of the set. */
  lemma PrevUndoesNext(all: set<Entry>, a: Entry, b: Entry, c: Option<Entry>)
    requires a in all && Moves(all, Some(a), Next, Some(b)) && Moves(all, Some(b), Prev, c)
    requires forall x, y | x in all && y in all && SameKey(x.key, y.key) :: x == y
    ensures c == Some(a)
  {
    assert In(Below(b.key), a.key);
  }

  ghost predicate Runs(all: set<Entry>, ops: seq<Op>, at: seq<Option<Entry>>) {
    && |at| == |ops| + 1 && at[0] == None
    && forall i | 0 <= i < |ops| :: Moves(all, at[i], ops[i], at[i + 1])
  }

  lemma RunsOn(all: set<Entry>, ops: seq<Op>, i: nat, at: seq<Option<Entry>>, to: Option<Entry>)
    requires i < |ops| && Runs(all, ops[..i], at) && Moves(all, at[i], ops[i], to)
    ensures Runs(all, ops[..i + 1], at + [to])
  {
    forall j | 0 <= j < i + 1 ensures Moves(all, (at + [to])[j], ops[..i + 1][j], (at + [to])[j + 1]) {
      if j < i {
        assert Moves(all, at[j], ops[..i][j], at[j + 1]);
      }
    }
  }

  // ---- One child on a fixed sorted list; a position of |es| means not valid

  /** First index within an upward-closed limit. */
  ghost predicate FirstIn(es: seq<Entry>, limit: Limit, p: nat) {
    && p <= |es| && (forall j | 0 <= j < p :: !In(limit, es[j].key))
    && forall j | p <= j < |es| :: In(limit, es[j].key)
  }

  /** Last index within a downward-closed limit. */
  ghost predicate LastIn(es: seq<Entry>, limit: Limit, p: nat) {
    && p <= |es|
    && (p == |es| ==> forall j | 0 <= j < |es| :: !In(limit, es[j].key))
    && (p < |es| ==> (forall j | 0 <= j <= p :: In(limit, es[j].key)) && forall j | p < j < |es| :: !In(limit, es[j].key))
  }

  /** First entry at or after the target. */
  method SeekIn(es: seq<Entry>, target: InternalKey) returns (p: nat)
    requires KeyOrder(es)
    ensures FirstIn(es, NotBefore(target), p)
  {
    p := 0;
    while p < |es| && Precedes(es[p].key, target)
      invariant p <= |es| && forall j | 0 <= j < p :: Precedes(es[j].key, target)
    {
      p := p + 1;
    }
  }

  function StepBack(es: seq<Entry>, p: nat): (q: nat)
    requires p < |es|
    ensures q <= |es|
  {
    if p == 0 then |es| else p - 1
  }

  function LastOf(es: seq<Entry>): (q: nat)
    ensures q <= |es|
  {
    if es == [] then 0 else |es| - 1
  }

  // ---- Several lists

  ghost function Union(lists: seq<seq<Entry>>): set<Entry> {
    set i, e | 0 <= i < |lists| && e in lists[i] :: e
  }

  lemma InUnion(lists: seq<seq<Entry>>, e: Entry) returns (i: nat, j: nat)
    requires e in Union(lists)
    ensures i < |lists| && j < |lists[i]| && lists[i][j] == e
  {
    i :| 0 <= i < |lists| && e in lists[i];
    j :| 0 <= j < |lists[i]| && lists[i][j] == e;
  }

  lemma Ordered(a: InternalKey, b: InternalKey, c: InternalKey)
    ensures !Precedes(a, b) && !SameKey(a, b) ==> Precedes(b, a)
    ensures Precedes(a, b) && Precedes(b, c) ==> Precedes(a, c)
    ensures Precedes(a, b) && !Precedes(c, b) ==> Precedes(a, c)
    ensures !Precedes(b, a) && Precedes(b, c) ==> Precedes(a, c)
  {
  }
}
