/** The reference for iteration: a cursor on an ordered map. */
module Cursor {
  import opened Bytes
  import opened Entries

  /** What a reader at snapshot `s` sees: each key with a newest entry that is not a deletion. */
  ghost function View(es: set<Entry>, s: SequenceNumber): map<UserKey, Value> {
    map k | k in (set e | e in es :: e.key.user) && Visible(Lookup(es, k, s)).Some? ::
      Visible(Lookup(es, k, s)).value
  }

  datatype Bound = Unbounded | From(key: UserKey) | After(key: UserKey) | Before(key: UserKey)

  predicate Within(b: Bound, k: UserKey) {
    match b
    case Unbounded => true
    case From(t) => k >= t
    case After(t) => k > t
    case Before(t) => k < t
  }

  /** `r` is the least key of the map within the bound, if there is one. */
  ghost predicate IsLeast(view: map<UserKey, Value>, b: Bound, r: Option<UserKey>) {
    match r
    case None => forall k | k in view :: !Within(b, k)
    case Some(k) => k in view && Within(b, k) && forall o | o in view && Within(b, o) :: k <= o
  }

  ghost predicate IsGreatest(view: map<UserKey, Value>, b: Bound, r: Option<UserKey>) {
    match r
    case None => forall k | k in view :: !Within(b, k)
    case Some(k) => k in view && Within(b, k) && forall o | o in view && Within(b, o) :: o <= k
  }

  datatype Op = SeekToFirst | SeekToLast | Seek(target: UserKey) | Next | Prev

  /** One step of the reference cursor; Next and Prev need a valid cursor. */
  ghost predicate Moves(view: map<UserKey, Value>, from: Option<UserKey>, op: Op, to: Option<UserKey>) {
    match op
    case SeekToFirst => IsLeast(view, Unbounded, to)
    case SeekToLast => IsGreatest(view, Unbounded, to)
    case Seek(t) => IsLeast(view, From(t), to)
    case Next => if from.Some? then IsLeast(view, After(from.value), to) else to == None
    case Prev => if from.Some? then IsGreatest(view, Before(from.value), to) else to == None
  }

  /** The reference cursor is deterministic, so refining it step by step fixes every answer. */
  lemma MovesUnique(view: map<UserKey, Value>, from: Option<UserKey>, op: Op, a: Option<UserKey>, b: Option<UserKey>)
    requires Moves(view, from, op, a) && Moves(view, from, op, b)
    ensures a == b
  {
  }

  /** Positions of the reference cursor over a whole run. */
  ghost predicate Runs(view: map<UserKey, Value>, ops: seq<Op>, cursors: seq<Option<UserKey>>) {
    && |cursors| == |ops| + 1 && cursors[0] == None
    && forall i | 0 <= i < |ops| :: Moves(view, cursors[i], ops[i], cursors[i + 1])
  }

  lemma {:induction false} RunsUnique(view: map<UserKey, Value>, ops: seq<Op>, a: seq<Option<UserKey>>, b: seq<Option<UserKey>>)
    requires Runs(view, ops, a) && Runs(view, ops, b)
    ensures a == b
  {
    if ops != [] {
      var n := |ops|;
      RunsUnique(view, ops[..n - 1], a[..n], b[..n]);
      assert a[n - 1] == a[..n][n - 1] == b[..n][n - 1] == b[n - 1];
      MovesUnique(view, a[n - 1], ops[n - 1], a[n], b[n]);
      assert a == a[..n] + [a[n]] && b == b[..n] + [b[n]];
    }
  }

  lemma RunsOn(view: map<UserKey, Value>, ops: seq<Op>, i: nat, cursors: seq<Option<UserKey>>, to: Option<UserKey>)
    requires i < |ops| && Runs(view, ops[..i], cursors) && Moves(view, cursors[i], ops[i], to)
    ensures Runs(view, ops[..i + 1], cursors + [to])
  {
    forall j | 0 <= j < i + 1 ensures Moves(view, (cursors + [to])[j], ops[..i + 1][j], (cursors + [to])[j + 1]) {
      if j < i {
        assert Moves(view, cursors[j], ops[..i][j], cursors[j + 1]);
      }
    }
  }

  /** What a client reads at a cursor position. */
  ghost function ReadAt(view: map<UserKey, Value>, at: Option<UserKey>): Option<(UserKey, Value)> {
    if at.Some? && at.value in view then Some((at.value, view[at.value])) else None
  }
}
