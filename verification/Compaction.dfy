/** Compaction of one level into the next: the loop that drops entries, and the proof that no
    reader whose snapshot is at or above the oldest one can tell. */
module Compaction {
  import opened Bytes
  import opened Entries

  const NUM_LEVELS: nat := 7
  const TARGET_FILE_SIZE: nat := 2 * 1048576
  const MAX_GRANDPARENT_OVERLAP_BYTES: nat := 10 * TARGET_FILE_SIZE

  /** The encoded size of a table with these entries. */
  type Sizer = seq<Entry> -> nat

  /** A file's metadata together with the contents of the table it names. */
  datatype Table = Table(number: nat, fileSize: nat,
                         smallest: InternalKey, largest: InternalKey, entries: seq<Entry>) {
    ghost predicate WellFormed() {
      && entries != [] && Sorted(entries)
      && smallest == entries[0].key && largest == entries[|entries| - 1].key
    }

    predicate Spans(k: UserKey) {
      smallest.user <= k <= largest.user
    }
  }

  /** Files of one level above 0, in key order.  Neighbours may meet in one user key. */
  ghost predicate InKeyOrder(files: seq<Table>) {
    && (forall f | f in files :: f.WellFormed())
    && forall i, j | 0 <= i < j < |files| :: files[i].largest.user <= files[j].smallest.user
  }

  ghost function EntriesOf(tables: set<Table>): set<Entry> {
    set t, e | t in tables && e in t.entries :: e
  }

  /** An output table under construction, with the bounds recorded while adding. */
  datatype Output = Output(smallest: InternalKey, largest: InternalKey, entries: seq<Entry>)

  ghost predicate OutputWellFormed(o: Output) {
    && o.entries != []
    && o.smallest == o.entries[0].key && o.largest == o.entries[|o.entries| - 1].key
  }

  function Flatten(outputs: seq<Output>): seq<Entry> {
    if outputs == [] then []
    else Flatten(outputs[..|outputs| - 1]) + outputs[|outputs| - 1].entries
  }

  /** Rule (A): hidden by a newer entry that every live reader can already see. */
  ghost predicate Shadowed(input: seq<Entry>, i: nat, snapshot: SequenceNumber)
    requires i < |input|
  {
    exists j | 0 <= j < i ::
      input[j].key.user == input[i].key.user && input[j].key.sequence <= snapshot
  }

  /** Nothing deeper than the output level could hold an older entry of `k`. */
  ghost predicate IsBase(files: seq<seq<Table>>, level: nat, k: UserKey) {
    forall l, i | level + 2 <= l < |files| && 0 <= i < |files[l]| :: !files[l][i].Spans(k)
  }

  /** A deletion with nothing left to delete. */
  ghost predicate ObsoleteDeletion(files: seq<seq<Table>>, level: nat, e: Entry, snapshot: SequenceNumber) {
    e.key.kind.Deletion? && e.key.sequence <= snapshot && IsBase(files, level, e.key.user)
  }

  ghost predicate Kept(files: seq<seq<Table>>, level: nat, input: seq<Entry>, i: nat, snapshot: SequenceNumber)
    requires i < |input|
  {
    !Shadowed(input, i, snapshot) && !ObsoleteDeletion(files, level, input[i], snapshot)
  }

  /** The entries among the first `n` that compaction keeps, in order. */
  ghost function Survivors(files: seq<seq<Table>>, level: nat, input: seq<Entry>, n: nat,
                           snapshot: SequenceNumber): seq<Entry>
    requires n <= |input|
  {
    if n == 0 then []
    else
      Survivors(files, level, input, n - 1, snapshot)
      + if Kept(files, level, input, n - 1, snapshot) then [input[n - 1]] else []
  }

  // ---- Grandparents: the files that an output overlaps one level further down

  function TotalSize(files: seq<Table>): nat {
    if files == [] then 0 else TotalSize(files[..|files| - 1]) + files[|files| - 1].fileSize
  }

  /** Every file ends before the next begins. */
  ghost predicate InStrictOrder(files: seq<Table>) {
    && (forall i | 0 <= i < |files| :: !Precedes(files[i].largest, files[i].smallest))
    && forall i, j | 0 <= i < j < |files| :: Precedes(files[i].largest, files[j].smallest)
  }

  ghost predicate Meets(t: Table, o: Output) {
    !Precedes(t.largest, o.smallest) && !Precedes(o.largest, t.smallest)
  }

  /** Of the grandparents that the output overlaps, all but the last have together at most the limit. */
  ghost predicate Bounded(grandparents: seq<Table>, o: Output) {
    InStrictOrder(grandparents) ==>
      exists a, b :: 0 <= a <= b <= |grandparents| && TotalSize(grandparents[a..b]) <= MAX_GRANDPARENT_OVERLAP_BYTES
        && forall i | 0 <= i < |grandparents| && Meets(grandparents[i], o) :: a <= i <= b
  }

  /** The first `n` grandparents end before `k`. */
  ghost predicate EndBefore(grandparents: seq<Table>, n: nat, k: InternalKey) {
    n <= |grandparents| && forall i | 0 <= i < n :: Precedes(grandparents[i].largest, k)
  }

  /** An output from `smallest` to `largest` is bounded, if not too much was passed in between. */
  lemma PassedBounds(grandparents: seq<Table>, a: nat, b: nat, o: Output)
    requires a <= b <= |grandparents| && EndBefore(grandparents, a, o.smallest)
    requires b < |grandparents| ==> !Precedes(grandparents[b].largest, o.largest)
    requires TotalSize(grandparents[a..b]) <= MAX_GRANDPARENT_OVERLAP_BYTES
    ensures Bounded(grandparents, o)
  {
    if InStrictOrder(grandparents) {
      forall i | b < i < |grandparents| ensures !Meets(grandparents[i], o) {
        assert Precedes(grandparents[b].largest, grandparents[i].smallest);
      }
    }
  }

  /** The first grandparent from `i` on that does not end before `k`. */
  function Reach(grandparents: seq<Table>, i: nat, k: InternalKey): (r: nat)
    requires i <= |grandparents|
    ensures i <= r <= |grandparents|
    decreases |grandparents| - i
  {
    if i < |grandparents| && Precedes(grandparents[i].largest, k) then Reach(grandparents, i + 1, k) else i
  }

  /** After the first `n` keys: the grandparent reached, and the one from which on bytes count.  Counting
      starts at the first key, and again at each key where the bytes passed are too many. */
  ghost function Counting(grandparents: seq<Table>, input: seq<Entry>, n: nat): (r: (nat, nat))
    requires n <= |input|
    ensures r.1 <= r.0 <= |grandparents|
  {
    if n == 0 then (0, 0)
    else
      var before := Counting(grandparents, input, n - 1);
      var to := Reach(grandparents, before.0, input[n - 1].key);
      (to, if n == 1 || TotalSize(grandparents[before.1..to]) > MAX_GRANDPARENT_OVERLAP_BYTES then to else before.1)
  }

  /** The output under construction has to end before the `n`-th key, for the grandparents passed. */
  ghost predicate CutsAt(grandparents: seq<Table>, input: seq<Entry>, n: nat)
    requires n < |input|
  {
    var (at, since) := Counting(grandparents, input, n);
    n > 0 && TotalSize(grandparents[since..Reach(grandparents, at, input[n].key)]) > MAX_GRANDPARENT_OVERLAP_BYTES
  }

  class Compaction {
    const level: nat
    const files: seq<seq<Table>>      // input_version_->files_
    const grandparents: seq<Table>
    var levelPtrs: seq<nat>
    var grandparentIndex: nat
    var seenKey: bool
    var overlappedBytes: nat
    ghost var since: nat              // first grandparent that counts for the output under construction

    ghost predicate Valid()
      reads this
    {
      && |files| == NUM_LEVELS && level + 1 < NUM_LEVELS
      && |levelPtrs| == NUM_LEVELS
      && (forall l | 0 < l < NUM_LEVELS :: InKeyOrder(files[l]))
      && (forall l | 0 <= l < NUM_LEVELS :: levelPtrs[l] <= |files[l]|)
    }

    /** The cursors have passed no file yet. */
    ghost predicate NothingPassed()
      requires Valid()
      reads this
    {
      Counted() && grandparentIndex == 0 && !seenKey && forall k :: PassedBefore(k)
    }

    /** The bytes counted are those of the grandparents passed since the output began. */
    ghost predicate Counted()
      reads this`grandparentIndex, this`seenKey, this`overlappedBytes, this`since
    {
      && since <= grandparentIndex <= |grandparents| && (!seenKey ==> since == grandparentIndex)
      && overlappedBytes == TotalSize(grandparents[since..grandparentIndex]) <= MAX_GRANDPARENT_OVERLAP_BYTES
    }

    /** Every file a cursor has passed ends before `k`. */
    ghost predicate PassedBefore(k: UserKey)
      requires Valid()
      reads this
    {
      forall l, i | 0 <= l < NUM_LEVELS && 0 <= i < levelPtrs[l] :: files[l][i].largest.user < k
    }

    constructor (level: nat, files: seq<seq<Table>>, grandparents: seq<Table>)
      requires |files| == NUM_LEVELS && level + 1 < NUM_LEVELS
      requires forall l | 0 < l < NUM_LEVELS :: InKeyOrder(files[l])
      ensures Valid() && NothingPassed()
      ensures this.level == level && this.files == files && this.grandparents == grandparents
    {
      this.level, this.files, this.grandparents := level, files, grandparents;
      levelPtrs := seq(NUM_LEVELS, _ => 0);
      grandparentIndex, seenKey, overlappedBytes, since := 0, false, 0, 0;
    }

    /** The cursors only move forward, yet for keys that never decrease the answer is that of
        a fresh search of all the deeper levels. */
    method IsBaseLevelForKey(k: UserKey) returns (base: bool)
      requires Valid() && PassedBefore(k)
      modifies this`levelPtrs
      ensures Valid() && PassedBefore(k)
      ensures base <==> IsBase(files, level, k)
    {
      for l := level + 2 to NUM_LEVELS
        invariant Valid() && PassedBefore(k)
        invariant forall m, i | level + 2 <= m < l && 0 <= i < |files[m]| :: !files[m][i].Spans(k)
      {
        while levelPtrs[l] < |files[l]|
          invariant Valid() && PassedBefore(k)
          decreases |files[l]| - levelPtrs[l]
        {
          var f := files[l][levelPtrs[l]];
          if k <= f.largest.user {
            if k >= f.smallest.user {
              return false;
            }
            assert f.smallest.user > k;
            break;
          }
          levelPtrs := levelPtrs[l := levelPtrs[l] + 1];
        }
        forall i | 0 <= i < |files[l]| ensures !files[l][i].Spans(k) {
          if levelPtrs[l] < i {
            assert files[l][levelPtrs[l]] in files[l];
          }
        }
      }
      return true;
    }

    /** Cut the current output when the grandparents that it has passed, up to `key`, are too large. */
    method ShouldStopBefore(key: InternalKey) returns (stop: bool)
      requires Counted()
      modifies this`grandparentIndex, this`seenKey, this`overlappedBytes, this`since
      ensures Counted() && seenKey && grandparentIndex == Reach(grandparents, old(grandparentIndex), key)
      ensures EndBefore(grandparents, old(grandparentIndex), key) ==> EndBefore(grandparents, grandparentIndex, key)
      ensures grandparentIndex < |grandparents| ==> !Precedes(grandparents[grandparentIndex].largest, key)
      ensures stop <==> old(seenKey) && TotalSize(grandparents[old(since)..grandparentIndex]) > MAX_GRANDPARENT_OVERLAP_BYTES
      ensures since == if stop || !old(seenKey) then grandparentIndex else old(since)
    {
      hide TotalSize, Precedes;
      ReachMeans(grandparents, grandparentIndex, key);
      while grandparentIndex < |grandparents| && Precedes(grandparents[grandparentIndex].largest, key)
        invariant old(grandparentIndex) <= grandparentIndex <= |grandparents| && since <= grandparentIndex
        invariant Reach(grandparents, old(grandparentIndex), key) == Reach(grandparents, grandparentIndex, key)
        invariant seenKey == old(seenKey) && since == if seenKey then old(since) else grandparentIndex
        invariant overlappedBytes == TotalSize(grandparents[since..grandparentIndex])
      {
        if seenKey {
          NextSize(grandparents, since, grandparentIndex);
          overlappedBytes := overlappedBytes + grandparents[grandparentIndex].fileSize;
        } else {
          NoSize(grandparents, since);
          since := since + 1;
          NoSize(grandparents, since);
        }
        grandparentIndex := grandparentIndex + 1;
      }
      seenKey := true;
      if overlappedBytes > MAX_GRANDPARENT_OVERLAP_BYTES {
        NoSize(grandparents, grandparentIndex);
        overlappedBytes := 0;
        since := grandparentIndex;
        return true;
      }
      return false;
    }
  }

  lemma ReachMeans(grandparents: seq<Table>, i: nat, k: InternalKey)
    requires i <= |grandparents|
    ensures var r := Reach(grandparents, i, k);
      && (forall j | i <= j < r :: Precedes(grandparents[j].largest, k))
      && (r < |grandparents| ==> !Precedes(grandparents[r].largest, k))
    decreases |grandparents| - i
  {
    hide Precedes;
    if i < |grandparents| && Precedes(grandparents[i].largest, k) {
      ReachMeans(grandparents, i + 1, k);
    }
  }

  lemma NoSize(files: seq<Table>, i: nat)
    requires i <= |files|
    ensures TotalSize(files[i..i]) == 0
  {
  }

  lemma NextSize(files: seq<Table>, a: nat, b: nat)
    requires a <= b < |files|
    ensures TotalSize(files[a..b + 1]) == TotalSize(files[a..b]) + files[b].fileSize
  {
    assert files[a..b + 1][..b - a] == files[a..b];
  }

  /** What has been written so far: the finished outputs and the one under construction. */
  function Written(outputs: seq<Output>, builder: Option<Output>): seq<Entry> {
    Flatten(outputs) + if builder.Some? then builder.value.entries else []
  }

  ghost predicate AllWellFormed(outputs: seq<Output>, builder: Option<Output>) {
    && (forall o | o in outputs :: OutputWellFormed(o))
    && (builder.Some? ==> OutputWellFormed(builder.value))
  }

  /** Finishes the output under construction, if there is one. */
  method FinishOutput(outputs: seq<Output>, builder: Option<Output>) returns (r: seq<Output>)
    requires AllWellFormed(outputs, builder)
    ensures AllWellFormed(r, None) && Written(r, None) == Written(outputs, builder)
    ensures r == outputs + if builder.Some? then [builder.value] else []
  {
    r := outputs;
    if builder.Some? {
      r := r + [builder.value];
      assert r[..|outputs|] == outputs;
    }
  }

  function Extended(builder: Option<Output>, e: Entry): Output {
    if builder.None? then Output(e.key, e.key, [e])
    else builder.value.(largest := e.key, entries := builder.value.entries + [e])
  }

  /** All outputs are bounded, and the one under construction begins after the first `since` grandparents. */
  ghost predicate AllBounded(grandparents: seq<Table>, since: nat, outputs: seq<Output>, builder: Option<Output>) {
    && (forall o | o in outputs :: Bounded(grandparents, o))
    && (builder.Some? ==> Bounded(grandparents, builder.value) && EndBefore(grandparents, since, builder.value.smallest))
  }

  lemma FinishedBounded(grandparents: seq<Table>, since: nat, outputs: seq<Output>, builder: Option<Output>, later: nat)
    requires AllBounded(grandparents, since, outputs, builder)
    ensures AllBounded(grandparents, later, outputs + if builder.Some? then [builder.value] else [], None)
  {
  }

  lemma AddedBounded(grandparents: seq<Table>, since: nat, at: nat, outputs: seq<Output>, builder: Option<Output>, e: Entry,
                     written: seq<Output>, open: Option<Output>)
    requires AllBounded(grandparents, since, outputs, builder) && since <= at && EndBefore(grandparents, at, e.key)
    requires at < |grandparents| ==> !Precedes(grandparents[at].largest, e.key)
    requires TotalSize(grandparents[since..at]) <= MAX_GRANDPARENT_OVERLAP_BYTES
    requires written + (if open.Some? then [open.value] else []) == outputs + [Extended(builder, e)]
    requires open.Some? ==> open.value == Extended(builder, e)
    ensures AllBounded(grandparents, since, written, open)
  {
    hide Bounded, Precedes, TotalSize;
    PassedBounds(grandparents, since, at, Extended(builder, e));
    var all := outputs + [Extended(builder, e)];
    forall o | o in written ensures Bounded(grandparents, o) {
      var i :| 0 <= i < |written| && written[i] == o;
      assert all[i] == o;
    }
  }

  lemma UpToNext(c: Compaction, k: InternalKey, next: InternalKey)
    requires UpTo(c, k) && (k.user < next.user || (k.user == next.user && k.sequence > next.sequence))
    ensures EndBefore(c.grandparents, c.grandparentIndex, next)
  {
  }

  /** What the compaction has counted bounds its outputs. */
  ghost predicate Watched(c: Compaction, outputs: seq<Output>, builder: Option<Output>)
    reads c`grandparentIndex, c`seenKey, c`overlappedBytes, c`since
  {
    && c.Counted() && AllBounded(c.grandparents, c.since, outputs, builder)
    && (!c.seenKey ==> builder.None? && outputs == [])
  }

  /** The grandparents passed are exactly those that end before `k`. */
  ghost predicate UpTo(c: Compaction, k: InternalKey)
    reads c`grandparentIndex
  {
    && EndBefore(c.grandparents, c.grandparentIndex, k)
    && (c.grandparentIndex < |c.grandparents| ==> !Precedes(c.grandparents[c.grandparentIndex].largest, k))
  }

  // ---- Where the outputs end

  type Limit = nat

  /** No output has reached the size limit before its last entry. */
  ghost predicate NotFullBefore(o: Output, limit: Limit, fileSize: Sizer) {
    forall n | 0 < n < |o.entries| :: fileSize(o.entries[..n]) < limit
  }

  ghost predicate Full(o: Output, limit: Limit, fileSize: Sizer) {
    fileSize(o.entries) >= limit
  }

  /** Some key after all of the output, among the first `n`, is one where outputs have to end. */
  ghost predicate CutBehind(grandparents: seq<Table>, input: seq<Entry>, n: nat, o: Output, t: nat)
    requires n <= |input|
  {
    t < n && CutsAt(grandparents, input, t) && Precedes(o.largest, input[t].key)
  }

  /** The output has reached the size limit, or has to end between it and the next, which begins with `next`. */
  ghost predicate EndsRightly(grandparents: seq<Table>, input: seq<Entry>, limit: Limit, fileSize: Sizer, o: Output,
                              next: InternalKey)
  {
    Full(o, limit, fileSize)
    || exists t :: 0 <= t < |input| && CutBehind(grandparents, input, |input|, o, t) && !Precedes(next, input[t].key)
  }

  /** Outputs end as soon as they have to, and not before. */
  ghost predicate CutRight(grandparents: seq<Table>, input: seq<Entry>, limit: Limit, fileSize: Sizer, outputs: seq<Output>) {
    && (forall o | o in outputs :: NotFullBefore(o, limit, fileSize))
    && forall j | 0 <= j < |outputs| - 1 ::
         EndsRightly(grandparents, input, limit, fileSize, outputs[j], outputs[j + 1].smallest)
  }

  /** The last finished output, with nothing behind it yet, has ended rightly among the first `n` keys. */
  ghost predicate LastEnded(grandparents: seq<Table>, input: seq<Entry>, n: nat, limit: Limit, fileSize: Sizer, o: Output)
    requires n <= |input|
  {
    Full(o, limit, fileSize) || exists t :: 0 <= t < n && CutBehind(grandparents, input, n, o, t)
  }

  /** So far: the finished outputs end rightly, and the one under construction has room. */
  ghost predicate Cutting(grandparents: seq<Table>, input: seq<Entry>, n: nat, limit: Limit, fileSize: Sizer,
                          outputs: seq<Output>, builder: Option<Output>)
    requires n <= |input|
  {
    && CutRight(grandparents, input, limit, fileSize, outputs)
    && (builder.Some? ==> NotFullBefore(builder.value, limit, fileSize) && !Full(builder.value, limit, fileSize))
    && (outputs != [] ==>
          var last := outputs[|outputs| - 1];
          if builder.Some? then EndsRightly(grandparents, input, limit, fileSize, last, builder.value.smallest)
          else LastEnded(grandparents, input, n, limit, fileSize, last))
  }

  /** The output under construction ends before all keys from the `n`-th on. */
  ghost predicate Behind(input: seq<Entry>, n: nat, builder: Option<Output>) {
    builder.Some? ==> forall m | n <= m < |input| :: Precedes(builder.value.largest, input[m].key)
  }

  lemma BehindNext(input: seq<Entry>, n: nat, builder: Option<Output>)
    requires Behind(input, n, builder)
    ensures Behind(input, n + 1, builder) && Behind(input, n + 1, None)
  {
    hide Precedes;
  }

  lemma CutNext(grandparents: seq<Table>, input: seq<Entry>, n: nat, limit: Limit, fileSize: Sizer,
                outputs: seq<Output>, builder: Option<Output>)
    requires n < |input| && Cutting(grandparents, input, n, limit, fileSize, outputs, builder)
    ensures Cutting(grandparents, input, n + 1, limit, fileSize, outputs, builder)
  {
    hide CutsAt, Precedes, Full, NotFullBefore, CutRight, EndsRightly;
    if outputs != [] && builder.None? && !Full(outputs[|outputs| - 1], limit, fileSize) {
      var last := outputs[|outputs| - 1];
      var t :| 0 <= t < n && CutBehind(grandparents, input, n, last, t);
      assert CutBehind(grandparents, input, n + 1, last, t);
    }
  }

  lemma CutFinish(grandparents: seq<Table>, input: seq<Entry>, limit: Limit, fileSize: Sizer,
                  outputs: seq<Output>, o: Output)
    requires CutRight(grandparents, input, limit, fileSize, outputs) && NotFullBefore(o, limit, fileSize)
    requires outputs != [] ==> EndsRightly(grandparents, input, limit, fileSize, outputs[|outputs| - 1], o.smallest)
    ensures CutRight(grandparents, input, limit, fileSize, outputs + [o])
  {
    hide NotFullBefore, EndsRightly;
  }

  /** Ending the output before key `n`, where it has to end. */
  lemma CutHere(grandparents: seq<Table>, input: seq<Entry>, n: nat, limit: Limit, fileSize: Sizer,
                outputs: seq<Output>, builder: Option<Output>)
    requires n < |input| && Cutting(grandparents, input, n, limit, fileSize, outputs, builder) && Behind(input, n, builder)
    requires builder.Some? && CutsAt(grandparents, input, n)
    ensures Cutting(grandparents, input, n + 1, limit, fileSize, outputs + [builder.value], None)
  {
    hide CutsAt, Precedes, Full, NotFullBefore, CutRight, EndsRightly;
    CutFinish(grandparents, input, limit, fileSize, outputs, builder.value);
    assert CutBehind(grandparents, input, n + 1, builder.value, n);
  }

  lemma LastEnds(grandparents: seq<Table>, input: seq<Entry>, n: nat, limit: Limit, fileSize: Sizer, o: Output)
    requires n < |input| && Sorted(input) && LastEnded(grandparents, input, n + 1, limit, fileSize, o)
    ensures EndsRightly(grandparents, input, limit, fileSize, o, input[n].key)
  {
    hide CutsAt, Full;
    if !Full(o, limit, fileSize) {
      var t :| 0 <= t < n + 1 && CutBehind(grandparents, input, n + 1, o, t);
      assert CutBehind(grandparents, input, |input|, o, t);
    }
  }

  /** Adding the `n`-th entry, to a new output or the one there is. */
  lemma CutAdd(grandparents: seq<Table>, input: seq<Entry>, n: nat, limit: Limit, fileSize: Sizer,
               outputs: seq<Output>, builder: Option<Output>)
    requires n < |input| && Sorted(input) && Cutting(grandparents, input, n + 1, limit, fileSize, outputs, builder)
    ensures var built := Extended(builder, input[n]);
      && NotFullBefore(built, limit, fileSize) && Behind(input, n + 1, Some(built))
      && (outputs != [] ==> EndsRightly(grandparents, input, limit, fileSize, outputs[|outputs| - 1], built.smallest))
  {
    hide CutsAt, EndsRightly, CutRight, LastEnded;
    var built := Extended(builder, input[n]);
    if builder.None? && outputs != [] {
      LastEnds(grandparents, input, n, limit, fileSize, outputs[|outputs| - 1]);
    }
    forall m | 0 < m < |built.entries| ensures fileSize(built.entries[..m]) < limit {
      assert builder.Some? && built.entries[..m] == builder.value.entries[..m];
      assert m == |builder.value.entries| ==> builder.value.entries[..m] == builder.value.entries;
    }
  }

  /** What has been counted is what the first `n` keys make. */
  ghost predicate Tracks(c: Compaction, input: seq<Entry>, n: nat)
    requires n <= |input|
    reads c`grandparentIndex, c`seenKey, c`since
  {
    (c.grandparentIndex, c.since) == Counting(c.grandparents, input, n) && (c.seenKey <==> n > 0)
  }

  /** Finishes the output under construction if it has passed too many bytes before the `n`-th key. */
  method CutBefore(c: Compaction, k: InternalKey, outputs: seq<Output>, builder: Option<Output>,
                   ghost input: seq<Entry>, ghost n: nat, ghost limit: Limit, ghost fileSize: Sizer)
    returns (written: seq<Output>, open: Option<Output>)
    requires AllWellFormed(outputs, builder) && Watched(c, outputs, builder) && EndBefore(c.grandparents, c.grandparentIndex, k)
    requires n < |input| && k == input[n].key && Tracks(c, input, n)
    requires Cutting(c.grandparents, input, n, limit, fileSize, outputs, builder) && Behind(input, n, builder)
    modifies c`grandparentIndex, c`seenKey, c`overlappedBytes, c`since
    ensures AllWellFormed(written, open) && Written(written, open) == Written(outputs, builder)
    ensures Watched(c, written, open) && c.seenKey && UpTo(c, k) && Tracks(c, input, n + 1)
    ensures Cutting(c.grandparents, input, n + 1, limit, fileSize, written, open) && Behind(input, n + 1, open)
  {
    hide AllWellFormed, Written, Bounded, EndBefore, AllBounded, Precedes, TotalSize, Cutting, Behind, Reach;
    ghost var since := c.since;
    var stop := c.ShouldStopBefore(k);
    assert stop <==> CutsAt(c.grandparents, input, n);
    BehindNext(input, n, builder);
    if stop && builder.Some? {
      CutHere(c.grandparents, input, n, limit, fileSize, outputs, builder);
    } else {
      CutNext(c.grandparents, input, n, limit, fileSize, outputs, builder);
    }
    written, open := outputs, builder;
    NothingBounded(c.grandparents);
    if stop {
      FinishedBounded(c.grandparents, since, outputs, builder, c.since);
      assert outputs + [] == outputs;
      if builder.Some? {
        written := FinishOutput(outputs, builder);
        open := None;
      }
    }
  }

  /** Adds an entry, opening an output if there is none and finishing it when it is large enough. */
  method AddToOutput(outputs: seq<Output>, builder: Option<Output>, e: Entry,
                     maxOutputFileSize: nat, fileSize: Sizer, ghost c: Compaction, ghost input: seq<Entry>, ghost n: nat)
    returns (written: seq<Output>, open: Option<Output>)
    requires AllWellFormed(outputs, builder) && Watched(c, outputs, builder) && c.seenKey && UpTo(c, e.key)
    requires n < |input| && Sorted(input) && e == input[n]
    requires Cutting(c.grandparents, input, n + 1, maxOutputFileSize, fileSize, outputs, builder)
    ensures AllWellFormed(written, open) && Written(written, open) == Written(outputs, builder) + [e]
    ensures Watched(c, written, open) && Behind(input, n + 1, open)
    ensures Cutting(c.grandparents, input, n + 1, maxOutputFileSize, fileSize, written, open)
    ensures open.None? <==> fileSize(Extended(builder, e).entries) >= maxOutputFileSize
  {
    hide Bounded, EndBefore, AllBounded, Precedes, TotalSize, CutRight, EndsRightly, NotFullBefore, Sorted, CutsAt, CutBehind;
    CutAdd(c.grandparents, input, n, maxOutputFileSize, fileSize, outputs, builder);
    var built := Extended(builder, e);
    CutFinish(c.grandparents, input, maxOutputFileSize, fileSize, outputs, built);
    assert Written(outputs, Some(built)) == Written(outputs, builder) + [e];
    written, open := outputs, Some(built);
    if fileSize(built.entries) >= maxOutputFileSize {
      written := FinishOutput(outputs, open);
      open := None;
    }
    AddedBounded(c.grandparents, c.since, c.grandparentIndex, outputs, builder, e, written, open);
  }

  lemma SurvivorsNext(files: seq<seq<Table>>, level: nat, input: seq<Entry>, n: nat, snapshot: SequenceNumber)
    requires n < |input|
    ensures Survivors(files, level, input, n + 1, snapshot)
         == Survivors(files, level, input, n, snapshot)
            + if Kept(files, level, input, n, snapshot) then [input[n]] else []
  {
  }

  /** The compaction loop over the merged inputs.  Where outputs are cut depends on the encoded
      size `fileSize` and on the grandparents; what is kept does not. */
  method DoCompactionWork(c: Compaction, input: seq<Entry>, snapshot: SequenceNumber,
                          maxOutputFileSize: nat, fileSize: Sizer)
    returns (outputs: seq<Output>)
    requires c.Valid() && c.NothingPassed()
    requires Sorted(input) && snapshot < MAX_SEQUENCE
    modifies c
    ensures c.Valid()
    ensures forall o | o in outputs :: OutputWellFormed(o)
    ensures Flatten(outputs) == Survivors(c.files, c.level, input, |input|, snapshot)
    ensures forall o | o in outputs :: Bounded(c.grandparents, o)
    ensures CutRight(c.grandparents, input, maxOutputFileSize, fileSize, outputs)
  {
    hide Flatten, Survivors, OutputWellFormed, Bounded, EndBefore, AllBounded, TotalSize, Watched, UpTo;
    hide Cutting, CutRight, Behind, Tracks;
    outputs := [];
    var builder: Option<Output> := None;
    var currentUserKey: Option<UserKey> := None;
    var lastSequenceForKey := MAX_SEQUENCE;
    NothingWritten();
    NothingWatched(c);
    NothingCut(c, input, maxOutputFileSize, fileSize);
    for n := 0 to |input|
      invariant c.Valid() && (n < |input| ==> c.PassedBefore(input[n].key.user))
      invariant currentUserKey.Some? <==> n > 0
      invariant n > 0 ==> currentUserKey.value == input[n - 1].key.user && lastSequenceForKey == input[n - 1].key.sequence
      invariant Watched(c, outputs, builder) && (n < |input| ==> EndBefore(c.grandparents, c.grandparentIndex, input[n].key))
      invariant Tracks(c, input, n) && Behind(input, n, builder)
      invariant Cutting(c.grandparents, input, n, maxOutputFileSize, fileSize, outputs, builder)
      invariant AllWellFormed(outputs, builder)
      invariant Written(outputs, builder) == Survivors(c.files, c.level, input, n, snapshot)
    {
      hide Written, AllWellFormed;
      var e := input[n];
      outputs, builder := CutBefore(c, e.key, outputs, builder, input, n, maxOutputFileSize, fileSize);

      var drop := false;
      if currentUserKey.None? || e.key.user != currentUserKey.value {
        currentUserKey := Some(e.key.user);
        lastSequenceForKey := MAX_SEQUENCE;
      }
      LastSequenceDecides(input, n, snapshot);
      if lastSequenceForKey <= snapshot {
        drop := true;
      } else if e.key.kind.Deletion? && e.key.sequence <= snapshot {
        drop := c.IsBaseLevelForKey(e.key.user);
      }
      lastSequenceForKey := e.key.sequence;
      assert drop <==> !Kept(c.files, c.level, input, n, snapshot);
      SurvivorsNext(c.files, c.level, input, n, snapshot);
      if !drop {
        outputs, builder := AddToOutput(outputs, builder, e, maxOutputFileSize, fileSize, c, input, n);
      }
      if n + 1 < |input| {
        UpToNext(c, e.key, input[n + 1].key);
      }
    }
    WatchedMeans(c, outputs, builder);
    CutEnds(c.grandparents, input, maxOutputFileSize, fileSize, outputs, builder);
    outputs := FinishOutput(outputs, builder);
  }

  lemma NothingCut(c: Compaction, input: seq<Entry>, limit: Limit, fileSize: Sizer)
    requires c.Valid() && c.NothingPassed()
    ensures Cutting(c.grandparents, input, 0, limit, fileSize, [], None) && Tracks(c, input, 0) && Behind(input, 0, None)
  {
    hide TotalSize;
  }

  lemma CutEnds(grandparents: seq<Table>, input: seq<Entry>, limit: Limit, fileSize: Sizer, outputs: seq<Output>,
                builder: Option<Output>)
    requires Cutting(grandparents, input, |input|, limit, fileSize, outputs, builder)
    ensures CutRight(grandparents, input, limit, fileSize, outputs + if builder.Some? then [builder.value] else [])
  {
    hide CutRight, EndsRightly, NotFullBefore;
    assert outputs + [] == outputs;
    if builder.Some? {
      CutFinish(grandparents, input, limit, fileSize, outputs, builder.value);
    }
  }

  lemma NothingBounded(grandparents: seq<Table>)
    ensures forall n: nat :: AllBounded(grandparents, n, [], None)
    ensures forall k :: EndBefore(grandparents, 0, k)
  {
  }

  lemma NothingWatched(c: Compaction)
    requires c.Valid() && c.NothingPassed()
    ensures Watched(c, [], None) && forall k :: EndBefore(c.grandparents, c.grandparentIndex, k)
  {
    hide TotalSize;
  }

  lemma WatchedMeans(c: Compaction, outputs: seq<Output>, builder: Option<Output>)
    requires Watched(c, outputs, builder)
    ensures forall o | o in outputs + (if builder.Some? then [builder.value] else []) :: Bounded(c.grandparents, o)
  {
    hide Bounded;
  }

  lemma NothingWritten()
    ensures Written([], None) == [] && AllWellFormed([], None)
    ensures forall files: seq<seq<Table>>, level: nat, input: seq<Entry>, snapshot: SequenceNumber ::
      Survivors(files, level, input, 0, snapshot) == []
  {
  }

  /** Remembering one sequence number is enough: the entry just before decides rule (A). */
  lemma LastSequenceDecides(input: seq<Entry>, n: nat, snapshot: SequenceNumber)
    requires Sorted(input) && n < |input|
    ensures Shadowed(input, n, snapshot) <==>
      (n > 0 && input[n - 1].key.user == input[n].key.user && input[n - 1].key.sequence <= snapshot)
  {
    if j :| 0 <= j < n && input[j].key.user == input[n].key.user && input[j].key.sequence <= snapshot {
      assert j < n - 1 ==> input[j].key.sequence > input[n - 1].key.sequence;
    }
  }
}
