/** Reads that take a while: the places that a reader searches stay as good as they were when it
    started, so it does not matter when it searches which. */
module CommitReads {
  import opened Bytes
  import opened Entries
  import opened CommitProtocol
  import opened CommitInvariant
  import opened CommitMeaning
  import opened CommitDurability

  /** While a reader is open, no step changes what it finds in any one of the places it searches. */
  lemma SourcesAreStable(s: State, step: Step, r: Reader, k: UserKey)
    requires Inv(s) && Enabled(s, step) && r in s.readers && r in After(s, step).readers && Inv(After(s, step))
    ensures ReaderOk(s, r) && ReaderOk(After(s, step), r)
    ensures SameLookups(Sources(s, r), Sources(After(s, step), r), k, r.snapshot)
  {
    hide QueueInv, LogInv, VersionInv, BackgroundInv, SnapshotInv, History, Lookup, Elements, Preserves, IsGroup, AllUpdates, EntriesOfFiles;
    var t := After(s, step);
    assert ReaderOk(s, r) && ReaderOk(t, r);
    TablesOfReader(s, step, r);
    MemtablesStay(s, step, r);
    MemtableDistinct(t, r.mem);
    hide MemoryInv, ReaderOk, After, Enabled;
    MemtableLookup(s.memtables[r.mem], t.memtables[r.mem], k, r.snapshot);
  }

  lemma MemtableDistinct(s: State, i: nat)
    requires Inv(s) && i < |s.memtables|
    ensures Distinct(Elements(s.memtables[i]))
  {
    hide QueueInv, LogInv, VersionInv, BackgroundInv, SnapshotInv, ReaderInv, History, InSequence;
    HistoryInSequence(s);
    InSequenceDistinct(History(s));
    MemtableIsPiece(s, i);
  }

  /** Each of the sources answers alike for `k` at the snapshot. */
  ghost predicate SameLookups(a: seq<set<Entry>>, b: seq<set<Entry>>, k: UserKey, snapshot: SequenceNumber) {
    |a| == |b| && forall i | 0 <= i < |a| :: Lookup(a[i], k, snapshot) == Lookup(b[i], k, snapshot)
  }

  lemma TablesOfReader(s: State, step: Step, r: Reader)
    requires Inv(s) && Enabled(s, step) && r in s.readers && r in After(s, step).readers && Inv(After(s, step))
    ensures EntriesOfFiles(After(s, step).tables, r.version.files) == EntriesOfFiles(s.tables, r.version.files)
  {
    var t := After(s, step);
    NothingInUseDeleted(s, step);
    hide QueueInv, MemoryInv, LogInv, VersionInv, BackgroundInv, SnapshotInv, History, Preserves, IsGroup, AllUpdates, After, Enabled;
    assert ReaderOk(s, r);
    var i :| 0 <= i < |t.readers| && t.readers[i] == r;
    assert forall f | f in r.version.files :: f in t.Live();
    SameTables(s.tables, t.tables, r.version.files);
  }

  lemma SameTables(a: map<nat, set<Entry>>, b: map<nat, set<Entry>>, files: set<nat>)
    requires forall f | f in files :: f in a && f in b && a[f] == b[f]
    ensures EntriesOfFiles(a, files) == EntriesOfFiles(b, files)
  {
  }

  /** The previous memtable stays; the current one only gains entries after the snapshot. */
  lemma MemtablesStay(s: State, step: Step, r: Reader)
    requires Inv(s) && Enabled(s, step) && ReaderOk(s, r)
    ensures r.mem < |After(s, step).memtables|
    ensures r.imm.Some? ==> After(s, step).memtables[r.imm.value] == s.memtables[r.imm.value]
    ensures OnlyLater(s.memtables[r.mem], After(s, step).memtables[r.mem], r.snapshot)
  {
    hide LogInv, VersionInv, BackgroundInv, SnapshotInv, Preserves, IsGroup, AllUpdates, VersionOk;
  }

  ghost predicate OnlyLater(a: seq<Entry>, b: seq<Entry>, snapshot: SequenceNumber) {
    a <= b && forall i | |a| <= i < |b| :: b[i].key.sequence > snapshot
  }

  lemma MemtableLookup(a: seq<Entry>, b: seq<Entry>, k: UserKey, snapshot: SequenceNumber)
    requires OnlyLater(a, b, snapshot) && Distinct(Elements(b))
    ensures Lookup(Elements(a), k, snapshot) == Lookup(Elements(b), k, snapshot)
  {
    hide Lookup;
    var es, more := Elements(a), Elements(b);
    assert b == a + b[|a|..];
    assert es <= more;
    forall e | e in more && e.key.sequence <= snapshot ensures e in es {
      var i :| 0 <= i < |b| && b[i] == e;
      assert a[i] == e;
    }
    if o :| o in more && o.key.user == k && o.key.sequence <= snapshot {
      var e := NewestExists(more, k, snapshot, o);
      NewestUnique(more, k, snapshot, e);
      assert Newest(es, k, snapshot, e);
      NewestUnique(es, k, snapshot, e);
    } else {
      MissingMeansNone(more, k, snapshot);
      MissingMeansNone(es, k, snapshot);
    }
  }

  /** The memtables that the reader holds on to are there. */
  ghost predicate Sourced(s: State, r: Reader) {
    r.mem < |s.memtables| && (r.imm.Some? ==> r.imm.value < |s.memtables|)
  }

  /** The reader is open in all states from `a` to `b` of the run. */
  ghost predicate Open(states: seq<State>, r: Reader, a: nat, b: nat) {
    a <= b < |states| && forall i | a <= i <= b :: r in states[i].readers
  }

  /** What the reader finds in each place is the same in both states. */
  ghost predicate Steady(s: State, t: State, r: Reader, k: UserKey) {
    Sourced(s, r) && Sourced(t, r) && SameLookups(Sources(s, r), Sources(t, r), k, r.snapshot)
  }

  lemma SteadyInTurn(s: State, t: State, u: State, r: Reader, k: UserKey)
    ensures Steady(s, t, r, k) && Steady(t, u, r, k) ==> Steady(s, u, r, k)
    ensures Sourced(s, r) ==> Steady(s, s, r, k)
  {
    hide Lookup, Sources;
  }

  lemma {:induction false} SourcesStayInRun(states: seq<State>, steps: seq<Step>, r: Reader, a: nat, b: nat, k: UserKey)
    requires Run(states, steps) && Open(states, r, a, b) && forall i | 0 <= i < |states| :: AllInv(states[i])
    ensures Steady(states[a], states[b], r, k)
    decreases b - a
  {
    hide AllInv, After, Enabled, Steady, Shaped, Run, Sourced;
    OpenSourced(states[a], r);
    SteadyInTurn(states[a], states[a], states[a], r, k);
    if a < b {
      RunStep(states, steps, b - 1);
      SourcesStayInRun(states, steps, r, a, b - 1, k);
      StepSources(states[b - 1], steps[b - 1], states[b], r, k);
      SteadyInTurn(states[a], states[b - 1], states[b], r, k);
    }
  }

  lemma RunStep(states: seq<State>, steps: seq<Step>, i: nat)
    requires Run(states, steps) && i + 1 < |states|
    ensures |states| == |steps| + 1 && Shaped(states[i]) && Enabled(states[i], steps[i]) && states[i + 1] == After(states[i], steps[i])
  {
    hide Shaped, Enabled, After;
  }

  lemma StepSources(s: State, step: Step, t: State, r: Reader, k: UserKey)
    requires AllInv(s) && AllInv(t) && Shaped(s) && Enabled(s, step) && t == After(s, step)
    requires r in s.readers && r in t.readers
    ensures Steady(s, t, r, k)
  {
    hide QueueInv, MemoryInv, LogInv, VersionInv, BackgroundInv, SnapshotInv, ReaderInv, SyncInv, After, Enabled, SameLookups, VersionOk, Sources;
    SourcesAreStable(s, step, r, k);
  }

  lemma OpenSourced(s: State, r: Reader)
    requires AllInv(s) && r in s.readers
    ensures Sourced(s, r) && Inv(s)
  {
    hide QueueInv, MemoryInv, LogInv, VersionInv, BackgroundInv, SnapshotInv, SyncInv, VersionOk;
    assert ReaderOk(s, r);
  }

  lemma {:induction false} SameSearch(a: seq<set<Entry>>, b: seq<set<Entry>>, k: UserKey, snapshot: SequenceNumber)
    requires SameLookups(a, b, k, snapshot)
    ensures Search(a, k, snapshot) == Search(b, k, snapshot)
  {
    hide Lookup;
    if a != [] {
      SameSearch(a[1..], b[1..], k, snapshot);
    }
  }

  /** `piece` is the `n`-th place that the reader searches, as it is in this state. */
  ghost predicate IsPiece(s: State, r: Reader, n: nat, piece: set<Entry>) {
    Sourced(s, r) && n < |Sources(s, r)| && piece == Sources(s, r)[n]
  }

  /** All the places that the reader searches, each as it is at some moment from `a` to `b`. */
  ghost predicate Gathered(states: seq<State>, r: Reader, a: nat, b: nat, at: seq<nat>, pieces: seq<set<Entry>>)
    requires Open(states, r, a, b)
  {
    && |pieces| == |at| == (if r.imm.Some? then 3 else 2)
    && forall n | 0 <= n < |at| :: a <= at[n] <= b && IsPiece(states[at[n]], r, n, pieces[n])
  }

  lemma GatheredSame(states: seq<State>, steps: seq<Step>, r: Reader, a: nat, b: nat, at: seq<nat>, pieces: seq<set<Entry>>, k: UserKey)
    requires Run(states, steps) && Open(states, r, a, b) && Gathered(states, r, a, b, at, pieces)
    requires forall i | 0 <= i < |states| :: AllInv(states[i])
    ensures Sourced(states[a], r) && SameLookups(Sources(states[a], r), pieces, k, r.snapshot)
  {
    hide AllInv, After, Enabled, Lookup, Shaped, Elements, EntriesOfFiles;
    assert |states| == |steps| + 1;
    hide Run;
    SourcesStayInRun(states, steps, r, a, a, k);
    forall n | 0 <= n < |at| ensures Lookup(Sources(states[a], r)[n], k, r.snapshot) == Lookup(pieces[n], k, r.snapshot) {
      assert IsPiece(states[at[n]], r, n, pieces[n]);
      SourcesStayInRun(states, steps, r, a, at[n], k);
    }
  }

  /** A read that takes a while: the memtable, the previous memtable and the tables are each searched
      at a moment of its own while the mutex is free, and still the answer is that of the plain map
      after the complete writes of the first `j` writers. */
  lemma ReadsInPieces(states: seq<State>, steps: seq<Step>, r: Reader, a: nat, b: nat, at: seq<nat>, pieces: seq<set<Entry>>)
    returns (j: nat)
    requires Run(states, steps) && Open(states, r, a, b) && Gathered(states, r, a, b, at, pieces)
    ensures j <= |states[a].returned| && r.snapshot == |AllUpdates(states[a].returned[..j])|
    ensures forall k :: Visible(Search(pieces, k, r.snapshot)) == ReadStore(AllUpdates(states[a].returned[..j]), k)
  {
    hide Enabled, After, AllInv, Shaped, Sources, Search, Lookup, AllUpdates, ReadStore, Gathered, SameLookups, Run;
    RunKeepsAll(states, steps);
    OpenSourced(states[a], r);
    j := ReadsAreAtomic(states[a], r);
    forall k ensures Visible(Search(pieces, k, r.snapshot)) == ReadStore(AllUpdates(states[a].returned[..j]), k) {
      GatheredSame(states, steps, r, a, b, at, pieces, k);
      SameSearch(Sources(states[a], r), pieces, k, r.snapshot);
    }
  }

  // ---- Which writes a reader sees

  lemma ReturnedStays(s: State, step: Step)
    requires Shaped(s) && Enabled(s, step)
    ensures s.returned <= After(s, step).returned
  {
    hide AllUpdates, IsGroup, Preserves, Numbered;
  }

  lemma {:induction false} ReturnedGrows(states: seq<State>, steps: seq<Step>, a: nat, b: nat)
    requires Run(states, steps) && a <= b < |states|
    ensures states[a].returned <= states[b].returned
    decreases b - a
  {
    hide After, Enabled, Shaped, Run;
    if a < b {
      ReturnedGrows(states, steps, a, b - 1);
      RunStep(states, steps, b - 1);
      ReturnedStays(states[b - 1], steps[b - 1]);
    }
  }

  /** As many updates from the front are the same updates. */
  lemma SameUpdates(ws: seq<Writer>, all: seq<Writer>, j: nat)
    requires ws <= all && j <= |all| && |AllUpdates(all[..j])| == |AllUpdates(ws)|
    ensures AllUpdates(all[..j]) == AllUpdates(ws)
  {
    hide AllUpdates;
    AllUpdatesConcat(all[..j], all[j..]);
    AllUpdatesConcat(ws, all[|ws|..]);
    assert all[..j] + all[j..] == all && ws + all[|ws|..] == all;
    assert AllUpdates(all)[..|AllUpdates(ws)|] == AllUpdates(ws);
    assert AllUpdates(all)[..|AllUpdates(ws)|] == AllUpdates(all[..j]);
  }

  /** The reader that a step opens. */
  ghost predicate Opens(states: seq<State>, i: nat, r: Reader) {
    i + 1 < |states| && states[i + 1].readers == states[i].readers + [r]
  }

  /** Where the `n`-th snapshot after a step was in the list before it; None if the step took it. */
  ghost function Was(before: nat, step: Step, n: nat): Option<nat> {
    match step
    case GetSnapshot => if n == before then None else Some(n)
    case ReleaseSnapshot(which) => Some(if n < which then n else n + 1)
    case _ => Some(n)
  }

  /** At which step of the run the `n`-th snapshot of the list in state `i` was taken. */
  ghost function TakenAt(states: seq<State>, steps: seq<Step>, i: nat, n: nat): nat
    requires |states| == |steps| + 1 && i < |states|
  {
    if i == 0 then 0
    else match Was(|states[i - 1].snapshots|, steps[i - 1], n)
      case None => i - 1
      case Some(m) => TakenAt(states, steps, i - 1, m)
  }

  lemma SnapshotsAfter(s: State, step: Step, n: nat)
    requires Shaped(s) && Enabled(s, step) && n < |After(s, step).snapshots|
    ensures var m := Was(|s.snapshots|, step, n);
      if m.None? then step == GetSnapshot && After(s, step).snapshots[n] == s.lastSequence
      else m.value < |s.snapshots| && After(s, step).snapshots[n] == s.snapshots[m.value]
  {
    hide AllUpdates, IsGroup, Preserves, Numbered;
  }

  lemma SequenceIsCount(s: State)
    requires AllInv(s)
    ensures s.lastSequence == |AllUpdates(s.returned)|
  {
    hide MemoryInv, LogInv, VersionInv, BackgroundInv, SnapshotInv, ReaderInv, SyncInv, AllUpdates;
  }

  /** The snapshot was taken by a step of the run, and counts the updates of the writers that had
      returned then. */
  ghost predicate CountsReturned(states: seq<State>, steps: seq<Step>, i: nat, n: nat, snapshot: SequenceNumber)
    requires |states| == |steps| + 1 && i < |states|
  {
    var m := TakenAt(states, steps, i, n);
    m < i && steps[m] == GetSnapshot && snapshot == |AllUpdates(states[m].returned)|
  }

  ghost predicate AllCount(states: seq<State>, steps: seq<Step>, i: nat)
    requires |states| == |steps| + 1 && i < |states|
  {
    forall n | 0 <= n < |states[i].snapshots| :: CountsReturned(states, steps, i, n, states[i].snapshots[n])
  }

  lemma CountsNext(states: seq<State>, steps: seq<Step>, i: nat)
    requires |states| == |steps| + 1 && 0 < i < |states| && AllCount(states, steps, i - 1)
    requires Shaped(states[i - 1]) && Enabled(states[i - 1], steps[i - 1]) && states[i] == After(states[i - 1], steps[i - 1])
    requires AllInv(states[i - 1])
    ensures AllCount(states, steps, i)
  {
    hide After, Enabled, Shaped, AllInv, AllUpdates, Was, TakenAt;
    SequenceIsCount(states[i - 1]);
    forall n | 0 <= n < |states[i].snapshots| ensures CountsReturned(states, steps, i, n, states[i].snapshots[n]) {
      SnapshotsAfter(states[i - 1], steps[i - 1], n);
      TakenStep(states, steps, i, n);
    }
  }

  lemma {:induction false} SnapshotTaken(states: seq<State>, steps: seq<Step>, i: nat)
    requires Run(states, steps) && |states| == |steps| + 1 && i < |states|
    requires forall l | 0 <= l < |states| :: AllInv(states[l])
    ensures AllCount(states, steps, i)
  {
    NoSnapshotsYet(states, steps);
    assert AllCount(states, steps, 0);
    hide *;
    for l := 0 to i
      invariant AllCount(states, steps, l)
    {
      RunStep(states, steps, l);
      CountsNext(states, steps, l + 1);
    }
  }

  lemma NoSnapshotsYet(states: seq<State>, steps: seq<Step>)
    requires Run(states, steps)
    ensures states != [] && states[0].snapshots == []
  {
  }

  lemma TakenStep(states: seq<State>, steps: seq<Step>, i: nat, n: nat)
    requires |states| == |steps| + 1 && 0 < i < |states|
    ensures var m := Was(|states[i - 1].snapshots|, steps[i - 1], n);
      TakenAt(states, steps, i, n) == if m.None? then i - 1 else TakenAt(states, steps, i - 1, m.value)
  {
    hide Was;
  }

  lemma OpenedBy(s: State, step: Step) returns (r: Reader)
    requires Shaped(s) && Enabled(s, step) && step.OpenReader?
    ensures After(s, step).readers == s.readers + [r]
    ensures step.at.Some? ==> step.at.value < |s.snapshots|
    ensures r.snapshot == if step.at.Some? then s.snapshots[step.at.value] else s.lastSequence
  {
    r := After(s, step).readers[|s.readers|];
  }

  /** A read without a snapshot sees every write that has returned when it starts, and nothing else,
      however long it takes; a read at a snapshot sees what such a read would have seen at the step
      that took the snapshot. */
  lemma ReadsSeeReturned(states: seq<State>, steps: seq<Step>, i: nat, r: Reader, b: nat, at: seq<nat>, pieces: seq<set<Entry>>)
    requires Run(states, steps) && |states| == |steps| + 1 && i < |steps| && steps[i].OpenReader?
    requires Opens(states, i, r) && Open(states, r, i + 1, b) && Gathered(states, r, i + 1, b, at, pieces)
    ensures steps[i].at.None? ==>
      forall k :: Visible(Search(pieces, k, r.snapshot)) == ReadStore(AllUpdates(states[i].returned), k)
    ensures steps[i].at.Some? ==>
      var m := TakenAt(states, steps, i, steps[i].at.value);
      m < i && steps[m] == GetSnapshot
      && forall k :: Visible(Search(pieces, k, r.snapshot)) == ReadStore(AllUpdates(states[m].returned), k)
  {
    hide Enabled, After, AllInv, Shaped, Search, AllUpdates, ReadStore, Gathered, Run, Open;
    var j := ReadsInPieces(states, steps, r, i + 1, b, at, pieces);
    RunKeepsAll(states, steps);
    RunStep(states, steps, i);
    var q := OpenedBy(states[i], steps[i]);
    assert (states[i].readers + [q])[|states[i].readers|] == q && (states[i].readers + [r])[|states[i].readers|] == r;
    var from := if steps[i].at.None? then i else TakenAt(states, steps, i, steps[i].at.value);
    if steps[i].at.None? {
      SequenceIsCount(states[i]);
    } else {
      SnapshotTaken(states, steps, i);
      assert CountsReturned(states, steps, i, steps[i].at.value, states[i].snapshots[steps[i].at.value]);
    }
    ReturnedGrows(states, steps, from, i + 1);
    SameUpdates(states[from].returned, states[i + 1].returned, j);
  }
}
