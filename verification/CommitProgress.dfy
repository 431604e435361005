/** Nothing waits for ever: from every reachable state the waiting writers can be served, in the order
    in which they queue; a memtable that waits can be flushed; a compaction that keeps its promise can
    be carried through; and what was reserved or replaced on the way is given back. */
module CommitProgress {
  import opened Bytes
  import opened Entries
  import opened CommitProtocol
  import opened CommitInvariant
  import opened CommitDurability

  // ---- Steps in a row

  ghost predicate Reaches(s: State, steps: seq<Step>, t: State)
    decreases |steps|
  {
    if steps == [] then s == t
    else Shaped(s) && Enabled(s, steps[0]) && Reaches(After(s, steps[0]), steps[1..], t)
  }

  lemma ReachesNext(s: State, step: Step, more: seq<Step>, t: State)
    requires Shaped(s) && Enabled(s, step) && Reaches(After(s, step), more, t)
    ensures Reaches(s, [step] + more, t)
  {
    hide After, Enabled, Shaped;
    assert ([step] + more)[1..] == more;
  }

  /** Such steps go on with any run. */
  lemma {:induction false} RunGoesOn(states: seq<State>, steps: seq<Step>, more: seq<Step>, t: State)
    returns (longer: seq<State>)
    requires Run(states, steps) && Reaches(states[|steps|], more, t)
    ensures Run(longer, steps + more) && longer[..|states|] == states && longer[|steps| + |more|] == t
    decreases |more|
  {
    hide After, Enabled, Shaped;
    if more == [] {
      assert steps + more == steps;
      longer := states;
    } else {
      var next := After(states[|steps|], more[0]);
      longer := RunGoesOn(states + [next], steps + [more[0]], more[1..], t);
      assert steps + [more[0]] + more[1..] == steps + more;
      assert longer[..|states|] == longer[..|states| + 1][..|states|];
    }
  }

  // ---- Writers

  predicate ServesWriters(step: Step) {
    step.StartGroup? || step.AppendRecord? || step.SyncLog? || step.InsertNext? || step.FinishGroup? || step.FinishEmpty?
  }

  lemma {:induction false} GroupExists(queue: seq<Writer>, n: nat) returns (m: nat)
    requires 1 <= n <= |queue| && queue[0].batch.Some? && forall i | 1 <= i < n :: Rides(queue, i)
    ensures IsGroup(queue, m)
    decreases |queue| - n
  {
    hide Rides;
    if n < |queue| && Rides(queue, n) {
      m := GroupExists(queue, n + 1);
    } else {
      m := n;
    }
  }

  /** What is left to do before the writer in front is served. */
  ghost function Ahead(s: State): nat {
    match s.phase
    case Waiting => 0
    case Committing(n, first, updates, logged, synced, inserted) =>
      (if logged then 0 else 1) + (if synced then 0 else 1) + if inserted <= |updates| then |updates| - inserted else 0
  }

  /** The writers in front have returned; the others wait on. */
  ghost predicate Served(s: State, t: State) {
    exists n :: 1 <= n <= |s.queue| && t.returned == s.returned + s.queue[..n] && t.queue == s.queue[n..]
  }

  ghost predicate Closer(s: State, t: State) {
    && t.queue == s.queue && t.returned == s.returned
    && t.phase.Committing? && (s.phase.Committing? ==> Ahead(t) < Ahead(s))
  }

  lemma FrontMoves(s: State) returns (step: Step)
    requires Shaped(s) && QueueInv(s) && s.queue != []
    ensures ServesWriters(step) && Enabled(s, step)
    ensures Served(s, After(s, step)) || Closer(s, After(s, step))
  {
    hide AllUpdates, Numbered, IsGroup, Preserves;
    match s.phase {
      case Waiting =>
        if s.queue[0].batch.None? {
          step := FinishEmpty;
          assert s.queue[..1] == [s.queue[0]];
        } else {
          var n := GroupExists(s.queue, 1);
          step := StartGroup(n);
        }
      case Committing(n, first, updates, logged, synced, inserted) =>
        step := if !logged then AppendRecord
                else if s.queue[0].sync && !synced then SyncLog
                else if inserted < |updates| then InsertNext
                else FinishGroup;
    }
  }

  /** Whatever happened before, the writers that wait can all be served, in the order of the queue. */
  lemma {:induction false} WritersReturn(s: State) returns (steps: seq<Step>, t: State)
    requires Inv(s)
    ensures Reaches(s, steps, t) && forall i | 0 <= i < |steps| :: ServesWriters(steps[i])
    ensures t.queue == [] && t.returned == s.returned + s.queue
    decreases |s.queue|, s.phase.Waiting?, Ahead(s)
  {
    hide QueueInv, MemoryInv, LogInv, VersionInv, BackgroundInv, SnapshotInv, ReaderInv, Shaped, After, Enabled, Ahead;
    if s.queue == [] {
      steps, t := [], s;
    } else {
      var step := FrontMoves(s);
      StepKeepsInv(s, step);
      var next := After(s, step);
      var more;
      more, t := WritersReturn(next);
      ReachesNext(s, step, more, t);
      steps := [step] + more;
      if Served(s, next) {
        var n :| 1 <= n <= |s.queue| && next.returned == s.returned + s.queue[..n] && next.queue == s.queue[n..];
        assert s.queue[..n] + s.queue[n..] == s.queue;
        Associate(s.returned, s.queue[..n], s.queue[n..]);
      }
    }
  }

  // ---- The background thread

  predicate ServesFlush(step: Step) {
    step.StartFlush? || step.BuildTable? || step.EditFlush? || step.WriteManifest? || step.InstallVersion?
  }

  /** What is left to do before the memtable that waits is flushed. */
  function Pending(b: Background): nat {
    match b
    case Installing(_, _, flush, _, manifest) => (if flush then 0 else 5) + if manifest then 0 else 1
    case TableBuilt(_) => 2
    case BuildingTable(_) => 3
    case Idle => 4
    case Compacting(_, _, _) => 7
  }

  /** Writers, memtables, snapshots and readers are as they were. */
  ghost predicate Undisturbed(s: State, t: State) {
    && t.queue == s.queue && t.returned == s.returned && t.phase == s.phase && t.lastSequence == s.lastSequence
    && t.memtables == s.memtables && t.starts == s.starts && t.logFile == s.logFile
    && t.snapshots == s.snapshots && t.readers == s.readers
  }

  lemma FlushMoves(s: State) returns (step: Step)
    requires Shaped(s) && s.imm.Some? && !s.background.Compacting?
    ensures ServesFlush(step) && Enabled(s, step)
    ensures var t := After(s, step);
      && Undisturbed(s, t)
      && if t.imm.None? then t.background.Idle?
         else t.imm == s.imm && !t.background.Compacting? && Pending(t.background) < Pending(s.background)
  {
    hide AllUpdates, Numbered, Preserves;
    match s.background {
      case Idle => step := StartFlush;
      case BuildingTable(_) => step := BuildTable;
      case TableBuilt(_) => step := EditFlush;
      case Installing(_, _, _, _, manifest) => step := if manifest then InstallVersion else WriteManifest;
    }
  }

  /** A memtable that waits can be flushed: a new one may take its place and its log is gone. */
  lemma {:induction false} FlushGoesThrough(s: State) returns (steps: seq<Step>, t: State)
    requires Inv(s) && s.imm.Some? && !s.background.Compacting?
    ensures Reaches(s, steps, t) && forall i | 0 <= i < |steps| :: ServesFlush(steps[i])
    ensures Inv(t) && Undisturbed(s, t) && t.imm.None? && t.background.Idle?
    ensures t.logs.Keys == {s.logFile}
    decreases Pending(s.background)
  {
    hide QueueInv, MemoryInv, VersionInv, BackgroundInv, SnapshotInv, ReaderInv, After, Enabled, Pending, EntriesOfLog, History;
    var step := FlushMoves(s);
    StepKeepsInv(s, step);
    var next := After(s, step);
    if next.imm.None? {
      steps, t := [], next;
      assert Reaches(next, [], next);
    } else {
      steps, t := FlushGoesThrough(next);
    }
    ReachesNext(s, step, steps, t);
    steps := [step] + steps;
  }

  ghost function Union(outs: seq<set<Entry>>): set<Entry> {
    set i, e | 0 <= i < |outs| && e in outs[i] :: e
  }

  /** The tables known before stay as they are. */
  ghost predicate Kept(s: State, t: State) {
    && s.nextFile <= t.nextFile
    && forall f | f < s.nextFile :: (f in t.tables <==> f in s.tables) && (f in s.tables ==> t.tables[f] == s.tables[f])
  }

  lemma SameEntries(s: State, t: State, files: set<nat>)
    requires Kept(s, t) && forall f | f in files :: f < s.nextFile
    ensures EntriesOfFiles(t.tables, files) == EntriesOfFiles(s.tables, files)
  {
  }

  lemma OneMoreOutput(s: State, entries: set<Entry>)
    requires Shaped(s) && s.background.Compacting? && forall f | f in s.background.outputs :: f < s.nextFile
    ensures var t := After(s, WriteOutput(entries));
      && Undisturbed(s, t) && Kept(s, t) && Shaped(t) && t.imm == s.imm && t.current == s.current
      && t.background.Compacting? && t.background.inputs == s.background.inputs
      && t.background.smallest == s.background.smallest
      && t.nextFile == s.nextFile + 1 && t.background.outputs == s.background.outputs + {s.nextFile}
      && EntriesOfFiles(t.tables, t.background.outputs) == EntriesOfFiles(s.tables, s.background.outputs) + entries
  {
    var t := After(s, WriteOutput(entries));
    SameEntries(s, t, s.background.outputs);
    OneFileMore(t.tables, s.background.outputs, s.nextFile);
  }

  lemma OneFileMore(tables: map<nat, set<Entry>>, files: set<nat>, f: nat)
    requires f in tables
    ensures EntriesOfFiles(tables, files + {f}) == EntriesOfFiles(tables, files) + tables[f]
  {
  }

  function NewFiles(first: nat, n: nat): set<nat>
    decreases n
  {
    if n == 0 then {} else {first} + NewFiles(first + 1, n - 1)
  }

  /** The outputs of a compaction have been written one after another. */
  ghost predicate Written(s: State, outs: seq<set<Entry>>, t: State) {
    && Shaped(t) && s.background.Compacting? && t.background.Compacting?
    && Undisturbed(s, t) && Kept(s, t) && t.imm == s.imm && t.current == s.current
    && t.background.inputs == s.background.inputs && t.background.smallest == s.background.smallest
    && t.background.outputs == s.background.outputs + NewFiles(s.nextFile, |outs|)
    && t.nextFile == s.nextFile + |outs|
    && (forall f | s.nextFile <= f < t.nextFile :: f in t.tables && t.tables[f] == outs[f - s.nextFile])
    && EntriesOfFiles(t.tables, t.background.outputs) == EntriesOfFiles(s.tables, s.background.outputs) + Union(outs)
  }

  lemma UnionMore(outs: seq<set<Entry>>)
    requires outs != []
    ensures Union(outs) == outs[0] + Union(outs[1..])
  {
    forall e | e in Union(outs) ensures e in outs[0] + Union(outs[1..]) {
      var i :| 0 <= i < |outs| && e in outs[i];
      assert i > 0 ==> outs[1..][i - 1] == outs[i];
    }
  }

  lemma WrittenMore(s: State, outs: seq<set<Entry>>, t: State)
    requires outs != [] && Shaped(s) && s.background.Compacting? && forall f | f in s.background.outputs :: f < s.nextFile
    requires Written(After(s, WriteOutput(outs[0])), outs[1..], t)
    ensures Written(s, outs, t)
  {
    OneMoreOutput(s, outs[0]);
    UnionMore(outs);
    var next := After(s, WriteOutput(outs[0]));
    assert next.tables[s.nextFile] == outs[0] && t.tables[s.nextFile] == outs[0];
    hide EntriesOfFiles, Union, Shaped, After;
    forall f | s.nextFile <= f < t.nextFile ensures f in t.tables && t.tables[f] == outs[f - s.nextFile] {
      if f > s.nextFile {
        assert f in t.tables && t.tables[f] == outs[1..][f - next.nextFile];
      }
    }
  }

  lemma {:induction false} WriteOutputs(s: State, outs: seq<set<Entry>>) returns (steps: seq<Step>, t: State)
    requires Shaped(s) && s.background.Compacting? && forall f | f in s.background.outputs :: f < s.nextFile
    ensures Reaches(s, steps, t) && Written(s, outs, t)
    decreases |outs|
  {
    if outs == [] {
      steps, t := [], s;
    } else {
      var step := WriteOutput(outs[0]);
      OneMoreOutput(s, outs[0]);
      steps, t := WriteOutputs(After(s, step), outs[1..]);
      WrittenMore(s, outs, t);
      hide Written, After, Shaped, Enabled;
      ReachesNext(s, step, steps, t);
      steps := [step] + steps;
    }
  }

  /** What a compaction of these tables owes its readers. */
  ghost predicate Owed(s: State, inputs: set<nat>, outs: seq<set<Entry>>) {
    Preserves(EntriesOfFiles(s.tables, s.current.files - inputs), EntriesOfFiles(s.tables, inputs), Union(outs), s.SmallestSnapshot())
  }

  /** A compaction has begun, with nothing written yet. */
  ghost predicate Begun(s: State, inputs: set<nat>, u: State) {
    && Undisturbed(s, u) && Shaped(u) && u.background == Compacting(inputs, {}, s.SmallestSnapshot())
    && u.tables == s.tables && u.nextFile == s.nextFile && u.imm == s.imm && u.current == s.current
  }

  lemma CompactionBegins(s: State, inputs: set<nat>)
    requires Shaped(s) && Enabled(s, StartCompaction(inputs))
    ensures Begun(s, inputs, After(s, StartCompaction(inputs)))
  {
  }

  lemma EditAllowed(s: State, inputs: set<nat>, outs: seq<set<Entry>>, u: State, t: State)
    requires forall f | f in s.current.files :: f < s.nextFile
    requires inputs <= s.current.files && Owed(s, inputs, outs) && Begun(s, inputs, u) && Written(u, outs, t)
    ensures Enabled(t, EditCompaction)
  {
    hide Preserves, Union, Undisturbed, Shaped, NewFiles;
    SameEntries(u, t, s.current.files - inputs);
    SameEntries(u, t, inputs);
    NoFiles(u.tables);
    assert EntriesOfFiles(t.tables, t.background.outputs) == Union(outs);
  }

  lemma NoFiles(tables: map<nat, set<Entry>>)
    ensures EntriesOfFiles(tables, {}) == {}
  {
  }

  lemma CurrentBelow(s: State)
    requires Inv(s)
    ensures Shaped(s) && forall f | f in s.current.files :: f in s.tables && f < s.nextFile
  {
    hide QueueInv, MemoryInv, LogInv, SnapshotInv, ReaderInv, StandsFor, History;
  }

  /** The three steps that install what a compaction has written. */
  lemma InstallOutputs(s: State) returns (steps: seq<Step>, t: State)
    requires Shaped(s) && s.background.Compacting? && Enabled(s, EditCompaction)
    ensures Reaches(s, steps, t) && Undisturbed(s, t) && t.background.Idle? && t.imm == s.imm
    ensures t.current.files == s.current.files - s.background.inputs + s.background.outputs
    ensures forall f | f in t.current.files && f in s.tables :: f in t.tables && t.tables[f] == s.tables[f]
  {
    hide AllUpdates, Numbered, Preserves, EntriesOfFiles;
    var s1 := After(s, EditCompaction);
    var s2 := After(s1, WriteManifest);
    t := After(s2, InstallVersion);
    steps := [EditCompaction, WriteManifest, InstallVersion];
    assert Reaches(t, [], t);
    hide After, Enabled, Shaped;
    ReachesNext(s2, InstallVersion, [], t);
    ReachesNext(s1, WriteManifest, [InstallVersion], t);
    ReachesNext(s, EditCompaction, [WriteManifest, InstallVersion], t);
  }

  /** A compaction whose outputs, however they are cut into tables, keep what it owes its readers can be
      carried through: the inputs give way to the outputs, and nothing else changes. */
  lemma CompactionGoesThrough(s: State, inputs: set<nat>, outs: seq<set<Entry>>) returns (steps: seq<Step>, t: State)
    requires Inv(s) && s.background.Idle? && s.imm.None? && inputs <= s.current.files && Owed(s, inputs, outs)
    ensures Reaches(s, steps, t) && Undisturbed(s, t) && t.background.Idle? && t.imm.None?
    ensures t.current.files == s.current.files - inputs + NewFiles(s.nextFile, |outs|)
    ensures forall i | 0 <= i < |outs| :: FileIs(t, s.nextFile + i, outs[i])
    ensures forall f | f in s.current.files - inputs :: f in s.tables && FileIs(t, f, s.tables[f])
  {
    var start := StartCompaction(inputs);
    CurrentBelow(s);
    assert Enabled(s, start);
    CompactionBegins(s, inputs);
    var u := After(s, start);
    hide Inv, After, Enabled, Owed, Preserves, Union, EntriesOfFiles, Shaped;
    var writes, w := WriteOutputs(u, outs);
    EditAllowed(s, inputs, outs, u, w);
    var installs;
    installs, t := InstallOutputs(w);
    FilesThere(s, inputs, outs, u, w, t);
    hide *;
    ReachesOn(u, writes, w, installs, t);
    ReachesNext(s, start, writes + installs, t);
    steps := [start] + (writes + installs);
  }

  lemma {:induction false} InNewFiles(first: nat, n: nat, f: nat)
    ensures f in NewFiles(first, n) <==> first <= f < first + n
    decreases n
  {
    if n > 0 {
      InNewFiles(first + 1, n - 1, f);
    }
  }

  lemma FilesThere(s: State, inputs: set<nat>, outs: seq<set<Entry>>, u: State, w: State, t: State)
    requires forall f | f in s.current.files :: f in s.tables && f < s.nextFile
    requires Begun(s, inputs, u) && Written(u, outs, w) && Undisturbed(w, t) && t.imm == w.imm
    requires t.current.files == w.current.files - w.background.inputs + w.background.outputs
    requires forall f | f in t.current.files && f in w.tables :: f in t.tables && t.tables[f] == w.tables[f]
    ensures t.imm == s.imm && Undisturbed(s, t)
    ensures t.current.files == s.current.files - inputs + NewFiles(s.nextFile, |outs|)
    ensures forall i | 0 <= i < |outs| :: FileIs(t, s.nextFile + i, outs[i])
    ensures forall f | f in s.current.files - inputs :: FileIs(t, f, s.tables[f])
  {
    hide EntriesOfFiles, NewFiles, Union, Shaped;
    forall i | 0 <= i < |outs| ensures FileIs(t, s.nextFile + i, outs[i]) {
      InNewFiles(s.nextFile, |outs|, s.nextFile + i);
      assert w.tables[s.nextFile + i] == outs[i];
    }
  }

  ghost predicate FileIs(s: State, f: nat, entries: set<Entry>) {
    f in s.tables && s.tables[f] == entries
  }

  lemma {:induction false} ReachesOn(s: State, a: seq<Step>, t: State, b: seq<Step>, u: State)
    requires Reaches(s, a, t) && Reaches(t, b, u)
    ensures Reaches(s, a + b, u)
    decreases |a|
  {
    hide Shaped, Enabled, After;
    if a == [] {
      assert a + b == b;
    } else {
      ReachesOn(After(s, a[0]), a[1..], t, b, u);
      ReachesNext(s, a[0], a[1..] + b, u);
      assert [a[0]] + (a[1..] + b) == a + b;
    }
  }

  // ---- Nothing is left behind

  /** The file numbers that the background work has reserved. */
  function Reserved(b: Background): set<nat> {
    match b
    case Idle => {}
    case BuildingTable(n) => {n}
    case TableBuilt(n) => {n}
    case Compacting(_, outputs, _) => outputs
    case Installing(_, _, _, released, _) => released
  }

  lemma ReservedKept(s: State, step: Step)
    requires Shaped(s) && Enabled(s, step) && s.pending == Reserved(s.background)
    ensures After(s, step).pending == Reserved(After(s, step).background)
  {
    hide AllUpdates, Numbered, Preserves, IsGroup, EntriesOfFiles;
  }

  lemma {:induction false} PendingIsReserved(states: seq<State>, steps: seq<Step>, i: nat)
    requires Run(states, steps) && |states| == |steps| + 1 && i < |states|
    ensures states[i].pending == Reserved(states[i].background)
  {
    if i > 0 {
      PendingIsReserved(states, steps, i - 1);
      hide After, Enabled, Shaped, Reserved;
      ReservedKept(states[i - 1], steps[i - 1]);
    }
  }

  /** In every run, installing a version leaves exactly the tables of the current version and of open
      readers, and exactly the logs that recovery could need. */
  lemma OnlyNeededIsLeft(states: seq<State>, steps: seq<Step>, i: nat)
    requires Run(states, steps) && |states| == |steps| + 1 && i < |steps| && steps[i] == InstallVersion
    ensures var t := states[i + 1];
      && t.pending == {} && t.logs.Keys == {t.versionLog, t.logFile}
      && forall f :: f in t.tables <==>
           f in t.current.files || exists r :: 0 <= r < |t.readers| && f in t.readers[r].version.files
  {
    RunKeepsAll(states, steps);
    PendingIsReserved(states, steps, i + 1);
    var s, t := states[i], states[i + 1];
    assert AllInv(s) && AllInv(t) && Enabled(s, InstallVersion) && t == After(s, InstallVersion);
    hide Run, QueueInv, MemoryInv, VersionInv, BackgroundInv, SnapshotInv, ReaderInv, SyncInv, History, EntriesOfLog;
    ObsoleteIsDeleted(s);
    NothingInUseMissing(t);
    assert t.background.Idle?;
    forall f | f in t.current.files || exists r :: 0 <= r < |t.readers| && f in t.readers[r].version.files
      ensures f in t.tables
    {
      assert f in InUse(t);
    }
  }
}
