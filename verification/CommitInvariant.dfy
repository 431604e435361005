/** What every step of the commit protocol keeps. */
module CommitInvariant {
  import opened Bytes
  import opened Entries
  import opened CommitProtocol
  import opened CompactionMeaning

  // ---- The history of a state, and sequence facts

  /** Writers whose batches are in the log, in queue order. */
  function Logged(s: State): seq<Writer>
    requires s.phase.Committing? ==> s.phase.group <= |s.queue|
  {
    s.returned + if s.phase.Committing? && s.phase.logged then s.queue[..s.phase.group] else []
  }

  /** Every update logged so far, numbered from 1 in queue order. */
  function History(s: State): seq<Entry>
    requires s.phase.Committing? ==> s.phase.group <= |s.queue|
  {
    Numbered(1, AllUpdates(Logged(s)))
  }

  /** How many of them are in the memtables. */
  function Applied(s: State): nat {
    s.lastSequence + if s.phase.Committing? then s.phase.inserted else 0
  }

  lemma {:induction false} AllUpdatesConcat(a: seq<Writer>, b: seq<Writer>)
    ensures AllUpdates(a + b) == AllUpdates(a) + AllUpdates(b)
  {
    if b == [] {
      assert a + b == a;
    } else {
      var n := |b| - 1;
      AllUpdatesConcat(a, b[..n]);
      assert (a + b)[..|a + b| - 1] == a + b[..n];
      assert (AllUpdates(a) + AllUpdates(b[..n])) + b[n].Updates() == AllUpdates(a) + (AllUpdates(b[..n]) + b[n].Updates());
    }
  }

  lemma NumberedConcat(first: SequenceNumber, a: seq<Update>, b: seq<Update>)
    ensures Numbered(first, a + b) == Numbered(first, a) + Numbered(first + |a|, b)
  {
  }

  // ---- The parts of the invariant

  ghost predicate QueueInv(s: State) {
    && s.lastSequence == |AllUpdates(s.returned)|
    && match s.phase
       case Waiting => true
       case Committing(n, first, updates, logged, synced, inserted) =>
         && 1 <= n <= |s.queue| && s.queue[0].batch.Some?
         && updates == AllUpdates(s.queue[..n]) && first == s.lastSequence + 1
         && inserted <= |updates| && (inserted > 0 || synced ==> logged)
         && (forall i | 1 <= i < n :: s.queue[i].sync ==> s.queue[0].sync)
  }

  /** The memtables cut the history into consecutive pieces, up to the last update applied. */
  ghost predicate MemoryInv(s: State)
    requires Shaped(s)
  {
    var last := |s.memtables| - 1;
    && s.starts[0] == 0
    && (forall i, j | 0 <= i <= j <= last :: s.starts[i] <= s.starts[j])
    && s.starts[last] <= s.lastSequence && Applied(s) <= |History(s)|
    && (forall i | 0 <= i < last :: s.memtables[i] == History(s)[s.starts[i]..s.starts[i + 1]])
    && s.memtables[last] == History(s)[s.starts[last]..Applied(s)]
    && (s.imm.Some? ==> s.imm.value == last - 1)
  }

  /** The current log holds what the current memtable will; the one before it, what imm_ does. */
  ghost predicate LogInv(s: State)
    requires Shaped(s)
  {
    var last := |s.memtables| - 1;
    && s.logs.Keys == {s.versionLog, s.logFile} && s.versionLog <= s.logFile < s.nextFile
    && s.starts[last] <= |History(s)|
    && EntriesOfLog(s.logs[s.logFile].records) == History(s)[s.starts[last]..]
    && s.logs[s.logFile].synced <= |s.logs[s.logFile].records|
    && (s.imm.None? ==> s.versionLog == s.logFile)
    && (s.imm.Some? ==>
          && s.versionLog < s.logFile && s.imm.value == last - 1 && s.starts[last - 1] <= s.starts[last]
          && s.logs[s.versionLog].synced <= |s.logs[s.versionLog].records|
          && EntriesOfLog(s.logs[s.versionLog].records) == History(s)[s.starts[last - 1]..s.starts[last]])
  }

  /** With which update the oldest memtable not yet flushed begins. */
  function Unflushed(s: State): nat
    requires Shaped(s)
  {
    s.starts[if s.imm.Some? then s.imm.value else |s.memtables| - 1]
  }

  /** `content` tells every reader at `floor` or later what `meant` would. */
  ghost predicate StandsFor(content: set<Entry>, meant: seq<Entry>, floor: SequenceNumber) {
    && content <= Elements(meant)
    && forall k, s | s >= floor :: Visible(Lookup(content, k, s)) == Visible(Lookup(Elements(meant), k, s))
  }

  ghost predicate VersionOk(tables: map<nat, set<Entry>>, history: seq<Entry>, v: Version) {
    && v.upTo <= |history| && v.files <= tables.Keys
    && StandsFor(EntriesOfFiles(tables, v.files), history[..v.upTo], v.floor)
  }

  ghost predicate VersionInv(s: State)
    requires Shaped(s)
  {
    && VersionOk(s.tables, History(s), s.current) && s.current.upTo == Unflushed(s)
    && (s.background.Installing? ==>
          && VersionOk(s.tables, History(s), s.background.version)
          && s.background.version.upTo ==
               if s.background.flush then s.starts[|s.memtables| - 1] else Unflushed(s))
  }

  /** Background work: file numbers reserved, nothing shared with the version in use. */
  ghost predicate BackgroundInv(s: State)
    requires Shaped(s)
  {
    && (forall f | f in s.tables :: f < s.nextFile) && (forall f | f in s.pending :: f < s.nextFile)
    && match s.background
       case Idle => true
       case BuildingTable(n) => s.imm.Some? && n < s.nextFile && n !in s.tables
       case TableBuilt(n) =>
         && s.imm.Some? && n < s.nextFile && n !in s.current.files
         && (if n in s.tables then s.tables[n] == Elements(s.memtables[s.imm.value])
             else s.memtables[s.imm.value] == [])
       case Compacting(inputs, outputs, smallest) =>
         inputs <= s.current.files && outputs <= s.tables.Keys * s.pending && outputs !! s.current.files
       case Installing(v, log, flush, released, manifest) =>
         && (flush ==> s.imm.Some? && log == s.logFile) && (!flush ==> log == s.versionLog)
  }

  /** Sequence numbers between two writers: a snapshot there splits no batch. */
  ghost predicate Between(ws: seq<Writer>, s: SequenceNumber) {
    exists j :: 0 <= j <= |ws| && s == |AllUpdates(ws[..j])|
  }

  ghost predicate SnapshotOk(s: State, snapshot: SequenceNumber) {
    && s.current.floor <= snapshot <= s.lastSequence && Between(s.returned, snapshot)
    && (s.background.Compacting? ==> s.background.smallest <= snapshot)
    && (s.background.Installing? ==> s.background.version.floor <= snapshot)
  }

  /** The snapshot list is ordered oldest first, and no compaction looks past the oldest. */
  ghost predicate SnapshotInv(s: State) {
    && SnapshotOk(s, s.lastSequence)
    && (forall i | 0 <= i < |s.snapshots| :: SnapshotOk(s, s.snapshots[i]))
    && forall i, j | 0 <= i <= j < |s.snapshots| :: s.snapshots[i] <= s.snapshots[j]
  }

  /** A reader's memtables and version together reach back to the beginning and forward at
      least to its snapshot. */
  ghost predicate ReaderOk(s: State, r: Reader)
    requires Shaped(s)
  {
    && r.mem < |s.memtables| && (r.imm.Some? ==> r.imm.value + 1 == r.mem)
    && VersionOk(s.tables, History(s), r.version)
    && r.version.upTo == s.starts[if r.imm.Some? then r.imm.value else r.mem]
    && r.version.floor <= r.snapshot <= s.lastSequence && Between(s.returned, r.snapshot)
    && (r.mem + 1 < |s.memtables| ==> r.snapshot <= s.starts[r.mem + 1])
  }

  ghost predicate ReaderInv(s: State)
    requires Shaped(s)
  {
    forall i | 0 <= i < |s.readers| :: ReaderOk(s, s.readers[i])
  }

  ghost predicate Inv(s: State) {
    && Shaped(s) && QueueInv(s) && MemoryInv(s) && LogInv(s) && VersionInv(s) && BackgroundInv(s)
    && SnapshotInv(s) && ReaderInv(s)
  }

  // ---- The history only grows

  lemma HistoryOnEnqueue(s: State, w: Writer)
    requires Shaped(s)
    ensures History(After(s, Enqueue(w))) == History(s)
  {
    assert s.phase.Committing? ==> (s.queue + [w])[..s.phase.group] == s.queue[..s.phase.group];
  }

  lemma HistoryOnAppend(s: State)
    requires Shaped(s) && QueueInv(s) && Enabled(s, AppendRecord)
    ensures History(After(s, AppendRecord)) == History(s) + Numbered(s.phase.first, s.phase.updates)
  {
    assert s.returned + [] == s.returned;
    AllUpdatesConcat(s.returned, s.queue[..s.phase.group]);
    NumberedConcat(1, AllUpdates(s.returned), s.phase.updates);
  }

  lemma HistoryOnFinish(s: State)
    requires Shaped(s) && Enabled(s, FinishGroup)
    ensures History(After(s, FinishGroup)) == History(s)
  {
    assert After(s, FinishGroup).returned + [] == Logged(s);
  }

  lemma UpdatesOfNone(ws: seq<Writer>, w: Writer)
    requires w.batch.None?
    ensures AllUpdates(ws + [w]) == AllUpdates(ws)
  {
    assert (ws + [w])[..|ws|] == ws;
  }

  lemma HistoryOnEmpty(s: State)
    requires Shaped(s) && Enabled(s, FinishEmpty)
    ensures History(After(s, FinishEmpty)) == History(s)
  {
    assert s.returned + [] == s.returned && s.returned + [s.queue[0]] + [] == s.returned + [s.queue[0]];
    UpdatesOfNone(s.returned, s.queue[0]);
  }

  lemma HistoryGrows(s: State, step: Step)
    requires Shaped(s) && QueueInv(s) && Enabled(s, step)
    ensures After(s, step).phase.Committing? ==> After(s, step).phase.group <= |After(s, step).queue|
    ensures History(After(s, step)) ==
      if step.AppendRecord? then History(s) + Numbered(s.phase.first, s.phase.updates) else History(s)
  {
    hide Preserves, Numbered, AllUpdates;
    match step {
      case Enqueue(w) => HistoryOnEnqueue(s, w);
      case AppendRecord => HistoryOnAppend(s);
      case FinishGroup => HistoryOnFinish(s);
      case FinishEmpty => HistoryOnEmpty(s);
      case _ =>
    }
  }

  lemma HistoryLength(s: State)
    requires QueueInv(s)
    ensures |History(s)| == s.lastSequence + if s.phase.Committing? && s.phase.logged then |s.phase.updates| else 0
    ensures s.phase.Committing? && s.phase.logged ==>
      History(s)[s.lastSequence..] == Numbered(s.phase.first, s.phase.updates)
  {
    assert s.returned + [] == s.returned;
    if s.phase.Committing? && s.phase.logged {
      AllUpdatesConcat(s.returned, s.queue[..s.phase.group]);
      NumberedConcat(1, AllUpdates(s.returned), s.phase.updates);
    }
  }

  // ---- Each part is kept

  lemma KeepsShape(s: State, step: Step)
    requires Shaped(s) && QueueInv(s) && MemoryInv(s) && LogInv(s) && BackgroundInv(s) && Enabled(s, step)
    ensures Shaped(After(s, step))
  {
    hide Preserves, History, AllUpdates, Numbered, EntriesOfLog;
  }

  lemma QueueOnStart(s: State, n: nat)
    requires Shaped(s) && QueueInv(s) && Enabled(s, StartGroup(n))
    ensures QueueInv(After(s, StartGroup(n)))
  {
    hide AllUpdates, TotalSize;
    forall i | 1 <= i < n ensures s.queue[i].sync ==> s.queue[0].sync {
      assert Rides(s.queue, i);
    }
  }

  lemma QueueOnFinish(s: State)
    requires Shaped(s) && QueueInv(s) && Enabled(s, FinishGroup)
    ensures QueueInv(After(s, FinishGroup))
  {
    AllUpdatesConcat(s.returned, s.queue[..s.phase.group]);
  }

  lemma KeepsQueue(s: State, step: Step)
    requires Shaped(s) && QueueInv(s) && Enabled(s, step)
    ensures QueueInv(After(s, step))
  {
    hide IsGroup, Preserves, AllUpdates, Numbered;
    match step {
      case Enqueue(w) =>
        assert s.phase.Committing? ==> (s.queue + [w])[..s.phase.group] == s.queue[..s.phase.group];
      case StartGroup(n) => QueueOnStart(s, n);
      case FinishGroup => QueueOnFinish(s);
      case FinishEmpty => UpdatesOfNone(s.returned, s.queue[0]);
      case _ =>
    }
  }

  lemma MemoryOnInsert(s: State)
    requires Shaped(s) && QueueInv(s) && MemoryInv(s) && Enabled(s, InsertNext)
    ensures MemoryInv(After(s, InsertNext))
  {
    hide AllUpdates, Numbered, History;
    HistoryGrows(s, InsertNext);
    HistoryLength(s);
    var t, last, i := After(s, InsertNext), |s.memtables| - 1, s.phase.inserted;
    assert History(s)[s.lastSequence..][i] == History(s)[Applied(s)];
    assert t.memtables[last] == History(s)[s.starts[last]..Applied(t)];
  }

  lemma MemoryOnAppend(s: State)
    requires Shaped(s) && QueueInv(s) && MemoryInv(s) && Enabled(s, AppendRecord)
    ensures MemoryInv(After(s, AppendRecord))
  {
    hide AllUpdates, Numbered, History;
    HistoryGrows(s, AppendRecord);
  }

  lemma MemoryOnSwitch(s: State)
    requires Shaped(s) && QueueInv(s) && MemoryInv(s) && Enabled(s, SwitchMemtable)
    ensures MemoryInv(After(s, SwitchMemtable))
  {
    hide AllUpdates, Numbered, History;
    HistoryGrows(s, SwitchMemtable);
    HistoryLength(s);
  }

  lemma MemoryOnFinish(s: State)
    requires Shaped(s) && QueueInv(s) && MemoryInv(s) && Enabled(s, FinishGroup)
    ensures MemoryInv(After(s, FinishGroup))
  {
    hide AllUpdates, Numbered, History;
    HistoryGrows(s, FinishGroup);
  }

  lemma MemoryOnEmpty(s: State)
    requires Shaped(s) && QueueInv(s) && MemoryInv(s) && Enabled(s, FinishEmpty)
    ensures MemoryInv(After(s, FinishEmpty))
  {
    hide AllUpdates, Numbered, History;
    HistoryGrows(s, FinishEmpty);
  }

  lemma MemoryUntouched(s: State, step: Step)
    requires Shaped(s) && Enabled(s, step)
    requires !step.InsertNext? && !step.SwitchMemtable? && !step.FinishGroup? && !step.FinishEmpty?
    ensures var t := After(s, step);
      && t.memtables == s.memtables && t.starts == s.starts && t.lastSequence == s.lastSequence
      && Applied(t) == Applied(s) && (t.imm == s.imm || t.imm.None?)
  {
    hide Preserves, AllUpdates, Numbered, IsGroup;
  }

  lemma KeepsMemory(s: State, step: Step)
    requires Shaped(s) && QueueInv(s) && MemoryInv(s) && Enabled(s, step) && Shaped(After(s, step))
    ensures MemoryInv(After(s, step))
  {
    hide History, After, Applied, Enabled;
    if step.InsertNext? {
      MemoryOnInsert(s);
    } else if step.SwitchMemtable? {
      MemoryOnSwitch(s);
    } else if step.FinishGroup? {
      MemoryOnFinish(s);
    } else if step.FinishEmpty? {
      MemoryOnEmpty(s);
    } else if step.AppendRecord? {
      MemoryOnAppend(s);
    } else {
      HistoryGrows(s, step);
      MemoryUntouched(s, step);
    }
  }

  lemma LogOnAppend(s: State)
    requires Shaped(s) && QueueInv(s) && LogInv(s) && Enabled(s, AppendRecord)
    ensures LogInv(After(s, AppendRecord))
  {
    hide History, AllUpdates, Numbered;
    HistoryGrows(s, AppendRecord);
    HistoryLength(s);
    var t, records := After(s, AppendRecord), s.logs[s.logFile].records;
    assert t.logs[s.logFile].records[..|records|] == records;
  }

  lemma LogOnSwitch(s: State)
    requires Shaped(s) && QueueInv(s) && MemoryInv(s) && LogInv(s) && Enabled(s, SwitchMemtable)
    ensures LogInv(After(s, SwitchMemtable))
  {
    hide History, AllUpdates, Numbered;
    HistoryGrows(s, SwitchMemtable);
    HistoryLength(s);
    assert s.versionLog == s.logFile && |History(s)| == s.lastSequence;
  }

  lemma LogOnInstall(s: State)
    requires Shaped(s) && QueueInv(s) && LogInv(s) && BackgroundInv(s) && Enabled(s, InstallVersion)
    requires Shaped(After(s, InstallVersion))
    ensures LogInv(After(s, InstallVersion))
  {
    hide History, AllUpdates, Numbered, EntriesOfLog;
    HistoryGrows(s, InstallVersion);
  }

  lemma KeepsLog(s: State, step: Step)
    requires Shaped(s) && QueueInv(s) && MemoryInv(s) && LogInv(s) && BackgroundInv(s) && Enabled(s, step)
    requires Shaped(After(s, step))
    ensures LogInv(After(s, step))
  {
    hide MemoryInv, BackgroundInv, Preserves, History, AllUpdates, Numbered, IsGroup, EntriesOfLog;
    HistoryGrows(s, step);
    match step {
      case AppendRecord => LogOnAppend(s);
      case SwitchMemtable => LogOnSwitch(s);
      case InstallVersion => LogOnInstall(s);
      case _ =>
    }
  }

  // ---- Versions go on standing for the same updates

  lemma EntriesOfSameFiles(a: map<nat, set<Entry>>, b: map<nat, set<Entry>>, files: set<nat>)
    requires forall f | f in files :: f in a && f in b && a[f] == b[f]
    ensures EntriesOfFiles(a, files) == EntriesOfFiles(b, files)
  {
  }

  lemma EntriesOfMoreFiles(tables: map<nat, set<Entry>>, a: set<nat>, b: set<nat>)
    ensures EntriesOfFiles(tables, a + b) == EntriesOfFiles(tables, a) + EntriesOfFiles(tables, b)
  {
  }

  lemma VersionStays(a: map<nat, set<Entry>>, b: map<nat, set<Entry>>, h: seq<Entry>, more: seq<Entry>, v: Version)
    requires VersionOk(a, h, v) && forall f | f in v.files :: f in b && a[f] == b[f]
    ensures VersionOk(b, h + more, v)
  {
    hide StandsFor, EntriesOfFiles;
    EntriesOfSameFiles(a, b, v.files);
    assert (h + more)[..v.upTo] == h[..v.upTo];
  }

  lemma HistorySequence(s: State, i: nat)
    requires s.phase.Committing? ==> s.phase.group <= |s.queue|
    requires i < |History(s)|
    ensures History(s)[i].key.sequence == i + 1
  {
  }

  /** Each update has the sequence number of its place. */
  ghost predicate InSequence(h: seq<Entry>) {
    forall i | 0 <= i < |h| :: h[i].key.sequence == i + 1
  }

  lemma HistoryInSequence(s: State)
    requires s.phase.Committing? ==> s.phase.group <= |s.queue|
    ensures InSequence(History(s))
  {
    forall i | 0 <= i < |History(s)| ensures History(s)[i].key.sequence == i + 1 {
      HistorySequence(s, i);
    }
  }

  lemma LaterIsAbove(h: seq<Entry>, a: nat, b: nat, content: set<Entry>)
    requires InSequence(h) && a <= b <= |h| && content <= Elements(h[..a])
    ensures Above(Elements(h[a..b]), content) && Distinct(Elements(h[a..b]) + content)
    ensures Elements(h[..b]) == Elements(h[a..b]) + Elements(h[..a])
  {
    forall e | e in Elements(h[a..b]) ensures exists i :: a <= i < b && h[i] == e {
      var i :| 0 <= i < b - a && h[a..b][i] == e;
      assert h[a + i] == e;
    }
    forall e | e in Elements(h[..a]) ensures exists i :: 0 <= i < a && h[i] == e {
      var i :| 0 <= i < a && h[..a][i] == e;
      assert h[i] == e;
    }
    assert h[..b] == h[..a] + h[a..b];
  }

  /** Adding all updates from `a` to `b` to what stands for the first `a`. */
  lemma StandsForMore(h: seq<Entry>, a: nat, b: nat, content: set<Entry>, floor: SequenceNumber)
    requires InSequence(h) && a <= b <= |h| && StandsFor(content, h[..a], floor)
    ensures StandsFor(content + Elements(h[a..b]), h[..b], floor)
  {
    hide InSequence, Above, Distinct, Elements, Lookup;
    var earlier, later := Elements(h[..a]), Elements(h[a..b]);
    LaterIsAbove(h, a, b, content);
    LaterIsAbove(h, a, b, earlier);
    assert content + later == later + content;
    forall k, s | s >= floor
      ensures Visible(Lookup(content + later, k, s)) == Visible(Lookup(Elements(h[..b]), k, s))
    {
      UnionLookup(later, content, k, s);
      UnionLookup(later, earlier, k, s);
    }
  }

  lemma FlushedStandsFor(s: State, n: nat)
    requires Inv(s) && s.background == TableBuilt(n) && s.imm.Some?
    ensures VersionOk(s.tables, History(s), FlushedVersion(s, n))
  {
    hide QueueInv, LogInv, SnapshotInv, ReaderInv, History, AllUpdates, Numbered, StandsFor, EntriesOfFiles;
    var h, v, a, b := History(s), s.current, s.starts[s.imm.value], s.starts[s.imm.value + 1];
    var content := EntriesOfFiles(s.tables, v.files);
    HistoryInSequence(s);
    StandsForMore(h, a, b, content, v.floor);
    EntriesOfMoreFiles(s.tables, v.files, {n});
    NewTable(s.tables, n);
    if n in s.tables {
      assert s.tables[n] == Elements(h[a..b]);
    } else {
      assert content + Elements(h[a..b]) == content;
      assert v.files + {} == v.files;
    }
  }

  lemma NewTable(tables: map<nat, set<Entry>>, n: nat)
    ensures n in tables ==> EntriesOfFiles(tables, {n}) == tables[n]
  {
  }

  lemma CompactedStandsFor(s: State)
    requires Shaped(s) && VersionInv(s) && BackgroundInv(s) && s.background.Compacting?
    requires Enabled(s, EditCompaction)
    ensures VersionOk(s.tables, History(s), CompactedVersion(s))
  {
    hide History, EntriesOfFiles, Lookup, Elements;
    var v, b := s.current, s.background;
    EntriesOfMoreFiles(s.tables, v.files - b.inputs, b.inputs);
    assert (v.files - b.inputs) + b.inputs == v.files;
    EntriesOfMoreFiles(s.tables, v.files - b.inputs, b.outputs);
  }

  lemma VersionOnFlush(s: State)
    requires Inv(s) && Enabled(s, EditFlush)
    ensures VersionInv(After(s, EditFlush))
  {
    hide QueueInv, LogInv, SnapshotInv, ReaderInv, History, VersionOk;
    HistoryGrows(s, EditFlush);
    FlushedStandsFor(s, s.background.number);
  }

  lemma VersionOnCompaction(s: State)
    requires Inv(s) && Enabled(s, EditCompaction)
    ensures VersionInv(After(s, EditCompaction))
  {
    hide QueueInv, LogInv, MemoryInv, SnapshotInv, ReaderInv, History, VersionOk;
    HistoryGrows(s, EditCompaction);
    CompactedStandsFor(s);
  }

  lemma VersionOnInstall(s: State)
    requires Inv(s) && Enabled(s, InstallVersion) && Shaped(After(s, InstallVersion))
    ensures VersionInv(After(s, InstallVersion))
  {
    hide QueueInv, LogInv, SnapshotInv, ReaderInv, History;
    HistoryGrows(s, InstallVersion);
    var t := After(s, InstallVersion);
    hide StandsFor, EntriesOfFiles;
    assert History(s) + [] == History(s);
    VersionStays(s.tables, t.tables, History(s), [], s.background.version);
  }

  lemma TablesStay(s: State, step: Step)
    requires Shaped(s) && BackgroundInv(s) && Enabled(s, step) && !step.InstallVersion?
    ensures forall f | f in s.tables :: f in After(s, step).tables && After(s, step).tables[f] == s.tables[f]
  {
    hide Preserves, AllUpdates, Numbered, IsGroup;
  }

  /** Steps that only add table files or updates. */
  lemma VersionElsewhere(s: State, step: Step, v: Version)
    requires Inv(s) && Enabled(s, step) && VersionOk(s.tables, History(s), v)
    requires !step.InstallVersion?
    ensures VersionOk(After(s, step).tables, History(After(s, step)), v)
  {
    hide QueueInv, LogInv, MemoryInv, SnapshotInv, ReaderInv, VersionInv, History, StandsFor, EntriesOfFiles, Preserves;
    hide AllUpdates, Numbered, IsGroup, After, BackgroundInv;
    HistoryGrows(s, step);
    TablesStay(s, step);
    assert v.files <= s.tables.Keys;
    var t := After(s, step);
    var more := if step.AppendRecord? then Numbered(s.phase.first, s.phase.updates) else [];
    assert History(t) == History(s) + more;
    VersionStays(s.tables, t.tables, History(s), more, v);
  }

  lemma KeepsVersion(s: State, step: Step)
    requires Inv(s) && Enabled(s, step) && Shaped(After(s, step))
    ensures VersionInv(After(s, step))
  {
    if step.EditFlush? {
      VersionOnFlush(s);
    } else if step.EditCompaction? {
      VersionOnCompaction(s);
    } else if step.InstallVersion? {
      VersionOnInstall(s);
    } else {
      hide VersionOk, History, After;
      VersionElsewhere(s, step, s.current);
      UnflushedStays(s, step);
      if s.background.Installing? {
        VersionElsewhere(s, step, s.background.version);
      }
    }
  }

  lemma UnflushedStays(s: State, step: Step)
    requires Inv(s) && Enabled(s, step) && Shaped(After(s, step))
    requires !step.EditFlush? && !step.EditCompaction? && !step.InstallVersion?
    ensures Unflushed(After(s, step)) == Unflushed(s) && After(s, step).current == s.current
    ensures var t := After(s, step); t.background.Installing? ==>
      && s.background.Installing? && t.background.version == s.background.version
      && t.background.flush == s.background.flush
      && (t.background.flush ==> t.starts[|t.memtables| - 1] == s.starts[|s.memtables| - 1])
  {
    hide QueueInv, LogInv, SnapshotInv, ReaderInv, VersionInv, History, Preserves, AllUpdates, Numbered, IsGroup;
  }

  // ---- Background work

  lemma BackgroundOnInsert(s: State)
    requires Inv(s) && Enabled(s, InsertNext)
    ensures BackgroundInv(After(s, InsertNext))
  {
    hide QueueInv, VersionInv, SnapshotInv, ReaderInv, LogInv, History, AllUpdates, Numbered;
  }

  lemma BackgroundOnSwitch(s: State)
    requires Inv(s) && Enabled(s, SwitchMemtable)
    ensures BackgroundInv(After(s, SwitchMemtable))
  {
    hide QueueInv, MemoryInv, SnapshotInv, ReaderInv, History, StandsFor, EntriesOfFiles;
  }

  lemma BackgroundOnOutput(s: State, entries: set<Entry>)
    requires Inv(s) && Enabled(s, WriteOutput(entries))
    ensures BackgroundInv(After(s, WriteOutput(entries)))
  {
    hide QueueInv, MemoryInv, LogInv, SnapshotInv, ReaderInv, History, StandsFor, EntriesOfFiles;
  }

  lemma BackgroundElsewhere(s: State, step: Step)
    requires Inv(s) && Enabled(s, step) && Shaped(After(s, step))
    requires !step.InsertNext? && !step.SwitchMemtable? && !step.WriteOutput?
    ensures BackgroundInv(After(s, step))
  {
    hide QueueInv, MemoryInv, LogInv, SnapshotInv, ReaderInv, History, Preserves, AllUpdates, Numbered, IsGroup;
    hide StandsFor, EntriesOfFiles;
  }

  lemma KeepsBackground(s: State, step: Step)
    requires Inv(s) && Enabled(s, step) && Shaped(After(s, step))
    ensures BackgroundInv(After(s, step))
  {
    hide Inv, After, BackgroundInv, Enabled;
    if step.InsertNext? {
      BackgroundOnInsert(s);
    } else if step.SwitchMemtable? {
      BackgroundOnSwitch(s);
    } else if step.WriteOutput? {
      BackgroundOnOutput(s, step.entries);
    } else {
      BackgroundElsewhere(s, step);
    }
  }

  // ---- Snapshots and readers

  lemma BetweenStays(ws: seq<Writer>, more: seq<Writer>, s: SequenceNumber)
    requires Between(ws, s)
    ensures Between(ws + more, s)
  {
    var j :| 0 <= j <= |ws| && s == |AllUpdates(ws[..j])|;
    assert (ws + more)[..j] == ws[..j];
  }

  lemma BetweenAtEnd(ws: seq<Writer>)
    ensures Between(ws, |AllUpdates(ws)|)
  {
    assert ws[..|ws|] == ws;
  }

  lemma SnapshotStays(s: State, step: Step, snapshot: SequenceNumber)
    requires Inv(s) && Enabled(s, step) && SnapshotOk(s, snapshot)
    requires snapshot == s.lastSequence || snapshot in s.snapshots
    ensures SnapshotOk(After(s, step), snapshot)
  {
    hide MemoryInv, LogInv, ReaderInv, History, Preserves, AllUpdates, Numbered, IsGroup, StandsFor, EntriesOfFiles;
    hide Between;
    match step {
      case FinishGroup => BetweenStays(s.returned, s.queue[..s.phase.group], snapshot);
      case FinishEmpty => BetweenStays(s.returned, [s.queue[0]], snapshot);
      case _ =>
    }
  }

  lemma LastSequenceOk(s: State, step: Step)
    requires Inv(s) && Enabled(s, step) && QueueInv(After(s, step))
    ensures SnapshotOk(After(s, step), After(s, step).lastSequence)
  {
    hide MemoryInv, LogInv, ReaderInv, VersionInv, History, Preserves, AllUpdates, Numbered, IsGroup, Between;
    SnapshotStays(s, step, s.lastSequence);
    BetweenAtEnd(After(s, step).returned);
  }

  lemma KeepsSnapshots(s: State, step: Step)
    requires Inv(s) && Enabled(s, step) && QueueInv(After(s, step))
    ensures SnapshotInv(After(s, step))
  {
    hide MemoryInv, LogInv, ReaderInv, VersionInv, BackgroundInv, History, Preserves, AllUpdates, Numbered, IsGroup;
    hide SnapshotOk;
    var t := After(s, step);
    LastSequenceOk(s, step);
    SnapshotStays(s, step, s.lastSequence);
    forall i | 0 <= i < |t.snapshots| ensures SnapshotOk(t, t.snapshots[i]) {
      assert t.snapshots[i] == s.lastSequence || t.snapshots[i] in s.snapshots;
      SnapshotStays(s, step, t.snapshots[i]);
    }
    SnapshotsOrdered(s, step);
  }

  lemma SnapshotsOrdered(s: State, step: Step)
    requires Shaped(s) && SnapshotInv(s) && Enabled(s, step)
    ensures var t := After(s, step);
      forall i, j | 0 <= i <= j < |t.snapshots| :: t.snapshots[i] <= t.snapshots[j]
  {
    hide Preserves, IsGroup, Between;
  }

  lemma ReaderStays(s: State, step: Step, r: Reader)
    requires Inv(s) && Enabled(s, step) && Shaped(After(s, step)) && ReaderOk(s, r) && r in s.readers
    ensures ReaderOk(After(s, step), r)
  {
    hide QueueInv, LogInv, ReaderInv, VersionInv, SnapshotInv, History, Preserves, AllUpdates, Numbered, IsGroup;
    hide VersionOk, Between;
    match step {
      case FinishGroup => BetweenStays(s.returned, s.queue[..s.phase.group], r.snapshot);
      case FinishEmpty => BetweenStays(s.returned, [s.queue[0]], r.snapshot);
      case _ =>
    }
    if step.InstallVersion? {
      ReaderOnInstall(s, r);
    } else {
      VersionElsewhere(s, step, r.version);
    }
  }

  lemma ReaderOnInstall(s: State, r: Reader)
    requires Inv(s) && Enabled(s, InstallVersion) && ReaderOk(s, r) && r in s.readers
    ensures VersionOk(After(s, InstallVersion).tables, History(After(s, InstallVersion)), r.version)
  {
    hide QueueInv, LogInv, ReaderInv, VersionInv, SnapshotInv, MemoryInv, History, StandsFor, EntriesOfFiles;
    var t := After(s, InstallVersion);
    HistoryGrows(s, InstallVersion);
    assert History(s) + [] == History(s);
    var i :| 0 <= i < |s.readers| && s.readers[i] == r;
    assert r.version.files <= t.tables.Keys by {
      assert forall f | f in r.version.files :: f in s.readers[i].version.files && f in s.tables;
    }
    VersionStays(s.tables, t.tables, History(s), [], r.version);
  }

  lemma ReaderOpens(s: State, at: Option<nat>)
    requires Inv(s) && Enabled(s, OpenReader(at))
    ensures var t := After(s, OpenReader(at)); Shaped(t) && ReaderOk(t, t.readers[|s.readers|])
  {
    hide QueueInv, LogInv, ReaderInv, History, AllUpdates, Numbered, VersionOk, Between;
    HistoryGrows(s, OpenReader(at));
  }

  lemma KeepsReaders(s: State, step: Step)
    requires Inv(s) && Enabled(s, step) && Shaped(After(s, step))
    ensures ReaderInv(After(s, step))
  {
    hide QueueInv, MemoryInv, LogInv, VersionInv, SnapshotInv, BackgroundInv, History, Preserves, IsGroup, ReaderOk;
    var t := After(s, step);
    forall i | 0 <= i < |t.readers| ensures ReaderOk(t, t.readers[i]) {
      if step.OpenReader? && i == |s.readers| {
        ReaderOpens(s, step.at);
      } else {
        assert t.readers[i] in s.readers;
        ReaderStays(s, step, t.readers[i]);
      }
    }
  }

  /** The invariant holds at the start and is kept by every step. */
  lemma InitialInv()
    ensures Inv(Initial())
  {
  }

  lemma StepKeepsInv(s: State, step: Step)
    requires Inv(s) && Enabled(s, step)
    ensures Inv(After(s, step))
  {
    hide QueueInv, MemoryInv, LogInv, VersionInv, SnapshotInv, BackgroundInv, ReaderInv, Enabled, After, Shaped;
    KeepsShape(s, step);
    KeepsQueue(s, step);
    KeepsMemory(s, step);
    KeepsLog(s, step);
    KeepsVersion(s, step);
    KeepsBackground(s, step);
    KeepsSnapshots(s, step);
    KeepsReaders(s, step);
  }
}
