/** Group commit, the write-ahead log, memtable switches, flushes, compactions and deletion of
    obsolete files, as a machine whose steps are the stretches of code between two points where
    the mutex changes hands.  Work done without the mutex has steps of its own. */
module CommitProtocol {
  import opened Bytes
  import opened Entries

  datatype Update = Update(user: UserKey, kind: Kind, value: Value)

  /** A client waiting in the queue.  No batch means: make room, write nothing. */
  datatype Writer = Writer(batch: Option<seq<Update>>, bytes: nat, sync: bool) {
    function Updates(): seq<Update> {
      if batch.Some? then batch.value else []
    }
    function Size(): nat {
      if batch.Some? then bytes else 0
    }
  }

  /** All updates of the writers, in queue order. */
  function AllUpdates(ws: seq<Writer>): seq<Update> {
    if ws == [] then [] else AllUpdates(ws[..|ws| - 1]) + ws[|ws| - 1].Updates()
  }

  function TotalSize(ws: seq<Writer>): nat {
    if ws == [] then 0 else TotalSize(ws[..|ws| - 1]) + ws[|ws| - 1].Size()
  }

  /** The entries that `us` turns into when numbered from `first` on. */
  function Numbered(first: SequenceNumber, us: seq<Update>): (es: seq<Entry>)
    ensures |es| == |us|
  {
    seq(|us|, i requires 0 <= i < |us| => Entry(InternalKey(us[i].user, first + i, us[i].kind), us[i].value))
  }

  // ---- Group building

  function MaxGroupSize(first: nat): nat {
    if first <= 0x20000 then first + 0x20000 else 0x100000
  }

  /** May the writer at `i` ride along, given that all before it do? */
  predicate Rides(queue: seq<Writer>, i: nat)
    requires i < |queue|
  {
    && (queue[i].sync ==> queue[0].sync)
    && (queue[i].batch.Some? ==> TotalSize(queue[..i + 1]) <= MaxGroupSize(queue[0].bytes))
  }

  /** The first `n` writers form the group: all ride, and the next one could not. */
  ghost predicate IsGroup(queue: seq<Writer>, n: nat) {
    && 1 <= n <= |queue| && queue[0].batch.Some?
    && (forall i | 1 <= i < n :: Rides(queue, i))
    && (n < |queue| ==> !Rides(queue, n))
  }

  /** The updates of the group, and how many writers it has. */
  method BuildBatchGroup(queue: seq<Writer>) returns (updates: seq<Update>, last: nat)
    requires queue != [] && queue[0].batch.Some?
    ensures IsGroup(queue, last) && updates == AllUpdates(queue[..last])
  {
    var size := queue[0].bytes;
    var maxSize := 0x100000;
    if size <= 0x20000 {
      maxSize := size + 0x20000;
    }
    updates, last := queue[0].batch.value, 1;
    assert queue[..1][..0] == [];
    var iter := 1;
    while iter < |queue|
      invariant 1 <= iter <= |queue| && last == iter
      invariant size == TotalSize(queue[..iter]) && updates == AllUpdates(queue[..iter])
      invariant forall i | 1 <= i < iter :: Rides(queue, i)
    {
      var w := queue[iter];
      assert queue[..iter + 1][..iter] == queue[..iter];
      if w.sync && !queue[0].sync {
        break;
      }
      if w.batch.Some? {
        size := size + w.bytes;
        if size > maxSize {
          break;
        }
        updates := updates + w.batch.value;
      }
      iter := iter + 1;
      last := iter;
    }
  }

  // ---- The state

  datatype Record = Record(first: SequenceNumber, updates: seq<Update>)

  /** A log file and how many of its records are known to have reached the disk. */
  datatype Log = Log(records: seq<Record>, synced: nat)

  function EntriesOfLog(records: seq<Record>): seq<Entry> {
    if records == [] then []
    else
      var r := records[|records| - 1];
      EntriesOfLog(records[..|records| - 1]) + Numbered(r.first, r.updates)
  }

  /** The tables a version refers to.  `upTo` and `floor` say what it stands for: the first
      `upTo` updates, as seen by readers at snapshot `floor` or later. */
  datatype Version = Version(files: set<nat>, upTo: nat, floor: SequenceNumber)

  /** What the writer at the front of the queue is doing. */
  datatype Phase =
    | Waiting
    | Committing(group: nat, first: SequenceNumber, updates: seq<Update>, logged: bool, synced: bool, inserted: nat)

  /** What the one background thread is doing. */
  datatype Background =
    | Idle
    | BuildingTable(number: nat)
    | TableBuilt(number: nat)
    | Compacting(inputs: set<nat>, outputs: set<nat>, smallest: SequenceNumber)
    | Installing(version: Version, log: nat, flush: bool, released: set<nat>, manifest: bool)

  /** A Get or iterator under way: it holds on to what was current when it started. */
  datatype Reader = Reader(snapshot: SequenceNumber, mem: nat, imm: Option<nat>, version: Version)

  /** `returned` are the writers whose Write has completed.  Memtables are numbered in order of
      creation; the last is mem_, and `starts` says with which update each one begins. */
  datatype State = State(
    queue: seq<Writer>, returned: seq<Writer>, phase: Phase, lastSequence: SequenceNumber,
    memtables: seq<seq<Entry>>, starts: seq<nat>, imm: Option<nat>,
    logs: map<nat, Log>, logFile: nat, nextFile: nat,
    tables: map<nat, set<Entry>>, pending: set<nat>,
    current: Version, versionLog: nat, background: Background,
    snapshots: seq<SequenceNumber>, readers: seq<Reader>)
  {
    /** Version and log number that the MANIFEST file holds, which a restart would see. */
    function Durable(): Version {
      if background.Installing? && background.manifest then background.version else current
    }

    function DurableLog(): nat {
      if background.Installing? && background.manifest then background.log else versionLog
    }

    /** Tables that must be kept: pending outputs and the files of every version in use. */
    ghost function Live(): set<nat> {
      pending + current.files + set i, f | 0 <= i < |readers| && f in readers[i].version.files :: f
    }

    function SmallestSnapshot(): SequenceNumber {
      if snapshots == [] then lastSequence else snapshots[0]
    }
  }

  function Initial(): State {
    State([], [], Waiting, 0, [[]], [0], None, map[2 := Log([], 0)], 2, 3, map[], {},
          Version({}, 0, 0), 2, Idle, [], [])
  }

  ghost function EntriesOfFiles(tables: map<nat, set<Entry>>, files: set<nat>): set<Entry> {
    set f, e | f in files && f in tables && e in tables[f] :: e
  }

  /** What a compaction owes its readers: it only drops entries, and no reader at or above
      `smallest` can tell. */
  ghost predicate Preserves(rest: set<Entry>, inputs: set<Entry>, outputs: set<Entry>, smallest: SequenceNumber) {
    && outputs <= inputs
    && forall k, s | s >= smallest ::
         Visible(Lookup(rest + outputs, k, s)) == Visible(Lookup(rest + inputs, k, s))
  }

  // ---- The steps

  datatype Step =
    | Enqueue(w: Writer)
    | SwitchMemtable
    | StartGroup(n: nat)
    | AppendRecord
    | SyncLog
    | InsertNext
    | FinishGroup
    | FinishEmpty
    | StartFlush
    | BuildTable
    | EditFlush
    | StartCompaction(inputs: set<nat>)
    | WriteOutput(entries: set<Entry>)
    | EditCompaction
    | WriteManifest
    | InstallVersion
    | GetSnapshot
    | ReleaseSnapshot(which: nat)
    | OpenReader(at: Option<nat>)
    | CloseReader(which: nat)

  ghost predicate Enabled(s: State, step: Step) {
    match step
    case Enqueue(w) => true
    case SwitchMemtable => s.phase.Waiting? && s.queue != [] && s.imm.None?
    case StartGroup(n) => s.phase.Waiting? && IsGroup(s.queue, n)
    case AppendRecord => s.phase.Committing? && !s.phase.logged
    case SyncLog => s.phase.Committing? && s.phase.logged && s.queue != [] && s.queue[0].sync && !s.phase.synced
    case InsertNext =>
      && s.phase.Committing? && s.phase.logged && s.queue != [] && (s.queue[0].sync ==> s.phase.synced)
      && s.phase.inserted < |s.phase.updates|
    case FinishGroup =>
      && s.phase.Committing? && s.phase.logged && s.queue != [] && (s.queue[0].sync ==> s.phase.synced)
      && s.phase.inserted == |s.phase.updates|
    case FinishEmpty => s.phase.Waiting? && s.queue != [] && s.queue[0].batch.None?
    case StartFlush => s.background.Idle? && s.imm.Some?
    case BuildTable => s.background.BuildingTable? && s.imm.Some?
    case EditFlush => s.background.TableBuilt? && s.imm.Some?
    case StartCompaction(inputs) => s.background.Idle? && s.imm.None? && inputs <= s.current.files
    case WriteOutput(entries) => s.background.Compacting?
    case EditCompaction =>
      && s.background.Compacting?
      && Preserves(EntriesOfFiles(s.tables, s.current.files - s.background.inputs),
                   EntriesOfFiles(s.tables, s.background.inputs),
                   EntriesOfFiles(s.tables, s.background.outputs), s.background.smallest)
    case WriteManifest => s.background.Installing? && !s.background.manifest
    case InstallVersion => s.background.Installing? && s.background.manifest
    case GetSnapshot => true
    case ReleaseSnapshot(i) => i < |s.snapshots|
    case OpenReader(at) => at.Some? ==> at.value < |s.snapshots|
    case CloseReader(i) => i < |s.readers|
  }

  function Without<T>(xs: seq<T>, i: nat): seq<T>
    requires i < |xs|
  {
    xs[..i] + xs[i + 1..]
  }

  /** Logs that recovery could still need, and tables somebody uses, stay. */
  ghost function DeleteObsoleteFiles(s: State): State {
    s.(logs := map n | n in s.logs && n >= s.versionLog :: s.logs[n],
       tables := map n | n in s.tables && n in s.Live() :: s.tables[n])
  }

  ghost function FlushedVersion(s: State, number: nat): Version
    requires s.imm.Some? && s.imm.value + 1 < |s.starts|
  {
    Version(s.current.files + (if number in s.tables then {number} else {}),
            s.starts[s.imm.value + 1], s.current.floor)
  }

  function CompactedVersion(s: State): Version
    requires s.background.Compacting?
  {
    Version((s.current.files - s.background.inputs) + s.background.outputs, s.current.upTo,
            if s.current.floor > s.background.smallest then s.current.floor else s.background.smallest)
  }

  /** Enough shape for every step to be defined. */
  ghost predicate Shaped(s: State) {
    && |s.memtables| == |s.starts| >= 1 && s.logFile in s.logs
    && (s.imm.Some? ==> s.imm.value + 1 < |s.memtables|)
    && (s.phase.Committing? ==> s.phase.group <= |s.queue|)
  }

  ghost function After(s: State, step: Step): State
    requires Shaped(s) && Enabled(s, step)
  {
    match step
    case Enqueue(w) => s.(queue := s.queue + [w])
    case SwitchMemtable =>
      s.(nextFile := s.nextFile + 1, logs := s.logs[s.nextFile := Log([], 0)], logFile := s.nextFile,
         imm := Some(|s.memtables| - 1), memtables := s.memtables + [[]], starts := s.starts + [s.lastSequence])
    case StartGroup(n) =>
      s.(phase := Committing(n, s.lastSequence + 1, AllUpdates(s.queue[..n]), false, false, 0))
    case AppendRecord =>
      var log := s.logs[s.logFile];
      s.(logs := s.logs[s.logFile := log.(records := log.records + [Record(s.phase.first, s.phase.updates)])],
         phase := s.phase.(logged := true))
    case SyncLog =>
      var log := s.logs[s.logFile];
      s.(logs := s.logs[s.logFile := log.(synced := |log.records|)], phase := s.phase.(synced := true))
    case InsertNext =>
      var i, mem := s.phase.inserted, |s.memtables| - 1;
      var e := Numbered(s.phase.first, s.phase.updates)[i];
      s.(memtables := s.memtables[mem := s.memtables[mem] + [e]], phase := s.phase.(inserted := i + 1))
    case FinishGroup =>
      var n := s.phase.group;
      s.(lastSequence := s.lastSequence + |s.phase.updates|, phase := Waiting,
         returned := s.returned + s.queue[..n], queue := s.queue[n..])
    case FinishEmpty => s.(returned := s.returned + [s.queue[0]], queue := s.queue[1..])
    case StartFlush =>
      s.(nextFile := s.nextFile + 1, pending := s.pending + {s.nextFile}, background := BuildingTable(s.nextFile))
    case BuildTable =>
      var es, n := s.memtables[s.imm.value], s.background.number;
      s.(tables := if es == [] then s.tables else s.tables[n := Elements(es)], background := TableBuilt(n))
    case EditFlush =>
      var n := s.background.number;
      s.(pending := s.pending - {n}, background := Installing(FlushedVersion(s, n), s.logFile, true, {}, false))
    case StartCompaction(inputs) => s.(background := Compacting(inputs, {}, s.SmallestSnapshot()))
    case WriteOutput(entries) =>
      s.(nextFile := s.nextFile + 1, pending := s.pending + {s.nextFile},
         tables := s.tables[s.nextFile := entries],
         background := s.background.(outputs := s.background.outputs + {s.nextFile}))
    case EditCompaction =>
      s.(background := Installing(CompactedVersion(s), s.versionLog, false, s.background.outputs, false))
    case WriteManifest => s.(background := s.background.(manifest := true))
    case InstallVersion =>
      var b := s.background;
      DeleteObsoleteFiles(
        s.(current := b.version, versionLog := b.log, imm := if b.flush then None else s.imm,
           pending := s.pending - b.released, background := Idle))
    case GetSnapshot => s.(snapshots := s.snapshots + [s.lastSequence])
    case ReleaseSnapshot(i) => s.(snapshots := Without(s.snapshots, i))
    case OpenReader(at) =>
      var snapshot := if at.Some? then s.snapshots[at.value] else s.lastSequence;
      s.(readers := s.readers + [Reader(snapshot, |s.memtables| - 1, s.imm, s.current)])
    case CloseReader(i) => s.(readers := Without(s.readers, i))
  }

  /** A run from the initial state, one step after another. */
  ghost predicate Run(states: seq<State>, steps: seq<Step>) {
    && |states| == |steps| + 1 && states[0] == Initial()
    && forall i | 0 <= i < |steps| ::
         Shaped(states[i]) && Enabled(states[i], steps[i]) && states[i + 1] == After(states[i], steps[i])
  }
}
