/** Acknowledged sync writes survive the loss of everything that was not synced, and the
    background thread deletes no file still in use. */
module CommitDurability {
  import opened Bytes
  import opened Entries
  import opened CompactionMeaning
  import opened CommitProtocol
  import opened CommitInvariant
  import opened CommitMeaning

  /** Update `j` is in the synced part of log `n`, whose first record starts with update `start`. */
  ghost predicate SecuredIn(logs: map<nat, Log>, n: nat, start: nat, j: nat) {
    && n in logs && logs[n].synced <= |logs[n].records|
    && start <= j < start + |EntriesOfLog(logs[n].records[..logs[n].synced])|
  }

  /** Update `j` would outlive a crash of the machine. */
  ghost predicate Secured(s: State, j: nat)
    requires Shaped(s)
  {
    || j < s.Durable().upTo
    || SecuredIn(s.logs, s.logFile, s.starts[|s.starts| - 1], j)
    || (s.imm.Some? && SecuredIn(s.logs, s.versionLog, s.starts[s.imm.value], j))
  }

  /** Number of updates that the first `i` writers made. */
  function Count(ws: seq<Writer>, i: nat): nat
    requires i <= |ws|
  {
    |AllUpdates(ws[..i])|
  }

  /** Update `j` was made by a writer that asked for sync and has been told it is done. */
  ghost predicate Acknowledged(ws: seq<Writer>, j: nat) {
    exists i :: 0 <= i < |ws| && ws[i].sync && Count(ws, i) <= j < Count(ws, i + 1)
  }

  ghost predicate SyncInv(s: State)
    requires Shaped(s)
  {
    && (s.phase.Committing? && s.phase.synced ==> s.logs[s.logFile].synced == |s.logs[s.logFile].records|)
    && forall j | 0 <= j < s.lastSequence && Acknowledged(s.returned, j) :: Secured(s, j)
  }

  ghost predicate AllInv(s: State) {
    Inv(s) && SyncInv(s)
  }

  lemma {:induction false} EntriesOfLogConcat(a: seq<Record>, b: seq<Record>)
    ensures EntriesOfLog(a + b) == EntriesOfLog(a) + EntriesOfLog(b)
  {
    if b == [] {
      assert a + b == a;
    } else {
      var n, r := |b| - 1, b[|b| - 1];
      EntriesOfLogConcat(a, b[..n]);
      assert (a + b)[..|a + b| - 1] == a + b[..n];
      Associate(EntriesOfLog(a), EntriesOfLog(b[..n]), Numbered(r.first, r.updates));
    }
  }

  /** Syncing more of a log, or writing more to it, secures at least what it did. */
  lemma SecuredMore(a: Log, b: Log)
    requires a.synced <= |a.records| && a.synced <= b.synced <= |b.records|
    requires a.records <= b.records
    ensures |EntriesOfLog(a.records[..a.synced])| <= |EntriesOfLog(b.records[..b.synced])|
  {
    assert b.records[..b.synced] == a.records[..a.synced] + b.records[a.synced..b.synced];
    EntriesOfLogConcat(a.records[..a.synced], b.records[a.synced..b.synced]);
  }

  lemma SecuredOnAppend(s: State, step: Step, j: nat)
    requires Inv(s) && Enabled(s, step) && Secured(s, j) && (step.AppendRecord? || step.SyncLog?)
    ensures Secured(After(s, step), j)
  {
    hide QueueInv, MemoryInv, VersionInv, BackgroundInv, SnapshotInv, ReaderInv, History, AllUpdates, Numbered, EntriesOfLog;
    var t := After(s, step);
    SecuredMore(s.logs[s.logFile], t.logs[s.logFile]);
  }

  lemma SecuredOnSwitch(s: State, j: nat)
    requires Inv(s) && Enabled(s, SwitchMemtable) && Secured(s, j)
    ensures Secured(After(s, SwitchMemtable), j)
  {
    hide QueueInv, VersionInv, BackgroundInv, SnapshotInv, ReaderInv, History, AllUpdates, Numbered, EntriesOfLog;
  }

  /** What the previous log secures lies before the current memtable. */
  lemma SecuredBefore(s: State, j: nat)
    requires Inv(s) && s.imm.Some? && SecuredIn(s.logs, s.versionLog, s.starts[s.imm.value], j)
    ensures j < s.starts[|s.starts| - 1]
  {
    hide QueueInv, MemoryInv, VersionInv, BackgroundInv, SnapshotInv, ReaderInv, History, EntriesOfLog;
    var log := s.logs[s.versionLog];
    SecuredMore(log, Log(log.records, |log.records|));
    assert log.records[..|log.records|] == log.records;
  }

  lemma SecuredOnInstall(s: State, j: nat)
    requires Inv(s) && Enabled(s, InstallVersion) && Secured(s, j)
    ensures Shaped(After(s, InstallVersion)) && Secured(After(s, InstallVersion), j)
  {
    KeepsShape(s, InstallVersion);
    hide QueueInv, MemoryInv, SnapshotInv, ReaderInv, History, EntriesOfLog, VersionOk;
    if s.imm.Some? && SecuredIn(s.logs, s.versionLog, s.starts[s.imm.value], j) {
      SecuredBefore(s, j);
    }
  }

  lemma SecuredOnManifest(s: State, j: nat)
    requires Inv(s) && Enabled(s, WriteManifest) && Secured(s, j)
    ensures Secured(After(s, WriteManifest), j)
  {
    hide QueueInv, LogInv, SnapshotInv, ReaderInv, History, EntriesOfLog, VersionOk, SecuredIn;
  }

  lemma SecuredElsewhere(s: State, step: Step, j: nat)
    requires Inv(s) && Enabled(s, step) && Secured(s, j) && Shaped(After(s, step))
    requires !step.AppendRecord? && !step.SyncLog? && !step.SwitchMemtable?
    requires !step.InstallVersion? && !step.WriteManifest?
    ensures Secured(After(s, step), j)
  {
    hide QueueInv, MemoryInv, LogInv, BackgroundInv, SnapshotInv, ReaderInv, History, EntriesOfLog, VersionOk;
    hide AllUpdates, Numbered, IsGroup, Preserves, SecuredIn;
    var t := After(s, step);
    assert t.logs == s.logs && t.logFile == s.logFile && t.versionLog == s.versionLog;
  }

  lemma SecuredStays(s: State, step: Step, j: nat)
    requires Inv(s) && Enabled(s, step) && Secured(s, j) && Shaped(After(s, step))
    ensures Secured(After(s, step), j)
  {
    hide Inv, Enabled, After, Secured;
    if step.AppendRecord? || step.SyncLog? {
      SecuredOnAppend(s, step, j);
    } else if step.SwitchMemtable? {
      SecuredOnSwitch(s, j);
    } else if step.InstallVersion? {
      SecuredOnInstall(s, j);
    } else if step.WriteManifest? {
      SecuredOnManifest(s, j);
    } else {
      SecuredElsewhere(s, step, j);
    }
  }

  /** When a group with a sync leader is done, all its updates are in the synced log. */
  lemma GroupSecured(s: State, j: nat)
    requires Inv(s) && SyncInv(s) && Enabled(s, FinishGroup) && s.queue[0].sync
    requires s.lastSequence <= j < s.lastSequence + |s.phase.updates|
    ensures Secured(s, j)
  {
    hide VersionInv, BackgroundInv, SnapshotInv, ReaderInv, History, EntriesOfLog, AllUpdates;
    HistoryLength(s);
    var log := s.logs[s.logFile];
    assert log.records[..|log.records|] == log.records;
  }

  lemma CountStays(ws: seq<Writer>, more: seq<Writer>, i: nat)
    requires i <= |ws|
    ensures Count(ws + more, i) == Count(ws, i)
  {
    assert (ws + more)[..i] == ws[..i];
  }

  lemma {:induction false} CountGrows(ws: seq<Writer>, i: nat, j: nat)
    requires i <= j <= |ws|
    ensures Count(ws, i) <= Count(ws, j)
  {
    assert ws[..j] == ws[..i] + ws[i..j];
    AllUpdatesConcat(ws[..i], ws[i..j]);
  }

  /** An update acknowledged after more writers return either was before, or is one of theirs. */
  lemma AcknowledgedLater(ws: seq<Writer>, more: seq<Writer>, j: nat)
    requires Acknowledged(ws + more, j)
    ensures j < Count(ws, |ws|) ==> Acknowledged(ws, j)
    ensures j >= Count(ws, |ws|) ==>
      exists i :: 0 <= i < |more| && more[i].sync && j < Count(ws + more, |ws| + i + 1)
  {
    hide AllUpdates;
    var all := ws + more;
    var i :| 0 <= i < |all| && all[i].sync && Count(all, i) <= j < Count(all, i + 1);
    CountStays(ws, more, |ws|);
    if i < |ws| {
      CountStays(ws, more, i);
      CountStays(ws, more, i + 1);
      CountGrows(all, i + 1, |ws|);
    } else {
      CountGrows(all, |ws|, i);
      assert more[i - |ws|].sync;
    }
  }

  lemma SyncOnFinish(s: State, j: nat)
    requires Inv(s) && SyncInv(s) && Enabled(s, FinishGroup) && Acknowledged(After(s, FinishGroup).returned, j)
    ensures Secured(s, j)
  {
    hide VersionInv, BackgroundInv, SnapshotInv, ReaderInv, MemoryInv, LogInv, History, AllUpdates, Secured, Acknowledged;
    var more := s.queue[..s.phase.group];
    AcknowledgedLater(s.returned, more, j);
    assert s.returned[..|s.returned|] == s.returned;
    if j >= s.lastSequence {
      var i :| 0 <= i < |more| && more[i].sync && j < Count(s.returned + more, |s.returned| + i + 1);
      CountGrows(s.returned + more, |s.returned| + i + 1, |s.returned + more|);
      assert (s.returned + more)[..|s.returned + more|] == s.returned + more;
      AllUpdatesConcat(s.returned, more);
      assert s.queue[i].sync;
      GroupSecured(s, j);
    }
  }

  lemma SyncOnEmpty(s: State, j: nat)
    requires Inv(s) && SyncInv(s) && Enabled(s, FinishEmpty) && Acknowledged(After(s, FinishEmpty).returned, j)
    requires j < s.lastSequence
    ensures Acknowledged(s.returned, j)
  {
    hide VersionInv, BackgroundInv, SnapshotInv, ReaderInv, MemoryInv, LogInv, History, AllUpdates, Secured, Acknowledged;
    AcknowledgedLater(s.returned, [s.queue[0]], j);
    assert s.returned[..|s.returned|] == s.returned;
  }

  lemma SyncFlag(s: State, step: Step)
    requires Inv(s) && SyncInv(s) && Enabled(s, step) && Shaped(After(s, step))
    ensures var t := After(s, step);
      t.phase.Committing? && t.phase.synced ==> t.logs[t.logFile].synced == |t.logs[t.logFile].records|
  {
    hide VersionInv, BackgroundInv, SnapshotInv, ReaderInv, MemoryInv, LogInv, History, AllUpdates, IsGroup, Preserves, Numbered, Secured;
  }

  lemma StepKeepsSync(s: State, step: Step)
    requires AllInv(s) && Enabled(s, step)
    ensures AllInv(After(s, step))
  {
    StepKeepsInv(s, step);
    SyncFlag(s, step);
    var t := After(s, step);
    forall j | 0 <= j < t.lastSequence && Acknowledged(t.returned, j) ensures Secured(t, j) {
      AcknowledgedIsSecured(s, step, j);
      SecuredStays(s, step, j);
    }
  }

  lemma ReturnedUntouched(s: State, step: Step)
    requires Shaped(s) && Enabled(s, step) && !step.FinishGroup? && !step.FinishEmpty?
    ensures After(s, step).returned == s.returned && After(s, step).lastSequence == s.lastSequence
  {
    hide AllUpdates, IsGroup, Preserves, Numbered;
  }

  lemma AcknowledgedIsSecured(s: State, step: Step, j: nat)
    requires Inv(s) && SyncInv(s) && Enabled(s, step)
    requires j < After(s, step).lastSequence && Acknowledged(After(s, step).returned, j)
    ensures Secured(s, j)
  {
    if step.FinishGroup? {
      SyncOnFinish(s, j);
    } else if step.FinishEmpty? {
      SyncOnEmpty(s, j);
    } else {
      ReturnedUntouched(s, step);
    }
  }

  lemma {:induction false} RunKeepsAll(states: seq<State>, steps: seq<Step>)
    requires Run(states, steps)
    ensures forall i | 0 <= i < |states| :: AllInv(states[i])
  {
    hide AllInv, Shaped, Enabled, After;
    InitialSync();
    for i := 0 to |steps|
      invariant forall j | 0 <= j <= i :: AllInv(states[j])
    {
      StepKeepsSync(states[i], steps[i]);
    }
  }

  lemma InitialSync()
    ensures AllInv(Initial())
  {
    InitialInv();
  }

  // ---- A crash of the machine

  /** What is left of the logs when of log `n` only the first `kept[n]` records survive. */
  ghost function Surviving(logs: map<nat, Log>, from: nat, kept: map<nat, nat>): set<Entry> {
    set n, e | n in logs && n >= from && n in kept && kept[n] <= |logs[n].records|
      && e in EntriesOfLog(logs[n].records[..kept[n]]) :: e
  }

  /** A crash may lose any records, except those that were synced. */
  ghost predicate Crash(logs: map<nat, Log>, kept: map<nat, nat>) {
    forall n | n in logs :: n in kept && logs[n].synced <= kept[n] <= |logs[n].records|
  }

  lemma LogPrefix(rs: seq<Record>, n: nat)
    requires n <= |rs|
    ensures EntriesOfLog(rs[..n]) <= EntriesOfLog(rs)
  {
    EntriesOfLogConcat(rs[..n], rs[n..]);
    assert rs == rs[..n] + rs[n..];
  }

  lemma InPrefix(a: seq<Entry>, b: seq<Entry>, e: Entry)
    requires a <= b && e in a
    ensures e in b
  {
    assert b == a + b[|a|..];
  }

  lemma SurvivingIsReplayed(logs: map<nat, Log>, from: nat, kept: map<nat, nat>)
    ensures Surviving(logs, from, kept) <= Replayed(logs, from)
  {
    forall e | e in Surviving(logs, from, kept) ensures e in Replayed(logs, from) {
      var n :| n in logs && n >= from && n in kept && kept[n] <= |logs[n].records|
        && e in EntriesOfLog(logs[n].records[..kept[n]]);
      LogPrefix(logs[n].records, kept[n]);
      InPrefix(EntriesOfLog(logs[n].records[..kept[n]]), EntriesOfLog(logs[n].records), e);
    }
  }

  /** An entry secured in a log survives. */
  lemma SecuredSurvives(logs: map<nat, Log>, from: nat, kept: map<nat, nat>, n: nat, start: nat, j: nat)
    requires Crash(logs, kept) && n >= from && SecuredIn(logs, n, start, j)
    ensures j - start < |EntriesOfLog(logs[n].records)|
    ensures EntriesOfLog(logs[n].records)[j - start] in Surviving(logs, from, kept)
  {
    hide EntriesOfLog;
    var rs, synced, k := logs[n].records, logs[n].synced, kept[n];
    LogPrefix(rs, k);
    LogPrefix(rs[..k], synced);
    assert rs[..k][..synced] == rs[..synced];
    assert EntriesOfLog(rs[..k])[j - start] in EntriesOfLog(rs[..k]);
  }

  lemma SecuredEntrySurvives(s: State, kept: map<nat, nat>, j: nat)
    requires Inv(s) && Crash(s.logs, kept) && Secured(s, j) && s.Durable().upTo <= j
    ensures j < |History(s)| && History(s)[j] in Surviving(s.logs, s.DurableLog(), kept)
  {
    hide QueueInv, SnapshotInv, ReaderInv, History, VersionOk, EntriesOfLog, Surviving, Crash, SecuredIn;
    var last := |s.starts| - 1;
    assert s.DurableLog() <= s.logFile;
    if SecuredIn(s.logs, s.logFile, s.starts[last], j) {
      SecuredSurvives(s.logs, s.DurableLog(), kept, s.logFile, s.starts[last], j);
      SliceAt(History(s), s.starts[last], |History(s)|, j);
      SecuredRange(s.logs, s.logFile, s.starts[last], j);
    } else {
      SecuredBefore(s, j);
      SecuredSurvives(s.logs, s.DurableLog(), kept, s.versionLog, s.starts[s.imm.value], j);
      SliceAt(History(s), s.starts[s.imm.value], s.starts[last], j);
      SecuredRange(s.logs, s.versionLog, s.starts[s.imm.value], j);
    }
  }

  lemma SecuredRange(logs: map<nat, Log>, n: nat, start: nat, j: nat)
    requires SecuredIn(logs, n, start, j)
    ensures start <= j
  {
  }

  lemma SliceAt(h: seq<Entry>, a: nat, b: nat, j: nat)
    requires a <= b <= |h|
    ensures a <= j < b ==> h[a..b][j - a] == h[j]
    ensures h[a..|h|] == h[a..]
  {
  }

  function Written(u: Update): Option<Value> {
    if u.kind.Put? then Some(u.value) else None
  }

  /** `answer` is what update `j` of `k`, or a later one, wrote. */
  ghost predicate WrittenFrom(us: seq<Update>, k: UserKey, j: nat, answer: Option<Value>) {
    exists i :: j <= i < |us| && us[i].user == k && answer == Written(us[i])
  }

  /** Among entries of the history that include update `j` of `k`, a lookup finds it or a later one. */
  lemma LookupFrom(us: seq<Update>, k: UserKey, j: nat, es: set<Entry>)
    requires j < |us| && us[j].user == k && es <= Elements(Numbered(1, us)) && Numbered(1, us)[j] in es
    ensures WrittenFrom(us, k, j, Visible(Lookup(es, k, |us|)))
  {
    hide Lookup;
    var h := Numbered(1, us);
    NumberedInSequence(us);
    InSequenceDistinct(h);
    assert Distinct(es);
    var e := NewestExists(es, k, |us|, h[j]);
    var i :| 0 <= i < |h| && h[i] == e;
    assert h[j].key.sequence <= e.key.sequence;
    NewestUnique(es, k, |us|, e);
  }

  /** The last update is the only one from itself on. */
  lemma LastWritten(us: seq<Update>, k: UserKey, j: nat, answer: Option<Value>)
    requires LastUpdate(us, k, j) && WrittenFrom(us, k, j, answer)
    ensures answer == ReadStore(us, k)
  {
    var i := StoreIsLastUpdate(us, k);
  }

  /** If a write of a key was acknowledged as synced, then after a crash of the machine, whatever
      unsynced records it loses, a restarted database answers for that key what this write or a later
      one wrote; and what the last one wrote if that was the acknowledged one. */
  lemma SyncedWriteSurvives(s: State, kept: map<nat, nat>, k: UserKey, j: nat)
    requires AllInv(s) && Crash(s.logs, kept)
    requires j < s.lastSequence <= |AllUpdates(Logged(s))| && AllUpdates(Logged(s))[j].user == k && Acknowledged(s.returned, j)
    ensures
      var recovered := EntriesOfFiles(s.tables, s.Durable().files) + Surviving(s.logs, s.DurableLog(), kept);
      var us := AllUpdates(Logged(s));
      WrittenFrom(us, k, j, Visible(Lookup(recovered, k, |us|)))
    ensures
      var recovered := EntriesOfFiles(s.tables, s.Durable().files) + Surviving(s.logs, s.DurableLog(), kept);
      var us := AllUpdates(Logged(s));
      LastUpdate(us, k, j) ==> Visible(Lookup(recovered, k, |us|)) == ReadStore(us, k)
  {
    assert Secured(s, j);
    hide QueueInv, MemoryInv, LogInv, BackgroundInv, SnapshotInv, ReaderInv, Secured, Acknowledged, Crash;
    hide AllUpdates, Lookup, Store, ReadStore, EntriesOfFiles, EntriesOfLog, Surviving, Replayed, Elements, LastUpdate, WrittenFrom;
    var us, v := AllUpdates(Logged(s)), s.Durable();
    var tables, tail := EntriesOfFiles(s.tables, v.files), Surviving(s.logs, s.DurableLog(), kept);
    ReplayedIsTail(s);
    SurvivingIsReplayed(s.logs, s.DurableLog(), kept);
    HistoryParts(History(s), v.upTo, tables, tail);
    if v.upTo <= j {
      SecuredEntrySurvives(s, kept, j);
      LookupFrom(us, k, j, tables + tail);
    } else {
      FloorBelow(s);
      TablesHaveIt(us, k, j, v.upTo, tables, tail, v.floor);
    }
    if LastUpdate(us, k, j) {
      LastWritten(us, k, j, Visible(Lookup(tables + tail, k, |us|)));
    }
  }

  lemma FloorBelow(s: State)
    requires Inv(s)
    ensures s.Durable().floor <= |AllUpdates(Logged(s))|
  {
    hide MemoryInv, LogInv, BackgroundInv, ReaderInv, VersionInv, AllUpdates;
    HistoryLength(s);
  }

  /** When update `j` of `k` is in the tables, what is left of the logs can only add later ones. */
  lemma TablesHaveIt(us: seq<Update>, k: UserKey, j: nat, upTo: nat, tables: set<Entry>, tail: set<Entry>, floor: SequenceNumber)
    requires j < upTo <= |us| && us[j].user == k && floor <= |us|
    requires StandsFor(tables, Numbered(1, us)[..upTo], floor) && tail <= Elements(Numbered(1, us)[upTo..])
    ensures WrittenFrom(us, k, j, Visible(Lookup(tables + tail, k, |us|)))
  {
    hide Lookup;
    var h := Numbered(1, us);
    HistoryParts(h, upTo, tables, tail);
    if e :| e in tail && e.key.user == k {
      var i :| 0 <= i < |h| - upTo && h[upTo..][i] == e;
      assert h[upTo + i] == e;
      LookupFrom(us, k, upTo + i, tables + tail);
    } else {
      NumberedInSequence(us);
      InSequenceDistinct(h);
      LookupSameKey(tables + tail, tables, k, |us|);
      assert h[..upTo][j] == h[j];
      LookupFrom(us, k, j, Elements(h[..upTo]));
    }
  }

  lemma HistoryParts(h: seq<Entry>, upTo: nat, tables: set<Entry>, tail: set<Entry>)
    requires upTo <= |h| && tables <= Elements(h[..upTo]) && tail <= Elements(h[upTo..])
    ensures tables + tail <= Elements(h) && Elements(h[..upTo]) <= Elements(h)
  {
    assert h == h[..upTo] + h[upTo..];
  }

  // ---- Files

  /** Tables that a reader, the background thread or a restart still needs. */
  ghost function InUse(s: State): set<nat> {
    s.Live() + s.Durable().files + if s.background.Installing? then s.background.version.files else {}
  }

  /** No step deletes or changes a table in use, or touches what a log that a restart needs holds. */
  lemma NothingInUseDeleted(s: State, step: Step)
    requires Inv(s) && Enabled(s, step)
    ensures var t := After(s, step);
      && (forall f | f in InUse(t) && f in s.tables :: f in t.tables && t.tables[f] == s.tables[f])
      && forall n | n in s.logs && n >= t.DurableLog() ::
           n in t.logs && s.logs[n].records <= t.logs[n].records
  {
    hide QueueInv, MemoryInv, VersionInv, SnapshotInv, ReaderInv, History, AllUpdates, Numbered, IsGroup, Preserves;
    if !step.InstallVersion? {
      TablesStay(s, step);
    }
  }

  /** Installing a version leaves no table that nobody needs, and no log older than it. */
  lemma ObsoleteIsDeleted(s: State)
    requires Inv(s) && Enabled(s, InstallVersion)
    ensures var t := After(s, InstallVersion);
      && (forall f | f in t.tables ::
            f in t.pending || f in t.current.files || exists i :: 0 <= i < |t.readers| && f in t.readers[i].version.files)
      && forall n | n in t.logs :: n >= t.versionLog
  {
    hide QueueInv, MemoryInv, VersionInv, SnapshotInv, ReaderInv, LogInv, BackgroundInv;
  }

  /** Every version in use finds all its tables. */
  lemma NothingInUseMissing(s: State)
    requires Inv(s)
    ensures InUse(s) - s.pending <= s.tables.Keys
  {
    hide QueueInv, MemoryInv, LogInv, BackgroundInv, SnapshotInv, History, StandsFor;
    forall f | f in InUse(s) - s.pending ensures f in s.tables {
      if i :| 0 <= i < |s.readers| && f in s.readers[i].version.files {
        assert ReaderOk(s, s.readers[i]);
      }
    }
  }

  // ---- One record per group

  /** `records` are exactly the batches of `ws`, each batch in one record, in queue order and
      numbered without gaps; no sync write rides in the record of a leader that did not sync. */
  ghost predicate RecordsCover(ws: seq<Writer>, records: seq<Record>, cuts: seq<(nat, nat)>) {
    && |cuts| == |records|
    && (forall i | 0 <= i < |cuts| :: Cut(ws, records[i], cuts[i].0, cuts[i].1))
    && (forall i, j | 0 <= i < j < |cuts| :: cuts[i].1 <= cuts[j].0)
    && forall p | 0 <= p < |ws| && ws[p].batch.Some? :: InSomeCut(cuts, p)
  }

  ghost predicate Cut(ws: seq<Writer>, record: Record, a: nat, b: nat) {
    && a < b <= |ws| && record.updates == AllUpdates(ws[a..b]) && record.first == 1 + Count(ws, a)
    && forall p | a <= p < b :: ws[p].sync ==> ws[a].sync
  }

  ghost predicate InSomeCut(cuts: seq<(nat, nat)>, p: nat) {
    exists i :: 0 <= i < |cuts| && cuts[i].0 <= p < cuts[i].1
  }

  /** The records appended in a run, in order. */
  ghost function Appended(states: seq<State>, steps: seq<Step>): seq<Record>
    requires |states| == |steps| + 1
  {
    if steps == [] then []
    else
      var n := |steps| - 1;
      Appended(states[..n + 1], steps[..n]) + AppendedBy(states[n], steps[n])
  }

  function AppendedBy(s: State, step: Step): seq<Record> {
    if step.AppendRecord? && s.phase.Committing? then [Record(s.phase.first, s.phase.updates)] else []
  }

  lemma CutStays(ws: seq<Writer>, more: seq<Writer>, r: Record, a: nat, b: nat)
    requires Cut(ws, r, a, b)
    ensures Cut(ws + more, r, a, b)
  {
    hide AllUpdates;
    assert (ws + more)[a..b] == ws[a..b] && (ws + more)[..a] == ws[..a];
  }

  lemma CoverNone(ws: seq<Writer>, w: Writer, records: seq<Record>, cuts: seq<(nat, nat)>)
    requires RecordsCover(ws, records, cuts) && w.batch.None?
    ensures RecordsCover(ws + [w], records, cuts)
  {
    hide Cut, InSomeCut;
    forall i | 0 <= i < |cuts| ensures Cut(ws + [w], records[i], cuts[i].0, cuts[i].1) {
      CutStays(ws, [w], records[i], cuts[i].0, cuts[i].1);
    }
  }

  lemma InMoreCuts(cuts: seq<(nat, nat)>, cut: (nat, nat), p: nat)
    ensures InSomeCut(cuts, p) || cut.0 <= p < cut.1 ==> InSomeCut(cuts + [cut], p)
  {
    if i :| 0 <= i < |cuts| && cuts[i].0 <= p < cuts[i].1 {
      assert (cuts + [cut])[i] == cuts[i];
    } else {
      assert (cuts + [cut])[|cuts|] == cut;
    }
  }

  lemma CoverGroup(ws: seq<Writer>, group: seq<Writer>, records: seq<Record>, cuts: seq<(nat, nat)>, r: Record)
    requires RecordsCover(ws, records, cuts) && Cut(ws + group, r, |ws|, |ws + group|)
    ensures RecordsCover(ws + group, records + [r], cuts + [(|ws|, |ws + group|)])
  {
    hide Cut, InSomeCut;
    var all, cut := ws + group, (|ws|, |ws + group|);
    forall i | 0 <= i < |cuts| ensures Cut(all, records[i], cuts[i].0, cuts[i].1) && cuts[i].1 <= |ws| {
      CutStays(ws, group, records[i], cuts[i].0, cuts[i].1);
      CutWithin(ws, records[i], cuts[i].0, cuts[i].1);
    }
    forall p | 0 <= p < |all| && all[p].batch.Some? ensures InSomeCut(cuts + [cut], p) {
      InMoreCuts(cuts, cut, p);
    }
  }

  lemma CutWithin(ws: seq<Writer>, r: Record, a: nat, b: nat)
    requires Cut(ws, r, a, b)
    ensures b <= |ws|
  {
  }

  lemma LoggedGrows(s: State, step: Step)
    requires Inv(s) && Enabled(s, step)
    requires Inv(After(s, step))
    ensures Logged(After(s, step)) == Logged(s)
      + if step.AppendRecord? then s.queue[..s.phase.group] else if step.FinishEmpty? then [s.queue[0]] else []
  {
    hide QueueInv, MemoryInv, LogInv, VersionInv, BackgroundInv, SnapshotInv, ReaderInv, AllUpdates, Numbered, IsGroup, Preserves;
  }

  lemma GroupIsCut(s: State)
    requires Inv(s) && Enabled(s, AppendRecord)
    ensures var ws, group := Logged(s), s.queue[..s.phase.group];
      Cut(ws + group, Record(s.phase.first, s.phase.updates), |ws|, |ws + group|)
  {
    hide MemoryInv, LogInv, VersionInv, BackgroundInv, SnapshotInv, ReaderInv, AllUpdates;
    var ws, group := Logged(s), s.queue[..s.phase.group];
    assert ws == s.returned && (ws + group)[..|ws|] == ws && (ws + group)[|ws|..|ws + group|] == group;
    var all: seq<Writer> := ws + group;
    forall p | |ws| <= p < |all| ensures all[p].sync ==> all[|ws|].sync {
      assert all[p] == s.queue[p - |ws|] && all[|ws|] == s.queue[0];
    }
  }

  /** In every run, the log records are the groups: each queued batch is in exactly one of them. */
  lemma {:induction false} RecordsAreGroups(states: seq<State>, steps: seq<Step>) returns (cuts: seq<(nat, nat)>)
    requires Run(states, steps)
    ensures Inv(states[|steps|]) && RecordsCover(Logged(states[|steps|]), Appended(states, steps), cuts)
  {
    hide Inv, SyncInv, Shaped, Enabled, After, Logged, RecordsCover, AppendedBy;
    RunKeepsAll(states, steps);
    var n := |steps| - 1;
    if steps == [] {
      cuts := [];
      NothingToCover();
    } else {
      assert AllInv(states[n]) && AllInv(states[n + 1]);
      cuts := RecordsAreGroups(states[..n + 1], steps[..n]);
      cuts := CoverStep(states[n], steps[n], Appended(states[..n + 1], steps[..n]), cuts);
    }
  }

  lemma NothingToCover()
    ensures RecordsCover(Logged(Initial()), [], [])
  {
  }

  lemma CoverStep(s: State, step: Step, records: seq<Record>, before: seq<(nat, nat)>) returns (cuts: seq<(nat, nat)>)
    requires Inv(s) && Enabled(s, step) && Inv(After(s, step)) && RecordsCover(Logged(s), records, before)
    ensures RecordsCover(Logged(After(s, step)), records + AppendedBy(s, step), cuts)
  {
    cuts := before;
    hide RecordsCover, Inv, After, Logged, IsGroup, Preserves, Enabled;
    if step.AppendRecord? {
      cuts := CoverAppend(s, records, before);
    } else if step.FinishEmpty? {
      CoverEmpty(s, records, before);
    } else {
      CoverSame(s, step, records, before);
    }
  }

  lemma CoverSame(s: State, step: Step, records: seq<Record>, before: seq<(nat, nat)>)
    requires Inv(s) && Enabled(s, step) && Inv(After(s, step)) && RecordsCover(Logged(s), records, before)
    requires !step.AppendRecord? && !step.FinishEmpty?
    ensures RecordsCover(Logged(After(s, step)), records + AppendedBy(s, step), before)
  {
    LoggedGrows(s, step);
    assert records + [] == records && Logged(s) + [] == Logged(s);
    hide RecordsCover, Inv, After, Logged;
  }

  lemma CoverAppend(s: State, records: seq<Record>, before: seq<(nat, nat)>) returns (cuts: seq<(nat, nat)>)
    requires Inv(s) && Enabled(s, AppendRecord) && Inv(After(s, AppendRecord)) && RecordsCover(Logged(s), records, before)
    ensures RecordsCover(Logged(After(s, AppendRecord)), records + AppendedBy(s, AppendRecord), cuts)
  {
    LoggedGrows(s, AppendRecord);
    GroupIsCut(s);
    hide RecordsCover, Inv, After, Logged, Cut;
    CoverGroup(Logged(s), s.queue[..s.phase.group], records, before, Record(s.phase.first, s.phase.updates));
    cuts := before + [(|Logged(s)|, |Logged(s) + s.queue[..s.phase.group]|)];
  }

  lemma CoverEmpty(s: State, records: seq<Record>, before: seq<(nat, nat)>)
    requires Inv(s) && Enabled(s, FinishEmpty) && Inv(After(s, FinishEmpty)) && RecordsCover(Logged(s), records, before)
    ensures RecordsCover(Logged(After(s, FinishEmpty)), records + AppendedBy(s, FinishEmpty), before)
  {
    LoggedGrows(s, FinishEmpty);
    hide RecordsCover, Inv, After, Logged;
    CoverNone(Logged(s), s.queue[0], records, before);
    assert records + [] == records;
  }
}
