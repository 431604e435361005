/** What the commit protocol is for: atomic reads, recovery that loses nothing, sync that lasts,
    and no file deleted that somebody needs. */
module CommitMeaning {
  import opened Bytes
  import opened Entries
  import opened CompactionMeaning
  import opened CompactionInstall
  import opened CommitProtocol
  import opened CommitInvariant

  // ---- The reference: a plain map, updated in order

  ghost function Store(us: seq<Update>): map<UserKey, Value> {
    if us == [] then map[]
    else
      var before, u := Store(us[..|us| - 1]), us[|us| - 1];
      if u.kind.Put? then before[u.user := u.value] else before - {u.user}
  }

  ghost function ReadStore(us: seq<Update>, k: UserKey): Option<Value> {
    if k in Store(us) then Some(Store(us)[k]) else None
  }

  /** `e` is the last update of `k`, or there is none. */
  ghost predicate LastUpdate(us: seq<Update>, k: UserKey, i: int) {
    && -1 <= i < |us| && (i >= 0 ==> us[i].user == k)
    && forall j | i < j < |us| :: us[j].user != k
  }

  lemma {:induction false} StoreIsLastUpdate(us: seq<Update>, k: UserKey) returns (i: int)
    ensures LastUpdate(us, k, i)
    ensures ReadStore(us, k) == if i >= 0 && us[i].kind.Put? then Some(us[i].value) else None
  {
    if us == [] {
      i := -1;
    } else {
      var n := |us| - 1;
      if us[n].user == k {
        i := n;
      } else {
        i := StoreIsLastUpdate(us[..n], k);
      }
    }
  }

  lemma InSequenceDistinct(h: seq<Entry>)
    requires InSequence(h)
    ensures Distinct(Elements(h))
  {
  }

  lemma NumberedInSequence(us: seq<Update>)
    ensures InSequence(Numbered(1, us))
  {
  }

  /** Looking up the newest entry is reading the plain map. */
  lemma StoreIsLookup(us: seq<Update>, k: UserKey)
    ensures Visible(Lookup(Elements(Numbered(1, us)), k, |us|)) == ReadStore(us, k)
  {
    hide Lookup;
    var es := Numbered(1, us);
    NumberedInSequence(us);
    InSequenceDistinct(es);
    var i := StoreIsLastUpdate(us, k);
    if i >= 0 {
      assert es[i] in Elements(es);
      assert Newest(Elements(es), k, |us|, es[i]);
      NewestUnique(Elements(es), k, |us|, es[i]);
    } else {
      MissingMeansNone(Elements(es), k, |us|);
    }
  }

  /** A reader at snapshot `s` sees nothing of the updates after the first `s`. */
  lemma LookupPrefix(h: seq<Entry>, k: UserKey, s: SequenceNumber)
    requires InSequence(h) && s <= |h|
    ensures Lookup(Elements(h), k, s) == Lookup(Elements(h[..s]), k, s)
  {
    hide Lookup;
    InSequenceDistinct(h);
    InSequenceDistinct(h[..s]);
    forall e | e in Elements(h) && e.key.sequence <= s ensures e in Elements(h[..s]) {
      var i :| 0 <= i < |h| && h[i] == e;
      assert h[..s][i] == e;
    }
    assert Elements(h[..s]) <= Elements(h);
    if o :| o in Elements(h) && o.key.user == k && o.key.sequence <= s {
      var e := NewestExists(Elements(h), k, s, o);
      NewestUnique(Elements(h), k, s, e);
      assert Newest(Elements(h[..s]), k, s, e);
      NewestUnique(Elements(h[..s]), k, s, e);
    } else {
      MissingMeansNone(Elements(h), k, s);
      MissingMeansNone(Elements(h[..s]), k, s);
    }
  }

  // ---- Readers

  /** What a Get or iterator searches, newest first. */
  ghost function Sources(s: State, r: Reader): seq<set<Entry>>
    requires r.mem < |s.memtables| && (r.imm.Some? ==> r.imm.value < |s.memtables|)
  {
    [Elements(s.memtables[r.mem])]
    + (if r.imm.Some? then [Elements(s.memtables[r.imm.value])] else [])
    + [EntriesOfFiles(s.tables, r.version.files)]
  }

  lemma SearchTwo(m: set<Entry>, v: set<Entry>, k: UserKey, s: SequenceNumber)
    ensures Search([m, v], k, s) == First(Lookup(m, k, s), Lookup(v, k, s))
  {
    assert [m, v][1..] == [v] && [v][1..] == [];
    assert Search([v], k, s) == Lookup(v, k, s);
  }

  lemma SearchThree(m: set<Entry>, i: set<Entry>, v: set<Entry>, k: UserKey, s: SequenceNumber)
    ensures Search([m, i, v], k, s) == First(Lookup(m, k, s), First(Lookup(i, k, s), Lookup(v, k, s)))
  {
    assert [m, i, v][1..] == [i, v];
    SearchTwo(i, v, k, s);
  }

  /** A piece of the history on top of what stands for everything before it. */
  lemma SearchPiece(h: seq<Entry>, a: nat, b: nat, content: set<Entry>, floor: SequenceNumber, k: UserKey, s: SequenceNumber)
    requires InSequence(h) && a <= b <= |h| && StandsFor(content, h[..a], floor)
    ensures First(Lookup(Elements(h[a..b]), k, s), Lookup(content, k, s)) == Lookup(content + Elements(h[a..b]), k, s)
  {
    hide Lookup, Elements, Distinct, Above, InSequence;
    LaterIsAbove(h, a, b, content);
    UnionLookup(Elements(h[a..b]), content, k, s);
    assert content + Elements(h[a..b]) == Elements(h[a..b]) + content;
  }

  lemma ReadTwo(h: seq<Entry>, a: nat, c: nat, content: set<Entry>, floor: SequenceNumber, k: UserKey, s: SequenceNumber)
    requires InSequence(h) && a <= c <= |h| && StandsFor(content, h[..a], floor) && floor <= s <= c
    ensures Visible(Search([Elements(h[a..c]), content], k, s)) == Visible(Lookup(Elements(h[..s]), k, s))
  {
    hide Lookup, Elements, Search, InSequence;
    SearchTwo(Elements(h[a..c]), content, k, s);
    SearchPiece(h, a, c, content, floor, k, s);
    StandsForMore(h, a, c, content, floor);
    PrefixAnswer(h, c, k, s);
  }

  lemma PrefixAnswer(h: seq<Entry>, c: nat, k: UserKey, s: SequenceNumber)
    requires InSequence(h) && s <= c <= |h|
    ensures Lookup(Elements(h[..c]), k, s) == Lookup(Elements(h[..s]), k, s)
  {
    hide Lookup, Elements;
    LookupPrefix(h[..c], k, s);
    assert h[..c][..s] == h[..s];
  }

  lemma ReadThree(h: seq<Entry>, a: nat, b: nat, c: nat, content: set<Entry>, floor: SequenceNumber,
                  k: UserKey, s: SequenceNumber)
    requires InSequence(h) && a <= b <= c <= |h| && StandsFor(content, h[..a], floor) && floor <= s <= c
    ensures Visible(Search([Elements(h[b..c]), Elements(h[a..b]), content], k, s))
         == Visible(Lookup(Elements(h[..s]), k, s))
  {
    hide Lookup, Elements, Search, InSequence;
    SearchThree(Elements(h[b..c]), Elements(h[a..b]), content, k, s);
    SearchPiece(h, a, b, content, floor, k, s);
    StandsForMore(h, a, b, content, floor);
    var both := content + Elements(h[a..b]);
    SearchPiece(h, b, c, both, floor, k, s);
    StandsForMore(h, b, c, both, floor);
    PrefixAnswer(h, c, k, s);
  }

  /** Where the piece of history in memtable `i` ends. */
  function EndOf(s: State, i: nat): nat
    requires |s.starts| == |s.memtables|
  {
    if i + 1 < |s.starts| then s.starts[i + 1] else Applied(s)
  }

  lemma MemtableIsPiece(s: State, i: nat)
    requires Shaped(s) && MemoryInv(s) && i < |s.memtables|
    ensures s.starts[i] <= EndOf(s, i) <= |History(s)| && s.memtables[i] == History(s)[s.starts[i]..EndOf(s, i)]
  {
    hide History;
  }

  /** Whatever happens around it, a reader sees the history up to its snapshot and no further. */
  lemma ReaderSeesHistory(s: State, r: Reader, k: UserKey)
    requires Inv(s) && ReaderOk(s, r)
    ensures Visible(Search(Sources(s, r), k, r.snapshot)) == Visible(Lookup(Elements(History(s)[..r.snapshot]), k, r.snapshot))
  {
    hide QueueInv, LogInv, VersionInv, BackgroundInv, SnapshotInv, ReaderInv, History, StandsFor, Lookup, Search, Elements;
    hide InSequence, EntriesOfFiles;
    var h, content := History(s), EntriesOfFiles(s.tables, r.version.files);
    HistoryInSequence(s);
    MemtableIsPiece(s, r.mem);
    var c := EndOf(s, r.mem);
    if r.imm.Some? {
      MemtableIsPiece(s, r.imm.value);
      var m, i := Elements(s.memtables[r.mem]), Elements(s.memtables[r.imm.value]);
      assert Sources(s, r) == [m, i, content];
      ReadThree(h, s.starts[r.imm.value], s.starts[r.mem], c, content, r.version.floor, k, r.snapshot);
    } else {
      assert Sources(s, r) == [Elements(s.memtables[r.mem]), content];
      ReadTwo(h, s.starts[r.mem], c, content, r.version.floor, k, r.snapshot);
    }
  }

  /** A snapshot point lies between two writers, so the updates before it are whole batches. */
  lemma WholeBatches(s: State, snapshot: SequenceNumber) returns (j: nat)
    requires Between(s.returned, snapshot)
    ensures j <= |s.returned| && snapshot == |AllUpdates(s.returned[..j])| <= |AllUpdates(s.returned)|
    ensures AllUpdates(s.returned)[..snapshot] == AllUpdates(s.returned[..j])
  {
    hide AllUpdates;
    j :| 0 <= j <= |s.returned| && snapshot == |AllUpdates(s.returned[..j])|;
    AllUpdatesConcat(s.returned[..j], s.returned[j..]);
    assert s.returned[..j] + s.returned[j..] == s.returned;
  }

  lemma HistoryPrefix(s: State, j: nat)
    requires s.phase.Committing? ==> s.phase.group <= |s.queue|
    requires j <= |s.returned|
    ensures |AllUpdates(s.returned[..j])| <= |History(s)|
    ensures History(s)[..|AllUpdates(s.returned[..j])|] == Numbered(1, AllUpdates(s.returned[..j]))
  {
    var a, b := s.returned[..j], Logged(s)[j..];
    assert a + b == Logged(s);
    AllUpdatesConcat(a, b);
    NumberedConcat(1, AllUpdates(a), AllUpdates(b));
  }

  /** Atomic reads: in every reachable state, every Get, iterator and snapshot reads the plain
      map after the complete writes of the first `j` writers of the queue, and nothing else. */
  lemma ReadsAreAtomic(s: State, r: Reader) returns (j: nat)
    requires Inv(s) && r in s.readers
    ensures j <= |s.returned| && r.snapshot == |AllUpdates(s.returned[..j])|
    ensures forall k :: Visible(Search(Sources(s, r), k, r.snapshot)) == ReadStore(AllUpdates(s.returned[..j]), k)
  {
    hide QueueInv, MemoryInv, LogInv, VersionInv, BackgroundInv, SnapshotInv, AllUpdates, History, Numbered;
    hide Elements, Lookup, Search, Sources, Store, ReadStore, VersionOk, Between;
    assert ReaderOk(s, r);
    j := WholeBatches(s, r.snapshot);
    HistoryPrefix(s, j);
    var us := AllUpdates(s.returned[..j]);
    forall k ensures Visible(Search(Sources(s, r), k, r.snapshot)) == ReadStore(us, k) {
      ReaderSeesHistory(s, r, k);
      StoreIsLookup(us, k);
    }
  }

  lemma SameHistorySameAnswer(s: State, t: State, r: Reader, k: UserKey)
    requires Inv(s) && Inv(t) && ReaderOk(s, r) && ReaderOk(t, r)
    requires History(s) <= History(t)
    ensures Visible(Search(Sources(t, r), k, r.snapshot)) == Visible(Search(Sources(s, r), k, r.snapshot))
  {
    hide QueueInv, LogInv, VersionInv, BackgroundInv, SnapshotInv, History, Elements, Lookup, Search, Sources, VersionOk;
    ReaderSeesHistory(s, r, k);
    ReaderSeesHistory(t, r, k);
    assert History(t)[..r.snapshot] == History(s)[..r.snapshot];
  }

  /** Steps never undo a completed write: a reader's answers stay what they are until it closes. */
  lemma ReadsAreStable(s: State, step: Step, r: Reader, k: UserKey)
    requires Inv(s) && Enabled(s, step) && r in s.readers && r in After(s, step).readers
    ensures Inv(After(s, step))
    ensures Visible(Search(Sources(After(s, step), r), k, r.snapshot)) == Visible(Search(Sources(s, r), k, r.snapshot))
  {
    StepKeepsInv(s, step);
    hide After, Enabled, QueueInv, MemoryInv, LogInv, VersionInv, BackgroundInv, SnapshotInv, History, Search, Sources;
    hide ReaderOk, Numbered;
    HistoryGrows(s, step);
    SameHistorySameAnswer(s, After(s, step), r, k);
  }

  // ---- Restart after a crash

  /** The entries that recovery replays: all logs from the number in the MANIFEST on. */
  ghost function Replayed(logs: map<nat, Log>, from: nat): set<Entry> {
    set n, e | n in logs && n >= from && e in EntriesOfLog(logs[n].records) :: e
  }

  lemma ReplayedIsTail(s: State)
    requires Inv(s)
    ensures s.Durable().upTo <= |History(s)|
    ensures Replayed(s.logs, s.DurableLog()) == Elements(History(s)[s.Durable().upTo..])
  {
    hide QueueInv, SnapshotInv, ReaderInv, History, StandsFor, EntriesOfFiles, EntriesOfLog;
    var h, last := History(s), |s.memtables| - 1;
    if s.DurableLog() == s.logFile {
      assert s.Durable().upTo == s.starts[last];
      OneLog(s.logs, s.versionLog, s.logFile);
    } else {
      var a := s.starts[last - 1];
      assert s.Durable().upTo == a;
      TwoLogs(s.logs, s.versionLog, s.logFile);
      assert h[a..] == h[a..s.starts[last]] + h[s.starts[last]..];
    }
  }

  lemma OneLog(logs: map<nat, Log>, before: nat, now: nat)
    requires logs.Keys == {before, now} && before <= now
    ensures Replayed(logs, now) == Elements(EntriesOfLog(logs[now].records))
  {
  }

  lemma TwoLogs(logs: map<nat, Log>, before: nat, now: nat)
    requires logs.Keys == {before, now} && before <= now
    ensures Replayed(logs, before) ==
      Elements(EntriesOfLog(logs[before].records)) + Elements(EntriesOfLog(logs[now].records))
  {
  }

  /** Recovery loses no logged write: at any moment, the tables of the version in the MANIFEST
      together with the logs it has not given up read like the plain map after every write
      that has reached the log. */
  lemma RecoveryLosesNothing(s: State, k: UserKey)
    requires Inv(s)
    ensures
      var recovered := EntriesOfFiles(s.tables, s.Durable().files) + Replayed(s.logs, s.DurableLog());
      Visible(Lookup(recovered, k, |AllUpdates(Logged(s))|)) == ReadStore(AllUpdates(Logged(s)), k)
  {
    hide AllUpdates, Elements, Lookup, Store, ReadStore, EntriesOfFiles, InSequence, Replayed, EntriesOfLog;
    hide QueueInv, MemoryInv, LogInv, BackgroundInv, ReaderInv;
    var h, v := History(s), s.Durable();
    HistoryInSequence(s);
    HistoryLength(s);
    ReplayedIsTail(s);
    StandsForMore(h, v.upTo, |h|, EntriesOfFiles(s.tables, v.files), v.floor);
    assert h[v.upTo..|h|] == h[v.upTo..] && h[..|h|] == h;
    StoreIsLookup(AllUpdates(Logged(s)), k);
  }

  // ---- Compaction as a step of the protocol

  /** Installing the outputs of a compaction, where that is right, is a step that the protocol allows: it
      preserves what every reader at the snapshot or later sees. */
  lemma InstallPreserves(sources: seq<set<Entry>>, level: nat, in0: set<Entry>, in1: set<Entry>, kept: set<Entry>,
                         snapshot: SequenceNumber)
    requires NewerAbove(sources) && AreInputs(sources, level, in0, in1) && kept <= in0 + in1
    requires var after := Install(sources, level, in0, in1, kept);
      NewerAbove(after) && SameAnswers(sources, after, snapshot)
    ensures Preserves(Everything(sources) - (in0 + in1), in0 + in1, kept, snapshot)
  {
    hide Lookup, Search, Everything, Install, NewerAbove;
    var after, ins := Install(sources, level, in0, in1, kept), in0 + in1;
    EverythingInstalled(sources, level, in0, in1, kept);
    assert (Everything(sources) - ins) + ins == Everything(sources);
    forall k, s | s >= snapshot
      ensures Visible(Lookup((Everything(sources) - ins) + kept, k, s)) == Visible(Lookup((Everything(sources) - ins) + ins, k, s))
    {
      SearchIsLookup(sources, k, s);
      SearchIsLookup(after, k, s);
    }
  }
}
