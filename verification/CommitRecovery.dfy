/** A crash in bytes: cutting the log files after what was synced loses records as the protocol's
    crash does, so what the reader gets back from the files has every acknowledged sync write. */
module CommitRecovery {
  import opened Bytes
  import opened Entries
  import opened CommitProtocol
  import opened CommitInvariant
  import opened CommitMeaning
  import opened CommitDurability
  import LogFormat
  import LogReader

  /** How a batch is written as the bytes of one log record. */
  type Encoding = Record -> seq<byte>

  function Encoded(encode: Encoding, records: seq<Record>): (r: seq<seq<byte>>)
    ensures |r| == |records| && forall i | 0 <= i < |records| :: r[i] == encode(records[i])
  {
    seq(|records|, i requires 0 <= i < |records| => encode(records[i]))
  }

  lemma EncodedPrefix(encode: Encoding, records: seq<Record>, n: nat)
    requires n <= |records|
    ensures Encoded(encode, records)[..n] == Encoded(encode, records[..n])
  {
  }

  /** What was synced of the log is in the file that is left. */
  ghost predicate SyncedKept(step: LogFormat.Step, encode: Encoding, log: Log, cut: nat) {
    && log.synced <= |log.records|
    && |LogFormat.Log(step, Encoded(encode, log.records[..log.synced]), 0)| <= cut
  }

  /** Records that lie whole before the cut survive. */
  lemma {:induction false} WholeSurvive(step: LogFormat.Step, records: seq<seq<byte>>, p: nat, cut: nat, n: nat)
    requires n <= |records| && p + |LogFormat.Log(step, records[..n], p)| <= cut
    ensures n <= |LogFormat.Survivors(step, records, p, cut)|
  {
    hide LogFormat.Fragments;
    if n > 0 {
      assert records[..n][1..] == records[1..][..n - 1];
      WholeSurvive(step, records[1..], p + |LogFormat.Fragments(step, records[0], true, p)|, cut, n - 1);
    }
  }

  /** One log file written, cut and read back: a prefix of its records with all that were synced. */
  method ReadLog(step: LogFormat.Step, encode: Encoding, log: Log, cut: nat) returns (recovered: seq<seq<byte>>, ghost kept: nat)
    requires SyncedKept(step, encode, log, cut)
    ensures log.synced <= kept <= |log.records| && recovered == Encoded(encode, log.records[..kept])
  {
    hide LogFormat.Survivors, LogFormat.Log;
    var reports;
    recovered, reports := LogReader.CrashAndRecover(step, Encoded(encode, log.records), cut);
    kept := SurvivorsKept(step, encode, log, cut);
  }

  lemma SurvivorsKept(step: LogFormat.Step, encode: Encoding, log: Log, cut: nat) returns (kept: nat)
    requires SyncedKept(step, encode, log, cut)
    ensures log.synced <= kept <= |log.records|
    ensures LogFormat.Survivors(step, Encoded(encode, log.records), 0, cut) == Encoded(encode, log.records[..kept])
  {
    hide LogFormat.Survivors, LogFormat.Log;
    var all := Encoded(encode, log.records);
    EncodedPrefix(encode, log.records, log.synced);
    WholeSurvive(step, all, 0, cut, log.synced);
    LogFormat.SurvivorsArePrefix(step, all, 0, cut);
    kept := |LogFormat.Survivors(step, all, 0, cut)|;
    EncodedPrefix(encode, log.records, kept);
  }

  /** Each log file gives back the records that `kept` says. */
  ghost predicate FilesGive(step: LogFormat.Step, encode: Encoding, logs: map<nat, Log>, cuts: map<nat, nat>, kept: map<nat, nat>) {
    forall n | n in logs && n in cuts && n in kept ::
      kept[n] <= |logs[n].records|
      && LogFormat.Survivors(step, Encoded(encode, logs[n].records), 0, cuts[n]) == Encoded(encode, logs[n].records[..kept[n]])
  }

  /** Whatever is cut off the files behind the synced part, it is a crash of the protocol. */
  lemma CutIsCrash(step: LogFormat.Step, encode: Encoding, logs: map<nat, Log>, cuts: map<nat, nat>) returns (kept: map<nat, nat>)
    requires forall n | n in logs :: n in cuts && SyncedKept(step, encode, logs[n], cuts[n])
    ensures Crash(logs, kept) && FilesGive(step, encode, logs, cuts, kept)
  {
    hide SyncedKept, LogFormat.Survivors, Encoded;
    kept := map[];
    var left := logs.Keys;
    while left != {}
      invariant left <= logs.Keys && kept.Keys == logs.Keys - left
      invariant forall n | n in kept ::
        logs[n].synced <= kept[n] <= |logs[n].records|
        && LogFormat.Survivors(step, Encoded(encode, logs[n].records), 0, cuts[n]) == Encoded(encode, logs[n].records[..kept[n]])
      decreases |left|
    {
      var n :| n in left;
      var k := SurvivorsKept(step, encode, logs[n], cuts[n]);
      kept, left := kept[n := k], left - {n};
    }
  }

  /** In every state of every run: the log files cut anywhere behind their synced parts, and read back.
      The records that come back, on top of the tables in the MANIFEST, answer for every key with an
      acknowledged sync write what that write or a later one wrote. */
  lemma SyncedWriteSurvivesInFiles(states: seq<State>, steps: seq<Step>, i: nat, step: LogFormat.Step, encode: Encoding,
                                   cuts: map<nat, nat>)
    returns (kept: map<nat, nat>)
    requires Run(states, steps) && i < |states|
    requires forall n | n in states[i].logs :: n in cuts && SyncedKept(step, encode, states[i].logs[n], cuts[n])
    ensures Shaped(states[i]) && Crash(states[i].logs, kept) && FilesGive(step, encode, states[i].logs, cuts, kept)
    ensures
      var s := states[i];
      var recovered := EntriesOfFiles(s.tables, s.Durable().files) + Surviving(s.logs, s.DurableLog(), kept);
      var us := AllUpdates(Logged(s));
      forall j | 0 <= j < s.lastSequence && Acknowledged(s.returned, j) ::
        j < |us| && WrittenFrom(us, us[j].user, j, Visible(Lookup(recovered, us[j].user, |us|)))
  {
    hide Enabled, After, AllInv, SyncedKept, FilesGive, Crash, Lookup, AllUpdates, Surviving, EntriesOfFiles, WrittenFrom, Acknowledged, Run;
    RunKeepsAll(states, steps);
    var s := states[i];
    assert AllInv(s);
    ReturnedAreLogged(s);
    kept := CutIsCrash(step, encode, s.logs, cuts);
    var us := AllUpdates(Logged(s));
    forall j | 0 <= j < s.lastSequence && Acknowledged(s.returned, j)
      ensures
        var recovered := EntriesOfFiles(s.tables, s.Durable().files) + Surviving(s.logs, s.DurableLog(), kept);
        j < |us| && WrittenFrom(us, us[j].user, j, Visible(Lookup(recovered, us[j].user, |us|)))
    {
      SyncedWriteSurvives(s, kept, us[j].user, j);
    }
  }

  lemma ReturnedAreLogged(s: State)
    requires AllInv(s)
    ensures Shaped(s) && s.lastSequence <= |AllUpdates(Logged(s))|
  {
    hide MemoryInv, LogInv, VersionInv, BackgroundInv, SnapshotInv, ReaderInv, SyncInv;
    HistoryLength(s);
  }
}
