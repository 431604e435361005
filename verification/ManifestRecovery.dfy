/** From edits to manifest bytes and back: what a restart finds after a crash cut the manifest short. */
module ManifestRecovery {
  import opened Bytes
  import opened Comparator
  import opened EditHistory
  import opened V = VersionEdit
  import opened Coding
  import LogFormat
  import LogReader
  import Manifest

  datatype Recovered = Recovered(lists: Levels, nextFile: nat, logNumber: nat, lastSequence: nat)

  predicate KeysInternal(e: VersionEdit) {
    forall i | 0 <= i < |e.newFiles| :: IsInternal(e.newFiles[i].1.smallest)
  }

  predicate OfComparator(e: VersionEdit, name: seq<byte>) {
    e.comparator.Some? ==> e.comparator.value == name
  }

  predicate Decodes(record: seq<byte>, name: seq<byte>) {
    Decode(record, CLEARED).Some? && OfComparator(Decode(record, CLEARED).value, name)
  }

  /** `o` is the last of the values that is present. */
  ghost predicate Latest(values: seq<Option<nat>>, o: Option<nat>) {
    if o.None? then forall i | 0 <= i < |values| :: values[i].None?
    else exists i :: 0 <= i < |values| && values[i] == o && forall j | i < j < |values| :: values[j].None?
  }

  function NextFiles(es: seq<VersionEdit>): (r: seq<Option<nat>>)
    ensures |r| == |es|
  {
    seq(|es|, i requires 0 <= i < |es| => es[i].nextFileNumber)
  }

  function LogNumbers(es: seq<VersionEdit>): (r: seq<Option<nat>>)
    ensures |r| == |es|
  {
    seq(|es|, i requires 0 <= i < |es| => es[i].logNumber)
  }

  function LastSequences(es: seq<VersionEdit>): (r: seq<Option<nat>>)
    ensures |r| == |es|
  {
    seq(|es|, i requires 0 <= i < |es| => es[i].lastSequence)
  }

  ghost predicate SomePresent(values: seq<Option<nat>>) {
    exists i :: 0 <= i < |values| && values[i].Some?
  }

  /** Every edit is one the manifest of this database may hold, and each number is in one of them. */
  ghost predicate Complete(es: seq<VersionEdit>) {
    SomePresent(NextFiles(es)) && SomePresent(LogNumbers(es)) && SomePresent(LastSequences(es))
  }

  /** The builder's edit: the same deletions, in the order of a walk through the set. */
  ghost predicate StandsFor(p: Edit, e: VersionEdit) {
    p.added == e.newFiles && forall d :: d in p.deleted <==> d in e.deletedFiles
  }

  ghost predicate AllStandFor(ps: seq<Edit>, es: seq<VersionEdit>) {
    |ps| == |es| && forall i | 0 <= i < |es| :: StandsFor(ps[i], es[i])
  }

  ghost predicate Spelled(records: seq<seq<byte>>, es: seq<VersionEdit>, name: seq<byte>) {
    |records| == |es| && forall i | 0 <= i < |es| :: Decode(records[i], CLEARED) == Some(es[i]) && OfComparator(es[i], name)
  }

  /** What a restart makes of the records that spell `es`. */
  ghost predicate IsRecovery(es: seq<VersionEdit>, ps: seq<Edit>, r: Option<Recovered>) {
    && AllStandFor(ps, es)
    && (r.Some? <==> Complete(es))
    && (r.Some? ==>
          && Manifest.AllSaved(Manifest.EmptyLevels(), ps, r.value.lists)
          && Latest(NextFiles(es), Some(r.value.nextFile)) && Latest(LogNumbers(es), Some(r.value.logNumber))
          && Latest(LastSequences(es), Some(r.value.lastSequence)))
  }

  lemma LatestStep(values: seq<Option<nat>>, o: Option<nat>, next: Option<nat>)
    requires Latest(values, o)
    ensures Latest(values + [next], if next.Some? then next else o)
  {
    var more := values + [next];
    if next.Some? {
      assert more[|values|] == next;
    } else if o.Some? {
      var i :| 0 <= i < |values| && values[i] == o && forall j | i < j < |values| :: values[j].None?;
      assert more[i] == o;
    }
  }

  lemma LatestPresent(values: seq<Option<nat>>, o: Option<nat>)
    requires Latest(values, o)
    ensures o.Some? <==> SomePresent(values)
  {
  }

  /** The deleted files in some order. */
  method Walk(files: set<(nat, nat)>) returns (walked: seq<(nat, nat)>)
    ensures forall d :: d in walked <==> d in files
  {
    var left := files;
    walked := [];
    while left != {}
      invariant left <= files && forall d :: d in files <==> d in left || d in walked
      decreases |left|
    {
      var d :| d in left;
      left, walked := left - {d}, walked + [d];
    }
  }

  lemma {:induction false} DecodeLevels(s: seq<byte>, e: VersionEdit)
    requires forall d | d in e.deletedFiles :: d.0 < NUM_LEVELS
    requires forall i | 0 <= i < |e.newFiles| :: e.newFiles[i].0 < NUM_LEVELS
    requires Decode(s, e).Some?
    ensures var r := Decode(s, e).value;
      && (forall d | d in r.deletedFiles :: d.0 < NUM_LEVELS)
      && forall i | 0 <= i < |r.newFiles| :: r.newFiles[i].0 < NUM_LEVELS
    decreases |s|
  {
    hide ReadTagged;
    if s != [] {
      var (f, rest) := ReadTagged(s).value;
      FieldLevel(s);
      DecodeLevels(rest, WithField(e, f));
    }
  }

  lemma FieldLevel(s: seq<byte>)
    requires ReadTagged(s).Some?
    ensures var f := ReadTagged(s).value.0;
      (f.DeletedFile? || f.NewFile? ==> f.level < NUM_LEVELS)
  {
    hide ReadLength, ReadLong, ReadSlice;
  }

  /** Reading the field values of edits one at a time. */
  lemma ValuesStep(es: seq<VersionEdit>, e: VersionEdit)
    ensures NextFiles(es + [e]) == NextFiles(es) + [e.nextFileNumber]
    ensures LogNumbers(es + [e]) == LogNumbers(es) + [e.logNumber]
    ensures LastSequences(es + [e]) == LastSequences(es) + [e.lastSequence]
  {
  }

  /** One record of the manifest goes into the builder. */
  method ApplyRecord(builder: Manifest.Builder, e: VersionEdit, record: seq<byte>, ghost ps: seq<Edit>) returns (ghost p: Edit)
    requires builder.Valid() && Decode(record, CLEARED) == Some(e) && KeysInternal(e)
    requires forall l | 0 <= l < NUM_LEVELS :: builder.histories[l] == HistoryOf(ps, l)
    modifies builder
    ensures builder.Valid() && |builder.histories| == NUM_LEVELS && StandsFor(p, e)
    ensures forall l | 0 <= l < NUM_LEVELS :: builder.histories[l] == HistoryOf(ps + [p], l)
  {
    hide Manifest.Builder.Valid, Decode, ReadTagged, Events;
    DecodeLevels(record, CLEARED);
    var walked := Walk(e.deletedFiles);
    p := Edit(walked, e.newFiles);
    forall l: nat ensures HistoryOf(ps + [p], l) == HistoryOf(ps, l) + Events(p, l) {
      assert (ps + [p])[..|ps|] == ps;
    }
    ValidSize(builder);
    builder.Apply(Edit(walked, e.newFiles));
    ValidSize(builder);
  }

  lemma ValidSize(builder: Manifest.Builder)
    ensures builder.Valid() ==> |builder.histories| == NUM_LEVELS
  {
  }

  /** The loop of a restart over the manifest's records: nothing is recovered from a manifest with a
      damaged record, with another comparator's name, or without one of the three numbers. */
  method Recover(records: seq<seq<byte>>, name: seq<byte>)
    returns (r: Option<Recovered>, ghost es: seq<VersionEdit>, ghost ps: seq<Edit>)
    requires forall i | 0 <= i < |records| :: Decode(records[i], CLEARED).Some? ==> KeysInternal(Decode(records[i], CLEARED).value)
    ensures (forall i | 0 <= i < |records| :: Decodes(records[i], name)) ==> Spelled(records, es, name) && IsRecovery(es, ps, r)
    ensures !(forall i | 0 <= i < |records| :: Decodes(records[i], name)) ==> r.None?
  {
    hide Manifest.Builder.Valid, Decode, ReadTagged, HistoryOf, Latest, StandsFor, NextFiles, LogNumbers, LastSequences;
    var nextFile: Option<nat>, logNumber: Option<nat>, lastSequence: Option<nat> := None, None, None;
    NothingRead();
    var builder := new Manifest.Builder(Manifest.EmptyLevels());
    ValidSize(builder);
    es, ps := [], [];
    for i := 0 to |records|
      invariant fresh(builder) && builder.Valid() && builder.base == Manifest.EmptyLevels()
      invariant |builder.histories| == NUM_LEVELS && forall l | 0 <= l < NUM_LEVELS :: builder.histories[l] == HistoryOf(ps, l)
      invariant Spelled(records[..i], es, name) && AllStandFor(ps, es)
      invariant Latest(NextFiles(es), nextFile) && Latest(LogNumbers(es), logNumber) && Latest(LastSequences(es), lastSequence)
    {
      var edit := DecodeFrom(CLEARED, records[i]);
      assert records[..i + 1] == records[..i] + [records[i]];
      if edit.None? || !OfComparator(edit.value, name) {
        assert !Decodes(records[i], name);
        return None, es, ps;
      }
      var e := edit.value;
      FromCleared(records[i]);
      ValuesStep(es, e);
      LatestStep(NextFiles(es), nextFile, e.nextFileNumber);
      LatestStep(LogNumbers(es), logNumber, e.logNumber);
      LatestStep(LastSequences(es), lastSequence, e.lastSequence);
      ghost var p := ApplyRecord(builder, e, records[i], ps);
      es, ps := es + [e], ps + [p];
      nextFile := if e.nextFileNumber.Some? then e.nextFileNumber else nextFile;
      logNumber := if e.logNumber.Some? then e.logNumber else logNumber;
      lastSequence := if e.lastSequence.Some? then e.lastSequence else lastSequence;
    }
    assert records[..|records|] == records;
    LatestPresent(NextFiles(es), nextFile);
    LatestPresent(LogNumbers(es), logNumber);
    LatestPresent(LastSequences(es), lastSequence);
    if nextFile.None? || logNumber.None? || lastSequence.None? {
      return None, es, ps;
    }
    var lists := Save(builder, ps);
    r := Some(Recovered(lists, nextFile.value, logNumber.value, lastSequence.value));
  }

  method Save(builder: Manifest.Builder, ghost ps: seq<Edit>) returns (lists: Levels)
    requires builder.Valid() && builder.base == Manifest.EmptyLevels()
    requires forall l | 0 <= l < NUM_LEVELS :: builder.histories[l] == HistoryOf(ps, l)
    ensures Manifest.AllSaved(Manifest.EmptyLevels(), ps, lists)
  {
    hide HistoryOf, IsSaved;
    lists := builder.SaveTo();
    builder.HistoriesInternal();
  }

  lemma FromCleared(record: seq<byte>)
    requires WithPointers(CLEARED.compactPointers, Decode(record, CLEARED)).Some?
    ensures WithPointers(CLEARED.compactPointers, Decode(record, CLEARED)) == Decode(record, CLEARED)
  {
    hide Decode;
    var e := Decode(record, CLEARED).value;
    assert [] + e.compactPointers == e.compactPointers;
  }

  lemma NothingRead()
    ensures Latest(NextFiles([]), None) && Latest(LogNumbers([]), None) && Latest(LastSequences([]), None)
    ensures forall l :: HistoryOf([], l) == []
  {
  }

  /** Edits written to a manifest, the file cut off after any number of bytes, and a restart: it
      rebuilds the lists that the first edits make, as many as are whole in the file, and with them
      the replay of these edits exactly if their history agrees. */
  method CrashAndRecover(step: LogFormat.Step, name: seq<byte>, edits: seq<VersionEdit>, cut: nat)
    returns (records: seq<seq<byte>>, n: nat, r: Option<Recovered>, ghost ps: seq<Edit>)
    requires forall i | 0 <= i < |edits| :: edits[i].Fits() && KeysInternal(edits[i]) && OfComparator(edits[i], name)
    ensures Spelled(records, edits, name) && n <= |edits|
    ensures LogFormat.Survivors(step, records, 0, cut) == records[..n]
    ensures |LogFormat.Log(step, records, 0)| <= cut ==> n == |edits|
    ensures IsRecovery(edits[..n], ps, r)
    ensures r.Some? ==>
      (Manifest.IsReplay(Manifest.EmptyLevels(), ps, r.value.lists) <==> Manifest.AllAgree(Manifest.EmptyLevels(), ps))
  {
    hide Decode, ReadTagged, LogFormat.Survivors, LogFormat.Log, Manifest.IsReplay, Manifest.AllAgree, Manifest.AllSaved, Complete, Latest, StandsFor;
    records := EncodeAll(edits, name);
    var survived, reports := LogReader.CrashAndRecover(step, records, cut);
    LogFormat.SurvivorsArePrefix(step, records, 0, cut);
    n := |survived|;
    assert survived == records[..n];
    ghost var es;
    r, es, ps := Recover(survived, name);
    OneSpelling(survived, es, edits[..n], name);
    if r.Some? {
      Manifest.NoFiles();
      Manifest.AllSavedIsReplay(Manifest.EmptyLevels(), ps, r.value.lists);
    }
  }

  lemma OneSpelling(records: seq<seq<byte>>, a: seq<VersionEdit>, b: seq<VersionEdit>, name: seq<byte>)
    requires Spelled(records, a, name) && Spelled(records, b, name)
    ensures a == b
  {
    hide Decode;
    forall i | 0 <= i < |a| ensures a[i] == b[i] {
      assert Decode(records[i], CLEARED) == Some(a[i]);
    }
  }

  method EncodeAll(edits: seq<VersionEdit>, name: seq<byte>) returns (records: seq<seq<byte>>)
    requires forall i | 0 <= i < |edits| :: edits[i].Fits() && OfComparator(edits[i], name)
    ensures Spelled(records, edits, name)
  {
    hide Decode, Spells, VersionEdit.Fits, Layout, Walks;
    records := [];
    for i := 0 to |edits|
      invariant Spelled(records, edits[..i], name)
    {
      var record;
      ghost var walk;
      record, walk := EncodeTo(edits[i]);
      SpelledDecodes(record, edits[i]);
      records := records + [record];
      assert edits[..i + 1] == edits[..i] + [edits[i]];
    }
    assert edits[..|edits|] == edits;
  }

  lemma SpelledDecodes(bytes: seq<byte>, e: VersionEdit)
    requires Spells(bytes, e)
    ensures Decode(bytes, CLEARED) == Some(e)
  {
    assert bytes + [] == bytes && Decode([], e) == Some(e);
  }
}
