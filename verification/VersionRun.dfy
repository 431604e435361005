/** The versions that the database goes through: every version that flushes and compactions install
    has what a lookup relies on. */
module VersionRun {
  import opened Bytes
  import opened Entries
  import opened Compaction
  import opened CompactionMeaning
  import opened CompactionInstall
  import opened Overlap
  import opened VersionGet

  ghost function Tables(ts: Files): set<Table> {
    set t | t in ts
  }

  /** How a saved level is ordered: by smallest key, then by number. */
  predicate BySmallest(t: Table, u: Table) {
    Precedes(t.smallest, u.smallest) || (!Precedes(u.smallest, t.smallest) && t.number < u.number)
  }

  ghost predicate Ordered(ts: Files) {
    forall i, j | 0 <= i < j < |ts| :: BySmallest(ts[i], ts[j])
  }

  ghost predicate TableOk(t: Table) {
    t.WellFormed() && forall e | e in t.entries :: e.key.sequence <= MAX_SEQUENCE
  }

  /** No two tables of a level above 0 reach into each other. */
  ghost predicate Disjoint(ts: set<Table>) {
    forall t, u | t in ts && u in ts && t != u :: Precedes(t.largest, u.smallest) || Precedes(u.largest, t.smallest)
  }

  /** Tables of level 0 may overlap; the higher number is the newer one. */
  ghost predicate Stacked(ts: set<Table>) {
    && (forall t, u | t in ts && u in ts && t != u :: t.number != u.number)
    && forall t, u | t in ts && u in ts && t.number > u.number :: Above(Elements(t.entries), Elements(u.entries))
  }

  ghost predicate Inv(files: seq<Files>) {
    && |files| == NUM_LEVELS && (forall l | 0 <= l < NUM_LEVELS :: Ordered(files[l]))
    && (forall l, t | 0 <= l < NUM_LEVELS && t in files[l] :: TableOk(t))
    && Stacked(Tables(files[0])) && (forall l | 1 <= l < NUM_LEVELS :: Disjoint(Tables(files[l])))
    && NewerAbove(Contents(files))
  }

  // ---- What lookups and overlap searches rely on

  lemma SpanOfTable(t: Table)
    requires TableOk(t)
    ensures SpanOk(t) && t.WellFormed()
  {
    var n := |t.entries| - 1;
    assert t.entries[0] in t.entries && t.entries[n] in t.entries;
    WithinBounds(t, 0);
  }

  lemma LevelIsOk(ts: Files)
    requires Ordered(ts) && Disjoint(Tables(ts)) && forall t | t in ts :: TableOk(t)
    ensures LevelOk(ts)
  {
    hide Precedes;
    forall i | 0 <= i < |ts| ensures SpanOk(ts[i]) && ts[i].WellFormed() {
      SpanOfTable(ts[i]);
    }
    forall i, j | 0 <= i < j < |ts| ensures Precedes(ts[i].largest, ts[j].smallest) {
      NotTheOther(ts[i], ts[j]);
      SpanOfTable(ts[j]);
      assert ts[i] in Tables(ts) && ts[j] in Tables(ts);
    }
  }

  lemma NotTheOther(t: Table, u: Table)
    requires BySmallest(t, u) && SpanOk(u)
    ensures t != u && !Precedes(u.largest, t.smallest)
  {
  }

  /** Every version that satisfies the invariant is one that Get and the overlap searches can handle. */
  lemma InvMeansOk(files: seq<Files>)
    requires Inv(files)
    ensures VersionOk(files) && VersionSorted(files)
  {
    hide NewerAbove, Contents, BySmallest, Disjoint;
    forall l | 1 <= l < NUM_LEVELS ensures LevelOk(files[l]) {
      LevelIsOk(files[l]);
    }
    LevelZeroIsOk(files[0]);
  }

  lemma LevelZeroIsOk(ts: Files)
    requires Ordered(ts) && Stacked(Tables(ts)) && forall t | t in ts :: TableOk(t)
    ensures LevelZeroOk(ts)
    ensures forall i | 0 <= i < |ts| :: SpanOk(ts[i])
  {
    forall i, j | 0 <= i < |ts| && 0 <= j < |ts| && i != j ensures ts[i].number != ts[j].number {
      assert BySmallest(ts[if i < j then i else j], ts[if i < j then j else i]);
      assert ts[i] in Tables(ts) && ts[j] in Tables(ts);
    }
    forall i | 0 <= i < |ts| ensures SpanOk(ts[i]) {
      SpanOfTable(ts[i]);
    }
  }

  // ---- Steps

  datatype Step =
    | Flush(table: Table, at: nat)
    | Compact(from: nat, in0: set<Table>, in1: set<Table>, outs: Files)

  /** A flush brings entries newer than all others, to a level above 0 only past levels it does not
      overlap.  A compaction brings entries of its inputs to the next level, where its inputs are all that
      overlap the range of its upper inputs; and what it leaves at the upper level is newer. */
  ghost predicate Allowed(files: seq<Files>, step: Step)
    requires |files| == NUM_LEVELS
  {
    match step
    case Flush(t, at) =>
      && at < NUM_LEVELS && TableOk(t) && (forall u | u in files[0] :: t.number > u.number)
      && (forall e, o, l | e in t.entries && 0 <= l < NUM_LEVELS && o in Contents(files)[l] :: e.key.sequence > o.key.sequence)
      && (at > 0 ==> forall l | 0 <= l <= at :: NoneOverlaps(files[l], t.smallest.user, t.largest.user))
    case Compact(from, in0, in1, outs) =>
      && from + 1 < NUM_LEVELS && Chosen(files, from, in0, in1)
      && StaysNewer(Contents(files), from, EntriesOf(in0), EntriesOf(Tables(outs)))
      && (forall t | t in outs :: TableOk(t))
      && (forall i, j | 0 <= i < j < |outs| :: Precedes(outs[i].largest, outs[j].smallest))
      && EntriesOf(Tables(outs)) <= EntriesOf(in0) + EntriesOf(in1)
  }

  ghost predicate Covering(ts: set<Table>, a: UserKey, b: UserKey) {
    forall t | t in ts :: a <= t.smallest.user && t.largest.user <= b
  }

  /** `ts` are the tables of the level that overlap the range. */
  ghost predicate Exactly(ts: set<Table>, level: set<Table>, a: UserKey, b: UserKey) {
    forall t | t in level :: t in ts <==> t.largest.user >= a && t.smallest.user <= b
  }

  /** Tables of the level and all those of the next one that overlap their range. */
  ghost predicate Chosen(files: seq<Files>, from: nat, in0: set<Table>, in1: set<Table>) {
    && from + 1 < |files| && in0 <= Tables(files[from]) && in1 <= Tables(files[from + 1])
    && exists a: UserKey, b: UserKey :: Covering(in0, a, b) && Exactly(in1, Tables(files[from + 1]), a, b)
  }

  /** Which tables each level holds afterwards. */
  ghost function Installed(files: seq<Files>, step: Step, l: nat): set<Table>
    requires l < |files|
  {
    match step
    case Flush(t, at) => Tables(files[l]) + if l == at then {t} else {}
    case Compact(from, in0, in1, outs) =>
      if l == from then Tables(files[l]) - in0
      else if l == from + 1 then (Tables(files[l]) - in1) + Tables(outs)
      else Tables(files[l])
  }

  /** The version saved after a step: the right tables, each level in order. */
  ghost predicate Next(files: seq<Files>, step: Step, after: seq<Files>)
    requires |files| == NUM_LEVELS
  {
    |after| == NUM_LEVELS && forall l | 0 <= l < NUM_LEVELS :: Ordered(after[l]) && Tables(after[l]) == Installed(files, step, l)
  }

  // ---- Flush

  lemma FlushDisjoint(ts: Files, t: Table)
    requires Disjoint(Tables(ts)) && (forall u | u in ts :: TableOk(u)) && TableOk(t)
    requires NoneOverlaps(ts, t.smallest.user, t.largest.user)
    ensures Disjoint(Tables(ts) + {t})
  {
    forall u | u in ts ensures Precedes(t.largest, u.smallest) || Precedes(u.largest, t.smallest) {
      var i :| 0 <= i < |ts| && ts[i] == u;
      assert !Overlap.Overlaps(ts[i], Some(t.smallest.user), Some(t.largest.user));
    }
  }

  lemma FlushStacked(ts: Files, t: Table)
    requires Stacked(Tables(ts)) && (forall u | u in ts :: t.number > u.number)
    requires forall e, o, u | e in t.entries && u in ts && o in u.entries :: e.key.sequence > o.key.sequence
    ensures Stacked(Tables(ts) + {t})
  {
  }

  lemma EntryOfLevel(files: seq<Files>, l: nat, t: Table, e: Entry)
    requires l < |files| && t in files[l] && e in t.entries
    ensures e in Contents(files)[l]
  {
  }

  lemma FlushKeeps(files: seq<Files>, t: Table, at: nat, after: seq<Files>)
    requires Inv(files) && Allowed(files, Flush(t, at)) && Next(files, Flush(t, at), after)
    ensures Inv(after)
  {
    hide NewerAbove, Contents, Disjoint, Stacked, Ordered, NoneOverlaps, TableOk;
    var appended := files[at := files[at] + [t]];
    forall l | 0 <= l < NUM_LEVELS ensures Tables(appended[l]) == Tables(after[l]) {
      assert l == at ==> Tables(files[l] + [t]) == Tables(files[l]) + {t};
    }
    SameContents(appended, after);
    TablesAreWellFormed(files);
    assert t.WellFormed() by { SpanOfTable(t); }
    FlushKeepsNewerAbove(files, t, at);
    forall l, u | 0 <= l < NUM_LEVELS && u in after[l] ensures TableOk(u) {
      assert u in Tables(after[l]);
    }
    if at > 0 {
      FlushDisjoint(files[at], t);
    } else {
      forall e, o, u | e in t.entries && u in files[0] && o in u.entries ensures e.key.sequence > o.key.sequence {
        EntryOfLevel(files, 0, u, o);
      }
      FlushStacked(files[0], t);
    }
    forall l | 1 <= l < NUM_LEVELS && l != at ensures Tables(after[l]) == Tables(files[l]) {
    }
  }

  lemma TablesAreWellFormed(files: seq<Files>)
    requires Inv(files)
    ensures forall l, f | 0 <= l < NUM_LEVELS && f in files[l] :: f.WellFormed()
  {
    forall l, f | 0 <= l < NUM_LEVELS && f in files[l] ensures f.WellFormed() {
      assert TableOk(f);
    }
  }

  lemma SameContents(a: seq<Files>, b: seq<Files>)
    requires |a| == |b| && forall l | 0 <= l < |a| :: Tables(a[l]) == Tables(b[l])
    ensures Contents(a) == Contents(b)
  {
    forall l | 0 <= l < |a| ensures Contents(a)[l] == Contents(b)[l] {
      assert (set t | t in a[l]) == Tables(a[l]) == Tables(b[l]) == set t | t in b[l];
    }
  }

  // ---- Compaction

  /** Tables of one level share no entry. */
  lemma NoSharedEntry(ts: set<Table>, t: Table, u: Table, e: Entry)
    requires Disjoint(ts) || Stacked(ts)
    requires t in ts && u in ts && TableOk(t) && TableOk(u) && e in t.entries && e in u.entries
    ensures t == u
  {
    assert e in Elements(t.entries) && e in Elements(u.entries);
    if t != u && Disjoint(ts) {
      var i :| 0 <= i < |t.entries| && t.entries[i] == e;
      var j :| 0 <= j < |u.entries| && u.entries[j] == e;
      WithinBounds(t, i);
      WithinBounds(u, j);
    }
  }

  lemma EntriesWithout(ts: set<Table>, out: set<Table>)
    requires (Disjoint(ts) || Stacked(ts)) && out <= ts && forall t | t in ts :: TableOk(t)
    ensures EntriesOf(ts - out) == EntriesOf(ts) - EntriesOf(out)
  {
    hide Disjoint, Stacked, TableOk;
    forall e | e in EntriesOf(ts - out) ensures e !in EntriesOf(out) {
      var t :| t in ts - out && e in t.entries;
      if u :| u in out && e in u.entries {
        NoSharedEntry(ts, t, u, e);
      }
    }
  }

  lemma EntriesTogether(a: set<Table>, b: set<Table>)
    ensures EntriesOf(a + b) == EntriesOf(a) + EntriesOf(b)
  {
  }

  lemma EntryInBounds(t: Table, e: Entry)
    requires TableOk(t) && e in t.entries
    ensures !Precedes(e.key, t.smallest) && !Precedes(t.largest, e.key)
  {
    var i :| 0 <= i < |t.entries| && t.entries[i] == e;
    WithinBounds(t, i);
  }

  /** A table of the output level that stays is on one side of every entry of the inputs. */
  lemma InputsOnOneSide(lower: set<Table>, in0: set<Table>, in1: set<Table>, a: UserKey, b: UserKey, g: Table, e: Entry)
    requires Disjoint(lower) && (forall t | t in lower + in0 :: TableOk(t)) && in1 <= lower
    requires Covering(in0, a, b) && Exactly(in1, lower, a, b) && g in lower - in1
    requires e in EntriesOf(in0) + EntriesOf(in1)
    ensures g.largest.user < a ==> Precedes(g.largest, e.key)
    ensures g.largest.user >= a ==> Precedes(e.key, g.smallest)
  {
    var t :| t in in0 + in1 && e in t.entries;
    EntryInBounds(t, e);
    SpanOfTable(g);
    SpanOfTable(t);
    if t in in1 {
      assert Precedes(t.largest, g.smallest) || Precedes(g.largest, t.smallest);
    }
  }

  lemma OutsOnOneSide(lower: set<Table>, in0: set<Table>, in1: set<Table>, a: UserKey, b: UserKey, g: Table, o: Table)
    requires Disjoint(lower) && (forall t | t in lower + in0 :: TableOk(t)) && in1 <= lower
    requires Covering(in0, a, b) && Exactly(in1, lower, a, b) && g in lower - in1
    requires TableOk(o) && forall e | e in o.entries :: e in EntriesOf(in0) + EntriesOf(in1)
    ensures Precedes(g.largest, o.smallest) || Precedes(o.largest, g.smallest)
  {
    var first, last := o.entries[0], o.entries[|o.entries| - 1];
    assert first in o.entries && last in o.entries;
    hide Disjoint, TableOk, Covering, Exactly, Precedes;
    InputsOnOneSide(lower, in0, in1, a, b, g, first);
    InputsOnOneSide(lower, in0, in1, a, b, g, last);
    assert o.smallest == first.key && o.largest == last.key by { SpanOfTable(o); }
  }

  lemma CompactDisjoint(lower: set<Table>, in0: set<Table>, in1: set<Table>, outs: Files, a: UserKey, b: UserKey)
    requires Disjoint(lower) && (forall t | t in lower + in0 :: TableOk(t)) && in1 <= lower
    requires Covering(in0, a, b) && Exactly(in1, lower, a, b) && (forall t | t in outs :: TableOk(t))
    requires forall i, j | 0 <= i < j < |outs| :: Precedes(outs[i].largest, outs[j].smallest)
    requires EntriesOf(Tables(outs)) <= EntriesOf(in0) + EntriesOf(in1)
    ensures Disjoint((lower - in1) + Tables(outs))
  {
    hide TableOk, Covering, Exactly, Precedes;
    forall g, o | g in lower - in1 && o in outs ensures Precedes(g.largest, o.smallest) || Precedes(o.largest, g.smallest) {
      forall e | e in o.entries ensures e in EntriesOf(in0) + EntriesOf(in1) {
        assert o in Tables(outs) && e in EntriesOf(Tables(outs));
      }
      OutsOnOneSide(lower, in0, in1, a, b, g, o);
    }
    forall o, q | o in outs && q in outs && o != q ensures Precedes(o.largest, q.smallest) || Precedes(q.largest, o.smallest) {
      var i :| 0 <= i < |outs| && outs[i] == o;
      var j :| 0 <= j < |outs| && outs[j] == q;
    }
  }

  lemma CompactContents(files: seq<Files>, from: nat, in0: set<Table>, in1: set<Table>, outs: Files, after: seq<Files>)
    requires Inv(files) && Allowed(files, Compact(from, in0, in1, outs)) && Next(files, Compact(from, in0, in1, outs), after)
    ensures Contents(after) == Install(Contents(files), from, EntriesOf(in0), EntriesOf(in1), EntriesOf(Tables(outs)))
  {
    hide NewerAbove, Disjoint, Stacked, Ordered, TableOk, EntriesOf, StaysNewer, Covering, Exactly;
    EntriesWithout(Tables(files[from]), in0);
    EntriesWithout(Tables(files[from + 1]), in1);
    EntriesTogether(Tables(files[from + 1]) - in1, Tables(outs));
    ContentsAre(files);
    ContentsAre(after);
  }

  lemma ContentsAre(files: seq<Files>)
    ensures |Contents(files)| == |files| && forall l | 0 <= l < |files| :: Contents(files)[l] == EntriesOf(Tables(files[l]))
  {
    forall l | 0 <= l < |files| ensures Contents(files)[l] == EntriesOf(Tables(files[l])) {
      assert (set t | t in files[l]) == Tables(files[l]);
    }
  }

  lemma CompactKeeps(files: seq<Files>, from: nat, in0: set<Table>, in1: set<Table>, outs: Files, after: seq<Files>)
    requires Inv(files) && Allowed(files, Compact(from, in0, in1, outs)) && Next(files, Compact(from, in0, in1, outs), after)
    ensures Inv(after)
  {
    CompactContents(files, from, in0, in1, outs, after);
    hide NewerAbove, Contents, Ordered, TableOk, Covering, Exactly, EntriesOf, StaysNewer, Precedes;
    TablesAreInputs(files, from, in0, in1);
    NewerAboveExactly(Contents(files), from, EntriesOf(in0), EntriesOf(in1), EntriesOf(Tables(outs)));
    var a: UserKey, b: UserKey :| Covering(in0, a, b) && Exactly(in1, Tables(files[from + 1]), a, b);
    assert Covering(in0, a, b) && Exactly(in1, Tables(files[from + 1]), a, b);
    CompactDisjoint(Tables(files[from + 1]), in0, in1, outs, a, b);
    forall l, t | 0 <= l < NUM_LEVELS && t in after[l] ensures TableOk(t) {
      assert t in Installed(files, Compact(from, in0, in1, outs), l) by { assert t in Tables(after[l]); }
    }
    hide Above;
    if from == 0 {
      assert Tables(after[0]) <= Tables(files[0]);
    } else {
      assert Tables(after[0]) == Tables(files[0]);
      assert Tables(after[from]) <= Tables(files[from]);
    }
  }

  lemma TablesAreInputs(files: seq<Files>, from: nat, in0: set<Table>, in1: set<Table>)
    requires from + 1 < |files| && in0 <= Tables(files[from]) && in1 <= Tables(files[from + 1])
    ensures AreInputs(Contents(files), from, EntriesOf(in0), EntriesOf(in1))
  {
    ContentsAre(files);
    hide Contents;
  }

  // ---- Runs

  ghost predicate Run(versions: seq<seq<Files>>, steps: seq<Step>) {
    && |versions| == |steps| + 1 && versions[0] == seq(NUM_LEVELS, _ => [])
    && forall i | 0 <= i < |steps| ::
         |versions[i]| == NUM_LEVELS && Allowed(versions[i], steps[i]) && Next(versions[i], steps[i], versions[i + 1])
  }

  lemma StepKeepsInv(files: seq<Files>, step: Step, after: seq<Files>)
    requires Inv(files) && Allowed(files, step) && Next(files, step, after)
    ensures Inv(after)
  {
    hide Inv, Allowed, Next;
    match step
    case Flush(t, at) => FlushKeeps(files, t, at, after);
    case Compact(from, in0, in1, outs) => CompactKeeps(files, from, in0, in1, outs, after);
  }

  /** Every version of every run has its newer data above its older data, its levels above 0 sorted and
      disjoint, and level 0 stacked by number: what Get and the overlap searches rely on. */
  lemma {:induction false} EveryVersionOk(versions: seq<seq<Files>>, steps: seq<Step>)
    requires Run(versions, steps)
    ensures forall i | 0 <= i < |versions| :: Inv(versions[i]) && VersionOk(versions[i]) && VersionSorted(versions[i])
  {
    hide Inv, Allowed, Next, VersionOk, VersionSorted;
    NothingInstalled(versions[0]);
    for i := 0 to |steps|
      invariant forall j | 0 <= j <= i :: Inv(versions[j])
    {
      StepKeepsInv(versions[i], steps[i], versions[i + 1]);
    }
    forall i | 0 <= i < |versions| ensures VersionOk(versions[i]) && VersionSorted(versions[i]) {
      InvMeansOk(versions[i]);
    }
  }

  lemma NothingInstalled(files: seq<Files>)
    requires files == seq(NUM_LEVELS, _ => [])
    ensures Inv(files)
  {
  }

  // ---- The code takes allowed steps

  /** A flush to the level that is picked for it. */
  method FlushStep(files: seq<Files>, t: Table) returns (at: nat)
    requires Inv(files) && TableOk(t) && forall u | u in files[0] :: t.number > u.number
    requires forall e, o, l | e in t.entries && 0 <= l < NUM_LEVELS && o in Contents(files)[l] :: e.key.sequence > o.key.sequence
    ensures Allowed(files, Flush(t, at))
  {
    hide Inv, VersionOk, Contents;
    InvMeansOk(files);
    at := PickLevelForMemTableOutput(files, t.smallest.user, t.largest.user);
  }

  function AsTable(o: Output, number: nat, fileSize: Sizer): Table {
    Table(number, fileSize(o.entries), o.smallest, o.largest, o.entries)
  }

  function AsTables(outputs: seq<Output>, first: nat, fileSize: Sizer): (ts: Files)
    ensures |ts| == |outputs| && forall i | 0 <= i < |outputs| :: ts[i] == AsTable(outputs[i], first + i, fileSize)
  {
    seq(|outputs|, i requires 0 <= i < |outputs| => AsTable(outputs[i], first + i, fileSize))
  }

  lemma {:induction false} FlattenHas(outputs: seq<Output>, e: Entry)
    ensures e in Flatten(outputs) <==> exists i :: 0 <= i < |outputs| && e in outputs[i].entries
  {
    if outputs != [] {
      var n := |outputs| - 1;
      FlattenHas(outputs[..n], e);
      if i :| 0 <= i < |outputs| && e in outputs[i].entries && i < n {
        assert e in outputs[..n][i].entries;
      }
      if i :| 0 <= i < n && e in outputs[..n][i].entries {
        assert e in outputs[i].entries;
      }
    }
  }

  lemma FlattenTables(outputs: seq<Output>, first: nat, fileSize: Sizer)
    ensures EntriesOf(Tables(AsTables(outputs, first, fileSize))) == Elements(Flatten(outputs))
  {
    var ts := AsTables(outputs, first, fileSize);
    forall e ensures e in EntriesOf(Tables(ts)) <==> e in Flatten(outputs) {
      FlattenHas(outputs, e);
      if i :| 0 <= i < |outputs| && e in outputs[i].entries {
        assert ts[i] in Tables(ts);
      }
      if t :| t in Tables(ts) && e in t.entries {
        var i :| 0 <= i < |ts| && ts[i] == t;
        assert e in outputs[i].entries;
      }
    }
  }

  /** The outputs may be installed exactly if they stay below what is newer, and then readers from the
      snapshot on cannot tell exactly if nothing is uncovered. */
  ghost predicate InstallsExactly(files: seq<Files>, from: nat, in0: set<Table>, in1: set<Table>, outs: Files,
                                  snapshot: SequenceNumber)
  {
    var before, kept := Contents(files), EntriesOf(Tables(outs));
    && |files| == |before| == NUM_LEVELS && from + 1 < NUM_LEVELS
    && (Allowed(files, Compact(from, in0, in1, outs)) <==> StaysNewer(before, from, EntriesOf(in0), kept))
    && forall after | Allowed(files, Compact(from, in0, in1, outs)) && Next(files, Compact(from, in0, in1, outs), after) ::
         SameAnswers(before, Contents(after), snapshot) <==>
         NothingUncovered(before, from, EntriesOf(in0), EntriesOf(in1), kept, snapshot)
  }

  /** The compaction loop, run on the tables of a version, and its outputs as tables. */
  method CompactStep(c: Compaction, ghost in0: set<Table>, ghost in1: set<Table>, input: seq<Entry>, snapshot: SequenceNumber,
                     maxOutputFileSize: nat, fileSize: Sizer, first: nat)
    returns (outs: Files)
    requires c.Valid() && c.NothingPassed() && Inv(c.files) && Chosen(c.files, c.level, in0, in1)
    requires Sorted(input) && Elements(input) == EntriesOf(in0) + EntriesOf(in1) && snapshot < MAX_SEQUENCE
    modifies c
    ensures InstallsExactly(c.files, c.level, in0, in1, outs, snapshot)
  {
    TablesAreWellFormed(c.files);
    InvNewerAbove(c.files);
    TablesAreInputs(c.files, c.level, in0, in1);
    hide *;
    var outputs := CompactVersion(c, EntriesOf(in0), EntriesOf(in1), input, snapshot, maxOutputFileSize, fileSize);
    outs := AsTables(outputs, first, fileSize);
    OutputsInstall(c.files, c.level, in0, in1, outputs, first, fileSize, snapshot);
  }

  lemma OutputsInstall(files: seq<Files>, from: nat, in0: set<Table>, in1: set<Table>, outputs: seq<Output>, first: nat,
                       fileSize: Sizer, snapshot: SequenceNumber)
    requires Inv(files) && Chosen(files, from, in0, in1) && from + 1 < |Contents(files)|
    requires forall j | 0 <= j < |outputs| :: OutputWellFormed(outputs[j]) && Sorted(outputs[j].entries)
    requires forall i, j | 0 <= i < j < |outputs| :: Precedes(outputs[i].largest, outputs[j].smallest)
    requires Elements(Flatten(outputs)) <= EntriesOf(in0) + EntriesOf(in1)
    requires InstallsRightly(Contents(files), from, EntriesOf(in0), EntriesOf(in1), Elements(Flatten(outputs)), snapshot)
    ensures InstallsExactly(files, from, in0, in1, AsTables(outputs, first, fileSize), snapshot)
  {
    InvNewerAbove(files);
    ContentsSize(files);
    var a: UserKey, b: UserKey :| Covering(in0, a, b) && Exactly(in1, Tables(files[from + 1]), a, b);
    hide Inv, Contents, EntriesOf, Covering, Exactly, Sorted, OutputWellFormed, Flatten, TableOk, Precedes, StaysNewer, Allowed;
    hide NothingUncovered, SameAnswers, NewerAbove, Install, Next, InstallsRightly;
    var outs := AsTables(outputs, first, fileSize);
    FlattenTables(outputs, first, fileSize);
    OutputTables(files, from, in0, in1, outputs, first, fileSize);
    StepAllowed(files, from, in0, in1, outs, a, b);
    forall after | Allowed(files, Compact(from, in0, in1, outs)) && Next(files, Compact(from, in0, in1, outs), after)
      ensures SameAnswers(Contents(files), Contents(after), snapshot) <==>
              NothingUncovered(Contents(files), from, EntriesOf(in0), EntriesOf(in1), EntriesOf(Tables(outs)), snapshot)
    {
      AfterCompact(files, from, in0, in1, outs, after, snapshot);
    }
  }

  lemma AfterCompact(files: seq<Files>, from: nat, in0: set<Table>, in1: set<Table>, outs: Files, after: seq<Files>,
                     snapshot: SequenceNumber)
    requires Inv(files) && Allowed(files, Compact(from, in0, in1, outs)) && Next(files, Compact(from, in0, in1, outs), after)
    requires from + 1 < |Contents(files)|
    requires InstallsRightly(Contents(files), from, EntriesOf(in0), EntriesOf(in1), EntriesOf(Tables(outs)), snapshot)
    ensures SameAnswers(Contents(files), Contents(after), snapshot) <==>
            NothingUncovered(Contents(files), from, EntriesOf(in0), EntriesOf(in1), EntriesOf(Tables(outs)), snapshot)
  {
    CompactContents(files, from, in0, in1, outs, after);
    CompactKeeps(files, from, in0, in1, outs, after);
    InvNewerAbove(after);
    hide Inv, StaysNewer, EntriesOf, Covering, Exactly, TableOk, NewerAbove, NothingUncovered, SameAnswers, Install, Contents;
  }

  lemma OutputTables(files: seq<Files>, from: nat, in0: set<Table>, in1: set<Table>, outputs: seq<Output>, first: nat,
                     fileSize: Sizer)
    requires Inv(files) && from + 1 < NUM_LEVELS && in0 <= Tables(files[from]) && in1 <= Tables(files[from + 1])
    requires forall j | 0 <= j < |outputs| :: OutputWellFormed(outputs[j]) && Sorted(outputs[j].entries)
    requires EntriesOf(Tables(AsTables(outputs, first, fileSize))) <= EntriesOf(in0) + EntriesOf(in1)
    ensures forall j | 0 <= j < |outputs| :: TableOk(AsTables(outputs, first, fileSize)[j])
  {
    hide Inv, Contents, EntriesOf, Sorted, OutputWellFormed, Flatten, TableOk;
    var outs := AsTables(outputs, first, fileSize);
    forall j | 0 <= j < |outs| ensures TableOk(outs[j]) {
      assert outputs[j] == Output(outs[j].smallest, outs[j].largest, outs[j].entries);
      OutputTable(files, from, in0, in1, outs, outs[j]);
    }
  }

  lemma InvNewerAbove(files: seq<Files>)
    requires Inv(files)
    ensures |files| == NUM_LEVELS && NewerAbove(Contents(files))
  {
  }

  lemma OutputTable(files: seq<Files>, from: nat, in0: set<Table>, in1: set<Table>, outs: Files, t: Table)
    requires Inv(files) && from + 1 < NUM_LEVELS && in0 <= Tables(files[from]) && in1 <= Tables(files[from + 1])
    requires EntriesOf(Tables(outs)) <= EntriesOf(in0) + EntriesOf(in1) && t in outs
    requires OutputWellFormed(Output(t.smallest, t.largest, t.entries)) && Sorted(t.entries)
    ensures TableOk(t)
  {
    hide NewerAbove, Contents, Disjoint, Stacked, Ordered, Sorted;
    forall e | e in t.entries ensures e.key.sequence <= MAX_SEQUENCE {
      assert t in Tables(outs) && e in EntriesOf(Tables(outs));
      var u :| u in in0 + in1 && e in u.entries;
      assert u in files[from] || u in files[from + 1];
      assert TableOk(u);
    }
  }

  lemma StepAllowed(files: seq<Files>, from: nat, in0: set<Table>, in1: set<Table>, outs: Files, a: UserKey, b: UserKey)
    requires |files| == NUM_LEVELS && from + 1 < NUM_LEVELS && in0 <= Tables(files[from]) && in1 <= Tables(files[from + 1])
    requires Covering(in0, a, b) && Exactly(in1, Tables(files[from + 1]), a, b)
    requires (forall j | 0 <= j < |outs| :: TableOk(outs[j]))
    requires forall i, j | 0 <= i < j < |outs| :: Precedes(outs[i].largest, outs[j].smallest)
    requires EntriesOf(Tables(outs)) <= EntriesOf(in0) + EntriesOf(in1)
    ensures Allowed(files, Compact(from, in0, in1, outs)) <==>
            StaysNewer(Contents(files), from, EntriesOf(in0), EntriesOf(Tables(outs)))
  {
    assert Covering(in0, a, b) && Exactly(in1, Tables(files[from + 1]), a, b);
    hide StaysNewer, Contents, Covering, Exactly, TableOk, EntriesOf, Precedes;
  }
}
