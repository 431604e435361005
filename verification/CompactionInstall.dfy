/** Installing a compaction: exactly when the new version keeps its newer data above its older data,
    and no reader whose snapshot is at or above the oldest one can tell. */
module CompactionInstall {
  import opened Bytes
  import opened Entries
  import opened Compaction
  import opened CompactionMeaning

  /** The sources with the inputs taken out of both levels and `kept` put into the lower one. */
  ghost function Install(sources: seq<set<Entry>>, level: nat, in0: set<Entry>, in1: set<Entry>, kept: set<Entry>)
    : seq<set<Entry>>
    requires level + 1 < |sources|
  {
    sources[level := sources[level] - in0][level + 1 := (sources[level + 1] - in1) + kept]
  }

  ghost predicate AreInputs(sources: seq<set<Entry>>, level: nat, in0: set<Entry>, in1: set<Entry>) {
    level + 1 < |sources| && in0 <= sources[level] && in1 <= sources[level + 1]
  }

  ghost function LeftBehind(sources: seq<set<Entry>>, level: nat, in0: set<Entry>, in1: set<Entry>): set<Entry>
    requires level + 1 < |sources|
  {
    (sources[level] - in0) + (sources[level + 1] - in1)
  }

  // ---- The two conditions

  /** What stays at the upper level is newer than what comes to the lower one. */
  ghost predicate StaysNewer(sources: seq<set<Entry>>, level: nat, in0: set<Entry>, kept: set<Entry>)
    requires level < |sources|
  {
    forall a, b | a in kept && b in sources[level] - in0 && a.key.user == b.key.user :: b.key.sequence > a.key.sequence
  }

  /** No dropped deletion that readers at the snapshot see had hidden a value that stays at its levels. */
  ghost predicate NothingUncovered(sources: seq<set<Entry>>, level: nat, in0: set<Entry>, in1: set<Entry>,
                                   kept: set<Entry>, snapshot: SequenceNumber)
    requires level + 1 < |sources|
  {
    forall d, b | d in (in0 + in1) - kept && d.key.kind.Deletion? && Newest(Everything(sources), d.key.user, snapshot, d)
      && Newest(LeftBehind(sources, level, in0, in1), d.key.user, snapshot, b) :: b.key.kind.Deletion?
  }

  /** Enough for both: no entry left behind at the two levels shares a user key with the inputs. */
  ghost predicate Closed(sources: seq<set<Entry>>, level: nat, in0: set<Entry>, in1: set<Entry>)
    requires level + 1 < |sources|
  {
    forall a, b | a in in0 + in1 && b in LeftBehind(sources, level, in0, in1) :: a.key.user != b.key.user
  }

  lemma ClosedIsEnough(sources: seq<set<Entry>>, level: nat, in0: set<Entry>, in1: set<Entry>, kept: set<Entry>,
                       snapshot: SequenceNumber)
    requires AreInputs(sources, level, in0, in1) && Closed(sources, level, in0, in1) && kept <= in0 + in1
    ensures StaysNewer(sources, level, in0, kept) && NothingUncovered(sources, level, in0, in1, kept, snapshot)
  {
  }

  // ---- Newer data above older data

  lemma NewerAboveExactly(sources: seq<set<Entry>>, level: nat, in0: set<Entry>, in1: set<Entry>, kept: set<Entry>)
    requires NewerAbove(sources) && AreInputs(sources, level, in0, in1) && kept <= in0 + in1
    ensures NewerAbove(Install(sources, level, in0, in1, kept)) <==> StaysNewer(sources, level, in0, kept)
  {
    var after := Install(sources, level, in0, in1, kept);
    if StaysNewer(sources, level, in0, kept) {
      StaysNewerAbove(sources, level, in0, in1, kept);
    }
    if NewerAbove(after) {
      forall a, b | a in kept && b in sources[level] - in0 && a.key.user == b.key.user ensures b.key.sequence > a.key.sequence {
        assert b in after[level] && a in after[level + 1];
      }
    }
  }

  lemma StaysNewerAbove(sources: seq<set<Entry>>, level: nat, in0: set<Entry>, in1: set<Entry>, kept: set<Entry>)
    requires NewerAbove(sources) && AreInputs(sources, level, in0, in1) && kept <= in0 + in1
    requires StaysNewer(sources, level, in0, kept)
    ensures NewerAbove(Install(sources, level, in0, in1, kept))
  {
    var after := Install(sources, level, in0, in1, kept);
    var lower := after[level + 1];
    forall a: Entry, b: Entry | a in lower && b in lower
      && a.key.user == b.key.user && a.key.sequence == b.key.sequence ensures a == b
    {
      assert a in sources[level] + sources[level + 1];
      assert b in sources[level] + sources[level + 1];
    }
    forall l, m, a: Entry, b: Entry | 0 <= l < m < |after| && a in after[l] && b in after[m] && a.key.user == b.key.user
      ensures a.key.sequence > b.key.sequence
    {
      if l == level && m == level + 1 {
        assert a in sources[level] - in0;
      } else if l == level + 1 {
        assert a in sources[level] + sources[level + 1];
      } else if m == level + 1 {
        assert b in sources[level] + sources[level + 1];
      }
    }
  }

  // ---- All entries before and after

  lemma OnlyOneLevel(sources: seq<set<Entry>>, level: nat, in0: set<Entry>, in1: set<Entry>, l: nat, e: Entry)
    requires NewerAbove(sources) && AreInputs(sources, level, in0, in1)
    requires l < |sources| && e in sources[l] && e in in0 + in1
    ensures (l == level && e in in0) || (l == level + 1 && e in in1)
  {
    var m := if e in in0 then level else level + 1;
    assert e in sources[m];
  }

  lemma EverythingInstalled(sources: seq<set<Entry>>, level: nat, in0: set<Entry>, in1: set<Entry>, kept: set<Entry>)
    requires NewerAbove(sources) && AreInputs(sources, level, in0, in1)
    ensures in0 + in1 <= Everything(sources)
    ensures Everything(Install(sources, level, in0, in1, kept)) == (Everything(sources) - (in0 + in1)) + kept
  {
    var after, rest := Install(sources, level, in0, in1, kept), Everything(sources) - (in0 + in1);
    forall e | e in in0 + in1 ensures e in Everything(sources) {
      var m := if e in in0 then level else level + 1;
      assert e in sources[m];
    }
    forall e | e in rest + kept ensures e in Everything(after) {
      if e in kept {
        assert e in after[level + 1];
      } else {
        var l :| 0 <= l < |sources| && e in sources[l];
        assert e in after[l];
      }
    }
    forall e | e in Everything(after) ensures e in rest + kept {
      var l :| 0 <= l < |after| && e in after[l];
      if e !in kept {
        assert e in sources[l];
        if e in in0 + in1 {
          OnlyOneLevel(sources, level, in0, in1, l, e);
          assert false;
        }
      }
    }
  }

  // ---- Answers

  /** The inputs of a compaction in order; what has nothing deeper really has not. */
  ghost predicate Merged(sources: seq<set<Entry>>, files: seq<seq<Table>>, level: nat, in0: set<Entry>, in1: set<Entry>,
                         input: seq<Entry>)
  {
    && NewerAbove(sources) && AreInputs(sources, level, in0, in1) && Sorted(input) && Elements(input) == in0 + in1
    && forall l, e | level + 2 <= l < |sources| && e in sources[l] :: !IsBase(files, level, e.key.user)
  }

  ghost function Outputs(files: seq<seq<Table>>, level: nat, input: seq<Entry>, snapshot: SequenceNumber): set<Entry> {
    Elements(Survivors(files, level, input, |input|, snapshot))
  }

  /** What is dropped and yet the newest was a deletion with nothing deeper. */
  lemma DroppedNewest(files: seq<seq<Table>>, level: nat, input: seq<Entry>, snapshot: SequenceNumber,
                      all: set<Entry>, k: UserKey, s: SequenceNumber, d: Entry)
    requires Sorted(input) && Elements(input) <= all && snapshot <= s && Newest(all, k, s, d)
    requires d in Elements(input) - Outputs(files, level, input, snapshot)
    ensures ObsoleteDeletion(files, level, d, snapshot)
  {
    SurvivorsMembers(files, level, input, |input|, snapshot);
    var i :| 0 <= i < |input| && input[i] == d;
    assert forall j | 0 <= j < i :: input[j] in Elements(input);
  }

  /** Nothing older than a visible input of its key is kept. */
  lemma OlderNotKept(files: seq<seq<Table>>, level: nat, input: seq<Entry>, snapshot: SequenceNumber, d: Entry, m: Entry)
    requires Sorted(input) && d in Elements(input) && d.key.sequence <= snapshot
    requires m.key.user == d.key.user && m.key.sequence < d.key.sequence
    ensures m !in Outputs(files, level, input, snapshot)
  {
    SurvivorsMembers(files, level, input, |input|, snapshot);
    var i :| 0 <= i < |input| && input[i] == d;
    forall j | 0 <= j < |input| && input[j] == m ensures !Kept(files, level, input, j, snapshot) {
      assert i < j;
    }
  }

  /** What is older than a dropped deletion and still there was left behind at the two levels. */
  lemma OlderLeftBehind(sources: seq<set<Entry>>, files: seq<seq<Table>>, level: nat, in0: set<Entry>, in1: set<Entry>,
                        input: seq<Entry>, snapshot: SequenceNumber, d: Entry, m: Entry)
    requires Merged(sources, files, level, in0, in1, input)
    requires d in in0 + in1 && ObsoleteDeletion(files, level, d, snapshot)
    requires m in (Everything(sources) - (in0 + in1)) + Outputs(files, level, input, snapshot)
    requires m.key.user == d.key.user && m.key.sequence < d.key.sequence
    ensures m in LeftBehind(sources, level, in0, in1)
  {
    hide IsBase, Sorted, NewerAbove, Outputs, Elements;
    OlderNotKept(files, level, input, snapshot, d, m);
    assert m in Everything(sources) && m !in in0 + in1;
    OlderLevel(sources, files, level, in0, in1, input, d, m);
  }

  lemma OlderLevel(sources: seq<set<Entry>>, files: seq<seq<Table>>, level: nat, in0: set<Entry>, in1: set<Entry>,
                   input: seq<Entry>, d: Entry, m: Entry)
    requires Merged(sources, files, level, in0, in1, input) && d in in0 + in1 && IsBase(files, level, d.key.user)
    requires m in Everything(sources) && m !in in0 + in1 && m.key.user == d.key.user && m.key.sequence < d.key.sequence
    ensures m in LeftBehind(sources, level, in0, in1)
  {
    assert AreInputs(sources, level, in0, in1) && NewerAbove(sources);
    hide IsBase, NewerAbove, Merged;
    var l :| 0 <= l < |sources| && m in sources[l];
    NotBelow(sources, files, level, in0, in1, input, l, m);
    NotAbove(sources, l, if d in in0 then level else level + 1, d, m);
  }

  lemma NotBelow(sources: seq<set<Entry>>, files: seq<seq<Table>>, level: nat, in0: set<Entry>, in1: set<Entry>,
                 input: seq<Entry>, l: nat, m: Entry)
    requires Merged(sources, files, level, in0, in1, input) && l < |sources| && m in sources[l]
    requires IsBase(files, level, m.key.user)
    ensures l < level + 2
  {
    hide IsBase, Sorted, NewerAbove;
  }

  lemma NotAbove(sources: seq<set<Entry>>, l: nat, at: nat, d: Entry, m: Entry)
    requires NewerAbove(sources) && l < |sources| && at < |sources| && m in sources[l] && d in sources[at]
    requires m.key.user == d.key.user && m.key.sequence < d.key.sequence
    ensures l >= at
  {
  }

  /** If nothing is uncovered, a reader at or above the snapshot gets the same answer. */
  lemma AnswerStays(sources: seq<set<Entry>>, files: seq<seq<Table>>, level: nat, in0: set<Entry>, in1: set<Entry>,
                    input: seq<Entry>, snapshot: SequenceNumber, k: UserKey, s: SequenceNumber)
    requires Merged(sources, files, level, in0, in1, input) && snapshot <= s && in0 + in1 <= Everything(sources)
    requires NothingUncovered(sources, level, in0, in1, Outputs(files, level, input, snapshot), snapshot)
    ensures var rest := (Everything(sources) - (in0 + in1)) + Outputs(files, level, input, snapshot);
      Visible(Lookup(rest, k, s)) == Visible(Lookup(Everything(sources), k, s))
  {
    hide Lookup, NewerAbove, Sorted, IsBase, Survivors;
    var all, kept := Everything(sources), Outputs(files, level, input, snapshot);
    var rest := (all - (in0 + in1)) + kept;
    RestWithin(sources, files, level, in0, in1, input, snapshot);
    if e :| e in all && e.key.user == k && e.key.sequence <= s {
      var n := NewestExists(all, k, s, e);
      NewestUnique(all, k, s, n);
      if n in rest {
        assert Newest(rest, k, s, n);
        NewestUnique(rest, k, s, n);
      } else {
        DroppedNewest(files, level, input, snapshot, all, k, s, n);
        assert Newest(all, k, snapshot, n);
        UncoveredAnswer(sources, files, level, in0, in1, input, snapshot, s, n);
      }
    } else {
      MissingMeansNone(all, k, s);
      MissingMeansNone(rest, k, s);
    }
  }

  lemma RestWithin(sources: seq<set<Entry>>, files: seq<seq<Table>>, level: nat, in0: set<Entry>, in1: set<Entry>,
                   input: seq<Entry>, snapshot: SequenceNumber)
    requires Merged(sources, files, level, in0, in1, input) && in0 + in1 <= Everything(sources)
    ensures Outputs(files, level, input, snapshot) <= in0 + in1
    ensures Distinct(Everything(sources))
    ensures Distinct((Everything(sources) - (in0 + in1)) + Outputs(files, level, input, snapshot))
  {
    SurvivorsMembers(files, level, input, |input|, snapshot);
    NewerAboveDistinct(sources);
  }

  /** Behind a dropped deletion a reader finds nothing, or another deletion. */
  lemma UncoveredAnswer(sources: seq<set<Entry>>, files: seq<seq<Table>>, level: nat, in0: set<Entry>, in1: set<Entry>,
                        input: seq<Entry>, snapshot: SequenceNumber, s: SequenceNumber, d: Entry)
    requires Merged(sources, files, level, in0, in1, input) && snapshot <= s && in0 + in1 <= Everything(sources)
    requires NothingUncovered(sources, level, in0, in1, Outputs(files, level, input, snapshot), snapshot)
    requires d in (in0 + in1) - Outputs(files, level, input, snapshot) && ObsoleteDeletion(files, level, d, snapshot)
    requires Newest(Everything(sources), d.key.user, snapshot, d) && Newest(Everything(sources), d.key.user, s, d)
    ensures var rest := (Everything(sources) - (in0 + in1)) + Outputs(files, level, input, snapshot);
      Visible(Lookup(rest, d.key.user, s)) == None
  {
    assert AreInputs(sources, level, in0, in1);
    LeftIsThere(sources, level, in0, in1);
    hide Lookup, NewerAbove, Sorted, IsBase, Survivors, Merged, Outputs, LeftBehind, Everything, Distinct;
    var all, kept, k := Everything(sources), Outputs(files, level, input, snapshot), d.key.user;
    var rest, left := (all - (in0 + in1)) + kept, LeftBehind(sources, level, in0, in1);
    RestWithin(sources, files, level, in0, in1, input, snapshot);
    if e :| e in rest && e.key.user == k && e.key.sequence <= s {
      var m := NewestExists(rest, k, s, e);
      NewestUnique(rest, k, s, m);
      OlderThan(all, k, s, d, m);
      OlderLeftBehind(sources, files, level, in0, in1, input, snapshot, d, m);
      LeftIsNewest(sources, level, in0, in1, rest, k, s, snapshot, m);
    } else {
      MissingMeansNone(rest, k, s);
    }
  }

  lemma OlderThan(all: set<Entry>, k: UserKey, s: SequenceNumber, d: Entry, m: Entry)
    requires Distinct(all) && Newest(all, k, s, d) && m in all && m != d && m.key.user == k && m.key.sequence <= s
    ensures m.key.sequence < d.key.sequence
  {
  }

  lemma LeftIsNewest(sources: seq<set<Entry>>, level: nat, in0: set<Entry>, in1: set<Entry>, rest: set<Entry>,
                     k: UserKey, s: SequenceNumber, snapshot: SequenceNumber, m: Entry)
    requires AreInputs(sources, level, in0, in1) && LeftBehind(sources, level, in0, in1) <= rest
    requires Newest(rest, k, s, m) && m in LeftBehind(sources, level, in0, in1) && m.key.sequence <= snapshot <= s
    ensures Newest(LeftBehind(sources, level, in0, in1), k, snapshot, m)
  {
  }

  lemma LeftIsThere(sources: seq<set<Entry>>, level: nat, in0: set<Entry>, in1: set<Entry>)
    requires NewerAbove(sources) && AreInputs(sources, level, in0, in1)
    ensures LeftBehind(sources, level, in0, in1) <= Everything(sources) - (in0 + in1)
  {
    forall e | e in LeftBehind(sources, level, in0, in1) ensures e in Everything(sources) && e !in in0 + in1 {
      var l := if e in sources[level] - in0 then level else level + 1;
      assert e in sources[l];
      if e in in0 + in1 {
        OnlyOneLevel(sources, level, in0, in1, l, e);
      }
    }
  }

  /** If a value is uncovered, a reader at the snapshot gets another answer. */
  lemma AnswerChanges(sources: seq<set<Entry>>, files: seq<seq<Table>>, level: nat, in0: set<Entry>, in1: set<Entry>,
                      input: seq<Entry>, snapshot: SequenceNumber, d: Entry, b: Entry)
    requires Merged(sources, files, level, in0, in1, input) && in0 + in1 <= Everything(sources)
    requires d in (in0 + in1) - Outputs(files, level, input, snapshot) && d.key.kind.Deletion?
    requires Newest(Everything(sources), d.key.user, snapshot, d)
    requires Newest(LeftBehind(sources, level, in0, in1), d.key.user, snapshot, b) && b.key.kind.Put?
    ensures var rest := (Everything(sources) - (in0 + in1)) + Outputs(files, level, input, snapshot);
      Visible(Lookup(rest, d.key.user, snapshot)) != Visible(Lookup(Everything(sources), d.key.user, snapshot))
  {
    assert AreInputs(sources, level, in0, in1);
    LeftIsThere(sources, level, in0, in1);
    DroppedNewest(files, level, input, snapshot, Everything(sources), d.key.user, snapshot, d);
    RestWithin(sources, files, level, in0, in1, input, snapshot);
    hide Lookup, NewerAbove, Sorted, IsBase, Survivors, Merged, Outputs, Everything, Distinct;
    var all, kept, k := Everything(sources), Outputs(files, level, input, snapshot), d.key.user;
    var rest := (all - (in0 + in1)) + kept;
    forall m | m in rest && m.key.user == k && m.key.sequence <= snapshot ensures m.key.sequence <= b.key.sequence {
      OlderThan(all, k, snapshot, d, m);
      OlderLeftBehind(sources, files, level, in0, in1, input, snapshot, d, m);
    }
    assert Newest(rest, k, snapshot, b);
    NewestUnique(rest, k, snapshot, b);
    NewestUnique(all, k, snapshot, d);
  }

  ghost predicate SameAnswers(before: seq<set<Entry>>, after: seq<set<Entry>>, snapshot: SequenceNumber) {
    forall k, s | snapshot <= s :: Visible(Search(after, k, s)) == Visible(Search(before, k, s))
  }

  /** Installing is right, newer data above older data and nobody the wiser, exactly if what stays at the
      upper level is newer than what leaves it and no dropped deletion uncovers a value. */
  ghost predicate InstallsRightly(sources: seq<set<Entry>>, level: nat, in0: set<Entry>, in1: set<Entry>, kept: set<Entry>,
                                  snapshot: SequenceNumber)
    requires level + 1 < |sources|
  {
    var after := Install(sources, level, in0, in1, kept);
    NewerAbove(after) && SameAnswers(sources, after, snapshot) <==>
    StaysNewer(sources, level, in0, kept) && NothingUncovered(sources, level, in0, in1, kept, snapshot)
  }

  lemma InstallExactly(sources: seq<set<Entry>>, files: seq<seq<Table>>, level: nat, in0: set<Entry>, in1: set<Entry>,
                       input: seq<Entry>, snapshot: SequenceNumber)
    requires Merged(sources, files, level, in0, in1, input)
    ensures InstallsRightly(sources, level, in0, in1, Outputs(files, level, input, snapshot), snapshot)
  {
    var kept := Outputs(files, level, input, snapshot);
    var after, all := Install(sources, level, in0, in1, kept), Everything(sources);
    EverythingInstalled(sources, level, in0, in1, kept);
    RestWithin(sources, files, level, in0, in1, input, snapshot);
    NewerAboveExactly(sources, level, in0, in1, kept);
    assert NewerAbove(sources) && AreInputs(sources, level, in0, in1);
    hide NewerAbove, Lookup, Search, Merged, Outputs, Install, Everything, StaysNewer, LeftBehind;
    if NewerAbove(after) {
      forall k, s ensures Search(after, k, s) == Lookup(Everything(after), k, s) && Search(sources, k, s) == Lookup(all, k, s) {
        SearchIsLookup(sources, k, s);
        SearchIsLookup(after, k, s);
      }
      if SameAnswers(sources, after, snapshot) {
        forall d, b | d in (in0 + in1) - kept && d.key.kind.Deletion? && Newest(all, d.key.user, snapshot, d)
          && Newest(LeftBehind(sources, level, in0, in1), d.key.user, snapshot, b)
          ensures b.key.kind.Deletion?
        {
          if b.key.kind.Put? {
            AnswerChanges(sources, files, level, in0, in1, input, snapshot, d, b);
          }
        }
      }
      if NothingUncovered(sources, level, in0, in1, kept, snapshot) {
        forall k, s | snapshot <= s ensures Visible(Search(after, k, s)) == Visible(Search(sources, k, s)) {
          AnswerStays(sources, files, level, in0, in1, input, snapshot, k, s);
        }
      }
    }
  }

  // ---- Inputs that do not meet the conditions

  function OnlyAt(level: nat, es: set<Entry>): (sources: seq<set<Entry>>)
    ensures |sources| == NUM_LEVELS && forall l | 0 <= l < NUM_LEVELS :: sources[l] == if l == level then es else {}
  {
    seq(NUM_LEVELS, l => if l == level then es else {})
  }

  const NO_FILES: seq<seq<Table>> := seq(NUM_LEVELS, _ => [])

  /** Two files of a level meet in user key `k`, and only the first one, with the newer entry, is compacted:
      readers get the old value, or the value that the newer entry deleted. */
  lemma OldValueReturns(k: UserKey, newer: Entry, older: Entry, snapshot: SequenceNumber)
    requires newer.key.user == older.key.user == k && older.key.kind.Put? && newer.value != older.value
    requires older.key.sequence < newer.key.sequence <= snapshot
    ensures var before := OnlyAt(1, {newer, older});
      var after := Install(before, 1, {newer}, {}, Outputs(NO_FILES, 1, [newer], snapshot));
      && Merged(before, NO_FILES, 1, {newer}, {}, [newer])
      && Visible(Search(before, k, snapshot)) == Visible(AnswerOf(newer))
      && Visible(Search(after, k, snapshot)) == Some(older.value)
  {
    var before, kept := OnlyAt(1, {newer, older}), Outputs(NO_FILES, 1, [newer], snapshot);
    var after := Install(before, 1, {newer}, {}, kept);
    TwoMerged(newer, older);
    hide Lookup, Merged, Search, Outputs, NewerAbove;
    SearchIsLookup(before, k, snapshot);
    EverythingAt(1, {newer, older});
    assert Newest({newer, older}, k, snapshot, newer);
    NewestUnique({newer, older}, k, snapshot, newer);
    FirstWithKey(after, k, snapshot, older);
  }

  lemma EverythingAt(level: nat, es: set<Entry>)
    requires level < NUM_LEVELS
    ensures Everything(OnlyAt(level, es)) == es
  {
    forall e | e in es ensures e in Everything(OnlyAt(level, es)) {
      assert e in OnlyAt(level, es)[level];
    }
  }

  lemma TwoMerged(newer: Entry, older: Entry)
    requires newer.key.user == older.key.user && older.key.sequence < newer.key.sequence
    ensures Merged(OnlyAt(1, {newer, older}), NO_FILES, 1, {newer}, {}, [newer])
    ensures Distinct({newer, older}) && NewerAbove(OnlyAt(1, {newer, older}))
  {
    var before := OnlyAt(1, {newer, older});
    assert Distinct({newer, older});
    assert forall l | 0 <= l < NUM_LEVELS && l != 1 :: before[l] == {};
    assert Elements([newer]) == {newer};
  }

  lemma FirstWithKey(after: seq<set<Entry>>, k: UserKey, s: SequenceNumber, older: Entry)
    requires |after| >= 2 && after[0] == {} && after[1] == {older} && older.key.user == k && older.key.sequence <= s
    ensures Search(after, k, s) == AnswerOf(older)
  {
    hide Lookup;
    MissingMeansNone(after[0], k, s);
    assert after[1..][0] == after[1];
    assert Newest(after[1], k, s, older);
    NewestUnique(after[1], k, s, older);
    assert Search(after, k, s) == Search(after[1..], k, s);
  }

  // ---- The whole compaction

  /** What the compaction loop writes, installed: sorted outputs one after another, bounded in the
      grandparents they overlap, and right exactly under the two conditions. */
  method CompactVersion(c: Compaction, ghost in0: set<Entry>, ghost in1: set<Entry>, input: seq<Entry>,
                        snapshot: SequenceNumber, maxOutputFileSize: nat, fileSize: Sizer)
    returns (outputs: seq<Output>)
    requires c.Valid() && c.NothingPassed()
    requires forall l, t | 0 <= l < NUM_LEVELS && t in c.files[l] :: t.WellFormed()
    requires NewerAbove(Contents(c.files)) && AreInputs(Contents(c.files), c.level, in0, in1)
    requires Sorted(input) && Elements(input) == in0 + in1 && snapshot < MAX_SEQUENCE
    modifies c
    ensures forall j | 0 <= j < |outputs| :: OutputWellFormed(outputs[j]) && Sorted(outputs[j].entries)
    ensures forall i, j | 0 <= i < j < |outputs| :: Precedes(outputs[i].largest, outputs[j].smallest)
    ensures forall j | 0 <= j < |outputs| :: Bounded(c.grandparents, outputs[j])
    ensures CutRight(c.grandparents, input, maxOutputFileSize, fileSize, outputs)
    ensures Elements(Flatten(outputs)) == Outputs(c.files, c.level, input, snapshot) <= in0 + in1
    ensures InstallsRightly(Contents(c.files), c.level, in0, in1, Elements(Flatten(outputs)), snapshot)
  {
    hide NewerAbove, Install, Lookup, Survivors, Sorted, Bounded, OutputWellFormed, Flatten, TotalSize, SameAnswers, StaysNewer, NothingUncovered, InstallsRightly, CutRight;
    outputs := DoCompactionWork(c, input, snapshot, maxOutputFileSize, fileSize);
    FilesMerged(c.files, c.level, in0, in1, input);
    InstallExactly(Contents(c.files), c.files, c.level, in0, in1, input, snapshot);
    SurvivorsSorted(c.files, c.level, input, |input|, snapshot);
    SurvivorsMembers(c.files, c.level, input, |input|, snapshot);
    forall i, j | 0 <= i < |outputs| && 0 <= j < |outputs|
      ensures Sorted(outputs[j].entries)
      ensures i < j ==> Precedes(outputs[i].largest, outputs[j].smallest)
    {
      OutputsDisjoint(outputs, i, j);
    }
  }

  lemma FilesMerged(files: seq<seq<Table>>, level: nat, in0: set<Entry>, in1: set<Entry>, input: seq<Entry>)
    requires forall l, t | 0 <= l < |files| && t in files[l] :: t.WellFormed()
    requires NewerAbove(Contents(files)) && AreInputs(Contents(files), level, in0, in1)
    requires Sorted(input) && Elements(input) == in0 + in1
    ensures Merged(Contents(files), files, level, in0, in1, input)
  {
    hide NewerAbove, Sorted, IsBase, Contents;
    forall l, e | level + 2 <= l < |Contents(files)| && e in Contents(files)[l] ensures !IsBase(files, level, e.key.user) {
      ContentsSize(files);
      if IsBase(files, level, e.key.user) {
        BaseMeansNothingDeeper(files, level, e.key.user, l, e);
      }
    }
  }

  lemma ContentsSize(files: seq<seq<Table>>)
    ensures |Contents(files)| == |files|
  {
  }
}
