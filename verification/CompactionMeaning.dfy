/** What compaction means to readers: installing its outputs changes no answer at any snapshot
    at or above the oldest live one, and keeps newer data above older data. */
module CompactionMeaning {
  import opened Bytes
  import opened Entries
  import opened Compaction

  lemma {:induction false} SurvivorsMembers(files: seq<seq<Table>>, level: nat, input: seq<Entry>, n: nat,
                                            snapshot: SequenceNumber)
    requires n <= |input|
    ensures forall e :: e in Survivors(files, level, input, n, snapshot) <==>
      exists i | 0 <= i < n :: input[i] == e && Kept(files, level, input, i, snapshot)
  {
    if n > 0 {
      SurvivorsMembers(files, level, input, n - 1, snapshot);
    }
  }

  /** The outputs come out sorted: they are the input with some entries left out. */
  lemma {:induction false} SurvivorsSorted(files: seq<seq<Table>>, level: nat, input: seq<Entry>, n: nat,
                                           snapshot: SequenceNumber)
    requires n <= |input| && Sorted(input)
    ensures Sorted(Survivors(files, level, input, n, snapshot))
  {
    if n > 0 {
      SurvivorsSorted(files, level, input, n - 1, snapshot);
      SurvivorsMembers(files, level, input, n - 1, snapshot);
      var before := Survivors(files, level, input, n - 1, snapshot);
      assert forall j | 0 <= j < |before| :: before[j] in before;
    }
  }

  /** Hence the output tables are sorted, disjoint and in key order. */
  lemma {:induction false} OutputsDisjoint(outputs: seq<Output>, i: nat, j: nat)
    requires forall o | o in outputs :: OutputWellFormed(o)
    requires Sorted(Flatten(outputs)) && i < |outputs| && j < |outputs|
    ensures Sorted(outputs[j].entries)
    ensures i < j ==> Precedes(outputs[i].largest, outputs[j].smallest)
  {
    var init, last := outputs[..|outputs| - 1], outputs[|outputs| - 1];
    SortedParts(Flatten(init), last.entries);
    if j < |init| {
      OutputsDisjoint(init, if i < |init| then i else 0, j);
    } else if i < j {
      assert init[i] == outputs[i] && outputs[i] in outputs && last in outputs;
      InFlatten(init, i, init[i].entries[|init[i].entries| - 1]);
    }
  }

  lemma SortedParts(a: seq<Entry>, b: seq<Entry>)
    requires Sorted(a + b)
    ensures Sorted(a) && Sorted(b)
    ensures forall x, y | x in a && y in b :: Precedes(x.key, y.key)
  {
    var all := a + b;
    assert forall i | 0 <= i < |a| :: all[i] == a[i];
    assert forall j | 0 <= j < |b| :: all[|a| + j] == b[j];
    forall x, y | x in a && y in b ensures Precedes(x.key, y.key) {
      var i :| 0 <= i < |a| && a[i] == x;
      var j :| 0 <= j < |b| && b[j] == y;
      assert all[i] == x && all[|a| + j] == y;
    }
  }

  lemma {:induction false} InFlatten(outputs: seq<Output>, i: nat, e: Entry)
    requires i < |outputs| && e in outputs[i].entries
    ensures e in Flatten(outputs)
  {
    if i < |outputs| - 1 {
      InFlatten(outputs[..|outputs| - 1], i, e);
    }
  }

  // ---- The store as seen by a reader

  /** Newer data sits above older data: the invariant a level-by-level search relies on. */
  ghost predicate NewerAbove(sources: seq<set<Entry>>) {
    && (forall l | 0 <= l < |sources| :: Distinct(sources[l]))
    && forall l, m, a, b | 0 <= l < m < |sources| && a in sources[l] && b in sources[m]
         && a.key.user == b.key.user :: a.key.sequence > b.key.sequence
  }

  /** The newest entry a reader may see is never hidden by rule (A). */
  lemma NewestNotShadowed(input: seq<Entry>, i: nat, snapshot: SequenceNumber, k: UserKey, s: SequenceNumber)
    requires Sorted(input) && snapshot <= s && i < |input| && Newest(Elements(input), k, s, input[i])
    ensures !Shadowed(input, i, snapshot)
  {
    assert forall j | 0 <= j < i :: input[j] in Elements(input);
  }

  /** An obsolete deletion takes every older entry of its key with it. */
  lemma NothingLeftBelow(files: seq<seq<Table>>, level: nat, input: seq<Entry>, i: nat, j: nat,
                         snapshot: SequenceNumber, k: UserKey, s: SequenceNumber)
    requires Sorted(input) && snapshot <= s && i < |input| && j < |input|
    requires Newest(Elements(input), k, s, input[i]) && input[i].key.sequence <= snapshot
    requires input[j].key.user == k && input[j].key.sequence <= s && j != i
    ensures !Kept(files, level, input, j, snapshot)
  {
    assert input[j] in Elements(input);
    assert i < j;
    assert Shadowed(input, j, snapshot);
  }

  /** Dropping loses nothing a reader at or above the snapshot could have been told: the
      survivors give the same answer, or the answer was a deletion of a key found nowhere deeper. */
  lemma SurvivorsAnswer(files: seq<seq<Table>>, level: nat, input: seq<Entry>, snapshot: SequenceNumber,
                        k: UserKey, s: SequenceNumber)
    requires Sorted(input) && snapshot <= s
    ensures var kept := Elements(Survivors(files, level, input, |input|, snapshot));
            var before, after := Lookup(Elements(input), k, s), Lookup(kept, k, s);
            after == before || (before.Deleted? && after.Missing? && IsBase(files, level, k))
  {
    var all, kept := Elements(input), Elements(Survivors(files, level, input, |input|, snapshot));
    SurvivorsMembers(files, level, input, |input|, snapshot);
    SortedDistinct(input);
    assert kept <= all;
    if e :| Newest(all, k, s, e) {
      assert Newest(all, k, s, e);
      NewestUnique(all, k, s, e);
      var i :| 0 <= i < |input| && input[i] == e;
      NewestNotShadowed(input, i, snapshot, k, s);
      if Kept(files, level, input, i, snapshot) {
        assert Newest(kept, k, s, e);
        NewestUnique(kept, k, s, e);
      } else {
        MissingMeansNone(kept, k, s);
        forall j | 0 <= j < |input| && input[j].key.user == k && input[j].key.sequence <= s
          ensures !Kept(files, level, input, j, snapshot)
        {
          if j != i {
            NothingLeftBelow(files, level, input, i, j, snapshot, k, s);
          }
        }
      }
    } else {
      MissingMeansNone(all, k, s);
      MissingMeansNone(kept, k, s);
    }
  }

  // ---- Putting the outputs back into the store

  /** Reading level by level equals reading everything at once, because newer sits above. */
  ghost function Everything(sources: seq<set<Entry>>): set<Entry> {
    set l, e | 0 <= l < |sources| && e in sources[l] :: e
  }

  /** For each shared user key, all of `a` is newer than all of `b`. */
  ghost predicate Above(a: set<Entry>, b: set<Entry>) {
    forall x, y | x in a && y in b && x.key.user == y.key.user :: x.key.sequence > y.key.sequence
  }

  ghost function First(a: Answer, b: Answer): Answer {
    if a.Missing? then b else a
  }

  lemma UnionLookup(a: set<Entry>, b: set<Entry>, k: UserKey, s: SequenceNumber)
    requires Distinct(a + b) && Above(a, b)
    ensures Lookup(a + b, k, s) == First(Lookup(a, k, s), Lookup(b, k, s))
  {
    assert Distinct(a) && Distinct(b);
    if e :| Newest(a, k, s, e) {
      assert Newest(a, k, s, e);
      NewestUnique(a, k, s, e);
      assert Newest(a + b, k, s, e);
      NewestUnique(a + b, k, s, e);
    } else {
      MissingMeansNone(a, k, s);
      if e :| Newest(b, k, s, e) {
        assert Newest(b, k, s, e);
        NewestUnique(b, k, s, e);
        assert Newest(a + b, k, s, e);
        NewestUnique(a + b, k, s, e);
      } else {
        MissingMeansNone(b, k, s);
        MissingMeansNone(a + b, k, s);
      }
    }
  }

  lemma {:induction false} SearchIsLookup(sources: seq<set<Entry>>, k: UserKey, s: SequenceNumber)
    requires NewerAbove(sources)
    ensures Search(sources, k, s) == Lookup(Everything(sources), k, s)
  {
    var all := Everything(sources);
    if sources == [] {
      MissingMeansNone(all, k, s);
    } else {
      SearchIsLookup(sources[1..], k, s);
      EverythingSplit(sources);
      NewerAboveDistinct(sources);
      UnionLookup(sources[0], Everything(sources[1..]), k, s);
    }
  }

  lemma EverythingSplit(sources: seq<set<Entry>>)
    requires NewerAbove(sources) && sources != []
    ensures Everything(sources) == sources[0] + Everything(sources[1..])
    ensures Above(sources[0], Everything(sources[1..]))
  {
    var all, rest := Everything(sources), sources[1..];
    assert forall l | 0 <= l < |rest| :: rest[l] == sources[l + 1];
    forall e | e in all ensures e in sources[0] + Everything(rest) {
      var l :| 0 <= l < |sources| && e in sources[l];
      assert l > 0 ==> e in rest[l - 1];
    }
  }

  lemma NewerAboveDistinct(sources: seq<set<Entry>>)
    requires NewerAbove(sources)
    ensures Distinct(Everything(sources))
  {
    forall a, b | a in Everything(sources) && b in Everything(sources)
      && a.key.user == b.key.user && a.key.sequence == b.key.sequence ensures a == b
    {
      var l :| 0 <= l < |sources| && a in sources[l];
      var m :| 0 <= m < |sources| && b in sources[m];
      assert l == m;
    }
  }

  /** Two sources that agree on `k` give the same answer for `k`. */
  lemma LookupSameKey(a: set<Entry>, b: set<Entry>, k: UserKey, s: SequenceNumber)
    requires Distinct(a) && Distinct(b)
    requires forall e | e in a + b && e.key.user == k :: e in a && e in b
    ensures Lookup(a, k, s) == Lookup(b, k, s)
  {
    if e :| Newest(a, k, s, e) {
      assert Newest(a, k, s, e);
      NewestUnique(a, k, s, e);
      assert Newest(b, k, s, e);
      NewestUnique(b, k, s, e);
    } else {
      MissingMeansNone(a, k, s);
      MissingMeansNone(b, k, s);
    }
  }

  // ---- The version's files

  /** Contents of the version's files, level by level. */
  ghost function Contents(files: seq<seq<Table>>): seq<set<Entry>> {
    seq(|files|, l requires 0 <= l < |files| => EntriesOf(set t | t in files[l]))
  }

  /** A file list has an entry of `k` only if one of its files spans `k`. */
  lemma BaseMeansNothingDeeper(files: seq<seq<Table>>, level: nat, k: UserKey, l: nat, e: Entry)
    requires IsBase(files, level, k) && level + 2 <= l < |files|
    requires forall t | t in files[l] :: t.WellFormed()
    requires e in Contents(files)[l]
    ensures e.key.user != k
  {
    var t :| t in files[l] && e in t.entries;
    var i :| 0 <= i < |files[l]| && files[l][i] == t;
    var p :| 0 <= p < |t.entries| && t.entries[p] == e;
    assert t.smallest.user <= e.key.user <= t.largest.user;
  }
}
