/** Point lookup in a version: at most one file per level above 0, level-0 files newest first. */
module VersionGet {
  import opened Bytes
  import opened Entries
  import opened Compaction
  import opened CompactionMeaning
  import opened Overlap

  // ---- One table

  /** The newest entry of `k` in a table that a reader at `s` may see. */
  method TableGet(t: Table, k: UserKey, s: SequenceNumber) returns (a: Answer)
    requires t.WellFormed()
    ensures a == Lookup(Elements(t.entries), k, s)
  {
    hide Lookup;
    var i := 0;
    while i < |t.entries| && Precedes(t.entries[i].key, InternalKey(k, s, Put))
      invariant 0 <= i <= |t.entries|
      invariant forall j | 0 <= j < i :: Precedes(t.entries[j].key, InternalKey(k, s, Put))
    {
      i := i + 1;
    }
    FirstAtOrAfter(t.entries, k, s, i);
    a := if i < |t.entries| && t.entries[i].key.user == k then AnswerOf(t.entries[i]) else Missing;
  }

  /** In key order, the first entry at or after (k, s) decides what a reader sees of `k`. */
  lemma FirstAtOrAfter(es: seq<Entry>, k: UserKey, s: SequenceNumber, i: nat)
    requires Sorted(es) && i <= |es|
    requires forall j | 0 <= j < i :: Precedes(es[j].key, InternalKey(k, s, Put))
    requires i < |es| ==> !Precedes(es[i].key, InternalKey(k, s, Put))
    ensures Lookup(Elements(es), k, s) == if i < |es| && es[i].key.user == k then AnswerOf(es[i]) else Missing
  {
    hide Lookup;
    var all := Elements(es);
    SortedDistinct(es);
    forall o | o in all && o.key.user == k && o.key.sequence <= s
      ensures i < |es| && es[i].key.user == k && o.key.sequence <= es[i].key.sequence
    {
      var j :| 0 <= j < |es| && es[j] == o;
    }
    assert i < |es| && es[i].key.user == k ==> es[i].key.sequence <= s;
    hide Sorted, Precedes, Distinct;
    if i < |es| && es[i].key.user == k {
      assert es[i] in all;
      NewestUnique(all, k, s, es[i]);
    } else {
      MissingMeansNone(all, k, s);
    }
  }

  // ---- A level above 0

  /** All tables are well formed and the level is in key order. */
  ghost predicate LevelOk(files: Files) {
    && LevelSorted(files) && forall i | 0 <= i < |files| :: files[i].WellFormed()
  }

  lemma EntryInFile(files: Files, e: Entry) returns (i: nat, p: nat)
    requires e in EntriesOf(set t | t in files)
    ensures i < |files| && p < |files[i].entries| && files[i].entries[p] == e
  {
    var t :| t in files && e in t.entries;
    i :| 0 <= i < |files| && files[i] == t;
    p :| 0 <= p < |t.entries| && t.entries[p] == e;
  }

  lemma WithinBounds(t: Table, p: nat)
    requires t.WellFormed() && p < |t.entries|
    ensures !Precedes(t.entries[p].key, t.smallest) && !Precedes(t.largest, t.entries[p].key)
  {
    if p > 0 {
      assert Precedes(t.entries[0].key, t.entries[p].key);
    }
    if p < |t.entries| - 1 {
      assert Precedes(t.entries[p].key, t.entries[|t.entries| - 1].key);
    }
  }

  /** Before the file that FindFile names there is nothing for the reader. */
  lemma NothingBefore(files: Files, k: UserKey, s: SequenceNumber, i: nat, p: nat)
    requires LevelOk(files) && i < |files| && p < |files[i].entries|
    requires Precedes(files[i].largest, InternalKey(k, s, Put))
    ensures var e := files[i].entries[p]; !(e.key.user == k && e.key.sequence <= s)
  {
    WithinBounds(files[i], p);
  }

  /** Behind it, everything comes after all it holds. */
  lemma AfterFoundFile(files: Files, index: nat, q: nat, i: nat, p: nat)
    requires LevelOk(files) && index < i < |files| && p < |files[i].entries| && q < |files[index].entries|
    ensures Precedes(files[index].entries[q].key, files[i].entries[p].key)
    ensures files[index].largest.user <= files[i].entries[p].key.user
  {
    WithinBounds(files[i], p);
    WithinBounds(files[index], q);
    assert Precedes(files[index].largest, files[i].smallest);
  }

  lemma LevelFound(files: Files, index: nat, k: UserKey, s: SequenceNumber, e: Entry)
    requires LevelOk(files) && Distinct(EntriesOf(set t | t in files)) && index < |files|
    requires forall i | 0 <= i < index :: Precedes(files[i].largest, InternalKey(k, s, Put))
    requires Newest(Elements(files[index].entries), k, s, e)
    ensures Lookup(EntriesOf(set t | t in files), k, s) == AnswerOf(e)
  {
    var all := EntriesOf(set t | t in files);
    hide Lookup, LevelOk;
    assert files[index] in files;
    assert e in all;
    var q :| 0 <= q < |files[index].entries| && files[index].entries[q] == e;
    forall o | o in all && o.key.user == k && o.key.sequence <= s ensures o.key.sequence <= e.key.sequence {
      var i, p := EntryInFile(files, o);
      if i < index {
        NothingBefore(files, k, s, i, p);
      } else if i > index {
        AfterFoundFile(files, index, q, i, p);
      }
    }
    NewestUnique(all, k, s, e);
  }

  lemma LevelMissing(files: Files, index: nat, k: UserKey, s: SequenceNumber)
    requires LevelOk(files) && index <= |files|
    requires forall i | 0 <= i < index :: Precedes(files[i].largest, InternalKey(k, s, Put))
    requires index < |files| ==>
      && !Precedes(files[index].largest, InternalKey(k, s, Put))
      && forall e | e in files[index].entries :: !(e.key.user == k && e.key.sequence <= s)
    ensures Lookup(EntriesOf(set t | t in files), k, s) == Missing
  {
    var all := EntriesOf(set t | t in files);
    if index < |files| {
      LastBeyond(files[index], k, s);
    }
    hide Lookup, LevelOk;
    forall o | o in all ensures !(o.key.user == k && o.key.sequence <= s) {
      var i, p := EntryInFile(files, o);
      if i < index {
        NothingBefore(files, k, s, i, p);
      } else if i > index {
        BehindFile(files, index, i, p);
      }
    }
    MissingMeansNone(all, k, s);
  }

  lemma BehindFile(files: Files, index: nat, i: nat, p: nat)
    requires LevelOk(files) && index < i < |files| && p < |files[i].entries|
    ensures files[index].largest.user <= files[i].entries[p].key.user
  {
    AfterFoundFile(files, index, 0, i, p);
  }

  /** The one file that FindFile names answers for the whole level. */
  lemma LevelLookup(files: Files, index: nat, k: UserKey, s: SequenceNumber)
    requires LevelOk(files) && Distinct(EntriesOf(set t | t in files)) && index <= |files|
    requires forall i | 0 <= i < index :: Precedes(files[i].largest, InternalKey(k, s, Put))
    requires index < |files| ==> !Precedes(files[index].largest, InternalKey(k, s, Put))
    ensures Lookup(EntriesOf(set t | t in files), k, s) ==
      if index < |files| then Lookup(Elements(files[index].entries), k, s) else Missing
  {
    hide Lookup, Distinct;
    if index < |files| {
      var own := Elements(files[index].entries);
      MissingMeansNone(own, k, s);
      if e0 :| e0 in own && e0.key.user == k && e0.key.sequence <= s {
        var e := NewestExists(own, k, s, e0);
        LevelFound(files, index, k, s, e);
        SortedDistinct(files[index].entries);
        NewestUnique(own, k, s, e);
      } else {
        LevelMissing(files, index, k, s);
      }
    } else {
      LevelMissing(files, index, k, s);
    }
  }

  lemma LastBeyond(t: Table, k: UserKey, s: SequenceNumber)
    requires t.WellFormed() && !Precedes(t.largest, InternalKey(k, s, Put))
    requires forall e | e in t.entries :: !(e.key.user == k && e.key.sequence <= s)
    ensures t.largest.user > k
  {
    assert t.entries[|t.entries| - 1] in t.entries;
  }

  method LevelGet(files: Files, k: UserKey, s: SequenceNumber) returns (a: Answer)
    requires LevelOk(files) && Distinct(EntriesOf(set t | t in files))
    ensures a == Lookup(EntriesOf(set t | t in files), k, s)
  {
    hide Lookup;
    var index := FindFile(files, InternalKey(k, s, Put));
    LevelLookup(files, index, k, s);
    if index >= |files| {
      return Missing;
    }
    if k < files[index].smallest.user {
      TableOutOfSpan(files[index], k, s);
      return Missing;
    }
    a := TableGet(files[index], k, s);
  }

  lemma TableOutOfSpan(t: Table, k: UserKey, s: SequenceNumber)
    requires t.WellFormed() && !t.Spans(k)
    ensures Lookup(Elements(t.entries), k, s) == Missing
  {
    forall e | e in Elements(t.entries) ensures e.key.user != k {
      EntriesInSpan(t, e);
    }
    MissingMeansNone(Elements(t.entries), k, s);
  }

  // ---- Level 0

  /** Insertion into a list ordered from newest to oldest file. */
  function InsertNewest(t: Table, ts: Files): (r: Files) {
    if ts == [] || t.number > ts[0].number then [t] + ts else [ts[0]] + InsertNewest(t, ts[1..])
  }

  function NewestFirst(ts: Files): (r: Files) {
    if ts == [] then [] else InsertNewest(ts[|ts| - 1], NewestFirst(ts[..|ts| - 1]))
  }

  predicate Descending(ts: Files) {
    forall i, j | 0 <= i < j < |ts| :: ts[i].number >= ts[j].number
  }

  lemma Cons(t: Table, ts: Files)
    ensures multiset([t] + ts) == multiset{t} + multiset(ts)
    ensures Descending(ts) && (forall u | u in ts :: t.number >= u.number) ==> Descending([t] + ts)
  {
    forall i, j | 0 <= i < j < |[t] + ts| && Descending(ts) && (forall u | u in ts :: t.number >= u.number)
      ensures ([t] + ts)[i].number >= ([t] + ts)[j].number
    {
      assert ([t] + ts)[j] == ts[j - 1];
    }
  }

  lemma HeadIsNewest(ts: Files)
    requires Descending(ts) && ts != []
    ensures forall u | u in ts :: ts[0].number >= u.number
    ensures Descending(ts[1..]) && multiset(ts) == multiset{ts[0]} + multiset(ts[1..])
  {
    assert ts == [ts[0]] + ts[1..];
  }

  lemma {:induction false} InsertNewestSorts(t: Table, ts: Files)
    requires Descending(ts)
    ensures Descending(InsertNewest(t, ts)) && multiset(InsertNewest(t, ts)) == multiset(ts) + multiset{t}
  {
    hide Descending;
    Cons(t, ts);
    if ts != [] {
      HeadIsNewest(ts);
      if t.number <= ts[0].number {
        InsertNewestSorts(t, ts[1..]);
        var r := InsertNewest(t, ts[1..]);
        forall u | u in r ensures ts[0].number >= u.number {
          assert u in multiset(r);
          assert u == t || u in multiset(ts[1..]);
        }
        Cons(ts[0], r);
      }
    }
  }

  lemma {:induction false} NewestFirstSorts(ts: Files)
    ensures Descending(NewestFirst(ts)) && multiset(NewestFirst(ts)) == multiset(ts)
  {
    if ts != [] {
      NewestFirstSorts(ts[..|ts| - 1]);
      InsertNewestSorts(ts[|ts| - 1], NewestFirst(ts[..|ts| - 1]));
      assert ts == ts[..|ts| - 1] + [ts[|ts| - 1]];
    }
  }

  ghost predicate DistinctNumbers(ts: Files) {
    forall i, j | 0 <= i < |ts| && 0 <= j < |ts| && i != j :: ts[i].number != ts[j].number
  }

  /** Level-0 files have numbers of their own, and for a shared user key the higher-numbered file
      is the newer one. */
  ghost predicate LevelZeroOk(files: Files) {
    && DistinctNumbers(files) && (forall t | t in files :: t.WellFormed())
    && forall t, u | t in files && u in files && t.number > u.number ::
         Above(Elements(t.entries), Elements(u.entries))
  }

  ghost function AsSources(ts: Files): seq<set<Entry>> {
    seq(|ts|, i requires 0 <= i < |ts| => Elements(ts[i].entries))
  }

  function Spanning(ts: Files, k: UserKey): (r: Files) {
    if ts == [] then []
    else Spanning(ts[..|ts| - 1], k) + if ts[|ts| - 1].Spans(k) then [ts[|ts| - 1]] else []
  }

  lemma {:induction false} SpanningIs(ts: Files, k: UserKey)
    ensures forall t :: t in Spanning(ts, k) <==> t in ts && t.Spans(k)
    ensures DistinctNumbers(ts) ==> DistinctNumbers(Spanning(ts, k))
  {
    if ts != [] {
      var n := |ts| - 1;
      SpanningIs(ts[..n], k);
      assert ts == ts[..n] + [ts[n]];
      forall t | DistinctNumbers(ts) && t in Spanning(ts[..n], k) ensures t.number != ts[n].number {
        assert t in ts[..n];
      }
    }
  }

  lemma SortedNumbers(ts: Files)
    requires DistinctNumbers(ts)
    ensures forall i, j | 0 <= i < j < |NewestFirst(ts)| :: NewestFirst(ts)[i].number > NewestFirst(ts)[j].number
    ensures forall t :: t in NewestFirst(ts) <==> t in ts
  {
    var r := NewestFirst(ts);
    NewestFirstSorts(ts);
    hide NewestFirst;
    SameMembers(r, ts);
    forall i, j | 0 <= i < j < |r| ensures r[i].number > r[j].number {
      if r[i].number == r[j].number {
        SameNumberSame(ts, r[i], r[j]);
        OnlyOnce(ts, r[i]);
        TwiceIsTwo(r, i, j);
      }
    }
  }

  lemma SameMembers(a: Files, b: Files)
    requires multiset(a) == multiset(b)
    ensures forall t :: t in a <==> t in b
  {
    forall t ensures t in a <==> t in b {
      assert t in a <==> t in multiset(a);
      assert t in b <==> t in multiset(b);
    }
  }

  lemma TwiceIsTwo(r: Files, i: nat, j: nat)
    requires i < j < |r| && r[i] == r[j]
    ensures multiset(r)[r[j]] >= 2
  {
    assert r == r[..j] + r[j..];
    assert r[i] in r[..j] && r[j] in r[j..];
    assert multiset(r) == multiset(r[..j]) + multiset(r[j..]);
  }

  lemma SameNumberSame(ts: Files, t: Table, u: Table)
    requires DistinctNumbers(ts) && t in ts && u in ts && t.number == u.number
    ensures t == u
  {
  }

  lemma {:induction false} OnlyOnce(ts: Files, t: Table)
    requires DistinctNumbers(ts) && t in ts
    ensures multiset(ts)[t] == 1
  {
    var i :| 0 <= i < |ts| && ts[i] == t;
    assert ts == ts[..i] + [t] + ts[i + 1..];
    assert t !in ts[..i] && t !in ts[i + 1..];
  }

  lemma LevelZeroSources(files: Files, ts: Files)
    requires LevelZeroOk(files) && forall t | t in ts :: t in files
    requires forall i, j | 0 <= i < j < |ts| :: ts[i].number > ts[j].number
    ensures NewerAbove(AsSources(ts)) && Everything(AsSources(ts)) == EntriesOf(set t | t in ts)
  {
    SourcesHold(ts);
    var sources := AsSources(ts);
    hide Elements, Everything, EntriesOf, DistinctNumbers;
    forall l | 0 <= l < |sources| ensures Distinct(sources[l]) {
      assert ts[l] in ts;
      SortedDistinct(ts[l].entries);
    }
    hide Distinct;
    forall l, m, a: Entry, b: Entry | 0 <= l < m < |sources| && a in sources[l] && b in sources[m] && a.key.user == b.key.user
      ensures a.key.sequence > b.key.sequence
    {
      assert ts[l] in ts && ts[m] in ts;
      assert Above(Elements(ts[l].entries), Elements(ts[m].entries));
    }
  }

  lemma SourcesHold(ts: Files)
    ensures Everything(AsSources(ts)) == EntriesOf(set t | t in ts)
  {
    var sources := AsSources(ts);
    forall e | e in EntriesOf(set t | t in ts) ensures e in Everything(sources) {
      var i, p := EntryInFile(ts, e);
      assert e in sources[i];
    }
    forall e | e in Everything(sources) ensures e in EntriesOf(set t | t in ts) {
      var i :| 0 <= i < |sources| && e in sources[i];
      assert ts[i] in ts;
    }
  }

  /** Files that do not span `k` do not matter. */
  lemma SpanningEnough(files: Files, k: UserKey, s: SequenceNumber)
    requires LevelZeroOk(files) && Distinct(EntriesOf(set t | t in files))
    ensures Lookup(EntriesOf(set t | t in Spanning(files, k)), k, s) == Lookup(EntriesOf(set t | t in files), k, s)
  {
    hide Lookup, Spanning;
    SpanningIs(files, k);
    var few, all := EntriesOf(set t | t in Spanning(files, k)), EntriesOf(set t | t in files);
    forall e | e in all && e.key.user == k ensures e in few {
      var i, p := EntryInFile(files, e);
      EntriesInSpan(files[i], e);
      assert files[i] in Spanning(files, k);
    }
    assert few <= all;
    LookupSameKey(few, all, k, s);
  }

  method LevelZeroGet(files: Files, k: UserKey, s: SequenceNumber) returns (a: Answer)
    requires LevelZeroOk(files) && Distinct(EntriesOf(set t | t in files))
    ensures a == Lookup(EntriesOf(set t | t in files), k, s)
  {
    hide Lookup, Distinct, DistinctNumbers, NewerAbove, EntriesOf;
    var tmp := [];
    for i := 0 to |files|
      invariant tmp == Spanning(files[..i], k)
    {
      assert files[..i + 1][..i] == files[..i];
      if k >= files[i].smallest.user && k <= files[i].largest.user {
        tmp := tmp + [files[i]];
      }
    }
    assert files[..|files|] == files;
    SpanningIs(files, k);
    SpanningEnough(files, k, s);
    SortedNumbers(tmp);
    var sorted := NewestFirst(tmp);
    LevelZeroSources(files, sorted);
    assert (set t | t in sorted) == set t | t in tmp;
    SearchIsLookup(AsSources(sorted), k, s);
    a := SearchOneByOne(sorted, k, s);
  }

  method SearchOneByOne(ts: Files, k: UserKey, s: SequenceNumber) returns (a: Answer)
    requires forall t | t in ts :: t.WellFormed()
    ensures a == Search(AsSources(ts), k, s)
  {
    hide Lookup;
    ghost var sources := AsSources(ts);
    for i := 0 to |ts|
      invariant Search(sources, k, s) == Search(sources[i..], k, s)
    {
      a := TableGet(ts[i], k, s);
      assert sources[i..][1..] == sources[i + 1..];
      if a != Missing {
        return;
      }
    }
    a := Missing;
  }

  // ---- The version

  ghost predicate VersionOk(files: seq<Files>) {
    && |files| == NUM_LEVELS && LevelZeroOk(files[0]) && (forall l | 1 <= l < NUM_LEVELS :: LevelOk(files[l]))
    && NewerAbove(Contents(files))
  }

  /** Get reads at most one file per level above 0 and stops at the first answer; it finds what a
      lookup in all the entries of the version would. */
  method Get(files: seq<Files>, k: UserKey, s: SequenceNumber) returns (a: Answer)
    requires VersionOk(files)
    ensures a == Lookup(Everything(Contents(files)), k, s)
  {
    hide Lookup, LevelZeroOk, LevelOk, EntriesOf, Everything;
    ghost var sources := Contents(files);
    SearchIsLookup(sources, k, s);
    for level := 0 to NUM_LEVELS
      invariant Search(sources, k, s) == Search(sources[level..], k, s)
    {
      assert sources[level] == EntriesOf(set t | t in files[level]);
      assert sources[level..][1..] == sources[level + 1..];
      if level == 0 {
        a := LevelZeroGet(files[0], k, s);
      } else {
        a := LevelGet(files[level], k, s);
      }
      if a != Missing {
        return;
      }
    }
    a := Missing;
  }
}
