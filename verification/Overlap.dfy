/** Which files of a version matter for a key or a range of keys. */
module Overlap {
  import opened Bytes
  import opened Entries
  import opened Compaction
  import opened CompactionMeaning

  const MAX_MEM_COMPACT_LEVEL: nat := 2

  type Files = seq<Table>

  predicate SpanOk(f: Table) {
    && !Precedes(f.largest, f.smallest)
    && f.smallest.sequence <= MAX_SEQUENCE && f.largest.sequence <= MAX_SEQUENCE
  }

  /** A level above 0: files in key order, each ending before the next begins. */
  ghost predicate LevelSorted(files: Files) {
    && (forall i | 0 <= i < |files| :: SpanOk(files[i]))
    && forall i, j | 0 <= i < j < |files| :: Precedes(files[i].largest, files[j].smallest)
  }

  lemma PrecedesTransitive(a: InternalKey, b: InternalKey, c: InternalKey)
    ensures Precedes(a, b) && Precedes(b, c) ==> Precedes(a, c)
    ensures Precedes(a, b) && !Precedes(c, b) ==> Precedes(a, c)
    ensures !Precedes(b, a) && Precedes(b, c) ==> Precedes(a, c)
  {
  }

  /** The first file whose largest key is at or after the key. */
  method FindFile(files: Files, key: InternalKey) returns (index: nat)
    requires LevelSorted(files)
    ensures index <= |files|
    ensures forall i | 0 <= i < index :: Precedes(files[i].largest, key)
    ensures forall i | index <= i < |files| :: !Precedes(files[i].largest, key)
  {
    var left, right := 0, |files|;
    while left < right
      invariant 0 <= left <= right <= |files|
      invariant forall i | 0 <= i < left :: Precedes(files[i].largest, key)
      invariant forall i | right <= i < |files| :: !Precedes(files[i].largest, key)
    {
      var mid := (left + right) / 2;
      var f := files[mid];
      forall i | 0 <= i < |files|
        ensures i <= mid && Precedes(f.largest, key) ==> Precedes(files[i].largest, key)
        ensures i >= mid && !Precedes(f.largest, key) ==> !Precedes(files[i].largest, key)
      {
        LargestInOrder(files, i, mid, key);
        LargestInOrder(files, mid, i, key);
      }
      if Precedes(f.largest, key) {
        left := mid + 1;
      } else {
        right := mid;
      }
    }
    index := right;
  }

  lemma LargestInOrder(files: Files, i: nat, j: nat, key: InternalKey)
    requires LevelSorted(files) && i < |files| && j < |files|
    ensures i <= j && Precedes(files[j].largest, key) ==> Precedes(files[i].largest, key)
  {
    if i < j {
      PrecedesTransitive(files[i].largest, files[j].smallest, files[j].largest);
      PrecedesTransitive(files[i].largest, files[j].largest, key);
    }
  }

  // ---- Ranges of user keys, unbounded where there is no key

  predicate AfterFile(key: Option<UserKey>, f: Table) {
    key.Some? && key.value > f.largest.user
  }

  predicate BeforeFile(key: Option<UserKey>, f: Table) {
    key.Some? && key.value < f.smallest.user
  }

  predicate Overlaps(f: Table, begin: Option<UserKey>, end: Option<UserKey>) {
    !AfterFile(begin, f) && !BeforeFile(end, f)
  }

  predicate Meet(f: Table, g: Table) {
    f.smallest.user <= g.largest.user && g.smallest.user <= f.largest.user
  }

  /** The binary search gives the same verdict as looking at every file. */
  method SomeFileOverlapsRange(disjointSorted: bool, files: Files, smallest: Option<UserKey>, largest: Option<UserKey>)
    returns (some: bool)
    requires disjointSorted ==> LevelSorted(files)
    ensures some <==> exists i :: 0 <= i < |files| && Overlaps(files[i], smallest, largest)
  {
    if !disjointSorted {
      for i := 0 to |files|
        invariant forall j | 0 <= j < i :: !Overlaps(files[j], smallest, largest)
      {
        if !(AfterFile(smallest, files[i]) || BeforeFile(largest, files[i])) {
          return true;
        }
      }
      return false;
    }
    var index := 0;
    if smallest.Some? {
      index := FindFile(files, InternalKey(smallest.value, MAX_SEQUENCE, Put));
    }
    forall i | 0 <= i < |files| ensures i < index <==> AfterFile(smallest, files[i]) {
      assert SpanOk(files[i]);
    }
    if index >= |files| {
      return false;
    }
    some := !BeforeFile(largest, files[index]);
    if !some {
      forall i | index < i < |files| ensures BeforeFile(largest, files[i]) {
        assert SpanOk(files[index]);
        assert Precedes(files[index].largest, files[i].smallest);
      }
    }
  }

  /** The files that overlap the range, in order. */
  function Selected(files: Files, begin: Option<UserKey>, end: Option<UserKey>): (r: Files)
    ensures forall f | f in r :: f in files && Overlaps(f, begin, end)
  {
    if files == [] then []
    else
      var n := |files| - 1;
      Selected(files[..n], begin, end) + if Overlaps(files[n], begin, end) then [files[n]] else []
  }

  lemma {:induction false} SelectedHas(files: Files, begin: Option<UserKey>, end: Option<UserKey>, f: Table)
    requires f in files && Overlaps(f, begin, end)
    ensures f in Selected(files, begin, end)
  {
    var n := |files| - 1;
    if f != files[n] {
      SelectedHas(files[..n], begin, end, f);
    }
  }

  lemma SelectNext(files: Files, i: nat, begin: Option<UserKey>, end: Option<UserKey>)
    requires i < |files|
    ensures Selected(files[..i + 1], begin, end)
         == Selected(files[..i], begin, end) + if Overlaps(files[i], begin, end) then [files[i]] else []
  {
    assert files[..i + 1][..i] == files[..i];
  }

  // ---- Closure under overlap

  /** Contains every file overlapping the range, and with a file all files that meet it. */
  ghost predicate Closed(files: Files, begin: Option<UserKey>, end: Option<UserKey>, t: set<Table>) {
    && (forall f | f in files && Overlaps(f, begin, end) :: f in t)
    && forall f, g | f in files && g in files && f in t && Meet(f, g) :: g in t
  }

  /** Every file overlapping the widened range belongs to every closed set. */
  ghost predicate Justified(files: Files, begin: Option<UserKey>, end: Option<UserKey>,
                            begin': Option<UserKey>, end': Option<UserKey>) {
    && (begin.None? <==> begin'.None?) && (end.None? <==> end'.None?)
    && (begin.Some? ==> begin'.value <= begin.value) && (end.Some? ==> end.value <= end'.value)
    && forall t: set<Table>, f | Closed(files, begin, end, t) && f in files && Overlaps(f, begin', end') :: f in t
  }

  lemma WidenBegin(files: Files, begin: Option<UserKey>, end: Option<UserKey>,
                   begin': Option<UserKey>, end': Option<UserKey>, f: Table)
    requires Justified(files, begin, end, begin', end') && f in files && Overlaps(f, begin', end')
    requires begin'.Some? && f.smallest.user < begin'.value
    requires forall g | g in files :: g.smallest.user <= g.largest.user
    ensures Justified(files, begin, end, Some(f.smallest.user), end')
  {
    forall t: set<Table>, g | Closed(files, begin, end, t) && g in files && Overlaps(g, Some(f.smallest.user), end')
      ensures g in t
    {
      assert f in t;
      assert Overlaps(g, begin', end') || Meet(f, g);
    }
  }

  lemma WidenEnd(files: Files, begin: Option<UserKey>, end: Option<UserKey>,
                 begin': Option<UserKey>, end': Option<UserKey>, f: Table)
    requires Justified(files, begin, end, begin', end') && f in files && Overlaps(f, begin', end')
    requires end'.Some? && f.largest.user > end'.value
    requires forall g | g in files :: g.smallest.user <= g.largest.user
    ensures Justified(files, begin, end, begin', Some(f.largest.user))
  {
    forall t: set<Table>, g | Closed(files, begin, end, t) && g in files && Overlaps(g, begin', Some(f.largest.user))
      ensures g in t
    {
      assert f in t;
      assert Overlaps(g, begin', end') || Meet(f, g);
    }
  }

  predicate Inside(f: Table, begin: Option<UserKey>, end: Option<UserKey>) {
    (begin.Some? ==> begin.value <= f.smallest.user) && (end.Some? ==> f.largest.user <= end.value)
  }

  /** No file that overlaps the range sticks out of it on a bounded side. */
  ghost predicate Contained(files: Files, begin: Option<UserKey>, end: Option<UserKey>) {
    forall f | f in files && Overlaps(f, begin, end) :: Inside(f, begin, end)
  }

  lemma ContainedIsClosed(files: Files, begin: Option<UserKey>, end: Option<UserKey>,
                          begin': Option<UserKey>, end': Option<UserKey>)
    requires Justified(files, begin, end, begin', end') && Contained(files, begin', end')
    requires forall f | f in files :: f.smallest.user <= f.largest.user
    ensures Closed(files, begin, end, set f | f in Selected(files, begin', end'))
  {
    var t := set f | f in Selected(files, begin', end');
    forall f | f in files && Overlaps(f, begin, end) ensures f in t {
      SelectedHas(files, begin', end', f);
    }
    forall f, g | f in files && g in files && f in t && Meet(f, g) ensures g in t {
      assert Overlaps(f, begin', end');
      SelectedHas(files, begin', end', g);
    }
  }

  /** `inputs` is the least closed set. */
  ghost predicate LeastClosed(files: Files, begin: Option<UserKey>, end: Option<UserKey>, inputs: Files) {
    && Closed(files, begin, end, set f | f in inputs)
    && forall t: set<Table> | Closed(files, begin, end, t) :: forall f | f in inputs :: f in t
  }

  ghost function OutBelow(files: Files, begin: Option<UserKey>): set<Table> {
    set f | f in files && begin.Some? && f.smallest.user < begin.value
  }

  ghost function OutAbove(files: Files, end: Option<UserKey>): set<Table> {
    set f | f in files && end.Some? && f.largest.user > end.value
  }

  /** How many files stick out below `begin` or above `end`. */
  ghost function StickingOut(files: Files, begin: Option<UserKey>, end: Option<UserKey>): nat {
    |OutBelow(files, begin)| + |OutAbove(files, end)|
  }

  lemma StrictSubset<T>(a: set<T>, b: set<T>, x: T)
    requires a <= b && x in b && x !in a
    ensures |a| < |b|
  {
    var c := b - {x};
    assert a <= c;
    SubsetSize(a, c);
  }

  lemma BeginShrinks(files: Files, begin: UserKey, end: Option<UserKey>, f: Table)
    requires f in files && f.smallest.user < begin
    ensures StickingOut(files, Some(f.smallest.user), end) < StickingOut(files, Some(begin), end)
  {
    StrictSubset(OutBelow(files, Some(f.smallest.user)), OutBelow(files, Some(begin)), f);
  }

  lemma EndShrinks(files: Files, begin: Option<UserKey>, end: UserKey, f: Table)
    requires f in files && f.largest.user > end
    ensures StickingOut(files, begin, Some(f.largest.user)) < StickingOut(files, begin, Some(end))
  {
    StrictSubset(OutAbove(files, Some(f.largest.user)), OutAbove(files, Some(end)), f);
  }

  /** Restarts whenever a level-0 file widens the range; still ends, with the least closed set. */
  method GetOverlappingInputs(files: Files, level: nat, begin: Option<UserKey>, end: Option<UserKey>)
    returns (inputs: Files)
    requires forall f | f in files :: f.smallest.user <= f.largest.user
    ensures level > 0 ==> inputs == Selected(files, begin, end)
    ensures level == 0 ==> LeastClosed(files, begin, end, inputs)
    ensures exists lower, upper :: inputs == Selected(files, lower, upper)
  {
    hide Closed, Justified, Overlaps, StickingOut, Selected, Contained, LeastClosed;
    inputs := [];
    var i, userBegin, userEnd := 0, begin, end;
    JustifiedAtFirst(files, begin, end);
    NothingYet(begin, end);
    while i < |files|
      invariant 0 <= i <= |files| && inputs == Selected(files[..i], userBegin, userEnd)
      invariant Justified(files, begin, end, userBegin, userEnd)
      invariant level > 0 ==> userBegin == begin && userEnd == end
      invariant level == 0 ==> Contained(files[..i], userBegin, userEnd)
      decreases StickingOut(files, userBegin, userEnd), |files| - i
    {
      var f := files[i];
      SelectNext(files, i, userBegin, userEnd);
      ContainedNext(files, i, userBegin, userEnd);
      ContainedOne(f, userBegin, userEnd);
      i := i + 1;
      if AfterFile(userBegin, f) {
        NoOverlap(f, userBegin, userEnd);
      } else if BeforeFile(userEnd, f) {
        NoOverlap(f, userBegin, userEnd);
      } else {
        NoOverlap(f, userBegin, userEnd);
        inputs := inputs + [f];
        if level == 0 {
          if userBegin.Some? && f.smallest.user < userBegin.value {
            WidenBegin(files, begin, end, userBegin, userEnd, f);
            BeginShrinks(files, userBegin.value, userEnd, f);
            userBegin, inputs, i := Some(f.smallest.user), [], 0;
            NothingYet(userBegin, userEnd);
          } else if userEnd.Some? && f.largest.user > userEnd.value {
            WidenEnd(files, begin, end, userBegin, userEnd, f);
            EndShrinks(files, userBegin, userEnd.value, f);
            userEnd, inputs, i := Some(f.largest.user), [], 0;
            NothingYet(userBegin, userEnd);
          }
        }
      }
    }
    assert files[..|files|] == files;
    assert inputs == Selected(files, userBegin, userEnd);
    if level == 0 {
      ContainedIsLeast(files, begin, end, userBegin, userEnd);
    }
  }

  lemma NothingYet(begin: Option<UserKey>, end: Option<UserKey>)
    ensures Selected([], begin, end) == [] && Contained([], begin, end)
  {
  }

  /** What Contained means for one file. */
  lemma ContainedOne(f: Table, begin: Option<UserKey>, end: Option<UserKey>)
    ensures Contained([f], begin, end) <==> (Overlaps(f, begin, end) ==> Inside(f, begin, end))
  {
    assert f in [f];
  }

  lemma NoOverlap(f: Table, begin: Option<UserKey>, end: Option<UserKey>)
    ensures Overlaps(f, begin, end) <==> !AfterFile(begin, f) && !BeforeFile(end, f)
  {
  }

  lemma JustifiedAtFirst(files: Files, begin: Option<UserKey>, end: Option<UserKey>)
    ensures Justified(files, begin, end, begin, end)
  {
  }

  lemma ContainedNext(files: Files, i: nat, begin: Option<UserKey>, end: Option<UserKey>)
    requires i < |files|
    ensures Contained(files[..i + 1], begin, end) <==>
      Contained(files[..i], begin, end) && Contained([files[i]], begin, end)
  {
    assert files[..i + 1] == files[..i] + [files[i]];
  }

  lemma ContainedIsLeast(files: Files, begin: Option<UserKey>, end: Option<UserKey>,
                         begin': Option<UserKey>, end': Option<UserKey>)
    requires Justified(files, begin, end, begin', end') && Contained(files, begin', end')
    requires forall f | f in files :: f.smallest.user <= f.largest.user
    ensures LeastClosed(files, begin, end, Selected(files, begin', end'))
  {
    ContainedIsClosed(files, begin, end, begin', end');
  }

  // ---- Placing a flushed memtable

  function TotalFileSize(files: Files): nat {
    if files == [] then 0 else TotalFileSize(files[..|files| - 1]) + files[|files| - 1].fileSize
  }

  ghost predicate VersionSorted(files: seq<Files>) {
    && |files| == NUM_LEVELS && (forall l | 1 <= l < NUM_LEVELS :: LevelSorted(files[l]))
    && forall f | f in files[0] :: SpanOk(f)
  }

  ghost predicate NoneOverlaps(files: Files, smallest: UserKey, largest: UserKey) {
    forall i | 0 <= i < |files| :: !Overlaps(files[i], Some(smallest), Some(largest))
  }

  lemma SpanInOrder(files: seq<Files>, l: nat)
    requires VersionSorted(files) && l < NUM_LEVELS
    ensures forall f | f in files[l] :: f.smallest.user <= f.largest.user
  {
    forall f | f in files[l] ensures f.smallest.user <= f.largest.user {
      if l > 0 {
        var i :| 0 <= i < |files[l]| && files[l][i] == f;
        assert SpanOk(files[l][i]);
      }
    }
  }

  /** The level for a flushed table: 0, or as deep as nothing at or above that level overlaps. */
  method PickLevelForMemTableOutput(files: seq<Files>, smallest: UserKey, largest: UserKey) returns (level: nat)
    requires VersionSorted(files)
    ensures level <= MAX_MEM_COMPACT_LEVEL
    ensures level > 0 ==> forall l | 0 <= l <= level :: NoneOverlaps(files[l], smallest, largest)
    ensures forall l | 2 <= l < level + 2 ::
      TotalFileSize(Selected(files[l], Some(smallest), Some(largest))) <= MAX_GRANDPARENT_OVERLAP_BYTES
    ensures level < MAX_MEM_COMPACT_LEVEL ==>
      || (level == 0 && !NoneOverlaps(files[0], smallest, largest))
      || !NoneOverlaps(files[level + 1], smallest, largest)
      || TotalFileSize(Selected(files[level + 2], Some(smallest), Some(largest))) > MAX_GRANDPARENT_OVERLAP_BYTES
  {
    hide LevelSorted, Selected, TotalFileSize;
    level := 0;
    var some := SomeFileOverlapsRange(false, files[0], Some(smallest), Some(largest));
    if !some {
      while level < MAX_MEM_COMPACT_LEVEL
        invariant level <= MAX_MEM_COMPACT_LEVEL
        invariant forall l | 0 <= l <= level :: NoneOverlaps(files[l], smallest, largest)
        invariant forall l | 2 <= l < level + 2 ::
          TotalFileSize(Selected(files[l], Some(smallest), Some(largest))) <= MAX_GRANDPARENT_OVERLAP_BYTES
      {
        some := SomeFileOverlapsRange(true, files[level + 1], Some(smallest), Some(largest));
        if some {
          break;
        }
        SpanInOrder(files, level + 2);
        var overlaps := GetOverlappingInputs(files[level + 2], level + 2, Some(smallest), Some(largest));
        if TotalFileSize(overlaps) > MAX_GRANDPARENT_OVERLAP_BYTES {
          break;
        }
        level := level + 1;
      }
    }
  }

  /** Every entry of a table lies in the table's span. */
  lemma EntriesInSpan(t: Table, e: Entry)
    requires t.WellFormed() && e in t.entries
    ensures t.smallest.user <= e.key.user <= t.largest.user
  {
    var i :| 0 <= i < |t.entries| && t.entries[i] == e;
  }

  /** Putting a flushed table, all of whose entries are newer than everything in the version, where
      PickLevelForMemTableOutput says, leaves newer data above older data. */
  lemma FlushKeepsNewerAbove(files: seq<Files>, t: Table, level: nat)
    requires |files| == NUM_LEVELS && level < NUM_LEVELS && t.WellFormed()
    requires forall l, f | 0 <= l < NUM_LEVELS && f in files[l] :: f.WellFormed()
    requires NewerAbove(Contents(files))
    requires forall e, o, l | e in t.entries && 0 <= l < NUM_LEVELS && o in Contents(files)[l] :: e.key.sequence > o.key.sequence
    requires level > 0 ==> forall l | 0 <= l <= level :: NoneOverlaps(files[l], t.smallest.user, t.largest.user)
    ensures NewerAbove(Contents(files[level := files[level] + [t]]))
  {
    hide NewerAbove;
    var before, after := Contents(files), Contents(files[level := files[level] + [t]]);
    FlushContents(files, t, level);
    forall l, e, o: Entry | 0 <= l < level && e in t.entries && o in before[l] ensures e.key.user != o.key.user {
      FlushApart(files, t, l, e, o);
    }
    AddAtLevel(before, Elements(t.entries), level);
  }

  lemma FlushContents(files: seq<Files>, t: Table, level: nat)
    requires level < |files|
    ensures Contents(files[level := files[level] + [t]])
         == Contents(files)[level := Contents(files)[level] + Elements(t.entries)]
  {
    var a := set u | u in files[level] + [t];
    var b := set u | u in files[level];
    assert a == b + {t};
    assert EntriesOf(a) == EntriesOf(b) + Elements(t.entries);
  }

  lemma FlushApart(files: seq<Files>, t: Table, l: nat, e: Entry, o: Entry)
    requires l < |files| && t.WellFormed() && e in t.entries && o in Contents(files)[l]
    requires forall f | f in files[l] :: f.WellFormed()
    requires NoneOverlaps(files[l], t.smallest.user, t.largest.user)
    ensures e.key.user != o.key.user
  {
    EntriesInSpan(t, e);
    var f :| f in files[l] && o in f.entries;
    EntriesInSpan(f, o);
    var i :| 0 <= i < |files[l]| && files[l][i] == f;
  }

  lemma AddAtLevel(sources: seq<set<Entry>>, es: set<Entry>, level: nat)
    requires NewerAbove(sources) && level < |sources| && Distinct(es)
    requires forall e, o, l | e in es && 0 <= l < |sources| && o in sources[l] :: e.key.sequence > o.key.sequence
    requires forall l, e, o: Entry | 0 <= l < level && e in es && o in sources[l] :: e.key.user != o.key.user
    ensures NewerAbove(sources[level := sources[level] + es])
  {
  }
}
