/** What version edits do to the files of a level, event by event, and when a builder that has only
    collected the events saves the files that replaying them gives. */
module EditHistory {
  import opened Bytes
  import opened Comparator

  const NUM_LEVELS: nat := 7

  datatype File = File(number: nat, size: nat, smallest: seq<byte>, largest: seq<byte>)

  datatype Edit = Edit(deleted: seq<(nat, nat)>, added: seq<(nat, File)>) {
    ghost predicate Valid() {
      && (forall d | d in deleted :: d.0 < NUM_LEVELS)
      && forall a | a in added :: a.0 < NUM_LEVELS && IsInternal(a.1.smallest)
    }
  }

  type Files = seq<File>
  type Levels = seq<Files>

  /** By smallest key; files with the same smallest key by number. */
  predicate BySmallestKey(f: File, g: File) {
    || InternalLess(f.smallest, g.smallest)
    || (!InternalLess(g.smallest, f.smallest) && f.number < g.number)
  }

  /** No place between them: the same smallest key and number. */
  predicate Alike(f: File, g: File) {
    !BySmallestKey(f, g) && !BySmallestKey(g, f)
  }

  ghost predicate Ordered(fs: Files) {
    && (forall i | 0 <= i < |fs| :: IsInternal(fs[i].smallest))
    && forall i, j | 0 <= i < j < |fs| :: !BySmallestKey(fs[j], fs[i])
  }

  /** In order, and no two files alike. */
  ghost predicate Sorted(fs: Files) {
    && (forall i | 0 <= i < |fs| :: IsInternal(fs[i].smallest))
    && forall i, j | 0 <= i < j < |fs| :: BySmallestKey(fs[i], fs[j])
  }

  lemma OrderFacts(f: File, g: File, h: File)
    requires IsInternal(f.smallest) && IsInternal(g.smallest) && IsInternal(h.smallest)
    ensures BySmallestKey(f, g) && BySmallestKey(g, h) ==> BySmallestKey(f, h)
    ensures !(BySmallestKey(f, g) && BySmallestKey(g, f))
    ensures f.number != g.number ==> BySmallestKey(f, g) || BySmallestKey(g, f)
  {
    InternalTransitive(f.smallest, g.smallest, h.smallest);
    InternalTransitive(g.smallest, h.smallest, f.smallest);
    InternalTransitive(h.smallest, f.smallest, g.smallest);
    InternalTransitive(f.smallest, h.smallest, g.smallest);
    InternalTransitive(h.smallest, g.smallest, f.smallest);
    InternalTotal(f.smallest, g.smallest);
    InternalTotal(g.smallest, h.smallest);
    InternalTotal(f.smallest, h.smallest);
    SameOrder(f.smallest, g.smallest, h.smallest);
    SameOrder(h.smallest, g.smallest, f.smallest);
  }

  /** Keys that are not ordered are interchangeable. */
  lemma SameOrder(a: seq<byte>, b: seq<byte>, c: seq<byte>)
    requires IsInternal(a) && IsInternal(b) && IsInternal(c)
    ensures !InternalLess(a, b) && !InternalLess(b, a) ==>
      (InternalLess(b, c) <==> InternalLess(a, c)) && (InternalLess(c, b) <==> InternalLess(c, a))
  {
    InternalTotal(a, b);
  }

  ghost function AsSet(fs: Files): set<File> {
    set f | f in fs
  }

  /** A sorted list is determined by its files. */
  lemma {:induction false} SortedUnique(a: Files, b: Files)
    requires Sorted(a) && Sorted(b) && AsSet(a) == AsSet(b)
    ensures a == b
  {
    hide BySmallestKey;
    EmptyTogether(a, b);
    if a != [] {
      FirstIsFirst(a, b);
      FirstIsFirst(b, a);
      OrderFacts(a[0], b[0], a[0]);
      assert a[0] == b[0];
      TailSet(a);
      TailSet(b);
      SortedUnique(a[1..], b[1..]);
      assert a == [a[0]] + a[1..] && b == [b[0]] + b[1..];
    }
  }

  lemma EmptyTogether(a: Files, b: Files)
    requires AsSet(a) == AsSet(b)
    ensures a == [] <==> b == []
  {
    if a != [] {
      assert a[0] in AsSet(b);
    }
    if b != [] {
      assert b[0] in AsSet(a);
    }
  }

  lemma FirstIsFirst(a: Files, b: Files)
    requires Sorted(a) && a != [] && b != [] && AsSet(a) == AsSet(b)
    ensures a[0] == b[0] || BySmallestKey(a[0], b[0])
  {
    assert b[0] in AsSet(b);
    var i :| 0 <= i < |a| && a[i] == b[0];
  }

  lemma TailSet(a: Files)
    requires Sorted(a) && a != []
    ensures AsSet(a[1..]) == AsSet(a) - {a[0]}
  {
    assert a == [a[0]] + a[1..];
    forall f | f in a[1..] ensures f != a[0] {
      OrderFacts(a[0], f, f);
    }
  }

  // ---- The reference: one edit after another

  ghost function Deleted(e: Edit, level: nat): set<nat> {
    set d | d in e.deleted && d.0 == level :: d.1
  }

  ghost function Added(e: Edit, level: nat): set<File> {
    set a | a in e.added && a.0 == level :: a.1
  }

  ghost function ApplyEdit(fs: set<File>, e: Edit, level: nat): set<File> {
    (set f | f in fs && f.number !in Deleted(e, level)) + Added(e, level)
  }

  ghost function Replay(fs: set<File>, edits: seq<Edit>, level: nat): set<File> {
    if edits == [] then fs else ApplyEdit(Replay(fs, edits[..|edits| - 1], level), edits[|edits| - 1], level)
  }

  // ---- What happens at one level, event by event

  datatype Event = Delete(number: nat) | Add(file: File)

  type History = seq<Event>

  function DeleteEvents(ds: seq<(nat, nat)>, level: nat): History {
    if ds == [] then []
    else
      var d := ds[|ds| - 1];
      DeleteEvents(ds[..|ds| - 1], level) + if d.0 == level then [Delete(d.1)] else []
  }

  function AddEvents(fs: seq<(nat, File)>, level: nat): History {
    if fs == [] then []
    else
      var a := fs[|fs| - 1];
      AddEvents(fs[..|fs| - 1], level) + if a.0 == level then [Add(a.1)] else []
  }

  /** An edit deletes before it adds. */
  function Events(e: Edit, level: nat): History {
    DeleteEvents(e.deleted, level) + AddEvents(e.added, level)
  }

  function HistoryOf(edits: seq<Edit>, level: nat): History {
    if edits == [] then []
    else HistoryOf(edits[..|edits| - 1], level) + Events(edits[|edits| - 1], level)
  }

  /** The number was deleted and not added again. */
  ghost predicate Gone(h: History, n: nat) {
    exists i :: 0 <= i < |h| && h[i] == Delete(n) && forall j | i < j < |h| :: h[j].Add? ==> h[j].file.number != n
  }

  /** The file was added, and its number not deleted since. */
  ghost predicate Current(h: History, f: File) {
    exists i :: 0 <= i < |h| && h[i] == Add(f) && forall j | i < j < |h| :: h[j] != Delete(f.number)
  }

  ghost predicate Taken(h: History, f: File) {
    exists i :: 0 <= i < |h| && h[i].Add? && Alike(h[i].file, f)
  }

  /** The file was added when no file like it had been. */
  ghost predicate First(h: History, f: File) {
    exists i :: 0 <= i < |h| && h[i] == Add(f) && !Taken(h[..i], f)
  }

  ghost predicate AllInternal(h: History) {
    forall i | 0 <= i < |h| :: h[i].Add? ==> IsInternal(h[i].file.smallest)
  }

  lemma GoneStep(h: History, e: Event, n: nat)
    ensures Gone(h + [e], n) <==> e == Delete(n) || (Gone(h, n) && (e.Add? ==> e.file.number != n))
  {
    var more := h + [e];
    if Gone(more, n) && e != Delete(n) {
      var i :| 0 <= i < |more| && more[i] == Delete(n) && forall j | i < j < |more| :: more[j].Add? ==> more[j].file.number != n;
      assert h[i] == Delete(n) && more[|h|] == e;
      assert forall j | i < j < |h| :: h[j] == more[j];
    }
    if e == Delete(n) {
      assert more[|h|] == Delete(n);
    } else if Gone(h, n) && (e.Add? ==> e.file.number != n) {
      var i :| 0 <= i < |h| && h[i] == Delete(n) && forall j | i < j < |h| :: h[j].Add? ==> h[j].file.number != n;
      assert more[i] == Delete(n);
    }
  }

  lemma CurrentStep(h: History, e: Event, f: File)
    ensures Current(h + [e], f) <==> e == Add(f) || (Current(h, f) && e != Delete(f.number))
  {
    var more := h + [e];
    if Current(more, f) && e != Add(f) {
      var i :| 0 <= i < |more| && more[i] == Add(f) && forall j | i < j < |more| :: more[j] != Delete(f.number);
      assert h[i] == Add(f) && more[|h|] == e;
      assert forall j | i < j < |h| :: h[j] == more[j];
    }
    if e == Add(f) {
      assert more[|h|] == Add(f);
    } else if Current(h, f) && e != Delete(f.number) {
      var i :| 0 <= i < |h| && h[i] == Add(f) && forall j | i < j < |h| :: h[j] != Delete(f.number);
      assert more[i] == Add(f);
    }
  }

  lemma FirstStep(h: History, e: Event, f: File)
    ensures First(h + [e], f) <==> First(h, f) || (e == Add(f) && !Taken(h, f))
  {
    hide Alike, Taken;
    var more := h + [e];
    if First(more, f) {
      var i :| 0 <= i < |more| && more[i] == Add(f) && !Taken(more[..i], f);
      assert more[..i] == h[..i];
      assert i == |h| ==> h[..i] == h;
      assert i < |h| ==> h[i] == Add(f);
    }
    if First(h, f) {
      var i :| 0 <= i < |h| && h[i] == Add(f) && !Taken(h[..i], f);
      assert more[i] == Add(f) && more[..i] == h[..i];
    } else if e == Add(f) && !Taken(h, f) {
      assert more[|h|] == Add(f) && more[..|h|] == h;
    }
  }

  lemma TakenStep(h: History, e: Event, f: File)
    ensures Taken(h + [e], f) <==> Taken(h, f) || (e.Add? && Alike(e.file, f))
  {
    hide Alike;
    var more := h + [e];
    if Taken(more, f) && !(e.Add? && Alike(e.file, f)) {
      var i :| 0 <= i < |more| && more[i].Add? && Alike(more[i].file, f);
      assert h[i] == more[i];
    }
    if Taken(h, f) {
      var i :| 0 <= i < |h| && h[i].Add? && Alike(h[i].file, f);
      assert more[i] == h[i];
    } else if e.Add? && Alike(e.file, f) {
      assert more[|h|] == e;
    }
  }

  /** Files that are alike are alike to the same files. */
  lemma AlikeFacts(f: File, g: File, h: File)
    requires IsInternal(f.smallest) && IsInternal(g.smallest) && IsInternal(h.smallest)
    ensures Alike(f, g) && Alike(g, h) ==> Alike(f, h)
    ensures Alike(f, g) <==> Alike(g, f)
    ensures Alike(f, g) ==> f.number == g.number
    ensures Alike(f, f)
    ensures Alike(f, g) ==> (BySmallestKey(f, h) <==> BySmallestKey(g, h)) && (BySmallestKey(h, f) <==> BySmallestKey(h, g))
  {
    SameOrder(f.smallest, g.smallest, h.smallest);
    SameOrder(h.smallest, g.smallest, f.smallest);
    OrderFacts(f, g, h);
    OrderFacts(f, f, f);
  }

  /** Of the files like one that was added, the first is marked. */
  lemma {:induction false} TakenHasFirst(h: History, f: File) returns (g: File)
    requires AllInternal(h) && IsInternal(f.smallest) && Taken(h, f)
    ensures First(h, g) && Alike(g, f) && IsInternal(g.smallest)
  {
    hide Alike, First;
    if h == [] {
      g := f;
    } else {
      var n := |h| - 1;
      assert h == h[..n] + [h[n]];
      TakenStep(h[..n], h[n], f);
      if Taken(h[..n], f) {
        g := TakenHasFirst(h[..n], f);
      } else {
        g := h[n].file;
        if Taken(h[..n], g) {
          var o := TakenHasFirst(h[..n], g);
          AlikeFacts(o, g, f);
          FirstIsTaken(h[..n], o, f);
        }
      }
      FirstStep(h[..n], h[n], g);
    }
  }

  lemma FirstIsTaken(h: History, g: File, f: File)
    requires First(h, g) && Alike(g, f)
    ensures Taken(h, f)
  {
    var i :| 0 <= i < |h| && h[i] == Add(g) && !Taken(h[..i], g);
    assert h[i].Add?;
  }

  lemma FirstIsAdded(h: History, f: File)
    requires First(h, f)
    ensures Add(f) in h
  {
    var i :| 0 <= i < |h| && h[i] == Add(f) && !Taken(h[..i], f);
  }

  lemma InternalAdded(h: History, f: File)
    requires AllInternal(h) && Add(f) in h
    ensures IsInternal(f.smallest)
  {
    var i :| 0 <= i < |h| && h[i] == Add(f);
  }

  /** No two marked files are alike. */
  lemma FirstsDiffer(h: History, f: File, g: File)
    requires AllInternal(h) && First(h, f) && First(h, g) && Alike(f, g)
    ensures f == g
  {
    hide BySmallestKey, IsInternal;
    FirstIsAdded(h, f);
    FirstIsAdded(h, g);
    InternalAdded(h, f);
    InternalAdded(h, g);
    AlikeFacts(f, g, f);
    var i :| 0 <= i < |h| && h[i] == Add(f) && !Taken(h[..i], f);
    var j :| 0 <= j < |h| && h[j] == Add(g) && !Taken(h[..j], g);
    if i < j {
      TakenBefore(h, i, j, g);
    } else if j < i {
      TakenBefore(h, j, i, f);
    }
  }

  lemma TakenBefore(h: History, i: nat, j: nat, f: File)
    requires i < j <= |h| && h[i].Add? && Alike(h[i].file, f)
    ensures Taken(h[..j], f)
  {
    assert h[..j][i].Add?;
  }

  lemma CurrentNotGone(h: History, f: File)
    requires Current(h, f)
    ensures !Gone(h, f.number) && Add(f) in h
  {
  }

  // ---- The reference in terms of events

  ghost function After(fs: set<File>, e: Event): set<File> {
    match e
    case Delete(n) => set f | f in fs && f.number != n
    case Add(f) => fs + {f}
  }

  ghost function AfterAll(fs: set<File>, h: History): set<File> {
    if h == [] then fs else After(AfterAll(fs, h[..|h| - 1]), h[|h| - 1])
  }

  lemma {:induction false} AfterSplit(fs: set<File>, a: History, b: History)
    ensures AfterAll(fs, a + b) == AfterAll(AfterAll(fs, a), b)
  {
    if b == [] {
      assert a + b == a;
    } else {
      var n := |b| - 1;
      assert (a + b)[..|a| + n] == a + b[..n];
      AfterSplit(fs, a, b[..n]);
    }
  }

  lemma {:induction false} AfterDeletes(fs: set<File>, ds: seq<(nat, nat)>, level: nat)
    ensures AfterAll(fs, DeleteEvents(ds, level)) == set f | f in fs && (level, f.number) !in ds
  {
    if ds != [] {
      var n := |ds| - 1;
      AfterDeletes(fs, ds[..n], level);
      assert ds == ds[..n] + [ds[n]];
      AfterLast(fs, DeleteEvents(ds[..n], level), Delete(ds[n].1));
    }
  }

  lemma {:induction false} AfterAdds(fs: set<File>, more: seq<(nat, File)>, level: nat)
    ensures AfterAll(fs, AddEvents(more, level)) == fs + AtLevel(more, level)
  {
    hide AtLevel;
    if more == [] {
      assert AtLevel(more, level) == {} by { NoneAtLevel(level); }
    } else {
      var n := |more| - 1;
      AfterAdds(fs, more[..n], level);
      AtLevelNext(more, level);
      AfterLast(fs, AddEvents(more[..n], level), Add(more[n].1));
    }
  }

  ghost function AtLevel(more: seq<(nat, File)>, level: nat): set<File> {
    set a | a in more && a.0 == level :: a.1
  }

  lemma NoneAtLevel(level: nat)
    ensures AtLevel([], level) == {}
  {
  }

  lemma AtLevelNext(more: seq<(nat, File)>, level: nat)
    requires more != []
    ensures var n := |more| - 1;
      AtLevel(more, level) == AtLevel(more[..n], level) + if more[n].0 == level then {more[n].1} else {}
  {
    var n := |more| - 1;
    assert more == more[..n] + [more[n]];
  }

  lemma AfterLast(fs: set<File>, h: History, e: Event)
    ensures AfterAll(fs, h + [e]) == After(AfterAll(fs, h), e)
    ensures h + [] == h
  {
    assert (h + [e])[..|h|] == h;
  }

  lemma EditEvents(fs: set<File>, e: Edit, level: nat)
    ensures AfterAll(fs, Events(e, level)) == ApplyEdit(fs, e, level)
  {
    hide AfterAll;
    AfterSplit(fs, DeleteEvents(e.deleted, level), AddEvents(e.added, level));
    AfterDeletes(fs, e.deleted, level);
    AfterAdds(AfterAll(fs, DeleteEvents(e.deleted, level)), e.added, level);
    forall f: File ensures f.number in Deleted(e, level) <==> (level, f.number) in e.deleted {
      if f.number in Deleted(e, level) {
        var d :| d in e.deleted && d.0 == level && d.1 == f.number;
        assert d == (level, f.number);
      }
    }
  }

  lemma {:induction false} ReplayEvents(fs: set<File>, edits: seq<Edit>, level: nat)
    ensures Replay(fs, edits, level) == AfterAll(fs, HistoryOf(edits, level))
  {
    hide AfterAll, ApplyEdit, Events;
    if edits == [] {
      assert AfterAll(fs, []) == fs by { AfterNothing(fs); }
    } else {
      var n := |edits| - 1;
      ReplayEvents(fs, edits[..n], level);
      AfterSplit(fs, HistoryOf(edits[..n], level), Events(edits[n], level));
      EditEvents(Replay(fs, edits[..n], level), edits[n], level);
    }
  }

  lemma AfterNothing(fs: set<File>)
    ensures AfterAll(fs, []) == fs
  {
  }

  /** Which files are left. */
  lemma {:induction false} AfterMeans(fs: set<File>, h: History, f: File)
    ensures f in AfterAll(fs, h) <==> (f in fs && Delete(f.number) !in h) || Current(h, f)
  {
    hide Current;
    if h == [] {
      assert !Current(h, f) by { NoneCurrent(f); }
    } else {
      var n := |h| - 1;
      AfterMeans(fs, h[..n], f);
      assert h == h[..n] + [h[n]];
      CurrentStep(h[..n], h[n], f);
      AfterLast(fs, h[..n], h[n]);
    }
  }

  lemma NoneCurrent(f: File)
    ensures !Current([], f)
  {
  }

  // ---- The saved list and the reference

  /** What a builder makes of the base: base files and added ones, each as often as it is in both,
      unless their number is gone. */
  ghost predicate IsSaved(base: Files, h: History, v: Files) {
    && Ordered(v)
    && forall f :: multiset(v)[f] ==
         if Gone(h, f.number) then 0 else multiset(base)[f] + if First(h, f) then 1 else 0
  }

  /** Among the numbers that are not gone: files of the base were neither deleted nor added again,
      and the first added of its kind is the one added since the last deletion. */
  ghost predicate Agrees(fs: set<File>, h: History) {
    && (forall f | f in fs && !Gone(h, f.number) :: Delete(f.number) !in h && !Taken(h, f))
    && forall f | Add(f) in h && !Gone(h, f.number) :: First(h, f) <==> Current(h, f)
  }

  ghost predicate Listed(v: Files, fs: set<File>) {
    Sorted(v) && AsSet(v) == fs
  }

  /** The saved list is the reference's, in order and without repetition, in exactly these cases. */
  lemma SavedIsReplay(base: Files, h: History, v: Files)
    requires Sorted(base) && AllInternal(h) && IsSaved(base, h, v)
    ensures Listed(v, AfterAll(AsSet(base), h)) <==> Agrees(AsSet(base), h)
  {
    hide Sorted, Agrees, IsSaved, AfterAll;
    if Agrees(AsSet(base), h) {
      AgreedSet(base, h, v);
      AgreedSorted(base, h, v);
    }
    if Listed(v, AfterAll(AsSet(base), h)) {
      ListedAgrees(base, h, v);
    }
  }

  lemma SavedHas(base: Files, h: History, v: Files, f: File)
    requires IsSaved(base, h, v)
    ensures f in v <==> !Gone(h, f.number) && (f in base || First(h, f))
  {
    hide Gone, First, Ordered;
    assert f in v <==> multiset(v)[f] > 0;
    assert f in base <==> multiset(base)[f] > 0;
  }

  lemma AgreedSet(base: Files, h: History, v: Files)
    requires IsSaved(base, h, v) && Agrees(AsSet(base), h)
    ensures AsSet(v) == AfterAll(AsSet(base), h)
  {
    hide Gone, First, Current, Ordered, AfterAll, IsSaved, Taken;
    forall f ensures f in v <==> f in AfterAll(AsSet(base), h) {
      SavedHas(base, h, v, f);
      AfterMeans(AsSet(base), h, f);
      if First(h, f) {
        FirstIsAdded(h, f);
      }
      if Current(h, f) {
        CurrentNotGone(h, f);
      }
      if Gone(h, f.number) {
        GoneIsDeleted(h, f.number);
      }
    }
  }

  lemma GoneIsDeleted(h: History, n: nat)
    requires Gone(h, n)
    ensures Delete(n) in h
  {
  }

  lemma TwiceCounted(v: Files, i: nat, j: nat)
    requires i < j < |v| && v[i] == v[j]
    ensures multiset(v)[v[i]] >= 2
  {
    assert v == v[..j] + v[j..];
    assert v[..j][i] == v[i] && v[j..][0] == v[j];
    assert multiset(v) == multiset(v[..j]) + multiset(v[j..]);
    assert multiset(v[..j])[v[i]] >= 1 && multiset(v[j..])[v[i]] >= 1 by {
      assert v[i] in multiset(v[..j]) && v[i] in multiset(v[j..]);
    }
  }

  lemma {:induction false} OnceCounted(v: Files, f: File)
    requires Sorted(v)
    ensures multiset(v)[f] <= 1
  {
    if v != [] {
      var n := |v| - 1;
      assert v == v[..n] + [v[n]];
      OnceCounted(v[..n], f);
      if v[n] == f && f in v[..n] {
        var i :| 0 <= i < n && v[..n][i] == f;
        assert BySmallestKey(v[i], v[n]);
        OrderFacts(f, f, f);
      }
    }
  }

  lemma AgreedSorted(base: Files, h: History, v: Files)
    requires Sorted(base) && AllInternal(h) && IsSaved(base, h, v) && Agrees(AsSet(base), h)
    ensures Sorted(v)
  {
    hide Gone, First, Current, Sorted, IsSaved, Agrees, BySmallestKey, Taken;
    assert Ordered(v) by { SavedOrdered(base, h, v); }
    forall i, j | 0 <= i < j < |v| ensures BySmallestKey(v[i], v[j]) {
      if !BySmallestKey(v[i], v[j]) {
        assert Alike(v[i], v[j]);
        if v[i] == v[j] {
          TwiceCounted(v, i, j);
          NotTwice(base, h, v, v[i]);
        } else {
          NotBoth(base, h, v, v[i], v[j]);
        }
        assert false;
      }
    }
    SortedIs(v);
  }

  lemma SavedOrdered(base: Files, h: History, v: Files)
    requires IsSaved(base, h, v)
    ensures Ordered(v)
  {
  }

  lemma SortedIs(v: Files)
    requires Ordered(v) && forall i, j | 0 <= i < j < |v| :: BySmallestKey(v[i], v[j])
    ensures Sorted(v)
  {
  }

  lemma NotTwice(base: Files, h: History, v: Files, f: File)
    requires Sorted(base) && AllInternal(h) && IsSaved(base, h, v) && Agrees(AsSet(base), h)
    ensures multiset(v)[f] <= 1
  {
    hide Gone, Current, Sorted, BySmallestKey, Ordered, Alike, Taken, First;
    OnceCounted(base, f);
    if multiset(v)[f] > 1 {
      assert f in AsSet(base) && First(h, f) && !Gone(h, f.number);
      FirstIsAdded(h, f);
      InternalAdded(h, f);
      AlikeFacts(f, f, f);
      FirstIsTaken(h, f, f);
    }
  }

  lemma NotBoth(base: Files, h: History, v: Files, f: File, g: File)
    requires Sorted(base) && AllInternal(h) && IsSaved(base, h, v) && Agrees(AsSet(base), h)
    requires f in v && g in v && f != g
    ensures !Alike(f, g)
  {
    hide Gone, Current, Sorted, BySmallestKey, Ordered, Alike, First, IsSaved, Taken;
    SavedHas(base, h, v, f);
    SavedHas(base, h, v, g);
    SavedInternal(base, h, v, f);
    SavedInternal(base, h, v, g);
    AlikeFacts(f, g, f);
    AlikeFacts(g, f, g);
    if Alike(f, g) {
      assert f in base ==> f in AsSet(base);
      assert g in base ==> g in AsSet(base);
      if First(h, f) && First(h, g) {
        FirstsDiffer(h, f, g);
      } else if First(h, f) {
        FirstIsTaken(h, f, g);
      } else if First(h, g) {
        FirstIsTaken(h, g, f);
      } else {
        SortedNotAlike(base, f, g);
      }
    }
  }

  lemma SavedInternal(base: Files, h: History, v: Files, f: File)
    requires IsSaved(base, h, v) && f in v
    ensures IsInternal(f.smallest)
  {
    var i :| 0 <= i < |v| && v[i] == f;
  }

  lemma SortedNotAlike(fs: Files, f: File, g: File)
    requires Sorted(fs) && f in fs && g in fs && f != g
    ensures !Alike(f, g)
  {
    hide BySmallestKey;
    var i :| 0 <= i < |fs| && fs[i] == f;
    var j :| 0 <= j < |fs| && fs[j] == g;
  }

  lemma ListedAgrees(base: Files, h: History, v: Files)
    requires Sorted(base) && AllInternal(h) && IsSaved(base, h, v) && Listed(v, AfterAll(AsSet(base), h))
    ensures Agrees(AsSet(base), h)
  {
    hide Gone, Current, Sorted, AfterAll, First, IsSaved, Taken, AsSet;
    forall f | f in AsSet(base) && !Gone(h, f.number) ensures Delete(f.number) !in h && !Taken(h, f) {
      BaseNotTaken(base, h, v, f);
    }
    forall f | Add(f) in h && !Gone(h, f.number) ensures First(h, f) <==> Current(h, f) {
      AddedIsCurrent(base, h, v, f);
    }
  }

  lemma BaseNotTaken(base: Files, h: History, v: Files, f: File)
    requires Sorted(base) && AllInternal(h) && IsSaved(base, h, v) && Listed(v, AfterAll(AsSet(base), h))
    requires f in AsSet(base) && !Gone(h, f.number)
    ensures Delete(f.number) !in h && !Taken(h, f)
  {
    hide Gone, Current, Sorted, AfterAll, First, IsSaved, BySmallestKey, Alike, Taken;
    SavedHas(base, h, v, f);
    SavedInternal(base, h, v, f);
    if Taken(h, f) {
      var g := TakenHasFirst(h, f);
      AlikeFacts(g, f, g);
      SavedHas(base, h, v, g);
      if g == f {
        CountedTwice(base, h, v, f);
        OnceCounted(v, f);
      } else {
        SortedNotAlike(v, g, f);
      }
      assert false;
    }
    AfterMeans(AsSet(base), h, f);
    if Current(h, f) {
      CurrentNotGone(h, f);
      AddedIsTaken(h, f);
    }
    assert f in AsSet(v);
  }

  lemma CountedTwice(base: Files, h: History, v: Files, f: File)
    requires IsSaved(base, h, v) && f in base && First(h, f) && !Gone(h, f.number)
    ensures multiset(v)[f] >= 2
  {
    hide Gone, First, Ordered;
    assert multiset(base)[f] >= 1;
  }

  lemma AddedIsTaken(h: History, f: File)
    requires AllInternal(h) && Add(f) in h
    ensures Taken(h, f)
  {
    hide Alike;
    var i :| 0 <= i < |h| && h[i] == Add(f);
    AlikeFacts(f, f, f);
  }

  lemma AddedIsCurrent(base: Files, h: History, v: Files, f: File)
    requires Sorted(base) && AllInternal(h) && IsSaved(base, h, v) && Listed(v, AfterAll(AsSet(base), h))
    requires Add(f) in h && !Gone(h, f.number)
    ensures First(h, f) <==> Current(h, f)
  {
    hide Gone, Current, Sorted, AfterAll, First, IsSaved, Taken;
    SavedHas(base, h, v, f);
    AfterMeans(AsSet(base), h, f);
    AddedIsTaken(h, f);
    if f in AsSet(base) {
      BaseNotTaken(base, h, v, f);
    }
    assert f in v <==> f in AsSet(v);
  }

  /** Enough for agreement: no number is added twice, nor one of the base. */
  lemma FreshAgrees(fs: set<File>, h: History)
    requires AllInternal(h) && forall f | f in fs :: IsInternal(f.smallest)
    requires forall i, j | 0 <= i < j < |h| && h[i].Add? && h[j].Add? :: h[i].file.number != h[j].file.number
    requires forall i, j | 0 <= i < j < |h| && h[i].Delete? && h[j].Add? :: h[i].number != h[j].file.number
    requires forall i, f | 0 <= i < |h| && h[i].Add? && f in fs :: h[i].file.number != f.number
    ensures Agrees(fs, h)
  {
    hide BySmallestKey, Alike;
    forall f | f in fs && !Gone(h, f.number) ensures Delete(f.number) !in h && !Taken(h, f) {
      if Taken(h, f) {
        var i :| 0 <= i < |h| && h[i].Add? && Alike(h[i].file, f);
        AlikeFacts(h[i].file, f, f);
      }
    }
    forall f | Add(f) in h && !Gone(h, f.number) ensures First(h, f) && Current(h, f) {
      FreshFirst(h, f);
    }
  }

  lemma FreshFirst(h: History, f: File)
    requires AllInternal(h) && Add(f) in h && !Gone(h, f.number)
    requires forall i, j | 0 <= i < j < |h| && h[i].Add? && h[j].Add? :: h[i].file.number != h[j].file.number
    ensures First(h, f) && Current(h, f)
  {
    hide BySmallestKey, Alike;
    var i :| 0 <= i < |h| && h[i] == Add(f);
    if Taken(h[..i], f) {
      var j :| 0 <= j < i && h[..i][j].Add? && Alike(h[..i][j].file, f);
      assert h[j].Add? && IsInternal(h[j].file.smallest) && IsInternal(h[i].file.smallest);
      AlikeFacts(h[j].file, f, f);
    }
    hide Gone;
    forall j | i < j < |h| ensures h[j] != Delete(f.number) {
      NotDeletedAt(h, j, f.number);
    }
  }

  lemma NotDeletedAt(h: History, i: nat, n: nat)
    requires !Gone(h, n) && i < |h| && forall j | i < j < |h| :: h[j].Add? ==> h[j].file.number != n
    ensures h[i] != Delete(n)
  {
  }
}
