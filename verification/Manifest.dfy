/** Replaying version edits: when applying a whole list at once gives the files that applying them
    one version at a time would. */
module Manifest {
  import opened Bytes
  import opened Comparator
  import opened EditHistory

  // ---- The builder

  /** An ordered set, kept as a sorted list; a file like one that is there is not added. */
  method InsertSorted(fs: Files, f: File) returns (r: Files)
    requires Sorted(fs) && IsInternal(f.smallest)
    ensures Sorted(r)
    ensures (exists g :: g in fs && Alike(g, f)) ==> r == fs
    ensures !(exists g :: g in fs && Alike(g, f)) ==> AsSet(r) == AsSet(fs) + {f}
  {
    var i := 0;
    while i < |fs| && BySmallestKey(fs[i], f)
      invariant i <= |fs| && forall j | 0 <= j < i :: BySmallestKey(fs[j], f)
    {
      i := i + 1;
    }
    if i < |fs| && !BySmallestKey(f, fs[i]) {
      assert fs[i] in fs && Alike(fs[i], f);
      r := fs;
    } else {
      r := fs[..i] + [f] + fs[i..];
      InsertedSorted(fs, i, f);
      NoneAlike(fs, i, f);
    }
  }

  lemma NoneAlike(fs: Files, i: nat, f: File)
    requires Sorted(fs) && i <= |fs| && IsInternal(f.smallest)
    requires forall j | 0 <= j < i :: BySmallestKey(fs[j], f)
    requires i < |fs| ==> BySmallestKey(f, fs[i])
    ensures forall g | g in fs :: !Alike(g, f)
  {
    hide BySmallestKey;
    forall g | g in fs ensures !Alike(g, f) {
      var j :| 0 <= j < |fs| && fs[j] == g;
      if j > i {
        OrderFacts(f, fs[i], fs[j]);
      }
    }
  }

  lemma InsertedSorted(fs: Files, i: nat, f: File)
    requires Sorted(fs) && i <= |fs| && IsInternal(f.smallest)
    requires forall j | 0 <= j < i :: BySmallestKey(fs[j], f)
    requires i < |fs| ==> BySmallestKey(f, fs[i])
    ensures Sorted(fs[..i] + [f] + fs[i..]) && AsSet(fs[..i] + [f] + fs[i..]) == AsSet(fs) + {f}
  {
    hide BySmallestKey;
    var r := fs[..i] + [f] + fs[i..];
    forall j | i <= j < |fs| ensures BySmallestKey(f, fs[j]) {
      OrderFacts(f, fs[i], fs[j]);
    }
    assert fs == fs[..i] + fs[i..];
    forall a, b | 0 <= a < b < |r| ensures BySmallestKey(r[a], r[b]) {
      var a', b' := if a <= i then a else a - 1, if b <= i then b else b - 1;
      assert a != i ==> r[a] == fs[a'];
      assert b != i ==> r[b] == fs[b'];
    }
    forall a | 0 <= a < |r| ensures IsInternal(r[a].smallest) {
      assert a != i ==> r[a] == fs[if a < i then a else a - 1];
    }
  }

  // ---- Merging a level

  function MaybeAdd(r: Files, f: File, deleted: set<nat>): Files {
    if f.number in deleted then r else r + [f]
  }

  /** In the merge, `f` may come before `g`: in order, and of two files alike one of the base first. */
  ghost predicate MayPrecede(base: Files, added: Files, f: File, g: File) {
    !BySmallestKey(g, f) && (Alike(f, g) ==> f in base || g in added)
  }

  ghost predicate Interleaved(base: Files, added: Files, r: Files) {
    && (forall f | f in r :: IsInternal(f.smallest))
    && forall i, j | 0 <= i < j < |r| :: MayPrecede(base, added, r[i], r[j])
  }

  ghost predicate Counted(base: Files, added: Files, deleted: set<nat>, r: Files) {
    forall f :: multiset(r)[f] == if f.number in deleted then 0 else multiset(base)[f] + multiset(added)[f]
  }

  /** The merge has emitted `b` files of the base and `a` of the added ones. */
  ghost predicate Merged(base: Files, added: Files, b: nat, a: nat, deleted: set<nat>, r: Files) {
    && b <= |base| && a <= |added| && Interleaved(base, added, r)
    && Counted(base[..b], added[..a], deleted, r)
    && (forall i, j | 0 <= i < b && a <= j < |added| :: !BySmallestKey(added[j], base[i]))
    && forall i, j | b <= i < |base| && 0 <= j < a :: BySmallestKey(added[j], base[i])
  }

  method MergeLevel(base: Files, added: Files, deleted: set<nat>) returns (r: Files)
    requires Ordered(base) && Sorted(added)
    ensures Interleaved(base, added, r) && Counted(base, added, deleted, r)
  {
    hide Sorted, Ordered, BySmallestKey, Merged, MaybeAdd, Interleaved, Counted;
    var b := 0;
    r := [];
    MergeStarts(base, added, deleted);
    for a := 0 to |added|
      invariant Merged(base, added, b, a, deleted, r) && b <= |base|
    {
      while b < |base| && !BySmallestKey(added[a], base[b])
        invariant Merged(base, added, b, a, deleted, r) && b <= |base|
      {
        EmitBase(base, added, b, a, deleted, r);
        r := MaybeAdd(r, base[b], deleted);
        b := b + 1;
      }
      EmitAdded(base, added, b, a, deleted, r);
      r := MaybeAdd(r, added[a], deleted);
    }
    while b < |base|
      invariant Merged(base, added, b, |added|, deleted, r) && b <= |base|
    {
      EmitBase(base, added, b, |added|, deleted, r);
      r := MaybeAdd(r, base[b], deleted);
      b := b + 1;
    }
    MergeEnds(base, added, deleted, r);
  }

  lemma MergeStarts(base: Files, added: Files, deleted: set<nat>)
    ensures Merged(base, added, 0, 0, deleted, [])
  {
  }

  lemma MergeEnds(base: Files, added: Files, deleted: set<nat>, r: Files)
    requires Merged(base, added, |base|, |added|, deleted, r)
    ensures Interleaved(base, added, r) && Counted(base, added, deleted, r)
  {
    assert base[..|base|] == base && added[..|added|] == added;
  }

  /** One more file, which may follow all that were emitted. */
  lemma EmitOne(base: Files, added: Files, r: Files, f: File, deleted: set<nat>)
    requires Interleaved(base, added, r) && IsInternal(f.smallest)
    requires forall g | g in r :: MayPrecede(base, added, g, f)
    ensures Interleaved(base, added, MaybeAdd(r, f, deleted))
  {
    hide MayPrecede;
    var r' := r + [f];
    forall i, j | 0 <= i < j < |r'| ensures MayPrecede(base, added, r'[i], r'[j]) {
      assert r'[i] == r[i];
      assert r[i] in r;
      assert j < |r| ==> r'[j] == r[j];
    }
  }

  lemma TakeMore(fs: Files, i: nat)
    requires i < |fs|
    ensures multiset(fs[..i + 1]) == multiset(fs[..i]) + multiset{fs[i]}
    ensures fs[i] in fs
  {
    assert fs[..i + 1] == fs[..i] + [fs[i]];
  }

  lemma CountOne(p: Files, q: Files, p': Files, q': Files, r: Files, f: File, deleted: set<nat>)
    requires Counted(p, q, deleted, r)
    requires multiset(p') + multiset(q') == multiset(p) + multiset(q) + multiset{f}
    ensures Counted(p', q', deleted, MaybeAdd(r, f, deleted))
  {
    forall g ensures multiset(MaybeAdd(r, f, deleted))[g]
        == if g.number in deleted then 0 else multiset(p')[g] + multiset(q')[g] {
      assert multiset(p')[g] + multiset(q')[g] == (multiset(p') + multiset(q'))[g];
      assert (multiset(p') + multiset(q'))[g] == multiset(p)[g] + multiset(q)[g] + multiset{f}[g];
    }
  }

  lemma Emitted(p: Files, q: Files, deleted: set<nat>, r: Files, f: File)
    requires Counted(p, q, deleted, r) && f in r
    ensures f in p || f in q
  {
    assert multiset(r)[f] > 0;
  }

  lemma EmitBase(base: Files, added: Files, b: nat, a: nat, deleted: set<nat>, r: Files)
    requires Ordered(base) && Sorted(added) && b < |base|
    requires Merged(base, added, b, a, deleted, r) && (a < |added| ==> !BySmallestKey(added[a], base[b]))
    ensures Merged(base, added, b + 1, a, deleted, MaybeAdd(r, base[b], deleted))
  {
    hide BySmallestKey, Counted, Interleaved, MaybeAdd;
    var f := base[b];
    TakeMore(base, b);
    forall g | g in r ensures MayPrecede(base, added, g, f) {
      Emitted(base[..b], added[..a], deleted, r, g);
      if g in base[..b] {
        var i :| 0 <= i < b && base[..b][i] == g;
        assert base[i] == g;
      } else {
        var j :| 0 <= j < a && added[..a][j] == g;
        OrderFacts(added[j], f, f);
      }
    }
    EmitOne(base, added, r, f, deleted);
    CountOne(base[..b], added[..a], base[..b + 1], added[..a], r, f, deleted);
    forall j | a <= j < |added| ensures !BySmallestKey(added[j], f) {
      OrderFacts(added[a], added[j], f);
    }
  }

  lemma EmitAdded(base: Files, added: Files, b: nat, a: nat, deleted: set<nat>, r: Files)
    requires Ordered(base) && Sorted(added) && a < |added| && b <= |base|
    requires Merged(base, added, b, a, deleted, r) && (b < |base| ==> BySmallestKey(added[a], base[b]))
    ensures Merged(base, added, b, a + 1, deleted, MaybeAdd(r, added[a], deleted))
  {
    hide BySmallestKey, Counted, Interleaved, MaybeAdd;
    var f := added[a];
    TakeMore(added, a);
    forall g | g in r ensures MayPrecede(base, added, g, f) {
      Emitted(base[..b], added[..a], deleted, r, g);
      if g in base[..b] {
        var i :| 0 <= i < b && base[..b][i] == g;
        assert base[i] == g;
      } else {
        var j :| 0 <= j < a && added[..a][j] == g;
        OrderFacts(added[j], f, f);
      }
    }
    EmitOne(base, added, r, f, deleted);
    CountOne(base[..b], added[..a], base[..b], added[..a + 1], r, f, deleted);
    forall i | b <= i < |base| ensures BySmallestKey(f, base[i]) {
      if i > b {
        BeforeOrdered(f, base[b], base[i]);
      }
    }
  }

  lemma BeforeOrdered(f: File, g: File, h: File)
    requires IsInternal(f.smallest) && IsInternal(g.smallest) && IsInternal(h.smallest)
    requires BySmallestKey(f, g) && !BySmallestKey(h, g)
    ensures BySmallestKey(f, h)
  {
    hide BySmallestKey;
    OrderFacts(f, g, h);
    if !BySmallestKey(g, h) {
      AlikeFacts(g, h, f);
    }
  }

  // ---- The builder

  /** One level of the builder has collected the events of its history. */
  ghost predicate Collected(added: Files, deleted: set<nat>, h: History) {
    && Sorted(added) && AllInternal(h)
    && (forall f :: f in added <==> First(h, f))
    && forall n :: n in deleted <==> Gone(h, n)
  }

  lemma CollectDelete(added: Files, deleted: set<nat>, h: History, n: nat)
    requires Collected(added, deleted, h)
    ensures Collected(added, deleted + {n}, h + [Delete(n)])
  {
    hide Sorted, First, Gone;
    forall f ensures f in added <==> First(h + [Delete(n)], f) {
      FirstStep(h, Delete(n), f);
    }
    forall m: nat ensures m in deleted + {n} <==> Gone(h + [Delete(n)], m) {
      GoneStep(h, Delete(n), m);
    }
  }

  lemma CollectAdd(added: Files, added': Files, deleted: set<nat>, h: History, f: File)
    requires Collected(added, deleted, h) && IsInternal(f.smallest) && Sorted(added')
    requires (exists g :: g in added && Alike(g, f)) ==> added' == added
    requires !(exists g :: g in added && Alike(g, f)) ==> AsSet(added') == AsSet(added) + {f}
    ensures Collected(added', deleted - {f.number}, h + [Add(f)])
  {
    hide Sorted, First, Gone, Alike, Taken;
    if Taken(h, f) {
      var g := TakenHasFirst(h, f);
      assert g in added && Alike(g, f);
    }
    if g :| g in added && Alike(g, f) {
      FirstIsTaken(h, g, f);
    }
    forall g ensures g in added' <==> First(h + [Add(f)], g) {
      FirstStep(h, Add(f), g);
      assert g in added' <==> g in AsSet(added');
    }
    forall m: nat ensures m in deleted - {f.number} <==> Gone(h + [Add(f)], m) {
      GoneStep(h, Add(f), m);
    }
  }

  lemma NothingCollected()
    ensures Collected([], {}, [])
  {
  }

  class Builder {
    const base: Levels
    var deletedFiles: seq<set<nat>>
    var addedFiles: Levels
    ghost var histories: seq<History>

    ghost predicate Valid()
      reads this
    {
      && |base| == |deletedFiles| == |addedFiles| == |histories| == NUM_LEVELS
      && forall l | 0 <= l < NUM_LEVELS :: Ordered(base[l]) && Collected(addedFiles[l], deletedFiles[l], histories[l])
    }

    constructor (base: Levels)
      requires |base| == NUM_LEVELS && forall l | 0 <= l < NUM_LEVELS :: Ordered(base[l])
      ensures Valid() && this.base == base && forall l | 0 <= l < NUM_LEVELS :: histories[l] == []
    {
      hide Collected, Ordered;
      NothingCollected();
      this.base := base;
      deletedFiles, addedFiles, histories := seq(NUM_LEVELS, _ => {}), seq(NUM_LEVELS, _ => []), seq(NUM_LEVELS, _ => []);
    }

    /** The deletions, then the additions. */
    method Apply(e: Edit)
      requires Valid() && e.Valid()
      modifies this
      ensures Valid() && forall l | 0 <= l < NUM_LEVELS :: histories[l] == old(histories[l]) + Events(e, l)
    {
      hide Collected, Ordered, DeleteEvents, AddEvents;
      ghost var before := histories;
      forall l: nat ensures DeleteEvents(e.deleted[..0], l) == [] == AddEvents(e.added[..0], l) {
        NoEvents(l);
      }
      for d := 0 to |e.deleted|
        invariant Valid() && forall l | 0 <= l < NUM_LEVELS :: histories[l] == before[l] + DeleteEvents(e.deleted[..d], l)
      {
        DeleteOne(e.deleted, d, before);
      }
      assert e.deleted[..|e.deleted|] == e.deleted && e.added[..|e.added|] == e.added;
      ghost var middle := histories;
      for n := 0 to |e.added|
        invariant Valid() && forall l | 0 <= l < NUM_LEVELS :: histories[l] == middle[l] + AddEvents(e.added[..n], l)
      {
        AddOne(e.added, n, middle);
      }
    }

    method DeleteOne(ds: seq<(nat, nat)>, d: nat, ghost before: seq<History>)
      requires Valid() && d < |ds| && ds[d].0 < NUM_LEVELS && |before| == NUM_LEVELS
      requires forall l | 0 <= l < NUM_LEVELS :: histories[l] == before[l] + DeleteEvents(ds[..d], l)
      modifies this`deletedFiles, this`histories
      ensures Valid()
      ensures forall l | 0 <= l < NUM_LEVELS :: histories[l] == before[l] + DeleteEvents(ds[..d + 1], l)
    {
      hide Collected, Ordered, DeleteEvents;
      var (level, number) := ds[d];
      CollectDelete(addedFiles[level], deletedFiles[level], histories[level], number);
      forall l: nat ensures DeleteEvents(ds[..d + 1], l) == DeleteEvents(ds[..d], l) + if l == level then [Delete(number)] else [] {
        DeleteEventsNext(ds, d, l);
      }
      deletedFiles := deletedFiles[level := deletedFiles[level] + {number}];
      histories := histories[level := histories[level] + [Delete(number)]];
    }

    method AddOne(fs: seq<(nat, File)>, n: nat, ghost before: seq<History>)
      requires Valid() && n < |fs| && fs[n].0 < NUM_LEVELS && IsInternal(fs[n].1.smallest) && |before| == NUM_LEVELS
      requires forall l | 0 <= l < NUM_LEVELS :: histories[l] == before[l] + AddEvents(fs[..n], l)
      modifies this`deletedFiles, this`addedFiles, this`histories
      ensures Valid()
      ensures forall l | 0 <= l < NUM_LEVELS :: histories[l] == before[l] + AddEvents(fs[..n + 1], l)
    {
      hide Ordered, AddEvents, Sorted, First, Gone, AllInternal;
      var (level, f) := fs[n];
      assert Collected(addedFiles[level], deletedFiles[level], histories[level]);
      var more := InsertSorted(addedFiles[level], f);
      hide Collected, Alike, AsSet;
      CollectAdd(addedFiles[level], more, deletedFiles[level], histories[level], f);
      forall l: nat ensures AddEvents(fs[..n + 1], l) == AddEvents(fs[..n], l) + if l == level then [Add(f)] else [] {
        AddEventsNext(fs, n, l);
      }
      deletedFiles := deletedFiles[level := deletedFiles[level] - {f.number}];
      addedFiles := addedFiles[level := more];
      histories := histories[level := histories[level] + [Add(f)]];
    }

    lemma HistoriesInternal()
      requires Valid()
      ensures forall l | 0 <= l < NUM_LEVELS :: AllInternal(histories[l])
    {
    }

    /** The lists of the version that the base and the edits make. */
    method SaveTo() returns (v: Levels)
      requires Valid()
      ensures |v| == NUM_LEVELS && forall l | 0 <= l < NUM_LEVELS :: IsSaved(base[l], histories[l], v[l])
    {
      hide Collected, Ordered, Interleaved, Counted, IsSaved;
      v := [];
      for level := 0 to NUM_LEVELS
        invariant |v| == level && forall l | 0 <= l < level :: IsSaved(base[l], histories[l], v[l])
      {
        assert Sorted(addedFiles[level]) by { CollectedSorted(addedFiles[level], deletedFiles[level], histories[level]); }
        var files := MergeLevel(base[level], addedFiles[level], deletedFiles[level]);
        MergeSaves(base[level], addedFiles[level], deletedFiles[level], histories[level], files);
        v := v + [files];
      }
    }
  }

  lemma CollectedSorted(added: Files, deleted: set<nat>, h: History)
    requires Collected(added, deleted, h)
    ensures Sorted(added)
  {
  }

  lemma MergeSaves(base: Files, added: Files, deleted: set<nat>, h: History, v: Files)
    requires Collected(added, deleted, h) && Interleaved(base, added, v) && Counted(base, added, deleted, v)
    ensures IsSaved(base, h, v)
  {
    hide First, Gone, Sorted, BySmallestKey;
    forall f ensures multiset(added)[f] == if First(h, f) then 1 else 0 {
      OnceCounted(added, f);
      assert f in added <==> multiset(added)[f] > 0;
    }
    forall i | 0 <= i < |v| ensures IsInternal(v[i].smallest) {
      assert v[i] in v;
    }
  }

  lemma NoEvents(level: nat)
    ensures forall ds: seq<(nat, nat)> :: DeleteEvents(ds[..0], level) == []
    ensures forall fs: seq<(nat, File)> :: AddEvents(fs[..0], level) == []
  {
  }

  lemma DeleteEventsNext(ds: seq<(nat, nat)>, d: nat, level: nat)
    requires d < |ds|
    ensures DeleteEvents(ds[..d + 1], level) == DeleteEvents(ds[..d], level) + if ds[d].0 == level then [Delete(ds[d].1)] else []
  {
    assert ds[..d + 1][..d] == ds[..d];
  }

  lemma AddEventsNext(fs: seq<(nat, File)>, n: nat, level: nat)
    requires n < |fs|
    ensures AddEvents(fs[..n + 1], level) == AddEvents(fs[..n], level) + if fs[n].0 == level then [Add(fs[n].1)] else []
  {
    assert fs[..n + 1][..n] == fs[..n];
  }

  // ---- Whole manifests

  ghost predicate AllSorted(v: Levels) {
    |v| == NUM_LEVELS && forall l | 0 <= l < NUM_LEVELS :: Sorted(v[l])
  }

  ghost predicate AllOrdered(v: Levels) {
    |v| == NUM_LEVELS && forall l | 0 <= l < NUM_LEVELS :: Ordered(v[l])
  }

  /** The lists `v` are what replaying the edits on the base gives. */
  ghost predicate IsReplay(base: Levels, edits: seq<Edit>, v: Levels)
    requires |base| == NUM_LEVELS
  {
    |v| == NUM_LEVELS && forall l | 0 <= l < NUM_LEVELS :: Listed(v[l], Replay(AsSet(base[l]), edits, l))
  }

  ghost predicate AllAgree(base: Levels, edits: seq<Edit>)
    requires |base| == NUM_LEVELS
  {
    forall l | 0 <= l < NUM_LEVELS :: Agrees(AsSet(base[l]), HistoryOf(edits, l))
  }

  ghost predicate AllSaved(base: Levels, edits: seq<Edit>, v: Levels)
    requires |base| == NUM_LEVELS
  {
    && |v| == NUM_LEVELS
    && forall l | 0 <= l < NUM_LEVELS :: AllInternal(HistoryOf(edits, l)) && IsSaved(base[l], HistoryOf(edits, l), v[l])
  }

  lemma ReplayUnique(base: Levels, edits: seq<Edit>, v: Levels, w: Levels)
    requires |base| == NUM_LEVELS && IsReplay(base, edits, v) && IsReplay(base, edits, w)
    ensures v == w
  {
    hide Sorted, AsSet, Replay;
    forall l | 0 <= l < NUM_LEVELS ensures v[l] == w[l] {
      SortedUnique(v[l], w[l]);
    }
  }

  /** What a builder saves is the replay exactly if every level agrees. */
  lemma AllSavedIsReplay(base: Levels, edits: seq<Edit>, v: Levels)
    requires AllSorted(base) && AllSaved(base, edits, v)
    ensures IsReplay(base, edits, v) <==> AllAgree(base, edits)
  {
    hide Sorted, AsSet, Replay, IsSaved, Agrees, AllInternal, Listed;
    forall l | 0 <= l < NUM_LEVELS
      ensures Listed(v[l], Replay(AsSet(base[l]), edits, l)) <==> Agrees(AsSet(base[l]), HistoryOf(edits, l))
    {
      SavedIsReplay(base[l], HistoryOf(edits, l), v[l]);
      ReplayEvents(AsSet(base[l]), edits, l);
    }
  }

  lemma HistoryNext(edits: seq<Edit>, i: nat, level: nat)
    requires i < |edits|
    ensures HistoryOf(edits[..i + 1], level) == HistoryOf(edits[..i], level) + Events(edits[i], level)
  {
    assert edits[..i + 1][..i] == edits[..i];
  }

  /** One builder for all edits, as recovery does it. */
  method ReplayAtOnce(base: Levels, edits: seq<Edit>) returns (v: Levels)
    requires AllOrdered(base) && forall e | e in edits :: e.Valid()
    ensures AllSaved(base, edits, v)
  {
    hide Ordered, Collected, IsSaved, Events;
    var builder := new Builder(base);
    for i := 0 to |edits|
      invariant fresh(builder) && builder.Valid() && builder.base == base
      invariant forall l | 0 <= l < NUM_LEVELS :: builder.histories[l] == HistoryOf(edits[..i], l)
    {
      assert edits[i] in edits;
      builder.Apply(edits[i]);
      forall l | 0 <= l < NUM_LEVELS ensures builder.histories[l] == HistoryOf(edits[..i + 1], l) {
        HistoryNext(edits, i, l);
      }
    }
    assert edits[..|edits|] == edits;
    v := builder.SaveTo();
    builder.HistoriesInternal();
  }

  lemma SavedAllOrdered(base: Levels, edits: seq<Edit>, v: Levels)
    requires |base| == NUM_LEVELS && AllSaved(base, edits, v)
    ensures AllOrdered(v)
  {
    hide Ordered, AllInternal, HistoryOf;
  }

  // ---- A version for every edit

  /** Each version is saved from the one before and its edit. */
  ghost predicate IsRun(base: Levels, edits: seq<Edit>, vs: seq<Levels>) {
    && |base| == NUM_LEVELS && |vs| == |edits| + 1 && vs[0] == base
    && (forall i | 0 <= i < |vs| :: AllOrdered(vs[i]))
    && forall i | 0 <= i < |edits| :: AllSaved(vs[i], [edits[i]], vs[i + 1])
  }

  /** Each edit agrees with the replay of those before it. */
  ghost predicate AgreesAlong(base: Levels, edits: seq<Edit>, n: nat)
    requires |base| == NUM_LEVELS && n <= |edits|
  {
    forall i, l | 0 <= i < n && 0 <= l < NUM_LEVELS :: Agrees(Replay(AsSet(base[l]), edits[..i], l), Events(edits[i], l))
  }

  lemma {:induction false} RunIsReplay(base: Levels, edits: seq<Edit>, vs: seq<Levels>, n: nat)
    requires AllSorted(base) && IsRun(base, edits, vs) && n <= |edits|
    ensures AgreesAlong(base, edits, n) <==> forall i | 0 <= i <= n :: IsReplay(base, edits[..i], vs[i])
  {
    hide Sorted, AsSet, Replay, Agrees, Events, AllSaved;
    if n == 0 {
      assert IsReplay(base, edits[..0], vs[0]) by { NothingReplayed(base, edits[..0]); }
    } else {
      RunIsReplay(base, edits, vs, n - 1);
      if IsReplay(base, edits[..n - 1], vs[n - 1]) {
        StepIsReplay(base, edits, vs, n - 1);
      }
    }
  }

  lemma NothingReplayed(base: Levels, edits: seq<Edit>)
    requires AllSorted(base) && edits == []
    ensures IsReplay(base, edits, base)
  {
    hide Sorted;
  }

  lemma StepIsReplay(base: Levels, edits: seq<Edit>, vs: seq<Levels>, n: nat)
    requires AllSorted(base) && IsRun(base, edits, vs) && n < |edits| && IsReplay(base, edits[..n], vs[n])
    ensures IsReplay(base, edits[..n + 1], vs[n + 1]) <==>
            forall l | 0 <= l < NUM_LEVELS :: Agrees(Replay(AsSet(base[l]), edits[..n], l), Events(edits[n], l))
  {
    hide Sorted, AsSet, Replay, Agrees, Events, AllSaved, HistoryOf;
    AllSavedIsReplay(vs[n], [edits[n]], vs[n + 1]);
    forall l | 0 <= l < NUM_LEVELS
      ensures Replay(AsSet(vs[n][l]), [edits[n]], l) == Replay(AsSet(base[l]), edits[..n + 1], l)
      ensures HistoryOf([edits[n]], l) == Events(edits[n], l)
    {
      ReplayOne(AsSet(vs[n][l]), edits[n], l);
      ReplayNext(AsSet(base[l]), edits, n, l);
    }
  }

  lemma ReplayOne(fs: set<File>, e: Edit, level: nat)
    ensures Replay(fs, [e], level) == ApplyEdit(fs, e, level)
    ensures HistoryOf([e], level) == Events(e, level)
  {
    assert [e][..0] == [];
    assert Replay(fs, [], level) == fs && HistoryOf([], level) == [];
    assert [] + Events(e, level) == Events(e, level);
  }

  lemma ReplayNext(fs: set<File>, edits: seq<Edit>, i: nat, level: nat)
    requires i < |edits|
    ensures Replay(fs, edits[..i + 1], level) == ApplyEdit(Replay(fs, edits[..i], level), edits[i], level)
  {
    assert edits[..i + 1][..i] == edits[..i];
  }

  /** A new version for every edit, as running the database does it. */
  method ReplayOneByOne(base: Levels, edits: seq<Edit>) returns (vs: seq<Levels>)
    requires AllOrdered(base) && forall e | e in edits :: e.Valid()
    ensures IsRun(base, edits, vs)
  {
    hide Ordered, AllSaved;
    var v := base;
    vs := [base];
    for i := 0 to |edits|
      invariant IsRun(base, edits[..i], vs) && v == vs[i] && AllOrdered(v)
    {
      assert edits[i] in edits;
      var next := ReplayAtOnce(v, [edits[i]]);
      SavedAllOrdered(v, [edits[i]], next);
      v := next;
      vs := vs + [next];
      assert edits[..i + 1] == edits[..i] + [edits[i]];
    }
    assert edits[..|edits|] == edits;
  }

  /** Deleting a file and adding it again in one edit lists it twice. */
  method ListedTwice(f: File) returns (v: Levels)
    requires IsInternal(f.smallest)
    ensures |v| == NUM_LEVELS && v[0] == [f, f]
    ensures Replay({f}, [Edit([(0, f.number)], [(0, f)])], 0) == {f}
  {
    hide BySmallestKey;
    var e := Edit([(0, f.number)], [(0, f)]);
    ghost var h := [Delete(f.number), Add(f)];
    ReAddHistory(f);
    v := ReplayAtOnce(EmptyLevels()[0 := [f]], [e]);
    hide Gone, First, Ordered;
    assert forall g :: multiset(v[0])[g] == multiset([f, f])[g];
    TwoAlike(v[0], f);
    ReplayOne({f}, e, 0);
  }

  lemma ReAddHistory(f: File)
    requires IsInternal(f.smallest)
    ensures HistoryOf([Edit([(0, f.number)], [(0, f)])], 0) == [Delete(f.number), Add(f)]
    ensures forall n :: !Gone([Delete(f.number), Add(f)], n)
    ensures forall g :: First([Delete(f.number), Add(f)], g) <==> g == f
  {
    hide Gone, First, Taken;
    var e, deletion, h := Edit([(0, f.number)], [(0, f)]), [Delete(f.number)], [Delete(f.number), Add(f)];
    ReplayOne({}, e, 0);
    assert DeleteEvents(e.deleted[..0], 0) == [] && AddEvents(e.added[..0], 0) == [];
    assert [] + deletion == deletion && [] + [Add(f)] == [Add(f)];
    assert h == deletion + [Add(f)];
    forall n ensures !Gone(h, n) {
      NothingYet(f, n);
      GoneStep([], Delete(f.number), n);
      GoneStep(deletion, Add(f), n);
    }
    forall g ensures First(h, g) <==> g == f {
      NothingYet(g, 0);
      FirstStep([], Delete(f.number), g);
      FirstStep(deletion, Add(f), g);
      TakenStep([], Delete(f.number), g);
    }
  }

  lemma NothingYet(f: File, n: nat)
    ensures !Gone([], n) && !First([], f) && !Taken([], f)
  {
  }

  lemma TwoAlike(v: Files, f: File)
    requires multiset(v) == multiset([f, f])
    ensures v == [f, f]
  {
    assert |v| == |multiset(v)| == 2;
    assert v[0] in multiset(v) && v[1] in multiset(v);
  }

  // ---- The snapshot at the head of a manifest

  function EmptyLevels(): (v: Levels)
    ensures |v| == NUM_LEVELS && forall l | 0 <= l < NUM_LEVELS :: v[l] == []
  {
    seq(NUM_LEVELS, _ => [])
  }

  function Additions(fs: Files): (h: History)
    ensures |h| == |fs| && forall i | 0 <= i < |fs| :: h[i] == Add(fs[i])
  {
    seq(|fs|, i requires 0 <= i < |fs| => Add(fs[i]))
  }

  /** All files of the version as additions. */
  method WriteSnapshot(v: Levels) returns (e: Edit)
    requires AllOrdered(v)
    ensures e.Valid() && e.deleted == [] && forall l | 0 <= l < NUM_LEVELS :: AddEvents(e.added, l) == Additions(v[l])
  {
    hide Ordered, AddEvents;
    e := Edit([], []);
    NoEventsAtAll();
    for level := 0 to NUM_LEVELS
      invariant e.Valid() && e.deleted == []
      invariant forall l | 0 <= l < level :: AddEvents(e.added, l) == Additions(v[l])
      invariant forall l | level <= l < NUM_LEVELS :: AddEvents(e.added, l) == []
    {
      e := SnapshotLevel(v[level], level, e);
    }
  }

  lemma NoEventsAtAll()
    ensures forall l :: AddEvents([], l) == []
  {
  }

  method SnapshotLevel(fs: Files, level: nat, before: Edit) returns (e: Edit)
    requires Ordered(fs) && level < NUM_LEVELS && before.Valid() && AddEvents(before.added, level) == []
    ensures e.Valid() && e.deleted == before.deleted && AddEvents(e.added, level) == Additions(fs)
    ensures forall l | 0 <= l < NUM_LEVELS && l != level :: AddEvents(e.added, l) == AddEvents(before.added, l)
  {
    hide AddEvents;
    e := before;
    for i := 0 to |fs|
      invariant e.Valid() && e.deleted == before.deleted && AddEvents(e.added, level) == Additions(fs[..i])
      invariant forall l | 0 <= l < NUM_LEVELS && l != level :: AddEvents(e.added, l) == AddEvents(before.added, l)
    {
      forall l | 0 <= l < NUM_LEVELS
        ensures AddEvents(e.added + [(level, fs[i])], l) == AddEvents(e.added, l) + if l == level then [Add(fs[i])] else []
      {
        AddEventsMore(e.added, (level, fs[i]), l);
      }
      assert Additions(fs[..i + 1]) == Additions(fs[..i]) + [Add(fs[i])];
      e := Edit(e.deleted, e.added + [(level, fs[i])]);
    }
    assert fs[..|fs|] == fs;
  }

  lemma AddEventsMore(fs: seq<(nat, File)>, a: (nat, File), level: nat)
    ensures AddEvents(fs + [a], level) == AddEvents(fs, level) + if a.0 == level then [Add(a.1)] else []
  {
    assert (fs + [a])[..|fs|] == fs;
  }

  /** The history from the snapshot on: the files of the version, then what the edits do. */
  lemma {:induction false} SnapshotHistory(v: Files, e: Edit, edits: seq<Edit>, level: nat)
    requires e.deleted == [] && AddEvents(e.added, level) == Additions(v)
    ensures HistoryOf([e] + edits, level) == Additions(v) + HistoryOf(edits, level)
  {
    hide AddEvents;
    var all := [e] + edits;
    if edits == [] {
      assert all == [e] && HistoryOf(all[..0], level) == [] && DeleteEvents(e.deleted, level) == [];
    } else {
      var n := |edits| - 1;
      assert all[..n + 1] == [e] + edits[..n] && all[n + 1] == edits[n];
      SnapshotHistory(v, e, edits[..n], level);
    }
  }

  lemma {:induction false} AfterAdditions(fs: Files)
    ensures AfterAll({}, Additions(fs)) == AsSet(fs)
  {
    if fs == [] {
      assert AfterAll({}, Additions(fs)) == {};
    } else {
      var n := |fs| - 1;
      AfterAdditions(fs[..n]);
      assert fs == fs[..n] + [fs[n]] && Additions(fs) == Additions(fs[..n]) + [Add(fs[n])];
      AfterLast({}, Additions(fs[..n]), Add(fs[n]));
      assert After(AsSet(fs[..n]), Add(fs[n])) == AsSet(fs);
    }
  }

  /** A snapshot stands for the version it was written from. */
  lemma SnapshotReplay(v: Files, e: Edit, edits: seq<Edit>, level: nat)
    requires e.deleted == [] && AddEvents(e.added, level) == Additions(v)
    ensures Replay({}, [e] + edits, level) == Replay(AsSet(v), edits, level)
  {
    hide AfterAll, HistoryOf, Replay;
    ReplayEvents({}, [e] + edits, level);
    SnapshotHistory(v, e, edits, level);
    AfterSplit({}, Additions(v), HistoryOf(edits, level));
    AfterAdditions(v);
    ReplayEvents(AsSet(v), edits, level);
  }

  /** The files of the version and what the edits do to them, on nothing. */
  ghost predicate RecoveryAgrees(v: Levels, edits: seq<Edit>)
    requires |v| == NUM_LEVELS
  {
    forall l | 0 <= l < NUM_LEVELS :: Agrees({}, Additions(v[l]) + HistoryOf(edits, l))
  }

  /** Recovery from a snapshot and the edits after it, beside the running database.  Each gives the
      replay exactly if its edits agree, and then both have the same lists. */
  method RecoverLists(v: Levels, edits: seq<Edit>) returns (recovered: Levels, running: seq<Levels>)
    requires AllSorted(v) && forall e | e in edits :: e.Valid()
    ensures IsReplay(v, edits, recovered) <==> RecoveryAgrees(v, edits)
    ensures IsRun(v, edits, running)
    ensures (forall i | 0 <= i <= |edits| :: IsReplay(v, edits[..i], running[i])) <==> AgreesAlong(v, edits, |edits|)
    ensures AgreesAlong(v, edits, |edits|) ==> (recovered == running[|edits|] <==> RecoveryAgrees(v, edits))
  {
    hide Sorted, Ordered, Replay, AsSet, HistoryOf, AddEvents, Agrees, IsReplay;
    SortedOrdered(v);
    var snapshot := WriteSnapshot(v);
    NoFiles();
    recovered := ReplayAtOnce(EmptyLevels(), [snapshot] + edits);
    RecoveredIsReplay(v, snapshot, edits, recovered);
    running := ReplayOneByOne(v, edits);
    RunIsReplay(v, edits, running, |edits|);
    assert edits[..|edits|] == edits;
    if AgreesAlong(v, edits, |edits|) && RecoveryAgrees(v, edits) {
      ReplayUnique(v, edits, recovered, running[|edits|]);
    }
  }

  lemma SortedOrdered(v: Levels)
    requires AllSorted(v)
    ensures AllOrdered(v)
  {
    hide BySmallestKey;
    forall l, i, j | 0 <= l < NUM_LEVELS && 0 <= i < j < |v[l]| ensures !BySmallestKey(v[l][j], v[l][i]) {
      assert Sorted(v[l]);
      OrderFacts(v[l][i], v[l][j], v[l][i]);
    }
  }

  lemma NoFiles()
    ensures AsSet([]) == {} && Sorted([]) && Ordered([])
  {
  }

  lemma RecoveredIsReplay(v: Levels, snapshot: Edit, edits: seq<Edit>, recovered: Levels)
    requires |v| == NUM_LEVELS && snapshot.deleted == []
    requires forall l | 0 <= l < NUM_LEVELS :: AddEvents(snapshot.added, l) == Additions(v[l])
    requires AllSaved(EmptyLevels(), [snapshot] + edits, recovered)
    ensures IsReplay(v, edits, recovered) <==> RecoveryAgrees(v, edits)
  {
    hide Sorted, Replay, AsSet, HistoryOf, AddEvents, Agrees, AllSaved, Listed;
    var nothing, all := EmptyLevels(), [snapshot] + edits;
    NoFiles();
    AllSavedIsReplay(nothing, all, recovered);
    forall l | 0 <= l < NUM_LEVELS
      ensures HistoryOf(all, l) == Additions(v[l]) + HistoryOf(edits, l)
      ensures Replay(AsSet(nothing[l]), all, l) == Replay(AsSet(v[l]), edits, l)
    {
      SnapshotHistory(v[l], snapshot, edits, l);
      SnapshotReplay(v[l], snapshot, edits, l);
    }
    assert AllSaved(nothing, all, recovered) ==> |recovered| == NUM_LEVELS by { SavedLevels(nothing, all, recovered); }
  }

  lemma SavedLevels(base: Levels, edits: seq<Edit>, v: Levels)
    requires |base| == NUM_LEVELS
    ensures AllSaved(base, edits, v) ==> |v| == NUM_LEVELS
  {
  }
}
