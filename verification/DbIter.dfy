/** The user-visible iterator: many internal entries per key become one, deletions and newer
    entries disappear, in both directions. */
module DbIter {
  import opened Bytes
  import opened Entries
  import opened Cursor
  import EntryCursor
  import MergingIterator

  // ---- The merging iterator as a position in the sorted entries of all its children

  function AtIndex(es: seq<Entry>, p: nat): Option<Entry> {
    if p < |es| then Some(es[p]) else None
  }

  lemma SortedKeys(es: seq<Entry>, i: nat, j: nat)
    requires Sorted(es) && i < |es| && j < |es|
    ensures i < j <==> Precedes(es[i].key, es[j].key)
  {
    if i == j {
      assert !Precedes(es[i].key, es[j].key);
    }
  }

  /** In a sorted list, the least entry within an upward-closed limit is the first one there. */
  lemma LeastAt(es: seq<Entry>, limit: EntryCursor.Limit, r: Option<Entry>, p: nat)
    requires Sorted(es) && EntryCursor.LeastIn(Elements(es), limit, r)
    requires p <= |es| && (forall i | 0 <= i < p :: !EntryCursor.In(limit, es[i].key))
    requires p < |es| ==> EntryCursor.In(limit, es[p].key)
    ensures r == AtIndex(es, p)
  {
    hide Precedes, EntryCursor.In;
    if p < |es| {
      assert es[p] in Elements(es);
    }
    if r.Some? {
      var i :| 0 <= i < |es| && es[i] == r.value;
      if p < |es| {
        SortedKeys(es, i, p);
      }
    }
  }

  lemma GreatestAt(es: seq<Entry>, limit: EntryCursor.Limit, r: Option<Entry>, p: nat)
    requires Sorted(es) && EntryCursor.GreatestIn(Elements(es), limit, r)
    requires p <= |es| && (forall i | p <= i < |es| :: !EntryCursor.In(limit, es[i].key))
    requires p > 0 ==> EntryCursor.In(limit, es[p - 1].key)
    ensures r == if p > 0 then Some(es[p - 1]) else None
  {
    hide Precedes, EntryCursor.In;
    if p > 0 {
      assert es[p - 1] in Elements(es);
    }
    if r.Some? {
      var i :| 0 <= i < |es| && es[i] == r.value;
      if p > 0 {
        SortedKeys(es, p - 1, i);
      }
    }
  }

  /** The smallest entry of a set, by internal key. */
  lemma {:induction false} SmallestOf(all: set<Entry>) returns (e: Entry)
    requires all != {} && Distinct(all)
    ensures e in all && forall o | o in all && o != e ::
      e.key.user < o.key.user || (e.key.user == o.key.user && e.key.sequence > o.key.sequence)
    decreases |all|
  {
    e :| e in all;
    if all != {e} {
      var rest := all - {e};
      var o := SmallestOf(rest);
      if o.key.user < e.key.user || (o.key.user == e.key.user && o.key.sequence > e.key.sequence) {
        e := o;
      }
    }
  }

  /** All entries in order. */
  lemma {:induction false} InOrder(all: set<Entry>) returns (es: seq<Entry>)
    requires Distinct(all)
    ensures Sorted(es) && Elements(es) == all
    decreases |all|
  {
    if all == {} {
      es := [];
    } else {
      var e := SmallestOf(all);
      var rest := InOrder(all - {e});
      es := [e] + rest;
      hide Distinct;
      BeforeAll(e, rest);
    }
  }

  lemma BeforeAll(e: Entry, rest: seq<Entry>)
    requires Sorted(rest)
    requires forall o | o in Elements(rest) ::
      e.key.user < o.key.user || (e.key.user == o.key.user && e.key.sequence > o.key.sequence)
    ensures Sorted([e] + rest) && Elements([e] + rest) == Elements(rest) + {e}
  {
    var es := [e] + rest;
    forall i, j | 0 <= i < j < |es|
      ensures es[i].key.user < es[j].key.user || (es[i].key.user == es[j].key.user && es[i].key.sequence > es[j].key.sequence)
    {
      assert es[j] == rest[j - 1] && rest[j - 1] in Elements(rest);
      assert i > 0 ==> es[i] == rest[i - 1];
    }
  }

  class InternalIterator {
    const merger: MergingIterator.MergingIterator
    ghost const entries: seq<Entry>    // of all children, in order
    ghost var pos: nat                 // |entries| when not valid

    ghost predicate WellFormed()
      reads this, merger
    {
      && pos <= |entries| && Sorted(entries) && Elements(entries) == merger.All()
      && merger.Inv() && merger.Cursor() == AtIndex(entries, pos)
    }

    constructor (merger: MergingIterator.MergingIterator)
      requires merger.Inv() && merger.Cursor() == None && Distinct(merger.All())
      ensures WellFormed() && this.merger == merger && pos == |entries|
    {
      ghost var es := InOrder(merger.All());
      this.merger, entries, pos := merger, es, |es|;
    }

    predicate Valid()
      reads this, merger
    {
      merger.Valid()
    }

    function Current(): Entry
      requires WellFormed() && Valid()
      reads this, merger
      ensures Current() == entries[pos]
    {
      merger.children[merger.current.value][merger.pos[merger.current.value]]
    }

    method Next()
      requires WellFormed() && Valid()
      modifies this`pos, merger
      ensures WellFormed() && pos == old(pos) + 1
    {
      hide Precedes, Sorted, MergingIterator.MergingIterator.Inv;
      ghost var here := entries[pos].key;
      merger.Next();
      NextAt(entries, pos, merger.Cursor());
      pos := pos + 1;
    }

    method Prev()
      requires WellFormed() && Valid()
      modifies this`pos, merger
      ensures WellFormed() && pos == if old(pos) == 0 then |entries| else old(pos) - 1
    {
      hide Precedes, Sorted, MergingIterator.MergingIterator.Inv;
      merger.Prev();
      PrevAt(entries, pos, merger.Cursor());
      pos := if pos == 0 then |entries| else pos - 1;
    }

    method SeekToFirst()
      requires WellFormed()
      modifies this`pos, merger
      ensures WellFormed() && pos == 0
    {
      hide Precedes, Sorted, MergingIterator.MergingIterator.Inv;
      merger.SeekToFirst();
      LeastAt(entries, EntryCursor.Any, merger.Cursor(), 0);
      pos := 0;
    }

    method SeekToLast()
      requires WellFormed()
      modifies this`pos, merger
      ensures WellFormed() && pos == if entries == [] then 0 else |entries| - 1
    {
      hide Precedes, Sorted, MergingIterator.MergingIterator.Inv;
      merger.SeekToLast();
      GreatestAt(entries, EntryCursor.Any, merger.Cursor(), |entries|);
      pos := if entries == [] then 0 else |entries| - 1;
    }

    /** First entry at or after the target. */
    method Seek(target: InternalKey)
      requires WellFormed()
      modifies this`pos, merger
      ensures WellFormed()
      ensures forall i | 0 <= i < pos :: Precedes(entries[i].key, target)
      ensures pos < |entries| ==> !Precedes(entries[pos].key, target)
    {
      hide Sorted, MergingIterator.MergingIterator.Inv;
      merger.Seek(target);
      ghost var p := FirstFrom(entries, target);
      LeastAt(entries, EntryCursor.NotBefore(target), merger.Cursor(), p);
      pos := p;
    }
  }

  lemma FirstFrom(es: seq<Entry>, target: InternalKey) returns (p: nat)
    ensures p <= |es| && (forall i | 0 <= i < p :: Precedes(es[i].key, target))
    ensures p < |es| ==> !Precedes(es[p].key, target)
  {
    p := 0;
    while p < |es| && Precedes(es[p].key, target)
      invariant p <= |es| && forall i | 0 <= i < p :: Precedes(es[i].key, target)
    {
      p := p + 1;
    }
  }

  lemma NextAt(es: seq<Entry>, p: nat, r: Option<Entry>)
    requires Sorted(es) && p < |es| && EntryCursor.LeastIn(Elements(es), EntryCursor.Beyond(es[p].key), r)
    ensures r == AtIndex(es, p + 1)
  {
    hide Precedes, Sorted;
    forall i | 0 <= i < |es| ensures EntryCursor.In(EntryCursor.Beyond(es[p].key), es[i].key) <==> p < i {
      SortedKeys(es, p, i);
    }
    LeastAt(es, EntryCursor.Beyond(es[p].key), r, p + 1);
  }

  lemma PrevAt(es: seq<Entry>, p: nat, r: Option<Entry>)
    requires Sorted(es) && p < |es| && EntryCursor.GreatestIn(Elements(es), EntryCursor.Below(es[p].key), r)
    ensures r == if p > 0 then Some(es[p - 1]) else None
  {
    hide Precedes, Sorted;
    forall i | 0 <= i < |es| ensures EntryCursor.In(EntryCursor.Below(es[p].key), es[i].key) <==> i < p {
      SortedKeys(es, i, p);
    }
    GreatestAt(es, EntryCursor.Below(es[p].key), r, p);
  }

  /** Entry `i` is the one a reader at snapshot `s` sees for its user key. */
  ghost predicate Shown(es: seq<Entry>, s: SequenceNumber, i: nat)
    requires i < |es|
  {
    && es[i].key.sequence <= s && es[i].key.kind.Put?
    && forall j | 0 <= j < i && es[j].key.user == es[i].key.user :: es[j].key.sequence > s
  }

  /** The shown entries are exactly the reader's view. */
  lemma ShownIsView(es: seq<Entry>, s: SequenceNumber, i: nat)
    requires Sorted(es) && i < |es| && Shown(es, s, i)
    ensures es[i].key.user in View(Elements(es), s)
    ensures View(Elements(es), s)[es[i].key.user] == es[i].value
  {
    var all := Elements(es);
    assert es[i] in all;
    forall o | o in all && o.key.user == es[i].key.user && o.key.sequence <= s
      ensures o.key.sequence <= es[i].key.sequence
    {
      var j :| 0 <= j < |es| && es[j] == o;
    }
    SortedDistinct(es);
    NewestUnique(all, es[i].key.user, s, es[i]);
  }

  lemma ViewIsShown(es: seq<Entry>, s: SequenceNumber, k: UserKey) returns (i: nat)
    requires Sorted(es) && k in View(Elements(es), s)
    ensures i < |es| && Shown(es, s, i) && es[i].key.user == k
  {
    var all := Elements(es);
    var e :| Newest(all, k, s, e) && Lookup(all, k, s) == AnswerOf(e);
    assert Newest(all, k, s, e);
    i :| 0 <= i < |es| && es[i] == e;
    assert forall j | 0 <= j < i :: es[j] in all;
  }

  /** The first shown entry within the bound sits at index `to`; there is none if `to` is past the end. */
  ghost predicate FirstShown(es: seq<Entry>, s: SequenceNumber, b: Bound, to: nat) {
    && to <= |es|
    && (forall i | 0 <= i < to && Within(b, es[i].key.user) :: !Shown(es, s, i))
    && (to < |es| ==> Shown(es, s, to) && Within(b, es[to].key.user))
  }

  /** The last shown entry within the bound sits at index `to`; there is none if `to` is -1. */
  ghost predicate LastShown(es: seq<Entry>, s: SequenceNumber, b: Bound, to: int) {
    && -1 <= to < |es|
    && (forall i | to < i < |es| && Within(b, es[i].key.user) :: !Shown(es, s, i))
    && (to >= 0 ==> Shown(es, s, to) && Within(b, es[to].key.user))
  }

  lemma FirstIsLeast(es: seq<Entry>, s: SequenceNumber, b: Bound, to: nat)
    requires Sorted(es) && FirstShown(es, s, b, to)
    ensures IsLeast(View(Elements(es), s), b, if to < |es| then Some(es[to].key.user) else None)
  {
    hide View;
    var view := View(Elements(es), s);
    forall k | k in view && Within(b, k) ensures to < |es| && es[to].key.user <= k {
      var i := ViewIsShown(es, s, k);
    }
    if to < |es| {
      ShownIsView(es, s, to);
    }
  }

  lemma LastIsGreatest(es: seq<Entry>, s: SequenceNumber, b: Bound, to: int)
    requires Sorted(es) && LastShown(es, s, b, to)
    ensures IsGreatest(View(Elements(es), s), b, if to >= 0 then Some(es[to].key.user) else None)
  {
    hide View;
    var view := View(Elements(es), s);
    forall k | k in view && Within(b, k) ensures to >= 0 && k <= es[to].key.user {
      var i := ViewIsShown(es, s, k);
    }
    if to >= 0 {
      ShownIsView(es, s, to);
    }
  }

  /** May a forward scan for the bound `b` start at index `p`?  Every visible entry before `p` is
      out of bounds, every one from `p` on is within it, or at the key to skip. */
  ghost predicate ForwardFrom(es: seq<Entry>, s: SequenceNumber, b: Bound, p: nat, skipping: bool,
                              skip: Option<UserKey>) {
    && p <= |es| && skipping == b.After? && !b.Before? && (skipping ==> skip == Some(b.key))
    && (forall i | 0 <= i < p && es[i].key.sequence <= s :: !Within(b, es[i].key.user))
    && forall i | p <= i < |es| && es[i].key.sequence <= s ::
         if skipping then es[i].key.user >= b.key else Within(b, es[i].key.user)
  }

  /** A forward scan has come from `start` to `p` without finding what it looks for. */
  ghost predicate Scanning(es: seq<Entry>, s: SequenceNumber, b: Bound, start: nat, p: nat, skipping: bool,
                           skip: Option<UserKey>) {
    && start <= p <= |es| && (skipping ==> skip.Some?) && (b.After? ==> skipping && b.key <= skip.value)
    && (forall i | start <= i < p && es[i].key.sequence <= s :: skipping && es[i].key.user <= skip.value)
    && (forall i | start <= i < p && Within(b, es[i].key.user) :: !Shown(es, s, i))
    && (skipping && !(b.After? && b.key == skip.value) ==>
          exists d | start <= d < p :: es[d].key.user == skip.value && es[d].key.sequence <= s)
  }

  lemma ScanStarts(es: seq<Entry>, s: SequenceNumber, b: Bound, start: nat, skipping: bool, skip: Option<UserKey>)
    requires ForwardFrom(es, s, b, start, skipping, skip)
    ensures Scanning(es, s, b, start, start, skipping, skip)
  {
  }

  lemma ScanOver(es: seq<Entry>, s: SequenceNumber, b: Bound, start: nat, p: nat, skipping: bool,
                 skip: Option<UserKey>, skipping0: bool, skip0: Option<UserKey>,
                 skipping': bool, skip': Option<UserKey>)
    requires Sorted(es) && ForwardFrom(es, s, b, start, skipping0, skip0)
    requires Scanning(es, s, b, start, p, skipping, skip) && p < |es|
    requires
      if es[p].key.sequence > s then skipping' == skipping && skip' == skip
      else if es[p].key.kind.Deletion? then skipping' && skip' == Some(es[p].key.user)
      else skipping && es[p].key.user <= skip.value && skipping' == skipping && skip' == skip
    ensures Scanning(es, s, b, start, p + 1, skipping', skip')
  {
  }

  lemma ScanLands(es: seq<Entry>, s: SequenceNumber, b: Bound, start: nat, p: nat, skipping: bool,
                  skip: Option<UserKey>, skipping0: bool, skip0: Option<UserKey>)
    requires Sorted(es) && ForwardFrom(es, s, b, start, skipping0, skip0)
    requires Scanning(es, s, b, start, p, skipping, skip)
    requires p < |es| ==>
      && es[p].key.sequence <= s && es[p].key.kind.Put?
      && !(skipping && es[p].key.user <= skip.value)
    ensures FirstShown(es, s, b, p)
  {
  }

  /** May a backward scan for the bound `b` start at index `p` (-1: before the first entry)? */
  ghost predicate BackwardFrom(es: seq<Entry>, s: SequenceNumber, b: Bound, p: int) {
    && -1 <= p < |es| && (b.Unbounded? || b.Before?)
    && (forall i | 0 <= i <= p :: Within(b, es[i].key.user))
    && forall i | p < i < |es| && es[i].key.sequence <= s :: !Within(b, es[i].key.user)
  }

  /** A backward scan has come from `start` down to `p`; `last` is the visible entry met last. */
  ghost predicate Retreating(es: seq<Entry>, s: SequenceNumber, start: int, p: int, last: Option<nat>) {
    && -1 <= p <= start < |es|
    && (last.Some? ==> p < last.value <= start && es[last.value].key.sequence <= s)
    && (forall i | p < i <= start && es[i].key.sequence <= s :: last.Some? && last.value <= i)
    && forall i | p < i <= start && Shown(es, s, i) :: last == Some(i)
  }

  ghost predicate Holding(es: seq<Entry>, last: Option<nat>) {
    last.Some? && last.value < |es| && es[last.value].key.kind.Put?
  }

  lemma RetreatStarts(es: seq<Entry>, s: SequenceNumber, b: Bound, start: int)
    requires BackwardFrom(es, s, b, start)
    ensures Retreating(es, s, start, start, None)
  {
  }

  lemma RetreatOver(es: seq<Entry>, s: SequenceNumber, start: int, p: nat, last: Option<nat>)
    requires Sorted(es) && Retreating(es, s, start, p, last)
    requires Holding(es, last) && es[p].key.sequence <= s ==> es[p].key.user >= es[last.value].key.user
    ensures Retreating(es, s, start, p - 1, if es[p].key.sequence <= s then Some(p) else last)
  {
  }

  lemma RetreatEnds(es: seq<Entry>, s: SequenceNumber, b: Bound, start: int, p: int, last: Option<nat>)
    requires Sorted(es) && BackwardFrom(es, s, b, start) && Retreating(es, s, start, p, last)
    requires p >= 0 ==> Holding(es, last) && es[p].key.user < es[last.value].key.user
    ensures LastShown(es, s, b, if Holding(es, last) then last.value else -1)
    ensures Holding(es, last) ==>
      && p < last.value && Shown(es, s, last.value)
      && forall i | p < i < last.value :: es[i].key.sequence > s
  {
  }

  datatype Direction = Forward | Reverse

  class DBIter {
    const iter: InternalIterator
    const sequence: SequenceNumber
    var savedKey: Option<UserKey>     // None when cleared
    var savedValue: Value
    var direction: Direction
    var valid: bool
    ghost var at: int                 // index of the entry that key() and value() come from

    ghost function Entries(): seq<Entry>
    {
      iter.entries
    }

    /** Index the internal iterator stands at, -1 when it has run off the front. */
    ghost function Place(): int
      reads iter, iter.merger
    {
      if iter.Valid() then iter.pos else -1
    }

    /** Forward, the internal iterator is at the current entry; in reverse, at the last visible
        entry of a smaller key, with only invisible entries in between. */
    ghost predicate Inv()
      reads this, iter, iter.merger
    {
      && iter.WellFormed()
      && (valid ==>
            && 0 <= at < |Entries()| && Shown(Entries(), sequence, at)
            && (direction.Forward? ==> iter.pos == at)
            && (direction.Reverse? ==>
                  && savedKey == Some(Entries()[at].key.user) && savedValue == Entries()[at].value
                  && Place() < at && (Place() >= 0 ==> Entries()[Place()].key.user < Entries()[at].key.user)
                  && forall i | Place() < i < at :: Entries()[i].key.sequence > sequence))
    }

    ghost function TheView(): map<UserKey, Value> {
      View(Elements(Entries()), sequence)
    }

    /** Position of the cursor that this iterator stands for. */
    ghost function TheCursor(): Option<UserKey>
      requires Inv()
      reads this, iter, iter.merger
    {
      if valid then Some(Entries()[at].key.user) else None
    }

    constructor (iter: InternalIterator, sequence: SequenceNumber)
      requires iter.WellFormed()
      ensures Inv() && TheCursor() == None && this.iter == iter && this.sequence == sequence
    {
      this.iter, this.sequence := iter, sequence;
      savedKey, savedValue, direction, valid, at := None, [], Forward, false, -1;
    }

    method Key() returns (k: UserKey)
      requires Inv() && valid
      ensures TheCursor() == Some(k) && k in TheView()
    {
      ShownIsView(Entries(), sequence, at);
      k := if direction.Forward? then iter.Current().key.user else savedKey.value;
    }

    method GetValue() returns (v: Value)
      requires Inv() && valid
      ensures TheCursor().value in TheView() && v == TheView()[TheCursor().value]
    {
      ShownIsView(Entries(), sequence, at);
      v := if direction.Forward? then iter.Current().value else savedValue;
    }

    method FindNextUserEntry(skipping0: bool, ghost b: Bound)
      requires iter.WellFormed() && iter.Valid() && direction.Forward?
      requires ForwardFrom(Entries(), sequence, b, iter.pos, skipping0, savedKey)
      modifies this, iter`pos, iter.merger
      ensures Inv() && direction.Forward?
      ensures FirstShown(Entries(), sequence, b, if valid then at else |Entries()|)
    {
      hide Sorted, FirstShown, View, ForwardFrom;
      var skipping, skip := skipping0, savedKey;
      ghost var start, skip0 := iter.pos, savedKey;
      ScanStarts(Entries(), sequence, b, start, skipping, skip);
      while iter.Valid()
        invariant iter.WellFormed() && direction.Forward?
        invariant Scanning(Entries(), sequence, b, start, iter.pos, skipping, skip)
        decreases |Entries()| - iter.pos
      {
        var ikey := iter.Current().key;
        ghost var wasSkipping, was := skipping, skip;
        if ikey.sequence <= sequence {
          match ikey.kind
          case Deletion =>
            skip, skipping := Some(ikey.user), true;
          case Put =>
            if !(skipping && ikey.user <= skip.value) {
              ScanLands(Entries(), sequence, b, start, iter.pos, skipping, skip, skipping0, skip0);
              valid, savedKey, at := true, None, iter.pos;
              return;
            }
        }
        ScanOver(Entries(), sequence, b, start, iter.pos, wasSkipping, was, skipping0, skip0, skipping, skip);
        iter.Next();
      }
      ScanLands(Entries(), sequence, b, start, iter.pos, skipping, skip, skipping0, skip0);
      savedKey, valid := None, false;
    }

    method FindPrevUserEntry(ghost b: Bound)
      requires iter.WellFormed() && direction.Reverse? && BackwardFrom(Entries(), sequence, b, Place())
      modifies this, iter`pos, iter.merger
      ensures Inv()
      ensures LastShown(Entries(), sequence, b, if valid then at else -1)
    {
      hide Sorted, Shown, Retreating, BackwardFrom, LastShown, View;
      var valueType := Deletion;
      ghost var start, last: Option<nat> := Place(), None;
      RetreatStarts(Entries(), sequence, b, start);
      while iter.Valid()
        invariant iter.WellFormed() && direction.Reverse?
        invariant Retreating(Entries(), sequence, start, Place(), last)
        invariant valueType.Put? <==> Holding(Entries(), last)
        invariant valueType.Put? ==>
          savedKey == Some(Entries()[last.value].key.user) && savedValue == Entries()[last.value].value
        decreases Place()
      {
        var ikey := iter.Current().key;
        if ikey.sequence <= sequence {
          if valueType.Put? && ikey.user < savedKey.value {
            break;
          }
          valueType := ikey.kind;
          if valueType.Deletion? {
            savedKey, savedValue := None, [];
          } else {
            savedKey, savedValue := Some(ikey.user), iter.Current().value;
          }
        }
        RetreatOver(Entries(), sequence, start, iter.pos, last);
        last := if ikey.sequence <= sequence then Some(iter.pos) else last;
        iter.Prev();
      }
      RetreatEnds(Entries(), sequence, b, start, Place(), last);
      if valueType.Deletion? {
        valid, savedKey, savedValue, direction := false, None, [], Forward;
      } else {
        valid, at := true, last.value;
      }
    }

    method Next()
      requires Inv() && valid
      modifies this, iter`pos, iter.merger
      ensures Inv() && IsLeast(TheView(), After(old(TheCursor()).value), TheCursor())
    {
      ghost var b := After(TheCursor().value);
      if direction.Reverse? {
        direction := Forward;
        if !iter.Valid() {
          iter.SeekToFirst();
        } else {
          iter.Next();
        }
        // The current key's own entries lie ahead, so the iterator cannot have run off the end.
        assert iter.Valid();
      } else {
        savedKey := Some(iter.Current().key.user);
      }
      FindNextUserEntry(true, b);
      FirstIsLeast(Entries(), sequence, b, if valid then at else |Entries()|);
    }

    method Prev()
      requires Inv() && valid
      modifies this, iter`pos, iter.merger
      ensures Inv() && IsGreatest(TheView(), Before(old(TheCursor()).value), TheCursor())
    {
      ghost var b := Before(TheCursor().value);
      if direction.Forward? {
        savedKey := Some(iter.Current().key.user);
        LeaveKey(at, b);
        if !iter.Valid() {
          LastIsGreatest(Entries(), sequence, b, -1);
          valid, savedKey, savedValue := false, None, [];
          return;
        }
        direction := Reverse;
      }
      FindPrevUserEntry(b);
      LastIsGreatest(Entries(), sequence, b, if valid then at else -1);
    }

    /** Moves back from the current entry `here` until the key changes. */
    method LeaveKey(ghost here: nat, ghost b: Bound)
      requires iter.WellFormed() && iter.Valid() && iter.pos == here
      requires savedKey == Some(Entries()[here].key.user) && b == Before(savedKey.value)
      modifies iter`pos, iter.merger
      ensures iter.WellFormed() && BackwardFrom(Entries(), sequence, b, Place())
    {
      while true
        invariant iter.WellFormed() && iter.Valid() && iter.pos <= here
        invariant Entries()[iter.pos].key.user == savedKey.value
        decreases iter.pos
      {
        iter.Prev();
        if !iter.Valid() || iter.Current().key.user < savedKey.value {
          break;
        }
      }
    }

    method Seek(target: UserKey)
      requires Inv()
      modifies this, iter`pos, iter.merger
      ensures Inv() && IsLeast(TheView(), From(target), TheCursor())
    {
      direction, savedValue, savedKey := Forward, [], None;
      iter.Seek(InternalKey(target, sequence, Put));
      if iter.Valid() {
        FindNextUserEntry(false, From(target));
      } else {
        valid := false;
      }
      FirstIsLeast(Entries(), sequence, From(target), if valid then at else |Entries()|);
    }

    method SeekToFirst()
      requires Inv()
      modifies this, iter`pos, iter.merger
      ensures Inv() && IsLeast(TheView(), Unbounded, TheCursor())
    {
      direction, savedValue := Forward, [];
      iter.SeekToFirst();
      if iter.Valid() {
        FindNextUserEntry(false, Unbounded);
      } else {
        valid := false;
      }
      FirstIsLeast(Entries(), sequence, Unbounded, if valid then at else |Entries()|);
    }

    method SeekToLast()
      requires Inv()
      modifies this, iter`pos, iter.merger
      ensures Inv() && IsGreatest(TheView(), Unbounded, TheCursor())
    {
      direction, savedValue := Reverse, [];
      iter.SeekToLast();
      FindPrevUserEntry(Unbounded);
      LastIsGreatest(Entries(), sequence, Unbounded, if valid then at else -1);
    }

    /** One client step; Next and Prev may only be called on a valid iterator. */
    method Step(op: Op)
      requires Inv()
      modifies this, iter`pos, iter.merger
      ensures Inv() && Moves(TheView(), old(TheCursor()), op, TheCursor())
    {
      hide Inv, View, IsLeast, IsGreatest;
      match op
      case SeekToFirst => SeekToFirst();
      case SeekToLast => SeekToLast();
      case Seek(target) => Seek(target);
      case Next => if valid { Next(); }
      case Prev => if valid { Prev(); }
    }

    method Read() returns (shown: Option<(UserKey, Value)>)
      requires Inv()
      ensures shown == ReadAt(TheView(), TheCursor())
    {
      if valid {
        var k := Key();
        var v := GetValue();
        shown := Some((k, v));
      } else {
        shown := None;
      }
    }

    /** Any run of client calls shows, step by step, what the reference cursor on the view shows. */
    method Run(ops: seq<Op>) returns (shown: seq<Option<(UserKey, Value)>>, ghost cursors: seq<Option<UserKey>>)
      requires Inv() && TheCursor() == None
      modifies this, iter`pos, iter.merger
      ensures Runs(TheView(), ops, cursors)
      ensures |shown| == |ops| && forall i | 0 <= i < |ops| :: shown[i] == ReadAt(TheView(), cursors[i + 1])
    {
      hide Inv, View, Moves;
      shown, cursors := [], [None];
      for i := 0 to |ops|
        invariant Inv() && |shown| == i && |cursors| == i + 1
        invariant Runs(TheView(), ops[..i], cursors) && cursors[i] == TheCursor()
        invariant forall j | 0 <= j < i :: shown[j] == ReadAt(TheView(), cursors[j + 1])
      {
        Step(ops[i]);
        RunsOn(TheView(), ops, i, cursors, TheCursor());
        cursors := cursors + [TheCursor()];
        var now := Read();
        shown := shown + [now];
      }
      assert ops[..|ops|] == ops;
    }
  }

  /** The whole iterator: over the merged memtables and tables, any run of client calls shows what the
      reference cursor on the reader's view of all their entries shows. */
  method Iterate(children: seq<seq<Entry>>, sequence: SequenceNumber, ops: seq<Op>)
    returns (shown: seq<Option<(UserKey, Value)>>, ghost cursors: seq<Option<UserKey>>)
    requires MergingIterator.Mergeable(children) && Distinct(EntryCursor.Union(children))
    ensures var view := View(EntryCursor.Union(children), sequence);
      && Runs(view, ops, cursors) && |shown| == |ops|
      && forall i | 0 <= i < |ops| :: shown[i] == ReadAt(view, cursors[i + 1])
  {
    hide MergingIterator.Mergeable, EntryCursor.Union, Distinct, View, Moves;
    var merger := new MergingIterator.MergingIterator(children);
    var internal := new InternalIterator(merger);
    var iter := new DBIter(internal, sequence);
    shown, cursors := iter.Run(ops);
  }
}
