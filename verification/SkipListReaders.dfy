/** One writer inserting into the skip list while readers search it without a lock: every load
    and every store is a step of its own. */
module SkipListReaders {
  import opened Bytes
  import opened SkipList

  /** What a reader is looking for. */
  datatype Goal = AtOrAfter(target: Key) | LastBefore(target: Key) | Last | Following(key: Key)

  /** Does the search move on to `y`, or go down a level? */
  predicate Passes(goal: Goal, y: Place) {
    match goal
    case AtOrAfter(target) => y.At? && y.key < target
    case LastBefore(target) => y.At? && y.key < target
    case Last => y.At?
    case Following(_) => false
  }

  /** `q` is the right answer for a list that holds exactly the keys `s`. */
  ghost predicate Answers(goal: Goal, s: set<Key>, q: Place) {
    match goal
    case AtOrAfter(target) => IsFirstFrom(s, target, q)
    case LastBefore(target) => IsPrev(s, target, q)
    case Last => On(s, q) && forall k | k in s :: q.At? && k <= q.key
    case Following(key) => IsNext(s, At(key), q)
  }

  /** `started` are the keys in the list when the search began, `seen` those when it ended. */
  datatype Reader =
    | Searching(goal: Goal, at: Place, level: nat, started: set<Key>)
    | Finished(goal: Goal, result: Place, started: set<Key>, seen: set<Key>)

  datatype Writer = Resting | Linking(key: Key, height: nat, prev: seq<Place>, level: nat, prepared: bool)

  datatype State = State(next: seq<map<Place, Place>>, levels: seq<set<Key>>, maxHeight: nat,
                         writer: Writer, readers: seq<Reader>)

  datatype Step =
    | StartInsert(key: Key, height: nat, prev: seq<Place>)
    | RaiseHeight
    | StoreOwn
    | StorePrev
    | EndInsert
    | StartSearch(goal: Goal)
    | StartNext(key: Key)
    | Load(which: nat)

  function Initial(): State {
    State(seq(MAX_HEIGHT, i => map[Head := Null]), seq(MAX_HEIGHT, i => {}), 1, Resting, [])
  }

  ghost predicate Enabled(s: State, step: Step)
    requires |s.next| == |s.levels| == MAX_HEIGHT
  {
    match step
    case StartInsert(key, height, prev) =>
      && s.writer.Resting? && key !in s.levels[0] && 1 <= height <= MAX_HEIGHT && |prev| == MAX_HEIGHT
      && forall i | 0 <= i < height :: IsPrev(s.levels[i], key, prev[i])
    case RaiseHeight => s.writer.Linking? && s.maxHeight < s.writer.height
    case StoreOwn =>
      && s.writer.Linking? && s.writer.height <= s.maxHeight && s.writer.level < s.writer.height && !s.writer.prepared
    case StorePrev => s.writer.Linking? && s.writer.prepared
    case EndInsert => s.writer.Linking? && s.writer.level == s.writer.height
    case StartSearch(goal) => !goal.Following?
    case StartNext(key) => key in s.levels[0]
    case Load(i) => i < |s.readers| && s.readers[i].Searching?
  }

  ghost predicate WriterOk(next: seq<map<Place, Place>>, levels: seq<set<Key>>, w: Writer)
    requires |next| == |levels| == MAX_HEIGHT
  {
    w.Linking? ==>
      && w.level <= w.height <= MAX_HEIGHT && |w.prev| == MAX_HEIGHT
      && (forall i | 0 <= i < w.level :: w.key in levels[i])
      && (forall i | w.level <= i < MAX_HEIGHT :: w.key !in levels[i])
      && (forall i | w.level <= i < w.height :: IsPrev(levels[i], w.key, w.prev[i]))
      && (w.prepared ==>
            && w.level < w.height && At(w.key) in next[w.level] && w.prev[w.level] in next[w.level]
            && next[w.level][At(w.key)] == next[w.level][w.prev[w.level]])
  }

  ghost predicate ReaderOk(levels: seq<set<Key>>, r: Reader)
    requires |levels| == MAX_HEIGHT
  {
    match r
    case Searching(goal, at, level, started) =>
      && level < MAX_HEIGHT && On(levels[level], at) && started <= levels[0]
      && (goal.AtOrAfter? || goal.LastBefore? ==> Before(at, goal.target))
      && (goal.Following? ==> level == 0 && at == At(goal.key))
    case Finished(goal, result, started, seen) =>
      started <= seen <= levels[0] && Answers(goal, seen, result)
  }

  ghost predicate Inv(s: State) {
    && |s.next| == |s.levels| == MAX_HEIGHT && AllLinked(s.next, s.levels) && 1 <= s.maxHeight <= MAX_HEIGHT
    && WriterOk(s.next, s.levels, s.writer)
    && forall i | 0 <= i < |s.readers| :: ReaderOk(s.levels, s.readers[i])
  }

  /** One load and the decision that follows from it. */
  function LoadStep(next: map<Place, Place>, keys: set<Key>, r: Reader): Reader
    requires r.Searching? && r.at in next
  {
    var y := next[r.at];
    if Passes(r.goal, y) then r.(at := y)
    else if r.level > 0 then r.(level := r.level - 1)
    else Finished(r.goal, if r.goal.AtOrAfter? || r.goal.Following? then y else r.at, r.started, keys)
  }

  ghost predicate After(s: State, step: Step, t: State)
    requires Inv(s) && Enabled(s, step)
  {
    match step
    case StartInsert(key, height, prev) => t == s.(writer := Linking(key, height, prev, 0, false))
    case RaiseHeight => t == s.(maxHeight := s.writer.height)
    case StoreOwn =>
      var w := s.writer;
      && w.prev[w.level] in s.next[w.level]
      && t == s.(next := Prepare(s.next, w.level, w.prev[w.level], w.key), writer := w.(prepared := true))
    case StorePrev =>
      var w := s.writer;
      t == s.(next := Publish(s.next, w.level, w.prev[w.level], w.key), levels := Joined(s.levels, w.level, w.key),
              writer := w.(level := w.level + 1, prepared := false))
    case EndInsert => t == s.(writer := Resting)
    case StartSearch(goal) =>
      t == s.(readers := s.readers + [Searching(goal, Head, s.maxHeight - 1, s.levels[0])])
    case StartNext(key) => t == s.(readers := s.readers + [Searching(Following(key), At(key), 0, s.levels[0])])
    case Load(i) =>
      var r := s.readers[i];
      && r.level < MAX_HEIGHT && r.at in s.next[r.level]
      && t == s.(readers := s.readers[i := LoadStep(s.next[r.level], s.levels[0], r)])
  }

  // ---- Readers and the writer are never stuck

  /** Every enabled step can be taken: the pointers it loads or stores are there. */
  lemma NeverStuck(s: State, step: Step) returns (t: State)
    requires Inv(s) && Enabled(s, step)
    ensures After(s, step, t)
  {
    hide Linked, AllLinked, IsNext, IsFirstFrom;
    match step
    case StartInsert(key, height, prev) => t := s.(writer := Linking(key, height, prev, 0, false));
    case RaiseHeight => t := s.(maxHeight := s.writer.height);
    case StoreOwn =>
      var w := s.writer;
      Follow(s.next, s.levels, w.level, w.prev[w.level]);
      t := s.(next := Prepare(s.next, w.level, w.prev[w.level], w.key), writer := w.(prepared := true));
    case StorePrev =>
      var w := s.writer;
      t := s.(next := Publish(s.next, w.level, w.prev[w.level], w.key), levels := Joined(s.levels, w.level, w.key),
              writer := w.(level := w.level + 1, prepared := false));
    case EndInsert => t := s.(writer := Resting);
    case StartSearch(goal) => t := s.(readers := s.readers + [Searching(goal, Head, s.maxHeight - 1, s.levels[0])]);
    case StartNext(key) => t := s.(readers := s.readers + [Searching(Following(key), At(key), 0, s.levels[0])]);
    case Load(i) =>
      var r := s.readers[i];
      assert ReaderOk(s.levels, r);
      Follow(s.next, s.levels, r.level, r.at);
      t := s.(readers := s.readers[i := LoadStep(s.next[r.level], s.levels[0], r)]);
  }

  /** The keys of a reader's level that are still ahead of it. */
  ghost function AheadOf(s: State, r: Reader): set<Key>
    requires Inv(s) && r.Searching? && r.level < MAX_HEIGHT
  {
    set k | k in s.levels[r.level] && Before(r.at, k)
  }

  /** A load ends the search, goes down a level, or leaves fewer keys of its level ahead than there
      were just before. */
  lemma LoadAdvances(s: State, i: nat, t: State)
    requires Inv(s) && Enabled(s, Load(i)) && After(s, Load(i), t) && Inv(t)
    ensures var r, r' := s.readers[i], t.readers[i];
      || r'.Finished?
      || r'.level < r.level
      || (r'.level == r.level && AheadOf(t, r') < AheadOf(s, r))
  {
    hide AllLinked;
    var r, r' := s.readers[i], t.readers[i];
    assert ReaderOk(s.levels, r);
    Follow(s.next, s.levels, r.level, r.at);
    if r'.Searching? && r'.level == r.level {
      var y := s.next[r.level][r.at];
      assert y.key in AheadOf(s, r) && y.key !in AheadOf(t, r');
    }
  }

  // ---- Steps keep the invariant

  lemma ReaderStays(levels: seq<set<Key>>, i: nat, x: Key, r: Reader)
    requires |levels| == MAX_HEIGHT && i < MAX_HEIGHT && ReaderOk(levels, r)
    ensures ReaderOk(Joined(levels, i, x), r)
  {
  }

  lemma KeepsOnStoreOwn(s: State, t: State)
    requires Inv(s) && Enabled(s, StoreOwn) && After(s, StoreOwn, t)
    ensures Inv(t)
  {
    hide Linked, AllLinked, ReaderOk;
    var w := s.writer;
    assert IsPrev(s.levels[w.level], w.key, w.prev[w.level]);
    PrepareKeeps(s.next, s.levels, w.level, w.prev[w.level], w.key);
    assert At(w.key) != w.prev[w.level];
  }

  lemma KeepsOnStorePrev(s: State, t: State)
    requires Inv(s) && Enabled(s, StorePrev) && After(s, StorePrev, t)
    ensures Inv(t)
  {
    hide Linked, AllLinked, ReaderOk, IsPrev;
    var w := s.writer;
    PublishKeeps(s.next, s.levels, w.level, w.prev[w.level], w.key);
    forall i | 0 <= i < |t.readers| ensures ReaderOk(t.levels, t.readers[i]) {
      ReaderStays(s.levels, w.level, w.key, s.readers[i]);
    }
  }

  lemma LoadKeeps(s: State, r: Reader)
    requires Inv(s) && ReaderOk(s.levels, r) && r.Searching? && r.at in s.next[r.level]
    ensures ReaderOk(s.levels, LoadStep(s.next[r.level], s.levels[0], r))
  {
    hide AllLinked;
    Follow(s.next, s.levels, r.level, r.at);
    if r.level > 0 {
      Descend(s.next, s.levels, r.level, r.at);
    }
  }

  lemma StepKeepsInv(s: State, step: Step, t: State)
    requires Inv(s) && Enabled(s, step) && After(s, step, t)
    ensures Inv(t)
  {
    hide AllLinked, IsPrev, IsNext, IsFirstFrom;
    if step.StoreOwn? {
      KeepsOnStoreOwn(s, t);
    } else if step.StorePrev? {
      KeepsOnStorePrev(s, t);
    } else if step.Load? {
      LoadKeeps(s, s.readers[step.which]);
    } else if step.StartInsert? {
      Absent(s, step.key);
    }
  }

  lemma Absent(s: State, key: Key)
    requires Inv(s) && key !in s.levels[0]
    ensures forall i | 0 <= i < MAX_HEIGHT :: key !in s.levels[i]
  {
    forall i | 0 <= i < MAX_HEIGHT ensures key !in s.levels[i] {
      assert s.levels[i] <= s.levels[0];
    }
  }

  /** A finished search gives the answer for the keys of one moment between its start and now. */
  ghost predicate Atomic(s: State, r: Reader) {
    r.Finished? ==>
      s.levels != [] && r.started <= r.seen <= s.levels[0] && Answers(r.goal, r.seen, r.result)
  }

  /** A run; the steps only have a meaning where the invariant holds, which is everywhere. */
  ghost predicate Run(states: seq<State>, steps: seq<Step>) {
    && |states| == |steps| + 1 && states[0] == Initial()
    && forall i | 0 <= i < |steps| ::
         Inv(states[i]) ==> Enabled(states[i], steps[i]) && After(states[i], steps[i], states[i + 1])
  }

  /** In every interleaving: a search that began with the keys `started` in the list and ended
      with `seen` in it gives the answer for `seen`, and misses none of `started`. */
  lemma {:induction false} SearchesAreAtomic(states: seq<State>, steps: seq<Step>)
    requires Run(states, steps)
    ensures forall i | 0 <= i < |states| :: Inv(states[i])
    ensures forall i, j | 0 <= i < |states| && 0 <= j < |states[i].readers| ::
      Atomic(states[i], states[i].readers[j])
  {
    hide AllLinked;
    InitialInv();
    for i := 0 to |steps|
      invariant forall j | 0 <= j <= i :: Inv(states[j])
    {
      hide Inv, Enabled, After;
      StepKeepsInv(states[i], steps[i], states[i + 1]);
    }
    forall i, j | 0 <= i < |states| && 0 <= j < |states[i].readers|
      ensures Atomic(states[i], states[i].readers[j])
    {
      assert Inv(states[i]);
      assert ReaderOk(states[i].levels, states[i].readers[j]);
    }
  }

  lemma InitialInv()
    ensures Inv(Initial())
  {
  }

  /** What a finished seek promises about the keys that were there from the start. */
  lemma NothingSkipped(r: Reader, k: Key)
    requires r.Finished? && r.goal.AtOrAfter? && r.started <= r.seen && Answers(r.goal, r.seen, r.result)
    requires k in r.started && k >= r.goal.target
    ensures r.result.At? && r.goal.target <= r.result.key <= k
  {
  }
}
