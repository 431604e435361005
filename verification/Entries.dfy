/** Internal keys, entries, and the reference meaning of a log-structured store:
    what a read of a user key at a snapshot must return. */
module Entries {
  import opened Bytes

  // The user comparator is any total order on byte strings.  There are countably many byte
  // strings, so every such order embeds in the order of the reals: a user key stands for
  // its place in that order.
  type UserKey = real

  type Value = seq<byte>
  type SequenceNumber = nat

  const MAX_SEQUENCE: SequenceNumber := 0xFF_FFFF_FFFF_FFFF

  datatype Kind = Deletion | Put

  datatype InternalKey = InternalKey(user: UserKey, sequence: SequenceNumber, kind: Kind) {
    /** Sequence number and kind packed into one number. */
    function Tag(): nat {
      sequence * 256 + if kind.Put? then 1 else 0
    }
  }

  datatype Entry = Entry(key: InternalKey, value: Value)

  /** The order of the internal comparator: increasing user key, then decreasing tag. */
  predicate Precedes(a: InternalKey, b: InternalKey) {
    a.user < b.user || (a.user == b.user && a.Tag() > b.Tag())
  }

  /** Strictly sorted, no two entries sharing both user key and sequence number. */
  ghost predicate Sorted(es: seq<Entry>) {
    forall i, j | 0 <= i < j < |es| ::
      es[i].key.user < es[j].key.user
      || (es[i].key.user == es[j].key.user && es[i].key.sequence > es[j].key.sequence)
  }

  ghost predicate Distinct(es: set<Entry>) {
    forall a, b | a in es && b in es
      && a.key.user == b.key.user && a.key.sequence == b.key.sequence :: a == b
  }

  ghost function Elements(es: seq<Entry>): set<Entry> {
    set e | e in es
  }

  /** `e` is the newest entry for `k` that a reader at snapshot `s` may see. */
  ghost predicate Newest(es: set<Entry>, k: UserKey, s: SequenceNumber, e: Entry) {
    && e in es && e.key.user == k && e.key.sequence <= s
    && forall o | o in es && o.key.user == k && o.key.sequence <= s ::
         o.key.sequence <= e.key.sequence
  }

  datatype Answer = Missing | Deleted | Found(value: Value)

  function AnswerOf(e: Entry): Answer {
    if e.key.kind.Put? then Found(e.value) else Deleted
  }

  /** What one source (memtable, table or level) says about `k` at snapshot `s`. */
  ghost function Lookup(es: set<Entry>, k: UserKey, s: SequenceNumber): Answer {
    if e :| Newest(es, k, s, e) then AnswerOf(e) else Missing
  }

  /** What a reader is told: a deletion and no entry at all look the same. */
  function Visible(a: Answer): Option<Value> {
    if a.Found? then Some(a.value) else None
  }

  /** Sources are searched in order; the first that has an entry decides. */
  ghost function Search(sources: seq<set<Entry>>, k: UserKey, s: SequenceNumber): Answer {
    if sources == [] then Missing
    else
      var a := Lookup(sources[0], k, s);
      if a.Missing? then Search(sources[1..], k, s) else a
  }

  lemma NewestUnique(es: set<Entry>, k: UserKey, s: SequenceNumber, e: Entry)
    requires Distinct(es) && Newest(es, k, s, e)
    ensures Lookup(es, k, s) == AnswerOf(e)
  {
    var o :| Newest(es, k, s, o) && Lookup(es, k, s) == AnswerOf(o);
    assert Newest(es, k, s, o);
    assert o in es;
    assert o.key.sequence == e.key.sequence;
  }

  /** Some entry of `k` at or below `s` means there is a newest one. */
  lemma NewestExists(es: set<Entry>, k: UserKey, s: SequenceNumber, e: Entry)
    returns (n: Entry)
    requires e in es && e.key.user == k && e.key.sequence <= s
    ensures Newest(es, k, s, n)
    decreases s - e.key.sequence
  {
    if o :| o in es && o.key.user == k && e.key.sequence < o.key.sequence <= s {
      n := NewestExists(es, k, s, o);
    } else {
      n := e;
    }
  }

  lemma MissingMeansNone(es: set<Entry>, k: UserKey, s: SequenceNumber)
    ensures Lookup(es, k, s).Missing? <==>
            forall e | e in es :: !(e.key.user == k && e.key.sequence <= s)
  {
    if e :| e in es && e.key.user == k && e.key.sequence <= s {
      var n := NewestExists(es, k, s, e);
    }
  }

  lemma SortedDistinct(es: seq<Entry>)
    requires Sorted(es)
    ensures Distinct(Elements(es))
  {
  }
}
