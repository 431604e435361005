/** Version edits as bytes: tagged fields, written and read back. */
module VersionEdit {
  import opened Bytes
  import opened Coding
  import opened Comparator
  import opened EditHistory

  const TWO64: nat := 0x1_0000_0000_0000_0000

  // ---- 64-bit numbers and length-prefixed strings

  function Power128(i: nat): (p: nat)
    ensures p > 0
  {
    if i == 0 then 1 else 0x80 * Power128(i - 1)
  }

  /** At most ten bytes of seven bits, kept to 64 bits, and what follows. */
  function ReadLong(s: seq<byte>, index: nat): Option<(nat, seq<byte>)>
    requires index <= 10
    decreases 10 - index
  {
    if index == 10 || s == [] then None
    else
      var low := s[0] % 0x80 * Power128(index) % TWO64;
      if s[0] < 0x80 then Some((low, s[1..]))
      else match ReadLong(s[1..], index + 1)
        case None => None
        case Some(r) => Some(((low + r.0) % TWO64, r.1))
  }

  lemma LongDigit(n: nat, m: nat, next: nat)
    requires 0 < m && n * m < TWO64 && next == 0x80 * m
    ensures n % 0x80 * m < TWO64 && n / 0x80 * next < TWO64
    ensures n % 0x80 * m + n / 0x80 * next == n * m
  {
    var d, q := n % 0x80, n / 0x80;
    assert n * m == (d + 0x80 * q) * m == d * m + q * (0x80 * m);
    assert d * m >= 0 && q * (0x80 * m) >= 0;
  }

  lemma VarintDigit(n: nat, rest: seq<byte>)
    ensures var s := Varint(n) + rest;
      if n < 0x80 then s == [n] + rest
      else s != [] && s[0] == n % 0x80 + 0x80 && s[0] % 0x80 == n % 0x80 && s[1..] == Varint(n / 0x80) + rest
  {
    if n >= 0x80 {
      assert Varint(n) == [n % 0x80 + 0x80] + Varint(n / 0x80);
      HighBit(n % 0x80);
      hide Varint;
      FirstAndRest(n % 0x80 + 0x80, Varint(n / 0x80), rest);
    }
  }

  lemma HighBit(d: nat)
    requires d < 0x80
    ensures (d + 0x80) % 0x80 == d
  {
  }

  lemma FirstAndRest(first: byte, middle: seq<byte>, rest: seq<byte>)
    ensures var s := [first] + middle + rest;
      s != [] && s[0] == first && s[1..] == middle + rest
  {
  }

  lemma LongNeedsNoMore(n: nat)
    requires n * Power128(9) < TWO64
    ensures n < 0x80
  {
    assert Power128(9) == 0x8000_0000_0000_0000 by { assert Power128(5) == 0x8_0000_0000; }
  }

  lemma {:induction false} LongRoundTrip(n: nat, index: nat, rest: seq<byte>)
    requires index <= 9 && n * Power128(index) < TWO64
    ensures ReadLong(Varint(n) + rest, index) == Some((n * Power128(index), rest))
    decreases 10 - index
  {
    hide ReadLong, Power128, Varint;
    PowerNext(index);
    LongDigit(n, Power128(index), Power128(index + 1));
    VarintDigit(n, rest);
    if n < 0x80 {
      LongLast(n, index, rest);
    } else {
      if index == 9 {
        LongNeedsNoMore(n);
        assert false;
      }
      LongRoundTrip(n / 0x80, index + 1, rest);
      LongUnfolds(Varint(n) + rest, index, n % 0x80 * Power128(index));
      LongStep(Varint(n) + rest, index, rest, n % 0x80 * Power128(index), n / 0x80 * Power128(index + 1));
    }
  }

  lemma PowerNext(index: nat)
    ensures Power128(index + 1) == 0x80 * Power128(index)
  {
  }

  lemma LongLast(n: byte, index: nat, rest: seq<byte>)
    requires n < 0x80 && index < 10 && n * Power128(index) < TWO64
    ensures ReadLong([n] + rest, index) == Some((n * Power128(index), rest))
  {
    hide Power128;
    assert ([n] + rest)[1..] == rest;
  }

  lemma LongStep(s: seq<byte>, index: nat, rest: seq<byte>, low: nat, high: nat)
    requires index < 10 && s != [] && low + high < TWO64
    requires ReadLong(s, index) ==
      match ReadLong(s[1..], index + 1)
      case None => None
      case Some(r) => Some(((low + r.0) % TWO64, r.1))
    requires ReadLong(s[1..], index + 1) == Some((high, rest))
    ensures ReadLong(s, index) == Some((low + high, rest))
  {
    hide ReadLong;
    Below64(low + high);
  }

  lemma Below64(n: nat)
    requires n < TWO64
    ensures n % TWO64 == n
  {
  }

  lemma LongUnfolds(s: seq<byte>, index: nat, low: nat)
    requires index < 10 && s != [] && s[0] >= 0x80 && low == s[0] % 0x80 * Power128(index) && low < TWO64
    ensures ReadLong(s, index) ==
      match ReadLong(s[1..], index + 1)
      case None => None
      case Some(r) => Some(((low + r.0) % TWO64, r.1))
  {
    hide Power128;
    Below64(low);
  }

  function Slice(s: seq<byte>): seq<byte> {
    Varint(|s|) + s
  }

  function ReadSlice(s: seq<byte>): Option<(seq<byte>, seq<byte>)> {
    match ReadLength(s, 0)
    case None => None
    case Some((n, rest)) => if n <= |rest| then Some((rest[..n], rest[n..])) else None
  }

  lemma SliceRoundTrip(s: seq<byte>, rest: seq<byte>)
    requires |s| < 0x1_0000_0000
    ensures ReadSlice(Slice(s) + rest) == Some((s, rest))
  {
    hide Varint, ReadLength;
    LengthRoundTrip(|s|, 0, s + rest);
    assert Slice(s) + rest == Varint(|s|) + (s + rest) && Shift(0) == 1;
    assert (s + rest)[..|s|] == s && (s + rest)[|s|..] == rest;
  }

  lemma SmallRoundTrip(n: nat, rest: seq<byte>)
    requires n < 0x1_0000_0000
    ensures ReadLength(Varint(n) + rest, 0) == Some((n, rest))
  {
    LengthRoundTrip(n, 0, rest);
  }

  lemma BigRoundTrip(n: nat, rest: seq<byte>)
    requires n < TWO64
    ensures ReadLong(Varint(n) + rest, 0) == Some((n, rest))
  {
    hide ReadLong, Varint;
    assert Power128(0) == 1;
    LongRoundTrip(n, 0, rest);
  }

  // ---- Fields

  datatype Field =
    | ComparatorName(name: seq<byte>)
    | LogNumber(number: nat)
    | PrevLogNumber(number: nat)
    | NextFileNumber(number: nat)
    | LastSequence(number: nat)
    | CompactPointer(level: nat, key: seq<byte>)
    | DeletedFile(level: nat, number: nat)
    | NewFile(level: nat, file: File)
  {
    predicate Fits() {
      match this
      case ComparatorName(name) => |name| < 0x1_0000_0000
      case CompactPointer(level, key) => level < NUM_LEVELS && |key| < 0x1_0000_0000
      case DeletedFile(level, number) => level < NUM_LEVELS && number < TWO64
      case NewFile(level, f) =>
        && level < NUM_LEVELS && f.number < TWO64 && f.size < TWO64
        && |f.smallest| < 0x1_0000_0000 && |f.largest| < 0x1_0000_0000
      case _ => number < TWO64
    }

    function Bytes(): seq<byte> {
      match this
      case ComparatorName(name) => Varint(1) + Slice(name)
      case LogNumber(n) => Varint(2) + Varint(n)
      case NextFileNumber(n) => Varint(3) + Varint(n)
      case LastSequence(n) => Varint(4) + Varint(n)
      case CompactPointer(level, key) => Varint(5) + (Varint(level) + Slice(key))
      case DeletedFile(level, n) => Varint(6) + (Varint(level) + Varint(n))
      case NewFile(level, f) =>
        Varint(7) + (Varint(level) + (Varint(f.number) + (Varint(f.size) + (Slice(f.smallest) + Slice(f.largest)))))
      case PrevLogNumber(n) => Varint(9) + Varint(n)
    }
  }

  function ReadLevel(s: seq<byte>): Option<(nat, seq<byte>)> {
    match ReadLength(s, 0)
    case None => None
    case Some((level, rest)) => if level < NUM_LEVELS then Some((level, rest)) else None
  }

  /** A field's contents after its tag. */
  function ReadField(tag: nat, s: seq<byte>): Option<(Field, seq<byte>)> {
    if tag == 1 then
      match ReadSlice(s) case None => None case Some((name, rest)) => Some((ComparatorName(name), rest))
    else if tag in {2, 3, 4, 9} then
      match ReadLong(s, 0)
      case None => None
      case Some((n, rest)) =>
        Some((if tag == 2 then LogNumber(n) else if tag == 3 then NextFileNumber(n)
              else if tag == 4 then LastSequence(n) else PrevLogNumber(n), rest))
    else if tag == 5 then
      match ReadLevel(s)
      case None => None
      case Some((level, s1)) => match ReadSlice(s1)
        case None => None
        case Some((key, rest)) => Some((CompactPointer(level, key), rest))
    else if tag == 6 then
      match ReadLevel(s)
      case None => None
      case Some((level, s1)) => match ReadLong(s1, 0)
        case None => None
        case Some((n, rest)) => Some((DeletedFile(level, n), rest))
    else if tag == 7 then ReadNewFile(s)
    else None
  }

  function ReadNewFile(s: seq<byte>): Option<(Field, seq<byte>)> {
    match ReadLevel(s)
    case None => None
    case Some((level, s1)) => match ReadLong(s1, 0)
      case None => None
      case Some((number, s2)) => match ReadLong(s2, 0)
        case None => None
        case Some((size, s3)) => match ReadSlice(s3)
          case None => None
          case Some((smallest, s4)) => match ReadSlice(s4)
            case None => None
            case Some((largest, rest)) => Some((NewFile(level, File(number, size, smallest, largest)), rest))
  }

  /** The tag and the field. */
  function ReadTagged(s: seq<byte>): Option<(Field, seq<byte>)> {
    match ReadLength(s, 0)
    case None => None
    case Some((tag, rest)) => ReadField(tag, rest)
  }

  lemma FieldRoundTrip(f: Field, rest: seq<byte>)
    requires f.Fits()
    ensures ReadTagged(f.Bytes() + rest) == Some((f, rest)) && f.Bytes() != []
  {
    hide Varint, ReadLength, ReadLong, ReadSlice, Slice;
    match f
    case ComparatorName(name) =>
      Associate(Varint(1), Slice(name), rest);
      SmallRoundTrip(1, Slice(name) + rest);
      SliceRoundTrip(name, rest);
    case LogNumber(n) => NumberRoundTrip(2, n, rest);
    case NextFileNumber(n) => NumberRoundTrip(3, n, rest);
    case LastSequence(n) => NumberRoundTrip(4, n, rest);
    case PrevLogNumber(n) => NumberRoundTrip(9, n, rest);
    case CompactPointer(level, key) =>
      Split3(Varint(5), Varint(level), Slice(key), rest);
      SmallRoundTrip(5, Varint(level) + (Slice(key) + rest));
      SmallRoundTrip(level, Slice(key) + rest);
      SliceRoundTrip(key, rest);
    case DeletedFile(level, n) =>
      Split3(Varint(6), Varint(level), Varint(n), rest);
      SmallRoundTrip(6, Varint(level) + (Varint(n) + rest));
      SmallRoundTrip(level, Varint(n) + rest);
      BigRoundTrip(n, rest);
    case NewFile(level, file) => NewFileRoundTrip(level, file, rest);
  }

  lemma Split3(a: seq<byte>, b: seq<byte>, c: seq<byte>, rest: seq<byte>)
    ensures a + (b + c) + rest == a + (b + (c + rest))
  {
  }

  lemma NumberRoundTrip(tag: nat, n: nat, rest: seq<byte>)
    requires tag < 0x80 && n < TWO64
    ensures ReadLength(Varint(tag) + Varint(n) + rest, 0) == Some((tag, Varint(n) + rest))
    ensures ReadLong(Varint(n) + rest, 0) == Some((n, rest))
  {
    hide Varint, ReadLength, ReadLong;
    Associate(Varint(tag), Varint(n), rest);
    SmallRoundTrip(tag, Varint(n) + rest);
    BigRoundTrip(n, rest);
  }

  lemma NewFileRoundTrip(level: nat, f: File, rest: seq<byte>)
    requires NewFile(level, f).Fits()
    ensures ReadTagged(NewFile(level, f).Bytes() + rest) == Some((NewFile(level, f), rest))
  {
    hide Varint, ReadLength, ReadLong, ReadSlice, Slice;
    var s4 := Slice(f.largest) + rest;
    var s3 := Slice(f.smallest) + s4;
    var s2 := Varint(f.size) + s3;
    var s1 := Varint(f.number) + s2;
    SmallRoundTrip(7, Varint(level) + s1);
    SmallRoundTrip(level, s1);
    BigRoundTrip(f.number, s2);
    BigRoundTrip(f.size, s3);
    SliceRoundTrip(f.smallest, s4);
    SliceRoundTrip(f.largest, rest);
    assert NewFile(level, f).Bytes() + rest == Varint(7) + (Varint(level) + s1);
  }

  // ---- Whole edits

  datatype VersionEdit = VersionEdit(
    comparator: Option<seq<byte>>, logNumber: Option<nat>, prevLogNumber: Option<nat>, nextFileNumber: Option<nat>,
    lastSequence: Option<nat>, compactPointers: seq<(nat, seq<byte>)>, deletedFiles: set<(nat, nat)>,
    newFiles: seq<(nat, File)>)
  {
    ghost predicate Fits() {
      && (comparator.Some? ==> ComparatorName(comparator.value).Fits())
      && (logNumber.Some? ==> LogNumber(logNumber.value).Fits())
      && (prevLogNumber.Some? ==> PrevLogNumber(prevLogNumber.value).Fits())
      && (nextFileNumber.Some? ==> NextFileNumber(nextFileNumber.value).Fits())
      && (lastSequence.Some? ==> LastSequence(lastSequence.value).Fits())
      && (forall i | 0 <= i < |compactPointers| :: CompactPointer(compactPointers[i].0, compactPointers[i].1).Fits())
      && (forall d | d in deletedFiles :: DeletedFile(d.0, d.1).Fits())
      && forall i | 0 <= i < |newFiles| :: NewFile(newFiles[i].0, newFiles[i].1).Fits()
    }
  }

  const CLEARED := VersionEdit(None, None, None, None, None, [], {}, [])

  /** What decoding one more field does to the edit. */
  function WithField(e: VersionEdit, f: Field): VersionEdit {
    match f
    case ComparatorName(name) => e.(comparator := Some(name))
    case LogNumber(n) => e.(logNumber := Some(n))
    case PrevLogNumber(n) => e.(prevLogNumber := Some(n))
    case NextFileNumber(n) => e.(nextFileNumber := Some(n))
    case LastSequence(n) => e.(lastSequence := Some(n))
    case CompactPointer(level, key) => e.(compactPointers := e.compactPointers + [(level, key)])
    case DeletedFile(level, n) => e.(deletedFiles := e.deletedFiles + {(level, n)})
    case NewFile(level, file) => e.(newFiles := e.newFiles + [(level, file)])
  }

  /** Decoding the rest of the input into `e`. */
  function Decode(s: seq<byte>, e: VersionEdit): Option<VersionEdit>
    decreases |s|
  {
    if s == [] then Some(e)
    else match ReadTagged(s)
      case None => None
      case Some((f, rest)) => if |rest| < |s| then Decode(rest, WithField(e, f)) else None
  }

  /** `bytes` decodes to what the fields make of a cleared edit, whatever follows. */
  ghost predicate Spells(bytes: seq<byte>, e: VersionEdit) {
    forall rest :: Decode(bytes + rest, CLEARED) == Decode(rest, e)
  }

  lemma SpellsMore(bytes: seq<byte>, e: VersionEdit, f: Field)
    requires Spells(bytes, e) && f.Fits()
    ensures Spells(bytes + f.Bytes(), WithField(e, f))
  {
    hide ReadTagged, Field.Bytes, Field.Fits;
    forall rest ensures Decode(bytes + f.Bytes() + rest, CLEARED) == Decode(rest, WithField(e, f)) {
      assert bytes + f.Bytes() + rest == bytes + (f.Bytes() + rest);
      FieldRoundTrip(f, rest);
    }
  }

  method PutField(bytes: seq<byte>, f: Field, ghost e: VersionEdit) returns (r: seq<byte>)
    requires Spells(bytes, e) && f.Fits()
    ensures Spells(r, WithField(e, f)) && r == bytes + f.Bytes()
  {
    SpellsMore(bytes, e, f);
    r := bytes + f.Bytes();
  }

  // ---- The bytes of an edit

  function NumberBytes(tag: byte, n: Option<nat>): seq<byte> {
    if n.None? then [] else [tag] + Varint(n.value)
  }

  function PointerBytes(ps: seq<(nat, seq<byte>)>): seq<byte> {
    if ps == [] then []
    else
      var (level, key) := ps[|ps| - 1];
      PointerBytes(ps[..|ps| - 1]) + ([5] + Varint(level) + Varint(|key|) + key)
  }

  function DeletedBytes(ds: seq<(nat, nat)>): seq<byte> {
    if ds == [] then []
    else
      var (level, number) := ds[|ds| - 1];
      DeletedBytes(ds[..|ds| - 1]) + ([6] + Varint(level) + Varint(number))
  }

  function NewBytes(fs: seq<(nat, File)>): seq<byte> {
    if fs == [] then []
    else
      var (level, f) := fs[|fs| - 1];
      NewBytes(fs[..|fs| - 1])
      + ([7] + Varint(level) + Varint(f.number) + Varint(f.size)
         + Varint(|f.smallest|) + f.smallest + Varint(|f.largest|) + f.largest)
  }

  function HeadBytes(e: VersionEdit): seq<byte> {
    (if e.comparator.None? then [] else [1] + Varint(|e.comparator.value|) + e.comparator.value)
    + NumberBytes(2, e.logNumber) + NumberBytes(9, e.prevLogNumber) + NumberBytes(3, e.nextFileNumber)
    + NumberBytes(4, e.lastSequence)
  }

  /** The bytes on disk, with the tags that must not change; `walk` are the deleted files in order. */
  function Layout(e: VersionEdit, walk: seq<(nat, nat)>): seq<byte> {
    HeadBytes(e) + PointerBytes(e.compactPointers) + DeletedBytes(walk) + NewBytes(e.newFiles)
  }

  /** The order of the set of deleted files: by level, then by number. */
  predicate Below(a: (nat, nat), b: (nat, nat)) {
    a.0 < b.0 || (a.0 == b.0 && a.1 < b.1)
  }

  ghost predicate Walks(walk: seq<(nat, nat)>, files: set<(nat, nat)>) {
    (forall d :: d in walk <==> d in files) && forall i, j | 0 <= i < j < |walk| :: Below(walk[i], walk[j])
  }

  lemma BelowFacts(a: (nat, nat), b: (nat, nat), c: (nat, nat))
    ensures a != b ==> Below(a, b) || Below(b, a)
    ensures Below(a, b) && Below(b, c) ==> Below(a, c)
    ensures !(Below(a, b) && Below(b, a))
  {
  }

  lemma {:induction false} LowestThere(files: set<(nat, nat)>) returns (d: (nat, nat))
    requires files != {}
    ensures d in files && forall o | o in files :: o == d || Below(d, o)
    decreases |files|
  {
    hide Below;
    d :| d in files;
    if files != {d} {
      var first := d;
      var o := LowestThere(files - {d});
      BelowFacts(d, o, d);
      if Below(o, d) {
        d := o;
      } else {
        forall x | x in files ensures x == d || Below(d, x) {
          BelowFacts(d, o, x);
        }
      }
      assert forall x | x in files - {first} :: x == o || Below(o, x);
    }
  }

  lemma WalkMore(walk: seq<(nat, nat)>, done: set<(nat, nat)>, d: (nat, nat))
    requires Walks(walk, done) && forall a | a in done :: Below(a, d)
    ensures Walks(walk + [d], done + {d})
  {
    hide Below;
    var more := walk + [d];
    forall i, j | 0 <= i < j < |more| ensures Below(more[i], more[j]) {
      assert walk[i] in walk;
    }
  }

  /** What is written for a field: its tag, which must not change, and its contents. */
  function Spelling(f: Field): seq<byte> {
    match f
    case ComparatorName(name) => [1] + Varint(|name|) + name
    case LogNumber(n) => [2] + Varint(n)
    case NextFileNumber(n) => [3] + Varint(n)
    case LastSequence(n) => [4] + Varint(n)
    case CompactPointer(level, key) => [5] + Varint(level) + Varint(|key|) + key
    case DeletedFile(level, n) => [6] + Varint(level) + Varint(n)
    case NewFile(level, g) =>
      [7] + Varint(level) + Varint(g.number) + Varint(g.size) + Varint(|g.smallest|) + g.smallest + Varint(|g.largest|) + g.largest
    case PrevLogNumber(n) => [9] + Varint(n)
  }

  lemma FieldBytes(f: Field)
    ensures f.Bytes() == Spelling(f)
  {
    SmallVarints();
    hide Varint;
    match f
    case ComparatorName(name) => Associate([1], Varint(|name|), name);
    case CompactPointer(level, key) => Flat4([5], Varint(level), Varint(|key|), key);
    case DeletedFile(level, n) => Associate([6], Varint(level), Varint(n));
    case NewFile(level, g) =>
      Flat8([7], Varint(level), Varint(g.number), Varint(g.size), Varint(|g.smallest|), g.smallest, Varint(|g.largest|), g.largest);
    case _ =>
  }

  lemma Flat4(a: seq<byte>, b: seq<byte>, c: seq<byte>, d: seq<byte>)
    ensures a + b + c + d == a + (b + (c + d))
  {
  }

  lemma Flat8(a: seq<byte>, b: seq<byte>, c: seq<byte>, d: seq<byte>, e: seq<byte>, f: seq<byte>, g: seq<byte>, h: seq<byte>)
    ensures a + b + c + d + e + f + g + h == a + (b + (c + (d + ((e + f) + (g + h)))))
  {
    Flat4(a, b, c, d);
    Flat4(a + b + c + d, e, f, g + h);
    Associate(a + b + c + d + e + f, g, h);
    Flat4(a, b, c, d + ((e + f) + (g + h)));
    Associate(a + b + c, d, (e + f) + (g + h));
    Associate(a + b + c + d, e + f, g + h);
    Associate(a + b + c + d, e, f);
  }

  lemma SmallVarints()
    ensures Varint(1) == [1] && Varint(2) == [2] && Varint(3) == [3] && Varint(4) == [4] && Varint(5) == [5]
    ensures Varint(6) == [6] && Varint(7) == [7] && Varint(9) == [9]
  {
  }

  /** The bytes of the edit, in the order and with the tags of the file format. */
  method EncodeTo(e: VersionEdit) returns (bytes: seq<byte>, ghost walk: seq<(nat, nat)>)
    requires e.Fits()
    ensures Spells(bytes, e) && bytes == Layout(e, walk) && Walks(walk, e.deletedFiles)
    ensures forall other :: EncodesAs(e, other) ==> bytes == other
  {
    hide Spells, Field.Bytes, PointerBytes, DeletedBytes, NewBytes, Varint, Walks;
    bytes := EncodeNumbers(e);
    ghost var head := bytes;
    bytes := EncodePointers(e, bytes);
    bytes, walk := EncodeDeleted(e, bytes);
    bytes := EncodeNew(e, bytes);
  }

  lemma NothingSpelled()
    ensures Spells([], CLEARED)
  {
    forall rest: seq<byte> ensures Decode([] + rest, CLEARED) == Decode(rest, CLEARED) {
      assert [] + rest == rest;
    }
  }

  method PutNumber(bytes: seq<byte>, f: Field, n: Option<nat>, ghost tag: byte, ghost e: VersionEdit) returns (r: seq<byte>)
    requires Spells(bytes, e) && (n.Some? ==> f.Fits() && f.Bytes() == [tag] + Varint(n.value))
    ensures Spells(r, if n.Some? then WithField(e, f) else e) && r == bytes + NumberBytes(tag, n)
  {
    hide Spells, Field.Bytes, Field.Fits;
    r := bytes;
    if n.Some? {
      r := PutField(bytes, f, e);
    }
  }

  method EncodeNumbers(e: VersionEdit) returns (bytes: seq<byte>)
    requires e.Fits()
    ensures bytes == HeadBytes(e) && Spells(bytes, e.(compactPointers := [], deletedFiles := {}, newFiles := []))
  {
    hide Spells, Field.Bytes, Varint, NumberBytes;
    ghost var done := CLEARED;
    bytes := [];
    NothingSpelled();
    FieldBytes(ComparatorName(if e.comparator.Some? then e.comparator.value else []));
    FieldBytes(LogNumber(Or(e.logNumber)));
    FieldBytes(PrevLogNumber(Or(e.prevLogNumber)));
    FieldBytes(NextFileNumber(Or(e.nextFileNumber)));
    FieldBytes(LastSequence(Or(e.lastSequence)));
    if e.comparator.Some? {
      bytes := PutField(bytes, ComparatorName(e.comparator.value), done);
      done := done.(comparator := e.comparator);
    }
    bytes := PutNumber(bytes, LogNumber(Or(e.logNumber)), e.logNumber, 2, done);
    done := done.(logNumber := e.logNumber);
    bytes := PutNumber(bytes, PrevLogNumber(Or(e.prevLogNumber)), e.prevLogNumber, 9, done);
    done := done.(prevLogNumber := e.prevLogNumber);
    bytes := PutNumber(bytes, NextFileNumber(Or(e.nextFileNumber)), e.nextFileNumber, 3, done);
    done := done.(nextFileNumber := e.nextFileNumber);
    bytes := PutNumber(bytes, LastSequence(Or(e.lastSequence)), e.lastSequence, 4, done);
    done := done.(lastSequence := e.lastSequence);
    assert done == e.(compactPointers := [], deletedFiles := {}, newFiles := []);
  }

  function Or(n: Option<nat>): nat {
    if n.Some? then n.value else 0
  }

  method EncodePointers(e: VersionEdit, head: seq<byte>) returns (bytes: seq<byte>)
    requires e.Fits() && Spells(head, e.(compactPointers := [], deletedFiles := {}, newFiles := []))
    ensures Spells(bytes, e.(deletedFiles := {}, newFiles := [])) && bytes == head + PointerBytes(e.compactPointers)
  {
    hide Spells, Field.Bytes, Varint;
    bytes := head;
    for i := 0 to |e.compactPointers|
      invariant Spells(bytes, e.(compactPointers := e.compactPointers[..i], deletedFiles := {}, newFiles := []))
      invariant bytes == head + PointerBytes(e.compactPointers[..i])
    {
      var (level, key) := e.compactPointers[i];
      ghost var sofar := e.compactPointers[..i];
      assert e.compactPointers[..i + 1] == sofar + [(level, key)];
      FieldBytes(CompactPointer(level, key));
      assert PointerBytes(sofar + [(level, key)]) == PointerBytes(sofar) + CompactPointer(level, key).Bytes() by {
        assert (sofar + [(level, key)])[..i] == sofar;
      }
      Associate(head, PointerBytes(sofar), CompactPointer(level, key).Bytes());
      bytes := PutField(bytes, CompactPointer(level, key), e.(compactPointers := sofar, deletedFiles := {}, newFiles := []));
    }
    assert e.compactPointers[..|e.compactPointers|] == e.compactPointers;
  }

  /** Walks the set in its order. */
  method EncodeDeleted(e: VersionEdit, head: seq<byte>) returns (bytes: seq<byte>, ghost walk: seq<(nat, nat)>)
    requires e.Fits() && Spells(head, e.(deletedFiles := {}, newFiles := []))
    ensures Spells(bytes, e.(newFiles := [])) && bytes == head + DeletedBytes(walk) && Walks(walk, e.deletedFiles)
  {
    hide Spells, Field.Bytes, Varint, Walks, Below, DeletedBytes, Field.Fits, VersionEdit.Fits;
    NothingWalked();
    bytes, walk := head, [];
    var left := e.deletedFiles;
    ghost var done: set<(nat, nat)> := {};
    while left != {}
      invariant left + done == e.deletedFiles && Walks(walk, done) && (forall a, b | a in done && b in left :: Below(a, b))
      invariant Spells(bytes, e.(deletedFiles := done, newFiles := [])) && bytes == head + DeletedBytes(walk)
      decreases |left|
    {
      ghost var lowest := LowestThere(left);
      var d :| d in left && forall o | o in left :: o == d || Below(d, o);
      DeletedFits(e, d);
      FieldBytes(DeletedFile(d.0, d.1));
      DeletedNext(walk, d);
      WalkMore(walk, done, d);
      Associate(head, DeletedBytes(walk), DeletedFile(d.0, d.1).Bytes());
      bytes := PutField(bytes, DeletedFile(d.0, d.1), e.(deletedFiles := done, newFiles := []));
      left, done, walk := left - {d}, done + {(d.0, d.1)}, walk + [d];
    }
    assert done == e.deletedFiles;
  }

  lemma DeletedFits(e: VersionEdit, d: (nat, nat))
    requires e.Fits() && d in e.deletedFiles
    ensures DeletedFile(d.0, d.1).Fits()
  {
  }

  lemma NothingWalked()
    ensures Walks([], {}) && DeletedBytes([]) == []
  {
  }

  lemma DeletedNext(walk: seq<(nat, nat)>, d: (nat, nat))
    ensures DeletedBytes(walk + [d]) == DeletedBytes(walk) + Spelling(DeletedFile(d.0, d.1))
  {
    hide Varint;
    assert (walk + [d])[..|walk|] == walk;
  }

  method EncodeNew(e: VersionEdit, head: seq<byte>) returns (bytes: seq<byte>)
    requires e.Fits() && Spells(head, e.(newFiles := []))
    ensures Spells(bytes, e) && bytes == head + NewBytes(e.newFiles)
  {
    hide Spells, Field.Bytes, Varint;
    bytes := head;
    for i := 0 to |e.newFiles|
      invariant Spells(bytes, e.(newFiles := e.newFiles[..i])) && bytes == head + NewBytes(e.newFiles[..i])
    {
      var (level, file) := e.newFiles[i];
      ghost var sofar := e.newFiles[..i];
      assert e.newFiles[..i + 1] == sofar + [(level, file)];
      FieldBytes(NewFile(level, file));
      assert NewBytes(sofar + [(level, file)]) == NewBytes(sofar) + NewFile(level, file).Bytes() by {
        assert (sofar + [(level, file)])[..i] == sofar;
      }
      Associate(head, NewBytes(sofar), NewFile(level, file).Bytes());
      bytes := PutField(bytes, NewFile(level, file), e.(newFiles := sofar));
    }
    assert e.newFiles[..|e.newFiles|] == e.newFiles;
  }

  // ---- What each tag means to the decoder

  /** Any bytes: after the tag, the decoder reads the parts of that field, and fails if one is missing. */
  lemma TagMeans(s: seq<byte>, e: VersionEdit, tag: nat, s1: seq<byte>)
    requires s != [] && ReadLength(s, 0) == Some((tag, s1))
    ensures tag == 1 && ReadSlice(s1).None? ==> Decode(s, e) == None
    ensures tag == 1 && ReadSlice(s1).Some? ==>
      Decode(s, e) == Decode(ReadSlice(s1).value.1, e.(comparator := Some(ReadSlice(s1).value.0)))
    ensures tag in {2, 3, 4, 9} && ReadLong(s1, 0).None? ==> Decode(s, e) == None
    ensures tag in {2, 3, 4, 9} && ReadLong(s1, 0).Some? ==>
      var (n, rest) := ReadLong(s1, 0).value;
      Decode(s, e) == Decode(rest, if tag == 2 then e.(logNumber := Some(n)) else if tag == 3 then e.(nextFileNumber := Some(n))
                                   else if tag == 4 then e.(lastSequence := Some(n)) else e.(prevLogNumber := Some(n)))
    ensures tag !in {1, 2, 3, 4, 5, 6, 7, 9} ==> Decode(s, e) == None
  {
    if ReadTagged(s).Some? {
      TaggedShrinks(s);
    }
    hide ReadLong, ReadSlice, ReadNewFile, ReadLevel, ReadLength;
  }

  lemma ListTagMeans(s: seq<byte>, e: VersionEdit, tag: nat, s1: seq<byte>)
    requires s != [] && ReadLength(s, 0) == Some((tag, s1)) && tag in {5, 6, 7}
    ensures ReadLevel(s1).None? ==> Decode(s, e) == None
    ensures ReadLevel(s1).Some? ==>
      var (level, s2) := ReadLevel(s1).value;
      && (tag == 5 ==> Decode(s, e) == if ReadSlice(s2).None? then None
            else Decode(ReadSlice(s2).value.1, e.(compactPointers := e.compactPointers + [(level, ReadSlice(s2).value.0)])))
      && (tag == 6 ==> Decode(s, e) == if ReadLong(s2, 0).None? then None
            else Decode(ReadLong(s2, 0).value.1, e.(deletedFiles := e.deletedFiles + {(level, ReadLong(s2, 0).value.0)})))
      && (tag == 7 ==> Decode(s, e) == if ReadFile(s2).None? then None
            else Decode(ReadFile(s2).value.1, e.(newFiles := e.newFiles + [(level, ReadFile(s2).value.0)])))
  {
    if ReadTagged(s).Some? {
      TaggedShrinks(s);
    }
    hide ReadLong, ReadSlice, ReadLength, ReadLevel;
  }

  /** Number, size, smallest and largest key of a file. */
  function ReadFile(s2: seq<byte>): Option<(File, seq<byte>)> {
    match ReadLong(s2, 0)
    case None => None
    case Some((number, s3)) => match ReadLong(s3, 0)
      case None => None
      case Some((size, s4)) => match ReadSlice(s4)
        case None => None
        case Some((smallest, s5)) => match ReadSlice(s5)
          case None => None
          case Some((largest, rest)) => Some((File(number, size, smallest, largest), rest))
  }

  /** A piece among empty ones. */
  lemma OnlyPiece(x: seq<byte>)
    ensures x + [] == x && [] + x == x && x + [] + [] + [] == x && [] + x + [] + [] == x
    ensures [] + [] + x + [] == x && [] + [] + [] + x == x && [] + [] + [] + [] + x == x
    ensures x + [] + [] + [] + [] == x && [] + x + [] + [] + [] == x && [] + [] + x + [] + [] == x && [] + [] + [] + x + [] == x
  {
  }

  lemma NoPieces()
    ensures PointerBytes([]) == [] && DeletedBytes([]) == [] && NewBytes([]) == [] && HeadBytes(CLEARED) == []
    ensures forall t :: NumberBytes(t, None) == []
    ensures forall t, n :: NumberBytes(t, Some(n)) == [t] + Varint(n)
  {
  }

  lemma NumberLayouts(n: nat)
    ensures Layout(CLEARED.(logNumber := Some(n)), []) == [2] + Varint(n)
    ensures Layout(CLEARED.(nextFileNumber := Some(n)), []) == [3] + Varint(n)
    ensures Layout(CLEARED.(lastSequence := Some(n)), []) == [4] + Varint(n)
    ensures Layout(CLEARED.(prevLogNumber := Some(n)), []) == [9] + Varint(n)
  {
    NoPieces();
    hide Varint, PointerBytes, DeletedBytes, NewBytes, NumberBytes;
    OnlyPiece([2] + Varint(n));
    OnlyPiece([3] + Varint(n));
    OnlyPiece([4] + Varint(n));
    OnlyPiece([9] + Varint(n));
  }

  /** The bytes are those of the edit, however its deleted files are walked. */
  ghost predicate EncodesAs(e: VersionEdit, bytes: seq<byte>) {
    forall walk | Walks(walk, e.deletedFiles) :: Layout(e, walk) == bytes
  }

  lemma OneWalk(e: VersionEdit, walk: seq<(nat, nat)>, bytes: seq<byte>)
    requires |walk| <= 1 && (forall d :: d in walk <==> d in e.deletedFiles) && Layout(e, walk) == bytes
    ensures EncodesAs(e, bytes)
  {
    hide Layout, Below;
    forall other | Walks(other, e.deletedFiles) ensures other == walk {
      WalkFront(other, e.deletedFiles);
      if |walk| > 0 {
        assert walk[0] in other;
      }
    }
  }

  lemma WalkFront(walk: seq<(nat, nat)>, files: set<(nat, nat)>)
    requires Walks(walk, files)
    ensures |walk| > 0 ==> walk[0] in files
    ensures |walk| > 1 ==> walk[1] in files && walk[0] != walk[1]
  {
  }

  /** An edit with one number is written as that number's tag and the number, and these bytes decode to it. */
  lemma NumberTags(n: nat)
    requires n < TWO64
    ensures var e := CLEARED.(logNumber := Some(n)); EncodesAs(e, [2] + Varint(n)) && Decode([2] + Varint(n), CLEARED) == Some(e)
    ensures var e := CLEARED.(nextFileNumber := Some(n)); EncodesAs(e, [3] + Varint(n)) && Decode([3] + Varint(n), CLEARED) == Some(e)
    ensures var e := CLEARED.(lastSequence := Some(n)); EncodesAs(e, [4] + Varint(n)) && Decode([4] + Varint(n), CLEARED) == Some(e)
    ensures var e := CLEARED.(prevLogNumber := Some(n)); EncodesAs(e, [9] + Varint(n)) && Decode([9] + Varint(n), CLEARED) == Some(e)
  {
    NumberLayouts(n);
    hide Varint, Decode, Layout;
    OneWalk(CLEARED.(logNumber := Some(n)), [], [2] + Varint(n));
    OneWalk(CLEARED.(nextFileNumber := Some(n)), [], [3] + Varint(n));
    OneWalk(CLEARED.(lastSequence := Some(n)), [], [4] + Varint(n));
    OneWalk(CLEARED.(prevLogNumber := Some(n)), [], [9] + Varint(n));
    FieldAlone(LogNumber(n));
    FieldAlone(NextFileNumber(n));
    FieldAlone(LastSequence(n));
    FieldAlone(PrevLogNumber(n));
  }

  lemma NameTag(name: seq<byte>)
    requires |name| < 0x1_0000_0000
    ensures var e, bytes := CLEARED.(comparator := Some(name)), [1] + Varint(|name|) + name;
      EncodesAs(e, bytes) && Decode(bytes, CLEARED) == Some(e)
  {
    NoPieces();
    hide Varint, Decode, PointerBytes, DeletedBytes, NewBytes, NumberBytes;
    OnlyPiece([1] + Varint(|name|) + name);
    OneWalk(CLEARED.(comparator := Some(name)), [], [1] + Varint(|name|) + name);
    FieldAlone(ComparatorName(name));
  }

  lemma PointerTag(level: nat, key: seq<byte>)
    requires level < NUM_LEVELS && |key| < 0x1_0000_0000
    ensures var e, bytes := CLEARED.(compactPointers := [(level, key)]), [5] + Varint(level) + Varint(|key|) + key;
      EncodesAs(e, bytes) && Decode(bytes, CLEARED) == Some(e)
  {
    var ps, bytes := [(level, key)], [5] + Varint(level) + Varint(|key|) + key;
    assert ps[..0] == [] && PointerBytes(ps) == PointerBytes([]) + bytes;
    NoPieces();
    hide Varint, Decode, PointerBytes, DeletedBytes, NewBytes, NumberBytes, HeadBytes;
    assert HeadBytes(CLEARED.(compactPointers := ps)) == HeadBytes(CLEARED) by { SameHead(CLEARED.(compactPointers := ps)); }
    OnlyPiece(bytes);
    OneWalk(CLEARED.(compactPointers := ps), [], bytes);
    FieldAlone(CompactPointer(level, key));
    assert CLEARED.compactPointers + ps == ps;
  }

  lemma SameHead(e: VersionEdit)
    ensures HeadBytes(e) == HeadBytes(CLEARED.(comparator := e.comparator, logNumber := e.logNumber, prevLogNumber := e.prevLogNumber,
                                              nextFileNumber := e.nextFileNumber, lastSequence := e.lastSequence))
  {
  }

  lemma DeletedTag(level: nat, n: nat)
    requires level < NUM_LEVELS && n < TWO64
    ensures var e, bytes := CLEARED.(deletedFiles := {(level, n)}), [6] + Varint(level) + Varint(n);
      EncodesAs(e, bytes) && Decode(bytes, CLEARED) == Some(e)
  {
    var e, bytes := CLEARED.(deletedFiles := {(level, n)}), [6] + Varint(level) + Varint(n);
    DeletedNext([], (level, n));
    assert [] + [(level, n)] == [(level, n)];
    NoPieces();
    hide Varint, Decode, PointerBytes, DeletedBytes, NewBytes, NumberBytes, HeadBytes;
    SameHead(e);
    OnlyPiece(bytes);
    OneWalk(e, [(level, n)], bytes);
    FieldAlone(DeletedFile(level, n));
    assert {} + {(level, n)} == {(level, n)};
  }

  lemma NewFileTag(level: nat, f: File)
    requires NewFile(level, f).Fits()
    ensures var e := CLEARED.(newFiles := [(level, f)]);
      var bytes := [7] + Varint(level) + Varint(f.number) + Varint(f.size) + Varint(|f.smallest|) + f.smallest + Varint(|f.largest|) + f.largest;
      EncodesAs(e, bytes) && Decode(bytes, CLEARED) == Some(e)
  {
    var fs, bytes := [(level, f)], Spelling(NewFile(level, f));
    assert fs[..0] == [] && NewBytes(fs) == NewBytes([]) + bytes;
    NoPieces();
    hide Varint, Decode, PointerBytes, DeletedBytes, NewBytes, NumberBytes, HeadBytes;
    SameHead(CLEARED.(newFiles := fs));
    OnlyPiece(bytes);
    OneWalk(CLEARED.(newFiles := fs), [], bytes);
    FieldAlone(NewFile(level, f));
    assert CLEARED.newFiles + fs == fs;
  }

  lemma FieldAlone(f: Field)
    requires f.Fits()
    ensures Decode(Spelling(f), CLEARED) == Some(WithField(CLEARED, f))
  {
    hide ReadTagged, Field.Bytes, Field.Fits, Spelling;
    FieldBytes(f);
    FieldRoundTrip(f, []);
    assert f.Bytes() + [] == f.Bytes();
    assert Decode([], WithField(CLEARED, f)) == Some(WithField(CLEARED, f));
  }

  /** Clear forgets everything but the compaction pointers. */
  function Clear(e: VersionEdit): VersionEdit {
    CLEARED.(compactPointers := e.compactPointers)
  }

  function WithPointers(pointers: seq<(nat, seq<byte>)>, e: Option<VersionEdit>): Option<VersionEdit> {
    if e.None? then None else Some(e.value.(compactPointers := pointers + e.value.compactPointers))
  }

  /** Decoding into `used`: what a new edit would hold, behind the compaction pointers of `used`. */
  method DecodeFrom(used: VersionEdit, src: seq<byte>) returns (r: Option<VersionEdit>)
    ensures r == WithPointers(used.compactPointers, Decode(src, CLEARED))
  {
    hide ReadTagged;
    var input, e := src, Clear(used);
    DecodeBehind(src, CLEARED, used.compactPointers);
    assert used.compactPointers + [] == used.compactPointers;
    while input != []
      invariant Decode(src, Clear(used)) == Decode(input, e)
      decreases |input|
    {
      var field := ReadTagged(input);
      if field.None? {
        return None;
      }
      TaggedShrinks(input);
      e := WithField(e, field.value.0);
      input := field.value.1;
    }
    r := Some(e);
  }

  /** Pointers that are there first stay in front. */
  lemma {:induction false} DecodeBehind(s: seq<byte>, e: VersionEdit, pointers: seq<(nat, seq<byte>)>)
    ensures Decode(s, e.(compactPointers := pointers + e.compactPointers)) == WithPointers(pointers, Decode(s, e))
    decreases |s|
  {
    hide ReadTagged;
    if s != [] && ReadTagged(s).Some? {
      var (f, rest) := ReadTagged(s).value;
      if |rest| < |s| {
        DecodeBehind(rest, WithField(e, f), pointers);
        if f.CompactPointer? {
          Associate(pointers, e.compactPointers, [(f.level, f.key)]);
        }
        assert WithField(e.(compactPointers := pointers + e.compactPointers), f)
            == WithField(e, f).(compactPointers := pointers + WithField(e, f).compactPointers);
      }
    }
  }

  lemma {:induction false} LongShrinks(s: seq<byte>, index: nat)
    requires index <= 10 && ReadLong(s, index).Some?
    ensures |ReadLong(s, index).value.1| < |s|
    decreases 10 - index
  {
    if s[0] >= 0x80 {
      LongShrinks(s[1..], index + 1);
    }
  }

  lemma {:induction false} LengthShrinks(s: seq<byte>, index: nat)
    requires index <= 5 && ReadLength(s, index).Some?
    ensures |ReadLength(s, index).value.1| < |s|
    decreases 5 - index
  {
    if s[0] >= 0x80 {
      LengthShrinks(s[1..], index + 1);
    }
  }

  /** Every reader of a part of a field leaves no more than it got. */
  lemma TaggedShrinks(s: seq<byte>)
    requires ReadTagged(s).Some?
    ensures |ReadTagged(s).value.1| < |s|
  {
    hide ReadLength, ReadLong, ReadField;
    LengthShrinks(s, 0);
    var tag, rest := ReadLength(s, 0).value.0, ReadLength(s, 0).value.1;
    FieldShrinks(tag, rest);
  }

  lemma FieldShrinks(tag: nat, s: seq<byte>)
    requires ReadField(tag, s).Some?
    ensures |ReadField(tag, s).value.1| <= |s|
  {
    hide ReadLength, ReadLong;
    forall t: seq<byte> ensures ReadLong(t, 0).Some? ==> |ReadLong(t, 0).value.1| < |t| {
      if ReadLong(t, 0).Some? {
        LongShrinks(t, 0);
      }
    }
    forall t: seq<byte> ensures ReadLength(t, 0).Some? ==> |ReadLength(t, 0).value.1| < |t| {
      if ReadLength(t, 0).Some? {
        LengthShrinks(t, 0);
      }
    }
  }

  /** Decoding undoes encoding exactly if the edit decoded into had no compaction pointers. */
  method RoundTrip(e: VersionEdit, used: VersionEdit) returns (bytes: seq<byte>, again: Option<VersionEdit>)
    requires e.Fits()
    ensures again == Some(e.(compactPointers := used.compactPointers + e.compactPointers))
    ensures again == Some(e) <==> used.compactPointers == []
  {
    ghost var walk;
    bytes, walk := EncodeTo(e);
    assert bytes + [] == bytes;
    again := DecodeFrom(used, bytes);
    LongerInFront(used.compactPointers, e.compactPointers);
  }

  lemma LongerInFront<T>(a: seq<T>, b: seq<T>)
    ensures a + b == b <==> a == []
  {
    assert |a + b| == |a| + |b|;
    assert a == [] ==> a + b == b;
  }
}
