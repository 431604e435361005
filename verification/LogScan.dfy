/** What any bytes mean as a log: which fragments are good, which records they join to, and what is
    reported as corrupt. */
module LogScan {
  import opened Bytes
  import opened LogFormat

  // ---- One fragment

  function Two(low: byte, high: byte): nat {
    low as int + high as int * 0x100
  }

  /** What is found at a place of the log, where reading goes on, and how many reports that takes. */
  datatype Found = Found(kind: nat, data: seq<byte>, end: nat, reports: nat)

  /** Parsing `b`, the rest of a block, at file position `q`; `short` if the block is the last and not whole. */
  ghost function Parse(step: Step, b: seq<byte>, q: nat, short: bool): Found
    requires |b| >= HEADER_SIZE
  {
    var n := Two(b[4], b[5]);
    if HEADER_SIZE + n > |b| then
      if short then Found(END_OF_FILE, [], q + |b|, 0) else Found(BAD_RECORD, [], q + |b|, 1)
    else if b[6] == 0 && n == 0 then Found(BAD_RECORD, [], q + |b|, 0)
    else if b[..4] != Fixed(Mask(Extend(step, 0, b[6..HEADER_SIZE + n])), 4) then Found(BAD_RECORD, [], q + |b|, 1)
    else Found(b[6], b[HEADER_SIZE..HEADER_SIZE + n], q + HEADER_SIZE + n, 0)
  }

  function BlockEnd(q: nat): (e: nat)
    ensures q < e <= q + BLOCK_SIZE && e % BLOCK_SIZE == 0
  {
    q + BLOCK_SIZE - q % BLOCK_SIZE
  }

  /** The rest of the block at `q`, as far as the file goes. */
  function RestOfBlock(file: seq<byte>, q: nat): (b: seq<byte>)
    requires q <= |file|
    ensures |b| == (if BlockEnd(q) <= |file| then BlockEnd(q) else |file|) - q
  {
    file[q..if BlockEnd(q) <= |file| then BlockEnd(q) else |file|]
  }

  lemma RoomForHeader(file: seq<byte>, p: nat)
    requires p + Pad(p) + HEADER_SIZE <= |file|
    ensures |RestOfBlock(file, p + Pad(p))| >= HEADER_SIZE
  {
  }

  /** The physical record at file position `p`. */
  ghost function PhysicalAt(step: Step, file: seq<byte>, p: nat): (f: Found)
    requires p <= |file|
    ensures f.end <= |file| && (f.kind != END_OF_FILE ==> f.end > p)
  {
    var q := p + Pad(p);
    if q + HEADER_SIZE > |file| then Found(END_OF_FILE, [], |file|, 0)
    else
      RoomForHeader(file, p);
      Parse(step, RestOfBlock(file, q), q, BlockEnd(q) > |file|)
  }

  lemma PhysicalUnfold(step: Step, file: seq<byte>, p: nat)
    requires p <= |file|
    ensures var q := p + Pad(p);
      if q + HEADER_SIZE > |file| then PhysicalAt(step, file, p) == Found(END_OF_FILE, [], |file|, 0)
      else
        |RestOfBlock(file, q)| >= HEADER_SIZE
        && PhysicalAt(step, file, p) == Parse(step, RestOfBlock(file, q), q, BlockEnd(q) > |file|)
  {
    hide Parse, Pad, BlockEnd;
    if p + Pad(p) + HEADER_SIZE <= |file| {
      RoomForHeader(file, p);
    }
  }

  /** The bytes are a header, with masked checksum, length and kind, and the data. */
  ghost predicate IsFragment(step: Step, bytes: seq<byte>, kind: nat, data: seq<byte>) {
    && |bytes| == 7 + |data| && |data| < 0x1_0000 && kind < 0x100
    && bytes[..4] == Fixed(Mask(Extend(step, 0, [kind] + data)), 4)
    && bytes[4] == |data| % 0x100 && bytes[5] == |data| / 0x100 && bytes[6] == kind && bytes[7..] == data
  }

  lemma SplitTwo(low: byte, high: byte)
    ensures Two(low, high) % 0x100 == low && Two(low, high) / 0x100 == high && Two(low, high) < 0x1_0000
  {
  }

  /** A good fragment of this kind lies between the two file positions. */
  ghost predicate Lies(step: Step, file: seq<byte>, p: nat, end: nat, kind: nat, data: seq<byte>) {
    p + Pad(p) <= end <= |file| && IsFragment(step, file[p + Pad(p)..end], kind, data)
  }

  /** Whatever the bytes: what is handed over as a fragment is one, with a checksum that fits.  The kinds 5
      and 6 of a fragment cannot be told from the end of the file and from a bad record. */
  lemma FragmentsAreSound(step: Step, file: seq<byte>, p: nat)
    requires p <= |file|
    ensures var f := PhysicalAt(step, file, p);
      || (Lies(step, file, p, f.end, f.kind, f.data) && f.reports == 0)
      || (f.kind == END_OF_FILE && f.data == [] && f.end == |file| && f.reports == 0)
      || (f.kind == BAD_RECORD && f.data == [])
  {
    hide Extend, Mask, Fixed, Pad;
    var q := p + Pad(p);
    if q + HEADER_SIZE <= |file| {
      RoomForHeader(file, p);
      var b := RestOfBlock(file, q);
      var n := Two(b[4], b[5]);
      SplitTwo(b[4], b[5]);
      if HEADER_SIZE + n <= |b| {
        assert b[6..HEADER_SIZE + n] == [b[6]] + b[HEADER_SIZE..HEADER_SIZE + n];
        assert file[q..q + HEADER_SIZE + n] == b[..HEADER_SIZE + n];
      }
    }
  }

  /** A fragment that is all there, with a checksum that does not fit, is bad: one report, and what is
      left of its block is dropped. */
  lemma MismatchIsReported(step: Step, file: seq<byte>, p: nat, kind: byte, data: seq<byte>)
    requires var q := p + Pad(p);
      && q + HEADER_SIZE + |data| <= |file| && q + HEADER_SIZE + |data| <= BlockEnd(q)
      && Spells(file[q..q + HEADER_SIZE + |data|], kind, data) && !(kind == 0 && data == [])
      && file[q..q + 4] != Fixed(Mask(Extend(step, 0, [kind] + data)), 4)
    ensures p <= |file|
    ensures var end := BlockEnd(p + Pad(p));
      PhysicalAt(step, file, p) == Found(BAD_RECORD, [], if end <= |file| then end else |file|, 1)
  {
    hide Extend, Mask, Fixed, Pad, BlockEnd, Spells, Parse, PhysicalAt;
    PhysicalUnfold(step, file, p);
    var q, n := p + Pad(p), HEADER_SIZE + |data|;
    var end := if BlockEnd(q) <= |file| then BlockEnd(q) else |file|;
    assert RestOfBlock(file, q) == file[q..end];
    hide *;
    SliceFront(file, q, end, n);
    SliceFront(file, q, end, 4);
    ParseMismatch(step, file[q..end], q, BlockEnd(q) > |file|, kind, data);
  }

  lemma SliceFront<T>(s: seq<T>, a: nat, b: nat, n: nat)
    requires a + n <= b <= |s|
    ensures s[a..b][..n] == s[a..a + n]
  {
  }

  /** Length, kind and data stand where they belong, whatever the checksum in front. */
  ghost predicate Spells(bytes: seq<byte>, kind: byte, data: seq<byte>) {
    && |bytes| == 7 + |data| && |data| < 0x1_0000
    && bytes[4] == |data| % 0x100 && bytes[5] == |data| / 0x100 && bytes[6] == kind && bytes[7..] == data
  }

  lemma ParseMismatch(step: Step, b: seq<byte>, q: nat, short: bool, kind: byte, data: seq<byte>)
    requires HEADER_SIZE + |data| <= |b| && Spells(b[..HEADER_SIZE + |data|], kind, data) && !(kind == 0 && data == [])
    requires b[..4] != Fixed(Mask(Extend(step, 0, [kind] + data)), 4)
    ensures Parse(step, b, q, short) == Found(BAD_RECORD, [], q + |b|, 1)
  {
    hide Extend, Mask, Fixed;
    var n := HEADER_SIZE + |data|;
    SplitLength(|data|);
    assert b[4] == b[..n][4] && b[5] == b[..n][5] && b[6] == b[..n][6];
    assert b[6..n] == [b[..n][6]] + b[..n][7..];
  }

  lemma ParseGood(step: Step, b: seq<byte>, q: nat, short: bool, kind: byte, data: seq<byte>)
    requires HEADER_SIZE + |data| <= |b| && IsFragment(step, b[..HEADER_SIZE + |data|], kind, data) && kind > 0
    ensures Parse(step, b, q, short) == Found(kind, data, q + HEADER_SIZE + |data|, 0)
  {
    hide Extend, Mask, Fixed;
    var n := HEADER_SIZE + |data|;
    SplitLength(|data|);
    assert b[4] == b[..n][4] && b[5] == b[..n][5] && b[6] == b[..n][6] && b[..4] == b[..n][..4];
    assert b[6..n] == [b[..n][6]] + b[..n][7..] && b[7..n] == b[..n][7..];
  }

  // ---- One record

  /** The outcome of reading a record: where reading stopped, and the reports on the way. */
  datatype Read = Read(ok: bool, record: seq<byte>, end: nat, reports: nat) {
    function More(n: nat): Read {
      Read(ok, record, end, reports + n)
    }
  }

  /** The next record from file position `p` on.  `scratch` has been joined so far, if the record has begun. */
  ghost function Scan(step: Step, file: seq<byte>, p: nat, scratch: Option<seq<byte>>): (r: Read)
    requires p <= |file|
    ensures r.end <= |file|
    decreases |file| - p
  {
    var f := PhysicalAt(step, file, p);
    var lost := if scratch.Some? && scratch.value != [] then 1 else 0;
    if f.kind == FULL then Read(true, f.data, f.end, f.reports + lost)
    else if f.kind == FIRST then Scan(step, file, f.end, Some(f.data)).More(f.reports + lost)
    else if f.kind == MIDDLE then
      if scratch.None? then Scan(step, file, f.end, None).More(f.reports + 1)
      else Scan(step, file, f.end, Some(scratch.value + f.data)).More(f.reports)
    else if f.kind == LAST then
      if scratch.None? then Scan(step, file, f.end, None).More(f.reports + 1)
      else Read(true, scratch.value + f.data, f.end, f.reports)
    else if f.kind == END_OF_FILE then Read(false, [], f.end, f.reports)
    else if f.kind == BAD_RECORD then
      Scan(step, file, f.end, None).More(f.reports + if scratch.Some? then 1 else 0)
    else Scan(step, file, f.end, None).More(f.reports + 1)
  }

  function Join(datas: seq<seq<byte>>): seq<byte> {
    if datas == [] then [] else Join(datas[..|datas| - 1]) + datas[|datas| - 1]
  }

  /** Good fragments from one place to the next: the first of a record, then middle ones. */
  ghost predicate Begun(step: Step, file: seq<byte>, places: seq<nat>, datas: seq<seq<byte>>) {
    && datas != [] && |places| == |datas| + 1
    && forall i | 0 <= i < |datas| :: Lies(step, file, places[i], places[i + 1], if i == 0 then FIRST else MIDDLE, datas[i])
  }

  /** The record between `from` and `end`: one full fragment, or a first, middle ones and a last, joined. */
  ghost predicate IsRecord(step: Step, file: seq<byte>, from: nat, end: nat, record: seq<byte>) {
    || (exists p :: p >= from && Lies(step, file, p, end, FULL, record))
    || exists places: seq<nat>, datas: seq<seq<byte>> ::
         Begun(step, file, places, datas) && places[0] >= from && LastOf(step, file, places, datas, end, record)
  }

  ghost predicate LastOf(step: Step, file: seq<byte>, places: seq<nat>, datas: seq<seq<byte>>, end: nat, record: seq<byte>)
    requires |places| == |datas| + 1
  {
    && Join(datas) <= record
    && Lies(step, file, places[|datas|], end, LAST, record[|Join(datas)|..])
  }

  /** Whatever the bytes, a record that is read joins good fragments that follow one another; and reading
      ends at the end of the file, or at a fragment of the kind that means it. */
  lemma {:induction false} RecordsAreSound(step: Step, file: seq<byte>, from: nat, p: nat, scratch: Option<seq<byte>>,
                                           places: seq<nat>, datas: seq<seq<byte>>)
    requires from <= p <= |file|
    requires scratch.Some? ==> Begun(step, file, places, datas) && from <= places[0] && places[|datas|] == p && scratch.value == Join(datas)
    ensures var r := Scan(step, file, p, scratch);
      if r.ok then IsRecord(step, file, from, r.end, r.record)
      else r.end == |file| || exists q, data :: from <= q && Lies(step, file, q, r.end, END_OF_FILE, data)
    decreases |file| - p
  {
    hide IsFragment, Pad, PhysicalAt;
    var f := PhysicalAt(step, file, p);
    FragmentsAreSound(step, file, p);
    if f.kind == FULL {
      assert Lies(step, file, p, f.end, FULL, f.data);
    } else if f.kind == FIRST {
      assert [f.data][..0] == [];
      assert Begun(step, file, [p, f.end], [f.data]) && Join([f.data]) == [] + f.data == f.data;
      RecordsAreSound(step, file, from, f.end, Some(f.data), [p, f.end], [f.data]);
    } else if f.kind == MIDDLE && scratch.Some? {
      BegunMore(step, file, places, datas, f.end, f.data);
      RecordsAreSound(step, file, from, f.end, Some(scratch.value + f.data), places + [f.end], datas + [f.data]);
    } else if f.kind == LAST && scratch.Some? {
      var record := scratch.value + f.data;
      assert record[|Join(datas)|..] == f.data && Join(datas) <= record;
      assert LastOf(step, file, places, datas, f.end, record);
    } else if f.kind != END_OF_FILE {
      RecordsAreSound(step, file, from, f.end, None, [], []);
    }
  }

  lemma BegunMore(step: Step, file: seq<byte>, places: seq<nat>, datas: seq<seq<byte>>, end: nat, data: seq<byte>)
    requires Begun(step, file, places, datas) && Lies(step, file, places[|datas|], end, MIDDLE, data)
    ensures Begun(step, file, places + [end], datas + [data]) && Join(datas + [data]) == Join(datas) + data
  {
    hide Lies;
    assert (datas + [data])[..|datas|] == datas;
  }

  // ---- What a writer wrote

  /** At position `p` of what the writer wrote comes one padded fragment, or nothing more. */
  ghost predicate Follows(step: Step, whole: seq<byte>, p: nat, next: Option<(byte, seq<byte>)>) {
    match next
    case None => p == |whole|
    case Some((kind, data)) =>
      && 1 <= kind <= 4 && |data| <= Room(p)
      && p + Pad(p) + HEADER_SIZE + |data| <= |whole|
      && whole[p + Pad(p)..p + Pad(p) + HEADER_SIZE + |data|] == Physical(step, kind, data)
  }

  lemma RemainingRoom(step: Step, whole: seq<byte>, p: nat, left: seq<byte>, begin: bool, end: nat)
    requires Remaining(step, whole, p, left, begin, end)
    ensures Piece(left, p) <= |left| && end <= |whole|
  {
    hide Fragments;
  }

  lemma SplitRecord(scratch: seq<byte>, left: seq<byte>, n: nat)
    requires n <= |left|
    ensures scratch + left[..n] + left[n..] == scratch + left
    ensures n == |left| ==> left[..n] == left
  {
    assert left == left[..n] + left[n..];
    Associate(scratch, left[..n], left[n..]);
  }

  /** From position `p` on the writer wrote exactly `records`. */
  ghost predicate Wrote(step: Step, whole: seq<byte>, p: nat, records: seq<seq<byte>>) {
    p <= |whole| && whole[p..] == Log(step, records, p)
  }

  /** From `p` to `end` comes what is left of a record. */
  ghost predicate Remaining(step: Step, whole: seq<byte>, p: nat, left: seq<byte>, begin: bool, end: nat) {
    p <= end <= |whole| && whole[p..end] == Fragments(step, left, begin, p)
  }

  /** At `p`, reading the first of the records that start at `start`: `scratch` has been read of it
      and `left` is still to come. */
  ghost predicate Midway(step: Step, whole: seq<byte>, records: seq<seq<byte>>, start: nat, p: nat,
                         left: seq<byte>, begin: bool, scratch: seq<byte>) {
    if records == [] then p == start == |whole| && begin && scratch == []
    else
      && scratch + left == records[0] && (begin ==> scratch == [])
      && Remaining(step, whole, p, left, begin, start + |Fragments(step, records[0], true, start)|)
  }

  ghost function NextFragment(records: seq<seq<byte>>, left: seq<byte>, begin: bool, p: nat)
    : Option<(byte, seq<byte>)>
  {
    if records == [] then None
    else Some((KindOf(begin, Piece(left, p) == |left|), left[..Piece(left, p)]))
  }

  lemma MidwayStarts(step: Step, whole: seq<byte>, records: seq<seq<byte>>, start: nat)
    requires Wrote(step, whole, start, records)
    ensures Midway(step, whole, records, start, start, if records == [] then [] else records[0], true, [])
  {
    hide Fragments;
    if records != [] {
      var first := Fragments(step, records[0], true, start);
      assert whole[start..start + |first|] == whole[start..][..|first|];
    }
  }

  lemma MidwayFollows(step: Step, whole: seq<byte>, records: seq<seq<byte>>, start: nat, p: nat,
                      left: seq<byte>, begin: bool, scratch: seq<byte>)
    requires Midway(step, whole, records, start, p, left, begin, scratch)
    ensures Follows(step, whole, p, NextFragment(records, left, begin, p))
  {
    if records != [] {
      RemainingStep(step, whole, p, left, begin, start + |Fragments(step, records[0], true, start)|);
    }
  }

  /** The next fragment is there, and the rest of the record after it. */
  lemma RemainingStep(step: Step, whole: seq<byte>, p: nat, left: seq<byte>, begin: bool, end: nat)
    requires Remaining(step, whole, p, left, begin, end)
    ensures var n := Piece(left, p);
            var q := p + Pad(p) + HEADER_SIZE + n;
            && Follows(step, whole, p, Some((KindOf(begin, n == |left|), left[..n]))) && q <= end
            && if n == |left| then q == end else Remaining(step, whole, q, left[n..], false, end)
  {
    var n, head := Piece(left, p), Head(step, left, begin, p);
    FragmentsUnfold(step, left, begin, p);
    hide Fragments, Physical, Pad, Zeros;
    if n == |left| {
      SliceOfConcat(whole, p, end, head, []);
    } else {
      SliceOfConcat(whole, p, end, head, Fragments(step, left[n..], false, p + |head|));
    }
    SliceOfConcat(whole, p, p + |head|, Zeros(Pad(p)), Physical(step, KindOf(begin, n == |left|), left[..n]));
  }

  lemma SliceOfConcat(whole: seq<byte>, p: nat, end: nat, a: seq<byte>, b: seq<byte>)
    requires p <= end <= |whole| && whole[p..end] == a + b
    ensures p + |a| <= end && whole[p..p + |a|] == a && whole[p + |a|..end] == b
  {
    assert whole[p..p + |a|] == whole[p..end][..|a|];
    assert whole[p + |a|..end] == whole[p..end][|a|..];
  }

  lemma ThreeParts(crc: seq<byte>, low: byte, high: byte, kind: byte, data: seq<byte>)
    requires |crc| == 4
    ensures var s := crc + [low, high, kind] + data;
            && s[..4] == crc && s[4] == low && s[5] == high && s[6] == kind
            && s[6..] == [kind] + data && s[7..] == data
  {
  }

  lemma SplitLength(n: nat)
    requires n < 0x1_0000
    ensures Two(n % 0x100, n / 0x100) == n
  {
  }

  lemma ChecksumRoundTrip(crc: uint32)
    ensures LittleEndian(Fixed(crc, 4)) == crc
  {
    assert Power256(4) == 0x1_0000_0000;
    FixedRoundTrip(crc, 4);
  }

  lemma WroteAll(step: Step, records: seq<seq<byte>>, whole: seq<byte>)
    requires whole == Log(step, records, 0)
    ensures Wrote(step, whole, 0, records)
  {
  }

  lemma PhysicalIsFragment(step: Step, kind: byte, data: seq<byte>)
    requires |data| < 0x1_0000
    ensures IsFragment(step, Physical(step, kind, data), kind, data)
  {
    hide Extend, Mask, Fixed;
    PhysicalParts(step, kind, data);
    ThreeParts(Fixed(Mask(Extend(step, 0, [kind] + data)), 4), |data| % 0x100, |data| / 0x100, kind, data);
  }

  /** Where the writer's next fragment is all in the file it is found, and otherwise the file ends quietly. */
  lemma FollowsFound(step: Step, whole: seq<byte>, file: seq<byte>, p: nat, next: Option<(byte, seq<byte>)>)
    requires Follows(step, whole, p, next) && file <= whole && p <= |file|
    ensures PhysicalAt(step, file, p) ==
      if next.Some? && p + Pad(p) + HEADER_SIZE + |next.value.1| <= |file|
      then Found(next.value.0, next.value.1, p + Pad(p) + HEADER_SIZE + |next.value.1|, 0)
      else Found(END_OF_FILE, [], |file|, 0)
  {
    hide Physical, Parse, IsFragment;
    var q := p + Pad(p);
    if q + HEADER_SIZE <= |file| {
      var (kind, data) := next.value;
      RoomForHeader(file, p);
      RoomInBlock(p, |data|);
      PhysicalIsFragment(step, kind, data);
      hide Pad, BlockEnd, Room;
      var b, n := RestOfBlock(file, q), HEADER_SIZE + |data|;
      if q + n <= |file| {
        assert b[..n] == file[q..q + n] == whole[q..q + n];
        ParseGood(step, b, q, BlockEnd(q) > |file|, kind, data);
      } else {
        assert forall i | 0 <= i < HEADER_SIZE :: b[i] == whole[q + i] == Physical(step, kind, data)[i];
        ParseShort(step, b, q, kind, data);
      }
    }
  }

  lemma RoomInBlock(p: nat, n: nat)
    requires n <= Room(p)
    ensures p + Pad(p) + HEADER_SIZE + n <= BlockEnd(p + Pad(p)) && n < 0x1_0000
  {
  }

  lemma ParseShort(step: Step, b: seq<byte>, q: nat, kind: byte, data: seq<byte>)
    requires HEADER_SIZE <= |b| < HEADER_SIZE + |data| && |data| < 0x1_0000
    requires forall i | 0 <= i < HEADER_SIZE :: b[i] == Physical(step, kind, data)[i]
    ensures Parse(step, b, q, true) == Found(END_OF_FILE, [], q + |b|, 0)
  {
    PhysicalIsFragment(step, kind, data);
    SplitLength(|data|);
    hide Extend, Mask, Fixed, Physical;
  }

  /** In the middle of what the writer wrote, reading gives its record if the file holds all of it. */
  lemma {:induction false} ScanMidway(step: Step, whole: seq<byte>, file: seq<byte>, records: seq<seq<byte>>, start: nat,
                                      p: nat, left: seq<byte>, begin: bool, scratch: seq<byte>)
    requires file <= whole && p <= |file| && Midway(step, whole, records, start, p, left, begin, scratch)
    ensures Scan(step, file, p, if begin then None else Some(scratch)) == Whole(step, file, records, start)
    decreases |file| - p
  {
    hide Scan, PhysicalAt, Follows, Fragments, Pad, Piece, Remaining;
    MidwayFollows(step, whole, records, start, p, left, begin, scratch);
    FollowsFound(step, whole, file, p, NextFragment(records, left, begin, p));
    if records == [] {
      ScanFound(step, file, p, None, END_OF_FILE, [], |file|);
    } else {
      MidwayOn(step, whole, records, start, p, left, begin, scratch);
      var n := Piece(left, p);
      var joined, q := scratch + left[..n], p + Pad(p) + HEADER_SIZE + n;
      hide Midway;
      var before := if begin then None else Some(scratch);
      if q > |file| {
        ScanFound(step, file, p, before, END_OF_FILE, [], |file|);
      } else {
        ScanFound(step, file, p, before, KindOf(begin, n == |left|), left[..n], q);
        if n < |left| {
          ScanMidway(step, whole, file, records, start, q, left[n..], false, joined);
        }
      }
    }
  }

  /** Where the next fragment ends, and what has been joined then. */
  lemma MidwayOn(step: Step, whole: seq<byte>, records: seq<seq<byte>>, start: nat, p: nat, left: seq<byte>, begin: bool,
                 scratch: seq<byte>)
    requires records != [] && Midway(step, whole, records, start, p, left, begin, scratch)
    ensures var n := Piece(left, p);
      var q, end := p + Pad(p) + HEADER_SIZE + n, start + |Fragments(step, records[0], true, start)|;
      var joined := scratch + left[..n];
      && n <= |left| && q <= end && (begin ==> joined == left[..n])
      && if n == |left| then q == end && joined == records[0] else Midway(step, whole, records, start, q, left[n..], false, joined)
  {
    var end := start + |Fragments(step, records[0], true, start)|;
    RemainingStep(step, whole, p, left, begin, end);
    RemainingRoom(step, whole, p, left, begin, end);
    SplitRecord(scratch, left, Piece(left, p));
    hide Follows, Remaining, Fragments, Pad, Piece;
  }

  /** One step of the scan, where a good fragment or the end is found. */
  lemma ScanFound(step: Step, file: seq<byte>, p: nat, scratch: Option<seq<byte>>, kind: nat, data: seq<byte>, end: nat)
    requires p <= |file| && PhysicalAt(step, file, p) == Found(kind, data, end, 0)
    ensures end <= |file|
    ensures var r := Scan(step, file, p, scratch);
      match kind
      case 1 => scratch.None? ==> r == Read(true, data, end, 0)
      case 2 => scratch.None? ==> r == Scan(step, file, end, Some(data))
      case 3 => scratch.Some? ==> r == Scan(step, file, end, Some(scratch.value + data))
      case 4 => scratch.Some? ==> r == Read(true, scratch.value + data, end, 0)
      case 5 => r == Read(false, [], end, 0)
      case _ => true
  {
    hide PhysicalAt;
  }

  /** The first of the records that the writer wrote from `start` on, if the file holds all of it. */
  function Whole(step: Step, file: seq<byte>, records: seq<seq<byte>>, start: nat): Read {
    if records != [] && start + |Fragments(step, records[0], true, start)| <= |file|
    then Read(true, records[0], start + |Fragments(step, records[0], true, start)|, 0)
    else Read(false, [], |file|, 0)
  }

  lemma ScanWrote(step: Step, whole: seq<byte>, file: seq<byte>, records: seq<seq<byte>>, p: nat)
    requires file <= whole && p <= |file| && Wrote(step, whole, p, records)
    ensures Scan(step, file, p, None) == Whole(step, file, records, p)
  {
    MidwayStarts(step, whole, records, p);
    ScanMidway(step, whole, file, records, p, p, if records == [] then [] else records[0], true, []);
  }
}
