/** The region file's sector allocator: first fit, grow at the end, or rewrite in place. */
module RegionFile {
  import opened Bytes
  import opened RegionFormat

  /** The lowest run of `count` free sectors, if there is one. */
  ghost predicate FirstFit(free: seq<bool>, count: nat, start: Option<nat>) {
    && (start.Some? ==> AllFree(free, start.value, count))
    && forall t | 0 <= t < (if start.Some? then start.value else |free|) :: !AllFree(free, t, count)
  }

  /** No run of `count` starts before `t`, and the sectors from `t` up to `i` are free. */
  ghost predicate Searched(free: seq<bool>, count: nat, i: nat, t: nat) {
    && t <= i <= |free| && (forall k | t <= k < i :: free[k])
    && forall u | 0 <= u < t :: !AllFree(free, u, count)
  }

  lemma SearchOn(free: seq<bool>, count: nat, i: nat, t: nat)
    requires Searched(free, count, i, t) && i < |free| && i - t < count
    ensures if free[i] then Searched(free, count, i + 1, t) else Searched(free, count, i + 1, i + 1)
  {
  }

  lemma SearchEnds(free: seq<bool>, count: nat, i: nat, t: nat)
    requires Searched(free, count, i, t) && count >= 1
    ensures i - t >= count ==> FirstFit(free, count, Some(t))
    ensures i == |free| && i - t < count ==> FirstFit(free, count, None)
  {
  }

  function Zeros(n: nat): seq<byte> {
    seq(n, _ => 0)
  }

  function Falses(n: nat): seq<bool> {
    seq(n, _ => false)
  }

  datatype Outcome = Absent | Chunk(version: byte, data: seq<byte>) | Throws

  /** `count` bytes from `at`; what lies past the end of the file stays zero. */
  function ReadAt(file: seq<byte>, at: nat, count: nat): (bs: seq<byte>)
    ensures |bs| == count
  {
    if at + count <= |file| then file[at..at + count]
    else if at <= |file| then file[at..] + Zeros(at + count - |file|)
    else Zeros(count)
  }

  function OffsetTable(file: seq<byte>): (os: seq<int32>)
    requires CHUNKS * 4 <= |file|
    ensures |os| == CHUNKS
  {
    seq(CHUNKS, i requires 0 <= i < CHUNKS => WordAt(file, 4 * i))
  }

  /** A file that can be opened: empty or short, or whole sectors with a sound offset table. */
  ghost predicate Openable(file: seq<byte>) {
    |file| < SECTOR_BYTES ||
    (&& 2 * SECTOR_BYTES <= |file| < 0x8000_0000 && |file| % SECTOR_BYTES == 0
     && (forall i | 0 <= i < CHUNKS :: OffsetTable(file)[i] >= 0)
     && Separate(OffsetTable(file), |file| / SECTOR_BYTES))
  }

  /** What opening a file makes of it. */
  function Opened(file: seq<byte>): seq<byte> {
    if |file| < SECTOR_BYTES then Zeros(2 * SECTOR_BYTES) else file
  }

  /** The second sector: a time for each chunk. */
  function Times(file: seq<byte>): (t: seq<byte>)
    requires 2 * SECTOR_BYTES <= |file|
    ensures |t| == SECTOR_BYTES
  {
    file[SECTOR_BYTES..2 * SECTOR_BYTES]
  }

  ghost predicate SameTimes(a: seq<byte>, b: seq<byte>) {
    2 * SECTOR_BYTES <= |a| && 2 * SECTOR_BYTES <= |b| && Times(a) == Times(b)
  }

  lemma TimesElsewhere(file: seq<byte>, at: nat, bs: seq<byte>)
    requires 2 * SECTOR_BYTES <= |file| && at + |bs| <= |file| && (at + |bs| <= SECTOR_BYTES || 2 * SECTOR_BYTES <= at)
    ensures SameTimes(file, Overwrite(file, at, bs))
  {
    OverwriteElsewhere(file, at, bs, SECTOR_BYTES, 2 * SECTOR_BYTES);
  }

  lemma TimesGrow(file: seq<byte>, more: seq<byte>)
    requires 2 * SECTOR_BYTES <= |file|
    ensures SameTimes(file, file + more)
  {
  }

  /** A time entered is in its place, and the other times stay. */
  lemma TimeEntered(file: seq<byte>, i: nat, word: seq<byte>)
    requires 2 * SECTOR_BYTES <= |file| && i < CHUNKS && |word| == 4
    ensures Times(Overwrite(file, 4 * i + SECTOR_BYTES, word)) == Overwrite(Times(file), 4 * i, word)
  {
  }

  /** Where a chunk of `needed` sectors goes when it has given up its own: the first run of free sectors, or
      the end of the file. */
  ghost predicate FirstFitOrEnd(freed: seq<bool>, needed: nat, start: nat, sectors: nat) {
    if exists t :: 0 <= t < |freed| && AllFree(freed, t, needed)
    then AllFree(freed, start, needed) && sectors == |freed| && forall t | 0 <= t < start :: !AllFree(freed, t, needed)
    else start == |freed| && sectors == |freed| + needed
  }

  /** What reading the chunk whose sectors begin at `at` makes of any bytes there: nothing, if the length
      exceeds the sectors or the kind of compression is unknown; otherwise the bytes, unless the length is not
      positive. */
  ghost predicate IsOutcome(file: seq<byte>, at: nat, sectors: nat, r: Outcome)
    requires at + 5 <= |file|
  {
    var length, version := WordAt(file, at), file[at + 4];
    match r
    case Absent => length > sectors * 4096 || version !in {1, 2}
    case Throws => length < 1 && version in {1, 2}
    case Chunk(v, data) =>
      1 <= length <= sectors * 4096 && v == version && version in {1, 2} && |data| == length - 1
      && forall k | 0 <= k < length - 1 :: data[k] == if at + 5 + k < |file| then file[at + 5 + k] else 0
  }

  class RegionFile {
    var file: seq<byte>
    const offsets: array<nat>
    var sectorFree: seq<bool>
    var sizeDelta: nat
    ghost var stored: map<nat, seq<byte>>    // payloads written to the file

    ghost predicate Valid()
      reads this, offsets
    {
      && offsets.Length == CHUNKS && Sound(offsets[..], sectorFree, file)
      && forall i | i in stored :: i < CHUNKS && Holds(file, offsets[i], stored[i])
    }

    constructor (contents: seq<byte>)
      requires Openable(contents)
      ensures Valid() && fresh(offsets) && stored == map[] && file == Opened(contents)
      ensures forall i | 0 <= i < CHUNKS :: offsets[i] == OffsetTable(Opened(contents))[i]
      ensures sizeDelta == if |contents| < SECTOR_BYTES then 2 * SECTOR_BYTES else 0
    {
      file := Opened(contents);
      sizeDelta := if |contents| < SECTOR_BYTES then 2 * SECTOR_BYTES else 0;
      offsets := new nat[CHUNKS](_ => 0);
      sectorFree := seq(|Opened(contents)| / SECTOR_BYTES, k => k >= 2);
      stored := map[];
      new;
      OpenedSound(contents);
      ReadTable();
      TableHolds(file);
    }

    /** Reads the offset table and marks the sectors of every chunk as taken. */
    method ReadTable()
      requires CHUNKS * 4 <= |file| && offsets.Length == CHUNKS
      requires forall i | 0 <= i < CHUNKS :: OffsetTable(file)[i] >= 0
      requires Separate(OffsetTable(file), |sectorFree|)
      requires forall k | 0 <= k < |sectorFree| :: sectorFree[k] == (k >= 2)
      modifies offsets, this`sectorFree
      ensures offsets[..] == OffsetTable(file) && |sectorFree| == old(|sectorFree|)
      ensures FreeMap(offsets[..], sectorFree)
    {
      ghost var table: seq<nat> := OffsetTable(file);
      assert forall k :: !SomeOwns(table[..0], k);
      assert FreeMap(table[..0], sectorFree);
      hide FreeMap, OffsetTable, Separate, InFile, SomeOwns, Marked, WordAt;
      for i := 0 to CHUNKS
        invariant |sectorFree| == old(|sectorFree|)
        invariant offsets[..i] == table[..i] && FreeMap(table[..i], sectorFree)
      {
        EntryAt(file, i);
        EntryInFile(table, |sectorFree|, i);
        var offset := WordAt(file, 4 * i);
        offsets[i] := offset;
        ghost var before := sectorFree;
        if offset != 0 && FirstSector(offset) + SectorCount(offset) <= |sectorFree| {
          SetFree(FirstSector(offset), SectorCount(offset), false);
        }
        MarkNext(table, i, before, sectorFree);
        assert offsets[..i + 1] == offsets[..i] + [offset] && table[..i + 1] == table[..i] + [table[i]];
      }
      assert table[..CHUNKS] == table && offsets[..CHUNKS] == offsets[..];
    }

    method SetFree(from: nat, count: nat, value: bool)
      requires from + count <= |sectorFree|
      modifies this`sectorFree
      ensures sectorFree == Marked(old(sectorFree), from, count, value)
    {
      for i := 0 to count
        invariant sectorFree == Marked(old(sectorFree), from, i, value)
      {
        sectorFree := sectorFree[from + i := value];
      }
    }

    /** First fit. */
    method FindRun(needed: nat) returns (run: Option<nat>)
      requires needed >= 1
      ensures FirstFit(sectorFree, needed, run)
    {
      var runStart := 0;
      while runStart < |sectorFree| && !sectorFree[runStart]
        invariant Searched(sectorFree, needed, runStart, runStart)
      {
        SearchOn(sectorFree, needed, runStart, runStart);
        runStart := runStart + 1;
      }
      var i, runLength := runStart, 0;
      while i < |sectorFree| && runLength < needed
        invariant i <= |sectorFree| && runLength <= needed && runStart + runLength <= i
        invariant Searched(sectorFree, needed, i, if runLength == 0 then i else runStart)
        invariant runLength > 0 ==> runStart + runLength == i
      {
        SearchOn(sectorFree, needed, i, if runLength == 0 then i else runStart);
        if runLength != 0 {
          runLength := if sectorFree[i] then runLength + 1 else 0;
        } else if sectorFree[i] {
          runStart, runLength := i, 1;
        }
        i := i + 1;
      }
      SearchEnds(sectorFree, needed, i, if runLength == 0 then i else runStart);
      run := if runLength >= needed then Some(runStart) else None;
    }

    method SetOffset(i: nat, offset: nat)
      requires i < CHUNKS == offsets.Length && CHUNKS * 4 <= |file|
      modifies offsets, this`file
      ensures offsets[..] == old(offsets[..])[i := offset] && file == Overwrite(old(file), 4 * i, Word(offset))
    {
      offsets[i] := offset;
      file := Overwrite(file, 4 * i, Word(offset));
    }

    method SetTimestamp(i: nat, seconds: nat)
      requires i < CHUNKS && 2 * SECTOR_BYTES <= |file|
      modifies this`file
      ensures file == Overwrite(old(file), 4 * i + SECTOR_BYTES, Word(seconds))
    {
      file := Overwrite(file, 4 * i + SECTOR_BYTES, Word(seconds));
    }

    method WriteSectors(sector: nat, data: seq<byte>)
      requires sector < 0x8_0000 && sector * SECTOR_BYTES + |Encoded(data)| <= |file|
      modifies this`file
      ensures file == Overwrite(old(file), sector * SECTOR_BYTES, Encoded(data))
    {
      SeekExact(sector);
      var at: nat := SeekTo(sector);
      OverwriteTwice(file, at, Word(|data| + 1), [2]);
      OverwriteTwice(file, at, Word(|data| + 1) + [2], data);
      file := Overwrite(file, at, Word(|data| + 1));
      file := Overwrite(file, at + 4, [2]);
      file := Overwrite(file, at + 5, data);
    }

    /** Stores the first `length` bytes of `data` as the chunk at (x, z).  Chunks of 256 sectors
        or more are dropped silently.  The file must stay below two gigabytes. */
    method Write(x: nat, z: nat, data: seq<byte>, length: nat, seconds: nat)
      requires Valid() && x < 32 && z < 32 && length <= |data| < 0x7FFF_FFF0 && |sectorFree| + 255 <= 0x8_0000
      modifies this, offsets
      ensures Valid() && |sectorFree| >= old(|sectorFree|)
      ensures SectorsNeeded(length) >= 256 ==>
        file == old(file) && offsets[..] == old(offsets[..]) && sectorFree == old(sectorFree) && stored == old(stored)
      ensures SectorsNeeded(length) < 256 ==> stored == old(stored)[z * 32 + x := data[..length]]
      ensures
        var offset, needed := old(offsets[z * 32 + x]), SectorsNeeded(length);
        var sector, count := offset / 0x100, offset % 0x100;
        needed < 256 ==>
          if sector != 0 && count == needed then offsets[z * 32 + x] == offset && |sectorFree| == old(|sectorFree|)
          else
            && offsets[z * 32 + x] % 0x100 == needed
            && FirstFitOrEnd(Marked(old(sectorFree), sector, count, true), needed, offsets[z * 32 + x] / 0x100, |sectorFree|)
      ensures SectorsNeeded(length) < 256 ==>
        |old(file)| >= 2 * SECTOR_BYTES && |file| >= 2 * SECTOR_BYTES
        && Times(file) == Overwrite(Times(old(file)), 4 * (z * 32 + x), Word(seconds))
      ensures forall i | 0 <= i < CHUNKS && i != z * 32 + x ::
        offsets[i] == old(offsets[i]) && SameChunk(old(file), file, offsets[i])
      ensures sizeDelta == old(sizeDelta) + (|sectorFree| - old(|sectorFree|)) * SECTOR_BYTES
    {
      hide Sound, SameChunk, Holds, SectorsNeeded, FirstFitOrEnd, Marked, Times, Overwrite, Word;
      var i := z * 32 + x;
      assert 2 * SECTOR_BYTES <= |file| by { SoundSize(offsets[..], sectorFree, file); }
      var needed := SectorsNeeded(length);
      if needed < 256 {
        ghost var was, before := offsets[..], file;
        if FirstSector(offsets[i]) == 0 || SectorCount(offsets[i]) != needed {
          Reallocate(i, needed, data[..length]);
        } else {
          Rewrite(i, data[..length]);
        }
        ghost var placed := file;
        TimeEntered(file, i, Word(seconds));
        SetTimestamp(i, seconds);
        StampKeeps(offsets[..], sectorFree, placed, 4 * i + SECTOR_BYTES, Word(seconds));
        StoredStays(was, offsets[..], i, before, placed, file, stored, data[..length]);
        stored := stored[i := data[..length]];
        assert forall j | 0 <= j < CHUNKS :: offsets[j] == offsets[..][j] && was[j] == old(offsets[j]);
      } else {
        SameAsItself(offsets[..], sectorFree, file);
      }
    }

    /** The chunk keeps its sectors. */
    method Rewrite(i: nat, data: seq<byte>)
      requires Valid() && i < CHUNKS && offsets[i] != 0 && SectorCount(offsets[i]) == SectorsNeeded(|data|)
      requires |data| + 1 < 0x8000_0000
      modifies this`file
      ensures Sound(offsets[..], sectorFree, file) && Holds(file, offsets[i], data)
      ensures Moved(offsets[..], offsets[..], i, old(file), file) && SameTimes(old(file), file)
    {
      PlaceChunk(offsets[..], i, file, data, offsets[..]);
      PlaceSparesTimes(offsets[i], file, data);
      WriteSectors(FirstSector(offsets[i]), data);
    }

    /** The chunk gives up its sectors and moves to the first run that fits, or to the end. */
    method Reallocate(i: nat, needed: nat, data: seq<byte>)
      requires Valid() && i < CHUNKS && needed == SectorsNeeded(|data|) < 256 && |sectorFree| + 255 <= 0x8_0000
      modifies this`file, this`sectorFree, this`sizeDelta, offsets
      ensures Sound(offsets[..], sectorFree, file) && Holds(file, offsets[i], data)
      ensures |sectorFree| >= old(|sectorFree|)
      ensures sizeDelta == old(sizeDelta) + (|sectorFree| - old(|sectorFree|)) * SECTOR_BYTES
      ensures Moved(old(offsets[..]), offsets[..], i, old(file), file) && SameTimes(old(file), file)
      ensures SectorCount(offsets[i]) == needed
      ensures FirstFitOrEnd(Marked(old(sectorFree), FirstSector(old(offsets[i])), SectorCount(old(offsets[i])), true),
                            needed, FirstSector(offsets[i]), |sectorFree|)
    {
      ghost var was := offsets[..];
      ReleaseKeeps(was, sectorFree, i);
      SetFree(FirstSector(offsets[i]), SectorCount(offsets[i]), true);
      ghost var freed := sectorFree;
      var run := FindRun(needed);
      FitMeans(freed, needed, run);
      if run.Some? {
        Reuse(i, run.value, needed, data);
      } else {
        Grow(i, needed, data);
      }
    }

    method Reuse(i: nat, start: nat, needed: nat, data: seq<byte>)
      requires offsets.Length == CHUNKS && Released(offsets[..], i, sectorFree, file)
      requires needed == SectorsNeeded(|data|) < 256 && AllFree(sectorFree, start, needed)
      modifies this`file, this`sectorFree, offsets
      ensures Sound(offsets[..], sectorFree, file) && Holds(file, offsets[i], data)
      ensures |sectorFree| == old(|sectorFree|) && Moved(old(offsets[..]), offsets[..], i, old(file), file)
      ensures offsets[i] == PackOffset(start, needed) && SameTimes(old(file), file)
    {
      ghost var was, offset, before := offsets[..], PackOffset(start, needed), file;
      Unpack(start, needed);
      ClaimKeeps(was[i := 0], sectorFree, i, start, needed);
      assert was[i := 0][i := offset] == was[i := offset];
      LinkChunk(was, i, offset, before);
      SetOffset(i, PackOffset(start, needed));
      SetFree(start, needed, false);
      ghost var linked := file;
      TimesElsewhere(before, 4 * i, Word(offset));
      PlaceChunk(offsets[..], i, file, data, offsets[..]);
      PlaceSparesTimes(offset, file, data);
      WriteSectors(start, data);
      MovedTwice(was, offsets[..], offsets[..], i, before, linked, file);
    }

    /** Empty sectors at the end of the file, already taken. */
    method Extend(needed: nat)
      modifies this`file, this`sectorFree, this`sizeDelta
      ensures file == old(file) + Zeros(needed * SECTOR_BYTES)
      ensures sectorFree == old(sectorFree) + Falses(needed)
      ensures sizeDelta == old(sizeDelta) + needed * SECTOR_BYTES
    {
      for n := 0 to needed
        invariant file == old(file) + Zeros(n * SECTOR_BYTES)
        invariant sectorFree == old(sectorFree) + Falses(n) && sizeDelta == old(sizeDelta)
      {
        file := file + Zeros(SECTOR_BYTES);
        sectorFree := sectorFree + [false];
        assert Zeros(n * SECTOR_BYTES) + Zeros(SECTOR_BYTES) == Zeros((n + 1) * SECTOR_BYTES);
        assert Falses(n) + [false] == Falses(n + 1);
      }
      sizeDelta := sizeDelta + needed * SECTOR_BYTES;
    }

    method Grow(i: nat, needed: nat, data: seq<byte>)
      requires offsets.Length == CHUNKS && Released(offsets[..], i, sectorFree, file)
      requires needed == SectorsNeeded(|data|) < 256 && |sectorFree| + needed <= 0x8_0000
      modifies this`file, this`sectorFree, this`sizeDelta, offsets
      ensures Sound(offsets[..], sectorFree, file) && Holds(file, offsets[i], data)
      ensures |sectorFree| == old(|sectorFree|) + needed && sizeDelta == old(sizeDelta) + needed * SECTOR_BYTES
      ensures Moved(old(offsets[..]), offsets[..], i, old(file), file)
      ensures offsets[i] == PackOffset(old(|sectorFree|), needed) && SameTimes(old(file), file)
    {
      hide HeaderHolds, Separate, FreeMap, SameChunk, Holds, Moved, Overwrite, Encoded;
      ghost var was, before, free := offsets[..], file, sectorFree;
      var sector := |sectorFree|;
      ghost var offset := PackOffset(sector, needed);
      Unpack(sector, needed);
      GrowKeeps(was[i := 0], sectorFree, needed);
      ClaimKeeps(was[i := 0], free + seq(needed, k => true), i, sector, needed);
      assert was[i := 0][i := offset] == was[i := offset];
      Extend(needed);
      assert sectorFree == Marked(free + seq(needed, k => true), sector, needed, false);
      ghost var longer := file;
      GrowFile(was, i, before, Zeros(needed * SECTOR_BYTES));
      PlaceChunk(was[i := offset], i, file, data, was);
      TimesGrow(before, Zeros(needed * SECTOR_BYTES));
      PlaceSparesTimes(offset, file, data);
      WriteSectors(sector, data);
      ghost var placed := file;
      TimesElsewhere(file, 4 * i, Word(offset));
      LinkChunk(was, i, offset, file);
      SetOffset(i, PackOffset(sector, needed));
      SameChunkHolds(placed, file, offset, data);
      MovedAnyway(was, was, i, before, longer, offset);
      MovedAnyway(was, offsets[..], i, placed, file, offset);
      assert offsets[..][i := offset] == offsets[..];
      MovedTwice(was, was[i := offset], was[i := offset], i, before, longer, placed);
      MovedTwice(was, was[i := offset], offsets[..], i, before, placed, file);
    }

    /** The compressed bytes of a chunk and how they are compressed. */
    method Read(x: int, z: int) returns (r: Outcome)
      requires Valid()
      ensures x < 0 || x >= 32 || z < 0 || z >= 32 ==> r == Absent
      ensures 0 <= x < 32 && 0 <= z < 32 && offsets[z * 32 + x] == 0 ==> r == Absent
      ensures 0 <= x < 32 && 0 <= z < 32 && z * 32 + x in stored ==> r == Chunk(2, stored[z * 32 + x])
      ensures 0 <= x < 32 && 0 <= z < 32 && offsets[z * 32 + x] != 0 ==>
        (offsets[z * 32 + x] / 0x100) * 4096 + 5 <= |file|
        && IsOutcome(file, (offsets[z * 32 + x] / 0x100) * 4096, offsets[z * 32 + x] % 0x100, r)
    {
      hide HeaderHolds, FreeMap, InFile, SomeOwns, Encoded;
      if x < 0 || x >= 32 || z < 0 || z >= 32 {
        return Absent;
      }
      var offset := offsets[z * 32 + x];
      if offset == 0 {
        return Absent;
      }
      assert InFile(offsets[..][z * 32 + x], |sectorFree|);
      r := ReadSectors(offset);
    }

    method ReadSectors(offset: nat) returns (r: Outcome)
      requires offset != 0 && InFile(offset, |file| / SECTOR_BYTES)
      ensures forall data :: Holds(file, offset, data) ==> r == Chunk(2, data)
      ensures FirstSector(offset) * SECTOR_BYTES + 5 <= |file|
      ensures IsOutcome(file, FirstSector(offset) * SECTOR_BYTES, SectorCount(offset), r)
    {
      hide WordAt, Holds, ReadAt;
      var at, sectors := FirstSector(offset) * SECTOR_BYTES, SectorCount(offset);
      forall data | Holds(file, offset, data)
        ensures WordAt(file, at) == |data| + 1 <= sectors * SECTOR_BYTES && file[at + 4] == 2
        ensures ReadAt(file, at + 5, |data|) == data
      {
        HoldsReads(file, offset, data);
      }
      var length := WordAt(file, at);
      if length > sectors * SECTOR_BYTES {
        return Absent;
      }
      var version := file[at + 4];
      if version != 1 && version != 2 {
        return Absent;
      }
      if length < 1 {
        return Throws;
      }
      ReadAtBytes(file, at + 5, length - 1);
      return Chunk(version, ReadAt(file, at + 5, length - 1));
    }
  }

  lemma ReadAtBytes(file: seq<byte>, at: nat, count: nat)
    ensures forall k | 0 <= k < count :: ReadAt(file, at, count)[k] == if at + k < |file| then file[at + k] else 0
  {
  }

  lemma SoundSize(offsets: seq<nat>, free: seq<bool>, file: seq<byte>)
    requires Sound(offsets, free, file)
    ensures 2 * SECTOR_BYTES <= |file|
  {
  }

  lemma PlaceSparesTimes(offset: nat, file: seq<byte>, data: seq<byte>)
    requires 2 * SECTOR_BYTES <= |file| && 2 <= FirstSector(offset) && FirstSector(offset) * SECTOR_BYTES + |Encoded(data)| <= |file|
    ensures SameTimes(file, Overwrite(file, FirstSector(offset) * SECTOR_BYTES, Encoded(data)))
  {
    TimesElsewhere(file, FirstSector(offset) * SECTOR_BYTES, Encoded(data));
  }

  lemma FitMeans(freed: seq<bool>, needed: nat, run: Option<nat>)
    requires FirstFit(freed, needed, run) && needed >= 1
    ensures run.Some? ==> FirstFitOrEnd(freed, needed, run.value, |freed|)
    ensures run.None? ==> FirstFitOrEnd(freed, needed, |freed|, |freed| + needed)
  {
  }

  /** What a reader of the chunk's sectors finds there. */
  lemma HoldsReads(file: seq<byte>, offset: nat, data: seq<byte>)
    requires Holds(file, offset, data) && 1 <= SectorCount(offset)
    ensures var at := FirstSector(offset) * SECTOR_BYTES;
      && WordAt(file, at) == |data| + 1 <= SectorCount(offset) * SECTOR_BYTES
      && file[at + 4] == 2 && ReadAt(file, at + 5, |data|) == data
  {
    var at, bytes := FirstSector(offset) * SECTOR_BYTES, Encoded(data);
    assert file[at..at + |bytes|] == ChunkBytes(file, offset)[..|bytes|] == bytes;
    assert file[at..at + 4] == bytes[..4] == Word(|data| + 1);
    WordRoundTrip(file, at, |data| + 1);
    assert file[at + 4] == bytes[4];
    assert file[at + 5..at + 5 + |data|] == bytes[5..] == data;
  }

  /** Closing and opening the file again finds the same chunks, with the same payloads, and the same
      free sectors. */
  method Reopen(r: RegionFile) returns (again: RegionFile)
    requires r.Valid() && |r.sectorFree| < 0x8_0000
    ensures fresh(again) && again.Valid() && again.file == r.file
    ensures again.offsets[..] == r.offsets[..] && again.sectorFree == r.sectorFree && again.stored == r.stored
  {
    TableRead(r.file, r.offsets[..]);
    again := new RegionFile(r.file);
    assert again.offsets[..] == r.offsets[..];
    FreeMapUnique(r.offsets[..], r.sectorFree, again.sectorFree);
    again.stored := r.stored;
  }

  /** Every chunk that was written is read back after the file was closed and opened again. */
  method ReadAfterReopen(r: RegionFile, x: int, z: int) returns (got: Outcome)
    requires r.Valid() && |r.sectorFree| < 0x8_0000 && 0 <= x < 32 && 0 <= z < 32
    ensures z * 32 + x in r.stored ==> got == Chunk(2, r.stored[z * 32 + x])
    ensures r.offsets[z * 32 + x] == 0 ==> got == Absent
  {
    var again := Reopen(r);
    assert again.offsets[..][z * 32 + x] == r.offsets[..][z * 32 + x];
    got := again.Read(x, z);
  }

  lemma TableRead(file: seq<byte>, offsets: seq<nat>)
    requires HeaderHolds(file, offsets)
    ensures forall i | 0 <= i < CHUNKS :: OffsetTable(file)[i] == offsets[i]
  {
    hide WordAt, Word;
    forall i | 0 <= i < CHUNKS ensures OffsetTable(file)[i] == offsets[i] {
      WordRoundTrip(file, 4 * i, offsets[i]);
    }
  }

  lemma FreeMapUnique(offsets: seq<nat>, a: seq<bool>, b: seq<bool>)
    requires FreeMap(offsets, a) && FreeMap(offsets, b) && |a| == |b|
    ensures a == b
  {
  }

  /** The offset table is as in memory; the allocator's view is that chunk `i` has no sectors. */
  ghost predicate Released(offsets: seq<nat>, i: nat, free: seq<bool>, file: seq<byte>) {
    && |file| == |free| * SECTOR_BYTES && 2 <= |free| <= 0x8_0000 && HeaderHolds(file, offsets) && i < CHUNKS
    && Separate(offsets[i := 0], |free|) && FreeMap(offsets[i := 0], free)
  }

  /** Only chunk `i` changed its place, and no other chunk changed its bytes. */
  ghost predicate Moved(a: seq<nat>, b: seq<nat>, i: nat, before: seq<byte>, after: seq<byte>) {
    && |a| == |b| == CHUNKS
    && forall j | 0 <= j < CHUNKS && j != i :: b[j] == a[j] && SameChunk(before, after, b[j])
  }

  ghost predicate Sound(offsets: seq<nat>, free: seq<bool>, file: seq<byte>) {
    && |file| == |free| * SECTOR_BYTES && 2 <= |free| <= 0x8_0000
    && HeaderHolds(file, offsets) && Separate(offsets, |free|) && FreeMap(offsets, free)
  }

  lemma TableHolds(file: seq<byte>)
    requires 2 * SECTOR_BYTES <= |file| && forall i | 0 <= i < CHUNKS :: OffsetTable(file)[i] >= 0
    ensures HeaderHolds(file, OffsetTable(file))
  {
    hide Wrap32, Word;
    forall i | 0 <= i < CHUNKS
      ensures OffsetTable(file)[i] < 0x8000_0000 && file[4 * i..4 * i + 4] == Word(OffsetTable(file)[i])
    {
      assert OffsetTable(file)[i] == WordAt(file, 4 * i);
      WordSpelled(file, 4 * i);
    }
  }

  lemma WordSpelled(s: seq<byte>, at: nat)
    requires at + 4 <= |s| && WordAt(s, at) >= 0
    ensures s[at..at + 4] == Word(WordAt(s, at))
  {
    hide Wrap32, Word;
    SpellsWord(s[at], s[at + 1], s[at + 2], s[at + 3]);
  }

  lemma Div256(q: nat, r: byte)
    ensures (q * 0x100 + r) / 0x100 == q && (q * 0x100 + r) % 0x100 == r
  {
  }

  lemma SpellsWord(a: byte, b: byte, c: byte, d: byte)
    requires Wrap32(BigEndian(a, b, c, d)) >= 0
    ensures Word(Wrap32(BigEndian(a, b, c, d))) == [a, b, c, d]
  {
    var x: nat := a as nat;
    var y: nat := x * 0x100 + b as nat;
    var z: nat := y * 0x100 + c as nat;
    var n: nat := z * 0x100 + d as nat;
    assert Wrap32(BigEndian(a, b, c, d)) == n;
    Div256(z, d);
    Div256(y, c);
    Div256(x, b);
    Div256(0, a);
    DivTwice(n);
  }

  lemma DivTwice(n: nat)
    ensures n / 0x1_0000 == n / 0x100 / 0x100 && n / 0x100_0000 == n / 0x100 / 0x100 / 0x100
  {
  }

  lemma WordOfZeros(s: seq<byte>, at: nat)
    requires at + 4 <= |s| && s[at] == s[at + 1] == s[at + 2] == s[at + 3] == 0
    ensures WordAt(s, at) == 0
  {
    hide Wrap32;
    assert BigEndian(s[at], s[at + 1], s[at + 2], s[at + 3]) == 0;
    WrapZero();
  }

  lemma WrapZero()
    ensures Wrap32(0) == 0
  {
  }

  lemma ZeroTable(file: seq<byte>)
    requires CHUNKS * 4 <= |file| && forall i | 0 <= i < |file| :: file[i] == 0
    ensures forall i | 0 <= i < CHUNKS :: OffsetTable(file)[i] == 0
  {
    hide WordAt;
    forall i | 0 <= i < CHUNKS ensures OffsetTable(file)[i] == 0 {
      WordOfZeros(file, 4 * i);
    }
  }

  lemma OpenedSound(contents: seq<byte>)
    requires Openable(contents)
    ensures var file := Opened(contents);
      && 2 * SECTOR_BYTES <= |file| < 0x8000_0000 && |file| % SECTOR_BYTES == 0
      && (forall i | 0 <= i < CHUNKS :: OffsetTable(file)[i] >= 0)
      && Separate(OffsetTable(file), |file| / SECTOR_BYTES)
  {
    hide OffsetTable;
    if |contents| < SECTOR_BYTES {
      ZeroTable(Opened(contents));
    }
  }

  lemma EntryAt(file: seq<byte>, i: nat)
    requires CHUNKS * 4 <= |file| && i < CHUNKS
    ensures OffsetTable(file)[i] == WordAt(file, 4 * i)
  {
  }

  lemma EntryInFile(table: seq<nat>, sectors: nat, i: nat)
    requires Separate(table, sectors) && i < |table|
    ensures InFile(table[i], sectors)
    ensures table[i] != 0 ==> FirstSector(table[i]) + SectorCount(table[i]) <= sectors
  {
  }

  lemma MarkNext(table: seq<nat>, i: nat, before: seq<bool>, after: seq<bool>)
    requires i < |table| && FreeMap(table[..i], before) && InFile(table[i], |before|)
    requires after == if table[i] != 0 then Marked(before, FirstSector(table[i]), SectorCount(table[i]), false) else before
    ensures FreeMap(table[..i + 1], after)
  {
    forall k | 0 <= k < |after| ensures after[k] <==> k >= 2 && !SomeOwns(table[..i + 1], k) {
      assert table[..i + 1] == table[..i] + [table[i]];
      OwnsMore(table[..i], table[i], k);
    }
  }

  lemma OwnsMore(offsets: seq<nat>, offset: nat, k: nat)
    ensures SomeOwns(offsets + [offset], k) <==> SomeOwns(offsets, k) || Owns(offset, k)
  {
    assert (offsets + [offset])[|offsets|] == offset;
    if i :| 0 <= i < |offsets| && Owns(offsets[i], k) {
      assert (offsets + [offset])[i] == offsets[i];
    }
  }

  /** Writing a chunk's bytes into its own sectors. */
  lemma PlaceChunk(offsets: seq<nat>, i: nat, file: seq<byte>, data: seq<byte>, header: seq<nat>)
    requires |offsets| == CHUNKS && i < CHUNKS && offsets[i] != 0 && Separate(offsets, |file| / SECTOR_BYTES)
    requires SectorCount(offsets[i]) == SectorsNeeded(|data|) && |data| + 1 < 0x8000_0000
    requires HeaderHolds(file, header)
    ensures FirstSector(offsets[i]) * SECTOR_BYTES + |Encoded(data)| <= |file|
    ensures FirstSector(offsets[i]) < |file| / SECTOR_BYTES
    ensures var after := Overwrite(file, FirstSector(offsets[i]) * SECTOR_BYTES, Encoded(data));
      Holds(after, offsets[i], data) && Moved(offsets, offsets, i, file, after) && HeaderHolds(after, header)
  {
    hide HeaderHolds, Holds, SameChunk, Overwrite;
    assert InFile(offsets[i], |file| / SECTOR_BYTES);
    var at, bs := FirstSector(offsets[i]) * SECTOR_BYTES, Encoded(data);
    ChunkHolds(file, offsets[i], data);
    HeaderElsewhere(file, header, at, bs);
    forall j | 0 <= j < CHUNKS && j != i ensures SameChunk(file, Overwrite(file, at, bs), offsets[j]) {
      assert Apart(offsets[i], offsets[j]) || Apart(offsets[j], offsets[i]);
      ChunkSpares(file, offsets[i], bs, offsets[j]);
    }
  }

  /** Entering a chunk's place into the offset table. */
  lemma LinkChunk(was: seq<nat>, i: nat, offset: nat, file: seq<byte>)
    requires HeaderHolds(file, was) && i < CHUNKS && offset < 0x8000_0000
    requires Separate(was[i := offset], |file| / SECTOR_BYTES)
    ensures var after := Overwrite(file, 4 * i, Word(offset));
      && HeaderHolds(after, was[i := offset]) && Moved(was, was[i := offset], i, file, after)
      && SameChunk(file, after, offset)
  {
    hide SameChunk, Overwrite;
    HeaderSet(file, was, i, offset);
    var now, after := was[i := offset], Overwrite(file, 4 * i, Word(offset));
    forall j | 0 <= j < CHUNKS ensures SameChunk(file, after, now[j]) {
      assert InFile(now[j], |file| / SECTOR_BYTES);
      HeaderSpares(file, 4 * i, Word(offset), now[j]);
    }
    assert now[i] == offset;
  }

  lemma GrowFile(was: seq<nat>, i: nat, file: seq<byte>, more: seq<byte>)
    requires HeaderHolds(file, was) && i < CHUNKS && Separate(was[i := 0], |file| / SECTOR_BYTES)
    ensures HeaderHolds(file + more, was) && Moved(was, was, i, file, file + more)
  {
    hide SameChunk;
    HeaderGrows(file, was, more);
    forall j | 0 <= j < CHUNKS && j != i ensures SameChunk(file, file + more, was[j]) {
      assert InFile(was[i := 0][j], |file| / SECTOR_BYTES);
      GrowSpares(file, more, was[j]);
    }
  }

  lemma MovedTwice(a: seq<nat>, b: seq<nat>, c: seq<nat>, i: nat, f: seq<byte>, g: seq<byte>, h: seq<byte>)
    requires Moved(a, b, i, f, g) && Moved(b, c, i, g, h)
    ensures Moved(a, c, i, f, h)
  {
  }

  lemma MovedAnyway(a: seq<nat>, b: seq<nat>, i: nat, f: seq<byte>, g: seq<byte>, x: nat)
    requires Moved(a, b, i, f, g) && i < CHUNKS
    ensures Moved(a, b[i := x], i, f, g) && Moved(a[i := x], b[i := x], i, f, g)
  {
  }

  /** A timestamp in the second header sector disturbs nothing. */
  lemma StampKeeps(offsets: seq<nat>, free: seq<bool>, file: seq<byte>, at: nat, bs: seq<byte>)
    requires Sound(offsets, free, file) && SECTOR_BYTES <= at && at + |bs| <= 2 * SECTOR_BYTES
    ensures at + |bs| <= |file| && Sound(offsets, free, Overwrite(file, at, bs))
    ensures forall j | 0 <= j < |offsets| :: SameChunk(file, Overwrite(file, at, bs), offsets[j])
  {
    hide SameChunk;
    HeaderElsewhere(file, offsets, at, bs);
    forall j | 0 <= j < |offsets| ensures SameChunk(file, Overwrite(file, at, bs), offsets[j]) {
      assert InFile(offsets[j], |free|);
      HeaderSpares(file, at, bs, offsets[j]);
    }
  }

  lemma SameAsItself(offsets: seq<nat>, free: seq<bool>, file: seq<byte>)
    requires Sound(offsets, free, file)
    ensures forall j | 0 <= j < |offsets| :: SameChunk(file, file, offsets[j])
  {
    forall j | 0 <= j < |offsets| ensures SameChunk(file, file, offsets[j]) {
      assert InFile(offsets[j], |free|);
    }
  }

  lemma StoredStays(was: seq<nat>, now: seq<nat>, i: nat, before: seq<byte>, placed: seq<byte>, after: seq<byte>,
                    stored: map<nat, seq<byte>>, data: seq<byte>)
    requires i < CHUNKS && Moved(was, now, i, before, placed) && Holds(placed, now[i], data)
    requires forall j | 0 <= j < CHUNKS :: SameChunk(placed, after, now[j])
    requires forall j | j in stored :: j < CHUNKS && Holds(before, was[j], stored[j])
    ensures forall j | 0 <= j < CHUNKS && j != i :: now[j] == was[j] && SameChunk(before, after, now[j])
    ensures forall j | j in stored[i := data] :: j < CHUNKS && Holds(after, now[j], stored[i := data][j])
  {
    hide Holds;
    forall j | 0 <= j < CHUNKS && j != i ensures SameChunk(before, after, now[j]) {
      assert SameChunk(before, placed, now[j]) && SameChunk(placed, after, now[j]);
    }
    hide SameChunk;
    forall j | j in stored[i := data] ensures Holds(after, now[j], stored[i := data][j]) {
      if j == i {
        SameChunkHolds(placed, after, now[i], data);
      } else {
        SameChunkHolds(before, after, now[j], stored[j]);
      }
    }
  }
}
