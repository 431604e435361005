/** Region files: 4096-byte sectors, two header sectors, and one run of sectors per chunk. */
module RegionFormat {
  import opened Bytes

  const SECTOR_BYTES := 4096
  const CHUNKS := 1024
  const CHUNK_HEADER_SIZE := 5

  // ---- Java's int and big-endian words

  type int32 = x: int | -0x8000_0000 <= x < 0x8000_0000

  /** The low 32 bits, read as a signed number. */
  function Wrap32(n: int): int32 {
    var low := n % 0x1_0000_0000;
    if low < 0x8000_0000 then low else low - 0x1_0000_0000
  }

  function Word(n: nat): (s: seq<byte>)
    ensures |s| == 4
  {
    [n / 0x100_0000 % 0x100, n / 0x1_0000 % 0x100, n / 0x100 % 0x100, n % 0x100]
  }

  function WordAt(s: seq<byte>, at: nat): int32
    requires at + 4 <= |s|
  {
    Wrap32(BigEndian(s[at], s[at + 1], s[at + 2], s[at + 3]))
  }

  function BigEndian(a: int, b: int, c: int, d: int): int {
    a * 0x100_0000 + b * 0x1_0000 + c * 0x100 + d
  }

  lemma WordSpells(n: nat)
    requires n < 0x1_0000_0000
    ensures BigEndian(n / 0x100_0000 % 0x100, n / 0x1_0000 % 0x100, n / 0x100 % 0x100, n % 0x100) == n
  {
    var a, b, c := n / 0x100, n / 0x1_0000, n / 0x100_0000;
    assert n == 0x100 * a + n % 0x100;
    assert a / 0x100 == b && a == 0x100 * b + a % 0x100;
    assert b / 0x100 == c && b == 0x100 * c + b % 0x100;
  }

  lemma WordRoundTrip(s: seq<byte>, at: nat, n: nat)
    requires at + 4 <= |s| && s[at..at + 4] == Word(n) && n < 0x8000_0000
    ensures WordAt(s, at) == n
  {
    var w := s[at..at + 4];
    assert s[at] == w[0] && s[at + 1] == w[1] && s[at + 2] == w[2] && s[at + 3] == w[3];
    WordSpells(n);
    hide BigEndian;
    SmallWord(n);
  }

  lemma SmallWord(n: nat)
    requires n < 0x8000_0000
    ensures Wrap32(n) == n
  {
  }

  /** Words have the most significant byte first, and the sign in its highest bit. */
  lemma WordExamples()
    ensures Word(0x0102_0304) == [1, 2, 3, 4] && WordAt([1, 2, 3, 4], 0) == 0x0102_0304
    ensures WordAt([0xFF, 0xFF, 0xFF, 0xFE], 0) == -2
  {
  }

  /** Where a sector begins, as the source computes it in ints. */
  function SeekTo(sector: nat): int32 {
    Wrap32(sector * SECTOR_BYTES)
  }

  /** The computed position is right exactly for files below two gigabytes. */
  lemma SeekExact(sector: nat)
    ensures SeekTo(sector) == sector * SECTOR_BYTES <==> sector < 0x8_0000
  {
  }

  // ---- Offsets: first sector and number of sectors in one int

  function FirstSector(offset: nat): nat {
    offset / 0x100
  }

  function SectorCount(offset: nat): nat {
    offset % 0x100
  }

  function PackOffset(sector: nat, count: nat): nat
    requires count < 0x100
  {
    sector * 0x100 + count
  }

  lemma Unpack(sector: nat, count: nat)
    requires count < 0x100
    ensures FirstSector(PackOffset(sector, count)) == sector && SectorCount(PackOffset(sector, count)) == count
  {
  }

  function SectorsNeeded(length: nat): (n: nat)
    ensures (n - 1) * SECTOR_BYTES <= length + CHUNK_HEADER_SIZE < n * SECTOR_BYTES
  {
    (length + CHUNK_HEADER_SIZE) / SECTOR_BYTES + 1
  }

  /** Is sector `k` one of the chunk's? */
  predicate Owns(offset: nat, k: nat) {
    offset != 0 && FirstSector(offset) <= k < FirstSector(offset) + SectorCount(offset)
  }

  /** A chunk's sectors lie behind the header and inside the file. */
  predicate InFile(offset: nat, sectors: nat) {
    offset != 0 ==>
      && 2 <= FirstSector(offset) && 1 <= SectorCount(offset)
      && FirstSector(offset) + SectorCount(offset) <= sectors
  }

  predicate Apart(a: nat, b: nat) {
    || a == 0 || b == 0
    || FirstSector(a) + SectorCount(a) <= FirstSector(b)
    || FirstSector(b) + SectorCount(b) <= FirstSector(a)
  }

  ghost predicate SomeOwns(offsets: seq<nat>, k: nat) {
    exists i :: 0 <= i < |offsets| && Owns(offsets[i], k)
  }

  /** Chunks lie in the file and apart from each other. */
  ghost predicate Separate(offsets: seq<nat>, sectors: nat) {
    && (forall i | 0 <= i < |offsets| :: InFile(offsets[i], sectors))
    && forall i, j | 0 <= i < j < |offsets| :: Apart(offsets[i], offsets[j])
  }

  /** Exactly the sectors behind the header that no chunk owns are free. */
  ghost predicate FreeMap(offsets: seq<nat>, free: seq<bool>) {
    forall k | 0 <= k < |free| :: free[k] <==> k >= 2 && !SomeOwns(offsets, k)
  }

  /** The map with `count` entries from `from` on set to `value`. */
  function Marked(free: seq<bool>, from: nat, count: nat, value: bool): (r: seq<bool>)
    ensures |r| == |free|
  {
    seq(|free|, k requires 0 <= k < |free| => if from <= k < from + count then value else free[k])
  }

  predicate AllFree(free: seq<bool>, from: nat, count: nat) {
    from + count <= |free| && forall k | from <= k < from + count :: free[k]
  }

  /** Giving a chunk's sectors back. */
  lemma ReleaseKeeps(offsets: seq<nat>, free: seq<bool>, i: nat)
    requires i < |offsets| && Separate(offsets, |free|) && FreeMap(offsets, free)
    ensures Separate(offsets[i := 0], |free|)
    ensures FreeMap(offsets[i := 0], Marked(free, FirstSector(offsets[i]), SectorCount(offsets[i]), true))
  {
    var a, b := offsets, offsets[i := 0];
    var free' := Marked(free, FirstSector(a[i]), SectorCount(a[i]), true);
    assert forall j | 0 <= j < |a| && j != i :: b[j] == a[j];
    forall k | 0 <= k < |free'| ensures free'[k] <==> k >= 2 && !SomeOwns(b, k) {
      ReleaseAt(a, i, k);
      if Owns(a[i], k) {
        forall j | 0 <= j < |a| && j != i ensures !Owns(a[j], k) {
          assert Apart(a[i], a[j]) || Apart(a[j], a[i]);
        }
      } else if a[i] == 0 {
        assert free'[k] == free[k];
      }
    }
  }

  lemma ReleaseAt(offsets: seq<nat>, i: nat, k: nat)
    requires i < |offsets|
    ensures SomeOwns(offsets[i := 0], k) <==> exists j :: 0 <= j < |offsets| && j != i && Owns(offsets[j], k)
    ensures SomeOwns(offsets, k) <==> Owns(offsets[i], k) || SomeOwns(offsets[i := 0], k)
  {
    var b := offsets[i := 0];
    if j :| 0 <= j < |b| && Owns(b[j], k) {
      assert b[j] == offsets[j];
    }
    if j :| 0 <= j < |offsets| && j != i && Owns(offsets[j], k) {
      assert b[j] == offsets[j];
    }
  }

  lemma ClaimAt(offsets: seq<nat>, i: nat, offset: nat, k: nat)
    requires i < |offsets| && offsets[i] == 0
    ensures SomeOwns(offsets[i := offset], k) <==> Owns(offset, k) || SomeOwns(offsets, k)
  {
    var b := offsets[i := offset];
    assert b[i] == offset && b[i := 0] == offsets;
    ReleaseAt(b, i, k);
  }

  /** Taking a run of free sectors for a chunk that has none. */
  lemma ClaimKeeps(offsets: seq<nat>, free: seq<bool>, i: nat, start: nat, count: nat)
    requires i < |offsets| && offsets[i] == 0 && Separate(offsets, |free|) && FreeMap(offsets, free)
    requires 1 <= count < 0x100 && AllFree(free, start, count)
    ensures start >= 2 && PackOffset(start, count) != 0
    ensures Separate(offsets[i := PackOffset(start, count)], |free|)
    ensures FreeMap(offsets[i := PackOffset(start, count)], Marked(free, start, count, false))
  {
    var offset := PackOffset(start, count);
    Unpack(start, count);
    assert free[start];
    var b := offsets[i := offset];
    forall j | 0 <= j < |offsets| && j != i ensures Apart(offset, offsets[j]) && Apart(offsets[j], offset) {
      ClaimedApart(offsets, free, j, start, count);
    }
    forall j, l | 0 <= j < l < |b| ensures Apart(b[j], b[l]) {
    }
    forall k | 0 <= k < |free| ensures Marked(free, start, count, false)[k] <==> k >= 2 && !SomeOwns(b, k) {
      ClaimAt(offsets, i, offset, k);
    }
  }

  /** A free run does not touch any chunk. */
  lemma ClaimedApart(offsets: seq<nat>, free: seq<bool>, j: nat, start: nat, count: nat)
    requires j < |offsets| && Separate(offsets, |free|) && FreeMap(offsets, free)
    requires 1 <= count < 0x100 && AllFree(free, start, count)
    ensures Apart(PackOffset(start, count), offsets[j]) && Apart(offsets[j], PackOffset(start, count))
  {
    Unpack(start, count);
    var o := offsets[j];
    assert InFile(o, |free|);
    if !Apart(PackOffset(start, count), o) {
      var k := if FirstSector(o) >= start then FirstSector(o) else start;
      assert Owns(o, k) && free[k];
      assert SomeOwns(offsets, k);
    }
  }

  /** Sectors added at the end are free until somebody takes them. */
  lemma GrowKeeps(offsets: seq<nat>, free: seq<bool>, count: nat)
    requires Separate(offsets, |free|) && FreeMap(offsets, free) && |free| >= 2
    ensures var more := free + seq(count, k => true);
      Separate(offsets, |more|) && FreeMap(offsets, more)
  {
    var more := free + seq(count, k => true);
    forall k | |free| <= k < |more| ensures !SomeOwns(offsets, k) {
      forall i | 0 <= i < |offsets| ensures !Owns(offsets[i], k) {
        assert InFile(offsets[i], |free|);
      }
    }
  }

  // ---- File contents

  /** The file with `bs` written over it at `at`. */
  function Overwrite(file: seq<byte>, at: nat, bs: seq<byte>): (r: seq<byte>)
    requires at + |bs| <= |file|
    ensures |r| == |file|
  {
    file[..at] + bs + file[at + |bs|..]
  }

  lemma OverwriteThere(file: seq<byte>, at: nat, bs: seq<byte>)
    requires at + |bs| <= |file|
    ensures Overwrite(file, at, bs)[at..at + |bs|] == bs
  {
  }

  lemma OverwriteElsewhere(file: seq<byte>, at: nat, bs: seq<byte>, a: nat, b: nat)
    requires at + |bs| <= |file| && a <= b <= |file| && (b <= at || at + |bs| <= a)
    ensures Overwrite(file, at, bs)[a..b] == file[a..b]
  {
  }

  /** The offset table in the first sector. */
  ghost predicate HeaderHolds(file: seq<byte>, offsets: seq<nat>) {
    && CHUNKS * 8 <= |file| && |offsets| == CHUNKS
    && forall i | 0 <= i < CHUNKS :: offsets[i] < 0x8000_0000 && file[4 * i..4 * i + 4] == Word(offsets[i])
  }

  lemma HeaderElsewhere(file: seq<byte>, offsets: seq<nat>, at: nat, bs: seq<byte>)
    requires HeaderHolds(file, offsets) && SECTOR_BYTES <= at && at + |bs| <= |file|
    ensures HeaderHolds(Overwrite(file, at, bs), offsets)
  {
    forall i | 0 <= i < CHUNKS ensures Overwrite(file, at, bs)[4 * i..4 * i + 4] == Word(offsets[i]) {
      OverwriteElsewhere(file, at, bs, 4 * i, 4 * i + 4);
    }
  }

  lemma HeaderSet(file: seq<byte>, offsets: seq<nat>, i: nat, offset: nat)
    requires HeaderHolds(file, offsets) && i < CHUNKS && offset < 0x8000_0000
    ensures HeaderHolds(Overwrite(file, 4 * i, Word(offset)), offsets[i := offset])
  {
    var after := Overwrite(file, 4 * i, Word(offset));
    forall j | 0 <= j < CHUNKS ensures after[4 * j..4 * j + 4] == Word(offsets[i := offset][j]) {
      if j == i {
        OverwriteThere(file, 4 * i, Word(offset));
      } else {
        OverwriteElsewhere(file, 4 * i, Word(offset), 4 * j, 4 * j + 4);
      }
    }
  }

  lemma HeaderGrows(file: seq<byte>, offsets: seq<nat>, more: seq<byte>)
    requires HeaderHolds(file, offsets)
    ensures HeaderHolds(file + more, offsets)
  {
    forall i | 0 <= i < CHUNKS ensures (file + more)[4 * i..4 * i + 4] == Word(offsets[i]) {
      assert (file + more)[4 * i..4 * i + 4] == file[4 * i..4 * i + 4];
    }
  }

  /** The bytes of a chunk's sectors. */
  function ChunkBytes(file: seq<byte>, offset: nat): seq<byte>
    requires (FirstSector(offset) + SectorCount(offset)) * SECTOR_BYTES <= |file|
  {
    file[FirstSector(offset) * SECTOR_BYTES..(FirstSector(offset) + SectorCount(offset)) * SECTOR_BYTES]
  }

  /** What a write puts at the beginning of a chunk's sectors. */
  function Encoded(data: seq<byte>): seq<byte> {
    Word(|data| + 1) + [2] + data
  }

  /** The chunk's sectors begin with `data` as a write stores it. */
  ghost predicate Holds(file: seq<byte>, offset: nat, data: seq<byte>) {
    && offset != 0 && (FirstSector(offset) + SectorCount(offset)) * SECTOR_BYTES <= |file|
    && SectorsNeeded(|data|) == SectorCount(offset) && |data| + 1 < 0x8000_0000
    && Encoded(data) <= ChunkBytes(file, offset)
  }

  /** The chunk's sectors hold the same bytes in both files. */
  ghost predicate SameChunk(a: seq<byte>, b: seq<byte>, offset: nat) {
    offset != 0 ==>
      && (FirstSector(offset) + SectorCount(offset)) * SECTOR_BYTES <= |a|
      && (FirstSector(offset) + SectorCount(offset)) * SECTOR_BYTES <= |b|
      && ChunkBytes(a, offset) == ChunkBytes(b, offset)
  }

  lemma SameChunkHolds(a: seq<byte>, b: seq<byte>, offset: nat, data: seq<byte>)
    requires SameChunk(a, b, offset) && Holds(a, offset, data)
    ensures Holds(b, offset, data)
  {
  }

  /** Writing to the header does not touch a chunk. */
  lemma HeaderSpares(file: seq<byte>, at: nat, bs: seq<byte>, offset: nat)
    requires InFile(offset, |file| / SECTOR_BYTES) && at + |bs| <= 2 * SECTOR_BYTES <= |file|
    ensures SameChunk(file, Overwrite(file, at, bs), offset)
  {
    if offset != 0 {
      OverwriteElsewhere(file, at, bs, FirstSector(offset) * SECTOR_BYTES,
                         (FirstSector(offset) + SectorCount(offset)) * SECTOR_BYTES);
    }
  }

  /** Writing one chunk does not touch another. */
  lemma ChunkSpares(file: seq<byte>, mine: nat, bs: seq<byte>, offset: nat)
    requires InFile(offset, |file| / SECTOR_BYTES) && InFile(mine, |file| / SECTOR_BYTES) && mine != 0
    requires Apart(mine, offset) && |bs| <= SectorCount(mine) * SECTOR_BYTES
    ensures FirstSector(mine) * SECTOR_BYTES + |bs| <= |file|
    ensures SameChunk(file, Overwrite(file, FirstSector(mine) * SECTOR_BYTES, bs), offset)
  {
    if offset != 0 {
      OverwriteElsewhere(file, FirstSector(mine) * SECTOR_BYTES, bs, FirstSector(offset) * SECTOR_BYTES,
                         (FirstSector(offset) + SectorCount(offset)) * SECTOR_BYTES);
    }
  }

  lemma GrowSpares(file: seq<byte>, more: seq<byte>, offset: nat)
    requires InFile(offset, |file| / SECTOR_BYTES)
    ensures SameChunk(file, file + more, offset)
  {
    if offset != 0 {
      var a, b := FirstSector(offset) * SECTOR_BYTES, (FirstSector(offset) + SectorCount(offset)) * SECTOR_BYTES;
      assert (file + more)[a..b] == file[a..b];
    }
  }

  /** What was written is there. */
  lemma ChunkHolds(file: seq<byte>, mine: nat, data: seq<byte>)
    requires InFile(mine, |file| / SECTOR_BYTES) && mine != 0 && SectorsNeeded(|data|) == SectorCount(mine)
    requires |data| + 1 < 0x8000_0000
    ensures FirstSector(mine) * SECTOR_BYTES + |Encoded(data)| <= |file|
    ensures Holds(Overwrite(file, FirstSector(mine) * SECTOR_BYTES, Encoded(data)), mine, data)
  {
    var at, bs := FirstSector(mine) * SECTOR_BYTES, Encoded(data);
    var after := Overwrite(file, at, bs);
    OverwriteThere(file, at, bs);
    assert ChunkBytes(after, mine)[..|bs|] == after[at..at + |bs|];
  }

  lemma OverwriteTwice(file: seq<byte>, at: nat, a: seq<byte>, b: seq<byte>)
    requires at + |a| + |b| <= |file|
    ensures Overwrite(Overwrite(file, at, a), at + |a|, b) == Overwrite(file, at, a + b)
  {
  }
}
