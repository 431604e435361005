/** Reading a log back, also one that a crash cut short anywhere or that was damaged. */
module LogReader {
  import opened Bytes
  import opened LogFormat
  import opened LogScan
  import opened LogWriter

  /** A checksumming reader that starts at the beginning of the file. */
  class Reader {
    const step: Step
    const file: seq<byte>
    var filePos: nat          // how much of the file has been read into buffers
    var buffer: seq<byte>
    var eof: bool
    var reports: nat          // calls of the corruption reporter

    /** The buffer is the unread end of the last block read. */
    ghost predicate Valid()
      reads this`filePos, this`buffer, this`eof
    {
      && filePos <= |file| && |buffer| <= filePos && buffer == file[filePos - |buffer|..filePos]
      && |buffer| <= BLOCK_SIZE && (|buffer| > 0 ==> (filePos - |buffer|) / BLOCK_SIZE == (filePos - 1) / BLOCK_SIZE)
      && (if eof then filePos == |file| else filePos % BLOCK_SIZE == 0)
      && (eof && buffer != [] ==> filePos % BLOCK_SIZE != 0)
    }

    /** File position of the next byte to parse. */
    ghost function Position(): nat
      requires Valid()
      reads this`filePos, this`buffer, this`eof
    {
      filePos - |buffer|
    }

    constructor (step: Step, file: seq<byte>)
      ensures Valid() && Position() == 0 && reports == 0 && this.step == step && this.file == file
    {
      this.step, this.file := step, file;
      filePos, buffer, eof, reports := 0, [], false, 0;
    }

    lemma PositionInFile()
      requires Valid()
      ensures 0 <= Position() <= |file|
    {
    }

    method ReportCorruption(bytes: nat)
      modifies this`reports
      ensures reports == old(reports) + 1
    {
      reports := reports + 1;
    }

    /** Drop what is left of this block and read the next. */
    method ReadBlock()
      requires Valid() && !eof
      modifies this`filePos, this`buffer, this`eof
      ensures Valid() && Position() == old(filePos)
      ensures filePos == if old(filePos) + BLOCK_SIZE <= |file| then old(filePos) + BLOCK_SIZE else |file|
      ensures eof <==> old(filePos) + BLOCK_SIZE > |file|
    {
      var n := if |file| - filePos < BLOCK_SIZE then |file| - filePos else BLOCK_SIZE;
      buffer := file[filePos..filePos + n];
      filePos := filePos + n;
      if |buffer| < BLOCK_SIZE {
        eof := true;
      }
    }

    /** Drop what is left of the buffer. */
    method Clear()
      requires Valid()
      modifies this`buffer
      ensures Valid() && buffer == []
    {
      buffer := [];
    }

    method Consume(n: nat)
      requires Valid() && n <= |buffer|
      modifies this`buffer
      ensures Valid() && Position() == old(Position()) + n
    {
      if n < |buffer| {
        SameBlock(Position(), Position() + n, filePos - 1);
      }
      buffer := buffer[n..];
    }

    /** Skip the trailer of a block and read on until a header is at hand. */
    method FillBuffer() returns (have: bool)
      requires Valid()
      modifies this`filePos, this`buffer, this`eof
      ensures Valid()
      ensures have <==> old(Position()) + Pad(old(Position())) + HEADER_SIZE <= |file|
      ensures have ==> Position() == old(Position()) + Pad(old(Position())) && |buffer| >= HEADER_SIZE
      ensures !have ==> Position() == |file|
    {
      hide Pad;
      ghost var p, again := Position(), false;
      PadBefore(p, filePos);
      PadInside(p, filePos);
      while |buffer| < HEADER_SIZE && !eof
        invariant Valid()
        invariant !again ==> filePos == old(filePos) && eof == old(eof) && buffer == old(buffer)
        invariant again ==> Position() == p + Pad(p) && (eof || |buffer| == BLOCK_SIZE)
        decreases !eof, BLOCK_SIZE - |buffer|
      {
        ReadBlock();
        again := true;
      }
      have := |buffer| >= HEADER_SIZE;
      if !have {
        Clear();
      }
    }

    /** What is in the buffer is the rest of the block. */
    lemma InBlock()
      requires Valid() && buffer != []
      ensures Position() < |file| && buffer == RestOfBlock(file, Position())
      ensures eof <==> BlockEnd(Position()) > |file|
    {
      SameEnd(Position(), filePos);
    }

    /** The next physical record of any file, or END_OF_FILE, or BAD_RECORD. */
    method ReadPhysicalRecord() returns (kind: nat, result: seq<byte>)
      requires Valid()
      modifies this
      ensures Valid() && old(Position()) <= |file| && reports >= old(reports)
      ensures Found(kind, result, Position(), reports - old(reports)) == PhysicalAt(step, file, old(Position()))
    {
      PositionInFile();
      PhysicalUnfold(step, file, Position());
      hide Parse, Pad, BlockEnd, RestOfBlock, PhysicalAt;
      var have := FillBuffer();
      if !have {
        return END_OF_FILE, [];
      }
      InBlock();
      hide Valid, Position;
      kind, result := ParseRecord();
    }

    /** Parse the record whose header is at the front of the buffer. */
    method ParseRecord() returns (kind: nat, result: seq<byte>)
      requires Valid() && |buffer| >= HEADER_SIZE
      modifies this`buffer, this`reports
      ensures Valid() && reports >= old(reports)
      ensures Found(kind, result, Position(), reports - old(reports)) == Parse(step, old(buffer), old(Position()), eof)
    {
      hide Extend, Mask, Unmask, Fixed, StoredChecksum;
      result := [];
      var length: nat := Two(buffer[4], buffer[5]);
      kind := buffer[6];
      if HEADER_SIZE + length > |buffer| {
        var dropSize := |buffer|;
        Clear();
        if !eof {
          ReportCorruption(dropSize);
          return BAD_RECORD, [];
        }
        return END_OF_FILE, [];
      }
      if kind == 0 && length == 0 {
        Clear();
        return BAD_RECORD, [];
      }
      var expected := Unmask(StoredChecksum(buffer));
      var actual := Extend(step, 0, buffer[6..HEADER_SIZE + length]);
      ChecksumFits(buffer, actual);
      if actual != expected {
        var dropSize := |buffer|;
        Clear();
        ReportCorruption(dropSize);
        return BAD_RECORD, [];
      }
      result := buffer[HEADER_SIZE..HEADER_SIZE + length];
      Consume(HEADER_SIZE + length);
    }

    /** The next logical record of any file. */
    method ReadRecord() returns (ok: bool, record: seq<byte>)
      requires Valid()
      modifies this
      ensures Valid() && old(Position()) <= |file| && reports >= old(reports)
      ensures Read(ok, record, Position(), reports - old(reports)) == Scan(step, file, old(Position()), None)
    {
      hide Valid, Position, PhysicalAt;
      var scratch: seq<byte>, inFragmentedRecord := [], false;
      PositionInFile();
      ghost var all := Scan(step, file, Position(), None);
      while true
        invariant Valid() && Position() <= |file| && reports >= old(reports)
        invariant all == Scan(step, file, Position(), if inFragmentedRecord then Some(scratch) else None).More(reports - old(reports))
        decreases |file| - Position()
      {
        var kind, fragment := ReadPhysicalRecord();
        PositionInFile();
        if kind == FULL {
          if inFragmentedRecord {
            if scratch == [] {
              inFragmentedRecord := false;
            } else {
              ReportCorruption(|scratch|);
            }
          }
          return true, fragment;
        } else if kind == FIRST {
          if inFragmentedRecord {
            if scratch == [] {
              inFragmentedRecord := false;
            } else {
              ReportCorruption(|scratch|);
            }
          }
          scratch := fragment;
          inFragmentedRecord := true;
        } else if kind == MIDDLE {
          if !inFragmentedRecord {
            ReportCorruption(|fragment|);
          } else {
            scratch := scratch + fragment;
          }
        } else if kind == LAST {
          if !inFragmentedRecord {
            ReportCorruption(|fragment|);
          } else {
            return true, scratch + fragment;
          }
        } else if kind == END_OF_FILE {
          return false, [];
        } else if kind == BAD_RECORD {
          if inFragmentedRecord {
            ReportCorruption(|scratch|);
            inFragmentedRecord := false;
            scratch := [];
          }
        } else {
          ReportCorruption(|fragment| + if inFragmentedRecord then |scratch| else 0);
          inFragmentedRecord := false;
          scratch := [];
        }
      }
    }
  }

  function StoredChecksum(buffer: seq<byte>): uint32
    requires 4 <= |buffer|
  {
    LittleEndianBound(buffer[..4]);
    assert Power256(4) == 0x1_0000_0000;
    LittleEndian(buffer[..4])
  }

  lemma MaskUndoesUnmask(masked: uint32)
    ensures Mask(Unmask(masked)) == masked
  {
    var rot := (masked - MASK_DELTA) % 0x1_0000_0000;
    var high, low := rot / 0x2_0000, rot % 0x2_0000;
    JoinAgain(high, low);
    WrapOn(masked);
  }

  lemma JoinAgain(high: nat, low: nat)
    requires high < 0x8000
    ensures (high + low * 0x8000) / 0x8000 == low && (high + low * 0x8000) % 0x8000 == high
  {
  }

  lemma WrapOn(masked: uint32)
    ensures ((masked - MASK_DELTA) % 0x1_0000_0000 + MASK_DELTA) % 0x1_0000_0000 == masked
  {
  }

  /** The unmasked checksum in front is this one exactly if the bytes spell its mask. */
  lemma ChecksumFits(buffer: seq<byte>, crc: uint32)
    requires 4 <= |buffer|
    ensures Unmask(StoredChecksum(buffer)) == crc <==> buffer[..4] == Fixed(Mask(crc), 4)
  {
    MaskUndoesUnmask(StoredChecksum(buffer));
    UnmaskUndoesMask(crc);
    hide Mask, Unmask;
    ChecksumRoundTrip(Mask(crc));
    FixedOfBytes(buffer[..4]);
  }

  lemma FixedOfBytes(s: seq<byte>)
    requires |s| == 4
    ensures Fixed(LittleEndian(s), 4) == s
  {
    FixedLittle(s, 4);
  }

  lemma {:induction false} FixedLittle(s: seq<byte>, n: nat)
    requires |s| == n
    ensures Fixed(LittleEndian(s), n) == s
  {
    if n > 0 {
      FixedLittle(s[1..], n - 1);
      assert s == [s[0]] + s[1..];
    }
  }

  /** Fewer bytes than a header before the end of a block are padding. */
  lemma PadBefore(p: nat, end: nat)
    ensures end % BLOCK_SIZE == 0 && p <= end < p + HEADER_SIZE ==> Pad(p) == end - p
  {
  }

  lemma PadInside(p: nat, end: nat)
    ensures p + HEADER_SIZE <= end && p / BLOCK_SIZE == (end - 1) / BLOCK_SIZE ==> Pad(p) == 0
  {
  }

  lemma SameBlock(a: nat, b: nat, c: int)
    requires a <= b <= c && a / BLOCK_SIZE == c / BLOCK_SIZE
    ensures b / BLOCK_SIZE == c / BLOCK_SIZE
  {
  }

  lemma SameEnd(a: nat, end: nat)
    requires a < end && a / BLOCK_SIZE == (end - 1) / BLOCK_SIZE
    ensures end <= BlockEnd(a) && (end % BLOCK_SIZE == 0 <==> BlockEnd(a) == end)
  {
  }

  /** Records written to an empty file, the file cut off after any number of bytes, and read back:
      exactly the records whose last fragment survived come back, in order, and nothing is ever
      reported as corrupt. */
  method CrashAndRecover(step: Step, records: seq<seq<byte>>, cut: nat)
    returns (recovered: seq<seq<byte>>, reports: nat)
    ensures recovered == Survivors(step, records, 0, cut) && reports == 0
    ensures |Log(step, records, 0)| <= cut ==> recovered == records
  {
    hide *;
    var writer := new Writer(step);
    LogOfNothing(step);
    for i := 0 to |records|
      invariant writer.Valid() && writer.step == step && writer.dest == Log(step, records[..i], 0)
    {
      LogAppend(step, records[..i], records[i], 0);
      writer.AddRecord(records[i]);
      assert records[..i + 1] == records[..i] + [records[i]];
    }
    assert records[..|records|] == records;
    ghost var whole := writer.dest;
    var file := if cut <= |writer.dest| then writer.dest[..cut] else writer.dest;
    var reader := new Reader(step, file);
    recovered := [];
    ghost var rest := records;
    WroteAll(step, records, whole);
    SurvivorsArePrefix(step, records, 0, cut);
    var more := true;
    while more
      invariant reader.Valid() && reader.file == file && reader.step == step && reader.reports == 0
      invariant more ==> Wrote(step, whole, reader.Position(), rest)
      invariant more ==> recovered + Survivors(step, rest, reader.Position(), cut) == Survivors(step, records, 0, cut)
      invariant !more ==> recovered == Survivors(step, records, 0, cut)
      invariant reader.Position() <= |file|
      decreases more, |file| - reader.Position()
    {
      ghost var p := reader.Position();
      var ok, record := reader.ReadRecord();
      reader.PositionInFile();
      WroteNext(step, whole, file, p, rest, cut, Read(ok, record, reader.Position(), reader.reports));
      if ok {
        Associate(recovered, [record], Survivors(step, rest[1..], reader.Position(), cut));
        recovered := recovered + [record];
        rest := rest[1..];
      } else {
        assert recovered + [] == recovered;
        more := false;
      }
    }
    reports := reader.reports;
  }

  lemma LogOfNothing(step: Step)
    ensures forall s: seq<seq<byte>> :: Log(step, s[..0], 0) == []
  {
  }

  /** A record read is the first survivor; no record read means no survivor. */
  lemma WroteNext(step: Step, whole: seq<byte>, file: seq<byte>, p: nat, rest: seq<seq<byte>>, cut: nat, r: Read)
    requires Wrote(step, whole, p, rest) && file == (if cut <= |whole| then whole[..cut] else whole) && p <= |file|
    requires r == Scan(step, file, p, None)
    ensures r.reports == 0 && (r.ok ==> rest != [] && p < r.end <= |file| && Wrote(step, whole, r.end, rest[1..]))
    ensures Survivors(step, rest, p, cut) == if r.ok then [r.record] + Survivors(step, rest[1..], r.end, cut) else []
  {
    ScanWrote(step, whole, file, rest, p);
    hide Fragments, Scan;
    if rest != [] {
      var first := Fragments(step, rest[0], true, p);
      assert whole[p + |first|..] == whole[p..][|first|..];
    }
  }
}
