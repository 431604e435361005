/** Compressing a whole source: the length, then one compressed fragment per block, however the
    source cuts its bytes into pieces. */
module SnappyStream {
  import opened Bytes
  import opened Coding
  import opened SnappyFormat
  import opened SnappyEncoding
  import opened SnappyCompress

  /** How many bytes a Peek at a position shows. */
  type Cuts = nat -> nat

  /** A hash function for each size of the table. */
  type SizedHash = (nat, seq<byte>) -> nat

  ghost predicate CutsFit(span: Cuts, length: nat) {
    forall p | 0 <= p < length :: 1 <= span(p) <= length - p
  }

  /** A source of bytes that may be seen only a piece at a time. */
  class Source {
    const data: seq<byte>
    const span: Cuts
    var pos: nat

    ghost predicate Valid()
      reads this
    {
      pos <= |data| && CutsFit(span, |data|)
    }

    ghost function Rest(): seq<byte>
      requires Valid()
      reads this
    {
      data[pos..]
    }

    constructor (data: seq<byte>, span: Cuts)
      requires CutsFit(span, |data|)
      ensures Valid() && pos == 0 && this.data == data && this.span == span
    {
      this.data, this.span, pos := data, span, 0;
    }

    method Available() returns (n: nat)
      requires Valid()
      ensures n == |Rest()|
    {
      n := |data| - pos;
    }

    /** The next piece; empty only at the end. */
    method Peek() returns (piece: seq<byte>)
      requires Valid()
      ensures pos + |piece| <= |data| && piece == data[pos..pos + |piece|]
      ensures piece == [] <==> pos == |data|
    {
      piece := if pos == |data| then [] else data[pos..pos + span(pos)];
    }

    method Skip(n: nat)
      requires Valid() && pos + n <= |data|
      modifies this`pos
      ensures Valid() && pos == old(pos) + n
    {
      pos := pos + n;
    }
  }

  /** Bytes are appended to an array that the caller made large enough. */
  class Sink {
    const dest: array<byte>
    var written: nat

    ghost predicate Valid()
      reads this
    {
      written <= dest.Length
    }

    constructor (dest: array<byte>)
      ensures Valid() && this.dest == dest && written == 0
    {
      this.dest, written := dest, 0;
    }

    method Append(bytes: seq<byte>)
      requires Valid() && written + |bytes| <= dest.Length
      modifies this`written, dest
      ensures Valid() && written == old(written) + |bytes|
      ensures dest[..written] == old(dest[..written]) + bytes
    {
      Memcpy(dest, written, bytes, 0, |bytes|);
      written := written + |bytes|;
      assert bytes[0..|bytes|] == bytes;
    }
  }

  /** The hash table: a power of two of zeroed slots, no more than the input needs. */
  method GetHashTable(inputSize: nat) returns (table: array<uint16>)
    ensures fresh(table) && 256 <= table.Length <= MAX_HASH_TABLE_SIZE
    ensures forall h | 0 <= h < table.Length :: table[h] == 0
  {
    var size := 256;
    while size < MAX_HASH_TABLE_SIZE && size < inputSize
      invariant size in {256, 512, 1024, 2048, 4096, 8192, 16384}
    {
      size := size * 2;
    }
    table := new uint16[size](_ => 0);
  }

  /** The next block, gathered from as many pieces as it takes. */
  method ReadBlock(reader: Source, numToRead: nat) returns (fragment: seq<byte>)
    requires reader.Valid() && 0 < numToRead <= |reader.Rest()|
    modifies reader`pos
    ensures reader.Valid() && fragment == old(reader.Rest())[..numToRead]
    ensures reader.pos == old(reader.pos) + numToRead
  {
    fragment := reader.Peek();
    if |fragment| >= numToRead {
      fragment := fragment[..numToRead];
      reader.Skip(numToRead);
      return;
    }
    reader.Skip(|fragment|);
    while |fragment| < numToRead
      invariant reader.Valid() && |fragment| <= numToRead
      invariant reader.pos == old(reader.pos) + |fragment|
      invariant fragment == old(reader.Rest())[..|fragment|]
    {
      var piece := reader.Peek();
      var n := if |piece| < numToRead - |fragment| then |piece| else numToRead - |fragment|;
      fragment := fragment + piece[..n];
      reader.Skip(n);
    }
  }

  /** A hash for each table size, with values inside the table. */
  ghost predicate HashesInto(hash: SizedHash) {
    forall size: nat, w | size > 0 :: hash(size, w) < size
  }

  /** The part of a buffer of MaxCompressedLength bytes that `blocks` full blocks leave free is
      enough for the next. */
  lemma RoomForBlock(total: nat, blocks: nat, block: nat, written: nat)
    requires BLOCK_SIZE * blocks + block <= total && 30 * written <= 150 + 31 * (BLOCK_SIZE * blocks) + 90 * blocks
    ensures written + FragmentSpace(block) <= MaxCompressedLength(total)
  {
  }

  lemma RoomForAll(total: nat, blocks: nat, written: nat)
    requires BLOCK_SIZE * blocks <= total + BLOCK_SIZE - 1 && 30 * written <= 150 + 31 * total + 90 * blocks
    ensures written <= MaxCompressedLength(total)
  {
  }

  lemma FirstRoom(total: nat)
    ensures 5 <= MaxCompressedLength(total)
  {
  }

  /** One byte `n` times in one block: a literal if that is short, else the byte and a copy for the rest. */
  function RunBlock(b: byte, n: nat): seq<byte>
    requires 0 < n <= BLOCK_SIZE
  {
    if n <= 16 then LiteralBytes(seq(n, _ => b)) else [0, b] + CopyBytes(1, n - 1)
  }

  /** One byte `n` times, block after block. */
  function RunBytes(b: byte, n: nat): seq<byte> {
    if n == 0 then []
    else if n <= BLOCK_SIZE then RunBlock(b, n)
    else RunBlock(b, BLOCK_SIZE) + RunBytes(b, n - BLOCK_SIZE)
  }

  lemma RunFragment(fragment: seq<byte>, piece: seq<byte>)
    requires 0 < |fragment| <= BLOCK_SIZE && Uniform(fragment)
    requires |fragment| <= 1 + INPUT_MARGIN ==> piece == LiteralBytes(fragment)
    requires IsRun(fragment) ==> RunEmitted(piece, fragment)
    ensures piece == RunBlock(fragment[0], |fragment|)
  {
    hide LiteralBytes, CopyBytes;
    assert fragment == seq(|fragment|, _ => fragment[0]);
  }

  /** Of `total` times the byte, `code` stands for all but the last `n`. */
  ghost predicate RunSoFar(code: seq<byte>, b: byte, n: nat, total: nat) {
    code + RunBytes(b, n) == RunBytes(b, total)
  }

  lemma RunStarts(b: byte, total: nat)
    ensures RunSoFar([], b, total, total)
  {
  }

  lemma RunGoesOn(code: seq<byte>, b: byte, n: nat, total: nat)
    requires RunSoFar(code, b, n, total) && n > 0
    ensures var m := if n < BLOCK_SIZE then n else BLOCK_SIZE;
      RunSoFar(code + RunBlock(b, m), b, n - m, total)
  {
    hide RunBlock;
    assert RunBytes(b, 0) == [];
  }

  lemma RunEnds(code: seq<byte>, b: byte, total: nat)
    requires RunSoFar(code, b, 0, total)
    ensures code == RunBytes(b, total)
  {
    assert RunBytes(b, 0) == [];
  }

  lemma RunStep(input: seq<byte>, text: seq<byte>, rest: seq<byte>, n: nat)
    requires Uniform(input) && text + rest == input && 0 < n <= |rest|
    ensures Uniform(rest[..n]) && rest[0] == input[0]
  {
    assert rest[0] == input[|text|];
    assert forall i | 0 <= i < n :: rest[i] == input[|text| + i];
  }

  /** Compress the next block of the source straight into the sink. */
  method CompressBlock(reader: Source, writer: Sink, numToRead: nat, hash: SizedHash)
    returns (ghost piece: seq<byte>, end: nat)
    requires reader.Valid() && 0 < numToRead <= |reader.Rest()| && numToRead <= BLOCK_SIZE && HashesInto(hash)
    requires writer.Valid() && writer.written + FragmentSpace(numToRead) <= writer.dest.Length
    modifies reader`pos, writer`written, writer.dest
    ensures reader.Valid() && old(reader.Rest()) == old(reader.Rest())[..numToRead] + reader.Rest()
    ensures writer.Valid() && end == writer.written == old(writer.written) + |piece|
    ensures writer.dest[..end] == old(writer.dest[..writer.written]) + piece
    ensures Encodes(piece, old(reader.Rest())[..numToRead]) && 30 * |piece| <= 31 * numToRead + 90
    ensures Uniform(old(reader.Rest())[..numToRead]) ==> piece == RunBlock(old(reader.Rest())[0], numToRead)
  {
    hide Encodes, Uniform, IsRun, RunEmitted, LiteralBytes, RunBlock;
    var fragment := ReadBlock(reader, numToRead);
    var table := GetHashTable(numToRead);
    end := CompressFragment(fragment, writer.dest, writer.written, table, w => hash(table.Length, w));
    piece := writer.dest[writer.written..end];
    if Uniform(fragment) {
      RunFragment(fragment, piece);
    }
    writer.written := end;
  }

  /** The round trip and the size bound, for every input below four gigabytes, every way of cutting
      it into pieces and every hash function; and the exact bytes for one byte over and over. */
  method Compress(reader: Source, writer: Sink, hash: SizedHash) returns (written: nat)
    requires reader.Valid() && |reader.Rest()| < 0x1_0000_0000 && HashesInto(hash)
    requires writer.Valid() && writer.written == 0
    requires writer.dest.Length >= MaxCompressedLength(|reader.Rest()|)
    modifies reader`pos, writer`written, writer.dest
    ensures writer.Valid() && written == writer.written <= MaxCompressedLength(|old(reader.Rest())|)
    ensures Uncompressed(writer.dest[..written]) == Some(old(reader.Rest()))
    ensures Uniform(old(reader.Rest())) && old(reader.Rest()) != [] ==>
      writer.dest[..written] == Varint(|old(reader.Rest())|) + RunBytes(old(reader.Rest())[0], |old(reader.Rest())|)
    ensures reader.Valid() && reader.Rest() == []
  {
    hide Encodes;
    hide Uncompressed;
    hide MaxCompressedLength;
    hide FragmentSpace, Uniform, RunBlock, RunBytes, RunSoFar, Varint;
    var n := reader.Available();
    ghost var input := reader.Rest();
    ghost var run := Uniform(input) && input != [];
    var length := EncodeVarint32(n);
    FirstRoom(n);
    writer.Append(length);
    written := |length|;
    ghost var text, code: seq<byte>, blocks: nat := [], [], 0;
    EncodesNothing();
    if run {
      RunStarts(input[0], n);
    }
    while n > 0
      invariant reader.Valid() && n == |reader.Rest()| && text + reader.Rest() == input
      invariant n > 0 ==> |text| == BLOCK_SIZE * blocks
      invariant BLOCK_SIZE * blocks <= |text| + BLOCK_SIZE - 1
      invariant writer.Valid() && written == writer.written == |length| + |code|
      invariant writer.dest[..written] == length + code && Encodes(code, text)
      invariant 30 * |code| <= 31 * |text| + 90 * blocks
      invariant run ==> RunSoFar(code, input[0], n, |input|)
    {
      var numToRead := if n < BLOCK_SIZE then n else BLOCK_SIZE;
      ghost var fragment, piece;
      fragment := reader.Rest()[..numToRead];
      RoomForBlock(|input|, blocks, numToRead, written);
      if run {
        RunStep(input, text, reader.Rest(), numToRead);
        RunGoesOn(code, input[0], n, |input|);
      }
      piece, written := CompressBlock(reader, writer, numToRead, hash);
      EncodesBoth(code, text, piece, fragment);
      Associate(length, code, piece);
      Associate(text, fragment, reader.Rest());
      n := n - numToRead;
      text, code, blocks := text + fragment, code + piece, blocks + 1;
    }
    assert text == input;
    if run {
      RunEnds(code, input[0], |input|);
    }
    RoomForAll(|input|, blocks, written);
    WholeDecodes(length, code, input);
  }

  lemma WholeText(code: seq<byte>, input: seq<byte>)
    requires Encodes(code, input)
    ensures Decode(code, [], |input|) == Done(input)
  {
    assert code + [] == code && [] + input == input;
    assert Decode(code + [], [], |input|) == Decode([], [] + input, |input|);
  }

  lemma WholeDecodes(length: seq<byte>, code: seq<byte>, input: seq<byte>)
    requires length == Varint(|input|) && |input| < 0x1_0000_0000 && Encodes(code, input)
    ensures Uncompressed(length + code) == Some(input)
  {
    hide Decode;
    hide ReadLength;
    hide Encodes;
    LengthRoundTrip(|input|, 0, code);
    WholeText(code, input);
  }
}
