/** The decompressor: tags are read from a source that may cut them anywhere, and what comes out
    is what the format says, whoever is writing. */
module SnappyDecompress {
  import opened Bytes
  import opened Coding
  import opened SnappyFormat
  import opened SnappyStream
  import opened SnappyWriter

  /** The template parameter of the decompression loop. */
  datatype Writer = ToArray(flat: ArrayWriter) | ToCount(counter: Validator) {
    ghost function Repr(): set<object> {
      if ToArray? then {flat, flat.base} else {counter}
    }

    ghost predicate Valid()
      reads Repr()
    {
      if ToArray? then flat.Valid() else counter.Valid()
    }

    ghost function Text(): seq<byte>
      requires Valid()
      reads Repr()
    {
      if ToArray? then flat.Text() else counter.text
    }

    ghost function Limit(): nat
      reads Repr()
    {
      if ToArray? then flat.opLimit else counter.expected
    }

    /** What lies behind the bytes that may be written. */
    ghost function Beyond(): seq<byte>
      reads Repr()
    {
      if ToArray? && flat.opLimit <= flat.base.Length then flat.base[flat.opLimit..] else []
    }

    method Append(bytes: seq<byte>) returns (ok: bool)
      requires Valid()
      modifies Repr()
      ensures Beyond() == old(Beyond())
      ensures ok <==> |old(Text())| + |bytes| <= old(Limit())
      ensures ok ==> Valid() && Limit() == old(Limit()) && Text() == old(Text()) + bytes
    {
      match this
      case ToArray(a) => ok := a.Append(bytes);
      case ToCount(v) => ok := v.Append(bytes);
    }

    method TryFastAppend(available: seq<byte>, length: nat) returns (ok: bool)
      requires Valid()
      modifies Repr()
      ensures Beyond() == old(Beyond())
      ensures Valid() && Limit() == old(Limit())
      ensures ok ==> length <= |available| && length <= 16 && |old(Text())| + length <= Limit()
      ensures ok ==> Text() == old(Text()) + available[..length]
      ensures !ok ==> Text() == old(Text())
    {
      match this
      case ToArray(a) => ok := a.TryFastAppend(available, length);
      case ToCount(v) => ok := false;
    }

    method AppendFromSelf(offset: nat, length: nat) returns (ok: bool)
      requires Valid() && 1 <= length
      modifies Repr()
      ensures Beyond() == old(Beyond())
      ensures ok <==> 1 <= offset <= |old(Text())| && |old(Text())| + length <= old(Limit())
      ensures ok ==> Valid() && Limit() == old(Limit()) && Text() == CopyWithin(old(Text()), offset, length)
    {
      match this
      case ToArray(a) => ok := a.AppendFromSelf(offset, length);
      case ToCount(v) => ok := v.AppendFromSelf(offset, length);
    }
  }

  class Decompressor {
    const reader: Source
    var buffer: seq<byte>     // the bytes between ip_ and ip_limit_
    var peeked: nat           // bytes of the reader that `buffer` is the end of
    var eof: bool

    ghost predicate Valid()
      reads this, reader
    {
      reader.Valid() && reader.pos + peeked <= |reader.data|
    }

    /** The bytes not yet consumed, wherever they currently are. */
    ghost function Input(): seq<byte>
      requires Valid()
      reads this, reader
    {
      buffer + reader.data[reader.pos + peeked..]
    }

    constructor (reader: Source)
      requires reader.Valid()
      ensures Valid() && this.reader == reader && Input() == reader.Rest() && buffer == [] && !eof
      ensures peeked == 0
    {
      this.reader, buffer, peeked, eof := reader, [], 0, false;
    }

    /** All peeked bytes are used up: look at the next piece of the source. */
    method NextPiece()
      requires Valid() && buffer == []
      modifies this`buffer, this`peeked, reader`pos
      ensures Valid() && Input() == old(Input())
      ensures buffer == [] <==> old(Input()) == []
    {
      reader.Skip(peeked);
      buffer := reader.Peek();
      peeked := |buffer|;
      PeekedRest(reader.data, reader.pos, |buffer|);
    }

    /** Gather `needed` bytes in the scratch buffer, a few from each piece. */
    method Stitch(needed: nat) returns (ok: bool)
      requires Valid() && |buffer| <= needed
      modifies this`buffer, this`peeked, reader`pos
      ensures ok ==> Valid() && Input() == old(Input()) && |buffer| == needed
      ensures !ok ==> |old(Input())| < needed
    {
      ghost var input := Input();
      reader.Skip(peeked);
      peeked := 0;
      while |buffer| < needed
        invariant Valid() && peeked == 0 && |buffer| <= needed
        invariant Input() == input
      {
        var piece := reader.Peek();
        if piece == [] {
          return false;
        }
        var toAdd := if |piece| < needed - |buffer| then |piece| else needed - |buffer|;
        StitchStep(buffer, reader.data, reader.pos, |piece|, toAdd);
        buffer := buffer + piece[..toAdd];
        reader.Skip(toAdd);
      }
      return true;
    }

    /** Make all bytes of the next tag available, stitching them together from as many pieces of
        the source as it takes. */
    method RefillTag() returns (ok: bool)
      requires Valid() && !eof
      modifies this, reader`pos
      ensures ok ==> Valid() && !eof && Input() == old(Input())
      ensures ok ==> buffer != [] && |buffer| >= 1 + Extra(buffer[0])
      ensures !ok && eof ==> old(Input()) == []
      ensures !ok && !eof ==> old(Input()) != [] && |old(Input())| < 1 + Extra(old(Input())[0])
    {
      hide Extra;
      if buffer == [] {
        NextPiece();
        if buffer == [] {
          eof := true;
          return false;
        }
      }
      ghost var input := Input();
      var needed := 1 + Extra(buffer[0]);
      assert input[0] == buffer[0];
      if |buffer| < needed {
        ok := Stitch(needed);
        assert ok ==> Input()[0] == buffer[0];
      } else {
        if |buffer| < 5 {
          // Move what there is into the scratch buffer.
          reader.Skip(peeked);
          peeked := 0;
        }
        ok := true;
      }
    }

    /** The length in front: one byte at a time, each consumed at once. */
    method ReadUncompressedLength() returns (length: Option<uint32>)
      requires Valid() && buffer == [] && peeked == 0
      modifies reader`pos
      ensures Valid() && length.Some? == ReadLength(old(Input()), 0).Some?
      ensures length.Some? ==> ReadLength(old(Input()), 0) == Some((length.value, Input()))
    {
      hide ReadLength;
      hide Partial;
      hide Shift;
      var result, shift, index: nat := 0, 0, 0;
      ghost var input := Input();
      PartialStart(input);
      while true
        invariant Valid() && index <= 5 && shift == 7 * index && 0 <= result < 0x1_0000_0000
        invariant Partial(input, Input(), index, result)
        decreases 5 - index
      {
        if shift >= 32 {
          PartialEnd(input, Input(), index, result);
          return None;
        }
        var piece := reader.Peek();
        if piece == [] {
          PartialEnd(input, Input(), index, result);
          return None;
        }
        var c := piece[0];
        ghost var before := Input();
        assert before[0] == c;
        reader.Skip(1);
        assert Input() == before[1..];
        PartialStep(input, before, index, result);
        result := (result + c % 0x80 * Shift(index) % 0x1_0000_0000) % 0x1_0000_0000;
        if c < 0x80 {
          return Some(result);
        }
        shift, index := shift + 7, index + 1;
      }
    }
  
    /** The writer's storage is apart from ours. */
    ghost predicate Apart(w: Writer) {
      this !in w.Repr() && reader !in w.Repr()
    }

    /** What decoding the rest of the input would still yield. */
    ghost function Outlook(w: Writer): Outcome
      requires Valid() && w.Valid()
      reads this, reader, w.Repr()
    {
      Decode(Input(), w.Text(), w.Limit())
    }

    /** Of `input`, `done` bytes have been appended to `text`; the rest is still to come. */
    ghost predicate Appended(w: Writer, input: seq<byte>, text: seq<byte>, done: nat, limit: nat)
      reads this, reader, w.Repr()
    {
      && Valid() && w.Valid() && w.Limit() == limit && done <= |input|
      && Input() == input[done..] && w.Text() == text + input[..done]
    }

    /** Hand the first `n` buffered bytes to the writer. */
    method AppendBuffered(w: Writer, n: nat, ghost input: seq<byte>, ghost text: seq<byte>, ghost done: nat,
                          ghost limit: nat) returns (ok: bool)
      requires Apart(w) && Appended(w, input, text, done, limit) && n <= |buffer|
      modifies this`buffer, w.Repr()
      ensures w.Beyond() == old(w.Beyond())
      ensures ok <==> |text| + done + n <= limit
      ensures done + n <= |input|
      ensures ok ==> Appended(w, input, text, done + n, limit) && |buffer| == |old(buffer)| - n
    {
      DropFront(buffer, reader.data[reader.pos + peeked..], n);
      TakeMore(text, input, done, n);
      ok := w.Append(buffer[..n]);
      buffer := buffer[n..];
    }

    method NextPieceOf(w: Writer, ghost input: seq<byte>, ghost text: seq<byte>, ghost done: nat, ghost limit: nat)
      requires Apart(w) && Appended(w, input, text, done, limit) && buffer == []
      modifies this`buffer, this`peeked, reader`pos
      ensures Appended(w, input, text, done, limit)
      ensures buffer == [] <==> done == |input|
    {
      NextPiece();
    }

    /** A literal that may run on over any number of pieces. */
    method AppendLiteral(w: Writer, length: nat) returns (ok: bool)
      requires Valid() && w.Valid() && Apart(w)
      modifies this`buffer, this`peeked, reader`pos, w.Repr()
      ensures w.Beyond() == old(w.Beyond())
      ensures ok <==> length <= |old(Input())| && |old(w.Text())| + length <= old(w.Limit())
      ensures ok ==> Appended(w, old(Input()), old(w.Text()), length, old(w.Limit()))
    {
      var left: nat := length;
      ghost var input, text, limit := Input(), w.Text(), w.Limit();
      assert Appended(w, input, text, 0, limit);
      hide Appended, CutsFit;
      while |buffer| < left
        invariant left <= length && length - left <= |input| && w.Beyond() == old(w.Beyond())
        invariant Appended(w, input, text, length - left, limit)
        decreases |input| - (length - left), |buffer| == 0
      {
        var n := |buffer|;
        ok := AppendBuffered(w, n, input, text, length - left, limit);
        if !ok {
          return;
        }
        left := left - n;
        NextPieceOf(w, input, text, length - left, limit);
        if buffer == [] {
          return false;
        }
      }
      ok := AppendBuffered(w, left, input, text, length - left, limit);
    }
  
    /** Read the tag byte and its extra bytes off the buffer. */
    method TakeTag() returns (c: byte, v: nat)
      requires Valid() && buffer != [] && |buffer| >= 1 + Extra(buffer[0])
      modifies this`buffer
      ensures Valid() && TagOf(old(Input()), c, v) && Input() == old(Input())[1 + Extra(c)..]
    {
      ghost var rest := reader.data[reader.pos + peeked..];
      c := buffer[0];
      var n := 1 + Extra(c);
      DropFront(buffer, rest, n);
      assert (buffer + rest)[0] == c;
      assert (buffer + rest)[..n][1..] == (buffer + rest)[1..n];
      v := LittleEndian(buffer[..n][1..]);
      buffer := buffer[n..];
    }

    method CopyTag(w: Writer) returns (ok: bool)
      requires Valid() && w.Valid() && Apart(w)
      requires buffer != [] && |buffer| >= 1 + Extra(buffer[0]) && !IsLiteral(buffer[0])
      modifies this`buffer, w.Repr()
      ensures w.Beyond() == old(w.Beyond())
      ensures ok ==> Valid() && w.Valid() && w.Limit() == old(w.Limit())
      ensures ok ==> Outlook(w) == old(Outlook(w)) && |Input()| < |old(Input())|
      ensures !ok ==> old(Outlook(w)).Halted?
    {
      hide Decode;
      hide CopyWithin;
      ghost var input, text, limit := Input(), w.Text(), w.Limit();
      assert input[0] == buffer[0];
      var c, v := TakeTag();
      DecodeCopy(input, text, limit, c, v);
      ok := w.AppendFromSelf(CopyOffset(c, v), CopyLength(c));
    }

    method LiteralTag(w: Writer) returns (ok: bool)
      requires Valid() && w.Valid() && Apart(w)
      requires buffer != [] && |buffer| >= 1 + Extra(buffer[0]) && IsLiteral(buffer[0])
      modifies this`buffer, this`peeked, reader`pos, w.Repr()
      ensures w.Beyond() == old(w.Beyond())
      ensures ok ==> Valid() && w.Valid() && w.Limit() == old(w.Limit())
      ensures ok ==> Outlook(w) == old(Outlook(w)) && |Input()| < |old(Input())|
      ensures !ok ==> old(Outlook(w)).Halted?
    {
      hide Decode;
      ghost var input, text, limit := Input(), w.Text(), w.Limit();
      assert input[0] == buffer[0];
      if buffer[0] / 4 + 1 < 61 {
        ok := FastLiteral(w, buffer[0] / 4 + 1);
        if ok {
          return;
        }
      }
      var c, v := TakeTag();
      DecodeLiteral(input, text, limit, c, v);
      ok := AppendLiteral(w, LiteralLength(c, v));
    }

    /** A short literal whose sixteen-byte neighbourhood is at hand. */
    method FastLiteral(w: Writer, length: nat) returns (ok: bool)
      requires Valid() && w.Valid() && Apart(w)
      requires buffer != [] && IsLiteral(buffer[0]) && length == buffer[0] / 4 + 1 < 61
      modifies this`buffer, w.Repr()
      ensures w.Beyond() == old(w.Beyond())
      ensures Valid() && w.Valid() && w.Limit() == old(w.Limit())
      ensures ok ==> Outlook(w) == old(Outlook(w)) && |Input()| < |old(Input())|
      ensures !ok ==> buffer == old(buffer) && w.Text() == old(w.Text())
    {
      hide Decode;
      ghost var input, text, limit, rest := Input(), w.Text(), w.Limit(), reader.data[reader.pos + peeked..];
      ok := w.TryFastAppend(buffer[1..], length);
      if ok {
        DropFront(buffer, rest, 1);
        DropFront(buffer[1..], rest, length);
        assert input[0] == buffer[0] && input[1..1] == [];
        DecodeLiteral(input, text, limit, input[0], 0);
        buffer := buffer[1..][length..];
      }
    }

    /** Decode tags until the input ends or something is wrong with it: exactly what the format
        says, for every way the source cuts the bytes and whoever is writing. */
    method DecompressAllTags(w: Writer)
      requires Valid() && w.Valid() && Apart(w) && !eof && |buffer| < 5
      modifies this, reader`pos, w.Repr()
      ensures w.Beyond() == old(w.Beyond())
      ensures eof ==> w.Valid() && w.Limit() == old(w.Limit()) && old(Outlook(w)) == Done(w.Text())
      ensures !eof ==> old(Outlook(w)).Halted?
    {
      hide Extra, CutsFit, IsLiteral, CopyWithin, LittleEndian;
      ghost var outlook := Outlook(w);
      var more := RefillTag();
      while more
        invariant more ==> Valid() && w.Valid() && !eof && w.Limit() == old(w.Limit()) && Outlook(w) == outlook
        invariant more ==> buffer != [] && |buffer| >= 1 + Extra(buffer[0])
        invariant !more && eof ==> w.Valid() && w.Limit() == old(w.Limit()) && outlook == Done(w.Text())
        invariant !more && !eof ==> outlook.Halted?
        invariant w.Beyond() == old(w.Beyond())
        decreases more, if more then |Input()| else 0
      {
        var ok;
        if IsLiteral(buffer[0]) {
          ok := LiteralTag(w);
        } else {
          ok := CopyTag(w);
        }
        if !ok {
          return;
        }
        if |buffer| < 5 {
          more := RefillTag();
        }
      }
    }
  }

  /** `s` starts with the tag byte `c` and extra bytes that spell `v`. */
  ghost predicate TagOf(s: seq<byte>, c: byte, v: nat) {
    |s| >= 1 + Extra(c) && s[0] == c && LittleEndian(s[1..1 + Extra(c)]) == v
  }

  lemma DecodeCopy(s: seq<byte>, out: seq<byte>, limit: nat, c: byte, v: nat)
    requires TagOf(s, c, v) && !IsLiteral(c)
    ensures var offset, n, rest := CopyOffset(c, v), CopyLength(c), s[1 + Extra(c)..];
            Decode(s, out, limit) ==
              if 1 <= offset <= |out| && |out| + n <= limit then Decode(rest, CopyWithin(out, offset, n), limit)
              else Halted
  {
  }

  lemma DecodeLiteral(s: seq<byte>, out: seq<byte>, limit: nat, c: byte, v: nat)
    requires IsLiteral(c) && |s| >= 1 + Extra(c) && s[0] == c && LittleEndian(s[1..1 + Extra(c)]) == v
    ensures var n, rest := LiteralLength(c, v), s[1 + Extra(c)..];
            Decode(s, out, limit) ==
              if n <= |rest| && |out| + n <= limit then Decode(rest[n..], out + rest[..n], limit) else Halted
  {
  }

  lemma DropFront(buffer: seq<byte>, rest: seq<byte>, n: nat)
    requires n <= |buffer|
    ensures (buffer + rest)[..n] == buffer[..n] && (buffer + rest)[n..] == buffer[n..] + rest
  {
  }

  /** Taking `n` more bytes after the first `done`. */
  lemma TakeMore(text: seq<byte>, input: seq<byte>, done: nat, n: nat)
    requires done + n <= |input|
    ensures input[done..][n..] == input[done + n..]
    ensures text + input[..done] + input[done..][..n] == text + input[..done + n]
  {
    assert input[done..][..n] == input[done..done + n];
    assert input[..done] + input[done..done + n] == input[..done + n];
    Associate(text, input[..done], input[done..done + n]);
  }

  /** Moving the first `k` bytes of a piece behind the buffered ones. */
  lemma StitchStep(buffer: seq<byte>, data: seq<byte>, pos: nat, length: nat, k: nat)
    requires k <= length && pos + length <= |data|
    ensures buffer + data[pos..pos + length][..k] + data[pos + k..] == buffer + data[pos..]
  {
    PeekedRest(data, pos, k);
    assert data[pos..pos + length][..k] == data[pos..pos + k];
    Associate(buffer, data[pos..pos + k], data[pos + k..]);
  }

  lemma PeekedRest(data: seq<byte>, pos: nat, n: nat)
    requires pos + n <= |data|
    ensures data[pos..] == data[pos..pos + n] + data[pos + n..]
  {
  }

  lemma UncompressedCases(input: seq<byte>)
    ensures match ReadLength(input, 0)
            case None => Uncompressed(input).None?
            case Some((n, tags)) =>
              var o := Decode(tags, [], n);
              Uncompressed(input) == if o.Done? && |o.text| == n then Some(o.text) else None
  {
  }

  /** Decompress into a caller's array; true exactly for a well-formed buffer, whose text is then
      in place.  Nothing beyond the announced length is written, whatever the buffer says. */
  method RawUncompress(reader: Source, dst: array<byte>) returns (ok: bool)
    requires reader.Valid() && dst.Length <= MAX_SIZE
    requires match ReadLength(reader.Rest(), 0)
             case None => true
             case Some((n, tags)) => n <= dst.Length
    modifies reader`pos, dst
    ensures ok <==> Uncompressed(old(reader.Rest())).Some?
    ensures ok ==> |Uncompressed(old(reader.Rest())).value| <= dst.Length
    ensures ok ==> dst[..|Uncompressed(old(reader.Rest())).value|] == Uncompressed(old(reader.Rest())).value
    ensures match ReadLength(old(reader.Rest()), 0)
            case None => true
            case Some((n, tags)) => n <= dst.Length && dst[n..] == old(dst[n..])
  {
    hide Decode;
    hide ReadLength;
    hide Uncompressed;
    var output := new ArrayWriter(dst);
    var decompressor := new Decompressor(reader);
    UncompressedCases(reader.Rest());
    var length := decompressor.ReadUncompressedLength();
    if length.None? {
      return false;
    }
    output.SetExpectedLength(length.value);
    var w := ToArray(output);
    assert w.Beyond() == dst[length.value..];
    decompressor.DecompressAllTags(w);
    return decompressor.eof && output.op == output.opLimit;
  }

  /** Validate without writing: the same verdict on every byte string. */
  method IsValidCompressedBuffer(reader: Source) returns (ok: bool)
    requires reader.Valid()
    modifies reader`pos
    ensures ok <==> Uncompressed(old(reader.Rest())).Some?
  {
    hide Decode;
    hide ReadLength;
    hide Uncompressed;
    var counter := new Validator();
    var decompressor := new Decompressor(reader);
    UncompressedCases(reader.Rest());
    var length := decompressor.ReadUncompressedLength();
    if length.None? {
      return false;
    }
    counter.SetExpectedLength(length.value);
    var w := ToCount(counter);
    decompressor.DecompressAllTags(w);
    return decompressor.eof && counter.produced == counter.expected;
  }

  /** A way to cut each compressed stream. */
  type Recuts = seq<byte> -> Cuts

  ghost predicate RecutsFit(respan: Recuts) {
    forall s: seq<byte> :: CutsFit(respan(s), |s|)
  }

  /** The round trip, for every input below four gigabytes, every hash function, and every way a
      source on either side cuts its bytes into pieces. */
  method RoundTrip(input: seq<byte>, span: Cuts, hash: SizedHash,
                   respan: Recuts)
    returns (output: seq<byte>)
    requires |input| < 0x1_0000_0000 && SnappyStream.HashesInto(hash)
    requires CutsFit(span, |input|) && RecutsFit(respan)
    ensures output == input
  {
    hide Uncompressed;
    hide SnappyStream.HashesInto;
    var source := new Source(input, span);
    assert source.Rest() == input;
    var compressed := new byte[MaxCompressedLength(|input|)](_ => 0);
    var sink := new Sink(compressed);
    var written := SnappyStream.Compress(source, sink, hash);
    var packed := compressed[..written];
    var back := new Source(packed, respan(packed));
    assert back.Rest() == packed;
    var dst := new byte[|input|](_ => 0);
    AnnouncedLength(packed, input);
    var ok := RawUncompress(back, dst);
    return dst[..];
  }

  lemma AnnouncedLength(packed: seq<byte>, text: seq<byte>)
    requires Uncompressed(packed) == Some(text)
    ensures ReadLength(packed, 0).Some? && ReadLength(packed, 0).value.0 == |text|
  {
  }
}
