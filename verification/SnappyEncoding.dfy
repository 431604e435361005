/** The bytes the compressor emits for one literal or one copy, what they decode to, and what
    they cost. */
module SnappyEncoding {
  import opened Bytes
  import opened SnappyFormat

  /** Little-endian bytes of `n` without leading zeros. */
  function Minimal(n: nat): (s: seq<byte>) {
    if n == 0 then [] else [n % 0x100] + Minimal(n / 0x100)
  }

  lemma {:induction false} MinimalSpells(n: nat)
    ensures LittleEndian(Minimal(n)) == n
  {
    if n > 0 {
      MinimalSpells(n / 0x100);
    }
  }

  function LiteralHeader(length: nat): (s: seq<byte>)
    requires 1 <= length <= BLOCK_SIZE
  {
    var n := length - 1;
    MinimalShort(n);
    if n < 60 then [n * 4] else [(59 + |Minimal(n)|) * 4] + Minimal(n)
  }

  function LiteralBytes(text: seq<byte>): seq<byte>
    requires 1 <= |text| <= BLOCK_SIZE
  {
    LiteralHeader(|text|) + text
  }

  function ShortCopy(offset: nat, length: nat): (s: seq<byte>)
    requires 1 <= offset < 65536 && 4 <= length <= 64
    ensures |s| <= 3
  {
    if length < 12 && offset < 2048 then
      [1 + (length - 4) * 4 + offset / 256 * 32, offset % 256]
    else
      [2 + (length - 1) * 4, offset % 256, offset / 256]
  }

  /** A long copy is cut so that the last piece keeps at least four bytes. */
  function FirstPiece(length: nat): nat {
    if length >= 68 then 64 else if length > 64 then 60 else length
  }

  function CopyBytes(offset: nat, length: nat): (s: seq<byte>)
    requires 1 <= offset < 65536 && 4 <= length
    decreases length
  {
    var first := FirstPiece(length);
    ShortCopy(offset, first) + if first < length then CopyBytes(offset, length - first) else []
  }

  // ---- Meaning

  /** Whatever came before and whatever follows, decoding `code` appends `text`. */
  ghost predicate Encodes(code: seq<byte>, text: seq<byte>) {
    forall before: seq<byte>, rest: seq<byte>, limit: nat | |before| + |text| <= limit ::
      Decode(code + rest, before, limit) == Decode(rest, before + text, limit)
  }

  lemma EncodesNothing()
    ensures Encodes([], [])
  {
    forall before: seq<byte>, rest: seq<byte>, limit: nat
      ensures Decode([] + rest, before, limit) == Decode(rest, before + [], limit)
    {
      assert [] + rest == rest && before + [] == before;
    }
  }

  lemma EncodesBoth(code: seq<byte>, text: seq<byte>, code': seq<byte>, text': seq<byte>)
    requires Encodes(code, text) && Encodes(code', text')
    ensures Encodes(code + code', text + text')
  {
    forall before: seq<byte>, rest: seq<byte>, limit: nat | |before| + |text + text'| <= limit
      ensures Decode(code + code' + rest, before, limit) == Decode(rest, before + (text + text'), limit)
    {
      assert code + code' + rest == code + (code' + rest);
      assert before + (text + text') == before + text + text';
    }
  }

  lemma LiteralEncodes(text: seq<byte>)
    requires 1 <= |text| <= BLOCK_SIZE
    ensures Encodes(LiteralBytes(text), text)
  {
    var header, n := LiteralHeader(|text|), |text| - 1;
    var c := header[0];
    MinimalSpells(n);
    MinimalShort(n);
    assert Extra(c) == |header| - 1 && LiteralLength(c, LittleEndian(header[1..])) == |text|;
    forall before: seq<byte>, rest: seq<byte>, limit: nat | |before| + |text| <= limit
      ensures Decode(LiteralBytes(text) + rest, before, limit) == Decode(rest, before + text, limit)
    {
      TagSplit(header, text + rest);
      assert LiteralBytes(text) + rest == header + (text + rest);
      assert (text + rest)[|text|..] == rest && (text + rest)[..|text|] == text;
    }
  }

  lemma MinimalShort(n: nat)
    requires n < BLOCK_SIZE
    ensures |Minimal(n)| <= 2 && (n >= 60 ==> 1 <= |Minimal(n)|) && (n < 256 ==> |Minimal(n)| <= 1)
  {
    assert n / 0x100 / 0x100 == 0;
  }

  /** Whatever follows, decoding `code` turns `before` into `after`. */
  ghost predicate Decodes(code: seq<byte>, before: seq<byte>, after: seq<byte>) {
    forall rest: seq<byte>, limit: nat | |after| <= limit ::
      Decode(code + rest, before, limit) == Decode(rest, after, limit)
  }

  lemma DecodesBoth(code: seq<byte>, code': seq<byte>, a: seq<byte>, b: seq<byte>, c: seq<byte>)
    requires Decodes(code, a, b) && Decodes(code', b, c) && |b| <= |c|
    ensures Decodes(code + code', a, c)
  {
    forall rest: seq<byte>, limit: nat | |c| <= limit
      ensures Decode(code + code' + rest, a, limit) == Decode(rest, c, limit)
    {
      assert code + code' + rest == code + (code' + rest);
    }
  }

  /** The tag bytes of a copy spell its offset and length. */
  lemma ShortCopyFields(offset: nat, length: nat)
    requires 1 <= offset < 65536 && 4 <= length <= 64
    ensures var code := ShortCopy(offset, length);
            && !IsLiteral(code[0]) && |code| == 1 + Extra(code[0])
            && CopyOffset(code[0], LittleEndian(code[1..])) == offset && CopyLength(code[0]) == length
  {
    var code := ShortCopy(offset, length);
    assert LittleEndian(code[1..]) == code[1] + 0x100 * LittleEndian(code[1..][1..]);
    assert |code| == 3 ==> LittleEndian(code[1..][1..]) == code[2] + 0x100 * LittleEndian(code[1..][1..][1..]);
  }

  lemma ShortCopyDecodes(offset: nat, length: nat, before: seq<byte>)
    requires 1 <= offset < 65536 && 4 <= length <= 64 && offset <= |before|
    ensures Decodes(ShortCopy(offset, length), before, CopyWithin(before, offset, length))
  {
    hide ShortCopy;
    hide CopyWithin;
    hide CopyOffset;
    hide LittleEndian;
    var code := ShortCopy(offset, length);
    ShortCopyFields(offset, length);
    forall rest: seq<byte>, limit: nat | |before| + length <= limit
      ensures Decode(code + rest, before, limit) == Decode(rest, CopyWithin(before, offset, length), limit)
    {
      TagSplit(code, rest);
    }
  }

  lemma TagSplit(code: seq<byte>, rest: seq<byte>)
    requires code != []
    ensures (code + rest)[0] == code[0]
    ensures (code + rest)[1..|code|] == code[1..] && (code + rest)[|code|..] == rest
  {
  }

  lemma {:induction false} CopyDecodes(offset: nat, length: nat, before: seq<byte>)
    requires 1 <= offset < 65536 && 4 <= length && offset <= |before|
    ensures Decodes(CopyBytes(offset, length), before, CopyWithin(before, offset, length))
    decreases length
  {
    hide ShortCopy;
    hide CopyWithin;
    var first := FirstPiece(length);
    var mid := CopyWithin(before, offset, first);
    ShortCopyDecodes(offset, first, before);
    if first < length {
      CopyDecodes(offset, length - first, mid);
      CopySplit(before, offset, first, length - first);
      DecodesBoth(ShortCopy(offset, first), CopyBytes(offset, length - first), before, mid,
                  CopyWithin(before, offset, length));
    } else {
      assert ShortCopy(offset, first) + [] == ShortCopy(offset, first);
    }
  }

  /** A copy inside a text may reach back only into that text. */
  lemma CopyExtends(code: seq<byte>, text: seq<byte>, offset: nat, text': seq<byte>)
    requires Encodes(code, text)
    requires 1 <= offset < 65536 && offset <= |text| && |text| + 4 <= |text'| && text'[..|text|] == text
    requires forall i | |text| <= i < |text'| :: text'[i] == text'[i - offset]
    ensures Encodes(code + CopyBytes(offset, |text'| - |text|), text')
  {
    var n := |text'| - |text|;
    forall before: seq<byte>, rest: seq<byte>, limit: nat | |before| + |text'| <= limit
      ensures Decode(code + CopyBytes(offset, n) + rest, before, limit) == Decode(rest, before + text', limit)
    {
      assert code + CopyBytes(offset, n) + rest == code + (CopyBytes(offset, n) + rest);
      CopyDecodes(offset, n, before + text);
      assert (before + text')[..|before + text|] == before + text;
      CopyUnique(before + text, offset, before + text');
    }
  }

  // ---- Cost

  lemma LiteralCost(length: nat)
    requires 1 <= length <= BLOCK_SIZE
    ensures var header := |LiteralHeader(length)|;
            1 <= header <= 3 && 30 * header <= length + 34
  {
    MinimalShort(length - 1);
  }

  /** A copy of four bytes costs at most three; each byte more leaves more to spare. */
  lemma {:induction false} CopyCost(offset: nat, length: nat)
    requires 1 <= offset < 65536 && 4 <= length
    ensures 30 * |CopyBytes(offset, length)| <= 31 * (length - 4) + 90
    decreases length
  {
    var first := FirstPiece(length);
    if first < length {
      CopyCost(offset, length - first);
    }
  }
}
