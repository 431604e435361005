/** The compressed format: what a sequence of tags decodes to, byte by byte. */
module SnappyFormat {
  import opened Bytes
  import opened Coding

  const BLOCK_SIZE: nat := 0x1_0000

  /** Upper bound on the compressed size of `n` bytes. */
  function MaxCompressedLength(n: nat): nat {
    32 + n + n / 6
  }

  predicate IsLiteral(c: byte) { c % 4 == 0 }

  /** Bytes that follow the tag byte: extra length bytes of a long literal, or offset bytes. */
  function Extra(c: byte): (n: nat)
    ensures n <= 4
  {
    match c % 4
    case 0 => if c / 4 < 60 then 0 else c / 4 - 59
    case 1 => 1
    case 2 => 2
    case _ => 4
  }

  /** Length of the literal whose extra bytes spell `v`; thirty-two bit arithmetic. */
  function LiteralLength(c: byte, v: nat): nat {
    if c / 4 < 60 then c / 4 + 1 else (v + 1) % 0x1_0000_0000
  }

  function CopyLength(c: byte): (n: nat)
    ensures c % 4 != 0 ==> 1 <= n <= 64
  {
    if c % 4 == 1 then c / 4 % 8 + 4 else c / 4 + 1
  }

  /** Offset of the copy whose extra bytes spell `v`. */
  function CopyOffset(c: byte, v: nat): nat {
    if c % 4 == 1 then c / 32 * 256 + v else v
  }

  /** Append `n` bytes, each a copy of the byte `offset` before it: the run may overlap itself. */
  function CopyWithin(out: seq<byte>, offset: nat, n: nat): (r: seq<byte>)
    requires 1 <= offset <= |out|
    ensures |r| == |out| + n
    decreases n
  {
    if n == 0 then out else CopyWithin(out + [out[|out| - offset]], offset, n - 1)
  }

  /** A writer stops at the first byte it must not write; `Halted` is that failure. */
  datatype Outcome = Halted | Done(text: seq<byte>)

  /** Decode every tag of `s`, appending to `out`, never beyond `limit` bytes in all. */
  function Decode(s: seq<byte>, out: seq<byte>, limit: nat): (o: Outcome)
    decreases |s|
  {
    if s == [] then Done(out)
    else
      var c := s[0];
      if |s| < 1 + Extra(c) then Halted
      else
        var v, rest := LittleEndian(s[1..1 + Extra(c)]), s[1 + Extra(c)..];
        if IsLiteral(c) then
          var n := LiteralLength(c, v);
          if n <= |rest| && |out| + n <= limit then Decode(rest[n..], out + rest[..n], limit) else Halted
        else
          var offset, n := CopyOffset(c, v), CopyLength(c);
          if 1 <= offset <= |out| && |out| + n <= limit then
            Decode(rest, CopyWithin(out, offset, n), limit)
          else Halted
  }

  /** The text that a compressed buffer stands for, if it is well formed. */
  function Uncompressed(s: seq<byte>): Option<seq<byte>> {
    match ReadLength(s, 0)
    case None => None
    case Some((n, tags)) =>
      match Decode(tags, [], n)
      case Halted => None
      case Done(text) => if |text| == n then Some(text) else None
  }

  // ---- The tags of the format, in bytes

  /** Kind 0: up to sixty bytes follow the tag. */
  lemma ShortLiteral(text: seq<byte>, rest: seq<byte>, out: seq<byte>, limit: nat)
    requires 1 <= |text| <= 60 && |out| + |text| <= limit
    ensures Decode([(|text| - 1) * 4] + text + rest, out, limit) == Decode(rest, out + text, limit)
  {
    hide Decode;
    var c := (|text| - 1) * 4;
    LiteralTag(c, [], text, rest, out, limit);
    assert [c] + [] == [c];
  }

  /** Above, their number less one stands in one byte or two (or three or four). */
  lemma LongLiteral(text: seq<byte>, rest: seq<byte>, out: seq<byte>, limit: nat)
    requires 1 <= |text| <= 0x1_0000 && |out| + |text| <= limit
    ensures |text| <= 0x100 ==> Decode([240, |text| - 1] + text + rest, out, limit) == Decode(rest, out + text, limit)
    ensures Decode([244, (|text| - 1) % 0x100, (|text| - 1) / 0x100] + text + rest, out, limit) == Decode(rest, out + text, limit)
  {
    hide Decode, LittleEndian;
    var n := |text| - 1;
    if |text| <= 0x100 {
      Spelled1(n);
      LiteralTag(240, [n], text, rest, out, limit);
      assert [240] + [n] == [240, n];
    }
    Spelled2(n);
    LiteralTag(244, [n % 0x100, n / 0x100], text, rest, out, limit);
    assert [244] + [n % 0x100, n / 0x100] == [244, n % 0x100, n / 0x100];
  }

  lemma LiteralTag(c: byte, extra: seq<byte>, text: seq<byte>, rest: seq<byte>, out: seq<byte>, limit: nat)
    requires IsLiteral(c) && Extra(c) == |extra| && LiteralLength(c, LittleEndian(extra)) == |text| && |out| + |text| <= limit
    ensures Decode([c] + extra + text + rest, out, limit) == Decode(rest, out + text, limit)
  {
    var s := [c] + extra + text + rest;
    hide Extra, LiteralLength, LittleEndian;
    assert s[1..1 + |extra|] == extra && s[1 + |extra|..] == text + rest;
    assert (text + rest)[..|text|] == text && (text + rest)[|text|..] == rest;
  }

  /** Kind 1: a copy of four to eleven bytes, with an offset of eleven bits. */
  lemma ShortCopyTag(offset: nat, n: nat, rest: seq<byte>, out: seq<byte>, limit: nat)
    requires 1 <= offset <= |out| && |out| + n <= limit && 4 <= n <= 11 && offset < 2048
    ensures Decode([1 + (n - 4) * 4 + offset / 0x100 * 32, offset % 0x100] + rest, out, limit)
         == Decode(rest, CopyWithin(out, offset, n), limit)
  {
    hide Decode, LittleEndian, CopyWithin;
    var c := 1 + (n - 4) * 4 + offset / 0x100 * 32;
    Spelled1(offset % 0x100);
    KindOne(n - 4, offset / 0x100);
    CopyTag(c, [offset % 0x100], offset, n, rest, out, limit);
    assert [c] + [offset % 0x100] == [c, offset % 0x100];
  }

  lemma KindOne(m: nat, high: nat)
    requires m < 8 && high < 8
    ensures var c := 1 + m * 4 + high * 32; c < 0x100 && c % 4 == 1 && c / 4 % 8 == m && c / 32 == high
  {
  }

  /** Kind 2: a copy of up to 64 bytes, with an offset of sixteen bits. */
  lemma CopyTag2(offset: nat, n: nat, rest: seq<byte>, out: seq<byte>, limit: nat)
    requires 1 <= offset <= |out| && |out| + n <= limit && 1 <= n <= 64 && offset < 0x1_0000
    ensures Decode([2 + (n - 1) * 4, offset % 0x100, offset / 0x100] + rest, out, limit) == Decode(rest, CopyWithin(out, offset, n), limit)
  {
    hide Decode, LittleEndian, CopyWithin;
    var c := 2 + (n - 1) * 4;
    Spelled2(offset);
    CopyTag(c, [offset % 0x100, offset / 0x100], offset, n, rest, out, limit);
    assert [c] + [offset % 0x100, offset / 0x100] == [c, offset % 0x100, offset / 0x100];
  }

  /** Kind 3: a copy of up to 64 bytes, with an offset of thirty-two bits. */
  lemma CopyTag4(offset: nat, n: nat, rest: seq<byte>, out: seq<byte>, limit: nat)
    requires 1 <= offset <= |out| && |out| + n <= limit && 1 <= n <= 64 && offset < 0x1_0000_0000
    ensures Decode([3 + (n - 1) * 4, offset % 0x100, offset / 0x100 % 0x100, offset / 0x1_0000 % 0x100, offset / 0x100_0000] + rest, out, limit)
         == Decode(rest, CopyWithin(out, offset, n), limit)
  {
    hide Decode, LittleEndian, CopyWithin;
    var c, extra := 3 + (n - 1) * 4, [offset % 0x100, offset / 0x100 % 0x100, offset / 0x1_0000 % 0x100, offset / 0x100_0000];
    Spelled4(offset);
    CopyTag(c, extra, offset, n, rest, out, limit);
    assert [c] + extra == [c, offset % 0x100, offset / 0x100 % 0x100, offset / 0x1_0000 % 0x100, offset / 0x100_0000];
  }

  /** An offset that reaches before the text, or of zero, halts the decoder. */
  lemma BadOffset(c: byte, extra: seq<byte>, rest: seq<byte>, out: seq<byte>, limit: nat)
    requires !IsLiteral(c) && Extra(c) == |extra|
    requires CopyOffset(c, LittleEndian(extra)) == 0 || CopyOffset(c, LittleEndian(extra)) > |out|
    ensures Decode([c] + extra + rest, out, limit) == Halted
  {
    var s := [c] + extra + rest;
    hide Extra, CopyOffset, CopyLength, LittleEndian, CopyWithin;
    assert s[1..1 + |extra|] == extra && s[1 + |extra|..] == rest;
  }

  lemma Spelled1(a: byte)
    ensures LittleEndian([a]) == a
  {
    assert [a][1..] == [];
  }

  lemma Spelled2(n: nat)
    requires n < 0x1_0000
    ensures LittleEndian([n % 0x100, n / 0x100]) == n
  {
    assert [n % 0x100, n / 0x100][1..] == [n / 0x100];
    Spelled1(n / 0x100);
  }

  lemma Spelled4(n: nat)
    requires n < 0x1_0000_0000
    ensures LittleEndian([n % 0x100, n / 0x100 % 0x100, n / 0x1_0000 % 0x100, n / 0x100_0000]) == n
  {
    var a, b, c, d := n % 0x100, n / 0x100 % 0x100, n / 0x1_0000 % 0x100, n / 0x100_0000;
    var m := n / 0x1_0000;
    assert c == m % 0x100 && d == m / 0x100;
    Spelled2(m);
    assert [a, b, c, d][1..] == [b, c, d] && [b, c, d][1..] == [c, d];
    assert n == a + 0x100 * (b + 0x100 * m);
  }

  lemma CopyTag(c: byte, extra: seq<byte>, offset: nat, n: nat, rest: seq<byte>, out: seq<byte>, limit: nat)
    requires !IsLiteral(c) && Extra(c) == |extra| && CopyOffset(c, LittleEndian(extra)) == offset && CopyLength(c) == n
    requires 1 <= offset <= |out| && |out| + n <= limit
    ensures Decode([c] + extra + rest, out, limit) == Decode(rest, CopyWithin(out, offset, n), limit)
  {
    var s := [c] + extra + rest;
    hide Extra, CopyOffset, CopyLength, LittleEndian, CopyWithin;
    assert s[1..1 + |extra|] == extra && s[1 + |extra|..] == rest;
  }

  // ---- Laws of overlapping copies

  /** A copy keeps what is there and repeats with period `offset`. */
  lemma {:induction false} CopyRepeats(out: seq<byte>, offset: nat, n: nat)
    requires 1 <= offset <= |out|
    ensures var r := CopyWithin(out, offset, n);
            && r[..|out|] == out
            && forall i | |out| <= i < |r| :: r[i] == r[i - offset]
    decreases n
  {
    if n > 0 {
      var next := out + [out[|out| - offset]];
      CopyRepeats(next, offset, n - 1);
      var r := CopyWithin(out, offset, n);
      assert r[..|next|] == next;
      assert r[..|out|] == r[..|next|][..|out|] == out;
      assert forall i | 0 <= i < |next| :: r[i] == next[i];
    }
  }

  /** Those two facts determine the result. */
  lemma {:induction false} CopyUnique(out: seq<byte>, offset: nat, r: seq<byte>)
    requires 1 <= offset <= |out| <= |r| && r[..|out|] == out
    requires forall i | |out| <= i < |r| :: r[i] == r[i - offset]
    ensures r == CopyWithin(out, offset, |r| - |out|)
    decreases |r| - |out|
  {
    if |out| < |r| {
      var next := out + [out[|out| - offset]];
      assert r[|out|] == r[|out| - offset] == out[|out| - offset];
      assert r[..|next|] == next;
      CopyUnique(next, offset, r);
    } else {
      assert r == out;
    }
  }

  /** Two copies in a row with one offset are one longer copy. */
  lemma {:induction false} CopySplit(out: seq<byte>, offset: nat, m: nat, n: nat)
    requires 1 <= offset <= |out|
    ensures CopyWithin(CopyWithin(out, offset, m), offset, n) == CopyWithin(out, offset, m + n)
    decreases m
  {
    if m > 0 {
      CopySplit(out + [out[|out| - offset]], offset, m - 1, n);
    }
  }
}
