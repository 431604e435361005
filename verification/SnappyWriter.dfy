/** Where decompressed bytes go: a flat array, with fast paths that may write a little too far,
    or a validator that only counts. */
module SnappyWriter {
  import opened Bytes
  import opened SnappyFormat

  const MAX_INCREMENT_COPY_OVERFLOW: nat := 10
  const MAX_SIZE: nat := 0xFFFF_FFFF_FFFF_FFFF

  /** `n - 1` in unsigned arithmetic: huge for 0. */
  function Predecessor(n: nat): nat {
    if n == 0 then MAX_SIZE else n - 1
  }

  /** Eight bytes of one array in one step: all are read before any is written. */
  method UnalignedCopy64(a: array<byte>, src: nat, op: nat)
    requires src + 8 <= a.Length && op + 8 <= a.Length
    modifies a
    ensures a[..op + 8] == old(a[..op]) + old(a[src..src + 8])
    ensures a[op + 8..] == old(a[op + 8..])
  {
    var word := a[src..src + 8];
    for i := 0 to 8
      invariant a[..op + i] == old(a[..op]) + word[..i]
      invariant a[op + 8..] == old(a[op + 8..])
    {
      a[op + i] := word[i];
    }
  }

  /** The gap between source and target after some doublings of an initial `offset`. */
  ghost predicate Doubled(gap: nat, offset: nat) {
    gap == offset || gap == 2 * offset || gap == 4 * offset || gap == 8 * offset
  }

  /** In a text that repeats with period `offset`, going back any number of periods changes nothing. */
  lemma {:induction false} RepeatsFar(r: seq<byte>, from: nat, offset: nat, x: nat, periods: nat)
    requires 1 <= offset <= from <= |r| && x < |r| && from + periods * offset <= x + offset
    requires forall i | from <= i < |r| :: r[i] == r[i - offset]
    ensures 0 <= x - periods * offset && r[x] == r[x - periods * offset]
    decreases periods
  {
    if periods > 0 {
      assert periods * offset == (periods - 1) * offset + offset;
      assert (periods - 1) * offset >= 0;
      RepeatsFar(r, from, offset, x, periods - 1);
      var y := x - (periods - 1) * offset;
      assert r[y] == r[y - offset];
    }
  }

  lemma RepeatsGap(r: seq<byte>, from: nat, offset: nat, x: nat, gap: nat)
    requires 1 <= offset <= from <= |r| && x < |r| && Doubled(gap, offset) && from + gap <= x + offset
    requires forall i | from <= i < |r| :: r[i] == r[i - offset]
    ensures r[x] == r[x - gap]
  {
    if gap == offset {
      RepeatsFar(r, from, offset, x, 1);
    } else if gap == 2 * offset {
      RepeatsFar(r, from, offset, x, 2);
    } else if gap == 4 * offset {
      RepeatsFar(r, from, offset, x, 4);
    } else {
      RepeatsFar(r, from, offset, x, 8);
    }
  }

  /** Copying `k` bytes from `gap` bytes back continues the repetition. */
  lemma BlockExtends(out: seq<byte>, offset: nat, n: nat, gap: nat, k: nat)
    requires 1 <= offset <= |out| && Doubled(gap, offset) && gap <= n + offset && k <= gap
    ensures var r := CopyWithin(out, offset, n);
            r + r[|r| - gap..|r| - gap + k] == CopyWithin(out, offset, n + k)
  {
    hide CopyWithin;
    hide Doubled;
    var r, whole := CopyWithin(out, offset, n), CopyWithin(out, offset, n + k);
    CopyRepeats(out, offset, n + k);
    CopySplit(out, offset, n, k);
    CopyRepeats(r, offset, k);
    assert whole[..|r|] == r;
    var tail, source := whole[|r|..], r[|r| - gap..|r| - gap + k];
    forall i | 0 <= i < k ensures tail[i] == source[i] {
      RepeatsGap(whole, |out|, offset, |r| + i, gap);
      assert whole[..|r|][|r| + i - gap] == r[|r| + i - gap];
    }
    assert tail == source;
    assert whole == whole[..|r|] + tail;
  }

  /** One byte at a time: the meaning of an overlapping copy. */
  method IncrementalCopy(a: array<byte>, src: nat, op: nat, length: nat)
    requires src < op && op + length <= a.Length
    modifies a
    ensures a[..op + length] == CopyWithin(old(a[..op]), op - src, length)
    ensures a[op + length..] == old(a[op + length..])
  {
    hide CopyWithin;
    ghost var out := a[..op];
    CopyNothing(out, op - src);
    for i := 0 to length
      invariant a[..op + i] == CopyWithin(out, op - src, i)
      invariant a[op + length..] == old(a[op + length..])
    {
      BlockExtends(out, op - src, i, op - src, 1);
      ghost var r := a[..op + i];
      a[op + i] := a[src + i];
      assert a[..op + i + 1] == r + [r[src + i]];
      assert r[src + i..src + i + 1] == [r[src + i]];
    }
  }

  lemma CopyNothing(out: seq<byte>, offset: nat)
    requires 1 <= offset <= |out|
    ensures CopyWithin(out, offset, 0) == out
  {
  }

  /** One eight-byte step of a copy; of the bytes written, `k` are known to be right. */
  method WordStep(a: array<byte>, ghost out: seq<byte>, ghost offset: nat, src: nat, op: nat, ghost k: nat)
    requires 1 <= offset <= |out| <= op && src < op && op + 8 <= a.Length
    requires a[..op] == CopyWithin(out, offset, op - |out|)
    requires Doubled(op - src, offset) && op - src <= op - |out| + offset && k <= op - src && k <= 8
    modifies a
    ensures a[..op + k] == CopyWithin(out, offset, op - |out| + k)
    ensures a[op + 8..] == old(a[op + 8..])
  {
    hide CopyWithin;
    hide Doubled;
    ghost var r := a[..op];
    BlockExtends(out, offset, op - |out|, op - src, k);
    UnalignedCopy64(a, src, op);
    assert a[..op + k] == a[..op + 8][..op + k];
    assert old(a[src..src + 8])[..k] == r[src..src + k];
    assert a[..op + k] == r + r[src..src + k];
  }

  lemma TailOf(a: seq<byte>, b: seq<byte>, i: nat, j: nat)
    requires i <= j <= |a| && |a| == |b| && a[i..] == b[i..]
    ensures a[j..] == b[j..]
  {
    assert a[j..] == a[i..][j - i..] && b[j..] == b[i..][j - i..];
  }

  /** While source and target are less than eight bytes apart, each step doubles the repeated
      pattern in front of the target. */
  method ExpandPattern(a: array<byte>, src: nat, op0: nat) returns (op: nat)
    requires src < op0 && op0 + 1 + MAX_INCREMENT_COPY_OVERFLOW <= a.Length
    modifies a
    ensures op0 <= op <= a.Length && 8 <= op - src && Doubled(op - src, op0 - src)
    ensures a[..op] == CopyWithin(old(a[..op0]), op0 - src, op - op0)
    ensures a[op0 + 1 + MAX_INCREMENT_COPY_OVERFLOW..] == old(a[op0 + 1 + MAX_INCREMENT_COPY_OVERFLOW..])
  {
    hide CopyWithin;
    op := op0;
    ghost var out, offset, end := a[..op0], op0 - src, op0 + 1 + MAX_INCREMENT_COPY_OVERFLOW;
    CopyNothing(out, offset);
    while op - src < 8
      invariant src < op0 <= op <= a.Length && Doubled(op - src, offset)
      invariant a[..op] == CopyWithin(out, offset, op - op0)
      invariant a[end..] == old(a[end..])
      decreases 8 - (op - src)
    {
      ghost var before := a[..];
      WordStep(a, out, offset, src, op, op - src);
      TailOf(before, a[..], op + 8, end);
      op := op + (op - src);
    }
  }

  /** Eight bytes at a time, after expanding a short pattern; up to ten bytes beyond the end may
      be overwritten. */
  method IncrementalCopyFastPath(a: array<byte>, src0: nat, op0: nat, length: nat)
    requires src0 < op0 && 0 < length && op0 + length + MAX_INCREMENT_COPY_OVERFLOW <= a.Length
    modifies a
    ensures a[..op0 + length] == CopyWithin(old(a[..op0]), op0 - src0, length)
    ensures a[op0 + length + MAX_INCREMENT_COPY_OVERFLOW..] == old(a[op0 + length + MAX_INCREMENT_COPY_OVERFLOW..])
  {
    hide CopyWithin;
    hide Doubled;
    ghost var out, offset, end := a[..op0], op0 - src0, op0 + length + MAX_INCREMENT_COPY_OVERFLOW;
    ghost var before := a[..];
    var op := ExpandPattern(a, src0, op0);
    TailOf(before, a[..], op0 + 1 + MAX_INCREMENT_COPY_OVERFLOW, end);
    var src, left := src0, length - (op - op0);
    while left > 0
      invariant 8 <= op - src <= op - op0 + offset && Doubled(op - src, offset)
      invariant op >= op0 && left == length - (op - op0)
      invariant op <= a.Length && a[..op] == CopyWithin(out, offset, op - op0)
      invariant a[end..] == old(a[end..])
    {
      before := a[..];
      WordStep(a, out, offset, src, op, 8);
      TailOf(before, a[..], op + 8, end);
      src, op, left := src + 8, op + 8, left - 8;
    }
    CopyPrefix(out, offset, length, op - op0);
    assert a[..op0 + length] == a[..op][..op0 + length];
  }

  lemma CopyPrefix(out: seq<byte>, offset: nat, m: nat, n: nat)
    requires 1 <= offset <= |out| && m <= n
    ensures CopyWithin(out, offset, n)[..|out| + m] == CopyWithin(out, offset, m)
  {
    CopySplit(out, offset, m, n - m);
    CopyRepeats(CopyWithin(out, offset, m), offset, n - m);
  }

  /** A short copy from at least eight bytes back: two words, sixteen bytes, whatever the length. */
  method CopySixteen(a: array<byte>, src: nat, op: nat, length: nat)
    requires src + 8 <= op && op + 16 <= a.Length && length <= 16
    modifies a
    ensures a[..op + length] == CopyWithin(old(a[..op]), op - src, length)
    ensures a[op + 16..] == old(a[op + 16..])
  {
    hide CopyWithin;
    ghost var out, offset, before := a[..op], op - src, a[..];
    CopyNothing(out, offset);
    WordStep(a, out, offset, src, op, 8);
    ghost var middle := a[..];
    TailOf(before, middle, op + 8, op + 16);
    WordStep(a, out, offset, src + 8, op + 8, 8);
    CopyPrefix(out, offset, length, 16);
    assert a[..op + length] == a[..op + 16][..op + length];
  }

  method Store(a: array<byte>, op: nat, bytes: seq<byte>)
    requires op + |bytes| <= a.Length
    modifies a
    ensures a[..op + |bytes|] == old(a[..op]) + bytes
    ensures a[op + |bytes|..] == old(a[op + |bytes|..])
  {
    for i := 0 to |bytes|
      invariant a[..op + i] == old(a[..op]) + bytes[..i]
      invariant a[op + |bytes|..] == old(a[op + |bytes|..])
    {
      a[op + i] := bytes[i];
    }
    assert bytes[..|bytes|] == bytes;
  }

  /** Writes into a flat array of the caller's, never beyond the expected length. */
  class ArrayWriter {
    const base: array<byte>
    var op: nat
    var opLimit: nat

    ghost predicate Valid()
      reads this
    {
      op <= opLimit <= base.Length <= MAX_SIZE
    }

    ghost function Text(): seq<byte>
      requires Valid()
      reads this, base
    {
      base[..op]
    }

    constructor (dst: array<byte>)
      requires dst.Length <= MAX_SIZE
      ensures Valid() && base == dst && op == 0
    {
      base, op, opLimit := dst, 0, 0;
    }

    method SetExpectedLength(length: nat)
      requires Valid() && op + length <= base.Length
      modifies this`opLimit
      ensures Valid() && opLimit == op + length
    {
      opLimit := op + length;
    }

    method Append(bytes: seq<byte>) returns (ok: bool)
      requires Valid()
      modifies this`op, base
      ensures Valid() && base[opLimit..] == old(base[opLimit..])
      ensures ok <==> old(op) + |bytes| <= opLimit
      ensures Text() == if ok then old(Text()) + bytes else old(Text())
    {
      if opLimit - op < |bytes| {
        return false;
      }
      ghost var before := base[..];
      Store(base, op, bytes);
      TailOf(before, base[..], op + |bytes|, opLimit);
      op := op + |bytes|;
      return true;
    }

    /** Copies sixteen bytes whatever the length, when both sides have room for that. */
    method TryFastAppend(available: seq<byte>, length: nat) returns (ok: bool)
      requires Valid()
      modifies this`op, base
      ensures Valid() && base[opLimit..] == old(base[opLimit..])
      ensures ok <==> length <= 16 <= |available| && old(op) + 16 <= opLimit
      ensures Text() == if ok then old(Text()) + available[..length] else old(Text())
    {
      if length <= 16 && |available| >= 16 && opLimit - op >= 16 {
        ghost var before := base[..];
        Store(base, op, available[..16]);
        TailOf(before, base[..], op + 16, opLimit);
        assert base[..op + length] == base[..op + 16][..op + length];
        op := op + length;
        return true;
      }
      return false;
    }

    /** All three paths are one overlapping copy, refused just when the copy is not possible. */
    method AppendFromSelf(offset: nat, length: nat) returns (ok: bool)
      requires Valid() && 1 <= length
      modifies this`op, base
      ensures Valid() && base[opLimit..] == old(base[opLimit..])
      ensures ok <==> 1 <= offset <= old(op) && old(op) + length <= opLimit
      ensures Text() == if ok then CopyWithin(old(Text()), offset, length) else old(Text())
    {
      hide CopyWithin;
      if op <= Predecessor(offset) {
        return false;
      }
      var spaceLeft := opLimit - op;
      if length <= 16 && offset >= 8 && spaceLeft >= 16 {
        ghost var before := base[..];
        CopySixteen(base, op - offset, op, length);
        TailOf(before, base[..], op + 16, opLimit);
      } else if spaceLeft >= length + MAX_INCREMENT_COPY_OVERFLOW {
        ghost var before := base[..];
        IncrementalCopyFastPath(base, op - offset, op, length);
        TailOf(before, base[..], op + length + MAX_INCREMENT_COPY_OVERFLOW, opLimit);
      } else {
        if spaceLeft < length {
          return false;
        }
        ghost var before := base[..];
        IncrementalCopy(base, op - offset, op, length);
        TailOf(before, base[..], op + length, opLimit);
      }
      op := op + length;
      return true;
    }
  }

  /** Drops everything on the floor and only counts.  `text` is what an array would have held. */
  class Validator {
    var expected: nat
    var produced: nat
    ghost var text: seq<byte>

    ghost predicate Valid()
      reads this
    {
      produced == |text| <= expected <= MAX_SIZE
    }

    constructor ()
      ensures Valid() && text == []
    {
      expected, produced, text := 0, 0, [];
    }

    method SetExpectedLength(length: nat)
      requires Valid() && produced == 0 && length <= MAX_SIZE
      modifies this`expected
      ensures Valid() && expected == length
    {
      expected := length;
    }

    method Append(bytes: seq<byte>) returns (ok: bool)
      requires Valid()
      modifies this`produced, this`text
      ensures ok <==> old(produced) + |bytes| <= expected
      ensures ok ==> Valid() && text == old(text) + bytes
    {
      produced := produced + |bytes|;
      text := text + bytes;
      return produced <= expected;
    }

    method AppendFromSelf(offset: nat, length: nat) returns (ok: bool)
      requires Valid() && 1 <= length
      modifies this`produced, this`text
      ensures ok <==> 1 <= offset <= old(produced) && old(produced) + length <= expected
      ensures ok ==> Valid() && text == CopyWithin(old(text), offset, length)
    {
      if produced <= Predecessor(offset) {
        return false;
      }
      produced := produced + length;
      text := CopyWithin(text, offset, length);
      return produced <= expected;
    }
  }
}
