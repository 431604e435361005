/** The compressor: a hash table of recent positions finds repeats, and everything between them
    is emitted as literals.  Correctness does not depend on the hash function. */
module SnappyCompress {
  import opened Bytes
  import Bits
  import opened SnappyFormat
  import opened SnappyEncoding

  const INPUT_MARGIN: nat := 15
  const MAX_HASH_TABLE_SIZE: nat := 16384

  /** Any function of the next four bytes. */
  type Hash = seq<byte> -> nat

  ghost predicate HashesBelow(hash: Hash, size: nat) {
    forall w :: hash(w) < size
  }

  ghost predicate Same(input: seq<byte>, s1: nat, s2: nat, n: nat)
    requires s1 <= s2 && s2 + n <= |input|
  {
    input[s1..s1 + n] == input[s2..s2 + n]
  }

  lemma SameNothing(input: seq<byte>, s1: nat, s2: nat)
    requires s1 <= s2 <= |input|
    ensures Same(input, s1, s2, 0)
  {
  }

  lemma SameByte(input: seq<byte>, s1: nat, s2: nat)
    requires s1 <= s2 < |input| && input[s1] == input[s2]
    ensures Same(input, s1, s2, 1)
  {
  }

  lemma SameExtends(input: seq<byte>, s1: nat, s2: nat, n: nat, more: nat)
    requires s1 <= s2 && s2 + n + more <= |input|
    requires Same(input, s1, s2, n) && Same(input, s1 + n, s2 + n, more)
    ensures Same(input, s1, s2, n + more)
  {
    assert input[s1..s1 + n + more] == input[s1..s1 + n] + input[s1 + n..s1 + n + more];
    assert input[s2..s2 + n + more] == input[s2..s2 + n] + input[s2 + n..s2 + n + more];
  }

  /** How many of the eight bytes at `p` and at `q` agree: the position of the lowest bit of their
      exclusive or, in bytes. */
  method CompareWords(input: seq<byte>, p: nat, q: nat) returns (k: nat)
    requires p <= q && q + 8 <= |input|
    ensures k <= 8 && Same(input, p, q, k)
    ensures k < 8 ==> input[p + k] != input[q + k]
  {
    hide Bits.Xor, Bits.LowestSet, Bits.Pow2, LittleEndian;
    var a, b := input[p..p + 8], input[q..q + 8];
    if a == b {
      return 8;
    }
    Bits.FirstDifference(a, b);
    Bits.WordFits(a);
    Bits.WordFits(b);
    Bits.XorBelow(LittleEndian(a), LittleEndian(b), 64);
    var bits := Bits.FindLSBSetNonZero64(Bits.Xor(LittleEndian(a), LittleEndian(b)));
    k := bits / 8;
    assert input[p..p + k] == a[..k] && input[q..q + k] == b[..k];
  }

  /** The longest common prefix of the texts at `s1` and `s2`, eight bytes at a time while they
      agree. */
  method FindMatchLength(input: seq<byte>, s1: nat, s2: nat) returns (matched: nat)
    requires s1 <= s2 <= |input|
    ensures s2 + matched <= |input| && Same(input, s1, s2, matched)
    ensures s2 + matched == |input| || input[s1 + matched] != input[s2 + matched]
  {
    hide Same;
    matched := 0;
    SameNothing(input, s1, s2);
    while s2 + matched + 8 <= |input|
      invariant s2 + matched <= |input| && Same(input, s1, s2, matched)
    {
      var k := CompareWords(input, s1 + matched, s2 + matched);
      SameExtends(input, s1, s2, matched, k);
      matched := matched + k;
      if k < 8 {
        return;
      }
    }
    while s2 + matched < |input| && input[s1 + matched] == input[s2 + matched]
      invariant s2 + matched <= |input| && Same(input, s1, s2, matched)
    {
      SameByte(input, s1 + matched, s2 + matched);
      SameExtends(input, s1, s2, matched, 1);
      matched := matched + 1;
    }
  }

  /** Eight bytes in one step; the bounds say what memory is touched. */
  method UnalignedCopy64(source: seq<byte>, from: nat, op: array<byte>, o: nat)
    requires from + 8 <= |source| && o + 8 <= op.Length
    modifies op
    ensures op[..o + 8] == old(op[..o]) + source[from..from + 8]
  {
    op[o], op[o + 1], op[o + 2], op[o + 3], op[o + 4], op[o + 5], op[o + 6], op[o + 7] :=
      source[from], source[from + 1], source[from + 2], source[from + 3],
      source[from + 4], source[from + 5], source[from + 6], source[from + 7];
  }

  method Memcpy(op: array<byte>, o: nat, input: seq<byte>, from: nat, to: nat)
    requires from <= to <= |input| && o + (to - from) <= op.Length
    modifies op
    ensures op[..o + (to - from)] == old(op[..o]) + input[from..to]
  {
    for i := 0 to to - from
      invariant op[..o + i] == old(op[..o]) + input[from..from + i]
    {
      op[o + i] := input[from + i];
      assert input[from..from + i + 1] == input[from..from + i] + [input[from + i]];
      assert op[..o + i + 1] == op[..o + i] + [op[o + i]];
    }
  }

  method EmitLengthBytes(op: array<byte>, base: nat, value: nat) returns (count: nat)
    requires 60 <= value < BLOCK_SIZE && base + 2 <= op.Length
    modifies op
    ensures count == |Minimal(value)| && base + count <= op.Length
    ensures op[..base + count] == old(op[..base]) + Minimal(value)
  {
    var n: nat := value;
    count := 0;
    MinimalShort(n);
    while n > 0
      invariant count + |Minimal(n)| == |Minimal(value)|
      invariant op[..base + count] + Minimal(n) == old(op[..base]) + Minimal(value)
      decreases n
    {
      op[base + count] := n % 0x100;
      assert Minimal(n) == [n % 0x100] + Minimal(n / 0x100);
      n := n / 0x100;
      count := count + 1;
    }
  }

  /** The length bytes of a long literal go in first, the tag byte that counts them after. */
  method EmitLongHeader(op: array<byte>, base: nat, length: nat) returns (at: nat)
    requires 61 <= length <= BLOCK_SIZE && base + 3 <= op.Length
    modifies op
    ensures at == base + |LiteralHeader(length)| <= op.Length
    ensures op[..at] == old(op[..base]) + LiteralHeader(length)
  {
    MinimalShort(length - 1);
    hide Minimal;
    var count := EmitLengthBytes(op, base + 1, length - 1);
    at := base + 1 + count;
    ghost var before := op[..at];
    Replaced(op[..base + 1], Minimal(length - 1), old(op[..base]), (59 + count) * 4);
    op[base] := (59 + count) * 4;
    assert op[..at] == before[base := op[base]];
  }

  lemma Replaced(front: seq<byte>, back: seq<byte>, a: seq<byte>, b: byte)
    requires |front| == |a| + 1 && front[..|a|] == a
    ensures (front + back)[|a| := b] == a + ([b] + back)
  {
  }

  /** The fast path copies sixteen bytes however short the text is; the spare bytes land beyond
      the new end. */
  method CopySixteen(op: array<byte>, o: nat, input: seq<byte>, from: nat, to: nat)
    requires from <= to <= from + 16 <= |input| && o + 16 <= op.Length
    modifies op
    ensures op[..o + (to - from)] == old(op[..o]) + input[from..to]
  {
    ghost var before := op[..o];
    UnalignedCopy64(input, from, op, o);
    UnalignedCopy64(input, from + 8, op, o + 8);
    ghost var all := before + input[from..from + 8] + input[from + 8..from + 16];
    assert op[..o + (to - from)] == op[..o + 16][..o + (to - from)];
    assert all[..o + (to - from)] == before + input[from..to];
  }

  /** Emit input[from..to] as a literal at `o`. */
  method EmitLiteral(op: array<byte>, o: nat, input: seq<byte>, from: nat, to: nat, allowFastPath: bool)
    returns (end: nat)
    requires from < to <= |input| <= BLOCK_SIZE
    requires o + 3 + (to - from) <= op.Length
    requires allowFastPath ==> o + 17 <= op.Length && from + 16 <= |input|
    modifies op
    ensures end == o + |LiteralBytes(input[from..to])| <= op.Length
    ensures op[..end] == old(op[..o]) + LiteralBytes(input[from..to])
  {
    var length := to - from;
    LiteralCost(length);
    ghost var before := op[..o];
    var at: nat;
    if length - 1 < 60 {
      op[o] := (length - 1) * 4;
      at := o + 1;
      assert op[..at] == before + LiteralHeader(length);
    } else {
      at := EmitLongHeader(op, o, length);
    }
    if allowFastPath && length <= 16 {
      CopySixteen(op, at, input, from, to);
    } else {
      Memcpy(op, at, input, from, to);
    }
    assert before + LiteralHeader(length) + input[from..to] == before + LiteralBytes(input[from..to]);
    return at + length;
  }

  method EmitCopyLessThan64(op: array<byte>, o: nat, offset: nat, length: nat) returns (end: nat)
    requires 1 <= offset < 65536 && 4 <= length <= 64
    requires o + |ShortCopy(offset, length)| <= op.Length
    modifies op
    ensures end == o + |ShortCopy(offset, length)|
    ensures op[..end] == old(op[..o]) + ShortCopy(offset, length)
  {
    if length < 12 && offset < 2048 {
      op[o], op[o + 1] := 1 + (length - 4) * 4 + offset / 256 * 32, offset % 256;
      end := o + 2;
    } else {
      op[o], op[o + 1], op[o + 2] := 2 + (length - 1) * 4, offset % 256, offset / 256;
      end := o + 3;
    }
  }

  method EmitCopy(op: array<byte>, o: nat, offset: nat, length: nat) returns (end: nat)
    requires 1 <= offset < 65536 && 4 <= length
    requires o + |CopyBytes(offset, length)| <= op.Length
    modifies op
    ensures end == o + |CopyBytes(offset, length)|
    ensures op[..end] == old(op[..o]) + CopyBytes(offset, length)
  {
    hide ShortCopy;
    hide CopyBytes;
    var left := length;
    end := o;
    while left >= 68
      invariant 4 <= left <= length
      invariant end + |CopyBytes(offset, left)| == o + |CopyBytes(offset, length)| <= op.Length
      invariant op[..end] + CopyBytes(offset, left) == old(op[..o]) + CopyBytes(offset, length)
    {
      PieceMoves(op[..end], offset, left);
      end := EmitCopyLessThan64(op, end, offset, 64);
      left := left - 64;
    }
    if left > 64 {
      PieceMoves(op[..end], offset, left);
      end := EmitCopyLessThan64(op, end, offset, 60);
      left := left - 60;
    }
    LastPiece(offset, left);
    end := EmitCopyLessThan64(op, end, offset, left);
  }

  lemma PieceMoves(all: seq<byte>, offset: nat, left: nat)
    requires 1 <= offset < 65536 && 64 < left
    ensures var first := FirstPiece(left);
            && |CopyBytes(offset, left)| == |ShortCopy(offset, first)| + |CopyBytes(offset, left - first)|
            && all + CopyBytes(offset, left) == all + ShortCopy(offset, first) + CopyBytes(offset, left - first)
  {
    hide ShortCopy;
  }

  lemma LastPiece(offset: nat, left: nat)
    requires 1 <= offset < 65536 && 4 <= left <= 64
    ensures CopyBytes(offset, left) == ShortCopy(offset, left)
  {
    hide ShortCopy;
  }

  /** Room that compressing `n` bytes may touch, spare bytes included. */
  function FragmentSpace(n: nat): nat {
    n + n / 30 + 20
  }

  ghost predicate Below(table: array<uint16>, limit: nat)
    reads table
  {
    forall h | 0 <= h < table.Length :: table[h] < limit
  }

  function Word(input: seq<byte>, i: nat): seq<byte>
    requires i + 4 <= |input|
  {
    input[i..i + 4]
  }

  /** The bytes emitted from `start` on stand for the first `upTo` bytes of the fragment. */
  ghost predicate Stands(all: seq<byte>, start: nat, input: seq<byte>, upTo: nat) {
    start <= |all| && upTo <= |input| && Encodes(all[start..], input[..upTo])
  }

  lemma StandsNothing(all: seq<byte>, input: seq<byte>)
    ensures Stands(all, |all|, input, 0)
  {
    EncodesNothing();
    assert all[|all|..] == [] && input[..0] == [];
  }

  lemma StandsForAll(all: seq<byte>, start: nat, input: seq<byte>)
    requires Stands(all, start, input, |input|)
    ensures Encodes(all[start..], input)
  {
    assert input[..|input|] == input;
  }

  lemma LiteralStep(all: seq<byte>, start: nat, input: seq<byte>, from: nat, to: nat)
    requires from < to <= |input| <= BLOCK_SIZE && Stands(all, start, input, from)
    ensures Stands(all + LiteralBytes(input[from..to]), start, input, to)
  {
    var code, literal := all[start..], LiteralBytes(input[from..to]);
    LiteralEncodes(input[from..to]);
    EncodesBoth(code, input[..from], literal, input[from..to]);
    assert input[..from] + input[from..to] == input[..to];
    assert (all + literal)[start..] == code + literal;
  }

  lemma CopyStep(all: seq<byte>, start: nat, input: seq<byte>, candidate: nat, base: nat, matched: nat)
    requires candidate < base && base + matched <= |input| <= BLOCK_SIZE && 4 <= matched
    requires Word(input, candidate) == Word(input, base)
    requires Same(input, candidate + 4, base + 4, matched - 4)
    requires Stands(all, start, input, base)
    ensures Stands(all + CopyBytes(base - candidate, matched), start, input, base + matched)
  {
    var text, offset := input[..base + matched], base - candidate;
    forall i | base <= i < base + matched ensures text[i] == text[i - offset] {
      if i < base + 4 {
        assert Word(input, base)[i - base] == Word(input, candidate)[i - base];
      } else {
        assert input[base + 4..base + matched][i - base - 4] == input[candidate + 4..candidate + matched][i - base - 4];
      }
    }
    assert text[..base] == input[..base];
    CopyExtends(all[start..], input[..base], offset, text);
    assert (all + CopyBytes(offset, matched))[start..] == all[start..] + CopyBytes(offset, matched);
  }

  /** Emit what lies between the last copy and `to`, keeping the account of its cost. */
  method EmitPending(op: array<byte>, start: nat, o: nat, input: seq<byte>, from: nat, to: nat, fast: bool)
    returns (end: nat)
    requires from < to <= |input| <= BLOCK_SIZE && start <= o && o + 3 + (to - from) <= op.Length
    requires fast ==> o + 17 <= op.Length && from + 16 <= |input|
    requires Stands(op[..o], start, input, from)
    modifies op
    ensures o <= end <= op.Length && 30 * (end - o) <= 31 * (to - from) + 34 && end - o <= to - from + 3
    ensures op[..start] == old(op[..start]) && Stands(op[..end], start, input, to)
    ensures op[..end] == old(op[..o]) + LiteralBytes(input[from..to])
  {
    hide Stands;
    hide LiteralHeader;
    LiteralCost(to - from);
    LiteralStep(op[..o], start, input, from, to);
    ghost var before, literal := op[..o], LiteralBytes(input[from..to]);
    end := EmitLiteral(op, o, input, from, to, fast);
    PrefixKept(before, literal, start);
    assert op[..start] == op[..end][..start];
  }

  /** Emit one copy of a match that goes back from `base` to `candidate`. */
  method EmitMatch(op: array<byte>, start: nat, o: nat, input: seq<byte>, candidate: nat, base: nat, matched: nat)
    returns (end: nat)
    requires candidate < base && base + matched <= |input| <= BLOCK_SIZE && 4 <= matched
    requires Word(input, candidate) == Word(input, base)
    requires Same(input, candidate + 4, base + 4, matched - 4)
    requires start <= o && 30 * o + 31 * matched <= 30 * op.Length + 34
    requires Stands(op[..o], start, input, base)
    modifies op
    ensures o <= end <= op.Length && 30 * (end - o) <= 31 * (matched - 4) + 90
    ensures op[..start] == old(op[..start]) && Stands(op[..end], start, input, base + matched)
    ensures op[..end] == old(op[..o]) + CopyBytes(base - candidate, matched)
  {
    hide Stands;
    hide CopyBytes;
    CopyCost(base - candidate, matched);
    CopyStep(op[..o], start, input, candidate, base, matched);
    ghost var before, copy := op[..o], CopyBytes(base - candidate, matched);
    end := EmitCopy(op, o, base - candidate, matched);
    PrefixKept(before, copy, start);
    assert op[..start] == op[..end][..start];
  }

  lemma PrefixKept(all: seq<byte>, more: seq<byte>, start: nat)
    requires start <= |all|
    ensures (all + more)[..start] == all[..start]
  {
  }

  /** The entry of the four bytes at `ip` points to the same four bytes, and there is room to go on. */
  ghost predicate Hits(input: seq<byte>, table: seq<uint16>, hash: Hash, ip: nat)
    requires ip + 4 <= |input| && HashesBelow(hash, |table|)
  {
    var candidate := table[hash(Word(input, ip))];
    ip + 1 + INPUT_MARGIN <= |input| && candidate < ip && Word(input, ip) == Word(input, candidate)
  }

  /** Look for a four-byte match from `from` on, in ever longer strides, recording every position
      looked at.  A table entry always points strictly before the position looked up. */
  method FindCandidate(input: seq<byte>, table: array<uint16>, hash: Hash, from: nat)
    returns (found: bool, ip: nat, candidate: nat)
    requires INPUT_MARGIN <= |input| <= BLOCK_SIZE
    requires 1 <= from && (from == 1 || from <= |input| - INPUT_MARGIN)
    requires table.Length > 0 && HashesBelow(hash, table.Length) && Below(table, from)
    modifies table
    ensures found ==>
      && from <= ip < |input| - INPUT_MARGIN && candidate < ip
      && Word(input, ip) == Word(input, candidate) && Below(table, ip + 1)
    ensures Hits(input, old(table[..]), hash, from) ==>
      found && ip == from && candidate == old(table[hash(Word(input, from))])
  {
    var ipLimit := |input| - INPUT_MARGIN;
    var nextHash := hash(Word(input, from));
    var skip, nextIp: nat := 32, from;
    while true
      invariant 32 <= skip && from <= nextIp && (nextIp == 1 || nextIp <= ipLimit)
      invariant nextHash == hash(Word(input, nextIp))
      invariant Below(table, nextIp)
      invariant Hits(input, old(table[..]), hash, from) ==> nextIp == from && skip == 32 && table[..] == old(table[..])
      decreases |input| - nextIp
    {
      ip := nextIp;
      var h := nextHash;
      nextIp := ip + skip / 32;
      skip := skip + 1;
      if nextIp > ipLimit {
        return false, ip, 0;
      }
      nextHash := hash(Word(input, nextIp));
      candidate := table[h];
      table[h] := ip;
      if Word(input, ip) == Word(input, candidate) {
        return true, ip, candidate;
      }
    }
  }

  lemma MatchesOn(input: seq<byte>, s1: nat, s2: nat, k: nat)
    requires s1 <= s2 <= |input| && Same(input, s1, s2, |input| - s2)
    ensures s2 + k < |input| ==> input[s1 + k] == input[s2 + k]
  {
    if s2 + k < |input| {
      assert input[s1..s1 + (|input| - s2)][k] == input[s2..s2 + (|input| - s2)][k];
    }
  }

  /** Nothing but one byte over and over. */
  ghost predicate Uniform(input: seq<byte>) {
    forall i | 0 <= i < |input| :: input[i] == input[0]
  }

  ghost predicate IsRun(input: seq<byte>) {
    |input| > 1 + INPUT_MARGIN && Uniform(input)
  }

  lemma RunHits(input: seq<byte>, table: seq<uint16>, hash: Hash)
    requires IsRun(input) && HashesBelow(hash, |table|) && forall h | 0 <= h < |table| :: table[h] == 0
    ensures Hits(input, table, hash, 1) && table[hash(Word(input, 1))] == 0 && Same(input, 0, 1, |input| - 1)
  {
    assert Word(input, 1) == Word(input, 0);
  }

  /** What was emitted for a run: its first byte, and one copy for the rest. */
  ghost predicate RunEmitted(code: seq<byte>, input: seq<byte>)
    requires IsRun(input)
  {
    code == [0, input[0]] + CopyBytes(1, |input| - 1)
  }

  lemma RunIsEmitted(before: seq<byte>, input: seq<byte>)
    requires IsRun(input)
    ensures RunEmitted((before + LiteralBytes(input[0..1]) + CopyBytes(1, |input| - 1))[|before|..], input)
  {
    hide CopyBytes;
    assert LiteralBytes(input[0..1]) == [0, input[0]];
    DropFront(before, LiteralBytes(input[0..1]), CopyBytes(1, |input| - 1));
  }

  lemma DropFront<T>(a: seq<T>, b: seq<T>, c: seq<T>)
    ensures (a + b + c)[|a|..] == b + c
  {
  }

  /** Record the last position of a copy and the one behind it; where were the bytes there seen before? */
  method Reindex(input: seq<byte>, table: array<uint16>, hash: Hash, ip: nat) returns (candidate: nat)
    requires 0 < ip <= |input| - 4 && |input| <= BLOCK_SIZE
    requires table.Length > 0 && HashesBelow(hash, table.Length) && Below(table, ip)
    modifies table
    ensures Below(table, ip + 1) && candidate < ip
    ensures var h, before := hash(Word(input, ip)), old(table[..])[hash(Word(input, ip - 1)) := ip - 1];
      candidate == before[h] && table[..] == before[h := ip]
  {
    table[hash(Word(input, ip - 1))] := ip - 1;
    var h := hash(Word(input, ip));
    candidate := table[h];
    table[h] := ip;
  }

  lemma RoomForMatch(n: nat, room: nat, emitted: nat, ip: nat, matched: nat)
    requires FragmentSpace(n) <= room && 30 * emitted + 90 <= 31 * (ip + 4) && ip + matched <= n
    ensures 30 * emitted + 31 * matched <= 30 * room + 34
  {
  }

  /** Emit a copy for everything from `base` on that is the same from `candidate` on. */
  method EmitLongest(input: seq<byte>, op: array<byte>, start: nat, from: nat, candidate: nat, base: nat)
    returns (ip: nat, o: nat)
    requires |input| <= BLOCK_SIZE && start + FragmentSpace(|input|) <= op.Length
    requires candidate < base && base + 4 <= |input| && Word(input, base) == Word(input, candidate)
    requires start <= from <= op.Length && 30 * (from - start) + 90 <= 31 * (base + 4)
    requires Stands(op[..from], start, input, base)
    modifies op
    ensures base + 4 <= ip <= |input| && from <= o <= op.Length && 30 * (o - start) <= 31 * ip
    ensures op[..start] == old(op[..start]) && Stands(op[..o], start, input, ip)
    ensures op[..o] == old(op[..from]) + CopyBytes(base - candidate, ip - base)
    ensures ip == |input| || input[candidate + (ip - base)] != input[ip]
    ensures Same(input, candidate, base, |input| - base) ==> ip == |input|
  {
    hide Stands, Same, CopyBytes, Word;
    var more := FindMatchLength(input, candidate + 4, base + 4);
    RoomForMatch(|input|, op.Length - start, from - start, base, 4 + more);
    ip := base + 4 + more;
    if Same(input, candidate, base, |input| - base) {
      MatchesOn(input, candidate, base, 4 + more);
    }
    o := EmitMatch(op, start, from, input, candidate, base, 4 + more);
  }

  /** Emit copies as long as the position after each copy matches an earlier one too. */
  method EmitCopies(input: seq<byte>, op: array<byte>, start: nat, from: nat, table: array<uint16>,
                    hash: Hash, firstIp: nat, firstCandidate: nat)
    returns (done: bool, ip: nat, o: nat)
    requires INPUT_MARGIN <= |input| <= BLOCK_SIZE && start + FragmentSpace(|input|) <= op.Length
    requires table.Length > 0 && HashesBelow(hash, table.Length) && Below(table, firstIp + 1)
    requires firstCandidate < firstIp < |input| - INPUT_MARGIN
    requires Word(input, firstIp) == Word(input, firstCandidate)
    requires start <= from <= op.Length && 30 * (from - start) + 90 <= 31 * (firstIp + 4)
    requires Stands(op[..from], start, input, firstIp)
    modifies op, table
    ensures start <= o <= op.Length && firstIp < ip <= |input| && 30 * (o - start) <= 31 * ip
    ensures op[..start] == old(op[..start]) && Stands(op[..o], start, input, ip)
    ensures !done ==> ip < |input| - INPUT_MARGIN && Below(table, ip + 1)
    ensures Same(input, firstCandidate, firstIp, |input| - firstIp) ==>
      done && ip == |input| && op[..o] == old(op[..from]) + CopyBytes(firstIp - firstCandidate, |input| - firstIp)
  {
    ghost var whole := Same(input, firstCandidate, firstIp, |input| - firstIp);
    hide Stands, Same, CopyBytes, Word, FragmentSpace, HashesBelow;
    ip, o := EmitLongest(input, op, start, from, firstCandidate, firstIp);
    ghost var first := op[..o];
    while ip < |input| - INPUT_MARGIN
      invariant firstIp + 4 <= ip <= |input| && Below(table, ip)
      invariant start <= o <= op.Length && 30 * (o - start) <= 31 * ip
      invariant op[..start] == old(op[..start]) && Stands(op[..o], start, input, ip)
      invariant whole ==> ip == |input| && op[..o] == first
      decreases |input| - ip
    {
      var candidate := Reindex(input, table, hash, ip);
      if Word(input, ip) != Word(input, candidate) {
        return false, ip, o;
      }
      ip, o := EmitLongest(input, op, start, o, candidate, ip);
    }
    done := true;
  }

  /** Compress one block into `op` from `start` on.  Beyond the round trip, every write stays
      inside the buffer, and the account `30 * emitted <= 31 * consumed` holds whenever nothing
      is pending. */
  method CompressFragment(input: seq<byte>, op: array<byte>, start: nat, table: array<uint16>,
                          hash: Hash)
    returns (end: nat)
    requires |input| <= BLOCK_SIZE && start + FragmentSpace(|input|) <= op.Length
    requires table.Length > 0 && HashesBelow(hash, table.Length)
    requires forall h | 0 <= h < table.Length :: table[h] == 0
    modifies op, table
    ensures start <= end <= op.Length && op[..start] == old(op[..start])
    ensures Encodes(op[start..end], input)
    ensures 30 * (end - start) <= 31 * |input| + 90
    ensures 0 < |input| <= 1 + INPUT_MARGIN ==> op[start..end] == LiteralBytes(input)
    ensures IsRun(input) ==> RunEmitted(op[start..end], input)
  {
    hide Stands, Encodes, Hits, IsRun, LiteralBytes, CopyBytes, RunEmitted, Same;
    var nextEmit: nat := 0;
    end := start;
    StandsNothing(op[..start], input);
    ghost var run := IsRun(input);
    if run {
      RunHits(input, table[..], hash);
    }
    if |input| >= INPUT_MARGIN {
      var ip: nat := 1;
      while true
        invariant nextEmit < ip && (ip == 1 || ip <= |input| - INPUT_MARGIN)
        invariant Below(table, ip)
        invariant start <= end <= op.Length && 30 * (end - start) <= 31 * nextEmit
        invariant op[..start] == old(op[..start]) && Stands(op[..end], start, input, nextEmit)
        invariant |input| <= 1 + INPUT_MARGIN ==> nextEmit == 0 && end == start
        invariant run ==> ip == 1 && nextEmit == 0 && end == start
        invariant run ==> Hits(input, table[..], hash, 1) && table[hash(Word(input, 1))] == 0 && Same(input, 0, 1, |input| - 1)
        decreases |input| - ip
      {
        var found, at, candidate := FindCandidate(input, table, hash, ip);
        if !found {
          break;
        }
        end := EmitPending(op, start, end, input, nextEmit, at, true);
        var done;
        done, ip, end := EmitCopies(input, op, start, end, table, hash, at, candidate);
        nextEmit := ip;
        if done {
          if run {
            RunIsEmitted(old(op[..start]), input);
          }
          break;
        }
        ip := ip + 1;
      }
    }
    if nextEmit < |input| {
      assert input[0..|input|] == input;
      end := EmitPending(op, start, end, input, nextEmit, |input|, false);
    }
    StandsForAll(op[..end], start, input);
    assert op[..end][start..] == op[start..end];
  }
}
