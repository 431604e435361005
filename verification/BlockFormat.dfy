/** The layout of a block: prefix-compressed entries, then the restart points. */
module BlockFormat {
  import opened Bytes
  import opened Coding

  datatype Pair = Pair(key: seq<byte>, value: seq<byte>)

  /** One entry whose first `shared` key bytes are those of the key before. */
  function EntryBytes(e: Pair, shared: nat): (s: seq<byte>)
    requires shared <= |e.key|
    ensures |s| >= 3
  {
    Varint(shared) + Varint(|e.key| - shared) + Varint(|e.value|) + e.key[shared..] + e.value
  }

  /** How many key bytes each entry shares with the one before it. */
  ghost predicate Sharing(es: seq<Pair>, shared: seq<nat>) {
    && Fits(es, shared) && (es != [] ==> shared[0] == 0)
    && forall i | 0 < i < |es| ::
         shared[i] <= |es[i - 1].key| && es[i].key[..shared[i]] == es[i - 1].key[..shared[i]]
  }

  /** The shared lengths fit the keys. */
  ghost predicate Fits(es: seq<Pair>, shared: seq<nat>) {
    |shared| == |es| && forall i | 0 <= i < |es| :: shared[i] <= |es[i].key|
  }

  ghost function Data(es: seq<Pair>, shared: seq<nat>): seq<byte>
    requires Fits(es, shared)
  {
    if es == [] then []
    else
      var n := |es| - 1;
      Data(es[..n], shared[..n]) + EntryBytes(es[n], shared[n])
  }

  /** Where entry `i` begins. */
  ghost function Offset(es: seq<Pair>, shared: seq<nat>, i: nat): nat
    requires Fits(es, shared) && i <= |es|
  {
    |Data(es[..i], shared[..i])|
  }

  /** Restart points: entries that share nothing, the first entry among them. */
  ghost predicate Restarts(es: seq<Pair>, shared: seq<nat>, restarts: seq<nat>) {
    && |shared| == |es| && restarts != [] && restarts[0] == 0
    && (forall j | 1 <= j < |restarts| :: restarts[j] < |es|)
    && (forall j | 0 <= j < |restarts| :: restarts[j] < |es| ==> shared[restarts[j]] == 0)
    && forall j, l | 0 <= j < l < |restarts| :: restarts[j] < restarts[l]
  }

  function Fixed32s(ns: seq<nat>): (s: seq<byte>)
    ensures |s| == 4 * |ns|
  {
    if ns == [] then [] else Fixed32s(ns[..|ns| - 1]) + Fixed(ns[|ns| - 1], 4)
  }

  ghost function Offsets(es: seq<Pair>, shared: seq<nat>, restarts: seq<nat>): (r: seq<nat>)
    requires Fits(es, shared)
    requires forall j | 0 <= j < |restarts| :: restarts[j] <= |es|
    ensures |r| == |restarts|
  {
    seq(|restarts|, j requires 0 <= j < |restarts| => Offset(es, shared, restarts[j]))
  }

  /** What a builder makes of the entries. */
  ghost predicate IsBlock(contents: seq<byte>, es: seq<Pair>, shared: seq<nat>, restarts: seq<nat>) {
    && Sharing(es, shared) && Restarts(es, shared, restarts) && |contents| < 0x1_0000_0000
    && contents == Data(es, shared) + Fixed32s(Offsets(es, shared, restarts)) + Fixed(|restarts|, 4)
  }

  /** A block in bytes: two entries, the second sharing one byte of key; one restart point, at 0. */
  lemma BlockExample(contents: seq<byte>, a: Pair, b: Pair)
    requires a == Pair([97], [49]) && b == Pair([97, 98], [50])
    requires IsBlock(contents, [a, b], [0, 1], [0])
    ensures contents == [0, 1, 1, 97, 49] + [1, 1, 1, 98, 50] + [0, 0, 0, 0] + [1, 0, 0, 0]
  {
    var offsets := Offsets([a, b], [0, 1], [0]);
    assert Offset([a, b], [0, 1], 0) == 0 by { OffsetEnd([a, b], [0, 1]); }
    assert offsets == [0];
    assert contents == Data([a, b], [0, 1]) + Fixed32s(offsets) + Fixed(1, 4);
    hide *;
    TwoEntries(a, b);
    FourBytes();
    EntryExamples(a, b);
  }

  lemma TwoEntries(a: Pair, b: Pair)
    requires |a.key| > 0 && |b.key| > 0
    ensures Fits([a, b], [0, 1]) && Data([a, b], [0, 1]) == EntryBytes(a, 0) + EntryBytes(b, 1)
  {
    hide EntryBytes;
    assert Data([], []) == [];
    DataSnoc([], [], a, 0);
    DataSnoc([a], [0], b, 1);
    assert [] + [a] == [a] && [] + [0] == [0] && [a] + [b] == [a, b] && [0] + [1] == [0, 1];
  }

  lemma EntryExamples(a: Pair, b: Pair)
    requires a == Pair([97], [49]) && b == Pair([97, 98], [50])
    ensures EntryBytes(a, 0) == [0, 1, 1, 97, 49] && EntryBytes(b, 1) == [1, 1, 1, 98, 50]
  {
    assert a.key[0..] == [97] && b.key[1..] == [98];
  }

  lemma FourBytes()
    ensures Fixed32s([0]) == [0, 0, 0, 0] && Fixed(1, 4) == [1, 0, 0, 0]
  {
    assert Fixed(0, 3) == [0, 0, 0] by { assert Fixed(0, 2) == [0, 0]; }
    assert Fixed32s([0]) == Fixed32s([0][..0]) + Fixed(0, 4);
  }

  // ---- Offsets

  lemma DataSnoc(es: seq<Pair>, shared: seq<nat>, e: Pair, n: nat)
    requires Fits(es, shared) && n <= |e.key|
    ensures Data(es + [e], shared + [n]) == Data(es, shared) + EntryBytes(e, n)
  {
    assert (es + [e])[..|es|] == es && (shared + [n])[..|es|] == shared;
  }

  /** The data splits at every entry. */
  lemma {:induction false} DataSplit(es: seq<Pair>, shared: seq<nat>, i: nat)
    requires Fits(es, shared) && i < |es|
    ensures Offset(es, shared, i) + |EntryBytes(es[i], shared[i])| == Offset(es, shared, i + 1) <= |Data(es, shared)|
    ensures Data(es, shared)[Offset(es, shared, i)..Offset(es, shared, i + 1)] == EntryBytes(es[i], shared[i])
  {
    hide EntryBytes;
    var n := |es| - 1;
    var d, b := Data(es[..n], shared[..n]), EntryBytes(es[n], shared[n]);
    assert es[..i + 1][..i] == es[..i] && shared[..i + 1][..i] == shared[..i];
    if i == n {
      assert es[..n + 1] == es && shared[..n + 1] == shared;
    } else {
      DataSplit(es[..n], shared[..n], i);
      assert es[..n][..i] == es[..i] && shared[..n][..i] == shared[..i];
      assert es[..n][..i + 1] == es[..i + 1] && shared[..n][..i + 1] == shared[..i + 1];
      assert (d + b)[Offset(es, shared, i)..Offset(es, shared, i + 1)] == d[Offset(es, shared, i)..Offset(es, shared, i + 1)];
    }
  }

  lemma {:induction false} OffsetsGrow(es: seq<Pair>, shared: seq<nat>, i: nat, j: nat)
    requires Fits(es, shared) && i <= j <= |es|
    ensures Offset(es, shared, i) <= Offset(es, shared, j) <= |Data(es, shared)|
    ensures i < j ==> Offset(es, shared, i) + 3 <= Offset(es, shared, j)
  {
    hide Data, EntryBytes, Offset, Fits;
    OffsetEnd(es, shared);
    if i < j {
      OffsetsGrow(es, shared, i, j - 1);
      DataSplit(es, shared, j - 1);
    } else if j < |es| {
      DataSplit(es, shared, j);
    }
  }

  lemma OffsetEnd(es: seq<Pair>, shared: seq<nat>)
    requires Fits(es, shared)
    ensures Offset(es, shared, |es|) == |Data(es, shared)| && Offset(es, shared, 0) == 0
  {
    assert es[..|es|] == es && shared[..|es|] == shared;
  }

  lemma {:induction false} Fixed32At(ns: seq<nat>, j: nat)
    requires j < |ns|
    ensures Fixed32s(ns)[4 * j..4 * j + 4] == Fixed(ns[j], 4)
  {
    var n := |ns| - 1;
    if j < n {
      Fixed32At(ns[..n], j);
      assert Fixed32s(ns)[4 * j..4 * j + 4] == Fixed32s(ns[..n])[4 * j..4 * j + 4];
    }
  }

  // ---- Reading an entry's three lengths

  /** The three lengths, and what follows; None when the entry cannot be whole. */
  function ReadHeader(s: seq<byte>): Option<((uint32, uint32, uint32), seq<byte>)> {
    if |s| < 3 then None
    else match ReadLength(s, 0)
      case None => None
      case Some((a, s1)) => match ReadLength(s1, 0)
        case None => None
        case Some((b, s2)) => match ReadLength(s2, 0)
          case None => None
          case Some((c, s3)) => if |s3| < (b + c) % 0x1_0000_0000 then None else Some(((a, b, c), s3))
  }

  lemma HeaderRoundTrip(e: Pair, shared: nat, rest: seq<byte>)
    requires shared <= |e.key| && |e.key| + |e.value| < 0x1_0000_0000
    ensures ReadHeader(EntryBytes(e, shared) + rest)
         == Some(((shared, |e.key| - shared, |e.value|), e.key[shared..] + e.value + rest))
  {
    hide ReadLength, Varint;
    var a, b, c := Varint(shared), Varint(|e.key| - shared), Varint(|e.value|);
    var tail := e.key[shared..] + e.value + rest;
    LengthRoundTrip(shared, 0, b + (c + tail));
    LengthRoundTrip(|e.key| - shared, 0, c + tail);
    LengthRoundTrip(|e.value|, 0, tail);
    assert EntryBytes(e, shared) + rest == a + (b + (c + tail));
    assert Shift(0) == 1;
  }

  /** Three bytes below 128 are the three lengths themselves. */
  lemma ShortHeader(s: seq<byte>)
    requires |s| >= 3 && s[0] < 0x80 && s[1] < 0x80 && s[2] < 0x80
    ensures ReadHeader(s) == if |s| - 3 < s[1] + s[2] then None else Some(((s[0], s[1], s[2]), s[3..]))
  {
    hide ReadLength;
    assert s == [s[0]] + s[1..] && s[1..] == [s[1]] + s[2..] && s[2..] == [s[2]] + s[3..];
    OneByte(s[0], s[1..]);
    OneByte(s[1], s[2..]);
    OneByte(s[2], s[3..]);
  }

  // ---- A block as an iterator sees it

  /** Entry data of `limit` bytes and behind it the offsets of the restart points. */
  ghost predicate Laid(data: seq<byte>, limit: nat, es: seq<Pair>, shared: seq<nat>, restarts: seq<nat>) {
    && Fits(es, shared) && Sharing(es, shared) && Restarts(es, shared, restarts) && limit < 0x1_0000_0000
    && limit + 4 * |restarts| <= |data| && data[..limit] == Data(es, shared)
    && (forall j | 0 <= j < |restarts| :: restarts[j] <= |es|)
    && data[limit..limit + 4 * |restarts|] == Fixed32s(Offsets(es, shared, restarts))
  }

  lemma BlockIsLaid(contents: seq<byte>, es: seq<Pair>, shared: seq<nat>, restarts: seq<nat>)
    requires IsBlock(contents, es, shared, restarts)
    ensures |contents| >= 4 && LittleEndian(contents[|contents| - 4..]) == |restarts| && Fits(es, shared)
    ensures |contents| == |Data(es, shared)| + 4 * |restarts| + 4
    ensures Laid(contents, |contents| - 4 * |restarts| - 4, es, shared, restarts)
  {
    assert forall j | 0 <= j < |restarts| :: restarts[j] <= |es|;
    hide Data, Fixed32s;
    var d, r, n := Data(es, shared), Fixed32s(Offsets(es, shared, restarts)), Fixed(|restarts|, 4);
    assert contents == d + r + n;
    assert contents[|contents| - 4..] == n && contents[..|d|] == d && contents[|d|..|d| + 4 * |restarts|] == r;
    assert Power256(4) == 0x1_0000_0000;
    FixedRoundTrip(|restarts|, 4);
  }

  lemma SliceOfSlice<T>(s: seq<T>, a: nat, b: nat, c: nat, d: nat)
    requires a <= b <= |s| && c <= d <= b - a
    ensures s[a..b][c..d] == s[a + c..a + d]
  {
    var t := s[a..b];
    forall k | 0 <= k < d - c ensures t[c..d][k] == s[a + c..a + d][k] {
      assert t[c..d][k] == t[c + k] && t[c + k] == s[a + (c + k)];
    }
  }

  lemma RestartThere(data: seq<byte>, limit: nat, es: seq<Pair>, shared: seq<nat>, restarts: seq<nat>, j: nat)
    requires Laid(data, limit, es, shared, restarts) && j < |restarts|
    ensures restarts[j] <= |es| && limit + 4 * j + 4 <= |data|
    ensures LittleEndian(data[limit + 4 * j..limit + 4 * j + 4]) == Offset(es, shared, restarts[j])
  {
    hide Data, Fixed32s, Offset, Sharing, Restarts, Fits, LittleEndian, Fixed;
    var offsets := Offsets(es, shared, restarts);
    Fixed32At(offsets, j);
    SliceOfSlice(data, limit, limit + 4 * |restarts|, 4 * j, 4 * j + 4);
    OffsetsGrow(es, shared, restarts[j], |es|);
    assert Power256(4) == 0x1_0000_0000;
    FixedRoundTrip(offsets[j], 4);
  }

  /** Keys and values are no longer than the data they are in. */
  lemma {:induction false} SizesFit(es: seq<Pair>, shared: seq<nat>, i: nat)
    requires Sharing(es, shared) && i < |es|
    ensures |es[i].key| + |es[i].value| <= Offset(es, shared, i + 1)
  {
    hide Data;
    DataSplit(es, shared, i);
    if i > 0 {
      SizesFit(es, shared, i - 1);
    }
  }

  /** What lies at the offset of entry `i`. */
  lemma EntryThere(data: seq<byte>, limit: nat, es: seq<Pair>, shared: seq<nat>, restarts: seq<nat>, i: nat)
    requires Laid(data, limit, es, shared, restarts) && i < |es|
    ensures shared[i] <= |es[i].key| && Offset(es, shared, i) < Offset(es, shared, i + 1) <= limit
    ensures data[Offset(es, shared, i)..limit] == EntryBytes(es[i], shared[i]) + data[Offset(es, shared, i + 1)..limit]
    ensures |es[i].key| + |es[i].value| < 0x1_0000_0000
  {
    assert shared[i] <= |es[i].key|;
    SizesFit(es, shared, i);
    hide Restarts, Fixed32s, EntryBytes, Data, Sharing, Offset, Fits, Offsets;
    OffsetsGrow(es, shared, i + 1, |es|);
    DataSplit(es, shared, i);
    SliceThere(data, Data(es, shared), limit, Offset(es, shared, i), Offset(es, shared, i + 1));
  }

  lemma SliceThere<T>(data: seq<T>, d: seq<T>, limit: nat, a: nat, b: nat)
    requires a <= b <= limit <= |data| && data[..limit] == d
    ensures data[a..limit] == d[a..b] + data[b..limit]
  {
  }

  /** Decoding the entry at its offset finds its lengths, the key's new part and the value. */
  lemma EntryDecodes(data: seq<byte>, limit: nat, es: seq<Pair>, shared: seq<nat>, restarts: seq<nat>, i: nat)
    requires Laid(data, limit, es, shared, restarts) && i < |es|
    ensures shared[i] <= |es[i].key| && Offset(es, shared, i) < Offset(es, shared, i + 1) <= limit
    ensures ReadHeader(data[Offset(es, shared, i)..limit])
         == Some(((shared[i], |es[i].key| - shared[i], |es[i].value|),
                  es[i].key[shared[i]..] + es[i].value + data[Offset(es, shared, i + 1)..limit]))
  {
    EntryThere(data, limit, es, shared, restarts, i);
    hide EntryBytes, Data, ReadHeader, Offset, Laid;
    HeaderRoundTrip(es[i], shared[i], data[Offset(es, shared, i + 1)..limit]);
  }

  /** Where the parts of a concatenation lie. */
  lemma PartsAt(data: seq<byte>, q: nat, limit: nat, a: seq<byte>, b: seq<byte>, end: nat)
    requires q <= limit <= |data| && end <= limit && data[q..limit] == a + b + data[end..limit]
    ensures q + |a| + |b| == end && data[q..q + |a|] == a && data[q + |a|..q + |a| + |b|] == b
  {
    SliceOfSlice(data, q, limit, 0, |a|);
    SliceOfSlice(data, q, limit, |a|, |a| + |b|);
  }
}
