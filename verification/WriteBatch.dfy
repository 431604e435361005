/** Write batches as bytes: a header with sequence number and count, then the updates. */
module WriteBatch {
  import opened Bytes
  import opened Coding
  import opened VersionEdit

  const HEADER := 12

  datatype Change = Put(key: seq<byte>, value: seq<byte>) | Delete(key: seq<byte>) {
    predicate Fits() {
      |key| < 0x1_0000_0000 && (Put? ==> |value| < 0x1_0000_0000)
    }

    function Bytes(): (s: seq<byte>)
      ensures s != []
    {
      match this
      case Put(key, value) => [1] + (Slice(key) + Slice(value))
      case Delete(key) => [0] + Slice(key)
    }
  }

  /** The tags of the file format: 1 for a value, 0 for a deletion. */
  lemma ChangeTags(key: seq<byte>, value: seq<byte>)
    ensures Put(key, value).Bytes() == [1] + Varint(|key|) + key + Varint(|value|) + value
    ensures Delete(key).Bytes() == [0] + Varint(|key|) + key
  {
    hide Varint;
    Associate([1], Slice(key), Slice(value));
    Associate([1], Varint(|key|), key);
    Associate([1] + Slice(key), Varint(|value|), value);
    Associate([0], Varint(|key|), key);
  }

  function AllBytes(cs: seq<Change>): seq<byte> {
    if cs == [] then [] else cs[0].Bytes() + AllBytes(cs[1..])
  }

  lemma {:induction false} AllBytesConcat(a: seq<Change>, b: seq<Change>)
    ensures AllBytes(a + b) == AllBytes(a) + AllBytes(b)
  {
    hide Change.Bytes;
    if a == [] {
      assert a + b == b;
    } else {
      AllBytesConcat(a[1..], b);
      assert (a + b)[1..] == a[1..] + b;
      Associate(a[0].Bytes(), AllBytes(a[1..]), AllBytes(b));
    }
  }

  /** One change, and what follows it. */
  function ReadChange(s: seq<byte>): Option<(Change, seq<byte>)>
    requires s != []
  {
    if s[0] == 1 then
      match ReadSlice(s[1..])
      case None => None
      case Some((key, s1)) => match ReadSlice(s1)
        case None => None
        case Some((value, rest)) => Some((Put(key, value), rest))
    else if s[0] == 0 then
      match ReadSlice(s[1..])
      case None => None
      case Some((key, rest)) => Some((Delete(key), rest))
    else None
  }

  /** Any bytes: what the tag in front means, and that no other tag means anything. */
  lemma TagsMean(s: seq<byte>)
    requires s != []
    ensures s[0] > 1 ==> ReadChange(s) == None
    ensures s[0] <= 1 && ReadSlice(s[1..]).None? ==> ReadChange(s) == None
    ensures s[0] == 0 && ReadSlice(s[1..]).Some? ==>
      var (key, rest) := ReadSlice(s[1..]).value; ReadChange(s) == Some((Delete(key), rest))
    ensures s[0] == 1 && ReadSlice(s[1..]).Some? ==>
      var (key, s1) := ReadSlice(s[1..]).value;
      ReadChange(s) == if ReadSlice(s1).None? then None else Some((Put(key, ReadSlice(s1).value.0), ReadSlice(s1).value.1))
  {
    hide ReadSlice;
  }

  lemma ChangeRoundTrip(c: Change, rest: seq<byte>)
    requires c.Fits()
    ensures ReadChange(c.Bytes() + rest) == Some((c, rest))
  {
    hide Slice, ReadSlice;
    var s := c.Bytes() + rest;
    match c
    case Put(key, value) =>
      SliceRoundTrip(key, Slice(value) + rest);
      SliceRoundTrip(value, rest);
      assert s[1..] == Slice(key) + (Slice(value) + rest);
    case Delete(key) =>
      SliceRoundTrip(key, rest);
      assert s[1..] == Slice(key) + rest;
  }

  lemma ChangeShrinks(s: seq<byte>)
    requires s != [] && ReadChange(s).Some?
    ensures |ReadChange(s).value.1| < |s|
  {
    SliceShrinks(s[1..]);
    if s[0] == 1 {
      SliceShrinks(ReadSlice(s[1..]).value.1);
    }
  }

  lemma SliceShrinks(s: seq<byte>)
    ensures ReadSlice(s).Some? ==> |ReadSlice(s).value.1| < |s|
  {
    if ReadSlice(s).Some? {
      LengthShrinks(s, 0);
    }
  }

  class WriteBatch {
    var rep: seq<byte>
    ghost var changes: seq<Change>

    /** The representation spells the changes, and the count field counts them. */
    ghost predicate Valid()
      reads this
    {
      && |rep| >= HEADER && rep[HEADER..] == AllBytes(changes) && (forall c | c in changes :: c.Fits())
      && |changes| < 0x1_0000_0000 && rep[8..HEADER] == Fixed(|changes|, 4)
    }

    constructor ()
      ensures Valid() && changes == []
    {
      rep, changes := seq(HEADER, _ => 0), [];
      new;
      assert rep[8..HEADER] == Fixed(0, 4);
    }

    function Count(): nat
      requires |rep| >= HEADER
      reads this
    {
      LittleEndian(rep[8..HEADER])
    }

    lemma CountIsRight()
      requires Valid()
      ensures Count() == |changes|
    {
      assert Power256(4) == 0x1_0000_0000;
      FixedRoundTrip(|changes|, 4);
    }

    function Sequence(): nat
      requires |rep| >= HEADER
      reads this
    {
      LittleEndian(rep[..8])
    }

    method SetSequence(sequence: nat)
      requires Valid() && sequence < 0x1_0000_0000_0000_0000
      modifies this`rep
      ensures Valid() && Sequence() == sequence
    {
      hide AllBytes, Change.Fits;
      assert Power256(8) == 0x1_0000_0000_0000_0000 by { assert Power256(4) == 0x1_0000_0000; }
      FixedRoundTrip(sequence, 8);
      var body := rep[8..];
      rep := Fixed(sequence, 8) + body;
      HeaderParts(Fixed(sequence, 8), body, old(rep));
    }

    method SetCount(n: nat)
      requires |rep| >= HEADER
      modifies this`rep
      ensures |rep| >= HEADER && rep[HEADER..] == old(rep)[HEADER..]
      ensures rep[8..HEADER] == Fixed(n, 4) && rep[..8] == old(rep)[..8]
    {
      rep := rep[..8] + Fixed(n, 4) + rep[HEADER..];
    }

    /** Put and Delete: count up, then append the change. */
    method Add(c: Change)
      requires Valid() && c.Fits() && |changes| + 1 < 0x1_0000_0000
      modifies this
      ensures Valid() && changes == old(changes) + [c] && rep[..8] == old(rep)[..8]
    {
      hide AllBytes, Change.Bytes, Change.Fits, Fixed, LittleEndian;
      CountIsRight();
      AllBytesConcat(changes, [c]);
      OneChange(c);
      SetCount(Count() + 1);
      Behind(rep, c.Bytes());
      rep := rep + c.Bytes();
      changes := changes + [c];
    }

    /** The changes of another batch behind this one's. */
    method Append(src: WriteBatch)
      requires Valid() && src.Valid() && src != this && |changes| + |src.changes| < 0x1_0000_0000
      modifies this
      ensures Valid() && changes == old(changes) + src.changes && rep[..8] == old(rep)[..8]
    {
      hide AllBytes, Change.Bytes, Change.Fits, Fixed, LittleEndian;
      CountIsRight();
      src.CountIsRight();
      AllBytesConcat(changes, src.changes);
      SetCount(Count() + src.Count());
      Behind(rep, src.rep[HEADER..]);
      rep := rep + src.rep[HEADER..];
      changes := changes + src.changes;
    }
  }

  lemma OneChange(c: Change)
    ensures AllBytes([c]) == c.Bytes()
  {
    assert [c][1..] == [];
  }

  lemma Behind(rep: seq<byte>, more: seq<byte>)
    requires |rep| >= HEADER
    ensures (rep + more)[..8] == rep[..8] && (rep + more)[8..HEADER] == rep[8..HEADER]
    ensures (rep + more)[HEADER..] == rep[HEADER..] + more
  {
  }

  lemma HeaderParts(sequence: seq<byte>, body: seq<byte>, was: seq<byte>)
    requires |sequence| == 8 && |was| >= HEADER && body == was[8..]
    ensures (sequence + body)[..8] == sequence && (sequence + body)[8..HEADER] == was[8..HEADER]
    ensures (sequence + body)[HEADER..] == was[HEADER..]
  {
  }

  /** What iterating hands to its handler; Corrupt when the bytes or the count are wrong. */
  datatype Iterated = Done(changes: seq<Change>) | Corrupt(handed: seq<Change>)

  /** The changes that can be read from the bytes, and whether nothing is left behind them. */
  function Parse(s: seq<byte>): (r: (seq<Change>, bool))
    decreases |s|
  {
    if s == [] then ([], true)
    else if ReadChange(s).None? then ([], false)
    else
      var (c, rest) := ReadChange(s).value;
      ChangeShrinks(s);
      var more := Parse(rest);
      ([c] + more.0, more.1)
  }

  /** Bytes that spell changes are read as these and no others. */
  lemma {:induction false} ParseUndoesBytes(cs: seq<Change>)
    requires forall c | c in cs :: c.Fits()
    ensures Parse(AllBytes(cs)) == (cs, true)
  {
    hide Change.Bytes, ReadChange;
    if cs != [] {
      ChangeRoundTrip(cs[0], AllBytes(cs[1..]));
      ParseUndoesBytes(cs[1..]);
      assert cs == [cs[0]] + cs[1..];
    }
  }

  /** Damage behind whole changes stops the reading there. */
  lemma {:induction false} ParseStopsAtDamage(cs: seq<Change>, damaged: seq<byte>)
    requires (forall c | c in cs :: c.Fits()) && damaged != [] && ReadChange(damaged).None?
    ensures Parse(AllBytes(cs) + damaged) == (cs, false)
  {
    hide Change.Bytes, ReadChange;
    if cs == [] {
      assert AllBytes(cs) + damaged == damaged;
    } else {
      Associate(cs[0].Bytes(), AllBytes(cs[1..]), damaged);
      ChangeRoundTrip(cs[0], AllBytes(cs[1..]) + damaged);
      ParseStopsAtDamage(cs[1..], damaged);
      assert cs == [cs[0]] + cs[1..];
    }
  }

  /** Hands the changes over one by one; a damaged batch stops at the damage, and it is not done
      unless all bytes were read and the count is that of the changes. */
  method Iterate(rep: seq<byte>) returns (r: Iterated)
    ensures r.Done? <==> |rep| >= HEADER && Parse(rep[HEADER..]).1 && LittleEndian(rep[8..HEADER]) == |Parse(rep[HEADER..]).0|
    ensures r.Done? ==> r.changes == Parse(rep[HEADER..]).0
    ensures r.Corrupt? ==> r.handed == if |rep| < HEADER then [] else Parse(rep[HEADER..]).0
  {
    if |rep| < HEADER {
      return Corrupt([]);
    }
    var handed, input := [], rep[HEADER..];
    ghost var all := Parse(input);
    hide ReadChange, LittleEndian;
    assert handed + all.0 == all.0;
    while input != []
      invariant all == (handed + Parse(input).0, Parse(input).1)
      decreases |input|
    {
      var c := ReadChange(input);
      if c.None? {
        return Corrupt(handed);
      }
      ChangeShrinks(input);
      Associate(handed, [c.value.0], Parse(c.value.1).0);
      handed := handed + [c.value.0];
      input := c.value.1;
    }
    r := if LittleEndian(rep[8..HEADER]) == |handed| then Done(handed) else Corrupt(handed);
  }

  /** Iterating a batch hands over exactly what was put in: a group's batch hands over its members'
      changes in order, under the sequence number it was given. */
  method GroupRoundTrip(a: WriteBatch, b: WriteBatch, first: nat) returns (sequence: nat, r: Iterated)
    requires a.Valid() && b.Valid() && |a.changes| + |b.changes| < 0x1_0000_0000 && first < 0x1_0000_0000_0000_0000
    ensures sequence == first && r == Done(a.changes + b.changes)
  {
    hide AllBytes, Fixed, LittleEndian, Change.Fits;
    var group := new WriteBatch();
    group.Append(a);
    group.Append(b);
    group.SetSequence(first);
    group.CountIsRight();
    assert group.changes == a.changes + b.changes;
    ParseUndoesBytes(group.changes);
    sequence := group.Sequence();
    r := Iterate(group.rep);
  }
}
