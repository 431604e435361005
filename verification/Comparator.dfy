/** Byte-string order, internal keys as strings, and the short keys that separate two blocks. */
module Comparator {
  import opened Bytes

  /** The bytewise order: at the first difference, or the shorter string first. */
  predicate LexLess(a: seq<byte>, b: seq<byte>) {
    b != [] && (a == [] || a[0] < b[0] || (a[0] == b[0] && LexLess(a[1..], b[1..])))
  }

  lemma {:induction false} LexTransitive(a: seq<byte>, b: seq<byte>, c: seq<byte>)
    ensures LexLess(a, b) && LexLess(b, c) ==> LexLess(a, c)
  {
    if a != [] && b != [] && c != [] {
      LexTransitive(a[1..], b[1..], c[1..]);
    }
  }

  lemma {:induction false} LexTotal(a: seq<byte>, b: seq<byte>)
    ensures LexLess(a, b) || LexLess(b, a) || a == b
    ensures !(LexLess(a, b) && LexLess(b, a)) && !LexLess(a, a)
  {
    if a != [] && b != [] {
      LexTotal(a[1..], b[1..]);
      assert a == [a[0]] + a[1..] && b == [b[0]] + b[1..];
    }
    if a != [] {
      LexIrreflexive(a);
    }
  }

  lemma {:induction false} LexIrreflexive(a: seq<byte>)
    ensures !LexLess(a, a)
  {
    if a != [] {
      LexIrreflexive(a[1..]);
    }
  }

  /** The first difference decides. */
  lemma {:induction false} LexAt(a: seq<byte>, b: seq<byte>, i: nat)
    requires i < |a| && i < |b| && a[..i] == b[..i] && a[i] != b[i]
    ensures LexLess(a, b) <==> a[i] < b[i]
  {
    if i > 0 {
      assert a[0] == a[..i][0] == b[..i][0] == b[0];
      assert a[1..][..i - 1] == a[..i][1..] && b[1..][..i - 1] == b[..i][1..];
      LexAt(a[1..], b[1..], i - 1);
    }
  }

  // ---- The bytewise comparator's short keys

  /** The two strings differ at `d` for the first time, or one of them ends there. */
  ghost predicate FirstDifference(a: seq<byte>, b: seq<byte>, d: nat) {
    d <= |a| && d <= |b| && a[..d] == b[..d] && (d < |a| && d < |b| ==> a[d] != b[d])
  }

  /** Cut behind the first difference, with the byte there increased, if that stays below `limit`. */
  ghost predicate IsShortest(start: seq<byte>, limit: seq<byte>, r: seq<byte>) {
    exists d :: 0 <= d && FirstDifference(start, limit, d)
      && r == if d < |start| && d < |limit| && start[d] < 0xff && start[d] as int + 1 < limit[d] as int
              then start[..d] + [start[d] + 1] else start
  }

  /** Cut behind the first byte that is not 0xff, with that byte increased. */
  ghost predicate IsShortSuccessor(key: seq<byte>, r: seq<byte>) {
    exists d :: 0 <= d <= |key| && (forall i | 0 <= i < d :: key[i] == 0xff) && (d < |key| ==> key[d] != 0xff)
      && r == if d < |key| && key[d] != 0xff then key[..d] + [key[d] + 1] else key
  }

  /** A string in [start, limit), shorter than `start` where that is easy. */
  method FindShortestSeparator(start: seq<byte>, limit: seq<byte>) returns (r: seq<byte>)
    ensures IsShortest(start, limit, r)
    ensures |r| <= |start| && (r == start || LexLess(start, r))
    ensures LexLess(start, limit) ==> LexLess(r, limit)
    ensures start == limit ==> r == start
  {
    var min := if |start| < |limit| then |start| else |limit|;
    var diff := 0;
    while diff < min && start[diff] == limit[diff]
      invariant diff <= min && start[..diff] == limit[..diff]
    {
      diff := diff + 1;
    }
    r := start;
    assert FirstDifference(start, limit, diff);
    if diff < min {
      var b := start[diff];
      if b < 0xff && b as int + 1 < limit[diff] as int {
        r := start[..diff] + [b + 1];
        LexAt(start, r, diff);
        LexAt(r, limit, diff);
      }
    }
  }

  /** A string at or after `key`, shorter where that is easy. */
  method FindShortSuccessor(key: seq<byte>) returns (r: seq<byte>)
    ensures IsShortSuccessor(key, r)
    ensures |r| <= |key| && (r == key || LexLess(key, r))
  {
    for i := 0 to |key|
      invariant forall j | 0 <= j < i :: key[j] == 0xff
    {
      var b := key[i];
      if b != 0xff {
        r := key[..i] + [b + 1];
        LexAt(key, r, i);
        return;
      }
    }
    r := key;
  }

  // ---- Internal keys: the user key and eight bytes of sequence number and kind

  const MAX_TAG: nat := 0xFF_FFFF_FFFF_FFFF * 0x100 + 1

  predicate IsInternal(k: seq<byte>) {
    |k| >= 8
  }

  function UserKey(k: seq<byte>): seq<byte>
    requires IsInternal(k)
  {
    k[..|k| - 8]
  }

  function Tag(k: seq<byte>): nat
    requires IsInternal(k)
  {
    LittleEndian(k[|k| - 8..])
  }

  function Internal(user: seq<byte>, tag: nat): (k: seq<byte>)
    ensures IsInternal(k)
  {
    user + Fixed(tag, 8)
  }

  lemma InternalParts(user: seq<byte>, tag: nat)
    requires tag < 0x1_0000_0000_0000_0000
    ensures UserKey(Internal(user, tag)) == user && Tag(Internal(user, tag)) == tag
  {
    var k := Internal(user, tag);
    assert k[..|k| - 8] == user && k[|k| - 8..] == Fixed(tag, 8);
    assert Power256(8) == 0x1_0000_0000_0000_0000 by {
      assert Power256(4) == 0x1_0000_0000;
    }
    FixedRoundTrip(tag, 8);
  }

  /** Increasing user key, then decreasing tag. */
  predicate InternalLess(a: seq<byte>, b: seq<byte>) {
    && IsInternal(a) && IsInternal(b)
    && (LexLess(UserKey(a), UserKey(b)) || (UserKey(a) == UserKey(b) && Tag(a) > Tag(b)))
  }

  lemma InternalTransitive(a: seq<byte>, b: seq<byte>, c: seq<byte>)
    ensures InternalLess(a, b) && InternalLess(b, c) ==> InternalLess(a, c)
    ensures !(InternalLess(a, b) && InternalLess(b, a))
  {
    if IsInternal(a) && IsInternal(b) && IsInternal(c) {
      LexTransitive(UserKey(a), UserKey(b), UserKey(c));
    }
    if IsInternal(a) && IsInternal(b) {
      LexTotal(UserKey(a), UserKey(b));
    }
  }

  /** Two different internal keys are ordered. */
  lemma InternalTotal(a: seq<byte>, b: seq<byte>)
    requires IsInternal(a) && IsInternal(b)
    ensures InternalLess(a, b) || InternalLess(b, a) || (UserKey(a) == UserKey(b) && Tag(a) == Tag(b))
  {
    LexTotal(UserKey(a), UserKey(b));
  }

  /** The shortest separator of the user keys, with the tag that sorts first, if it is shorter and after `start`. */
  ghost predicate IsSeparator(start: seq<byte>, limit: seq<byte>, r: seq<byte>)
    requires IsInternal(start) && IsInternal(limit)
  {
    exists tmp :: IsShortest(UserKey(start), UserKey(limit), tmp)
      && r == if |tmp| < |UserKey(start)| && LexLess(UserKey(start), tmp) then Internal(tmp, MAX_TAG) else start
  }

  ghost predicate IsSuccessor(key: seq<byte>, r: seq<byte>)
    requires IsInternal(key)
  {
    exists tmp :: IsShortSuccessor(UserKey(key), tmp)
      && r == if |tmp| < |UserKey(key)| && LexLess(UserKey(key), tmp) then Internal(tmp, MAX_TAG) else key
  }

  /** The separator lies in [start, limit): it may stand for the block that ends with `start`. */
  method InternalSeparator(start: seq<byte>, limit: seq<byte>) returns (r: seq<byte>)
    requires IsInternal(start) && IsInternal(limit) && Tag(start) <= MAX_TAG
    ensures IsInternal(r) && Tag(r) <= MAX_TAG && (r == start || InternalLess(start, r))
    ensures InternalLess(start, limit) ==>
      InternalLess(r, limit) && (r == start || LexLess(UserKey(r), UserKey(limit)))
    ensures IsSeparator(start, limit, r)
  {
    hide LexLess, Internal, LittleEndian, IsShortest;
    var userStart, userLimit := UserKey(start), UserKey(limit);
    var tmp := FindShortestSeparator(userStart, userLimit);
    r := start;
    if |tmp| < |userStart| && LexLess(userStart, tmp) {
      r := Internal(tmp, MAX_TAG);
      InternalParts(tmp, MAX_TAG);
    }
  }

  method InternalSuccessor(key: seq<byte>) returns (r: seq<byte>)
    requires IsInternal(key) && Tag(key) <= MAX_TAG
    ensures IsInternal(r) && Tag(r) <= MAX_TAG && (r == key || InternalLess(key, r))
    ensures IsSuccessor(key, r)
  {
    var user := UserKey(key);
    var tmp := FindShortSuccessor(user);
    r := key;
    if |tmp| < |user| && LexLess(user, tmp) {
      r := Internal(tmp, MAX_TAG);
      InternalParts(tmp, MAX_TAG);
    }
  }
}
