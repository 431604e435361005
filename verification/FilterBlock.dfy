/** The filter block: one filter for every two kilobytes of block offsets. */
module FilterBlock {
  import opened Bytes
  import opened BlockFormat
  import opened Bits
  import opened Bloom
  import opened Comparator

  const FILTER_BASE_LG := 11
  const FILTER_BASE := 2048

  // ---- The policy for internal keys looks at the user key only

  function UserPart(k: seq<byte>): seq<byte> {
    if IsInternal(k) then UserKey(k) else k
  }

  /** Filters so far: the `i`-th is result[offsets[i]..offsets[i + 1]], the last one up to the end. */
  ghost predicate Framed(result: seq<byte>, offsets: seq<nat>) {
    && (forall i | 0 <= i < |offsets| :: offsets[i] <= |result|)
    && forall i, j | 0 <= i <= j < |offsets| :: offsets[i] <= offsets[j]
  }

  function FilterAt(result: seq<byte>, offsets: seq<nat>, i: nat): seq<byte>
    requires i < |offsets|
  {
    var limit := if i + 1 < |offsets| then offsets[i + 1] else |result|;
    if offsets[i] <= limit <= |result| then result[offsets[i]..limit] else []
  }

  /** A key and the offset of the block it was added for. */
  datatype Added = Added(blockOffset: nat, key: seq<byte>)

  class FilterBlockBuilder {
    const policy: BloomFilterPolicy
    var keys: seq<byte>           // the pending keys, one behind the other
    var start: seq<nat>           // where each of them begins
    var result: seq<byte>
    var filterOffsets: seq<nat>
    ghost var pending: seq<seq<byte>>
    ghost var block: nat          // offset of the block under construction
    ghost var added: seq<Added>

    ghost predicate Valid()
      reads this
    {
      && policy.Valid() && Framed(result, filterOffsets) && Flat(pending, keys, start)
      && |filterOffsets| == block / FILTER_BASE
      && AllAccounted(added, result, filterOffsets, pending, policy.hash)
      && AllMade(added, result, filterOffsets, pending, policy)
    }

    constructor (policy: BloomFilterPolicy)
      requires policy.Valid()
      ensures Valid() && added == [] && block == 0 && this.policy == policy
    {
      hide IsMade;
      this.policy := policy;
      keys, start, result, filterOffsets := [], [], [], [];
      pending, block, added := [], 0, [];
    }

    /** The next block begins at `blockOffset`. */
    method StartBlock(blockOffset: nat)
      requires Valid() && block <= blockOffset
      modifies this
      ensures Valid() && added == old(added) && block == blockOffset
    {
      hide MayMatch, FilterAt, Framed, Flat, AllAccounted, AllMade;
      var filterIndex := blockOffset / FILTER_BASE;
      while filterIndex > |filterOffsets|
        invariant policy.Valid() && Framed(result, filterOffsets) && Flat(pending, keys, start) && added == old(added)
        invariant |filterOffsets| <= filterIndex
        invariant AllAccounted(added, result, filterOffsets, pending, policy.hash)
        invariant AllMade(added, result, filterOffsets, pending, policy)
        decreases filterIndex - |filterOffsets|
      {
        GenerateFilter();
      }
      block := blockOffset;
    }

    method AddKey(key: seq<byte>)
      requires Valid()
      modifies this
      ensures Valid() && added == old(added) + [Added(block, key)] && block == old(block)
    {
      hide MayMatch, FilterAt, Framed, AllMade;
      FlatMore(pending, keys, start, key);
      MadeWaits(added, result, filterOffsets, pending, policy, Added(block, key));
      start := start + [|keys|];
      keys := keys + key;
      pending := pending + [key];
      added := added + [Added(block, key)];
    }

    /** One filter for the pending keys; an empty one if there are none. */
    method GenerateFilter()
      requires policy.Valid() && Framed(result, filterOffsets) && Flat(pending, keys, start)
      requires AllAccounted(added, result, filterOffsets, pending, policy.hash)
      requires AllMade(added, result, filterOffsets, pending, policy)
      modifies this`keys, this`start, this`result, this`filterOffsets, this`pending
      ensures Framed(result, filterOffsets) && Flat(pending, keys, start) && pending == []
      ensures |filterOffsets| == old(|filterOffsets|) + 1
      ensures AllAccounted(added, result, filterOffsets, pending, policy.hash)
      ensures AllMade(added, result, filterOffsets, pending, policy)
    {
      hide MayMatch, FilterAt, Framed, AllAccounted, AllMade, IsMade;
      if |start| == 0 {
        FramedMore(result, filterOffsets, []);
        assert result + [] == result;
        AccountedMore(added, result, filterOffsets, pending, policy.hash, []);
        NothingMade(policy);
        MadeMore(added, result, filterOffsets, pending, policy, []);
        filterOffsets := filterOffsets + [|result|];
        return;
      }
      var tmpKeys := SplitKeys();
      var filter := policy.CreateFilter(UserParts(tmpKeys));
      FramedMore(result, filterOffsets, filter);
      AccountedMore(added, result, filterOffsets, pending, policy.hash, filter);
      OneMade(policy, pending, filter);
      MadeMore(added, result, filterOffsets, pending, policy, filter);
      filterOffsets := filterOffsets + [|result|];
      result := result + filter;
      keys, start, pending := [], [], [];
    }

    /** The whole block.  Every key that was added matches at the offset of its block. */
    method Finish() returns (contents: seq<byte>)
      requires Valid()
      modifies this
      ensures contents == FilterBytes(result, filterOffsets) && Framed(result, filterOffsets) && added == old(added)
      ensures forall a | a in added :: AlwaysMatches(a, result, filterOffsets, policy.hash)
      ensures forall n | 0 <= n < |filterOffsets| :: IsMade(FilterAt(result, filterOffsets, n), KeysOf(added, n), policy)
    {
      hide MayMatch, FilterAt, Framed, IsMade, KeysOf;
      if |start| != 0 {
        GenerateFilter();
      }
      contents := Assemble();
    }

    method Assemble() returns (contents: seq<byte>)
      ensures contents == FilterBytes(result, filterOffsets)
    {
      contents := result;
      ghost var words := filterOffsets + [|result|];
      for i := 0 to |filterOffsets|
        invariant contents == result + Fixed32s(words[..i])
      {
        assert words[..i + 1][..i] == words[..i];
        contents := contents + Fixed(filterOffsets[i], 4);
      }
      assert words[..|filterOffsets|] == filterOffsets;
      contents := contents + Fixed(|result|, 4);
      assert words[..|filterOffsets| + 1][..|filterOffsets|] == words[..|filterOffsets|] && words[..|words|] == words;
      contents := contents + [FILTER_BASE_LG];
    }

    /** The pending keys as separate strings. */
    method SplitKeys() returns (tmpKeys: seq<seq<byte>>)
      requires Flat(pending, keys, start)
      ensures tmpKeys == pending
    {
      tmpKeys := [];
      assert |start| == |pending|;
      hide Flat, LimitAt;
      for i := 0 to |start|
        invariant tmpKeys == pending[..i]
      {
        PieceIs(pending, keys, start, i);
        tmpKeys := tmpKeys + [keys[start[i]..LimitAt(keys, start, i)]];
      }
    }
  }

  /** The keys that were added for blocks in the `n`-th two kilobytes. */
  ghost function KeysOf(added: seq<Added>, n: nat): seq<seq<byte>> {
    if added == [] then []
    else
      var a := added[|added| - 1];
      KeysOf(added[..|added| - 1], n) + if a.blockOffset / 2048 == n then [a.key] else []
  }

  /** The filter that the policy makes for these keys, and an empty one for none. */
  ghost predicate IsMade(filter: seq<byte>, ks: seq<seq<byte>>, policy: BloomFilterPolicy) {
    if ks == [] then filter == []
    else |filter| > 1 && policy.Makes(filter, UserParts(ks))
  }

  lemma NothingMade(policy: BloomFilterPolicy)
    ensures IsMade([], [], policy)
  {
  }

  lemma OneMade(policy: BloomFilterPolicy, ks: seq<seq<byte>>, filter: seq<byte>)
    requires ks != [] && |filter| > 1 && policy.Makes(filter, UserParts(ks))
    ensures IsMade(filter, ks, policy)
  {
  }

  /** Every filter so far is made of exactly the keys of its blocks; the keys of the next are pending. */
  ghost predicate AllMade(added: seq<Added>, result: seq<byte>, offsets: seq<nat>, pending: seq<seq<byte>>,
                          policy: BloomFilterPolicy)
  {
    && (forall n | 0 <= n < |offsets| :: IsMade(FilterAt(result, offsets, n), KeysOf(added, n), policy))
    && pending == KeysOf(added, |offsets|)
    && forall a | a in added :: a.blockOffset / 2048 <= |offsets|
  }

  lemma MadeWaits(added: seq<Added>, result: seq<byte>, offsets: seq<nat>, pending: seq<seq<byte>>,
                  policy: BloomFilterPolicy, a: Added)
    requires AllMade(added, result, offsets, pending, policy) && a.blockOffset / 2048 == |offsets|
    ensures AllMade(added + [a], result, offsets, pending + [a.key], policy)
  {
    hide IsMade, FilterAt, KeysOf;
    forall n | 0 <= n < |offsets| ensures IsMade(FilterAt(result, offsets, n), KeysOf(added + [a], n), policy) {
      KeysMore(added, a, n);
    }
    KeysMore(added, a, |offsets|);
  }

  lemma KeysMore(added: seq<Added>, a: Added, n: nat)
    ensures KeysOf(added + [a], n) == if a.blockOffset / 2048 == n then KeysOf(added, n) + [a.key] else KeysOf(added, n)
  {
    assert (added + [a])[..|added|] == added;
  }

  lemma {:induction false} NoKeysOf(added: seq<Added>, n: nat)
    requires forall a | a in added :: a.blockOffset / 2048 < n
    ensures KeysOf(added, n) == []
  {
    if added != [] {
      NoKeysOf(added[..|added| - 1], n);
    }
  }

  lemma MadeMore(added: seq<Added>, result: seq<byte>, offsets: seq<nat>, pending: seq<seq<byte>>,
                 policy: BloomFilterPolicy, filter: seq<byte>)
    requires Framed(result, offsets) && AllMade(added, result, offsets, pending, policy) && IsMade(filter, pending, policy)
    ensures AllMade(added, result + filter, offsets + [|result|], [], policy)
  {
    FramedMore(result, offsets, filter);
    NoKeysOf(added, |offsets| + 1);
    hide IsMade, KeysOf, FilterAt, Framed;
    forall n | 0 <= n <= |offsets|
      ensures IsMade(FilterAt(result + filter, offsets + [|result|], n), KeysOf(added, n), policy)
    {
      if n < |offsets| {
        assert FilterAt(result + filter, offsets + [|result|], n) == FilterAt(result, offsets, n);
      }
    }
  }

  /** Every key is in the filter for its block, or waiting to go there. */
  ghost predicate AllAccounted(added: seq<Added>, result: seq<byte>, offsets: seq<nat>, pending: seq<seq<byte>>,
                               hash: KeyHash)
  {
    forall a | a in added ::
      var n := a.blockOffset / FILTER_BASE;
      if n < |offsets| then MayMatch(FilterAt(result, offsets, n), hash(UserPart(a.key)))
      else n == |offsets| && a.key in pending
  }

  /** The filter for the key's block lets the key through. */
  ghost predicate AlwaysMatches(a: Added, result: seq<byte>, offsets: seq<nat>, hash: KeyHash) {
    var n := a.blockOffset / FILTER_BASE;
    n < |offsets| && MayMatch(FilterAt(result, offsets, n), hash(UserPart(a.key)))
  }

  lemma AccountedMore(added: seq<Added>, result: seq<byte>, offsets: seq<nat>, pending: seq<seq<byte>>,
                      hash: KeyHash, filter: seq<byte>)
    requires Framed(result, offsets) && AllAccounted(added, result, offsets, pending, hash)
    requires forall key | key in pending :: MayMatch(filter, hash(UserPart(key)))
    ensures AllAccounted(added, result + filter, offsets + [|result|], [], hash)
  {
    hide MayMatch;
    FramedMore(result, offsets, filter);
  }

  /** Where the `i`-th of the keys ends. */
  function LimitAt(keys: seq<byte>, start: seq<nat>, i: nat): nat
    requires i < |start|
  {
    if i + 1 < |start| then start[i + 1] else |keys|
  }

  /** `keys` is the concatenation of `pending`, which begin at `start`. */
  ghost predicate Flat(pending: seq<seq<byte>>, keys: seq<byte>, start: seq<nat>) {
    && |start| == |pending| && (forall i | 0 <= i < |start| :: start[i] <= LimitAt(keys, start, i) <= |keys|)
    && forall i | 0 <= i < |start| :: pending[i] == keys[start[i]..LimitAt(keys, start, i)]
  }

  lemma PieceIs(pending: seq<seq<byte>>, keys: seq<byte>, start: seq<nat>, i: nat)
    requires Flat(pending, keys, start) && i < |start|
    ensures |pending| == |start| && start[i] <= LimitAt(keys, start, i) <= |keys|
    ensures pending[..i + 1] == pending[..i] + [keys[start[i]..LimitAt(keys, start, i)]]
  {
    assert start[i] <= LimitAt(keys, start, i) <= |keys|;
    assert pending[i] == keys[start[i]..LimitAt(keys, start, i)];
    hide *;
    OneLonger(pending, i);
  }

  lemma OneLonger<T>(s: seq<T>, i: nat)
    requires i < |s|
    ensures s[..i + 1] == s[..i] + [s[i]]
  {
  }

  lemma FlatMore(pending: seq<seq<byte>>, keys: seq<byte>, start: seq<nat>, k: seq<byte>)
    requires Flat(pending, keys, start)
    ensures Flat(pending + [k], keys + k, start + [|keys|])
  {
    var keys', start' := keys + k, start + [|keys|];
    forall i | 0 <= i < |start'|
      ensures start'[i] <= LimitAt(keys', start', i) <= |keys'|
      ensures (pending + [k])[i] == keys'[start'[i]..LimitAt(keys', start', i)]
    {
      if i < |start| {
        assert LimitAt(keys', start', i) == LimitAt(keys, start, i);
      }
    }
  }

  /** The internal policy hands the user parts to the policy it wraps. */
  function UserParts(ks: seq<seq<byte>>): (r: seq<seq<byte>>)
    ensures |r| == |ks| && forall i | 0 <= i < |ks| :: r[i] == UserPart(ks[i])
  {
    seq(|ks|, i requires 0 <= i < |ks| => UserPart(ks[i]))
  }

  /** A new filter at the end changes none of the earlier ones. */
  lemma FramedMore(result: seq<byte>, offsets: seq<nat>, filter: seq<byte>)
    requires Framed(result, offsets)
    ensures Framed(result + filter, offsets + [|result|])
    ensures forall i | 0 <= i < |offsets| ::
      FilterAt(result + filter, offsets + [|result|], i) == FilterAt(result, offsets, i)
    ensures FilterAt(result + filter, offsets + [|result|], |offsets|) == filter
  {
  }

  // ---- The finished block and its reader

  /** The filters, their offsets, where the offsets begin, and the base. */
  function FilterBytes(result: seq<byte>, offsets: seq<nat>): seq<byte> {
    result + Fixed32s(offsets + [|result|]) + [FILTER_BASE_LG]
  }

  lemma FilterWord(result: seq<byte>, offsets: seq<nat>, i: nat)
    requires i <= |offsets| && |result| < 0x1_0000_0000 && Framed(result, offsets)
    ensures var contents, at := FilterBytes(result, offsets), |result| + 4 * i;
      at + 4 < |contents| && LittleEndian(contents[at..at + 4]) == (offsets + [|result|])[i]
  {
    hide Fixed32s;
    var contents, words, at := FilterBytes(result, offsets), offsets + [|result|], |result| + 4 * i;
    Fixed32At(words, i);
    SliceOfSlice(contents, |result|, |result| + 4 * |words|, 4 * i, 4 * i + 4);
    assert contents[|result|..|result| + 4 * |words|] == Fixed32s(words);
    assert Power256(4) == 0x1_0000_0000;
    FixedRoundTrip(words[i], 4);
  }

  function WordAt(contents: seq<byte>, at: nat): nat
    requires at + 4 <= |contents|
  {
    LittleEndian(contents[at..at + 4])
  }

  class FilterBlockReader {
    const policy: BloomFilterPolicy
    const contents: seq<byte>
    const offset: nat       // where the offset array begins
    const num: nat
    const baseLg: nat
    ghost const result: seq<byte>
    ghost const offsets: seq<nat>

    /** The offset array lies within the contents, whatever they are. */
    ghost predicate Within() {
      num > 0 ==> offset + 4 * num + 5 <= |contents|
    }

    /** The contents are a block that a builder made. */
    ghost predicate Opened() {
      && Framed(result, offsets) && contents == FilterBytes(result, offsets) && |result| < 0x1_0000_0000
      && offset == |result| && num == |offsets| && baseLg == FILTER_BASE_LG
    }

    /** Contents that are no filter block are opened as one without filters. */
    constructor (policy: BloomFilterPolicy, contents: seq<byte>, ghost filters: seq<byte>, ghost starts: seq<nat>)
      ensures Within() && this.policy == policy && this.contents == contents
      ensures |contents| < 5 || WordAt(contents, |contents| - 5) > |contents| - 5 ==> num == 0
      ensures |contents| >= 5 && WordAt(contents, |contents| - 5) <= |contents| - 5 ==>
        offset == WordAt(contents, |contents| - 5) && num == (|contents| - 5 - offset) / 4
      ensures |contents| >= 5 ==> baseLg == contents[|contents| - 1]
      ensures Framed(filters, starts) && |filters| < 0x1_0000_0000 && contents == FilterBytes(filters, starts) ==>
        Opened() && result == filters && offsets == starts
    {
      var n := |contents|;
      this.policy, this.contents, result, offsets := policy, contents, filters, starts;
      if n < 5 {
        baseLg, offset, num := 0, 0, 0;
      } else {
        baseLg := contents[n - 1];
        var lastWord := WordAt(contents, n - 5);
        if lastWord > n - 5 {
          offset, num := 0, 0;
        } else {
          offset, num := lastWord, (n - 5 - lastWord) / 4;
        }
      }
      new;
      if Framed(filters, starts) && |filters| < 0x1_0000_0000 && contents == FilterBytes(filters, starts) {
        FilterWord(filters, starts, |starts|);
      }
    }

    /** May the block at `blockOffset` hold the key? */
    method KeyMayMatch(blockOffset: nat, key: seq<byte>) returns (may: bool)
      requires Within()
      ensures may <==> Passes(contents, offset, num, ShiftRight(blockOffset, baseLg), policy.hash(UserPart(key)))
      ensures Opened() ==>
        may == (blockOffset / FILTER_BASE < |offsets| ==>
                  MayMatch(FilterAt(result, offsets, blockOffset / FILTER_BASE), policy.hash(UserPart(key))))
    {
      hide MayMatch, FilterBytes, WordAt, ShiftRight, Framed;
      var index := ShiftRight(blockOffset, baseLg);
      if Opened() {
        BaseIsPower(blockOffset);
        BuiltPasses(result, offsets, index, policy.hash(UserPart(key)));
      }
      if index >= num {
        return true;
      }
      var start := WordAt(contents, offset + index * 4);
      var limit := WordAt(contents, offset + index * 4 + 4);
      if start <= limit <= offset {
        may := policy.KeyMayMatch(UserPart(key), contents[start..limit]);
      } else {
        may := start != limit;
      }
    }
  }

  /** What the `index`-th filter of any contents says about a key with this hash: without a filter, or
      with damaged offsets, anything may match, and nothing matches an empty filter. */
  ghost predicate Passes(contents: seq<byte>, offset: nat, num: nat, index: nat, h: uint32)
    requires num > 0 ==> offset + 4 * num + 5 <= |contents|
  {
    index < num ==>
      var start, limit := WordAt(contents, offset + index * 4), WordAt(contents, offset + index * 4 + 4);
      if start <= limit <= offset then MayMatch(contents[start..limit], h) else start != limit
  }

  /** In a block that a builder made, it is the filter for that index. */
  lemma BuiltPasses(result: seq<byte>, offsets: seq<nat>, index: nat, h: uint32)
    requires Framed(result, offsets) && |result| < 0x1_0000_0000
    ensures |FilterBytes(result, offsets)| == |result| + 4 * |offsets| + 5
    ensures Passes(FilterBytes(result, offsets), |result|, |offsets|, index, h) <==>
            (index < |offsets| ==> MayMatch(FilterAt(result, offsets, index), h))
  {
    hide MayMatch, LittleEndian;
    if index < |offsets| {
      FilterWord(result, offsets, index);
      FilterWord(result, offsets, index + 1);
      FilterSlice(result, offsets, index);
    }
  }

  lemma BaseIsPower(blockOffset: nat)
    ensures ShiftRight(blockOffset, FILTER_BASE_LG) == blockOffset / FILTER_BASE
  {
    FourBits(blockOffset, 7);
    FourBits(blockOffset / 16, 3);
    var m := blockOffset / 16 / 16;
    OneBit(m, 2);
    OneBit(m / 2, 1);
    OneBit(m / 2 / 2, 0);
    hide ShiftRight;
  }

  lemma OneBit(n: nat, s: nat)
    ensures ShiftRight(n, s + 1) == ShiftRight(n / 2, s) && ShiftRight(n, 0) == n && ShiftRight(n / 2, 0) == n / 2
  {
  }

  lemma FourBits(n: nat, s: nat)
    ensures ShiftRight(n, s + 4) == ShiftRight(n / 16, s)
  {
    OneBit(n, s + 3);
    OneBit(n / 2, s + 2);
    OneBit(n / 2 / 2, s + 1);
    OneBit(n / 2 / 2 / 2, s);
    hide ShiftRight;
    assert n / 2 / 2 / 2 / 2 == n / 16;
  }

  lemma FilterSlice(result: seq<byte>, offsets: seq<nat>, i: nat)
    requires i < |offsets| && Framed(result, offsets)
    ensures var words := offsets + [|result|];
      words[i] <= words[i + 1] <= |result| <= |FilterBytes(result, offsets)|
      && FilterBytes(result, offsets)[words[i]..words[i + 1]] == FilterAt(result, offsets, i)
  {
  }
}
