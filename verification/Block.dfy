/** Blocks of a table: keys compressed against the key before, with uncompressed restart points to
    search by. */
module Blocks {
  import opened Keys
  import opened Coding

  /** A comparator, given by the rank of each key; keys may compare equal without being so. */
  type Comparator = Bytes -> real

  datatype Pair = Pair(key: Bytes, value: Bytes)

  ghost predicate Increasing(c: Comparator, es: seq<Pair>) {
    forall i, j :: 0 <= i < j < |es| ==> c(es[i].key) < c(es[j].key)
  }

  /** Lengths are stored in 32 bits. */
  predicate Fits(e: Pair) {
    |e.key| < WORD32 && |e.value| < WORD32
  }

  // ----- The bytes of a block -----

  /** The length of the common prefix. */
  function Common(a: Bytes, b: Bytes): (n: nat)
    ensures n <= |a| && n <= |b| && a[..n] == b[..n]
    ensures n < |a| && n < |b| ==> a[n] != b[n]
  {
    if a == [] || b == [] || a[0] != b[0] then 0
    else
      var n := Common(a[1..], b[1..]);
      assert a[..n + 1] == [a[0]] + a[1..][..n] && b[..n + 1] == [b[0]] + b[1..][..n];
      n + 1
  }

  /** How much of its key the `i`-th entry shares with the one before; nothing at a restart. */
  function SharedAt(k: nat, es: seq<Pair>, i: nat): (n: nat)
    requires k > 0 && i < |es|
    ensures n <= |es[i].key|
    ensures n > 0 ==> i > 0 && i % k != 0 && n <= |es[i - 1].key| && es[i - 1].key[..n] == es[i].key[..n]
  {
    if i % k == 0 then 0 else Common(es[i - 1].key, es[i].key)
  }

  function Header(shared: nat, nonShared: nat, valueLength: nat): (b: Bytes)
    ensures |b| >= 3
  {
    Varint(shared) + Varint(nonShared) + Varint(valueLength)
  }

  function Chunk(k: nat, es: seq<Pair>, i: nat): (b: Bytes)
    requires k > 0 && i < |es|
    ensures |b| >= 3
  {
    var shared := SharedAt(k, es, i);
    Header(shared, |es[i].key| - shared, |es[i].value|) + es[i].key[shared..] + es[i].value
  }

  /** The entries of a block with a restart every `k` of them. */
  function Data(k: nat, es: seq<Pair>): Bytes
    requires k > 0
  {
    if es == [] then [] else Data(k, es[..|es| - 1]) + Chunk(k, es, |es| - 1)
  }

  function Offset(k: nat, es: seq<Pair>, i: nat): nat
    requires k > 0 && i <= |es|
  {
    |Data(k, es[..i])|
  }

  /** The first entry of restart block `r`, when each has `k`. */
  function Times(r: nat, k: nat): nat {
    r * k
  }

  function NumRestarts(k: nat, n: nat): (m: nat)
    requires k > 0
    ensures m > 0
  {
    if n == 0 then 1 else (n - 1) / k + 1
  }

  lemma RestartInRange(k: nat, n: nat, r: nat)
    requires k > 0
    ensures r < NumRestarts(k, n) <==> r == 0 || Times(r, k) < n
    ensures Times(r, k) % k == 0
  {
    DivMod(k, r);
    if n > 0 {
      if r <= (n - 1) / k {
        MulMono(r, (n - 1) / k, k);
      } else {
        MulMono((n - 1) / k + 1, r, k);
      }
      assert (n - 1) / k * k <= n - 1 < ((n - 1) / k + 1) * k;
    }
  }

  lemma DivMod(k: nat, r: nat)
    requires k > 0
    ensures Times(r, k) % k == 0
  {
    MulMono(0, r, k);
    DivModUnique(r * k, k, r, 0);
  }

  lemma MulMono(a: nat, b: nat, k: nat)
    requires a <= b
    ensures a * k <= b * k
  {
    assert b * k == a * k + (b - a) * k;
  }

  function Restarts(k: nat, es: seq<Pair>): (rs: seq<nat>)
    requires k > 0
    ensures |rs| == NumRestarts(k, |es|)
  {
    seq(NumRestarts(k, |es|), r requires 0 <= r < NumRestarts(k, |es|) => RestartInRange(k, |es|, r); Offset(k, es, Times(r, k)))
  }

  lemma {:induction false} OffsetsRise(k: nat, es: seq<Pair>, i: nat, j: nat)
    requires k > 0 && i < j <= |es|
    ensures Offset(k, es, i) + 3 * (j - i) <= Offset(k, es, j) <= |Data(k, es)|
    decreases |es|, j - i
  {
    hide Chunk;
    assert es[..j][..j - 1] == es[..j - 1];
    ChunkLocal(k, es, j);
    if i < j - 1 {
      OffsetsRise(k, es, i, j - 1);
    }
    if j < |es| {
      OffsetsRise(k, es[..|es| - 1], i, j);
      assert es[..|es| - 1][..j] == es[..j] && es[..|es| - 1][..i] == es[..i];
    } else {
      assert es[..j] == es;
    }
  }

  /** A chunk depends on its entry and the one before only. */
  lemma ChunkLocal(k: nat, es: seq<Pair>, n: nat)
    requires k > 0 && n <= |es|
    ensures forall i :: 0 <= i < n ==> Chunk(k, es[..n], i) == Chunk(k, es, i)
  {
  }

  /** The data from an entry's offset on is the entry's chunk, then the next entry's. */
  lemma {:induction false} ChunkAt(k: nat, es: seq<Pair>, i: nat)
    requires k > 0 && i < |es|
    ensures Offset(k, es, i + 1) == Offset(k, es, i) + |Chunk(k, es, i)| <= |Data(k, es)|
    ensures Data(k, es)[Offset(k, es, i)..Offset(k, es, i + 1)] == Chunk(k, es, i)
    decreases |es|
  {
    hide Chunk;
    var front := es[..|es| - 1];
    ChunkLocal(k, es, |es| - 1);
    if i < |es| - 1 {
      ChunkAt(k, front, i);
      assert front[..i] == es[..i] && front[..i + 1] == es[..i + 1];
      assert Data(k, es)[Offset(k, es, i)..Offset(k, es, i + 1)] == Data(k, front)[Offset(k, es, i)..Offset(k, es, i + 1)];
    } else {
      assert es[..i + 1] == es;
    }
  }

  // ----- Building a block -----

  class BlockBuilder {
    const interval: nat
    var buffer: Bytes
    var restarts: seq<nat>
    var counter: nat
    var finished: bool
    var lastKey: Bytes
    ghost var entries: seq<Pair>

    ghost predicate Valid()
      reads this
    {
      && interval > 0
      && buffer == Data(interval, entries)
      && restarts == Restarts(interval, entries)
      && counter == (if entries == [] then 0 else (|entries| - 1) % interval + 1)
      && lastKey == (if entries == [] then [] else entries[|entries| - 1].key)
    }

    constructor (k: nat)
      requires k > 0
      ensures Valid() && !finished && entries == [] && interval == k
    {
      interval := k;
      buffer, restarts, counter, finished, lastKey := [], [0], 0, false, [];
      entries := [];
    }

    method Reset()
      requires interval > 0
      modifies this
      ensures Valid() && !finished && entries == []
    {
      buffer, restarts, counter, finished, lastKey := [], [0], 0, false, [];
      entries := [];
    }

    method Add(key: Bytes, value: Bytes)
      requires Valid() && !finished
      modifies this
      ensures Valid() && !finished && entries == old(entries) + [Pair(key, value)]
    {
      hide Header, Data, Restarts, SharedAt;
      ghost var n := |entries|;
      ghost var es := entries + [Pair(key, value)];
      var shared := BeginEntry(key, value);
      var nonShared := |key| - shared;
      buffer := buffer + Header(shared, nonShared, |value|);
      buffer := buffer + key[shared..];
      buffer := buffer + value;
      AppendIsChunk(interval, entries, Pair(key, value), shared);
      lastKey := lastKey[..shared] + key[shared..];
      assert key == key[..shared] + key[shared..];
      counter := counter + 1;
      entries := es;
    }

    /** How much of the key is shared with the last: nothing, when a restart block is full. */
    method BeginEntry(key: Bytes, value: Bytes) returns (shared: nat)
      requires Valid()
      modifies this`restarts, this`counter
      ensures shared == SharedAt(interval, entries + [Pair(key, value)], |entries|)
      ensures shared <= |key| && shared <= |lastKey| && key[..shared] == lastKey[..shared]
      ensures restarts == Restarts(interval, entries + [Pair(key, value)]) && counter == |entries| % interval
    {
      hide Common, Data, Restarts;
      ghost var es := entries + [Pair(key, value)];
      EmptyBlock(interval);
      CounterMeans(interval, |entries|);
      RestartsGrow(interval, entries, Pair(key, value));
      assert |entries| > 0 ==> es[|entries| - 1] == entries[|entries| - 1];
      shared := 0;
      if counter < interval {
        shared := SharedPrefix(lastKey, key);
      } else {
        restarts := restarts + [|buffer|];
        counter := 0;
      }
    }

    method Empty() returns (b: bool)
      requires Valid()
      ensures b <==> entries == []
    {
      hide Chunk;
      b := |buffer| == 0;
    }

    method CurrentSizeEstimate() returns (n: nat)
      requires Valid()
      ensures n == |BlockBytes(interval, entries)|
    {
      hide Data;
      n := |buffer| + 4 * |restarts| + 4;
    }

    /** The loop that finds how much of a key is shared. */
    method SharedPrefix(last: Bytes, key: Bytes) returns (shared: nat)
      ensures shared == Common(last, key)
    {
      var minLength := if |last| < |key| then |last| else |key|;
      shared := 0;
      assert last[0..] == last && key[0..] == key;
      while shared < minLength && last[shared] == key[shared]
        invariant shared <= minLength
        invariant Common(last, key) == shared + Common(last[shared..], key[shared..])
      {
        assert last[shared..][1..] == last[shared + 1..] && key[shared..][1..] == key[shared + 1..];
        shared := shared + 1;
      }
    }

    method Finish() returns (contents: Bytes)
      requires Valid() && !finished
      modifies this
      ensures finished && contents == BlockBytes(interval, entries) && entries == old(entries)
    {
      hide Data, EncodeFixed32, Restarts;
      ghost var data := buffer;
      for i := 0 to |restarts|
        invariant restarts == old(restarts) && entries == old(entries)
        invariant buffer == data + Words(restarts[..i])
      {
        assert restarts[..i + 1][..i] == restarts[..i];
        buffer := buffer + EncodeFixed32(restarts[i] % WORD32);
      }
      assert restarts[..|restarts|] == restarts;
      buffer := buffer + EncodeFixed32(|restarts| % WORD32);
      finished := true;
      return buffer;
    }
  }

  /** The finished block of some entries: their data, the restart offsets, and how many. */
  function BlockBytes(k: nat, es: seq<Pair>): Bytes
    requires k > 0
  {
    Data(k, es) + Words(Restarts(k, es)) + EncodeFixed32(|Restarts(k, es)| % WORD32)
  }

  /** Restart offsets lie within the data. */
  lemma RestartsBounded(k: nat, es: seq<Pair>)
    requires k > 0
    ensures forall w :: w in Restarts(k, es) ==> w <= |Data(k, es)|
  {
    hide Data;
    forall r | 0 <= r < NumRestarts(k, |es|)
      ensures Restarts(k, es)[r] <= |Data(k, es)|
    {
      RestartInRange(k, |es|, r);
      assert es[..|es|] == es;
      if Times(r, k) < |es| {
        OffsetsRise(k, es, Times(r, k), |es|);
      }
    }
  }

  /** The counter reaches the interval exactly when the next entry is at a restart. */
  lemma CounterMeans(k: nat, n: nat)
    requires k > 0
    ensures n > 0 ==> ((n - 1) % k + 1 < k <==> n % k != 0)
    ensures n > 0 && n % k != 0 ==> n % k == (n - 1) % k + 1
    ensures n > 0 && n % k == 0 ==> NumRestarts(k, n + 1) == NumRestarts(k, n) + 1 && Times(NumRestarts(k, n), k) == n
    ensures n > 0 && n % k != 0 ==> NumRestarts(k, n + 1) == NumRestarts(k, n)
  {
    if n > 0 {
      var q, r := (n - 1) / k, (n - 1) % k;
      assert n - 1 == q * k + r;
      if r + 1 < k {
        DivModUnique(n, k, q, r + 1);
      } else {
        assert n == (q + 1) * k;
        DivModUnique(n, k, q + 1, 0);
      }
    }
  }

  lemma DivModUnique(n: nat, k: nat, q: nat, r: nat)
    requires k > 0 && n == q * k + r && r < k
    ensures n / k == q && n % k == r
  {
    var q', r' := n / k, n % k;
    if q' < q {
      MulMono(q' + 1, q, k);
    } else if q < q' {
      MulMono(q + 1, q', k);
    }
  }

  lemma RestartsGrow(k: nat, es: seq<Pair>, e: Pair)
    requires k > 0
    ensures Restarts(k, es + [e]) ==
            Restarts(k, es) + if es != [] && |es| % k == 0 then [|Data(k, es)|] else []
  {
    hide Data, NumRestarts;
    var fs := es + [e];
    CounterMeans(k, |es|);
    NumRestartsOne(k);
    forall r | 0 <= r < NumRestarts(k, |es|)
      ensures Restarts(k, fs)[r] == Restarts(k, es)[r]
    {
      RestartInRange(k, |es|, r);
      assert fs[..Times(r, k)] == es[..Times(r, k)];
    }
    assert fs[..|es|] == es;
  }

  lemma RestartValue(k: nat, es: seq<Pair>, index: nat)
    requires k > 0 && index < NumRestarts(k, |es|)
    ensures Times(index, k) <= |es| && Restarts(k, es)[index] == Offset(k, es, Times(index, k)) <= |Data(k, es)|
  {
    hide Data;
    RestartInRange(k, |es|, index);
    RestartsBounded(k, es);
    var rs := Restarts(k, es);
    assert rs[index] in rs;
  }

  lemma EmptyBlock(k: nat)
    requires k > 0
    ensures Data(k, []) == [] && Restarts(k, []) == [0]
  {
    var es: seq<Pair> := [];
    assert es[..0] == [];
  }

  lemma NumRestartsOne(k: nat)
    requires k > 0
    ensures NumRestarts(k, 0) == 1 && NumRestarts(k, 1) == 1
  {
  }

  lemma AppendIsChunk(k: nat, es: seq<Pair>, e: Pair, shared: nat)
    requires k > 0 && shared == SharedAt(k, es + [e], |es|)
    ensures Data(k, es + [e]) == Data(k, es) + Header(shared, |e.key| - shared, |e.value|) + e.key[shared..] + e.value
  {
    hide Header, SharedAt;
    var fs := es + [e];
    assert fs[..|fs| - 1] == es && fs[|es|] == e;
  }

  // ----- Reading a block -----

  /** The three lengths in front of an entry and what follows them, if the entry fits in `b`. The
      sum of the lengths is taken in 32 bits. */
  function DecodeEntrySpec(b: Bytes): Option<(nat, nat, nat, Bytes)> {
    match GetVarint32(b)
    case None => None
    case Some((shared, b1)) =>
      match GetVarint32(b1)
      case None => None
      case Some((nonShared, b2)) =>
        match GetVarint32(b2)
        case None => None
        case Some((valueLength, rest)) =>
          if |rest| < (nonShared + valueLength) % WORD32 then None else Some((shared, nonShared, valueLength, rest))
  }

  /** What parsing a varint leaves is the end of what it was given. */
  lemma {:induction false} VarintLeavesEnd(b: Bytes, n: nat)
    ensures var r := ParseVarint(b, n);
            r.Some? ==> |r.value.1| < |b| && r.value.1 == b[|b| - |r.value.1|..]
  {
    if n > 0 && b != [] && b[0] >= 128 {
      VarintLeavesEnd(b[1..], n - 1);
    }
  }

  lemma EntryLeavesEnd(b: Bytes)
    ensures var r := DecodeEntrySpec(b);
            r.Some? ==> |r.value.3| + 3 <= |b| && r.value.3 == b[|b| - |r.value.3|..]
  {
    hide ParseVarint;
    VarintLeavesEnd(b, 5);
    if GetVarint32(b).Some? {
      var b1 := GetVarint32(b).value.1;
      VarintLeavesEnd(b1, 5);
      if GetVarint32(b1).Some? {
        var b2 := GetVarint32(b1).value.1;
        VarintLeavesEnd(b2, 5);
      }
    }
  }

  lemma ShortVarint(b: Bytes)
    requires |b| >= 1 && b[0] < 128
    ensures GetVarint32(b) == Some((b[0] as int, b[1..]))
  {
  }

  /** One-byte lengths parse as themselves. */
  lemma ShortHeader(b: Bytes)
    requires |b| >= 3 && b[0] < 128 && b[1] < 128 && b[2] < 128
    ensures DecodeEntrySpec(b) ==
            if |b| - 3 < b[1] + b[2] then None else Some((b[0] as nat, b[1] as nat, b[2] as nat, b[3..]))
  {
    hide ParseVarint, GetVarint32;
    assert b[1..][1..] == b[2..] && b[2..][1..] == b[3..];
    ShortVarint(b);
    ShortVarint(b[1..]);
    ShortVarint(b[2..]);
  }

  /** Decode the lengths in front of an entry: a fast path for one-byte lengths, else varints. */
  method DecodeEntry(b: Bytes) returns (r: Option<(nat, nat, nat, Bytes)>)
    ensures r == DecodeEntrySpec(b)
  {
    hide ParseVarint;
    EntryLeavesEnd(b);
    if |b| < 3 {
      return None;
    }
    var shared: nat, nonShared: nat, valueLength: nat := b[0], b[1], b[2];
    var p: Bytes;
    if shared < 128 && nonShared < 128 && valueLength < 128 {
      ShortHeader(b);
      p := b[3..];
    } else {
      match GetVarint32(b) {
        case None => return None;
        case Some((v, rest)) => shared, p := v, rest;
      }
      match GetVarint32(p) {
        case None => return None;
        case Some((v, rest)) => nonShared, p := v, rest;
      }
      match GetVarint32(p) {
        case None => return None;
        case Some((v, rest)) => valueLength, p := v, rest;
      }
    }
    if |p| < (nonShared + valueLength) % WORD32 {
      return None;
    }
    return Some((shared, nonShared, valueLength, p));
  }

  lemma HeaderRoundTrip(shared: Word32, nonShared: Word32, valueLength: Word32, rest: Bytes)
    requires |rest| >= nonShared + valueLength
    ensures DecodeEntrySpec(Header(shared, nonShared, valueLength) + rest) == Some((shared, nonShared, valueLength, rest))
  {
    hide Varint, GetVarint32;
    var b1, b2 := Varint(nonShared) + (Varint(valueLength) + rest), Varint(valueLength) + rest;
    assert Header(shared, nonShared, valueLength) + rest == Varint(shared) + b1;
    Varint32RoundTrip(shared, b1);
    Varint32RoundTrip(nonShared, b2);
    Varint32RoundTrip(valueLength, rest);
  }

  lemma OffsetInRange(k: nat, es: seq<Pair>, i: nat)
    requires k > 0 && i <= |es|
    ensures Offset(k, es, i) <= |Data(k, es)| && (i < |es| ==> Offset(k, es, i) < |Data(k, es)|)
    ensures i == |es| ==> Offset(k, es, i) == |Data(k, es)|
  {
    assert es[..|es|] == es;
    if i < |es| {
      OffsetsRise(k, es, i, |es|);
    }
  }

  /** The data from entry `i` on. */
  function From(k: nat, es: seq<Pair>, i: nat): Bytes
    requires k > 0 && i <= |es|
  {
    OffsetInRange(k, es, i);
    Data(k, es)[Offset(k, es, i)..]
  }

  lemma FrontParts(p: Bytes, delta: Bytes, value: Bytes)
    requires delta + value <= p
    ensures p[..|delta|] == delta && p[|delta|..|delta| + |value|] == value
  {
    assert p[..|delta|] == (delta + value)[..|delta|];
    assert p[|delta|..|delta| + |value|] == (delta + value)[|delta|..];
  }

  /** Reading at the offset of entry `i` gives its lengths, then its own part of the key and its
      value. */
  lemma EntryRoundTrip(k: nat, es: seq<Pair>, i: nat)
    requires k > 0 && i < |es| && Fits(es[i])
    ensures var b, shared := From(k, es, i), SharedAt(k, es, i);
            var delta, value := es[i].key[shared..], es[i].value;
            && DecodeEntrySpec(b).Some? && DecodeEntrySpec(b).value.0 == shared
            && DecodeEntrySpec(b).value.1 == |delta| && DecodeEntrySpec(b).value.2 == |value|
            && delta + value <= DecodeEntrySpec(b).value.3
            && Offset(k, es, i) + (|b| - |DecodeEntrySpec(b).value.3|) + |delta| + |value| == Offset(k, es, i + 1)
            && Offset(k, es, i + 1) <= |Data(k, es)|
  {
    hide Header, DecodeEntrySpec, Data, SharedAt;
    ChunkAt(k, es, i);
    var b, shared := From(k, es, i), SharedAt(k, es, i);
    var delta, value := es[i].key[shared..], es[i].value;
    var header := Header(shared, |delta|, |value|);
    var after := Data(k, es)[Offset(k, es, i + 1)..];
    assert b == Data(k, es)[Offset(k, es, i)..Offset(k, es, i + 1)] + after;
    assert b == header + (delta + value + after);
    HeaderRoundTrip(shared, |delta|, |value|, delta + value + after);
  }

  /** `i` is the first entry at or after `target`. */
  ghost predicate IsLowerBound(c: Comparator, es: seq<Pair>, target: Bytes, i: nat) {
    && i <= |es|
    && (forall j :: 0 <= j < i ==> c(es[j].key) < c(target))
    && (i < |es| ==> c(es[i].key) >= c(target))
  }

  /** The word of restart `index` in the bytes of a block. */
  lemma RestartStored(k: nat, es: seq<Pair>, index: nat)
    requires k > 0 && |BlockBytes(k, es)| < WORD32 && index < NumRestarts(k, |es|)
    ensures var at := |Data(k, es)| + 4 * index;
            && at + 4 <= |BlockBytes(k, es)| && Times(index, k) <= |es|
            && DecodeFixed32(BlockBytes(k, es)[at..at + 4]) == Offset(k, es, Times(index, k)) <= |Data(k, es)|
  {
    hide Data, EncodeFixed32, DecodeFixed32, Times, Offset, Words, Restarts;
    RestartValue(k, es, index);
    var rs := Restarts(k, es);
    WordAt(rs, index);
    MiddleSlice(Data(k, es), Words(rs), EncodeFixed32(|rs| % WORD32), 4 * index, 4 * index + 4);
  }

  lemma MiddleSlice(a: Bytes, b: Bytes, c: Bytes, i: nat, j: nat)
    requires i <= j <= |b|
    ensures (a + b + c)[|a| + i..|a| + j] == b[i..j]
  {
  }

  lemma TailSlice(data: Bytes, from: nat, to: nat, n: nat, i: nat, j: nat)
    requires from <= to <= |data| && n <= to - from && i <= j <= n
    ensures data[to - n + i..to - n + j] == data[from..to][to - from - n..][i..j]
  {
    var tail := data[from..to][to - from - n..];
    assert tail == data[to - n..to];
    assert forall k :: i <= k < j ==> tail[k] == data[to - n + k];
  }

  /** An iterator over a block. It is a cursor over the block's entries: `pos` says where. */
  class BlockIter {
    const cmp: Comparator
    const data: Bytes
    const restarts: nat    // offset of the restart array
    const numRestarts: nat
    var current: nat       // offset of the current entry; that of the restart array when there is none
    var restartIndex: nat
    var key: Bytes
    var valueAt: nat
    var valueLength: nat

    ghost const interval: nat
    ghost const es: seq<Pair>
    ghost var pos: nat     // the current entry; the number of entries when there is none

    ghost predicate Over() {
      && interval > 0 && |data| < WORD32
      && data == BlockBytes(interval, es)
      && restarts == |Data(interval, es)|
      && numRestarts == NumRestarts(interval, |es|)
      && (forall e :: e in es ==> Fits(e))
    }

    ghost function NextEntryOffset(): nat
      reads this
    {
      valueAt + valueLength
    }

    /** The restart index names the block of the current entry, or the one before when the entry is
        the first of its block. */
    ghost predicate RestartNear(i: nat)
      reads this
    {
      && restartIndex < numRestarts && Times(restartIndex, interval) <= i
      && (restartIndex + 1 < numRestarts ==> Times(restartIndex + 1, interval) >= i)
    }

    ghost predicate Valid()
      reads this
    {
      && Over() && pos <= |es|
      && if pos == |es| then current == restarts && restartIndex == numRestarts
         else
           && current == Offset(interval, es, pos) < restarts && key == es[pos].key
           && valueAt <= NextEntryOffset() == Offset(interval, es, pos + 1) <= restarts <= |data|
           && data[valueAt..NextEntryOffset()] == es[pos].value
           && RestartNear(pos)
    }

    constructor (c: Comparator, contents: Bytes, restartOffset: nat, n: nat, ghost k: nat, ghost entries: seq<Pair>)
      requires k > 0 && |contents| < WORD32 && contents == BlockBytes(k, entries)
      requires restartOffset == |Data(k, entries)| && n == NumRestarts(k, |entries|)
      requires forall e :: e in entries ==> Fits(e)
      ensures Valid() && cmp == c && interval == k && es == entries && pos == |es|
    {
      cmp, data, restarts, numRestarts := c, contents, restartOffset, n;
      current, restartIndex, key, valueAt, valueLength := restartOffset, n, [], 0, 0;
      interval, es, pos := k, entries, |entries|;
    }

    function GetRestartPoint(index: nat): (offset: nat)
      requires restarts + 4 * index + 4 <= |data|
    {
      DecodeFixed32(data[restarts + 4 * index..restarts + 4 * index + 4])
    }

    lemma RestartPoint(index: nat)
      requires Over() && index < numRestarts
      ensures restarts + 4 * index + 4 <= |data| && Times(index, interval) <= |es|
      ensures GetRestartPoint(index) == Offset(interval, es, Times(index, interval)) <= restarts
    {
      hide Data, BlockBytes, EncodeFixed32, DecodeFixed32, Times, Offset;
      RestartStored(interval, es, index);
    }

    /** The next entry to parse is entry `i`, and the key it builds on is there. */
    ghost predicate Before(i: nat)
      reads this
    {
      && Over() && i <= |es|
      && NextEntryOffset() == Offset(interval, es, i)
      && (i < |es| && i % interval != 0 ==> i > 0 && key == es[i - 1].key)
      && restartIndex < numRestarts && Times(restartIndex, interval) <= i
    }

    method SeekToRestartPoint(index: nat)
      requires Over() && index < numRestarts
      modifies this
      ensures Before(Times(index, interval)) && restartIndex == index
    {
      RestartPoint(index);
      DivMod(interval, index);
      key := [];
      restartIndex := index;
      valueAt, valueLength := GetRestartPoint(index), 0;
    }
 
    /** Parse the entry after the current one, or find that there is none. The source's report of
        a bad entry has no counterpart: a block that was built has none. */
    method ParseNextKey(ghost i: nat) returns (ok: bool)
      requires Before(i)
      modifies this
      ensures Valid() && pos == i && (ok <==> i < |es|)
      ensures ok ==> NextEntryOffset() == Offset(interval, es, i + 1)
    {
      hide Data, DecodeEntrySpec, BlockBytes, SharedAt, Offset;
      OffsetInRange(interval, es, i);
      current := valueAt + valueLength;
      pos := i;
      if current >= restarts {
        current, restartIndex := restarts, numRestarts;
        return false;
      }
      EntryHere(i);
      var entry := DecodeEntry(data[current..restarts]);
      if entry.None? || |key| < entry.value.0 {
        assert false;
      }
      var (shared, nonShared, length, p) := entry.value;
      key := key[..shared] + p[..nonShared];
      valueAt, valueLength := restarts - |p| + nonShared, length;
      AdvanceRestart(i);
      return true;
    }

    /** Bring the restart index up to the block of the current entry. */
    method AdvanceRestart(ghost i: nat)
      requires Over() && i < |es| && current == Offset(interval, es, i)
      requires restartIndex < numRestarts && Times(restartIndex, interval) <= i
      modifies this`restartIndex
      ensures RestartNear(i)
    {
      hide Over, Offset;
      if restartIndex + 1 < numRestarts {
        RestartOrder(restartIndex + 1, i);
      }
      while restartIndex + 1 < numRestarts && GetRestartPoint(restartIndex + 1) < current
        invariant restartIndex < numRestarts && Times(restartIndex, interval) <= i
        invariant restartIndex + 1 < numRestarts ==>
                    restarts + 4 * (restartIndex + 1) + 4 <= |data| &&
                    (GetRestartPoint(restartIndex + 1) < current <==> Times(restartIndex + 1, interval) < i)
        decreases numRestarts - restartIndex
      {
        restartIndex := restartIndex + 1;
        if restartIndex + 1 < numRestarts {
          RestartOrder(restartIndex + 1, i);
        }
      }
    }

    /** Restart points compare with an entry's offset as their entries do with the entry. */
    lemma RestartOrder(index: nat, i: nat)
      requires Over() && index < numRestarts && i < |es|
      ensures restarts + 4 * index + 4 <= |data|
      ensures GetRestartPoint(index) < Offset(interval, es, i) <==> Times(index, interval) < i
    {
      hide Data, BlockBytes, DecodeFixed32;
      RestartPoint(index);
      var j := Times(index, interval);
      if j < i {
        OffsetsRise(interval, es, j, i);
      } else if i < j {
        OffsetsRise(interval, es, i, j);
      }
    }

    lemma DataIsFront()
      requires Over()
      ensures restarts <= |data| && data[..restarts] == Data(interval, es)
    {
      hide Data;
    }

    /** What is found at the place of entry `i`. */
    lemma EntryHere(i: nat)
      requires Before(i) && i < |es| && current == Offset(interval, es, i)
      ensures current <= restarts <= |data|
      ensures var r := DecodeEntrySpec(data[current..restarts]);
              && r.Some? && r.value.0 <= |key| && r.value.1 + r.value.2 <= |r.value.3| <= restarts
              && key[..r.value.0] + r.value.3[..r.value.1] == es[i].key
              && var at := restarts - |r.value.3| + r.value.1;
                 at + r.value.2 == Offset(interval, es, i + 1) <= restarts && data[at..at + r.value.2] == es[i].value
    {
      hide Data, DecodeEntrySpec, BlockBytes;
      OffsetInRange(interval, es, i);
      DataFrom(current, i);
      var b := data[current..restarts];
      assert es[i] in es;
      EntryRoundTrip(interval, es, i);
      EntryLeavesEnd(b);
      var shared := SharedAt(interval, es, i);
      var p := DecodeEntrySpec(b).value.3;
      var delta, value := es[i].key[shared..], es[i].value;
      assert es[i].key == es[i].key[..shared] + delta;
      FrontParts(p, delta, value);
      var at := restarts - |p| + |delta|;
      TailSlice(data, current, restarts, |p|, |delta|, |delta| + |value|);
    }
 
    method Next()
      requires Valid() && pos < |es|
      modifies this
      ensures Valid() && pos == old(pos) + 1
    {
      hide Data, Offset, BlockBytes;
      var ok := ParseNextKey(pos + 1);
    }

    /** Scan back to a restart point before the current entry, then forward to the entry before. */
    method Prev()
      requires Valid() && pos < |es|
      modifies this
      ensures Valid() && pos == if old(pos) == 0 then |es| else old(pos) - 1
    {
      hide Data, Offset, BlockBytes, Over;
      ghost var i := pos;
      var original := current;
      var found := BackToRestart(original, i);
      if !found {
        pos := |es|;
        return;
      }
      SeekToRestartPoint(restartIndex);
      ghost var j := Times(restartIndex, interval);
      ParseUntil(original, j, i);
    }

    /** Step the restart index back to a restart before the entry `i` at `original`. */
    method BackToRestart(original: nat, ghost i: nat) returns (found: bool)
      requires Over() && restartIndex < numRestarts && Times(restartIndex, interval) <= i < |es|
      requires original == Offset(interval, es, i)
      modifies this`restartIndex, this`current
      ensures if found then restartIndex < numRestarts && 0 <= Times(restartIndex, interval) < i
              else i == 0 && current == restarts && restartIndex == numRestarts
    {
      hide Data, Offset, BlockBytes, Over;
      RestartOrder(restartIndex, i);
      while GetRestartPoint(restartIndex) >= original
        invariant Over() && restartIndex < numRestarts && Times(restartIndex, interval) <= i < |es|
        invariant restarts + 4 * restartIndex + 4 <= |data|
        invariant GetRestartPoint(restartIndex) < original <==> Times(restartIndex, interval) < i
        decreases restartIndex
      {
        if restartIndex == 0 {
          // no more entries
          current, restartIndex := restarts, numRestarts;
          return false;
        }
        restartIndex := restartIndex - 1;
        RestartOrder(restartIndex, i);
      }
      IntervalPositive(restartIndex);
      return true;
    }

    lemma IntervalPositive(r: nat)
      requires Over()
      ensures interval > 0 && Times(r, interval) >= 0
    {
      hide Data, BlockBytes;
    }

    /** Parse on from entry `j` until the end of the current entry is the start of entry `i`. */
    method ParseUntil(original: nat, ghost from: nat, ghost i: nat)
      requires Before(from) && from < i < |es| && original == Offset(interval, es, i)
      modifies this
      ensures Valid() && pos == i - 1
    {
      hide Data, Offset, BlockBytes, Over, RestartNear;
      ghost var j := from;
      IntervalPositive(0);
      var ok := ParseNextKey(j);
      if j + 1 < i { OffsetsRise(interval, es, j + 1, i); }
      while ok && valueAt + valueLength < original
        invariant Valid() && ok && pos == j < i < |es|
        invariant valueAt + valueLength < original <==> j + 1 < i
        decreases i - j
      {
        j := j + 1;
        NextIsBefore();
        ok := ParseNextKey(j);
        if j + 1 < i { OffsetsRise(interval, es, j + 1, i); }
      }
    }

    lemma NextIsBefore()
      requires Valid() && pos < |es|
      ensures Before(pos + 1)
    {
      hide Data, BlockBytes, Over, Offset;
    }

    /** Binary search for the last restart point with a key before the target, then a scan for the
        first key that is not: the same entry as a scan of the whole block finds. */
    method Seek(target: Bytes)
      requires Valid() && Increasing(cmp, es)
      modifies this
      ensures Valid() && pos <= |es| && IsLowerBound(cmp, es, target, pos)
    {
      hide Data, Offset, BlockBytes;
      var left := FindRestart(target);
      SeekToRestartPoint(left);
      ghost var j := Times(left, interval);
      BeforeAllSmaller(left, target);
      while true
        invariant Before(j)
        invariant forall i :: 0 <= i < j ==> cmp(es[i].key) < cmp(target)
        decreases |es| - j
      {
        var ok := ParseNextKey(j);
        if !ok {
          return;
        }
        if cmp(key) >= cmp(target) {
          return;
        }
        j := j + 1;
      }
    }

    lemma BeforeAllSmaller(left: nat, target: Bytes)
      requires Over() && Increasing(cmp, es) && left < numRestarts
      requires left > 0 ==> RestartBelow(left, target)
      ensures Times(left, interval) <= |es| && forall i :: 0 <= i < Times(left, interval) ==> cmp(es[i].key) < cmp(target)
    {
      hide Data, BlockBytes;
      RestartInRange(interval, |es|, left);
    }

    /** The entry at restart `r` is before the target. */
    ghost predicate RestartBelow(r: nat, target: Bytes) {
      0 <= Times(r, interval) < |es| && cmp(es[Times(r, interval)].key) < cmp(target)
    }

    method FindRestart(target: Bytes) returns (left: nat)
      requires Over() && Increasing(cmp, es)
      ensures left < numRestarts
      ensures left > 0 ==> RestartBelow(left, target)
      ensures left + 1 < numRestarts ==> !RestartBelow(left + 1, target)
    {
      hide Data, Offset, BlockBytes, DecodeEntrySpec, RestartBelow, Increasing, Over, From;
      left := 0;
      LastRestart();
      var right := numRestarts - 1;
      while left < right
        invariant left <= right < numRestarts
        invariant left > 0 ==> RestartBelow(left, target)
        invariant right + 1 < numRestarts ==> !RestartBelow(right + 1, target)
      {
        var mid := (left + right + 1) / 2;
        RestartPoint(mid);
        KeyAtRestart(mid, target);
        DataFrom(GetRestartPoint(mid), Times(mid, interval));
        var entry := DecodeEntry(data[GetRestartPoint(mid)..restarts]);
        if entry.None? || entry.value.0 != 0 {
          assert false;
        }
        var (_, nonShared, _, p) := entry.value;
        if cmp(p[..nonShared]) < cmp(target) {
          left := mid;
        } else {
          right := mid - 1;
        }
      }
    }

    lemma KeyAtRestart(r: nat, target: Bytes)
      requires Over() && 0 < r < numRestarts
      ensures 0 <= Times(r, interval) < |es|
      ensures var e := DecodeEntrySpec(From(interval, es, Times(r, interval)));
              && e.Some? && e.value.0 == 0 && e.value.1 <= |e.value.3|
              && (cmp(e.value.3[..e.value.1]) < cmp(target) <==> RestartBelow(r, target))
    {
      hide Data, Offset, BlockBytes, DecodeEntrySpec, From;
      RestartInRange(interval, |es|, r);
      var i := Times(r, interval);
      assert es[i] in es;
      EntryRoundTrip(interval, es, i);
      var p := DecodeEntrySpec(From(interval, es, i)).value.3;
      assert es[i].key[0..] == es[i].key;
      assert p[..|es[i].key|] == (es[i].key + es[i].value)[..|es[i].key|] == es[i].key;
    }

    /** The bytes an entry is decoded from. */
    lemma DataFrom(off: nat, i: nat)
      requires Over() && i <= |es| && off == Offset(interval, es, i)
      ensures off <= restarts <= |data| && data[off..restarts] == From(interval, es, i)
    {
      hide Data, BlockBytes;
      OffsetInRange(interval, es, i);
      DataIsFront();
      assert data[..restarts][off..] == data[off..restarts];
    }

    method SeekToFirst()
      requires Valid()
      modifies this
      ensures Valid() && pos == 0
    {
      hide Data, Offset, BlockBytes;
      SeekToRestartPoint(0);
      var ok := ParseNextKey(0);
    }

    method SeekToLast()
      requires Valid()
      modifies this
      ensures Valid() && pos == (if es == [] then 0 else |es| - 1)
    {
      hide Data, Offset, BlockBytes;
      SeekToRestartPoint(numRestarts - 1);
      ghost var j := Times(numRestarts - 1, interval);
      LastRestart();
      OffsetInRange(interval, es, |es|);
      var ok := ParseNextKey(j);
      if j + 1 <= |es| { OffsetInRange(interval, es, j + 1); }
      while ok && valueAt + valueLength < restarts
        invariant Valid() && pos == j <= |es| && (ok <==> j < |es|)
        invariant ok ==> (valueAt + valueLength < restarts <==> j + 1 < |es|)
        invariant !ok ==> es == []
        decreases |es| - j
      {
        j := j + 1;
        ok := ParseNextKey(j);
        if j + 1 <= |es| { OffsetInRange(interval, es, j + 1); }
      }
    }

    lemma LastRestart()
      requires Over()
      ensures numRestarts > 0 && 0 <= Times(numRestarts - 1, interval)
      ensures if es == [] then Times(numRestarts - 1, interval) == 0 else Times(numRestarts - 1, interval) < |es|
    {
      hide Data, BlockBytes;
      RestartInRange(interval, |es|, numRestarts - 1);
    }

    method Key() returns (k: Bytes)
      requires Valid() && pos < |es|
      ensures k == es[pos].key
    {
      k := key;
    }

    method Value() returns (v: Bytes)
      requires Valid() && pos < |es|
      ensures v == es[pos].value
    {
      v := data[valueAt..valueAt + valueLength];
    }

    method IsValid() returns (b: bool)
      requires Valid()
      ensures pos <= |es| && (b <==> pos < |es|)
    {
      b := current < restarts;
    }
  }

  /** A parsed block: where its restart array starts, or no size when the trailer makes no sense. */
  class Block {
    const data: Bytes
    const size: nat
    const restartOffset: nat

    constructor (contents: Bytes)
      ensures data == contents
      ensures IsParsed()
    {
      var n, offset := |contents|, 0;
      if n < 4 {
        n := 0;
      } else {
        var maxRestartsAllowed := (n - 4) / 4;
        if TrailerCount(contents) > maxRestartsAllowed {
          n := 0;
        } else {
          offset := n - (1 + TrailerCount(contents)) * 4;
        }
      }
      data, size, restartOffset := contents, n, offset;
    }

    /** The size is that of the data, or zero when there is no room for as many restarts as it says. */
    ghost predicate IsParsed() {
      && size == (if |data| < 4 || 4 * TrailerCount(data) > |data| - 4 then 0 else |data|)
      && (size > 0 ==> restartOffset == |data| - 4 * (1 + TrailerCount(data)))
    }

    /** An iterator over the block; none when the block is bad or has no restart. */
    method NewIterator(cmp: Comparator, ghost k: nat, ghost es: seq<Pair>) returns (it: BlockIter?)
      requires k > 0 && data == BlockBytes(k, es) && |data| < WORD32 && (forall e :: e in es ==> Fits(e))
      requires IsParsed()
      ensures it != null && fresh(it) && it.Valid() && it.cmp == cmp && it.es == es && it.pos == |es|
    {
      hide Data, Restarts, EncodeFixed32, DecodeFixed32;
      TrailerOfBlock(k, es);
      if size < 4 {
        return null;
      }
      var numRestarts := TrailerCount(data);
      if numRestarts == 0 {
        return null;
      }
      it := new BlockIter(cmp, data, restartOffset, numRestarts, k, es);
    }
  }

  /** The number of restarts a block's last word gives. */
  function TrailerCount(contents: Bytes): nat {
    if |contents| < 4 then 0 else DecodeFixed32(contents[|contents| - 4..])
  }

  lemma TrailerOfBlock(k: nat, es: seq<Pair>)
    requires k > 0 && |BlockBytes(k, es)| < WORD32
    ensures TrailerCount(BlockBytes(k, es)) == NumRestarts(k, |es|)
    ensures |BlockBytes(k, es)| == |Data(k, es)| + 4 * NumRestarts(k, |es|) + 4
  {
    hide Data, EncodeFixed32, DecodeFixed32, NumRestarts, Restarts, Words;
    var n := EncodeFixed32(|Restarts(k, es)| % WORD32);
    Suffix(Data(k, es) + Words(Restarts(k, es)), n);
  }

  lemma Suffix(a: Bytes, b: Bytes)
    ensures (a + b)[|a + b| - |b|..] == b
  {
  }

  /** `found` is the first entry at or after `target`, if there is one. */
  ghost predicate Finds(c: Comparator, es: seq<Pair>, target: Bytes, found: Option<Pair>) {
    exists i: nat :: IsLowerBound(c, es, target, i) && found == if i < |es| then Some(es[i]) else None
  }

  method BuildBlock(k: nat, es: seq<Pair>) returns (contents: Bytes)
    requires k > 0
    ensures contents == BlockBytes(k, es)
  {
    hide BlockBytes, BlockBuilder.Valid;
    var builder := new BlockBuilder(k);
    for i := 0 to |es|
      invariant builder.Valid() && !builder.finished && builder.entries == es[..i] && builder.interval == k
    {
      builder.Add(es[i].key, es[i].value);
    }
    assert es[..|es|] == es;
    contents := builder.Finish();
  }

  /** A block built from any strictly increasing list reads back as that list, and a search in it
      finds the first key at or after the target. */
  method BuildAndRead(cmp: Comparator, k: nat, es: seq<Pair>, target: Bytes) returns (out: seq<Pair>, found: Option<Pair>)
    requires k > 0 && Increasing(cmp, es) && |BlockBytes(k, es)| < WORD32 && forall e :: e in es ==> Fits(e)
    ensures out == es
    ensures Finds(cmp, es, target, found)
  {
    hide BlockBytes, Fits, TrailerCount, BlockIter.Valid, Increasing, IsLowerBound, Finds;
    var contents := BuildBlock(k, es);
    var block := new Block(contents);
    TrailerOfBlock(k, es);
    var it := block.NewIterator(cmp, k, es);
    out := ReadAll(it);
    it.Seek(target);
    var valid := it.IsValid();
    found := None;
    if valid {
      var key := it.Key();
      var value := it.Value();
      found := Some(Pair(key, value));
    }
    FoundAt(cmp, es, target, it.pos, found);
  }

  lemma FoundAt(c: Comparator, es: seq<Pair>, target: Bytes, i: nat, found: Option<Pair>)
    requires IsLowerBound(c, es, target, i) && found == if i < |es| then Some(es[i]) else None
    ensures Finds(c, es, target, found)
  {
  }

  method ReadAll(it: BlockIter) returns (out: seq<Pair>)
    requires it.Valid()
    modifies it
    ensures it.Valid() && out == it.es
  {
    hide BlockIter.Valid;
    out := [];
    it.SeekToFirst();
    var valid := it.IsValid();
    while valid
      invariant it.Valid() && it.pos <= |it.es| && out == it.es[..it.pos] && (valid <==> it.pos < |it.es|)
      decreases |it.es| - it.pos
    {
      var key := it.Key();
      var value := it.Value();
      out := out + [Pair(key, value)];
      it.Next();
      valid := it.IsValid();
    }
  }

  /** Going on and coming back, or back and on again, shows the same entry at the end as at the start,
      though going back builds its key anew from the last restart. */
  method ThereAndBack(it: BlockIter, forth: bool) returns (before: Pair, after: Pair)
    requires it.Valid() && it.pos < |it.es| && (if forth then it.pos + 1 < |it.es| else it.pos > 0)
    modifies it
    ensures it.Valid() && it.pos == old(it.pos) && before == after == it.es[it.pos]
  {
    hide BlockIter.Valid;
    before := Show(it);
    if forth {
      it.Next();
      it.Prev();
    } else {
      it.Prev();
      it.Next();
    }
    after := Show(it);
  }

  method Show(it: BlockIter) returns (e: Pair)
    requires it.Valid() && it.pos < |it.es|
    ensures e == it.es[it.pos]
  {
    hide BlockIter.Valid;
    var key := it.Key();
    var value := it.Value();
    e := Pair(key, value);
  }
}
