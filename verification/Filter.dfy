/** Bloom filters, and the block of a table that keeps one for every 2 KB of data. */
module Filters {
  import opened Keys
  import opened Bits
  import opened Coding

  /** The hash function; nothing depends on which it is. */
  type Hash = Bytes -> Word32

  // ----- Bits in bytes -----

  function SetBit(b: Byte, i: nat): Byte
    requires i < 8
  {
    assert Power2(8) == 256;
    WithBitFits(b, i, 8);
    WithBit(b, i)
  }

  // ----- Bloom filters -----

  predicate BitSet(bits: Bytes, pos: nat)
    requires pos < 8 * |bits|
  {
    HasBit(bits[pos / 8], pos % 8)
  }

  /** Rotate right by 17 bits. */
  function Delta(h: Word32): Word32 {
    h / 0x2_0000 + h % 0x2_0000 * 0x8000
  }

  /** The `j`-th hash of a key, by double hashing. */
  function Probe(h: Word32, j: nat): Word32 {
    if j == 0 then h else (Probe(h, j - 1) + Delta(h)) % WORD32
  }

  /** The first `k` probes of a key find their bits set. */
  predicate Has(h: Word32, bits: Bytes, k: nat)
    requires bits != []
  {
    forall j :: 0 <= j < k ==> BitSet(bits, Probe(h, j) % (8 * |bits|))
  }

  /** The filter lets the key through. Its last byte says how many probes it was built with; more
      than 30 are a reserved encoding. */
  predicate MayMatch(hash: Hash, key: Bytes, filter: Bytes) {
    |filter| >= 2 &&
    var k := filter[|filter| - 1];
    k > 30 || Has(hash(key), filter[..|filter| - 1], k)
  }

  /** Bits once set stay set. */
  ghost predicate Covers(more: Bytes, bits: Bytes) {
    |more| == |bits| && forall p :: 0 <= p < 8 * |bits| && BitSet(bits, p) ==> BitSet(more, p)
  }

  lemma HasGrows(h: Word32, bits: Bytes, more: Bytes, k: nat)
    requires bits != [] && Covers(more, bits) && Has(h, bits, k)
    ensures Has(h, more, k)
  {
  }

  lemma SetCovers(bits: Bytes, p: nat)
    requires p < 8 * |bits|
    ensures var more := bits[p / 8 := SetBit(bits[p / 8], p % 8)]; Covers(more, bits) && BitSet(more, p)
  {
    hide HasBit, WithBit;
    var more := bits[p / 8 := SetBit(bits[p / 8], p % 8)];
    WithBitHas(bits[p / 8], p % 8, p % 8);
    forall q | 0 <= q < 8 * |bits| && BitSet(bits, q)
      ensures BitSet(more, q)
    {
      WithBitHas(bits[p / 8], p % 8, q % 8);
    }
  }

  lemma StartOfKey(h: Word32, bits: Bytes)
    requires bits != []
    ensures Covers(bits, bits) && Has(h, bits, 0) && Probe(h, 0) == h
  {
  }

  lemma OneMoreBit(h: Word32, first: Bytes, bits: Bytes, more: Bytes, j: nat)
    requires bits != [] && Covers(bits, first) && Covers(more, bits) && Has(h, bits, j)
    requires BitSet(more, Probe(h, j) % (8 * |more|))
    ensures Covers(more, first) && Has(h, more, j + 1) && Probe(h, j + 1) == (Probe(h, j) + Delta(h)) % WORD32
  {
    hide BitSet, Delta;
    HasGrows(h, bits, more, j);
  }

  class BloomFilterPolicy {
    const hash: Hash
    const bitsPerKey: nat
    const k: Byte

    ghost predicate Ok() {
      1 <= k <= 30
    }

    constructor (h: Hash, bits: nat)
      ensures Ok() && hash == h && bitsPerKey == bits
    {
      hash, bitsPerKey := h, bits;
      // rounded down, to reduce probing cost a little
      var probes := (bits as real * 0.69).Floor;
      k := if probes < 1 then 1 else if probes > 30 then 30 else probes;
    }

    /** Append a filter that lets all the keys through. */
    method CreateFilter(keys: seq<Bytes>, dst: Bytes) returns (dst': Bytes)
      requires Ok()
      ensures dst <= dst' && forall key :: key in keys ==> MayMatch(hash, key, dst'[|dst|..])
    {
      hide BitSet, Probe;
      var bits := |keys| * bitsPerKey;
      // a minimum length against a high false positive rate for few keys
      if bits < 64 {
        bits := 64;
      }
      var bytes := (bits + 7) / 8;
      var bloom := Zeros(bytes);
      for i := 0 to |keys|
        invariant |bloom| == bytes > 0
        invariant forall m :: 0 <= m < i ==> Has(hash(keys[m]), bloom, k)
      {
        ghost var before := bloom;
        bloom := AddKey(bloom, hash(keys[i]));
        forall m | 0 <= m < i
          ensures Has(hash(keys[m]), bloom, k)
        {
          HasGrows(hash(keys[m]), before, bloom, k);
        }
      }
      dst' := dst + bloom + [k];
      assert dst'[|dst|..] == bloom + [k] && (bloom + [k])[..|bloom|] == bloom;
    }

    /** Set the bits of one key. */
    method AddKey(bloom: Bytes, h0: Word32) returns (bits: Bytes)
      requires bloom != []
      ensures Covers(bits, bloom) && Has(h0, bits, k)
    {
      hide BitSet, SetBit, HasBit, Delta, Covers, Probe, Has;
      StartOfKey(h0, bloom);
      bits := bloom;
      var h: Word32 := h0;
      var delta := Delta(h0);
      for j := 0 to k
        invariant |bits| == |bloom| && Covers(bits, bloom) && h == Probe(h0, j) && Has(h0, bits, j)
      {
        var pos := h % (8 * |bits|);
        SetCovers(bits, pos);
        ghost var before := bits;
        bits := bits[pos / 8 := SetBit(bits[pos / 8], pos % 8)];
        OneMoreBit(h0, bloom, before, bits, j);
        h := (h + delta) % WORD32;
      }
    }

    method KeyMayMatch(key: Bytes, filter: Bytes) returns (r: bool)
      ensures r == MayMatch(hash, key, filter)
    {
      hide BitSet, Delta;
      if |filter| < 2 {
        return false;
      }
      var bits := filter[..|filter| - 1];
      var n := filter[|filter| - 1];
      if n > 30 {
        return true;
      }
      var h: Word32 := hash(key);
      var delta := Delta(h);
      for j := 0 to n
        invariant h == Probe(hash(key), j)
        invariant forall m :: 0 <= m < j ==> BitSet(bits, Probe(hash(key), m) % (8 * |bits|))
      {
        if !BitSet(bits, h % (8 * |bits|)) {
          return false;
        }
        h := (h + delta) % WORD32;
      }
      return true;
    }
  }

  // ----- The filter block -----

  const BASE_LG: Byte := 11
  const BASE: nat := 0x800

  class FilterBlockBuilder {
    const policy: BloomFilterPolicy
    var keys: Bytes            // keys not yet in a filter, one after another
    var start: seq<nat>        // where each begins
    var result: Bytes          // the filters so far
    var filterOffsets: seq<nat>

    ghost var pending: seq<Bytes>
    ghost var offset: nat                  // of the block the keys being added are in
    ghost var added: set<(nat, Bytes)>     // every key added, with its block's offset

    ghost predicate Filed(index: nat, key: Bytes)
      reads this
    {
      index < |filterOffsets| && filterOffsets[index] <= FilterEnd(index) <= |result| &&
      MayMatch(policy.hash, key, result[filterOffsets[index]..FilterEnd(index)])
    }

    /** Where filter `index` ends: where the next begins. */
    ghost function FilterEnd(index: nat): nat
      reads this
    {
      if index + 1 < |filterOffsets| then filterOffsets[index + 1] else |result|
    }

    /** Each key added is filed under its block's offset, or waits to be. */
    ghost predicate Valid()
      reads this
    {
      && policy.Ok()
      && keys == Joined(pending) && |start| == |pending|
      && (forall i :: 0 <= i < |start| ==> start[i] == End(pending, i))
      && (forall i, j :: 0 <= i < j < |filterOffsets| ==> filterOffsets[i] <= filterOffsets[j])
      && (forall i :: 0 <= i < |filterOffsets| ==> filterOffsets[i] <= |result|)
      && offset / BASE == |filterOffsets|
      && forall a :: a in added ==> Filed(a.0 / BASE, a.1) || (a.0 / BASE == |filterOffsets| && a.1 in pending)
    }

    constructor (p: BloomFilterPolicy)
      requires p.Ok()
      ensures Valid() && policy == p && added == {} && offset == 0
    {
      policy, keys, start, result, filterOffsets := p, [], [], [], [];
      pending, offset, added := [], 0, {};
    }

    /** A block begins at `blockOffset`. */
    method StartBlock(blockOffset: nat)
      requires Valid() && offset <= blockOffset
      modifies this
      ensures Valid() && added == old(added) && offset == blockOffset
    {
      hide MayMatch;
      var filterIndex := blockOffset / BASE;
      while filterIndex > |filterOffsets|
        invariant Valid() && added == old(added) && |filterOffsets| <= filterIndex
        decreases filterIndex - |filterOffsets|
      {
        GenerateFilter();
      }
      offset := blockOffset;
    }

    method AddKey(key: Bytes)
      requires Valid()
      modifies this
      ensures Valid() && added == old(added) + {(offset, key)} && offset == old(offset)
    {
      hide MayMatch;
      start := start + [|keys|];
      keys := keys + key;
      JoinedOne(pending, key);
      forall i | 0 <= i <= |pending|
        ensures End(pending + [key], i) == End(pending, i)
      {
        assert (pending + [key])[..i] == pending[..i];
      }
      assert pending[..|pending|] == pending;
      pending := pending + [key];
      added := added + {(offset, key)};
    }

    /** The keys that wait, taken apart again. */
    method TakeKeys() returns (tmpKeys: seq<Bytes>)
      requires Valid()
      ensures tmpKeys == pending
    {
      hide MayMatch, Filed, FilterEnd;
      var ends := start + [|keys|];
      assert pending[..|pending|] == pending;
      tmpKeys := [];
      for i := 0 to |start|
        invariant tmpKeys == pending[..i]
      {
        PartIsStretch(pending, i);
        tmpKeys := tmpKeys + [keys[ends[i]..ends[i + 1]]];
      }
    }

    /** Make the filter of the keys that wait, if any, and append it. */
    method GenerateFilter()
      requires Valid()
      modifies this
      ensures Valid() && added == old(added)
      ensures |filterOffsets| == |old(filterOffsets)| + 1 && pending == []
    {
      hide MayMatch;
      if |start| == 0 {
        filterOffsets := filterOffsets + [|result|];
        offset := |filterOffsets| * BASE;
        return;
      }
      var tmpKeys := TakeKeys();
      filterOffsets := filterOffsets + [|result|];
      result := policy.CreateFilter(tmpKeys, result);
      ghost var old_result := old(result);
      assert result[|old_result|..] == result[|old_result|..|result|];
      forall a, b | 0 <= a <= b <= |old_result|
        ensures result[a..b] == old_result[a..b]
      {
        assert result[a..b] == result[..|old_result|][a..b];
      }
      keys, start, pending := [], [], [];
      offset := |filterOffsets| * BASE;
    }
 
    method Finish() returns (contents: Bytes)
      requires Valid()
      modifies this
      ensures contents == FilterBytes(result, filterOffsets) && Valid() && added == old(added) && pending == []
    {
      hide MayMatch, EncodeFixed32, Filed, FilterEnd;
      if |start| > 0 {
        GenerateFilter();
      }
      contents := result;
      for i := 0 to |filterOffsets|
        invariant contents == result + Words(filterOffsets[..i])
      {
        assert filterOffsets[..i + 1][..i] == filterOffsets[..i];
        contents := contents + EncodeFixed32(filterOffsets[i] % WORD32);
      }
      assert filterOffsets[..|filterOffsets|] == filterOffsets;
      contents := contents + EncodeFixed32(|result| % WORD32);
      contents := contents + [BASE_LG];
    }
  }

  /** The filter block: the filters, where each begins, where that array begins, and its base. */
  function FilterBytes(result: Bytes, offsets: seq<nat>): Bytes {
    result + Words(offsets) + EncodeFixed32(|result| % WORD32) + [BASE_LG]
  }

  /** A filter block opened for reading. */
  datatype FilterBlockReader = FilterBlockReader(hash: Hash, data: Bytes, offsetAt: nat, num: nat, baseLg: Byte) {

    static function Open(hash: Hash, contents: Bytes): FilterBlockReader {
      var n := |contents|;
      if n < 5 then FilterBlockReader(hash, [], 0, 0, 0)
      else
        var lastWord := DecodeFixed32(contents[n - 5..]);
        if lastWord > n - 5 then FilterBlockReader(hash, [], 0, 0, contents[n - 1])
        else FilterBlockReader(hash, contents, lastWord, (n - 5 - lastWord) / 4, contents[n - 1])
    }

    /** Whether the filter of the block at `blockOffset` lets the key through; errors do. */
    predicate KeyMayMatch(blockOffset: nat, key: Bytes) {
      var at := offsetAt + 4 * FilterIndex(blockOffset, baseLg);
      FilterIndex(blockOffset, baseLg) < num && at + 8 <= |data| ==>
        var start, limit := WordFrom(data, at), WordFrom(data, at + 4);
        if start <= limit && limit <= offsetAt && limit <= |data| then MayMatch(hash, key, data[start..limit]) else start != limit
    }
  }

  function FilterIndex(blockOffset: nat, baseLg: Byte): nat {
    Quotient(blockOffset, Power2(baseLg))
  }

  function Quotient(a: nat, b: nat): nat
    requires b > 0
  {
    a / b
  }

  function WordFrom(data: Bytes, at: nat): Word32
    requires at + 4 <= |data|
  {
    DecodeFixed32(data[at..])
  }

  /** Every key added may match at the offset of the block it was added in. */
  lemma AddedMayMatch(builder: FilterBlockBuilder, contents: Bytes, offset: nat, key: Bytes)
    requires builder.Valid() && builder.pending == [] && (offset, key) in builder.added
    requires contents == FilterBytes(builder.result, builder.filterOffsets) && |contents| < WORD32
    ensures FilterBlockReader.Open(builder.policy.hash, contents).KeyMayMatch(offset, key)
  {
    hide MayMatch, EncodeFixed32, DecodeFixed32;
    assert Power2(11) == BASE;
    var result, offsets := builder.result, builder.filterOffsets;
    var index := offset / BASE;
    assert builder.Filed(index, key);
    FilterFields(result, offsets, index);
    var reader := FilterBlockReader.Open(builder.policy.hash, contents);
    var from, to := offsets[index], builder.FilterEnd(index);
    assert reader.num == |offsets| && reader.baseLg == BASE_LG && reader.data == contents;
    assert contents[from..to] == contents[..|result|][from..to];
  }

  /** What the reader finds in a filter block. */
  lemma FilterFields(result: Bytes, offsets: seq<nat>, index: nat)
    requires index < |offsets| && |FilterBytes(result, offsets)| < WORD32 && forall o :: o in offsets ==> o <= |result|
    ensures var b, n := FilterBytes(result, offsets), |result| + 4 * |offsets| + 5;
            && |b| == n && b[n - 1] == BASE_LG && DecodeFixed32(b[n - 5..]) == |result|
            && b[..|result|] == result
            && DecodeFixed32(b[|result| + 4 * index..]) == offsets[index]
            && DecodeFixed32(b[|result| + 4 * index + 4..]) == (if index + 1 < |offsets| then offsets[index + 1] else |result|)
  {
    hide EncodeFixed32, DecodeFixed32;
    var b, n := FilterBytes(result, offsets), |result| + 4 * |offsets| + 5;
    var size := EncodeFixed32(|result| % WORD32);
    WordIn(b, n - 5, |result|, size);
    assert offsets[index] in offsets;
    OffsetIn(result, offsets, index);
    if index + 1 < |offsets| {
      assert offsets[index + 1] in offsets;
      OffsetIn(result, offsets, index + 1);
    }
  }

  lemma OffsetIn(result: Bytes, offsets: seq<nat>, index: nat)
    requires index < |offsets| && |FilterBytes(result, offsets)| < WORD32 && offsets[index] <= |result|
    ensures DecodeFixed32(FilterBytes(result, offsets)[|result| + 4 * index..]) == offsets[index]
  {
    hide EncodeFixed32, DecodeFixed32;
    var b := FilterBytes(result, offsets);
    var at := |result| + 4 * index;
    WordAt(offsets, index);
    assert b[at..at + 4] == Words(offsets)[4 * index..4 * index + 4];
    WordIn(b, at, offsets[index], EncodeFixed32(offsets[index] % WORD32));
  }

  lemma WordIn(b: Bytes, at: nat, v: Word32, word: Bytes)
    requires at + 4 <= |b| && word == EncodeFixed32(v) && b[at..at + 4] == word
    ensures DecodeFixed32(b[at..]) == v
  {
    assert forall i :: 0 <= i < 4 ==> b[at..][i] == b[at..at + 4][i];
  }
}
