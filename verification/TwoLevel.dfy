/** Reading a table: opening it, walking it with an iterator over its index and one over the current
    block, and looking up single keys. */
module TableReaders {
  import opened Keys
  import opened Cursor
  import opened Coding
  import opened Blocks
  import opened Comparators
  import opened Filters
  import opened Tables
  import Log

  // ----- Where entries are -----

  /** The index key of a block is at or after all entries up to the block's end and before all
      later ones. */
  lemma SepSplits(l: Layout, es: seq<Pair>, b: nat)
    requires Indexed(l, es) && GoodKeys(es) && b < |l.seps| && End(l.blocks, b + 1) <= |es|
    ensures forall j :: 0 <= j < End(l.blocks, b + 1) ==> InternalRank(es[j].key) <= InternalRank(l.seps[b])
    ensures forall j :: End(l.blocks, b + 1) <= j < |es| ==> InternalRank(l.seps[b]) < InternalRank(es[j].key)
  {
    hide InternalRank, BytesBefore;
    assert SplitsAt(es, l.seps[b], End(l.blocks, b + 1));
  }

  lemma IndexIncreases(l: Layout, es: seq<Pair>)
    requires Indexed(l, es) && GoodKeys(es) && Joined(l.blocks) == es && |l.seps| == |l.blocks| == |l.handles|
    requires forall b :: b in l.blocks ==> b != []
    ensures Increasing(InternalRank, IndexEntries(l.seps, l.handles))
  {
    hide InternalRank, Indexed, GoodKeys;
    forall i, j | 0 <= i < j < |l.seps|
      ensures InternalRank(l.seps[i]) < InternalRank(l.seps[j])
    {
      PartIsStretch(l.blocks, i);
      PartIsStretch(l.blocks, j);
      SepSplits(l, es, i);
      SepSplits(l, es, j);
      EndsRise(l.blocks, i + 1, j + 1);
      var e := es[End(l.blocks, i + 1)];
    }
  }

  /** A search that starts in the block whose index key is the first at or after the target finds
      the first entry at or after it, or is at that block's end when that is the next block's first. */
  lemma SeekLands(l: Layout, es: seq<Pair>, target: Bytes, b: nat, p: nat)
    requires Indexed(l, es) && GoodKeys(es) && Joined(l.blocks) == es && |l.seps| == |l.blocks| == |l.handles|
    requires IsLowerBound(InternalRank, IndexEntries(l.seps, l.handles), target, b)
    requires b < |l.blocks| ==> IsLowerBound(InternalRank, l.blocks[b], target, p)
    ensures IsLowerBound(InternalRank, es, target, if b == |l.blocks| then |es| else End(l.blocks, b) + p)
  {
    hide InternalRank, Indexed, GoodKeys;
    assert l.blocks[..|l.blocks|] == l.blocks;
    if b > 0 {
      PartIsStretch(l.blocks, b - 1);
      SepSplits(l, es, b - 1);
      assert IndexEntries(l.seps, l.handles)[b - 1].key == l.seps[b - 1];
    }
    if b < |l.blocks| {
      PartIsStretch(l.blocks, b);
      SepSplits(l, es, b);
      assert IndexEntries(l.seps, l.handles)[b].key == l.seps[b];
      assert forall i :: 0 <= i < |l.blocks[b]| ==> es[End(l.blocks, b) + i] == l.blocks[b][i];
    }
  }

  // ----- Opening a table -----

  /** Read a block and check its checksum if asked to. */
  method ReadBlock(crc: Log.Crc, file: Bytes, h: Handle, verify: bool, ghost stored: Bytes) returns (r: Option<Bytes>)
    ensures RawAt(crc, file, h, stored) ==> r == Some(stored)
  {
    hide EncodeFixed32, DecodeFixed32, Log.Mask, Log.Unmask;
    var n := h.size;
    var start := if h.offset < |file| then h.offset else |file|;
    var end := if h.offset + n + TRAILER_SIZE < |file| then h.offset + n + TRAILER_SIZE else |file|;
    var contents := if start <= end then file[start..end] else [];
    if |contents| != n + TRAILER_SIZE {
      return None;
    }
    ghost var there := RawAt(crc, file, h, stored);
    if there {
      RawParts(crc, stored);
    }
    if verify {
      var expected := Log.Unmask(DecodeFixed32(contents[n + 1..]));
      var actual := crc(contents[..n + 1]);
      if actual != expected {
        return None;
      }
    }
    if contents[n] != 0 {
      return None;
    }
    return Some(contents[..n]);
  }

  lemma RawParts(crc: Log.Crc, contents: Bytes)
    ensures var b, n := RawBlock(crc, contents), |contents|;
            && b[..n] == contents && b[n] == 0 && b[..n + 1] == contents + [0]
            && Log.Unmask(DecodeFixed32(b[n + 1..])) == crc(b[..n + 1])
  {
    hide EncodeFixed32, DecodeFixed32, Log.Mask, Log.Unmask;
    var sum := crc(contents + [0]);
    var b := RawBlock(crc, contents);
    assert b[|contents| + 1..] == EncodeFixed32(Log.Mask(sum));
    assert b[..|contents| + 1] == contents + [0];
    Log.UnmaskUndoesMask(sum);
  }

  lemma FooterParts(file: Bytes, meta: Handle, index: Handle)
    requires |file| >= FOOTER_SIZE && FooterBytes(meta, index) <= file[|file| - FOOTER_SIZE..]
    requires meta.offset < WORD64 && meta.size < WORD64 && index.offset < WORD64 && index.size < WORD64
    ensures var f := file[|file| - FOOTER_SIZE..];
            && f == FooterBytes(meta, index)
            && DecodeFixed32(f[40..44]) == MAGIC % WORD32 && DecodeFixed32(f[44..]) == MAGIC / WORD32
            && DecodeHandle(f).Some? && DecodeHandle(f).value.0 == meta
            && DecodeHandle(DecodeHandle(f).value.1).Some? && DecodeHandle(DecodeHandle(f).value.1).value.0 == index
  {
    hide EncodeFixed32, DecodeFixed32, EncodeHandle, DecodeHandle;
    FooterSize(meta, index);
    var f := FooterBytes(meta, index);
    assert file[|file| - FOOTER_SIZE..] == f;
    var a, b := EncodeHandle(meta), EncodeHandle(index);
    var lo, hi := EncodeFixed32(MAGIC % WORD32), EncodeFixed32(MAGIC / WORD32);
    var padding := Zeros(40 - |a + b|);
    assert f[40..44] == lo && f[44..] == hi;
    var tail := padding + lo + hi;
    assert f == a + (b + tail);
    HandleRoundTrip(meta, b + tail);
    HandleRoundTrip(index, tail);
  }

  class Table {
    const crc: Log.Crc
    const file: Bytes
    const verify: bool
    const indexBlock: Block
    ghost const interval: nat
    ghost const layout: Layout
    ghost const es: seq<Pair>

    ghost predicate Valid() {
      && interval > 0 && |file| < WORD64 && indexBlock.IsParsed()
      && Stored(crc, interval, file, layout.blocks, layout.handles) && Indexed(layout, es) && GoodKeys(es)
      && Joined(layout.blocks) == es && |layout.seps| == |layout.blocks|
      && indexBlock.data == BlockBytes(1, IndexEntries(layout.seps, layout.handles))
      && SmallBlocks(interval, layout)
      && forall e :: e in IndexEntries(layout.seps, layout.handles) ==> Blocks.Fits(e)
    }

    constructor (c: Log.Crc, f: Bytes, v: bool, index: Block, ghost k: nat, ghost l: Layout, ghost entries: seq<Pair>)
      requires k > 0 && |f| < WORD64 && index.IsParsed() && |l.seps| == |l.blocks| && SmallBlocks(k, l)
      requires Stored(c, k, f, l.blocks, l.handles) && Indexed(l, entries) && GoodKeys(entries)
      requires Joined(l.blocks) == entries && index.data == BlockBytes(1, IndexEntries(l.seps, l.handles))
      ensures Valid() && es == entries && layout == l
    {
      hide BlockAt, BlockBytes, SplitsAt, GoodKeys;
      crc, file, verify, indexBlock := c, f, v, index;
      interval, layout, es := k, l, entries;
      EntriesFit(1, IndexEntries(l.seps, l.handles));
    }

    /** An iterator over the block that an index entry points to. */
    method BlockReader(indexValue: Bytes, ghost b: nat) returns (it: BlockIter)
      requires Valid() && b < |layout.blocks| && indexValue == EncodeHandle(layout.handles[b])
      ensures fresh(it) && it.Valid() && it.cmp == InternalRank && it.es == layout.blocks[b] && it.pos == |it.es|
    {
      hide BlockBytes, RawBlock, EncodeHandle, DecodeHandle, Indexed, GoodKeys, BlockIter.Valid;
      ghost var h := layout.handles[b];
      assert BlockAt(crc, interval, file, h, layout.blocks[b]);
      HandleRoundTrip(h, []);
      assert indexValue + [] == indexValue;
      var decoded := DecodeHandle(indexValue);
      if decoded.None? {
        assert false;
      }
      var contents := ReadBlock(crc, file, decoded.value.0, verify, BlockBytes(interval, layout.blocks[b]));
      if contents.None? {
        assert false;
      }
      var block := new Block(contents.value);
      EntriesFit(interval, layout.blocks[b]);
      it := block.NewIterator(InternalRank, interval, layout.blocks[b]);
    }
  }

  /** The entries of a small block are small. */
  lemma EntriesFit(k: nat, es: seq<Pair>)
    requires k > 0 && |BlockBytes(k, es)| < WORD32
    ensures forall e :: e in es ==> Blocks.Fits(e)
  {
    hide Restarts, Words, EncodeFixed32;
    DataHolds(k, es);
  }

  lemma {:induction false} DataHolds(k: nat, es: seq<Pair>)
    requires k > 0
    ensures forall e :: e in es ==> |e.key| <= |Data(k, es)| && |e.value| <= |Data(k, es)|
  {
    hide Header, SharedAt;
    if es != [] {
      var front := es[..|es| - 1];
      DataHolds(k, front);
      if |es| > 1 {
        assert es[|es| - 2] == front[|front| - 1] && front[|front| - 1] in front;
      }
    }
  }

  /** Open a table file: check the magic number, find the index block through the footer and, when a
      filter policy is in use, the filter through the metaindex. */
  method Open(crc: Log.Crc, file: Bytes, verify: bool, policy: Option<Hash>, ghost k: nat, ghost l: Layout, ghost es: seq<Pair>,
              ghost meta: Handle, ghost index: Handle, ghost stored: Option<StoredFilter>)
    returns (t: Table?, filter: Option<Bytes>)
    requires IsTable(crc, k, file, l, es, meta, index, stored) && |file| < WORD64 && SmallBlocks(k, l)
    ensures t != null && t.Valid() && t.es == es && t.layout == l
    ensures filter.Some? <==> stored.Some? && policy.Some?
    ensures filter.Some? ==> filter.value == stored.value.contents
  {
    hide BlockAt, RawAt, BlockBytes, RawBlock, EncodeHandle, DecodeHandle, DecodeFixed32, Stored, Indexed, GoodKeys, FooterBytes,
      Table.Valid, FilterOk;
    filter := None;
    IndexWhere(crc, k, file, l, es, meta, index, stored);
    if |file| < FOOTER_SIZE {
      return null, None;
    }
    FooterParts(file, meta, index);
    var footer := file[|file| - FOOTER_SIZE..];
    var lo, hi := DecodeFixed32(footer[40..44]), DecodeFixed32(footer[44..]);
    if lo + hi * WORD32 != MAGIC {
      return null, None;
    }
    var metaindexHandle := DecodeHandle(footer);
    if metaindexHandle.None? {
      return null, None;
    }
    var indexHandle := DecodeHandle(metaindexHandle.value.1);
    if indexHandle.None? {
      return null, None;
    }
    var contents := ReadBlock(crc, file, indexHandle.value.0, verify, BlockBytes(1, IndexEntries(l.seps, l.handles)));
    if contents.None? {
      return null, None;
    }
    var indexBlock := new Block(contents.value);
    t := new Table(crc, file, verify, indexBlock, k, l, es);
    if policy.Some? {
      filter := ReadMeta(crc, file, metaindexHandle.value.0, verify, k, l, stored);
    }
  }

  /** Find the filter through the metaindex; none is no error. */
  method ReadMeta(crc: Log.Crc, file: Bytes, h: Handle, verify: bool, ghost k: nat, ghost l: Layout, ghost stored: Option<StoredFilter>)
    returns (filter: Option<Bytes>)
    requires k > 0 && |file| < WORD64 && FilterOk(crc, k, file, l.blocks, l.handles, h, stored)
    ensures filter == if stored.None? then None else Some(stored.value.contents)
  {
    hide BlockBytes, RawBlock, RawAt, EncodeHandle, DecodeHandle, BlockIter.Valid, NoFalseNegatives, MayMatchIn, TrailerCount;
    ghost var es := MetaEntries(if stored.None? then None else Some(stored.value.handle));
    var contents := ReadBlock(crc, file, h, verify, BlockBytes(k, es));
    if contents.None? {
      return None;
    }
    MetaSmall(crc, k, file, l, h, stored);
    var meta := new Block(contents.value);
    var iter := meta.NewIterator(BytewiseRank, k, es);
    iter.Seek(FILTER_KEY);
    filter := None;
    var valid := iter.IsValid();
    if valid {
      var key := iter.Key();
      if key == FILTER_KEY {
        var value := iter.Value();
        filter := ReadFilter(crc, file, value, verify, stored);
      }
    }
  }

  lemma MetaSmall(crc: Log.Crc, k: nat, file: Bytes, l: Layout, h: Handle, stored: Option<StoredFilter>)
    requires k > 0 && |file| < WORD64 && FilterOk(crc, k, file, l.blocks, l.handles, h, stored)
    ensures var es := MetaEntries(if stored.None? then None else Some(stored.value.handle));
            |BlockBytes(k, es)| < WORD32 && forall e :: e in es ==> Blocks.Fits(e)
  {
    hide BlockBytes, RawBlock, EncodeHandle, NoFalseNegatives;
    var handle := if stored.None? then None else Some(stored.value.handle);
    MetaFits(k, MetaEntries(handle), handle);
    EntriesFit(k, MetaEntries(handle));
  }

  /** The metaindex has at most one entry, a handle under a short name. */
  lemma MetaFits(k: nat, es: seq<Pair>, filter: Option<Handle>)
    requires k > 0 && es == MetaEntries(filter)
    requires filter.Some? ==> filter.value.offset < WORD64 && filter.value.size < WORD64
    ensures |BlockBytes(k, es)| < WORD32
  {
    hide Varint, EncodeFixed32;
    var rs := Restarts(k, es);
    assert |rs| == 1;
    assert rs == [rs[0]] && Words(rs[..0]) == [];
    if filter.Some? {
      HandleSize(filter.value);
      var e := es[0];
      assert es[..0] == [] && SharedAt(k, es, 0) == 0;
      Powers128();
      VarintRoundTrip(0, [], 5);
      VarintRoundTrip(|e.key|, [], 5);
      VarintRoundTrip(|e.value|, [], 5);
      assert |Chunk(k, es, 0)| <= 15 + |e.key| + |e.value|;
      assert Data(k, es) == Data(k, []) + Chunk(k, es, 0);
    }
  }

  method ReadFilter(crc: Log.Crc, file: Bytes, handleValue: Bytes, verify: bool, ghost stored: Option<StoredFilter>)
    returns (filter: Option<Bytes>)
    requires |file| < WORD64 && stored.Some? && handleValue == EncodeHandle(stored.value.handle)
    requires RawAt(crc, file, stored.value.handle, stored.value.contents)
    ensures filter == Some(stored.value.contents)
  {
    hide RawBlock, EncodeHandle, DecodeHandle;
    HandleRoundTrip(stored.value.handle, []);
    assert handleValue + [] == handleValue;
    var decoded := DecodeHandle(handleValue);
    if decoded.None? {
      return None;
    }
    filter := ReadBlock(crc, file, decoded.value.0, verify, stored.value.contents);
  }

  lemma IndexWhere(crc: Log.Crc, k: nat, file: Bytes, l: Layout, es: seq<Pair>, meta: Handle, index: Handle,
                   stored: Option<StoredFilter>)
    requires IsTable(crc, k, file, l, es, meta, index, stored) && |file| < WORD64
    ensures meta.offset < WORD64 && meta.size < WORD64
    ensures |file| >= FOOTER_SIZE && |FooterBytes(meta, index)| == FOOTER_SIZE
    ensures index.offset < WORD64 && index.size < WORD64
    ensures |l.seps| <= |l.handles| && |BlockBytes(1, IndexEntries(l.seps, l.handles))| < |file|
    ensures RawAt(crc, file, index, BlockBytes(1, IndexEntries(l.seps, l.handles)))
  {
    hide BlockBytes, RawBlock, EncodeHandle, Indexed, GoodKeys, FilterOk;
    FooterSize(meta, index);
  }

  // ----- Looking up one key -----

  /** What a lookup should report: the first entry at or after the key, if it has the key's user key. */
  ghost predicate IsLookup(es: seq<Pair>, k: Bytes, r: Option<Pair>)
    requires IsInternal(k) && forall e :: e in es ==> IsInternal(e.key)
  {
    exists i: nat :: IsLowerBound(InternalRank, es, k, i) &&
      (if i < |es| && UserPart(es[i].key) == UserPart(k) then r == Some(es[i])
       else r == None || (i < |es| && r == Some(es[i])))
  }

  /** Report the first entry at or after the key in the one block that can hold it, unless the filter
      rules the block out. An entry with the key's user key is never missed, across block boundaries
      and whatever the shortened index keys are. */
  method InternalGet(t: Table, filter: Option<(nat, Bytes) -> bool>, k: Bytes) returns (r: Option<Pair>)
    requires t.Valid() && IsInternal(k) && (forall e :: e in t.es ==> IsInternal(e.key))
    requires filter.Some? ==> NoFalseNegatives(filter.value, t.layout.blocks, t.layout.handles)
    ensures IsLookup(t.es, k, r)
  {
    hide Table.Valid, BlockIter.Valid, IsLowerBound, Increasing, InternalRank, IsLookup, NoFalseNegatives, EncodeHandle,
      DecodeHandle, IsInternal;
    var index := NewIndexIterator(t);
    index.Seek(k);
    ghost var b := index.pos;
    r := None;
    var valid := index.IsValid();
    if !valid {
      SeekLandsIn(t, k, b, 0);
      NothingAtEnd(t.es, k);
      return;
    }
    var handleValue := index.Value();
    IndexValue(t, b);
    var handle := DecodeHandle(handleValue);
    if filter.Some? && handle.Some? && !filter.value(handle.value.0.offset, k) {
      ghost var p := Position(InternalRank, t.layout.blocks[b], k);
      FilteredOut(t, filter.value, k, b, p);
      return;
    }
    var blockIter := t.BlockReader(handleValue, b);
    BlockIncreases(t, b);
    blockIter.Seek(k);
    valid := blockIter.IsValid();
    if valid {
      var key := blockIter.Key();
      var value := blockIter.Value();
      r := Some(Pair(key, value));
    }
    Reported(t, k, b, blockIter.pos, r);
  }

  method NewIndexIterator(t: Table) returns (it: BlockIter)
    requires t.Valid()
    ensures |t.layout.seps| == |t.layout.blocks| == |t.layout.handles|
    ensures fresh(it) && it.Valid() && it.cmp == InternalRank && it.pos == |it.es|
    ensures it.es == IndexEntries(t.layout.seps, t.layout.handles) && Increasing(InternalRank, it.es)
  {
    hide BlockBytes, BlockAt, Indexed, GoodKeys, BlockIter.Valid, InternalRank, Increasing;
    IndexIncreases(t.layout, t.es);
    it := t.indexBlock.NewIterator(InternalRank, 1, IndexEntries(t.layout.seps, t.layout.handles));
  }

  lemma IndexValue(t: Table, b: nat)
    requires t.Valid() && b < |t.layout.blocks|
    ensures |t.layout.seps| == |t.layout.blocks| == |t.layout.handles|
    ensures IndexEntries(t.layout.seps, t.layout.handles)[b].value == EncodeHandle(t.layout.handles[b])
    ensures DecodeHandle(EncodeHandle(t.layout.handles[b])) == Some((t.layout.handles[b], []))
  {
    hide BlockBytes, RawBlock, Indexed, GoodKeys, EncodeHandle, DecodeHandle;
    var h := t.layout.handles[b];
    assert BlockAt(t.crc, t.interval, t.file, h, t.layout.blocks[b]);
    HandleRoundTrip(h, []);
    assert EncodeHandle(h) + [] == EncodeHandle(h);
  }

  lemma BlockIncreases(t: Table, b: nat)
    requires t.Valid() && b < |t.layout.blocks|
    ensures Increasing(InternalRank, t.layout.blocks[b])
    ensures |t.layout.blocks[b]| > 0 && forall e :: e in t.layout.blocks[b] ==> e in t.es
  {
    hide BlockBytes, RawBlock, BlockAt, Indexed, InternalRank;
    PartIsStretch(t.layout.blocks, b);
    var s := End(t.layout.blocks, b);
    assert forall i :: 0 <= i < |t.layout.blocks[b]| ==> t.es[s + i] == t.layout.blocks[b][i];
  }

  lemma SeekLandsIn(t: Table, k: Bytes, b: nat, p: nat)
    requires t.Valid() && |t.layout.seps| == |t.layout.blocks| == |t.layout.handles|
    requires IsLowerBound(InternalRank, IndexEntries(t.layout.seps, t.layout.handles), k, b)
    requires b < |t.layout.blocks| ==> IsLowerBound(InternalRank, t.layout.blocks[b], k, p)
    ensures IsLowerBound(InternalRank, t.es, k, if b == |t.layout.blocks| then |t.es| else End(t.layout.blocks, b) + p)
  {
    hide BlockBytes, BlockAt, Indexed, GoodKeys, IsLowerBound, InternalRank;
    SeekLands(t.layout, t.es, k, b, p);
  }

  lemma NothingAtEnd(es: seq<Pair>, k: Bytes)
    requires IsInternal(k) && (forall e :: e in es ==> IsInternal(e.key)) && IsLowerBound(InternalRank, es, k, |es|)
    ensures IsLookup(es, k, None)
  {
    hide InternalRank;
  }

  ghost function Position(c: Comparator, es: seq<Pair>, target: Bytes): (i: nat)
    ensures IsLowerBound(c, es, target, i)
  {
    if es == [] || c(es[0].key) >= c(target) then 0
    else
      var i := Position(c, es[1..], target);
      assert forall j :: 0 < j < |es| ==> es[j] == es[1..][j - 1];
      i + 1
  }

  /** At the end of a block that the index search chose, the next entry has a later user key. */
  lemma NextUserIsLater(t: Table, k: Bytes, b: nat)
    requires t.Valid() && IsInternal(k) && b < |t.layout.blocks| && |t.layout.seps| == |t.layout.blocks| == |t.layout.handles|
    requires IsLowerBound(InternalRank, IndexEntries(t.layout.seps, t.layout.handles), k, b)
    requires IsLowerBound(InternalRank, t.layout.blocks[b], k, |t.layout.blocks[b]|)
    requires forall e :: e in t.es ==> IsInternal(e.key)
    ensures var i := End(t.layout.blocks, b + 1); i < |t.es| ==> UserPart(t.es[i].key) != UserPart(k)
  {
    hide BlockBytes, BlockAt, GoodKeys, InternalRank, BytesBefore, DecodeFixed64, Stored, SmallBlocks;
    var l, i := t.layout, End(t.layout.blocks, b + 1);
    PartIsStretch(l.blocks, b);
    BlockIncreases(t, b);
    var sep := l.seps[b];
    assert SplitsAt(t.es, sep, i);
    assert IndexEntries(l.seps, l.handles)[b].key == sep;
    var last := l.blocks[b][|l.blocks[b]| - 1];
    assert t.es[i - 1] == last;
    if i < |t.es| {
      InternalRankEmbeds(sep, k);
      BytesOrder(UserPart(k), UserPart(sep), UserPart(t.es[i].key));
      BytesOrder(UserPart(sep), UserPart(t.es[i].key), []);
    }
  }

  lemma Reported(t: Table, k: Bytes, b: nat, p: nat, r: Option<Pair>)
    requires t.Valid() && IsInternal(k) && b < |t.layout.blocks| && |t.layout.seps| == |t.layout.blocks| == |t.layout.handles|
    requires IsLowerBound(InternalRank, IndexEntries(t.layout.seps, t.layout.handles), k, b)
    requires IsLowerBound(InternalRank, t.layout.blocks[b], k, p)
    requires r == if p < |t.layout.blocks[b]| then Some(t.layout.blocks[b][p]) else None
    requires forall e :: e in t.es ==> IsInternal(e.key)
    ensures IsLookup(t.es, k, r)
  {
    hide BlockBytes, BlockAt, Indexed, Stored, GoodKeys, InternalRank, BytesBefore, DecodeFixed64;
    SeekLandsIn(t, k, b, p);
    PartIsStretch(t.layout.blocks, b);
    var i := End(t.layout.blocks, b) + p;
    if p < |t.layout.blocks[b]| {
      assert t.es[i] == t.layout.blocks[b][p];
    } else {
      NextUserIsLater(t, k, b);
    }
    assert IsLowerBound(InternalRank, t.es, k, i);
  }

  lemma FilteredOut(t: Table, mayMatch: (nat, Bytes) -> bool, k: Bytes, b: nat, p: nat)
    requires t.Valid() && IsInternal(k) && b < |t.layout.blocks| && |t.layout.seps| == |t.layout.blocks| == |t.layout.handles|
    requires IsLowerBound(InternalRank, IndexEntries(t.layout.seps, t.layout.handles), k, b)
    requires IsLowerBound(InternalRank, t.layout.blocks[b], k, p)
    requires forall e :: e in t.es ==> IsInternal(e.key)
    requires NoFalseNegatives(mayMatch, t.layout.blocks, t.layout.handles) && !mayMatch(t.layout.handles[b].offset, k)
    ensures IsLookup(t.es, k, None)
  {
    hide BlockBytes, BlockAt, Indexed, Stored, GoodKeys, InternalRank, BytesBefore, DecodeFixed64;
    SeekLandsIn(t, k, b, p);
    PartIsStretch(t.layout.blocks, b);
    var i := End(t.layout.blocks, b) + p;
    if p < |t.layout.blocks[b]| {
      var e := t.layout.blocks[b][p];
      BlockIncreases(t, b);
      assert e in t.layout.blocks[b] && t.es[i] == e;
      assert !SameUser(e.key, k);
    } else {
      NextUserIsLater(t, k, b);
    }
    assert IsLowerBound(InternalRank, t.es, k, i);
  }

  // ----- Walking a table -----

  /** An iterator over a table. It is a cursor over the table's entries, whatever its blocks. */
  class TwoLevelIterator {
    const table: Table
    const indexIter: BlockIter
    var dataIter: BlockIter?
    var dataBlockHandle: Bytes // the index value that `dataIter` was made for

    ghost function Repr(): set<object>
      reads this
    {
      {this, indexIter} + if dataIter == null then {} else {dataIter}
    }

    ghost predicate IndexOk()
      reads this, indexIter
    {
      && table.Valid() && indexIter.Valid() && indexIter.cmp == InternalRank
      && |table.layout.seps| == |table.layout.blocks| == |table.layout.handles|
      && indexIter.es == IndexEntries(table.layout.seps, table.layout.handles)
      && Increasing(InternalRank, indexIter.es) && indexIter.pos <= |indexIter.es|
      && dataIter != indexIter
    }

    /** The data iterator, if there is one, is over block `b`. */
    ghost predicate DataOver(b: nat)
      reads this, dataIter
    {
      dataIter != null && b < |table.layout.blocks| && b < |table.layout.handles| &&
      dataIter.Valid() && dataIter.cmp == InternalRank && dataIter.es == table.layout.blocks[b] &&
      dataIter.pos <= |dataIter.es| && dataBlockHandle == EncodeHandle(table.layout.handles[b])
    }

    /** The two iterators go together; the data iterator may stand at an end of its block. */
    ghost predicate Wired()
      reads Repr()
    {
      IndexOk() && if indexIter.pos == |indexIter.es| then dataIter == null else DataOver(indexIter.pos)
    }

    ghost predicate Valid()
      reads Repr()
    {
      Wired() && (dataIter != null ==> dataIter.pos < |dataIter.es|)
    }

    /** Where the cursor is, an exhausted block counting as the start of the next. */
    ghost function Position(): nat
      requires Wired()
      reads Repr()
    {
      if dataIter == null then |table.es| else End(table.layout.blocks, indexIter.pos) + dataIter.pos
    }

    /** Where the cursor is, an exhausted block counting as the end of the one before. */
    ghost function BackPosition(): nat
      requires Wired()
      reads Repr()
    {
      if dataIter == null then |table.es|
      else if dataIter.pos < |dataIter.es| then End(table.layout.blocks, indexIter.pos) + dataIter.pos
      else PrevPos(|table.es|, End(table.layout.blocks, indexIter.pos))
    }

    constructor (t: Table)
      requires t.Valid()
      ensures Valid() && table == t && fresh(Repr()) && Position() == |t.es|
    {
      hide Table.Valid, BlockIter.Valid, EncodeHandle, Increasing, IndexEntries, InternalRank;
      var index := NewIndexIterator(t);
      table, indexIter := t, index;
      dataIter := null;
      dataBlockHandle := [];
    }

    /** Point the data iterator at the block of the index iterator, keeping it if it is there. */
    method InitDataBlock(ghost old_b: nat)
      requires IndexOk() && (dataIter != null ==> DataOver(old_b))
      modifies this`dataIter, this`dataBlockHandle
      ensures Wired() && (dataIter != null ==> dataIter == old(dataIter) || fresh(dataIter))
    {
      hide Table.Valid, BlockIter.Valid, EncodeHandle, Increasing;
      var valid := indexIter.IsValid();
      if !valid {
        dataIter := null;
      } else {
        ghost var b := indexIter.pos;
        var handle := indexIter.Value();
        IndexValue(table, b);
        if dataIter != null && handle == dataBlockHandle {
          // made for this block already
          SameBlock(table, old_b, b);
        } else {
          var iter := table.BlockReader(handle, b);
          dataBlockHandle := handle;
          dataIter := iter;
        }
      }
    }

    method SkipEmptyDataBlocksForward()
      requires Wired()
      modifies this`dataIter, this`dataBlockHandle, indexIter, dataIter
      ensures Valid() && Position() == old(Position())
      ensures dataIter != null ==> dataIter == old(dataIter) || fresh(dataIter)
    {
      hide Table.Valid, BlockIter.Valid, EncodeHandle, Increasing, End, IndexEntries;
      ghost var q := Position();
      var valid := DataValid();
      while !valid
        invariant Wired() && Position() == q
        invariant valid <==> dataIter != null && dataIter.pos < |dataIter.es|
        invariant dataIter != null ==> dataIter == old(dataIter) || fresh(dataIter)
        decreases |indexIter.es| - indexIter.pos, !valid
      {
        var more := indexIter.IsValid();
        if !more {
          dataIter := null;
          return;
        }
        NextBlock();
        valid := DataValid();
      }
    }

    /** From the end of a block to the start of the next. */
    method NextBlock()
      requires Wired() && indexIter.pos < |indexIter.es| && dataIter != null && dataIter.pos == |dataIter.es|
      modifies this`dataIter, this`dataBlockHandle, indexIter, dataIter
      ensures Wired() && Position() == old(Position()) && indexIter.pos == old(indexIter.pos) + 1
      ensures dataIter != null ==> dataIter == old(dataIter) || fresh(dataIter)
    {
      hide Table.Valid, BlockIter.Valid, EncodeHandle, Increasing, End, IndexEntries;
      ghost var b := indexIter.pos;
      BlockEnds(table, b);
      indexIter.Next();
      InitDataBlock(b);
      if dataIter != null {
        dataIter.SeekToFirst();
      }
    }

    method SkipEmptyDataBlocksBackward()
      requires Wired()
      modifies this`dataIter, this`dataBlockHandle, indexIter, dataIter
      ensures Valid() && Position() == old(BackPosition())
      ensures dataIter != null ==> dataIter == old(dataIter) || fresh(dataIter)
    {
      hide Table.Valid, BlockIter.Valid, EncodeHandle, Increasing, End, IndexEntries;
      ghost var q := BackPosition();
      var valid := DataValid();
      while !valid
        invariant Wired() && BackPosition() == q
        invariant valid <==> dataIter != null && dataIter.pos < |dataIter.es|
        invariant dataIter != null ==> dataIter == old(dataIter) || fresh(dataIter)
        decreases if dataIter == null then 0 else indexIter.pos + 1, !valid
      {
        var more := indexIter.IsValid();
        if !more {
          dataIter := null;
          return;
        }
        PrevBlock();
        valid := DataValid();
      }
    }

    /** From before the start of a block to the end of the one before. */
    method PrevBlock()
      requires Wired() && indexIter.pos < |indexIter.es| && dataIter != null && dataIter.pos == |dataIter.es|
      modifies this`dataIter, this`dataBlockHandle, indexIter, dataIter
      ensures Wired() && BackPosition() == old(BackPosition())
      ensures dataIter != null ==> indexIter.pos < old(indexIter.pos)
      ensures dataIter != null ==> dataIter == old(dataIter) || fresh(dataIter)
    {
      hide Table.Valid, BlockIter.Valid, EncodeHandle, Increasing, End, IndexEntries;
      ghost var b := indexIter.pos;
      BlockBefore(table, b);
      indexIter.Prev();
      InitDataBlock(b);
      if dataIter != null {
        dataIter.SeekToLast();
      }
    }

    method DataValid() returns (b: bool)
      requires Wired()
      ensures b <==> dataIter != null && dataIter.pos < |dataIter.es|
    {
      hide Table.Valid, BlockIter.Valid, EncodeHandle, Increasing, IndexEntries;
      b := false;
      if dataIter != null {
        b := dataIter.IsValid();
      }
    }

    method Seek(target: Bytes)
      requires Valid()
      modifies Repr()
      ensures Valid() && fresh(Repr() - old(Repr())) && IsLowerBound(InternalRank, table.es, target, Position())
    {
      hide Table.Valid, BlockIter.Valid, EncodeHandle, Increasing, IsLowerBound, IndexEntries;
      ghost var b0 := indexIter.pos;
      indexIter.Seek(target);
      InitDataBlock(b0);
      ghost var p := 0;
      if dataIter != null {
        BlockIncreases(table, indexIter.pos);
        dataIter.Seek(target);
        p := dataIter.pos;
      }
      SeekLandsIn(table, target, indexIter.pos, p);
      SkipEmptyDataBlocksForward();
    }

    method SeekToFirst()
      requires Valid()
      modifies Repr()
      ensures Valid() && fresh(Repr() - old(Repr())) && Position() == 0
    {
      hide Table.Valid, BlockIter.Valid, EncodeHandle, Increasing, IndexEntries;
      ghost var b0 := indexIter.pos;
      indexIter.SeekToFirst();
      InitDataBlock(b0);
      NoBlocks(table);
      if dataIter != null {
        dataIter.SeekToFirst();
      }
      SkipEmptyDataBlocksForward();
    }

    method SeekToLast()
      requires Valid()
      modifies Repr()
      ensures Valid() && fresh(Repr() - old(Repr())) && Position() == LastPos(|table.es|)
    {
      hide Table.Valid, BlockIter.Valid, EncodeHandle, Increasing, IndexEntries;
      ghost var b0 := indexIter.pos;
      indexIter.SeekToLast();
      InitDataBlock(b0);
      NoBlocks(table);
      if dataIter != null {
        BlockIncreases(table, indexIter.pos);
        BlockEnds(table, indexIter.pos);
        dataIter.SeekToLast();
      }
      SkipEmptyDataBlocksBackward();
    }

    method Next()
      requires Valid() && dataIter != null
      modifies Repr()
      ensures Valid() && fresh(Repr() - old(Repr())) && Position() == old(Position()) + 1
    {
      hide Table.Valid, BlockIter.Valid, EncodeHandle, Increasing, IndexEntries;
      dataIter.Next();
      SkipEmptyDataBlocksForward();
    }

    method Prev()
      requires Valid() && dataIter != null
      modifies Repr()
      ensures Valid() && fresh(Repr() - old(Repr())) && Position() == PrevPos(|table.es|, old(Position()))
    {
      hide Table.Valid, BlockIter.Valid, EncodeHandle, Increasing, IndexEntries;
      dataIter.Prev();
      SkipEmptyDataBlocksBackward();
    }

    /** The cursor stands at an entry exactly when there is a data iterator. */
    ghost predicate InRange()
      reads Repr()
    {
      Wired() && Position() <= |table.es| && (dataIter != null <==> Position() < |table.es|)
    }

    method IsValid() returns (b: bool)
      requires Valid()
      ensures InRange() && (b <==> dataIter != null)
    {
      hide Table.Valid, BlockIter.Valid, EncodeHandle, Increasing, IndexEntries, End;
      if dataIter != null {
        BlockEnds(table, indexIter.pos);
      }
      b := DataValid();
    }

    ghost predicate Shows(e: Pair)
      reads Repr()
    {
      Wired() && Position() < |table.es| && table.es[Position()] == e
    }

    /** The key and value at the cursor. */
    method Current() returns (e: Pair)
      requires Valid() && dataIter != null
      ensures Shows(e)
    {
      hide Table.Valid, BlockIter.Valid, EncodeHandle, Increasing, IndexEntries;
      BlockEnds(table, indexIter.pos);
      var key := dataIter.Key();
      var value := dataIter.Value();
      e := Pair(key, value);
    }
  }

  lemma SameBlock(t: Table, a: nat, b: nat)
    requires t.Valid() && a < |t.layout.blocks| && b < |t.layout.blocks| && |t.layout.blocks| == |t.layout.handles|
    requires EncodeHandle(t.layout.handles[a]) == EncodeHandle(t.layout.handles[b])
    ensures a == b
  {
    hide BlockBytes, RawBlock, Indexed, GoodKeys, EncodeHandle;
    assert BlockAt(t.crc, t.interval, t.file, t.layout.handles[a], t.layout.blocks[a]);
    assert BlockAt(t.crc, t.interval, t.file, t.layout.handles[b], t.layout.blocks[b]);
    HandleUnique(t.layout.handles[a], t.layout.handles[b]);
  }

  /** A block's entries, and where it ends. */
  lemma BlockEnds(t: Table, b: nat)
    requires t.Valid() && b < |t.layout.blocks|
    ensures End(t.layout.blocks, b + 1) == End(t.layout.blocks, b) + |t.layout.blocks[b]| <= |t.es|
    ensures b + 1 == |t.layout.blocks| ==> End(t.layout.blocks, b + 1) == |t.es|
    ensures t.es[End(t.layout.blocks, b)..End(t.layout.blocks, b + 1)] == t.layout.blocks[b]
  {
    hide BlockBytes, BlockAt, Indexed, GoodKeys, Stored;
    PartIsStretch(t.layout.blocks, b);
    assert t.layout.blocks[..|t.layout.blocks|] == t.layout.blocks;
  }

  lemma BlockBefore(t: Table, b: nat)
    requires t.Valid() && b < |t.layout.blocks|
    ensures b == 0 ==> End(t.layout.blocks, b) == 0
    ensures b > 0 ==> |t.layout.blocks[b - 1]| > 0 && End(t.layout.blocks, b) == End(t.layout.blocks, b - 1) + |t.layout.blocks[b - 1]|
  {
    hide BlockBytes, BlockAt, Indexed, GoodKeys;
    if b > 0 {
      PartIsStretch(t.layout.blocks, b - 1);
    }
  }

  lemma NoBlocks(t: Table)
    requires t.Valid()
    ensures End(t.layout.blocks, 0) == 0 && (t.layout.blocks == [] ==> t.es == [])
  {
    hide BlockBytes, BlockAt, Indexed, GoodKeys, Stored;
  }

  // ----- A table built and read -----

  method BuildTable(crc: Log.Crc, blockSize: nat, k: nat, policy: BloomFilterPolicy?, es: seq<Pair>)
    returns (file: Bytes, ghost l: Layout, ghost meta: Handle, ghost index: Handle, ghost filter: Option<StoredFilter>)
    requires k > 0 && GoodKeys(es) && (policy != null ==> policy.Ok())
    ensures |file| < WORD64 ==> IsTable(crc, k, file, l, es, meta, index, filter)
    ensures filter.Some? <==> policy != null
    ensures filter.Some? ==> filter.value.hash == policy.hash
  {
    hide TableBuilder.Valid, InternalRank, IsInternal, IsTable, FilterBlockBuilder.Valid;
    var builder := new TableBuilder(crc, blockSize, k, policy);
    for i := 0 to |es|
      invariant builder.Valid() && !builder.closed && builder.entries == es[..i]
      invariant builder.crc == crc && builder.interval == k && fresh(builder.Repr())
    {
      assert es[i] in es;
      NextKeyIsLater(builder, es, i);
      builder.Add(es[i].key, es[i].value);
    }
    assert es[..|es|] == es;
    meta, index, filter := builder.Finish();
    file, l := builder.file, builder.layout;
  }

  lemma NextKeyIsLater(builder: TableBuilder, es: seq<Pair>, i: nat)
    requires builder.Valid() && i < |es| && builder.entries == es[..i] && GoodKeys(es)
    ensures builder.entries != [] ==> InternalRank(builder.lastKey) < InternalRank(es[i].key)
  {
    hide InternalRank, Stored, Indexed, BlockBuilder.Valid, FilterBlockBuilder.Valid;
  }

  /** A table built from any sorted list of keys, with any block size, restart interval and filter,
      reads back as that list, and looking up any key finds what is there; unless the file is so big
      that a position in a block may not fit its 32 bits. */
  method BuildAndReadTable(crc: Log.Crc, blockSize: nat, k: nat, policy: BloomFilterPolicy?, es: seq<Pair>, verify: bool, key: Bytes)
    returns (file: Bytes, out: seq<Pair>, found: Option<Pair>, tooBig: bool,
             ghost l: Layout, ghost meta: Handle, ghost index: Handle, ghost filter: Option<StoredFilter>)
    requires k > 0 && GoodKeys(es) && IsInternal(key) && (policy != null ==> policy.Ok())
    ensures |file| < WORD64 ==> IsTable(crc, k, file, l, es, meta, index, filter)
    ensures tooBig <==> |file| >= WORD32
    ensures !tooBig ==> out == es && IsLookup(es, key, found)
  {
    hide GoodKeys, InternalRank, IsInternal, IsLookup, IsTable, SmallBlocks;
    out, found := [], None;
    GoodKeysAreInternal(es);
    file, l, meta, index, filter := BuildTable(crc, blockSize, k, policy, es);
    tooBig := |file| >= WORD32;
    if !tooBig {
      SmallFile(crc, k, file, l, es, meta, index, filter);
      out, found := ReadBack(crc, file, verify, if policy == null then None else Some(policy.hash), key, k, l, es, meta, index, filter);
    }
  }

  /** Blocks are within the file. */
  lemma SmallFile(crc: Log.Crc, k: nat, file: Bytes, l: Layout, es: seq<Pair>, meta: Handle, index: Handle,
                  filter: Option<StoredFilter>)
    requires IsTable(crc, k, file, l, es, meta, index, filter) && |file| < WORD32
    ensures k > 0 && SmallBlocks(k, l) && (filter.Some? ==> |filter.value.contents| < WORD32)
  {
    hide BlockBytes, RawBlock, Indexed, GoodKeys, NoFalseNegatives, FooterBytes;
    forall b | b in l.blocks
      ensures |BlockBytes(k, b)| < WORD32
    {
      var i :| 0 <= i < |l.blocks| && l.blocks[i] == b;
      assert BlockAt(crc, k, file, l.handles[i], b);
    }
  }

  /** A table file whose blocks are small, however long the file, is opened, walked and searched as
      the list it was made of. */
  method ReadBack(crc: Log.Crc, file: Bytes, verify: bool, policy: Option<Hash>, key: Bytes, ghost k: nat, ghost l: Layout,
                  ghost es: seq<Pair>, ghost meta: Handle, ghost index: Handle, ghost stored: Option<StoredFilter>)
    returns (out: seq<Pair>, found: Option<Pair>)
    requires IsTable(crc, k, file, l, es, meta, index, stored) && |file| < WORD64 && SmallBlocks(k, l)
    requires IsInternal(key) && forall e :: e in es ==> IsInternal(e.key)
    requires policy.Some? && stored.Some? ==> policy.value == stored.value.hash && |stored.value.contents| < WORD32
    ensures out == es && IsLookup(es, key, found)
  {
    hide GoodKeys, InternalRank, IsInternal, IsLookup, NoFalseNegatives, Table.Valid, BlockAt, RawAt, Stored, Indexed, SmallBlocks,
      BlockBytes;
    var t, contents := Open(crc, file, verify, policy, k, l, es, meta, index, stored);
    out := ReadTable(t);
    var filter := None;
    if policy.Some? && contents.Some? {
      filter := Some(MayMatchIn(StoredFilter(policy.value, Handle(0, 0), contents.value)));
      SameFilter(stored.value, StoredFilter(policy.value, Handle(0, 0), contents.value), l);
    }
    found := InternalGet(t, filter, key);
  }

  lemma SameFilter(f: StoredFilter, g: StoredFilter, l: Layout)
    requires f.hash == g.hash && f.contents == g.contents && NoFalseNegatives(MayMatchIn(f), l.blocks, l.handles)
    ensures NoFalseNegatives(MayMatchIn(g), l.blocks, l.handles)
  {
    forall b, e, k | 0 <= b < |l.blocks| && b < |l.handles| && e in l.blocks[b] && SameUser(e.key, k)
      ensures MayMatchIn(g)(l.handles[b].offset, k)
    {
      assert MayMatchIn(f)(l.handles[b].offset, k);
    }
  }

  lemma GoodKeysAreInternal(es: seq<Pair>)
    requires GoodKeys(es)
    ensures forall e :: e in es ==> IsInternal(e.key)
  {
  }

  method ReadTable(t: Table) returns (out: seq<Pair>)
    requires t.Valid()
    ensures out == t.es
  {
    hide Table.Valid, TwoLevelIterator.Wired;
    out := [];
    var it := new TwoLevelIterator(t);
    it.SeekToFirst();
    var valid := it.IsValid();
    while valid
      invariant it.Valid() && it.InRange() && fresh(it.Repr()) && it.table == t
      invariant out == t.es[..it.Position()] && (valid <==> it.dataIter != null)
      decreases |t.es| - it.Position()
    {
      var e := it.Current();
      out := out + [e];
      it.Next();
      valid := it.IsValid();
    }
  }
}
