/** Table files: blocks of entries, and an index of short keys that tell the blocks apart. */
module Tables {
  import opened Keys
  import opened Coding
  import opened Blocks
  import opened Comparators
  import opened Filters
  import Log

  const TRAILER_SIZE: nat := 5
  const FOOTER_SIZE: nat := 48
  const MAGIC: Word64 := 0xdb47_7524_8b80_fb57

  // ----- The format -----

  /** Where a block is: offsets and sizes are 64-bit words. */
  datatype Handle = Handle(offset: nat, size: nat)

  function EncodeHandle(h: Handle): Bytes {
    Varint(h.offset) + Varint(h.size)
  }

  function DecodeHandle(b: Bytes): Option<(Handle, Bytes)> {
    match GetVarint64(b)
    case None => None
    case Some((offset, b1)) =>
      match GetVarint64(b1)
      case None => None
      case Some((size, rest)) => Some((Handle(offset, size), rest))
  }

  lemma HandleRoundTrip(h: Handle, rest: Bytes)
    requires h.offset < WORD64 && h.size < WORD64
    ensures DecodeHandle(EncodeHandle(h) + rest) == Some((h, rest))
  {
    hide Varint, GetVarint64;
    assert EncodeHandle(h) + rest == Varint(h.offset) + (Varint(h.size) + rest);
    Varint64RoundTrip(h.offset, Varint(h.size) + rest);
    Varint64RoundTrip(h.size, rest);
  }

  lemma HandleUnique(a: Handle, b: Handle)
    requires EncodeHandle(a) == EncodeHandle(b)
    requires a.offset < WORD64 && a.size < WORD64 && b.offset < WORD64 && b.size < WORD64
    ensures a == b
  {
    hide EncodeHandle, DecodeHandle;
    HandleRoundTrip(a, []);
    HandleRoundTrip(b, []);
    assert EncodeHandle(a) + [] == EncodeHandle(b) + [];
  }

  /** A stored block: its contents, uncompressed, and a trailer of type and masked checksum. */
  function RawBlock(crc: Log.Crc, contents: Bytes): (b: Bytes)
    ensures |b| == |contents| + TRAILER_SIZE
  {
    contents + [0] + EncodeFixed32(Log.Mask(crc(contents + [0])))
  }

  /** Contents are stored where the handle says. */
  predicate RawAt(crc: Log.Crc, file: Bytes, h: Handle, contents: Bytes) {
    && h.size == |contents| && h.offset + h.size + TRAILER_SIZE <= |file|
    && file[h.offset..h.offset + h.size + TRAILER_SIZE] == RawBlock(crc, contents)
  }

  /** The block of `es` is stored where the handle says. */
  predicate BlockAt(crc: Log.Crc, k: nat, file: Bytes, h: Handle, es: seq<Pair>)
    requires k > 0
  {
    RawAt(crc, file, h, BlockBytes(k, es))
  }

  /** "filter.leveldb.BuiltinBloomFilter2", under which the metaindex keeps the filter's handle. */
  const FILTER_KEY: Bytes := [
    102, 105, 108, 116, 101, 114, 46, 108, 101, 118, 101, 108, 100, 98, 46, 66, 117, 105, 108, 116, 105, 110,
    66, 108, 111, 111, 109, 70, 105, 108, 116, 101, 114, 50]

  function MetaEntries(filter: Option<Handle>): seq<Pair> {
    if filter.None? then [] else [Pair(FILTER_KEY, EncodeHandle(filter.value))]
  }

  /** A filter block stored in a table: the hash it was built with, where it is, and its bytes. */
  datatype StoredFilter = StoredFilter(hash: Hash, handle: Handle, contents: Bytes)

  /** What the stored filter says of a block and an internal key. */
  function MayMatchIn(f: StoredFilter): (nat, Bytes) -> bool {
    (offset: nat, k: Bytes) => IsInternal(k) ==> FilterBlockReader.Open(f.hash, f.contents).KeyMayMatch(offset, UserPart(k))
  }

  predicate SameUser(a: Bytes, b: Bytes) {
    IsInternal(a) && IsInternal(b) && UserPart(a) == UserPart(b)
  }

  /** No entry of a block is kept out by the filter. */
  ghost predicate NoFalseNegatives(mayMatch: (nat, Bytes) -> bool, blocks: seq<seq<Pair>>, handles: seq<Handle>) {
    forall b, e, k :: 0 <= b < |blocks| && b < |handles| && e in blocks[b] && SameUser(e.key, k) ==>
      mayMatch(handles[b].offset, k)
  }

  function FooterBytes(meta: Handle, index: Handle): Bytes {
    var handles := EncodeHandle(meta) + EncodeHandle(index);
    handles + Zeros(if |handles| < 40 then 40 - |handles| else 0) + EncodeFixed32(MAGIC % WORD32) + EncodeFixed32(MAGIC / WORD32)
  }

  /** The entries of the index block. */
  function IndexEntries(seps: seq<Bytes>, handles: seq<Handle>): (es: seq<Pair>)
    requires |seps| <= |handles|
    ensures |es| == |seps| && forall i :: 0 <= i < |seps| ==> es[i] == Pair(seps[i], EncodeHandle(handles[i]))
  {
    seq(|seps|, i requires 0 <= i < |seps| => Pair(seps[i], EncodeHandle(handles[i])))
  }

  /** The index key `sep` stands between the entries before `end` and those from there on; unless
      it is the key before `end`, it comes before the user key that follows. */
  predicate SplitsAt(es: seq<Pair>, sep: Bytes, end: nat) {
    && 0 < end <= |es| && IsInternal(sep) && IsInternal(es[end - 1].key)
    && InternalRank(es[end - 1].key) <= InternalRank(sep)
    && (end < |es| ==>
          && IsInternal(es[end].key)
          && InternalRank(sep) < InternalRank(es[end].key)
          && (sep == es[end - 1].key || BytesBefore(UserPart(sep), UserPart(es[end].key))))
  }

  /** The blocks of a table, where they are, and their index keys. */
  datatype Layout = Layout(blocks: seq<seq<Pair>>, handles: seq<Handle>, seps: seq<Bytes>)

  predicate EndsAt(blocks: seq<seq<Pair>>, i: nat, n: nat) {
    i < |blocks| && End(blocks, i + 1) == n
  }

  ghost predicate Stored(crc: Log.Crc, k: nat, file: Bytes, blocks: seq<seq<Pair>>, handles: seq<Handle>)
    requires k > 0
  {
    && |handles| == |blocks|
    && (forall i :: 0 <= i < |blocks| ==> blocks[i] != [] && BlockAt(crc, k, file, handles[i], blocks[i]))
    && (forall i, j :: 0 <= i < j < |handles| ==> handles[i].offset < handles[j].offset)
  }

  ghost predicate Indexed(l: Layout, es: seq<Pair>) {
    |l.seps| <= |l.blocks| && forall i :: 0 <= i < |l.seps| ==> SplitsAt(es, l.seps[i], End(l.blocks, i + 1))
  }

  ghost predicate GoodKeys(es: seq<Pair>) {
    Increasing(InternalRank, es) && forall e :: e in es ==> IsInternal(e.key)
  }

  ghost predicate FilterOk(crc: Log.Crc, k: nat, file: Bytes, blocks: seq<seq<Pair>>, handles: seq<Handle>, meta: Handle,
                           filter: Option<StoredFilter>)
    requires k > 0
  {
    && BlockAt(crc, k, file, meta, MetaEntries(if filter.None? then None else Some(filter.value.handle)))
    && (filter.Some? ==>
          && RawAt(crc, file, filter.value.handle, filter.value.contents)
          && (|filter.value.contents| < WORD32 ==> NoFalseNegatives(MayMatchIn(filter.value), blocks, handles)))
  }

  /** Within a block, positions are 32-bit words. */
  ghost predicate SmallBlocks(k: nat, l: Layout)
    requires k > 0
  {
    && |l.seps| <= |l.handles| && |BlockBytes(1, IndexEntries(l.seps, l.handles))| < WORD32
    && forall b :: b in l.blocks ==> |BlockBytes(k, b)| < WORD32
  }

  /** `file` is a table of the entries `es`, laid out as `l`. */
  ghost predicate IsTable(crc: Log.Crc, k: nat, file: Bytes, l: Layout, es: seq<Pair>, meta: Handle, index: Handle,
                          filter: Option<StoredFilter>) {
    && k > 0 && Stored(crc, k, file, l.blocks, l.handles) && Indexed(l, es) && GoodKeys(es)
    && Joined(l.blocks) == es && |l.seps| == |l.blocks|
    && BlockAt(crc, 1, file, index, IndexEntries(l.seps, l.handles))
    && FilterOk(crc, k, file, l.blocks, l.handles, meta, filter)
    && meta.offset < WORD64 && meta.size < WORD64
    && FooterBytes(meta, index) <= file[if |file| < FOOTER_SIZE then 0 else |file| - FOOTER_SIZE..]
  }

  // ----- Building a table -----

  lemma BlockAtStays(crc: Log.Crc, k: nat, file: Bytes, more: Bytes, h: Handle, es: seq<Pair>)
    requires k > 0 && BlockAt(crc, k, file, h, es)
    ensures BlockAt(crc, k, file + more, h, es)
  {
    hide BlockBytes, RawBlock, RawAt;
    RawAtStays(crc, file, more, h, BlockBytes(k, es));
  }

  lemma RawAtStays(crc: Log.Crc, file: Bytes, more: Bytes, h: Handle, contents: Bytes)
    requires RawAt(crc, file, h, contents)
    ensures RawAt(crc, file + more, h, contents)
  {
    hide RawBlock;
    assert (file + more)[h.offset..h.offset + h.size + TRAILER_SIZE] == file[h.offset..h.offset + h.size + TRAILER_SIZE];
  }

  lemma NothingStored(crc: Log.Crc, k: nat)
    ensures k > 0 ==> Stored(crc, k, [], [], [])
    ensures Indexed(Layout([], [], []), []) && GoodKeys([]) && Joined<Pair>([]) + [] == [] && IndexEntries([], []) == []
  {
  }

  lemma NewRawAt(crc: Log.Crc, file: Bytes, contents: Bytes)
    ensures RawAt(crc, file + RawBlock(crc, contents), Handle(|file|, |contents|), contents)
  {
    hide RawBlock;
  }

  lemma FilterOkStays(crc: Log.Crc, k: nat, file: Bytes, more: Bytes, l: Layout, meta: Handle, filter: Option<StoredFilter>)
    requires k > 0 && FilterOk(crc, k, file, l.blocks, l.handles, meta, filter)
    ensures FilterOk(crc, k, file + more, l.blocks, l.handles, meta, filter)
  {
    hide BlockAt, RawAt, NoFalseNegatives, MayMatchIn, EncodeHandle;
    BlockAtStays(crc, k, file, more, meta, MetaEntries(if filter.None? then None else Some(filter.value.handle)));
    if filter.Some? {
      RawAtStays(crc, file, more, filter.value.handle, filter.value.contents);
    }
  }

  lemma NewBlockAt(crc: Log.Crc, k: nat, file: Bytes, es: seq<Pair>)
    requires k > 0
    ensures BlockAt(crc, k, file + RawBlock(crc, BlockBytes(k, es)), Handle(|file|, |BlockBytes(k, es)|), es)
  {
    hide BlockBytes, RawBlock;
  }

  class TableBuilder {
    const crc: Log.Crc
    const blockSize: nat
    const interval: nat
    var file: Bytes
    var offset: nat
    const dataBlock: BlockBuilder
    const indexBlock: BlockBuilder
    const filterBlock: FilterBlockBuilder?
    var lastKey: Bytes
    var numEntries: nat
    var closed: bool
    var pendingIndexEntry: bool
    var pendingHandle: Handle

    ghost var layout: Layout
    ghost var entries: seq<Pair>

    ghost function Repr(): set<object> {
      {this, dataBlock, indexBlock} + if filterBlock == null then {} else {filterBlock}
    }

    /** The filter has been given every key, under the offset of the key's block. */
    ghost predicate Filtering()
      reads Repr()
    {
      filterBlock != null ==>
        && filterBlock.Valid() && filterBlock.offset == |file| && |layout.handles| == |layout.blocks|
        && (forall b, e :: 0 <= b < |layout.blocks| && e in layout.blocks[b] && IsInternal(e.key) ==>
              (layout.handles[b].offset, UserPart(e.key)) in filterBlock.added)
        && (forall e :: e in dataBlock.entries && IsInternal(e.key) ==> (filterBlock.offset, UserPart(e.key)) in filterBlock.added)
    }

    ghost predicate Parts()
      reads this, dataBlock, indexBlock
    {
      && interval > 0 && dataBlock != indexBlock
      && dataBlock.Valid() && !dataBlock.finished && dataBlock.interval == interval
      && indexBlock.Valid() && !indexBlock.finished && indexBlock.interval == 1
      && offset == |file|
    }

    ghost predicate Contents()
      reads this, dataBlock, indexBlock
    {
      && interval > 0 && Stored(crc, interval, file, layout.blocks, layout.handles) && Indexed(layout, entries) && GoodKeys(entries)
      && Joined(layout.blocks) + dataBlock.entries == entries
      && (forall h :: h in layout.handles ==> h.offset < |file|)
      && indexBlock.entries == IndexEntries(layout.seps, layout.handles)
      && numEntries == |entries| && (entries != [] ==> lastKey == entries[|entries| - 1].key)
    }

    /** An index entry is pending exactly when the last block has none; then no data waits. */
    ghost predicate Pending()
      reads this, dataBlock
    {
      if pendingIndexEntry then
        dataBlock.entries == [] && |layout.blocks| == |layout.seps| + 1 == |layout.handles| &&
        pendingHandle == layout.handles[|layout.seps|]
      else |layout.blocks| == |layout.seps| && (layout.blocks != [] ==> dataBlock.entries != [])
    }

    ghost predicate Valid()
      reads Repr()
    {
      Parts() && Contents() && Pending() && Filtering()
    }

    constructor (c: Log.Crc, size: nat, k: nat, policy: BloomFilterPolicy?)
      requires k > 0 && (policy != null ==> policy.Ok())
      ensures Valid() && entries == [] && !closed && crc == c && interval == k && fresh(Repr())
      ensures filterBlock == null <==> policy == null
      ensures policy != null ==> filterBlock.policy == policy
    {
      hide FilterBlockBuilder.Valid, BlockBuilder.Valid, InternalRank, Stored, Indexed, GoodKeys, Joined, IndexEntries;
      NothingStored(c, k);
      crc, blockSize, interval := c, size, k;
      file, offset, lastKey, numEntries, closed := [], 0, [], 0, false;
      pendingIndexEntry, pendingHandle := false, Handle(0, 0);
      dataBlock := new BlockBuilder(k);
      indexBlock := new BlockBuilder(1);
      var filter: FilterBlockBuilder? := null;
      if policy != null {
        filter := new FilterBlockBuilder(policy);
      }
      filterBlock := filter;
      layout, entries := Layout([], [], []), [];
    }
 
    /** Add an entry behind all others. */
    method Add(key: Bytes, value: Bytes)
      requires Valid() && !closed && IsInternal(key)
      requires entries != [] ==> InternalRank(lastKey) < InternalRank(key)
      modifies Repr()
      ensures Valid() && !closed && entries == old(entries) + [Pair(key, value)]
    {
      hide BlockBuilder.Valid, FilterBlockBuilder.Valid, InternalRank, IsInternal, SplitsAt, Contents, Stored, Indexed, GoodKeys;
      IndexBefore(key, Pair(key, value));
      NoteKey(key);
      AppendEntry(key, value);
      var estimatedBlockSize := dataBlock.CurrentSizeEstimate();
      if estimatedBlockSize >= blockSize {
        Flush();
      }
    }

    /** Give the last block its index entry, now that the key after it is known. */
    method IndexBefore(key: Bytes, ghost e: Pair)
      requires Valid() && IsInternal(key) && e.key == key
      requires entries != [] ==> InternalRank(lastKey) < InternalRank(key)
      modifies this`pendingIndexEntry, this`layout, indexBlock
      ensures Parts() && Contents() && !pendingIndexEntry && |layout.blocks| == |layout.seps| && Follows(e)
      ensures layout.blocks == old(layout.blocks) && layout.handles == old(layout.handles)
    {
      hide BlockBuilder.Valid, InternalRank, InternalSeparator, IsInternal, SplitsAt, Contents, Stored, Indexed, GoodKeys;
      if pendingIndexEntry {
        LastKeyOk();
        InternalSeparatorBetween(lastKey, key);
        var sep := FindShortestInternalSeparator(lastKey, key);
        SeparatorSplits(key);
        AddIndexEntry(sep);
        LastSeparatorFits(e);
      } else {
        DataWaits(e);
      }
    }

    /** Give the filter, if there is one, the key. */
    method NoteKey(key: Bytes)
      requires IsInternal(key) && (filterBlock != null ==> filterBlock.Valid())
      modifies filterBlock
      ensures filterBlock != null ==>
                filterBlock.Valid() && filterBlock.offset == old(filterBlock.offset) &&
                filterBlock.added == old(filterBlock.added) + {(filterBlock.offset, UserPart(key))}
    {
      hide FilterBlockBuilder.Valid;
      if filterBlock != null {
        filterBlock.AddKey(UserPart(key));
      }
    }

    /** The entry may follow: it is behind the last key, and every index key at the end is before it. */
    ghost predicate Follows(e: Pair)
      reads this
    {
      && IsInternal(e.key) && (entries != [] ==> InternalRank(lastKey) < InternalRank(e.key))
      && forall i: nat :: i < |layout.seps| && EndsAt(layout.blocks, i, |entries|) ==>
           SplitsAt(entries + [e], layout.seps[i], |entries|)
    }

    method AppendEntry(key: Bytes, value: Bytes)
      requires Parts() && Contents() && !pendingIndexEntry && |layout.blocks| == |layout.seps| && Follows(Pair(key, value))
      modifies this`lastKey, this`numEntries, this`entries, dataBlock
      ensures Parts() && Contents() && Pending() && !pendingIndexEntry && entries == old(entries) + [Pair(key, value)]
      ensures dataBlock.entries == old(dataBlock.entries) + [Pair(key, value)]
    {
      hide BlockBuilder.Valid, InternalRank, IsInternal, SplitsAt, Stored, Indexed, GoodKeys;
      ghost var e := Pair(key, value);
      AppendKeepsTable(layout, entries, e);
      JoinedRegroup(Joined(layout.blocks), dataBlock.entries, [e]);
      lastKey := key;
      numEntries := numEntries + 1;
      dataBlock.Add(key, value);
      entries := entries + [e];
    }

    /** A separator of the last key and the one to come goes between them. */
    lemma SeparatorSplits(limit: Bytes)
      requires Valid() && pendingIndexEntry && IsInternal(limit) && entries != [] && IsInternal(lastKey)
      requires InternalRank(lastKey) < InternalRank(limit)
      ensures SplitsAt(entries, InternalSeparator(lastKey, limit), |entries|)
    {
      hide BlockBuilder.Valid, InternalRank, BytesBefore, InternalSeparator, Stored, Indexed, GoodKeys;
      InternalSeparatorBetween(lastKey, limit);
    }

    lemma LastSeparatorFits(e: Pair)
      requires Parts() && Contents() && !pendingIndexEntry && |layout.seps| == |layout.blocks| > 0 && dataBlock.entries == []
      requires entries != [] && IsInternal(e.key) && IsInternal(lastKey) && InternalRank(lastKey) < InternalRank(e.key)
      requires layout.seps[|layout.seps| - 1] == InternalSeparator(lastKey, e.key)
      ensures Follows(e)
    {
      hide BlockBuilder.Valid, Stored, Indexed, GoodKeys, InternalRank, BytesBefore, InternalSeparator;
      InternalSeparatorBetween(lastKey, e.key);
      assert Joined(layout.blocks) + [] == Joined(layout.blocks);
      forall i: nat | i < |layout.seps| && EndsAt(layout.blocks, i, |entries|)
        ensures SplitsAt(entries + [e], layout.seps[i], |entries|)
      {
        EndsInside(crc, interval, file, layout, i);
      }
    }

    /** Data that waits keeps all index keys away from the end. */
    lemma DataWaits(e: Pair)
      requires Valid() && !pendingIndexEntry && IsInternal(e.key)
      requires entries != [] ==> InternalRank(lastKey) < InternalRank(e.key)
      ensures Follows(e)
    {
      hide BlockBuilder.Valid, Stored, Indexed, GoodKeys, InternalRank, SplitsAt;
      forall i: nat | i < |layout.seps|
        ensures !EndsAt(layout.blocks, i, |entries|)
      {
        EndsInside(crc, interval, file, layout, i);
      }
    }

    lemma LastKeyOk()
      requires Parts() && Contents() && Pending() && pendingIndexEntry
      ensures entries != [] && IsInternal(lastKey)
    {
      hide BlockBuilder.Valid, InternalRank, IsInternal, SplitsAt;
      var n := |layout.blocks| - 1;
      assert layout.blocks[n] != [];
      assert entries[|entries| - 1] in entries;
    }

    /** Give the last block its index entry. */
    method AddIndexEntry(sep: Bytes)
      requires Parts() && Contents() && Pending() && pendingIndexEntry && SplitsAt(entries, sep, |entries|)
      modifies this`pendingIndexEntry, this`layout, indexBlock
      ensures Parts() && Contents() && !pendingIndexEntry && |layout.blocks| == |layout.seps| > 0
      ensures layout == old(layout).(seps := old(layout).seps + [sep])
    {
      hide BlockBuilder.Valid, Stored, GoodKeys, InternalRank, SplitsAt, EncodeHandle, Indexed;
      assert Joined(layout.blocks) + [] == Joined(layout.blocks);
      IndexGrows(layout, entries, sep, pendingHandle);
      indexBlock.Add(sep, EncodeHandle(pendingHandle));
      pendingIndexEntry := false;
      layout := layout.(seps := layout.seps + [sep]);
      assert Stored(crc, interval, file, layout.blocks, layout.handles);
    }

    /** Write out the data block, if there is anything in it. */
    method Flush()
      requires Valid()
      modifies this, dataBlock, filterBlock
      ensures Valid() && entries == old(entries) && closed == old(closed)
      ensures dataBlock.entries == [] && (pendingIndexEntry <==> layout.blocks != [])
    {
      hide BlockBuilder.Valid, FilterBlockBuilder.Valid, GoodKeys, InternalRank, SplitsAt, BlockBytes, Stored, Indexed, RawBlock,
        Joined, IndexEntries, IsInternal;
      var empty := dataBlock.Empty();
      if empty {
        return;
      }
      WriteDataBlock();
      if filterBlock != null {
        filterBlock.StartBlock(offset);
      }
    }

    method WriteDataBlock()
      requires Parts() && Contents() && Pending() && dataBlock.entries != [] && !pendingIndexEntry
      modifies this`file, this`offset, this`pendingHandle, this`pendingIndexEntry, this`layout, dataBlock
      ensures Parts() && Contents() && Pending() && pendingIndexEntry && dataBlock.entries == [] && |file| >= |old(file)|
      ensures layout.blocks == old(layout).blocks + [old(dataBlock.entries)]
      ensures layout.handles == old(layout).handles + [pendingHandle] && pendingHandle.offset == |old(file)|
    {
      hide BlockBuilder.Valid, GoodKeys, InternalRank, SplitsAt, BlockBytes, Stored, Indexed, RawBlock, Joined, IndexEntries,
        IsInternal;
      ghost var data := dataBlock.entries;
      pendingHandle := WriteBlock(dataBlock);
      pendingIndexEntry := true;
      BlockKeepsStored(crc, interval, old(file), layout, data);
      BlockKeepsIndexed(layout, entries, data, pendingHandle);
      JoinedOne(layout.blocks, data);
      layout := Layout(layout.blocks + [data], layout.handles + [pendingHandle], layout.seps);
    }

    /** Finish a block, append it to the file, and start it anew. */
    method WriteBlock(block: BlockBuilder) returns (h: Handle)
      requires block.Valid() && !block.finished && offset == |file|
      modifies this`file, this`offset, block
      ensures block.Valid() && !block.finished && block.entries == []
      ensures var contents := BlockBytes(block.interval, old(block.entries));
              h == Handle(|old(file)|, |contents|) && file == old(file) + RawBlock(crc, contents)
      ensures offset == |file|
    {
      hide BlockBytes, RawBlock;
      var raw := block.Finish();
      h := WriteRawBlock(raw);
      block.Reset();
    }

    /** Append contents to the file with their trailer. */
    method WriteRawBlock(contents: Bytes) returns (h: Handle)
      requires offset == |file|
      modifies this`file, this`offset
      ensures h == Handle(|old(file)|, |contents|) && file == old(file) + RawBlock(crc, contents) && offset == |file|
    {
      hide EncodeFixed32, Log.Mask;
      h := Handle(offset, |contents|);
      file := file + contents;
      var trailer := [0] + EncodeFixed32(Log.Mask(crc(contents + [0])));
      file := file + trailer;
      assert contents + trailer == RawBlock(crc, contents);
      offset := offset + |contents| + TRAILER_SIZE;
    }

    /** Write what waits, the filter, the metaindex, the index and the footer. */
    method Finish() returns (ghost meta: Handle, ghost index: Handle, ghost filter: Option<StoredFilter>)
      requires Valid() && !closed
      modifies Repr()
      ensures closed && entries == old(entries)
      ensures |file| < WORD64 ==> IsTable(crc, interval, file, layout, entries, meta, index, filter)
      ensures filter.Some? <==> filterBlock != null
      ensures filter.Some? ==> filter.value.hash == filterBlock.policy.hash
    {
      hide BlockBuilder.Valid, FilterBlockBuilder.Valid, GoodKeys, InternalRank, SplitsAt, BlockBytes, Stored, Indexed,
        InternalSuccessor, EncodeHandle, BlockAt, FooterBytes, FilterOk, RawBlock;
      Flush();
      closed := true;
      var metaHandle;
      metaHandle, filter := WriteMeta();
      LastIndexEntry();
      var indexHandle := WriteIndex(metaHandle, filter);
      meta, index := metaHandle, indexHandle;
    }

    /** Give the last block its index entry. */
    method LastIndexEntry()
      requires Parts() && Contents() && Pending() && dataBlock.entries == []
      modifies this`pendingIndexEntry, this`layout, indexBlock
      ensures Parts() && Contents() && |layout.blocks| == |layout.seps| && Joined(layout.blocks) == entries
      ensures layout.blocks == old(layout.blocks) && layout.handles == old(layout.handles)
    {
      hide BlockBuilder.Valid, GoodKeys, InternalRank, SplitsAt, Stored, Indexed, InternalSuccessor;
      assert Joined(layout.blocks) + [] == Joined(layout.blocks);
      if pendingIndexEntry {
        LastKeyOk();
        SuccessorSplits(entries, lastKey);
        var sep := FindShortInternalSuccessor(lastKey);
        AddIndexEntry(sep);
      }
    }

    /** The index block and the footer. */
    method WriteIndex(metaHandle: Handle, ghost filter: Option<StoredFilter>) returns (indexHandle: Handle)
      requires Parts() && Contents() && |layout.blocks| == |layout.seps| && Joined(layout.blocks) == entries
      requires FilterOk(crc, interval, file, layout.blocks, layout.handles, metaHandle, filter)
      requires metaHandle.offset < |file| && metaHandle.size < |file|
      modifies this`file, this`offset, indexBlock
      ensures |file| < WORD64 ==> IsTable(crc, interval, file, layout, entries, metaHandle, indexHandle, filter)
    {
      hide BlockBuilder.Valid, GoodKeys, InternalRank, SplitsAt, BlockBytes, Stored, Indexed, EncodeHandle, BlockAt, FooterBytes,
        FilterOk, RawBlock, IndexEntries;
      ghost var file1 := file;
      ghost var raw := RawBlock(crc, BlockBytes(1, indexBlock.entries));
      NewBlockAt(crc, 1, file1, indexBlock.entries);
      indexHandle := WriteBlock(indexBlock);
      var footer := FooterBytes(metaHandle, indexHandle);
      file := file + footer;
      offset := offset + |footer|;
      assert file == file1 + (raw + footer);
      if |file| < WORD64 {
        StoredStays(crc, interval, file1, raw + footer, layout);
        FilterOkStays(crc, interval, file1, raw + footer, layout, metaHandle, filter);
        BlockAtStays(crc, 1, file1 + raw, footer, indexHandle, old(indexBlock.entries));
        FooterLast(file1 + raw, metaHandle, indexHandle);
        FooterSize(metaHandle, indexHandle);
      }
    }

    /** The filter block, if there is a filter, and the metaindex that leads to it. */
    method WriteMeta() returns (metaHandle: Handle, ghost filter: Option<StoredFilter>)
      requires Valid() && dataBlock.entries == []
      modifies this`file, this`offset, filterBlock
      ensures Parts() && Contents() && Pending()
      ensures FilterOk(crc, interval, file, layout.blocks, layout.handles, metaHandle, filter)
      ensures metaHandle.offset < |file| && metaHandle.size < |file|
      ensures filter.Some? <==> filterBlock != null
      ensures filter.Some? ==> filter.value.hash == filterBlock.policy.hash
    {
      hide BlockBuilder.Valid, FilterBlockBuilder.Valid, GoodKeys, InternalRank, SplitsAt, BlockBytes, Stored, Indexed,
        EncodeHandle, RawBlock, FilterBytes, MayMatchIn, NoFalseNegatives, RawAt, IndexEntries;
      ghost var file0 := file;
      var metaBlock := new BlockBuilder(interval);
      ghost var filterRaw;
      filter, filterRaw := WriteFilter(metaBlock);
      ghost var file1 := file;
      ghost var metaRaw := RawBlock(crc, BlockBytes(interval, metaBlock.entries));
      NewBlockAt(crc, interval, file1, metaBlock.entries);
      metaHandle := WriteBlock(metaBlock);
      if filter.Some? {
        RawAtStays(crc, file1, metaRaw, filter.value.handle, filter.value.contents);
      }
      assert file == file0 + (filterRaw + metaRaw);
      StoredStays(crc, interval, file0, filterRaw + metaRaw, layout);
    }

    /** The filter block, if there is a filter, and its entry in the metaindex. */
    method WriteFilter(metaBlock: BlockBuilder) returns (ghost filter: Option<StoredFilter>, ghost raw: Bytes)
      requires Parts() && Contents() && Filtering() && metaBlock !in {dataBlock, indexBlock}
      requires metaBlock.Valid() && !metaBlock.finished && metaBlock.entries == []
      modifies this`file, this`offset, filterBlock, metaBlock
      ensures metaBlock.Valid() && !metaBlock.finished && offset == |file| && file == old(file) + raw
      ensures metaBlock.entries == MetaEntries(if filter.None? then None else Some(filter.value.handle))
      ensures filter.Some? <==> filterBlock != null
      ensures filter.Some? ==>
                && filter.value.hash == filterBlock.policy.hash
                && RawAt(crc, file, filter.value.handle, filter.value.contents)
                && (|filter.value.contents| < WORD32 ==> NoFalseNegatives(MayMatchIn(filter.value), layout.blocks, layout.handles))
    {
      hide BlockBuilder.Valid, FilterBlockBuilder.Valid, GoodKeys, InternalRank, SplitsAt, BlockBytes, Stored, Indexed,
        EncodeHandle, RawBlock, FilterBytes, MayMatchIn, NoFalseNegatives, RawAt, IndexEntries;
      filter, raw := None, [];
      if filterBlock != null {
        ghost var file0 := file;
        var contents := filterBlock.Finish();
        var filterHandle := WriteRawBlock(contents);
        raw := RawBlock(crc, contents);
        filter := Some(StoredFilter(filterBlock.policy.hash, filterHandle, contents));
        metaBlock.Add(FILTER_KEY, EncodeHandle(filterHandle));
        if |contents| < WORD32 {
          FilterCovers(contents);
        }
        NewRawAt(crc, file0, contents);
      }
    }

    /** The finished filter keeps out no entry of any block. */
    lemma FilterCovers(contents: Bytes)
      requires filterBlock != null && filterBlock.Valid() && filterBlock.pending == []
      requires contents == FilterBytes(filterBlock.result, filterBlock.filterOffsets) && |contents| < WORD32
      requires |layout.handles| == |layout.blocks|
      requires forall b, e :: 0 <= b < |layout.blocks| && e in layout.blocks[b] && IsInternal(e.key) ==>
                 (layout.handles[b].offset, UserPart(e.key)) in filterBlock.added
      ensures forall h: Handle :: NoFalseNegatives(MayMatchIn(StoredFilter(filterBlock.policy.hash, h, contents)), layout.blocks, layout.handles)
    {
      hide FilterBlockBuilder.Valid, FilterBytes;
      forall b, e, k, h: Handle | 0 <= b < |layout.blocks| && e in layout.blocks[b] && SameUser(e.key, k)
        ensures MayMatchIn(StoredFilter(filterBlock.policy.hash, h, contents))(layout.handles[b].offset, k)
      {
        AddedMayMatch(filterBlock, contents, layout.handles[b].offset, UserPart(k));
      }
    }
  }

  // ----- Lemmas of the builder -----

  lemma JoinedRegroup(a: seq<Pair>, b: seq<Pair>, c: seq<Pair>)
    ensures a + b + c == a + (b + c)
  {
  }

  lemma {:induction false} EndsRise(blocks: seq<seq<Pair>>, i: nat, j: nat)
    requires i < j <= |blocks| && forall b :: b in blocks ==> b != []
    ensures End(blocks, i) < End(blocks, j)
    decreases j - i
  {
    assert blocks[..j][..j - 1] == blocks[..j - 1];
    assert blocks[j - 1] in blocks;
    if i < j - 1 {
      EndsRise(blocks, i, j - 1);
    }
  }

  /** Index keys other than that of the last block have entries behind them already. */
  lemma EndsInside(crc: Log.Crc, k: nat, file: Bytes, l: Layout, i: nat)
    requires k > 0 && Stored(crc, k, file, l.blocks, l.handles) && i < |l.blocks|
    ensures End(l.blocks, i + 1) <= |Joined(l.blocks)|
    ensures i + 1 < |l.blocks| ==> End(l.blocks, i + 1) < |Joined(l.blocks)|
  {
    hide BlockAt;
    assert l.blocks[..|l.blocks|] == l.blocks;
    if i + 1 < |l.blocks| {
      EndsRise(l.blocks, i + 1, |l.blocks|);
    }
  }

  /** When an entry is added, an index key at the very end must go before it; the others stand. */
  lemma AppendKeepsTable(l: Layout, es: seq<Pair>, e: Pair)
    requires Indexed(l, es) && GoodKeys(es) && IsInternal(e.key)
    requires es != [] ==> InternalRank(es[|es| - 1].key) < InternalRank(e.key)
    requires forall i: nat :: i < |l.seps| && EndsAt(l.blocks, i, |es|) ==> SplitsAt(es + [e], l.seps[i], |es|)
    ensures Indexed(l, es + [e]) && GoodKeys(es + [e])
  {
    hide InternalRank, BytesBefore;
    var fs := es + [e];
    forall i | 0 <= i < |l.seps|
      ensures SplitsAt(fs, l.seps[i], End(l.blocks, i + 1))
    {
      assert SplitsAt(es, l.seps[i], End(l.blocks, i + 1));
      assert EndsAt(l.blocks, i, |es|) <==> End(l.blocks, i + 1) == |es|;
    }
    assert Increasing(InternalRank, fs);
  }

  /** The index key of the last block. */
  lemma IndexGrows(l: Layout, es: seq<Pair>, sep: Bytes, h: Handle)
    requires Indexed(l, es) && |l.blocks| == |l.seps| + 1 == |l.handles| && h == l.handles[|l.seps|]
    requires Joined(l.blocks) == es && SplitsAt(es, sep, |es|)
    ensures Indexed(l.(seps := l.seps + [sep]), es)
    ensures IndexEntries(l.seps + [sep], l.handles) == IndexEntries(l.seps, l.handles) + [Pair(sep, EncodeHandle(h))]
  {
    hide SplitsAt, EncodeHandle;
    assert l.blocks[..|l.blocks|] == l.blocks;
  }

  lemma SuccessorSplits(es: seq<Pair>, key: Bytes)
    requires es != [] && es[|es| - 1].key == key && IsInternal(key)
    ensures SplitsAt(es, InternalSuccessor(key), |es|)
  {
    hide InternalRank, BytesBefore, InternalSuccessor;
    InternalSuccessorAfter(key);
  }

  lemma StoredStays(crc: Log.Crc, k: nat, file: Bytes, more: Bytes, l: Layout)
    requires k > 0 && Stored(crc, k, file, l.blocks, l.handles)
    ensures Stored(crc, k, file + more, l.blocks, l.handles)
  {
    hide BlockAt;
    forall i | 0 <= i < |l.blocks|
      ensures BlockAt(crc, k, file + more, l.handles[i], l.blocks[i])
    {
      BlockAtStays(crc, k, file, more, l.handles[i], l.blocks[i]);
    }
  }

  lemma BlockKeepsStored(crc: Log.Crc, k: nat, file: Bytes, l: Layout, data: seq<Pair>)
    requires k > 0 && Stored(crc, k, file, l.blocks, l.handles) && data != [] && forall h :: h in l.handles ==> h.offset < |file|
    ensures var h := Handle(|file|, |BlockBytes(k, data)|);
            |l.handles| == |l.blocks| && Stored(crc, k, file + RawBlock(crc, BlockBytes(k, data)), l.blocks + [data], l.handles + [h])
  {
    hide BlockAt, BlockBytes, RawBlock;
    var more := RawBlock(crc, BlockBytes(k, data));
    StoredStays(crc, k, file, more, l);
    NewBlockAt(crc, k, file, data);
  }

  lemma BlockKeepsIndexed(l: Layout, es: seq<Pair>, data: seq<Pair>, h: Handle)
    requires Indexed(l, es)
    ensures Indexed(Layout(l.blocks + [data], l.handles + [h], l.seps), es)
  {
    hide SplitsAt;
    forall i | 0 <= i < |l.seps|
      ensures SplitsAt(es, l.seps[i], End(l.blocks + [data], i + 1))
    {
      assert (l.blocks + [data])[..i + 1] == l.blocks[..i + 1];
    }
  }

  lemma FooterSize(meta: Handle, index: Handle)
    requires meta.offset < WORD64 && meta.size < WORD64 && index.offset < WORD64 && index.size < WORD64
    ensures |EncodeHandle(meta) + EncodeHandle(index)| <= 40 && |FooterBytes(meta, index)| == FOOTER_SIZE
  {
    hide EncodeFixed32;
    HandleSize(meta);
    HandleSize(index);
  }

  lemma HandleSize(h: Handle)
    requires h.offset < WORD64 && h.size < WORD64
    ensures |EncodeHandle(h)| <= 20
  {
    hide Varint;
    assert Power128(5) == 0x8_0000_0000;
    assert Power128(10) == 0x40_0000_0000_0000_0000;
    VarintRoundTrip(h.offset, [], 10);
    VarintRoundTrip(h.size, [], 10);
  }

  lemma FooterLast(file: Bytes, meta: Handle, index: Handle)
    ensures var all := file + FooterBytes(meta, index);
            |FooterBytes(meta, index)| == FOOTER_SIZE ==> FooterBytes(meta, index) <= all[if |all| < FOOTER_SIZE then 0 else |all| - FOOTER_SIZE..]
  {
    hide FooterBytes;
  }
}
