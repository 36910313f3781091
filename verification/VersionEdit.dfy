/** Version edits as records of the manifest: a list of tagged fields as bytes. */
module VersionEdits {
  import opened Keys
  import opened Coding
  import opened Files
  import opened WriteBatches

  const COMPARATOR: Word32 := 1
  const LOG_NUMBER: Word32 := 2
  const NEXT_FILE_NUMBER: Word32 := 3
  const LAST_SEQUENCE: Word32 := 4
  const COMPACT_POINTER: Word32 := 5
  const DELETED_FILE: Word32 := 6
  const NEW_FILE: Word32 := 7
  const PREV_LOG_NUMBER: Word32 := 9

  /** What an edit says of a table file; its bounds are encoded internal keys. */
  datatype FileMeta = FileMeta(number: Word64, size: Word64, smallest: Bytes, largest: Bytes)

  /** The contents of an edit. */
  datatype Fields = Fields(comparator: Option<Bytes>, logNumber: Option<Word64>, prevLogNumber: Option<Word64>,
                           nextFile: Option<Word64>, lastSequence: Option<Word64>,
                           pointers: seq<(Word32, Bytes)>, deleted: seq<(Word32, Word64)>,
                           added: seq<(Word32, FileMeta)>)

  /** One tagged record of an encoded edit. */
  datatype Item =
    | Comparator(name: Bytes)
    | LogNumber(number: Word64)
    | PrevLogNumber(number: Word64)
    | NextFile(number: Word64)
    | LastSequence(number: Word64)
    | CompactPointer(level: Word32, key: Bytes)
    | DeletedFile(level: Word32, number: Word64)
    | NewFile(level: Word32, file: FileMeta)

  // ----- The set of deleted files -----

  predicate Lower(p: (Word32, Word64), q: (Word32, Word64)) {
    p.0 < q.0 || (p.0 == q.0 && p.1 < q.1)
  }

  /** A set of pairs is kept as the list of its members in order. */
  predicate Increasing(s: seq<(Word32, Word64)>) {
    forall i, j :: 0 <= i < j < |s| ==> Lower(s[i], s[j])
  }

  function InsertPair(s: seq<(Word32, Word64)>, p: (Word32, Word64)): (r: seq<(Word32, Word64)>)
    ensures forall q :: q in r <==> q == p || q in s
  {
    if s == [] || Lower(p, s[0]) then [p] + s
    else if p == s[0] then s
    else
      assert forall q :: q in s <==> q == s[0] || q in s[1..];
      [s[0]] + InsertPair(s[1..], p)
  }

  lemma {:induction false} InsertKeepsOrder(s: seq<(Word32, Word64)>, p: (Word32, Word64))
    requires Increasing(s)
    ensures Increasing(InsertPair(s, p))
  {
    if s != [] && p != s[0] && !Lower(p, s[0]) {
      InsertKeepsOrder(s[1..], p);
      var rest := InsertPair(s[1..], p);
      forall j | 0 <= j < |rest|
        ensures Lower(s[0], rest[j])
      {
        assert rest[j] in rest;
        assert rest[j] != p ==> rest[j] in s[1..];
      }
    }
  }

  lemma {:induction false} InsertLast(s: seq<(Word32, Word64)>, p: (Word32, Word64))
    requires Increasing(s + [p])
    ensures InsertPair(s, p) == s + [p]
  {
    if s != [] {
      assert (s + [p])[0] == s[0] && (s + [p])[|s|] == p;
      assert (s + [p])[1..] == s[1..] + [p];
      InsertLast(s[1..], p);
    }
  }

  // ----- The bytes -----

  function EncodeItem(it: Item): Bytes {
    match it
    case Comparator(name) => Varint(COMPARATOR) + LengthPrefixed(name)
    case LogNumber(n) => Varint(LOG_NUMBER) + Varint(n)
    case PrevLogNumber(n) => Varint(PREV_LOG_NUMBER) + Varint(n)
    case NextFile(n) => Varint(NEXT_FILE_NUMBER) + Varint(n)
    case LastSequence(n) => Varint(LAST_SEQUENCE) + Varint(n)
    case CompactPointer(level, key) => Varint(COMPACT_POINTER) + Varint(level) + LengthPrefixed(key)
    case DeletedFile(level, n) => Varint(DELETED_FILE) + Varint(level) + Varint(n)
    case NewFile(level, f) =>
      Varint(NEW_FILE) + Varint(level) + Varint(f.number) + Varint(f.size) +
      LengthPrefixed(f.smallest) + LengthPrefixed(f.largest)
  }

  function EncodeItems(items: seq<Item>): Bytes {
    if items == [] then [] else EncodeItem(items[0]) + EncodeItems(items[1..])
  }

  lemma {:induction false} EncodeItemsSplits(a: seq<Item>, b: seq<Item>)
    ensures EncodeItems(a + b) == EncodeItems(a) + EncodeItems(b)
  {
    if a == [] {
      assert a + b == b;
    } else {
      assert (a + b)[1..] == a[1..] + b;
      EncodeItemsSplits(a[1..], b);
    }
  }

  function LogItem(n: Word64): Item { LogNumber(n) }
  function PrevLogItem(n: Word64): Item { PrevLogNumber(n) }
  function NextFileItem(n: Word64): Item { NextFile(n) }
  function LastSequenceItem(n: Word64): Item { LastSequence(n) }
  function PointerItem(p: (Word32, Bytes)): Item { CompactPointer(p.0, p.1) }
  function DeletedItem(p: (Word32, Word64)): Item { DeletedFile(p.0, p.1) }
  function AddedItem(p: (Word32, FileMeta)): Item { NewFile(p.0, p.1) }

  function Mapped<T>(s: seq<T>, f: T -> Item): seq<Item> {
    seq(|s|, i requires 0 <= i < |s| => f(s[i]))
  }

  function NameItem(name: Option<Bytes>): seq<Item> {
    match name case None => [] case Some(n) => [Comparator(n)]
  }

  function NumberItem(number: Option<Word64>, make: Word64 -> Item): seq<Item> {
    match number case None => [] case Some(n) => [make(n)]
  }

  /** The fields that an edit has at most once. */
  function SingleItems(c: Fields): seq<Item> {
    NameItem(c.comparator) + NumberItem(c.logNumber, LogItem) + NumberItem(c.prevLogNumber, PrevLogItem) +
    NumberItem(c.nextFile, NextFileItem) + NumberItem(c.lastSequence, LastSequenceItem)
  }

  function Items(c: Fields): seq<Item> {
    SingleItems(c) + Mapped(c.pointers, PointerItem) + Mapped(c.deleted, DeletedItem) + Mapped(c.added, AddedItem)
  }

  // ----- Parsing -----

  datatype ParsedItem = Got(item: Item, rest: Bytes) | Bad(message: string)

  function GetLevel(input: Bytes): Option<(Word32, Bytes)> {
    match GetVarint32(input)
    case None => None
    case Some((v, rest)) => if v < NUM_LEVELS then Some((v, rest)) else None
  }

  /** A single number, as the item that `make` makes of it. */
  function ParseNumber(input: Bytes, make: Word64 -> Item, what: string): ParsedItem {
    match GetVarint64(input)
    case None => Bad(what)
    case Some((n, rest)) => Got(make(n), rest)
  }

  function ParseFile(level: Word32, input: Bytes): ParsedItem {
    match GetVarint64(input)
    case None => Bad("new-file entry")
    case Some((number, a)) =>
      match GetVarint64(a)
      case None => Bad("new-file entry")
      case Some((size, b)) =>
        match GetLengthPrefixed(b)
        case None => Bad("new-file entry")
        case Some((smallest, c)) =>
          match GetLengthPrefixed(c)
          case None => Bad("new-file entry")
          case Some((largest, rest)) => Got(NewFile(level, FileMeta(number, size, smallest, largest)), rest)
  }

  /** The record of tag `tag` at the front of `input`. */
  function ParseItem(tag: Word32, input: Bytes): ParsedItem {
    if tag == COMPARATOR then
      match GetLengthPrefixed(input)
      case None => Bad("comparator name")
      case Some((name, rest)) => Got(Comparator(name), rest)
    else if tag == LOG_NUMBER then ParseNumber(input, (n: Word64) => LogNumber(n), "log number")
    else if tag == PREV_LOG_NUMBER then ParseNumber(input, (n: Word64) => PrevLogNumber(n), "previous log number")
    else if tag == NEXT_FILE_NUMBER then ParseNumber(input, (n: Word64) => NextFile(n), "next file number")
    else if tag == LAST_SEQUENCE then ParseNumber(input, (n: Word64) => LastSequence(n), "last sequence number")
    else if tag == COMPACT_POINTER then
      match GetLevel(input)
      case None => Bad("compaction pointer")
      case Some((level, more)) =>
        match GetLengthPrefixed(more)
        case None => Bad("compaction pointer")
        case Some((key, rest)) => Got(CompactPointer(level, key), rest)
    else if tag == DELETED_FILE then
      match GetLevel(input)
      case None => Bad("deleted file")
      case Some((level, more)) => ParseNumber(more, (n: Word64) => DeletedFile(level, n), "deleted file")
    else if tag == NEW_FILE then
      match GetLevel(input)
      case None => Bad("new-file entry")
      case Some((level, more)) => ParseFile(level, more)
    else Bad("unknown tag")
  }

  lemma ParseShrinks(tag: Word32, input: Bytes)
    ensures ParseItem(tag, input).Got? ==> |ParseItem(tag, input).rest| < |input|
  {
    hide GetLengthPrefixed, GetVarint32, GetVarint64;
    forall b: Bytes
      ensures GetLengthPrefixed(b).Some? ==> |GetLengthPrefixed(b).value.1| < |b|
      ensures GetVarint32(b).Some? ==> |GetVarint32(b).value.1| < |b|
      ensures GetVarint64(b).Some? ==> |GetVarint64(b).value.1| < |b|
    {
      PrefixedShrinks(b);
      NumbersShrink(b);
    }
  }

  lemma NumbersShrink(b: Bytes)
    ensures GetVarint32(b).Some? ==> |GetVarint32(b).value.1| < |b|
    ensures GetVarint64(b).Some? ==> |GetVarint64(b).value.1| < |b|
  {
    VarintShrinks(b, 5);
    VarintShrinks(b, 10);
  }

  /** The records of `input` up to the first that is bad, and what is wrong with that one. */
  function ScanItems(input: Bytes): (seq<Item>, Option<string>)
    decreases |input|
  {
    match GetVarint32(input)
    case None => ([], if input == [] then None else Some("invalid tag"))
    case Some((tag, more)) =>
      match ParseItem(tag, more)
      case Bad(message) => ([], Some(message))
      case Got(it, rest) =>
        NumbersShrink(input);
        ParseShrinks(tag, more);
        var s := ScanItems(rest);
        ([it] + s.0, s.1)
  }

  // ----- Printing and parsing -----

  /** Lengths are stored in 32 bits. */
  predicate ItemFits(it: Item) {
    match it
    case Comparator(name) => |name| < WORD32
    case CompactPointer(_, key) => |key| < WORD32
    case NewFile(_, f) => |f.smallest| < WORD32 && |f.largest| < WORD32
    case _ => true
  }

  predicate LevelFits(it: Item) {
    (it.CompactPointer? || it.DeletedFile? || it.NewFile?) ==> it.level < NUM_LEVELS
  }

  lemma ItemRoundTrip(it: Item, rest: Bytes)
    requires ItemFits(it)
    ensures var b := EncodeItem(it) + rest;
            GetVarint32(b).Some? &&
            (var (tag, more) := GetVarint32(b).value;
             if LevelFits(it) then ParseItem(tag, more) == Got(it, rest) else ParseItem(tag, more).Bad?)
  {
    hide Varint, GetVarint32, GetVarint64, GetLengthPrefixed, LengthPrefixed;
    match it {
      case Comparator(name) => TagAnd(COMPARATOR, LengthPrefixed(name), rest); LengthPrefixedRoundTrip(name, rest);
      case LogNumber(n) => TagAnd(LOG_NUMBER, Varint(n), rest); Varint64RoundTrip(n, rest);
      case PrevLogNumber(n) => TagAnd(PREV_LOG_NUMBER, Varint(n), rest); Varint64RoundTrip(n, rest);
      case NextFile(n) => TagAnd(NEXT_FILE_NUMBER, Varint(n), rest); Varint64RoundTrip(n, rest);
      case LastSequence(n) => TagAnd(LAST_SEQUENCE, Varint(n), rest); Varint64RoundTrip(n, rest);
      case CompactPointer(level, key) =>
        TagAndLevel(COMPACT_POINTER, level, LengthPrefixed(key), rest);
        LengthPrefixedRoundTrip(key, rest);
      case DeletedFile(level, n) => TagAndLevel(DELETED_FILE, level, Varint(n), rest); Varint64RoundTrip(n, rest);
      case NewFile(level, f) =>
        var body := Varint(f.number) + Varint(f.size) + LengthPrefixed(f.smallest) + LengthPrefixed(f.largest);
        assert EncodeItem(it) == Varint(NEW_FILE) + Varint(level) + body;
        TagAndLevel(NEW_FILE, level, body, rest);
        FileRoundTrip(level, f, rest);
    }
  }

  lemma FileRoundTrip(level: Word32, f: FileMeta, rest: Bytes)
    requires |f.smallest| < WORD32 && |f.largest| < WORD32
    ensures var body := Varint(f.number) + Varint(f.size) + LengthPrefixed(f.smallest) + LengthPrefixed(f.largest);
            ParseFile(level, body + rest) == Got(NewFile(level, f), rest)
  {
    hide Varint, GetVarint32, GetVarint64, GetLengthPrefixed, LengthPrefixed;
    var l := LengthPrefixed(f.largest) + rest;
    var sl := LengthPrefixed(f.smallest) + l;
    var ssl := Varint(f.size) + sl;
    assert Varint(f.number) + Varint(f.size) + LengthPrefixed(f.smallest) + LengthPrefixed(f.largest) + rest ==
           Varint(f.number) + ssl;
    Varint64RoundTrip(f.number, ssl);
    Varint64RoundTrip(f.size, sl);
    LengthPrefixedRoundTrip(f.smallest, l);
    LengthPrefixedRoundTrip(f.largest, rest);
  }

  lemma TagAnd(tag: Word32, body: Bytes, rest: Bytes)
    ensures GetVarint32(Varint(tag) + body + rest) == Some((tag, body + rest))
  {
    assert Varint(tag) + body + rest == Varint(tag) + (body + rest);
    Varint32RoundTrip(tag, body + rest);
  }

  lemma TagAndLevel(tag: Word32, level: Word32, body: Bytes, rest: Bytes)
    ensures GetVarint32(Varint(tag) + Varint(level) + body + rest) == Some((tag, Varint(level) + (body + rest)))
    ensures GetLevel(Varint(level) + (body + rest)) == if level < NUM_LEVELS then Some((level, body + rest)) else None
  {
    assert Varint(tag) + Varint(level) + body + rest == Varint(tag) + (Varint(level) + (body + rest));
    Varint32RoundTrip(tag, Varint(level) + (body + rest));
    Varint32RoundTrip(level, body + rest);
  }

  /** The records before the first whose level is out of range. */
  function GoodItems(items: seq<Item>): seq<Item> {
    if items == [] || !LevelFits(items[0]) then [] else [items[0]] + GoodItems(items[1..])
  }

  /** Scanning what was printed gives the records back, as far as their levels are in range. */
  lemma {:induction false} ScanRoundTrip(items: seq<Item>)
    requires forall it :: it in items ==> ItemFits(it)
    ensures ScanItems(EncodeItems(items)).0 == GoodItems(items)
    ensures ScanItems(EncodeItems(items)).1 == None <==> GoodItems(items) == items
  {
    hide EncodeItem, ParseItem;
    if items != [] {
      ItemRoundTrip(items[0], EncodeItems(items[1..]));
      assert items[0] in items;
      ScanRoundTrip(items[1..]);
      assert items == [items[0]] + items[1..];
    }
  }

  lemma {:induction false} GoodItemsAre(items: seq<Item>)
    ensures GoodItems(items) == items <==> forall it :: it in items ==> LevelFits(it)
    ensures GoodItems(items) <= items
  {
    if items != [] {
      GoodItemsAre(items[1..]);
      assert items == [items[0]] + items[1..];
      assert forall it :: it in items <==> it == items[0] || it in items[1..];
    }
  }

  // ----- What the records say -----

  const NOTHING := Fields(None, None, None, None, None, [], [], [])

  function ApplyItem(c: Fields, it: Item): Fields {
    match it
    case Comparator(name) => c.(comparator := Some(name))
    case LogNumber(n) => c.(logNumber := Some(n))
    case PrevLogNumber(n) => c.(prevLogNumber := Some(n))
    case NextFile(n) => c.(nextFile := Some(n))
    case LastSequence(n) => c.(lastSequence := Some(n))
    case CompactPointer(level, key) => c.(pointers := c.pointers + [(level, key)])
    case DeletedFile(level, n) => c.(deleted := InsertPair(c.deleted, (level, n)))
    case NewFile(level, f) => c.(added := c.added + [(level, f)])
  }

  function ApplyItems(c: Fields, items: seq<Item>): Fields
    decreases |items|
  {
    if items == [] then c else ApplyItems(ApplyItem(c, items[0]), items[1..])
  }

  lemma {:induction false} ApplySplits(c: Fields, a: seq<Item>, b: seq<Item>)
    ensures ApplyItems(c, a + b) == ApplyItems(ApplyItems(c, a), b)
    decreases |a|
  {
    if a == [] {
      assert a + b == b;
    } else {
      assert (a + b)[0] == a[0] && (a + b)[1..] == a[1..] + b;
      ApplySplits(ApplyItem(c, a[0]), a[1..], b);
    }
  }

  lemma {:induction false} ApplyPointers(c: Fields, s: seq<(Word32, Bytes)>)
    ensures ApplyItems(c, Mapped(s, PointerItem)) == c.(pointers := c.pointers + s)
    decreases |s|
  {
    if s == [] {
      assert c.pointers + s == c.pointers;
    } else {
      assert Mapped(s, PointerItem)[1..] == Mapped(s[1..], PointerItem);
      ApplyPointers(ApplyItem(c, PointerItem(s[0])), s[1..]);
      assert c.pointers + [s[0]] + s[1..] == c.pointers + s;
    }
  }

  lemma {:induction false} ApplyAdded(c: Fields, s: seq<(Word32, FileMeta)>)
    ensures ApplyItems(c, Mapped(s, AddedItem)) == c.(added := c.added + s)
    decreases |s|
  {
    if s == [] {
      assert c.added + s == c.added;
    } else {
      assert Mapped(s, AddedItem)[1..] == Mapped(s[1..], AddedItem);
      ApplyAdded(ApplyItem(c, AddedItem(s[0])), s[1..]);
      assert c.added + [s[0]] + s[1..] == c.added + s;
    }
  }

  lemma {:induction false} ApplyDeleted(c: Fields, s: seq<(Word32, Word64)>)
    requires Increasing(c.deleted + s)
    ensures ApplyItems(c, Mapped(s, DeletedItem)) == c.(deleted := c.deleted + s)
    decreases |s|
  {
    if s == [] {
      assert c.deleted + s == c.deleted;
    } else {
      assert Mapped(s, DeletedItem)[1..] == Mapped(s[1..], DeletedItem);
      assert c.deleted + [s[0]] + s[1..] == c.deleted + s;
      assert c.deleted + [s[0]] == (c.deleted + s)[..|c.deleted| + 1];
      InsertLast(c.deleted, s[0]);
      ApplyDeleted(ApplyItem(c, DeletedItem(s[0])), s[1..]);
    }
  }

  lemma ApplySingles(c: Fields, d: Fields)
    requires d.comparator == None && d.logNumber == d.prevLogNumber == d.nextFile == d.lastSequence == None
    ensures ApplyItems(d, SingleItems(c)) ==
            c.(pointers := d.pointers, deleted := d.deleted, added := d.added)
  {
    var (n, l, p, f, q) := (NameItem(c.comparator), NumberItem(c.logNumber, LogItem),
                            NumberItem(c.prevLogNumber, PrevLogItem), NumberItem(c.nextFile, NextFileItem),
                            NumberItem(c.lastSequence, LastSequenceItem));
    hide ApplyItems;
    ApplySplits(d, n + l + p + f, q);
    ApplySplits(d, n + l + p, f);
    ApplySplits(d, n + l, p);
    ApplySplits(d, n, l);
    var e1 := ApplyItems(d, n);
    ApplyAtMostOne(d, n);
    ApplyAtMostOne(e1, l);
    var e2 := ApplyItems(e1, l);
    ApplyAtMostOne(e2, p);
    var e3 := ApplyItems(e2, p);
    ApplyAtMostOne(e3, f);
    ApplyAtMostOne(ApplyItems(e3, f), q);
  }

  lemma ApplyAtMostOne(c: Fields, items: seq<Item>)
    requires |items| <= 1
    ensures ApplyItems(c, items) == if items == [] then c else ApplyItem(c, items[0])
  {
  }

  /** The records of an edit, applied to one that has only compaction pointers, make that edit again,
      after those pointers. */
  lemma ItemsMakeEdit(c: Fields, pointers: seq<(Word32, Bytes)>)
    requires Increasing(c.deleted)
    ensures ApplyItems(NOTHING.(pointers := pointers), Items(c)) == c.(pointers := pointers + c.pointers)
  {
    var d := NOTHING.(pointers := pointers);
    var (p, q, r) := (Mapped(c.pointers, PointerItem), Mapped(c.deleted, DeletedItem), Mapped(c.added, AddedItem));
    ApplySplits(d, SingleItems(c) + p + q, r);
    ApplySplits(d, SingleItems(c) + p, q);
    ApplySplits(d, SingleItems(c), p);
    ApplySingles(c, d);
    ApplyPointers(ApplyItems(d, SingleItems(c)), c.pointers);
    var e := ApplyItems(d, SingleItems(c) + p);
    assert e.deleted + c.deleted == c.deleted && e.added + c.added == c.added;
    ApplyDeleted(e, c.deleted);
    ApplyAdded(ApplyItems(e, q), c.added);
  }

  predicate FieldsFit(c: Fields) {
    && Increasing(c.deleted)
    && (c.comparator.Some? ==> |c.comparator.value| < WORD32)
    && (forall p :: p in c.pointers ==> |p.1| < WORD32)
    && (forall p :: p in c.added ==> |p.1.smallest| < WORD32 && |p.1.largest| < WORD32)
  }

  predicate LevelsFit(c: Fields) {
    && (forall p :: p in c.pointers ==> p.0 < NUM_LEVELS)
    && (forall p :: p in c.deleted ==> p.0 < NUM_LEVELS)
    && (forall p :: p in c.added ==> p.0 < NUM_LEVELS)
  }

  lemma ItemsFit(c: Fields)
    requires FieldsFit(c)
    ensures forall it :: it in Items(c) ==> ItemFits(it)
    ensures (forall it :: it in Items(c) ==> LevelFits(it)) <==> LevelsFit(c)
  {
    hide SingleItems, ItemFits, LevelFits;
    var (p, q, r) := (Mapped(c.pointers, PointerItem), Mapped(c.deleted, DeletedItem), Mapped(c.added, AddedItem));
    assert forall it :: it in Items(c) <==> it in SingleItems(c) || it in p || it in q || it in r;
    SinglesFit(c);
    PointersFit(c.pointers);
    DeletedFit(c.deleted);
    AddedFit(c.added);
  }

  lemma PointersFit(s: seq<(Word32, Bytes)>)
    ensures (forall p :: p in s ==> |p.1| < WORD32) ==> forall it :: it in Mapped(s, PointerItem) ==> ItemFits(it)
    ensures (forall p :: p in s ==> p.0 < NUM_LEVELS) <==> forall it :: it in Mapped(s, PointerItem) ==> LevelFits(it)
  {
    var items := Mapped(s, PointerItem);
    assert forall i :: 0 <= i < |items| ==> items[i] == PointerItem(s[i]) && items[i] in items;
  }

  lemma DeletedFit(s: seq<(Word32, Word64)>)
    ensures forall it :: it in Mapped(s, DeletedItem) ==> ItemFits(it)
    ensures (forall p :: p in s ==> p.0 < NUM_LEVELS) <==> forall it :: it in Mapped(s, DeletedItem) ==> LevelFits(it)
  {
    var items := Mapped(s, DeletedItem);
    assert forall i :: 0 <= i < |items| ==> items[i] == DeletedItem(s[i]) && items[i] in items;
  }

  lemma AddedFit(s: seq<(Word32, FileMeta)>)
    ensures (forall p :: p in s ==> |p.1.smallest| < WORD32 && |p.1.largest| < WORD32) ==>
              forall it :: it in Mapped(s, AddedItem) ==> ItemFits(it)
    ensures (forall p :: p in s ==> p.0 < NUM_LEVELS) <==> forall it :: it in Mapped(s, AddedItem) ==> LevelFits(it)
  {
    var items := Mapped(s, AddedItem);
    assert forall i :: 0 <= i < |items| ==> items[i] == AddedItem(s[i]) && items[i] in items;
  }

  lemma SinglesFit(c: Fields)
    requires FieldsFit(c)
    ensures forall it :: it in SingleItems(c) ==> ItemFits(it) && LevelFits(it)
  {
  }

  /** Decoding an encoded edit succeeds just when every level is a level of the store, and then it gives
      the edit back. */
  lemma EditRoundTrip(c: Fields, pointers: seq<(Word32, Bytes)>)
    requires FieldsFit(c)
    ensures var (items, message) := ScanItems(EncodeItems(Items(c)));
            && (message == None <==> LevelsFit(c))
            && (LevelsFit(c) ==>
                  ApplyItems(NOTHING.(pointers := pointers), items) == c.(pointers := pointers + c.pointers))
  {
    hide ScanItems, EncodeItems, Items, FieldsFit, LevelsFit;
    ItemsFit(c);
    ScanRoundTrip(Items(c));
    GoodItemsAre(Items(c));
    if LevelsFit(c) {
      FitIncreasing(c);
      ItemsMakeEdit(c, pointers);
    }
  }

  lemma FitIncreasing(c: Fields)
    requires FieldsFit(c)
    ensures Increasing(c.deleted)
  {
  }

  // ----- The edit -----

  class VersionEdit {
    var comparator: Bytes
    var logNumber: Word64
    var prevLogNumber: Word64
    var nextFileNumber: Word64
    var lastSequence: Word64
    var hasComparator: bool
    var hasLogNumber: bool
    var hasPrevLogNumber: bool
    var hasNextFileNumber: bool
    var hasLastSequence: bool
    var compactPointers: seq<(Word32, Bytes)>
    var deletedFiles: seq<(Word32, Word64)>
    var newFiles: seq<(Word32, FileMeta)>

    /** A field counts when its flag is set. */
    function Contents(): Fields
      reads this
    {
      Fields(if hasComparator then Some(comparator) else None,
             if hasLogNumber then Some(logNumber) else None,
             if hasPrevLogNumber then Some(prevLogNumber) else None,
             if hasNextFileNumber then Some(nextFileNumber) else None,
             if hasLastSequence then Some(lastSequence) else None,
             compactPointers, deletedFiles, newFiles)
    }

    constructor ()
      ensures Contents() == NOTHING
    {
      comparator, logNumber, prevLogNumber, nextFileNumber, lastSequence := [], 0, 0, 0, 0;
      hasComparator, hasLogNumber, hasPrevLogNumber, hasNextFileNumber, hasLastSequence := false, false, false, false, false;
      compactPointers, deletedFiles, newFiles := [], [], [];
    }

    /** Forget everything but the compaction pointers. */
    method Clear()
      modifies this
      ensures Contents() == NOTHING.(pointers := old(compactPointers))
    {
      comparator, logNumber, prevLogNumber, nextFileNumber, lastSequence := [], 0, 0, 0, 0;
      hasComparator, hasLogNumber, hasPrevLogNumber, hasNextFileNumber, hasLastSequence := false, false, false, false, false;
      deletedFiles, newFiles := [], [];
    }

    method AddFile(level: Word32, number: Word64, size: Word64, smallest: Bytes, largest: Bytes)
      modifies this
      ensures Contents() == old(Contents()).(added := old(newFiles) + [(level, FileMeta(number, size, smallest, largest))])
    {
      newFiles := newFiles + [(level, FileMeta(number, size, smallest, largest))];
    }

    method DeleteFile(level: Word32, number: Word64)
      requires Increasing(deletedFiles)
      modifies this
      ensures Contents() == old(Contents()).(deleted := deletedFiles) && Increasing(deletedFiles)
      ensures ToSet(deletedFiles) == old(ToSet(deletedFiles)) + {(level, number)}
    {
      InsertKeepsOrder(deletedFiles, (level, number));
      deletedFiles := InsertPair(deletedFiles, (level, number));
    }

    method EncodeTo() returns (dst: Bytes)
      ensures dst == EncodeItems(Items(Contents()))
    {
      hide EncodeItems;
      dst := EncodeSingles();
      ghost var done := SingleItems(Contents());
      assert done + Mapped(compactPointers[..0], PointerItem) == done;
      for i := 0 to |compactPointers|
        invariant dst == EncodeItems(done + Mapped(compactPointers[..i], PointerItem))
      {
        var (level, key) := compactPointers[i];
        dst := dst + (Varint(COMPACT_POINTER) + Varint(level) + LengthPrefixed(key));
        OneMorePointer(done, compactPointers, i);
      }
      assert compactPointers[..|compactPointers|] == compactPointers;
      done := done + Mapped(compactPointers, PointerItem);
      assert done + Mapped(deletedFiles[..0], DeletedItem) == done;
      for i := 0 to |deletedFiles|
        invariant dst == EncodeItems(done + Mapped(deletedFiles[..i], DeletedItem))
      {
        var (level, number) := deletedFiles[i];
        dst := dst + (Varint(DELETED_FILE) + Varint(level) + Varint(number));
        OneMoreDeleted(done, deletedFiles, i);
      }
      assert deletedFiles[..|deletedFiles|] == deletedFiles;
      done := done + Mapped(deletedFiles, DeletedItem);
      assert done + Mapped(newFiles[..0], AddedItem) == done;
      for i := 0 to |newFiles|
        invariant dst == EncodeItems(done + Mapped(newFiles[..i], AddedItem))
      {
        var (level, f) := newFiles[i];
        dst := dst + (Varint(NEW_FILE) + Varint(level) + Varint(f.number) + Varint(f.size) +
                      LengthPrefixed(f.smallest) + LengthPrefixed(f.largest));
        OneMoreAdded(done, newFiles, i);
      }
      assert newFiles[..|newFiles|] == newFiles;
    }

    /** The fields behind flags. */
    method EncodeSingles() returns (dst: Bytes)
      ensures dst == EncodeItems(SingleItems(Contents()))
    {
      hide EncodeItems, Varint, LengthPrefixed;
      ghost var c := Contents();
      SinglesBytes(c);
      dst := [];
      if hasComparator {
        dst := dst + (Varint(COMPARATOR) + LengthPrefixed(comparator));
      }
      assert dst == NameBytes(c.comparator);
      if hasLogNumber {
        dst := dst + (Varint(LOG_NUMBER) + Varint(logNumber));
      }
      assert dst == NameBytes(c.comparator) + NumberBytes(LOG_NUMBER, c.logNumber);
      ghost var two := dst;
      if hasPrevLogNumber {
        dst := dst + (Varint(PREV_LOG_NUMBER) + Varint(prevLogNumber));
      }
      assert dst == two + NumberBytes(PREV_LOG_NUMBER, c.prevLogNumber);
      ghost var three := dst;
      if hasNextFileNumber {
        dst := dst + (Varint(NEXT_FILE_NUMBER) + Varint(nextFileNumber));
      }
      assert dst == three + NumberBytes(NEXT_FILE_NUMBER, c.nextFile);
      ghost var four := dst;
      if hasLastSequence {
        dst := dst + (Varint(LAST_SEQUENCE) + Varint(lastSequence));
      }
      assert dst == four + NumberBytes(LAST_SEQUENCE, c.lastSequence);
    }

    /** Read an edit. A record that does not parse ends it, with what came before applied. */
    method DecodeFrom(src: Bytes) returns (status: Status)
      modifies this
      ensures var (items, message) := ScanItems(src);
              && Contents() == ApplyItems(NOTHING.(pointers := old(compactPointers)), items)
              && status == (match message case None => Ok case Some(m) => Corruption(m))
    {
      Clear();
      var input := src;
      var message: Option<string> := None;
      ghost var base := Contents();
      ghost var all := ScanItems(src);
      while message.None?
        invariant ApplyItems(Contents(), if message.None? then ScanItems(input).0 else []) == ApplyItems(base, all.0)
        invariant if message.None? then ScanItems(input).1 == all.1 else message == all.1
        decreases if message.None? then 1 else 0, |input|
      {
        match GetVarint32(input) {
          case None => break;
          case Some((tag, more)) =>
            ghost var before := Contents();
            NumbersShrink(input);
            ParseShrinks(tag, more);
            message, input := DecodeItem(tag, more);
        }
      }
      if message.None? && input != [] {
        message := Some("invalid tag");
      }
      status := match message case None => Ok case Some(m) => Corruption(m);
    }

    /** The cases of the decoding loop. */
    method DecodeItem(tag: Word32, input: Bytes) returns (message: Option<string>, rest: Bytes)
      modifies this
      ensures match ParseItem(tag, input)
              case Bad(m) => message == Some(m) && Contents() == old(Contents())
              case Got(it, more) => message == None && rest == more && Contents() == ApplyItem(old(Contents()), it)
    {
      hide GetVarint32, GetVarint64, GetLengthPrefixed, InsertPair;
      message, rest := None, input;
      if tag == COMPARATOR {
        match GetLengthPrefixed(input) {
          case Some((name, more)) => comparator, hasComparator, rest := name, true, more;
          case None => message := Some("comparator name");
        }
      } else if tag == LOG_NUMBER {
        match GetVarint64(input) {
          case Some((n, more)) => logNumber, hasLogNumber, rest := n, true, more;
          case None => message := Some("log number");
        }
      } else if tag == PREV_LOG_NUMBER {
        match GetVarint64(input) {
          case Some((n, more)) => prevLogNumber, hasPrevLogNumber, rest := n, true, more;
          case None => message := Some("previous log number");
        }
      } else if tag == NEXT_FILE_NUMBER {
        match GetVarint64(input) {
          case Some((n, more)) => nextFileNumber, hasNextFileNumber, rest := n, true, more;
          case None => message := Some("next file number");
        }
      } else if tag == LAST_SEQUENCE {
        match GetVarint64(input) {
          case Some((n, more)) => lastSequence, hasLastSequence, rest := n, true, more;
          case None => message := Some("last sequence number");
        }
      } else if tag == COMPACT_POINTER {
        match GetLevel(input) {
          case Some((level, more)) =>
            match GetLengthPrefixed(more) {
              case Some((key, after)) => compactPointers, rest := compactPointers + [(level, key)], after;
              case None => message := Some("compaction pointer");
            }
          case None => message := Some("compaction pointer");
        }
      } else if tag == DELETED_FILE {
        match GetLevel(input) {
          case Some((level, more)) =>
            match GetVarint64(more) {
              case Some((n, after)) => deletedFiles, rest := InsertPair(deletedFiles, (level, n)), after;
              case None => message := Some("deleted file");
            }
          case None => message := Some("deleted file");
        }
      } else if tag == NEW_FILE {
        match GetLevel(input) {
          case Some((level, more)) =>
            match ParseFile(level, more) {
              case Got(it, after) => newFiles, rest := newFiles + [(level, it.file)], after;
              case Bad(m) => message := Some(m);
            }
          case None => message := Some("new-file entry");
        }
      } else {
        message := Some("unknown tag");
      }
    }
  }

  lemma OneMorePointer(done: seq<Item>, s: seq<(Word32, Bytes)>, i: nat)
    requires i < |s|
    ensures EncodeItems(done + Mapped(s[..i + 1], PointerItem)) ==
            EncodeItems(done + Mapped(s[..i], PointerItem)) + EncodeItem(PointerItem(s[i]))
  {
    assert done + Mapped(s[..i + 1], PointerItem) == done + Mapped(s[..i], PointerItem) + [PointerItem(s[i])];
    EncodeOneMore(done + Mapped(s[..i], PointerItem), PointerItem(s[i]));
  }

  lemma OneMoreDeleted(done: seq<Item>, s: seq<(Word32, Word64)>, i: nat)
    requires i < |s|
    ensures EncodeItems(done + Mapped(s[..i + 1], DeletedItem)) ==
            EncodeItems(done + Mapped(s[..i], DeletedItem)) + EncodeItem(DeletedItem(s[i]))
  {
    assert done + Mapped(s[..i + 1], DeletedItem) == done + Mapped(s[..i], DeletedItem) + [DeletedItem(s[i])];
    EncodeOneMore(done + Mapped(s[..i], DeletedItem), DeletedItem(s[i]));
  }

  lemma OneMoreAdded(done: seq<Item>, s: seq<(Word32, FileMeta)>, i: nat)
    requires i < |s|
    ensures EncodeItems(done + Mapped(s[..i + 1], AddedItem)) ==
            EncodeItems(done + Mapped(s[..i], AddedItem)) + EncodeItem(AddedItem(s[i]))
  {
    assert done + Mapped(s[..i + 1], AddedItem) == done + Mapped(s[..i], AddedItem) + [AddedItem(s[i])];
    EncodeOneMore(done + Mapped(s[..i], AddedItem), AddedItem(s[i]));
  }

  lemma EncodeOneMore(items: seq<Item>, it: Item)
    ensures EncodeItems(items + [it]) == EncodeItems(items) + EncodeItem(it)
  {
    EncodeItemsSplits(items, [it]);
    assert EncodeItems([it]) == EncodeItem(it) + EncodeItems([]);
  }

  function NameBytes(name: Option<Bytes>): Bytes {
    match name case None => [] case Some(n) => Varint(COMPARATOR) + LengthPrefixed(n)
  }

  function NumberBytes(tag: Word32, number: Option<Word64>): Bytes {
    match number case None => [] case Some(n) => Varint(tag) + Varint(n)
  }

  lemma SinglesBytes(c: Fields)
    ensures EncodeItems(SingleItems(c)) ==
            NameBytes(c.comparator) + NumberBytes(LOG_NUMBER, c.logNumber) +
            NumberBytes(PREV_LOG_NUMBER, c.prevLogNumber) + NumberBytes(NEXT_FILE_NUMBER, c.nextFile) +
            NumberBytes(LAST_SEQUENCE, c.lastSequence)
  {
    hide EncodeItems, NameBytes, NumberBytes, NameItem, NumberItem;
    var (n, l, p, f, q) := (NameItem(c.comparator), NumberItem(c.logNumber, LogItem),
                            NumberItem(c.prevLogNumber, PrevLogItem), NumberItem(c.nextFile, NextFileItem),
                            NumberItem(c.lastSequence, LastSequenceItem));
    EncodeItemsSplits(n + l + p + f, q);
    EncodeItemsSplits(n + l + p, f);
    EncodeItemsSplits(n + l, p);
    EncodeItemsSplits(n, l);
    NameIs(c.comparator);
    NumberIs(LOG_NUMBER, c.logNumber, LogItem);
    NumberIs(PREV_LOG_NUMBER, c.prevLogNumber, PrevLogItem);
    NumberIs(NEXT_FILE_NUMBER, c.nextFile, NextFileItem);
    NumberIs(LAST_SEQUENCE, c.lastSequence, LastSequenceItem);
  }

  lemma NameIs(name: Option<Bytes>)
    ensures EncodeItems(NameItem(name)) == NameBytes(name)
  {
    if name.Some? {
      assert NameItem(name)[1..] == [];
    }
  }

  lemma NumberIs(tag: Word32, number: Option<Word64>, make: Word64 -> Item)
    requires forall n: Word64 :: EncodeItem(make(n)) == Varint(tag) + Varint(n)
    ensures EncodeItems(NumberItem(number, make)) == NumberBytes(tag, number)
  {
    if number.Some? {
      assert NumberItem(number, make)[1..] == [];
    }
  }

  /** Writing an edit and reading it into another: it succeeds just when every level is a level of the
      store, and then the edit is back, after the compaction pointers that were there. */
  method EncodeAndDecode(e: VersionEdit, into: VersionEdit) returns (status: Status)
    requires e != into && FieldsFit(e.Contents())
    modifies into
    ensures status.Ok? <==> LevelsFit(e.Contents())
    ensures status.Ok? ==>
              into.Contents() == e.Contents().(pointers := old(into.compactPointers) + e.compactPointers)
  {
    hide EncodeItems, Items, FieldsFit, LevelsFit, ScanItems;
    EditRoundTrip(e.Contents(), into.compactPointers);
    var b := e.EncodeTo();
    status := into.DecodeFrom(b);
  }
}
