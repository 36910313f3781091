/** What a reader of the log makes of damage: a file torn in the middle of a record and written on
    behind the tear, or with any bytes at all in front of a block boundary. */
module LogDamage {
  import opened Keys
  import opened Coding
  import opened Log

  // ----- Up to a block boundary -----

  /** Within a block, parsing does not depend on what follows the block, and does not leave it. */
  lemma SameInBlock(crc: Crc, file: Bytes, b: nat, p: nat)
    requires b % BLOCK_SIZE == 0 && p <= b <= |file| && p + |Trailer(p % BLOCK_SIZE)| < b
    ensures ParseAt(crc, file[..b], p) == ParseAt(crc, file, p) && ParseAt(crc, file, p).next <= b
    ensures ParseAt(crc, file, p).r != Eof
  {
    hide ParseBuffer;
    var q := p + |Trailer(p % BLOCK_SIZE)|;
    EndWithin(p, b);
    assert BlockRest(file[..b], q) == BlockRest(file, q);
    HeaderInBlock(file, p);
    ParseBufferEof(crc, BlockRest(file, q), q);
  }

  lemma ParseBufferEof(crc: Crc, b: Bytes, q: nat)
    requires |b| >= HEADER_SIZE
    ensures ParseBuffer(crc, b, q, false).r != Eof
  {
  }

  lemma EndWithin(p: nat, b: nat)
    requires b % BLOCK_SIZE == 0 && p + |Trailer(p % BLOCK_SIZE)| < b
    ensures BlockEnd(p + |Trailer(p % BLOCK_SIZE)|) <= b && p + |Trailer(p % BLOCK_SIZE)| + HEADER_SIZE <= b
  {
    var q := p + |Trailer(p % BLOCK_SIZE)|;
    assert q / BLOCK_SIZE < b / BLOCK_SIZE;
  }

  /** At a trailer, parsing is what it is behind it. */
  lemma BehindTrailer(crc: Crc, file: Bytes, b: nat, p: nat)
    requires b % BLOCK_SIZE == 0 && p + |Trailer(p % BLOCK_SIZE)| == b <= |file|
    ensures ParseAt(crc, file, p) == ParseAt(crc, file, b) && ParseAt(crc, file[..b], p) == Parsed(Eof, b, 0)
    ensures forall scratch, fragmented :: EffectOf(Parsed(Eof, b, 0), scratch, fragmented).reports == 0
  {
    hide ParseBuffer;
    assert Trailer(b % BLOCK_SIZE) == [];
  }

  /** A fragment whose type has the number that means the end of the file is met in reading. The
      reader stops there. */
  predicate StopsShort(crc: Crc, file: Bytes, p: nat)
    requires p <= |file|
    decreases |file| - p
  {
    var x := ParseAt(crc, file, p);
    !x.r.Eof? && (Code(x.r) == EOF_CODE || StopsShort(crc, file, x.next))
  }

  /** Reading a file comes to a block boundary unless it stops short before: then it gives what the file
      cut off there gives, and after that what is read from there on, perhaps with part of a record put
      together. If it stops short, what is behind the boundary makes no difference. */
  lemma {:induction false} ReadsUpTo(crc: Crc, file: Bytes, b: nat, p: nat, scratch: Bytes, fragmented: bool)
    returns (scratch': Bytes, fragmented': bool)
    requires b % BLOCK_SIZE == 0 && p <= b <= |file|
    ensures var before, all := ReadLog(crc, file[..b], p, scratch, fragmented), ReadLog(crc, file, p, scratch, fragmented);
            if StopsShort(crc, file[..b], p) then all == before
            else all == ReadLog(crc, file, b, scratch', fragmented').After(before.records, before.reports)
    decreases b - p
  {
    hide ParseAt, EffectOf, ReadLog;
    TrailerWithin(p, b);
    ReadLogStep(crc, file, p, scratch, fragmented);
    ReadLogStep(crc, file[..b], p, scratch, fragmented);
    if p + |Trailer(p % BLOCK_SIZE)| == b {
      BehindTrailer(crc, file, b, p);
      ReadLogStep(crc, file, b, scratch, fragmented);
      return scratch, fragmented;
    }
    SameInBlock(crc, file, b, p);
    var x := ParseAt(crc, file, p);
    var e := EffectOf(x, scratch, fragmented);
    scratch', fragmented' := e.scratch, e.fragmented;
    if Code(x.r) != EOF_CODE {
      scratch', fragmented' := ReadsUpTo(crc, file, b, x.next, e.scratch, e.fragmented);
    }
  }

  lemma TrailerWithin(p: nat, b: nat)
    requires b % BLOCK_SIZE == 0 && p <= b
    ensures p + |Trailer(p % BLOCK_SIZE)| <= b
  {
    if p < b {
      assert p / BLOCK_SIZE < b / BLOCK_SIZE;
    }
  }

  // ----- From a block boundary on -----

  /** The fragments that end a record, from a block boundary on; none when nothing is left of it. */
  function Ending(crc: Crc, left: Bytes): Bytes {
    if left == [] then [] else Emit(crc, 0, left, false)
  }

  /** The fragments that end a record whose start was lost are passed over. */
  lemma {:induction false} EndingSkipped(crc: Crc, file: Bytes, p: nat, left: Bytes, tail: Bytes, scratch: Bytes)
    requires p <= |file| && p % BLOCK_SIZE == 0 && left != [] && file[p..] <= Emit(crc, 0, left, false) + tail
    ensures var end, all := p + |Emit(crc, 0, left, false)|, ReadLog(crc, file, p, scratch, false);
            if end <= |file| then
              file[end..] <= tail && all.records == ReadLog(crc, file, end, scratch, false).records && all.reports > 0
            else all.records == []
    decreases |left|
  {
    hide Emit, ParseAt, Piece, Fit;
    EmitParts(crc, p, left, false);
    ParsePiece(crc, file, p, left, false, tail);
    var n := Fit(p % BLOCK_SIZE, |left|);
    var end := p + |Piece(crc, p, left, false)|;
    assert [] + tail == tail;
    if n < |left| && end <= |file| {
      EndingSkipped(crc, file, end, left[n..], tail, scratch);
    }
  }

  /** From a block boundary on the file goes on with the end of a record and then whole records, possibly
      cut off: these are all read, and before them at most one record, completed by that end. */
  lemma ReadsOn(crc: Crc, file: Bytes, b: nat, left: Bytes, rs: seq<Bytes>, scratch: Bytes, fragmented: bool)
    returns (mid: seq<Bytes>)
    requires b <= |file| && b % BLOCK_SIZE == 0
    requires file[b..] <= Ending(crc, left) + Stream(crc, b + |Ending(crc, left)|, rs)
    ensures ReadLog(crc, file, b, scratch, fragmented).records == mid + Whole(crc, b + |Ending(crc, left)|, rs, |file|)
    ensures |mid| <= 1 && (left == [] || !fragmented ==> mid == [])
  {
    hide Emit, Stream, ReadLog, Whole;
    var p := b + |Ending(crc, left)|;
    mid := [];
    if left == [] {
      assert [] + Stream(crc, p, rs) == Stream(crc, p, rs);
      StreamRead(crc, file, b, rs, scratch, fragmented);
    } else {
      if fragmented {
        RestRead(crc, file, b, left, Stream(crc, p, rs), scratch);
      } else {
        EndingSkipped(crc, file, b, left, Stream(crc, p, rs), scratch);
      }
      if p <= |file| {
        StreamRead(crc, file, p, rs, if fragmented then [] else scratch, false);
        mid := if fragmented then [scratch + left] else [];
      } else {
        NoneWhole(crc, p, rs, |file|);
      }
    }
  }

  lemma NoneWhole(crc: Crc, p: nat, rs: seq<Bytes>, n: nat)
    requires p > n
    ensures Whole(crc, p, rs, n) == []
  {
  }

  /** The reader finds its way back at the next block boundary: whatever bytes come before it, all
      records that start behind it are read if and only if reading did not stop short before it. They
      follow what the bytes before hold, and at most one record put together across the boundary. */
  lemma Resynchronizes(crc: Crc, file: Bytes, b: nat, left: Bytes, rs: seq<Bytes>) returns (mid: seq<Bytes>)
    requires b <= |file| && b % BLOCK_SIZE == 0
    requires file[b..] <= Ending(crc, left) + Stream(crc, b + |Ending(crc, left)|, rs)
    ensures var all, before := ReadLog(crc, file, 0, [], false).records, ReadLog(crc, file[..b], 0, [], false).records;
            var behind := Whole(crc, b + |Ending(crc, left)|, rs, |file|);
            && all == (if StopsShort(crc, file[..b], 0) then before else before + mid + behind)
            && (behind != [] ==> (|all| >= |before| + |behind| <==> !StopsShort(crc, file[..b], 0)))
    ensures |mid| <= 1 && (left == [] ==> mid == [])
  {
    hide Emit, Stream, ReadLog, Whole, StopsShort;
    var scratch, fragmented := ReadsUpTo(crc, file, b, 0, [], false);
    mid := ReadsOn(crc, file, b, left, rs, scratch, fragmented);
  }

  /** A checked fragment of that type, whatever its payload, ends the reading of any file that begins with
      it. One of the type after it is passed over, and nothing is reported. */
  lemma TypeEndsReading(crc: Crc, data: Bytes, rest: Bytes)
    requires HEADER_SIZE + |data| <= BLOCK_SIZE
    ensures ReadLog(crc, Physical(crc, EOF_CODE, data) + rest, 0, [], false) == Reading([], 0)
    ensures var file := Physical(crc, BAD_CODE, data) + rest;
            ReadLog(crc, file, 0, [], false) == ReadLog(crc, file, HEADER_SIZE + |data|, [], false)
  {
    hide Physical, ParseAt, ReadLog;
    forall code: Byte | code == EOF_CODE || code == BAD_CODE
      ensures ParseAt(crc, Physical(crc, code, data) + rest, 0) == Parsed(Fragment(code, data), HEADER_SIZE + |data|, 0)
    {
      var file := Physical(crc, code, data) + rest;
      assert file[0..] == [] + Physical(crc, code, data) + rest;
      ParseIntact(crc, file, 0, code, data, rest);
    }
    ReadLogStep(crc, Physical(crc, EOF_CODE, data) + rest, 0, [], false);
    ReadLogStep(crc, Physical(crc, BAD_CODE, data) + rest, 0, [], false);
    FromStart(ReadLog(crc, Physical(crc, BAD_CODE, data) + rest, HEADER_SIZE + |data|, [], false));
  }

  /** One block that holds nothing else hides every record behind it. */
  lemma WholeBlockEndsReading(crc: Crc, rs: seq<Bytes>)
    ensures var file := Physical(crc, EOF_CODE, Zeros(BLOCK_SIZE - HEADER_SIZE)) + Stream(crc, BLOCK_SIZE, rs);
            ReadLog(crc, file, 0, [], false) == Reading([], 0) && Whole(crc, BLOCK_SIZE, rs, |file|) == rs
  {
    hide Physical, ReadLog, Stream, Whole;
    var file := Physical(crc, EOF_CODE, Zeros(BLOCK_SIZE - HEADER_SIZE)) + Stream(crc, BLOCK_SIZE, rs);
    TypeEndsReading(crc, Zeros(BLOCK_SIZE - HEADER_SIZE), Stream(crc, BLOCK_SIZE, rs));
    AllWhole(crc, BLOCK_SIZE, rs, |file|);
  }

  // ----- Records behind a tear -----

  /** How many of the records written from `p` on start before `b`. */
  function Begun(crc: Crc, p: nat, rs: seq<Bytes>, b: nat): (m: nat)
    ensures m <= |rs|
    decreases |rs|
  {
    if rs == [] || p + |Trailer(p % BLOCK_SIZE)| >= b then 0
    else 1 + Begun(crc, p + |Emit(crc, p % BLOCK_SIZE, rs[0], true)|, rs[1..], b)
  }

  /** A record that does not fit in front of a block boundary goes on there with its rest. */
  lemma {:induction false} EmitAtBlock(crc: Crc, p: nat, data: Bytes, begin: bool, b: nat) returns (left: Bytes)
    requires b % BLOCK_SIZE == 0 && p + |Trailer(p % BLOCK_SIZE)| < b < p + |Emit(crc, p % BLOCK_SIZE, data, begin)|
    requires begin || p % BLOCK_SIZE == 0
    ensures left != [] && Emit(crc, p % BLOCK_SIZE, data, begin)[b - p..] == Emit(crc, 0, left, false)
    decreases |data|, if p % BLOCK_SIZE == 0 then 0 else 1
  {
    hide Emit, Piece, Fit;
    EmitParts(crc, p, data, begin);
    PieceWithin(crc, p, data, begin, b);
    var n := Fit(p % BLOCK_SIZE, |data|);
    var piece := Piece(crc, p, data, begin);
    var end := p + |piece|;
    left := data[n..];
    var more := Emit(crc, 0, left, false);
    assert Emit(crc, p % BLOCK_SIZE, data, begin)[b - p..] == more[b - end..];
    if end < b {
      left := EmitAtBlock(crc, end, left, false, b);
    }
  }

  lemma PieceWithin(crc: Crc, p: nat, data: Bytes, begin: bool, b: nat)
    requires b % BLOCK_SIZE == 0 && p + |Trailer(p % BLOCK_SIZE)| < b
    ensures p + |Piece(crc, p, data, begin)| <= b
    ensures p + |Piece(crc, p, data, begin)| <= BlockEnd(p + |Trailer(p % BLOCK_SIZE)|)
  {
    hide Physical;
    EndWithin(p, b);
    PieceInBlock(p, |data|);
  }

  lemma PieceInBlock(p: nat, n: nat)
    ensures var q := p + |Trailer(p % BLOCK_SIZE)|; q + HEADER_SIZE + Fit(p % BLOCK_SIZE, n) <= BlockEnd(q)
  {
    var q := p + |Trailer(p % BLOCK_SIZE)|;
    assert q % BLOCK_SIZE == Start(p % BLOCK_SIZE);
  }

  /** The fill at the end of a block belongs to the record after it. */
  lemma EmitBehindTrailer(crc: Crc, p: nat, data: Bytes, b: nat)
    requires b % BLOCK_SIZE == 0 && p <= b == p + |Trailer(p % BLOCK_SIZE)|
    ensures Emit(crc, p % BLOCK_SIZE, data, true) == Trailer(p % BLOCK_SIZE) + Emit(crc, 0, data, true)
  {
    hide Physical;
    if p < b {
      assert Fit(p % BLOCK_SIZE, |data|) == Fit(0, |data|);
    }
  }

  lemma StreamBehindTrailer(crc: Crc, p: nat, rs: seq<Bytes>, b: nat)
    requires rs != [] && b % BLOCK_SIZE == 0 && p <= b == p + |Trailer(p % BLOCK_SIZE)|
    ensures Stream(crc, p, rs) == Trailer(p % BLOCK_SIZE) + Stream(crc, b, rs)
  {
    hide Emit;
    EmitBehindTrailer(crc, p, rs[0], b);
  }

  /** What a list of records has behind a block boundary: the end of the last one started before it,
      and the ones started behind it. */
  lemma {:induction false} StreamAtBlock(crc: Crc, p: nat, rs: seq<Bytes>, b: nat) returns (left: Bytes)
    requires b % BLOCK_SIZE == 0 && p <= b <= p + |Stream(crc, p, rs)|
    ensures Stream(crc, p, rs)[b - p..] ==
            Ending(crc, left) + Stream(crc, b + |Ending(crc, left)|, rs[Begun(crc, p, rs, b)..])
    decreases |rs|
  {
    hide Emit, Stream, Trailer, Begun, Ending;
    StreamUnfolds(crc, p, rs);
    BegunUnfolds(crc, p, rs, b);
    TrailerWithin(p, b);
    left := [];
    EndingIs(crc, left);
    if rs == [] {
      StreamUnfolds(crc, b, rs);
    } else if p + |Trailer(p % BLOCK_SIZE)| == b {
      StreamBehindTrailer(crc, p, rs, b);
      assert rs[0..] == rs && [] + Stream(crc, b, rs) == Stream(crc, b, rs);
    } else {
      var emit := Emit(crc, p % BLOCK_SIZE, rs[0], true);
      var end := p + |emit|;
      DropFront(emit, Stream(crc, end, rs[1..]), b - p);
      assert rs[1..][Begun(crc, end, rs[1..], b)..] == rs[1 + Begun(crc, end, rs[1..], b)..];
      if end <= b {
        left := StreamAtBlock(crc, end, rs[1..], b);
      } else {
        left := EmitAtBlock(crc, p, rs[0], true, b);
        EndingIs(crc, left);
        BegunUnfolds(crc, end, rs[1..], b);
      }
    }
  }

  lemma BegunUnfolds(crc: Crc, p: nat, rs: seq<Bytes>, b: nat)
    ensures Begun(crc, p, rs, b) ==
              if rs == [] || p + |Trailer(p % BLOCK_SIZE)| >= b then 0
              else 1 + Begun(crc, p + |Emit(crc, p % BLOCK_SIZE, rs[0], true)|, rs[1..], b)
  {
  }

  lemma EndingIs(crc: Crc, left: Bytes)
    ensures Ending(crc, left) == if left == [] then [] else Emit(crc, 0, left, false)
  {
  }

  lemma DropFront(a: Bytes, b: Bytes, n: nat)
    requires n <= |a| + |b|
    ensures if n >= |a| then (a + b)[n..] == b[n - |a|..] else (a + b)[n..] == a[n..] + b
  {
  }

  /** Records in front of a block boundary all started there. */
  lemma {:induction false} AllBegun(crc: Crc, p: nat, rs: seq<Bytes>, b: nat)
    requires p + |Stream(crc, p, rs)| < b
    ensures Begun(crc, p, rs, b) == |rs|
    decreases |rs|
  {
    hide Emit;
    if rs != [] {
      EmitParts(crc, p, rs[0], true);
      AllBegun(crc, p + |Emit(crc, p % BLOCK_SIZE, rs[0], true)|, rs[1..], b);
    }
  }

  lemma {:induction false} AllWhole(crc: Crc, p: nat, rs: seq<Bytes>, n: nat)
    requires n == p + |Stream(crc, p, rs)|
    ensures Whole(crc, p, rs, n) == rs
    decreases |rs|
  {
    hide Emit;
    if rs != [] {
      AllWhole(crc, p + |Emit(crc, p % BLOCK_SIZE, rs[0], true)|, rs[1..], n);
    }
  }

  /** The first block boundary at or behind a position. */
  function NextBoundary(p: nat): nat {
    if p % BLOCK_SIZE == 0 then p else BlockEnd(p)
  }

  /** The file of a writer that went on behind a tear: the first records up to byte `cut`, and then
      the second ones. */
  function TornFile(crc: Crc, first: seq<Bytes>, cut: nat, second: seq<Bytes>): Bytes
    requires cut <= |Stream(crc, 0, first)|
  {
    Stream(crc, 0, first)[..cut] + Stream(crc, cut, second)
  }

  /** The file up to the next block boundary behind a position. */
  function UpToBoundary(file: Bytes, p: nat): Bytes {
    if NextBoundary(p) < |file| then file[..NextBoundary(p)] else file
  }

  /** Wherever the tear is: all records wholly before it are read, and all records that start behind the
      end of its block unless reading stops short in that block, where what stands at the tear may pass
      for a fragment. Those between may be lost; what is read in their place comes from the block of the
      tear. */
  lemma BehindTear(crc: Crc, first: seq<Bytes>, cut: nat, second: seq<Bytes>) returns (between: seq<Bytes>)
    requires cut <= |Stream(crc, 0, first)|
    ensures var file := TornFile(crc, first, cut, second);
            var all, kept := ReadLog(crc, file, 0, [], false).records, Whole(crc, 0, first, cut);
            var behind := second[Begun(crc, cut, second, NextBoundary(cut))..];
            && all == kept + between + (if StopsShort(crc, UpToBoundary(file, cut), 0) then [] else behind)
            && (behind != [] && StopsShort(crc, UpToBoundary(file, cut), 0) ==>
                  all == ReadLog(crc, UpToBoundary(file, cut), 0, [], false).records)
  {
    hide Emit, Stream, ReadLog, Whole, StopsShort;
    var file, b := TornFile(crc, first, cut, second), NextBoundary(cut);
    var kept := Whole(crc, 0, first, cut);
    KeptIsRead(crc, first, cut, file);
    if |file| < b {
      AllBegun(crc, cut, second, b);
      between := ReadLog(crc, file, |Stream(crc, 0, kept)|, [], false).records;
      assert kept + between + [] == kept + between;
    } else {
      between := BehindTearBlock(crc, first, cut, second);
    }
  }

  lemma AtBoundary(crc: Crc, first: seq<Bytes>, cut: nat, second: seq<Bytes>)
    requires cut <= |Stream(crc, 0, first)| && NextBoundary(cut) <= |TornFile(crc, first, cut, second)|
    ensures var file, b := TornFile(crc, first, cut, second), NextBoundary(cut);
            && b % BLOCK_SIZE == 0 && cut <= b && |file| == cut + |Stream(crc, cut, second)|
            && file[b..] == Stream(crc, cut, second)[b - cut..] && Stream(crc, 0, first)[..cut] <= file[..b]
  {
    hide Stream;
  }

  lemma BehindTearBlock(crc: Crc, first: seq<Bytes>, cut: nat, second: seq<Bytes>) returns (between: seq<Bytes>)
    requires cut <= |Stream(crc, 0, first)| && NextBoundary(cut) <= |TornFile(crc, first, cut, second)|
    ensures var file := TornFile(crc, first, cut, second);
            var all, kept := ReadLog(crc, file, 0, [], false).records, Whole(crc, 0, first, cut);
            var behind, before := second[Begun(crc, cut, second, NextBoundary(cut))..], file[..NextBoundary(cut)];
            && before == UpToBoundary(file, cut)
            && all == kept + between + (if StopsShort(crc, before, 0) then [] else behind)
            && (StopsShort(crc, before, 0) ==> all == ReadLog(crc, before, 0, [], false).records)
  {
    hide Emit, Stream, ReadLog, Whole, StopsShort, TornFile, NextBoundary, Begun, Ending;
    var file, b := TornFile(crc, first, cut, second), NextBoundary(cut);
    var kept := Whole(crc, 0, first, cut);
    AtBoundary(crc, first, cut, second);
    var left := StreamAtBlock(crc, cut, second, b);
    var rest := second[Begun(crc, cut, second, b)..];
    var mid := Resynchronizes(crc, file, b, left, rest);
    AllWhole(crc, b + |Ending(crc, left)|, rest, |file|);
    KeptIsRead(crc, first, cut, file[..b]);
    var some := ReadLog(crc, file[..b], |Stream(crc, 0, kept)|, [], false).records;
    if StopsShort(crc, file[..b], 0) {
      between := some;
      assert kept + some + [] == kept + some;
    } else {
      between := some + mid;
      assert kept + some + mid + rest == kept + (some + mid) + rest;
    }
  }

  /** A checksum that takes one value only, whose stored form begins with the number of that type. */
  const FIVES: Crc := (b: Bytes) => Unmask(5)

  lemma FivesStored()
    ensures Mask(Unmask(5)) == 5 && EncodeFixed32(5) == [5, 0, 0, 0]
  {
    assert (5 - MASK_DELTA) % WORD32 == 0x5d7d_152d;
    assert Unmask(5) == 0x8a96_aebe;
    assert 0x8a96_aebe / 0x8000 == 0x1_152d && 0x8a96_aebe % 0x8000 == 0x2ebe;
  }

  lemma FivesRead(b: Bytes)
    requires |b| >= 4 && b[0] == 5 && b[1] == 0 && b[2] == 0 && b[3] == 0
    ensures DecodeFixed32(b) == 5
  {
  }

  /** Reading can stop short at a tear: in front of the type byte of a header, the first byte written behind
      it becomes the type. Then no record written behind the tear is read, in whatever block. */
  lemma TearCanEndReading(data: Bytes, second: seq<Bytes>)
    requires HEADER_SIZE + |data| <= BLOCK_SIZE && second != [] && |Stream(FIVES, 6, second)| > |data|
    ensures 6 <= |Stream(FIVES, 0, [data])|
    ensures ReadLog(FIVES, TornFile(FIVES, [data], 6, second), 0, [], false) == Reading([], 0)
  {
    hide Stream, ReadLog, Emit, Unmask, Mask, DecodeFixed32, EncodeFixed32;
    StreamOne(FIVES, 0, data);
    FitsWhole(FIVES, 0, data);
    StreamUnfolds(FIVES, 6, second);
    EmitParts(FIVES, 6, second[0], true);
    FivesStored();
    var file := TornFile(FIVES, [data], 6, second);
    var b := BlockRest(file, 0);
    assert file[0..6] == Physical(FIVES, FULL_TYPE, data)[..6];
    assert b[..7] == file[..7] && b[6] == Stream(FIVES, 6, second)[0] == 5;
    FivesRead(b);
    assert ParseAt(FIVES, file, 0).r == Fragment(EOF_CODE, b[HEADER_SIZE..HEADER_SIZE + |data|]);
    ReadLogStep(FIVES, file, 0, [], false);
  }

  lemma KeptIsRead(crc: Crc, first: seq<Bytes>, cut: nat, file: Bytes)
    requires cut <= |Stream(crc, 0, first)| && Stream(crc, 0, first)[..cut] <= file
    ensures var kept := Whole(crc, 0, first, cut); var e := |Stream(crc, 0, kept)|;
            e <= cut && ReadLog(crc, file, 0, [], false) == ReadLog(crc, file, e, [], false).After(kept, 0)
  {
    hide Emit, Stream, ReadLog, Whole;
    WholeIsLongest(crc, 0, first, cut);
    var k := |Whole(crc, 0, first, cut)|;
    assert first == first[..k] + first[k..];
    StreamSplits(crc, 0, first[..k], first[k..]);
    assert file[0..] == file;
    assert Stream(crc, 0, first[..k]) <= file;
    StreamPassed(crc, file, 0, first[..k]);
  }

  // ----- The torn fragment -----

  /** The fragment that a cut falls in: where it would start, what of its record is in it and behind
      it, and the part of the record in front of it. */
  datatype Tear = Tear(at: nat, left: Bytes, begin: bool, scratch: Bytes)

  /** Behind the first fragment the record goes on in the next block with less left of it. */
  lemma NextPiece(crc: Crc, p: nat, left: Bytes, begin: bool, cut: nat)
    requires p <= cut < p + |Emit(crc, p % BLOCK_SIZE, left, begin)|
    ensures var n, end := Fit(p % BLOCK_SIZE, |left|), p + |Piece(crc, p, left, begin)|;
            && p < end && n <= |left|
            && (cut >= end ==> n < |left| && (n > 0 || p % BLOCK_SIZE != 0) && end % BLOCK_SIZE == 0 &&
                               cut < end + |Emit(crc, 0, left[n..], false)|)
  {
    hide Emit, Piece, Fit;
    EmitParts(crc, p, left, begin);
  }

  /** Follow the fragments of a record written at `p` up to the one that byte `cut` falls in. */
  function TearIn(crc: Crc, p: nat, left: Bytes, begin: bool, scratch: Bytes, cut: nat): (t: Tear)
    requires p <= cut < p + |Emit(crc, p % BLOCK_SIZE, left, begin)|
    ensures p <= t.at <= cut < t.at + |Piece(crc, t.at, t.left, t.begin)|
    decreases |left|, if p % BLOCK_SIZE == 0 then 0 else 1
  {
    hide Emit, Piece, Fit, Trailer;
    NextPiece(crc, p, left, begin, cut);
    var end := p + |Piece(crc, p, left, begin)|;
    var n := Fit(p % BLOCK_SIZE, |left|);
    if cut < end then Tear(p, left, begin, scratch)
    else TearIn(crc, end, left[n..], false, scratch + left[..n], cut)
  }

  lemma PieceThere(crc: Crc, file: Bytes, p: nat, left: Bytes, begin: bool)
    requires p <= |file| && Piece(crc, p, left, begin) <= file[p..]
    ensures var n, end := Fit(p % BLOCK_SIZE, |left|), p + |Piece(crc, p, left, begin)|;
            ParseAt(crc, file, p) == Parsed(Fragment(Kind(begin, n == |left|), left[..n]), end, 0)
  {
    hide Physical, ParseAt, Fit, Kind, Start, Trailer;
    PieceFits(p, left, begin);
    var n, end := Fit(p % BLOCK_SIZE, |left|), p + |Piece(crc, p, left, begin)|;
    assert file[p..] == Piece(crc, p, left, begin) + file[end..];
    ParseIntact(crc, file, p, Kind(begin, n == |left|), left[..n], file[end..]);
  }

  lemma StepOver(crc: Crc, file: Bytes, p: nat, left: Bytes, begin: bool, scratch: Bytes)
    requires p <= |file| && Piece(crc, p, left, begin) <= file[p..] && Fit(p % BLOCK_SIZE, |left|) < |left|
    requires begin ==> scratch == []
    ensures var n, end := Fit(p % BLOCK_SIZE, |left|), p + |Piece(crc, p, left, begin)|;
            ReadLog(crc, file, p, scratch, !begin) == ReadLog(crc, file, end, scratch + left[..n], true)
  {
    hide ParseAt, Piece, Fit, ReadLog, EffectOf, Kind;
    PieceThere(crc, file, p, left, begin);
    ReadLogStep(crc, file, p, scratch, !begin);
    var n, end := Fit(p % BLOCK_SIZE, |left|), p + |Piece(crc, p, left, begin)|;
    MoreToCome(left[..n], begin, end, scratch);
    var after := ReadLog(crc, file, end, scratch + left[..n], true);
    FromStart(after);
  }

  lemma MoreToCome(data: Bytes, begin: bool, next: nat, scratch: Bytes)
    requires begin ==> scratch == []
    ensures EffectOf(Parsed(Fragment(Kind(begin, false), data), next, 0), scratch, !begin) == Effect([], 0, scratch + data, true)
    ensures Kind(begin, false) != EOF_CODE
  {
    assert [] + data == data;
  }

  /** The fragments in front of the torn one are put together; nothing is reported yet. */
  lemma {:induction false} ReadsToTear(crc: Crc, file: Bytes, p: nat, left: Bytes, begin: bool, scratch: Bytes, cut: nat)
    requires p <= cut < p + |Emit(crc, p % BLOCK_SIZE, left, begin)| && cut <= |file|
    requires file[p..cut] <= Emit(crc, p % BLOCK_SIZE, left, begin) && (begin ==> scratch == [])
    ensures var t := TearIn(crc, p, left, begin, scratch, cut);
            && ReadLog(crc, file, p, scratch, !begin) == ReadLog(crc, file, t.at, t.scratch, !t.begin)
            && file[t.at..cut] <= Piece(crc, t.at, t.left, t.begin)
    decreases |left|, if p % BLOCK_SIZE == 0 then 0 else 1
  {
    hide Emit, Piece, ReadLog, Fit, More;
    EmitParts(crc, p, left, begin);
    NextPiece(crc, p, left, begin, cut);
    var end := p + |Piece(crc, p, left, begin)|;
    var n := Fit(p % BLOCK_SIZE, |left|);
    CutPrefix(file, p, Piece(crc, p, left, begin), More(crc, p, left), cut);
    if cut >= end {
      StepOver(crc, file, p, left, begin, scratch);
      MoreIs(crc, p, left);
      ReadsToTear(crc, file, end, left[n..], false, scratch + left[..n], cut);
    }
  }

  lemma CutPrefix(file: Bytes, p: nat, piece: Bytes, more: Bytes, cut: nat)
    requires p <= cut <= |file| && file[p..cut] <= piece + more
    ensures cut < p + |piece| ==> file[p..cut] <= piece
    ensures cut >= p + |piece| ==> piece <= file[p..] && file[p + |piece|..cut] <= more
  {
    var part := file[p..cut];
    assert part == (piece + more)[..|part|];
    if cut >= p + |piece| {
      assert file[p..][..|piece|] == part[..|piece|];
      assert file[p + |piece|..cut] == part[|piece|..];
    }
  }

  lemma MoreIs(crc: Crc, p: nat, left: Bytes)
    ensures var n := Fit(p % BLOCK_SIZE, |left|);
            n <= |left| && More(crc, p, left) == if n == |left| then [] else Emit(crc, 0, left[n..], false)
  {
  }

  /** The tear of the first record that is not wholly before the cut. */
  ghost function TearOf(crc: Crc, first: seq<Bytes>, cut: nat): (t: Tear)
    requires |Whole(crc, 0, first, cut)| < |first|
    ensures t.at <= cut < t.at + |Piece(crc, t.at, t.left, t.begin)|
  {
    var k := |Whole(crc, 0, first, cut)|;
    FirstTorn(crc, first, cut);
    TearIn(crc, |Stream(crc, 0, first[..k])|, first[k], true, [], cut)
  }

  lemma FirstTorn(crc: Crc, first: seq<Bytes>, cut: nat)
    requires |Whole(crc, 0, first, cut)| < |first|
    ensures var k := |Whole(crc, 0, first, cut)|; var e := |Stream(crc, 0, first[..k])|; var emit := Emit(crc, e % BLOCK_SIZE, first[k], true);
            && e <= cut < e + |emit| && Whole(crc, 0, first, cut) == first[..k]
            && Stream(crc, 0, first[..k]) + emit <= Stream(crc, 0, first)
  {
    hide Emit, Stream, Whole;
    WholeIsLongest(crc, 0, first, cut);
    var k := |Whole(crc, 0, first, cut)|;
    assert first[..k + 1] == first[..k] + [first[k]];
    StreamSplits(crc, 0, first[..k], [first[k]]);
    StreamOne(crc, |Stream(crc, 0, first[..k])|, first[k]);
    assert first == first[..k + 1] + first[k + 1..];
    StreamSplits(crc, 0, first[..k + 1], first[k + 1..]);
  }

  /** Where the header of the torn fragment is, or would be. */
  function HeaderAt(t: Tear): nat {
    t.at + |Trailer(t.at % BLOCK_SIZE)|
  }

  /** Reading a file with a tear comes to the torn fragment with the whole records read. */
  lemma ComesToTear(crc: Crc, first: seq<Bytes>, cut: nat, second: seq<Bytes>)
    requires cut <= |Stream(crc, 0, first)| && |Whole(crc, 0, first, cut)| < |first|
    ensures var file, t := TornFile(crc, first, cut, second), TearOf(crc, first, cut);
            && cut <= |file| && file[cut..] == Stream(crc, cut, second)
            && ReadLog(crc, file, 0, [], false) ==
                 ReadLog(crc, file, t.at, t.scratch, !t.begin).After(Whole(crc, 0, first, cut), 0)
            && file[t.at..cut] <= Piece(crc, t.at, t.left, t.begin)
  {
    hide Emit, Stream, ReadLog, Whole, Piece;
    var file := TornFile(crc, first, cut, second);
    FirstTorn(crc, first, cut);
    KeptIsRead(crc, first, cut, file);
    var k := |Whole(crc, 0, first, cut)|;
    var e := |Stream(crc, 0, first[..k])|;
    FromPrefix(Stream(crc, 0, first), Stream(crc, 0, first[..k]), Emit(crc, e % BLOCK_SIZE, first[k], true), cut);
    assert file[e..cut] == Stream(crc, 0, first)[..cut][e..];
    ReadsToTear(crc, file, e, first[k], true, [], cut);
  }

  lemma FromPrefix(all: Bytes, a: Bytes, b: Bytes, cut: nat)
    requires a + b <= all && |a| <= cut <= |a| + |b|
    ensures all[..cut][|a|..] <= b
  {
    assert all[..cut][|a|..] == (a + b)[|a|..cut];
  }

  /** A tear in front of a header, between fragments or in the fill of a block, loses nothing. */
  lemma TornBetween(crc: Crc, first: seq<Bytes>, cut: nat, second: seq<Bytes>)
    requires cut <= |Stream(crc, 0, first)| && |Whole(crc, 0, first, cut)| < |first|
    requires cut <= HeaderAt(TearOf(crc, first, cut))
    ensures var all := ReadLog(crc, TornFile(crc, first, cut, second), 0, [], false);
            all.records == Whole(crc, 0, first, cut) + second && all.reports <= 1
  {
    hide Emit, Stream, ReadLog, Whole;
    ComesToTear(crc, first, cut, second);
    var file, t := TornFile(crc, first, cut, second), TearOf(crc, first, cut);
    if second == [] {
      StreamUnfolds(crc, cut, second);
      FileEnds(crc, file, t.at, t.scratch, !t.begin);
    } else {
      FillGoesOn(crc, t.at, cut, second);
      assert file[t.at..] == file[t.at..cut] + file[cut..];
      assert file[t.at..cut] == Trailer(t.at % BLOCK_SIZE)[..cut - t.at];
      StreamRead(crc, file, t.at, second, t.scratch, !t.begin);
      AllWhole(crc, t.at, second, |file|);
    }
  }

  lemma FileEnds(crc: Crc, file: Bytes, p: nat, scratch: Bytes, fragmented: bool)
    requires p <= |file| < p + |Trailer(p % BLOCK_SIZE)| + HEADER_SIZE
    ensures ReadLog(crc, file, p, scratch, fragmented) == Reading([], 0)
  {
  }

  /** A fill cut off is completed by what is written next. */
  lemma FillGoesOn(crc: Crc, p: nat, cut: nat, rs: seq<Bytes>)
    requires p <= cut <= p + |Trailer(p % BLOCK_SIZE)| && rs != []
    ensures Stream(crc, p, rs) == Trailer(p % BLOCK_SIZE)[..cut - p] + Stream(crc, cut, rs)
  {
    hide Stream, Trailer;
    var fill := Trailer(p % BLOCK_SIZE);
    var b := p + |fill|;
    if fill == [] {
      assert [] + Stream(crc, cut, rs) == Stream(crc, cut, rs);
    } else {
      FillOf(p, cut);
      StreamBehindTrailer(crc, p, rs, b);
      StreamBehindTrailer(crc, cut, rs, b);
      JoinsAgain(fill[..cut - p], Trailer(cut % BLOCK_SIZE), Stream(crc, b, rs));
    }
  }

  lemma JoinsAgain(a: Bytes, b: Bytes, c: Bytes)
    ensures a + b + c == a + (b + c)
  {
  }

  lemma FillOf(p: nat, cut: nat)
    requires p <= cut <= p + |Trailer(p % BLOCK_SIZE)| && Trailer(p % BLOCK_SIZE) != []
    ensures var b := p + |Trailer(p % BLOCK_SIZE)|;
            && b % BLOCK_SIZE == 0 && cut + |Trailer(cut % BLOCK_SIZE)| == b
            && Trailer(p % BLOCK_SIZE) == Trailer(p % BLOCK_SIZE)[..cut - p] + Trailer(cut % BLOCK_SIZE)
  {
    var b := p + |Trailer(p % BLOCK_SIZE)|;
    assert b == BlockEnd(p);
    if cut < b {
      assert cut / BLOCK_SIZE == p / BLOCK_SIZE;
    }
  }

  /** A tear within a fragment: unless what stands there now passes for a fragment, exactly the records
      that start in its block are lost, and what follows it in the block is passed over. At the end of
      the file nothing of this is reported. */
  lemma TornWithin(crc: Crc, first: seq<Bytes>, cut: nat, second: seq<Bytes>)
    requires cut <= |Stream(crc, 0, first)| && |Whole(crc, 0, first, cut)| < |first|
    requires cut > HeaderAt(TearOf(crc, first, cut))
    ensures var file, t := TornFile(crc, first, cut, second), TearOf(crc, first, cut);
            cut <= |file| && t.at <= cut &&
            var x, all := ParseAt(crc, file, t.at), ReadLog(crc, file, 0, [], false);
            && (!x.r.Fragment? ==> all.records == Whole(crc, 0, first, cut) + second[Begun(crc, cut, second, NextBoundary(cut))..])
            && (x.r.Eof? ==> all.reports == 0 && Begun(crc, cut, second, NextBoundary(cut)) == |second|)
            && (x.r.Bad? ==> all.reports >= x.reports)
  {
    hide Emit, Stream, ReadLog, Whole, Piece, ParseAt, TearIn, TornFile, Begun;
    ComesToTear(crc, first, cut, second);
    AfterTear(crc, TornFile(crc, first, cut, second), cut, second, TearOf(crc, first, cut));
  }

  lemma AfterTear(crc: Crc, file: Bytes, cut: nat, second: seq<Bytes>, t: Tear)
    requires t.at <= HeaderAt(t) < cut < t.at + |Piece(crc, t.at, t.left, t.begin)|
    requires cut <= |file| && file[cut..] == Stream(crc, cut, second)
    ensures var x, all := ParseAt(crc, file, t.at), ReadLog(crc, file, t.at, t.scratch, !t.begin);
            && (!x.r.Fragment? ==> all.records == second[Begun(crc, cut, second, NextBoundary(cut))..])
            && (x.r.Eof? ==> all.reports == 0 && Begun(crc, cut, second, NextBoundary(cut)) == |second|)
            && (x.r.Bad? ==> all.reports >= x.reports)
  {
    hide Emit, Stream, ReadLog, Piece, ParseAt, Begun, Trailer, BlockEnd, NextBoundary;
    BoundaryAfter(cut);
    SameBlock(crc, t, cut);
    ParseAtFails(crc, file, t.at);
    AfterFailure(crc, file, t.at, t.scratch, !t.begin);
    FromBoundary(crc, file, cut, second, NextBoundary(cut), if t.begin then t.scratch else []);
  }

  /** From the next block boundary on, or from the end of a file that does not come to it, exactly the
      records that start behind it are read. */
  lemma FromBoundary(crc: Crc, file: Bytes, cut: nat, second: seq<Bytes>, b: nat, scratch: Bytes)
    requires b % BLOCK_SIZE == 0 && cut <= b && cut <= |file| && file[cut..] == Stream(crc, cut, second)
    ensures ReadLog(crc, file, if b < |file| then b else |file|, scratch, false).records == second[Begun(crc, cut, second, b)..]
    ensures |file| < b ==> Begun(crc, cut, second, b) == |second|
  {
    hide Emit, Stream, ReadLog, Whole, Begun;
    if |file| < b {
      AllBegun(crc, cut, second, b);
      NothingThere(crc, file, |file|, scratch, false);
    } else {
      var left := StreamAtBlock(crc, cut, second, b);
      var rest := second[Begun(crc, cut, second, b)..];
      assert file[b..] == Stream(crc, cut, second)[b - cut..];
      var mid := ReadsOn(crc, file, b, left, rest, scratch, false);
      AllWhole(crc, b + |Ending(crc, left)|, rest, |file|);
    }
  }

  lemma BoundaryAfter(p: nat)
    ensures NextBoundary(p) % BLOCK_SIZE == 0 && p <= NextBoundary(p)
  {
  }

  /** The cut is in the block of the torn header. */
  lemma SameBlock(crc: Crc, t: Tear, cut: nat)
    requires HeaderAt(t) < cut < t.at + |Piece(crc, t.at, t.left, t.begin)|
    ensures NextBoundary(cut) == BlockEnd(HeaderAt(t))
  {
    hide Physical;
    PieceInBlock(t.at, |t.left|);
    var q := HeaderAt(t);
    assert cut / BLOCK_SIZE == q / BLOCK_SIZE;
  }

  lemma ParseAtFails(crc: Crc, file: Bytes, p: nat)
    requires p <= |file|
    ensures var q, x := p + |Trailer(p % BLOCK_SIZE)|, ParseAt(crc, file, p);
            && (x.r.Eof? ==> |file| < BlockEnd(q) && x.reports == 0)
            && (x.r.Bad? ==> x.next == if BlockEnd(q) < |file| then BlockEnd(q) else |file|)
  {
    hide Unmask, DecodeFixed32;
    var q := p + |Trailer(p % BLOCK_SIZE)|;
    EndWithin(p, BlockEnd(q));
  }

  lemma AfterFailure(crc: Crc, file: Bytes, p: nat, scratch: Bytes, fragmented: bool)
    requires p <= |file|
    ensures var x, all := ParseAt(crc, file, p), ReadLog(crc, file, p, scratch, fragmented);
            && (x.r.Eof? ==> all == Reading([], x.reports))
            && (x.r.Bad? ==>
                  var rest := ReadLog(crc, file, x.next, if fragmented then [] else scratch, false);
                  all.records == rest.records && all.reports >= x.reports + rest.reports)
  {
    hide ParseAt, ReadLog;
    ReadLogStep(crc, file, p, scratch, fragmented);
  }

  /** With its header written and the file ending before the length it tells, the torn fragment passes
      for one still being written: all records behind it are lost, and nothing is reported. */
  lemma LostInSilence(crc: Crc, first: seq<Bytes>, cut: nat, second: seq<Bytes>)
    requires cut <= |Stream(crc, 0, first)| && |Whole(crc, 0, first, cut)| < |first|
    requires var t := TearOf(crc, first, cut);
             HeaderAt(t) + HEADER_SIZE <= cut && |TornFile(crc, first, cut, second)| < t.at + |Piece(crc, t.at, t.left, t.begin)|
    ensures ReadLog(crc, TornFile(crc, first, cut, second), 0, [], false) == Reading(Whole(crc, 0, first, cut), 0)
  {
    hide Emit, Stream, ReadLog, Whole, TearIn;
    ComesToTear(crc, first, cut, second);
    var file, t := TornFile(crc, first, cut, second), TearOf(crc, first, cut);
    HeaderTells(crc, file, t, cut);
    AfterFailure(crc, file, t.at, t.scratch, !t.begin);
  }

  lemma HeaderTells(crc: Crc, file: Bytes, t: Tear, cut: nat)
    requires t.at <= HeaderAt(t) + HEADER_SIZE <= cut <= |file| < t.at + |Piece(crc, t.at, t.left, t.begin)|
    requires file[t.at..cut] <= Piece(crc, t.at, t.left, t.begin)
    ensures ParseAt(crc, file, t.at) == Parsed(Eof, |file|, 0)
  {
    hide Physical, Unmask, DecodeFixed32;
    PieceFits(t.at, t.left, t.begin);
    var n, q := Fit(t.at % BLOCK_SIZE, |t.left|), HeaderAt(t);
    var kind: Byte := Kind(t.begin, n == |t.left|);
    var record := Physical(crc, kind, t.left[..n]);
    HeaderInBlock(file, t.at);
    RestReaches(file, t.at, n);
    var b := BlockRest(file, q);
    forall i | 0 <= i < HEADER_SIZE
      ensures b[i] == record[i]
    {
      assert b[i] == file[q + i] == file[t.at..cut][q - t.at + i];
    }
    PhysicalFields(crc, kind, t.left[..n]);
  }

  /** An addition that fails when the header of its record is in the file, and a shorter record added
      behind it: the file holds the later record's bytes in full, and a reader finds nothing and reports
      nothing. A log is what was added to it only as long as no failed addition left bytes in it. */
  lemma FailedAddition(crc: Crc, a: Bytes, b: Bytes)
    requires HEADER_SIZE + |b| < |a| && 2 * HEADER_SIZE + |a| + |b| <= BLOCK_SIZE
    ensures ReadLog(crc, Physical(crc, FULL_TYPE, a)[..HEADER_SIZE] + Physical(crc, FULL_TYPE, b), 0, [], false) == Reading([], 0)
  {
    hide Physical, ReadLog;
    StreamOne(crc, 0, a);
    StreamOne(crc, HEADER_SIZE, b);
    FitsWhole(crc, 0, a);
    FitsWhole(crc, HEADER_SIZE, b);
    assert Whole(crc, 0, [a], HEADER_SIZE) == [];
    assert [a][..0] == [];
    LostInSilence(crc, [a], HEADER_SIZE, [b]);
  }

  lemma FitsWhole(crc: Crc, off: nat, data: Bytes)
    requires off + HEADER_SIZE + |data| <= BLOCK_SIZE
    ensures Emit(crc, off, data, true) == Piece(crc, off, data, true) == Physical(crc, FULL_TYPE, data)
  {
    hide Physical;
    assert data[..|data|] == data;
  }

  /** Write, lose what is behind byte `cut`, reopen the file, write on, and read it all. */
  method WriteTearWriteRead(crc: Crc, first: seq<Bytes>, cut: nat, second: seq<Bytes>)
    returns (out: seq<Bytes>, corruptions: nat, ghost between: seq<Bytes>)
    requires cut <= |Stream(crc, 0, first)|
    ensures Reading(out, corruptions) == ReadLog(crc, TornFile(crc, first, cut, second), 0, [], false)
    ensures out == Whole(crc, 0, first, cut) + between +
                     if StopsShort(crc, UpToBoundary(TornFile(crc, first, cut, second), cut), 0) then []
                     else second[Begun(crc, cut, second, NextBoundary(cut))..]
  {
    hide Emit, Stream, Whole, ReadLog, Begun, NextBoundary, StopsShort;
    ghost var empty: Bytes := [];
    var w := new Writer(crc);
    WriteRecords(w, first);
    assert empty + Stream(crc, 0, first) == Stream(crc, 0, first);
    var w2 := new Writer.Reopen(crc, w.dest[..cut]);
    WriteRecords(w2, second);
    out, corruptions := ReadFile(crc, w2.dest);
    between := BehindTear(crc, first, cut, second);
  }
}
