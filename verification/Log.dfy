/** The write-ahead log: records cut into fragments that never cross a block, and a reader that
    puts them together again, whatever byte the file was cut off at. */
module Log {
  import opened Keys
  import opened Coding

  const BLOCK_SIZE: nat := 32768
  const HEADER_SIZE: nat := 7

  const ZERO_TYPE: Byte := 0
  const FULL_TYPE: Byte := 1
  const FIRST_TYPE: Byte := 2
  const MIDDLE_TYPE: Byte := 3
  const LAST_TYPE: Byte := 4

  const EOF_CODE: Byte := 5
  const BAD_CODE: Byte := 6

  // ----- Stored checksums -----

  /** A checksum function; the format needs nothing of it but that it is a function. */
  type Crc = Bytes -> Word32

  const MASK_DELTA: nat := 0xa282ead8

  /** Rotate right by 15 bits and add a constant. */
  function Mask(crc: Word32): Word32 {
    (crc / 0x8000 + crc % 0x8000 * 0x2_0000 + MASK_DELTA) % WORD32
  }

  function Unmask(masked: Word32): Word32 {
    var rot := (masked - MASK_DELTA) % WORD32;
    rot / 0x2_0000 + rot % 0x2_0000 * 0x8000
  }

  lemma UnmaskUndoesMask(crc: Word32)
    ensures Unmask(Mask(crc)) == crc
  {
    var rotated := crc / 0x8000 + crc % 0x8000 * 0x2_0000;
    assert rotated < WORD32;
    assert (Mask(crc) - MASK_DELTA) % WORD32 == rotated;
  }

  // ----- What the writer puts in the file -----

  /** A physical record: masked checksum of type and payload, length, type, payload. */
  function Physical(crc: Crc, kind: Byte, data: Bytes): (b: Bytes)
    requires |data| <= 0xffff
    ensures |b| == HEADER_SIZE + |data|
  {
    EncodeFixed32(Mask(crc([kind] + data))) + [|data| % 256, |data| / 256, kind] + data
  }

  /** Filling at the end of a block that has no room for a header. */
  function Trailer(off: nat): Bytes
    requires off < BLOCK_SIZE
  {
    if BLOCK_SIZE - off < HEADER_SIZE then Zeros(BLOCK_SIZE - off) else []
  }

  function Start(off: nat): nat {
    if BLOCK_SIZE - off < HEADER_SIZE then 0 else off
  }

  /** How much of `n` bytes fits in the block after a header at `Start(off)`. */
  function Fit(off: nat, n: nat): (k: nat)
    requires off <= BLOCK_SIZE
    ensures k <= n && k <= 0xffff && Start(off) + HEADER_SIZE + k <= BLOCK_SIZE
  {
    var avail := BLOCK_SIZE - Start(off) - HEADER_SIZE;
    if n < avail then n else avail
  }

  function Kind(begin: bool, end: bool): Byte {
    if begin && end then FULL_TYPE
    else if begin then FIRST_TYPE
    else if end then LAST_TYPE
    else MIDDLE_TYPE
  }

  /** The bytes of one record, or of its rest, written at offset `off` of a block. */
  function Emit(crc: Crc, off: nat, data: Bytes, begin: bool): (b: Bytes)
    requires off < BLOCK_SIZE
    ensures |b| > 0
    decreases |data|, if off == 0 then 0 else 1
  {
    var n := Fit(off, |data|);
    var first := Trailer(off) + Physical(crc, Kind(begin, n == |data|), data[..n]);
    if n == |data| then first else first + Emit(crc, 0, data[n..], false)
  }

  /** The bytes of a list of records written from file position `p` on. */
  function Stream(crc: Crc, p: nat, records: seq<Bytes>): Bytes
    decreases |records|
  {
    if records == [] then []
    else
      var b := Emit(crc, p % BLOCK_SIZE, records[0], true);
      b + Stream(crc, p + |b|, records[1..])
  }

  lemma {:induction false} StreamSplits(crc: Crc, p: nat, a: seq<Bytes>, b: seq<Bytes>)
    ensures Stream(crc, p, a + b) == Stream(crc, p, a) + Stream(crc, p + |Stream(crc, p, a)|, b)
    decreases |a|
  {
    hide Emit;
    if a == [] {
      assert a + b == b;
    } else {
      assert (a + b)[1..] == a[1..] + b;
      var e := Emit(crc, p % BLOCK_SIZE, a[0], true);
      StreamSplits(crc, p + |e|, a[1..], b);
    }
  }

  /** The first fragment of a record at file position `p`. */
  function Piece(crc: Crc, p: nat, data: Bytes, begin: bool): Bytes {
    var off := p % BLOCK_SIZE;
    var n := Fit(off, |data|);
    Trailer(off) + Physical(crc, Kind(begin, n == |data|), data[..n])
  }

  /** A record is its first fragment and, if that does not hold it, more from the next block on. */
  lemma EmitUnfolds(crc: Crc, p: nat, data: Bytes, begin: bool)
    ensures var n, piece := Fit(p % BLOCK_SIZE, |data|), Piece(crc, p, data, begin);
            && |piece| >= HEADER_SIZE
            && (n == |data| ==> Emit(crc, p % BLOCK_SIZE, data, begin) == piece)
            && (n < |data| ==> (p + |piece|) % BLOCK_SIZE == 0 &&
                               Emit(crc, p % BLOCK_SIZE, data, begin) == piece + Emit(crc, 0, data[n..], false))
            && (n == 0 && n < |data| ==> p % BLOCK_SIZE != 0)
  {
  }

  /** The records of a list all of whose bytes lie before `n`. */
  ghost function Whole(crc: Crc, p: nat, records: seq<Bytes>, n: nat): seq<Bytes>
    decreases |records|
  {
    if records == [] || p + |Emit(crc, p % BLOCK_SIZE, records[0], true)| > n then []
    else [records[0]] + Whole(crc, p + |Emit(crc, p % BLOCK_SIZE, records[0], true)|, records[1..], n)
  }

  /** `Whole` is the longest list of leading records that fits. */
  lemma {:induction false} WholeIsLongest(crc: Crc, p: nat, records: seq<Bytes>, n: nat)
    requires p <= n
    ensures var k := |Whole(crc, p, records, n)|;
            && k <= |records| && Whole(crc, p, records, n) == records[..k]
            && p + |Stream(crc, p, records[..k])| <= n
            && (k < |records| ==> p + |Stream(crc, p, records[..k + 1])| > n)
    decreases |records|
  {
    hide Emit;
    if records != [] {
      var q := p + |Emit(crc, p % BLOCK_SIZE, records[0], true)|;
      if q <= n {
        WholeIsLongest(crc, q, records[1..], n);
        var k := |Whole(crc, q, records[1..], n)|;
        assert records[..k + 1][1..] == records[1..][..k];
        assert k + 1 < |records| ==> records[..k + 2][1..] == records[1..][..k + 1];
      } else {
        assert records[..1][1..] == [];
      }
    }
  }

  // ----- The writer -----

  class Writer {
    const crc: Crc
    var dest: Bytes
    var blockOffset: nat

    ghost predicate Ok()
      reads this
    {
      blockOffset <= BLOCK_SIZE && blockOffset % BLOCK_SIZE == |dest| % BLOCK_SIZE
    }

    constructor (c: Crc)
      ensures Ok() && crc == c && dest == []
    {
      crc, dest, blockOffset := c, [], 0;
    }

    /** Go on writing a file that has contents already. */
    constructor Reopen(c: Crc, contents: Bytes)
      ensures Ok() && crc == c && dest == contents
    {
      crc, dest, blockOffset := c, contents, |contents| % BLOCK_SIZE;
    }

    method AddRecord(slice: Bytes)
      requires Ok()
      modifies this
      ensures Ok() && dest == old(dest) + Emit(crc, |old(dest)| % BLOCK_SIZE, slice, true)
    {
      hide Emit, Piece, Fit;
      var left := slice;
      var begin := true;
      var done := false;
      ghost var all := dest + Emit(crc, |dest| % BLOCK_SIZE, slice, true);
      while !done
        invariant Ok()
        invariant all == if done then dest else dest + Emit(crc, |dest| % BLOCK_SIZE, left, begin)
        decreases !done, |left|, if blockOffset % BLOCK_SIZE == 0 then 0 else 1
      {
        EmitUnfolds(crc, |dest|, left, begin);
        ghost var piece := Piece(crc, |dest|, left, begin);
        var fragmentLength;
        fragmentLength := WriteFragment(left, begin);
        left := left[fragmentLength..];
        begin := false;
        done := |left| == 0;
      }
    }

    /** The body of AddRecord's loop up to the fragment it emits. */
    method WriteFragment(left: Bytes, begin: bool) returns (fragmentLength: nat)
      requires Ok()
      modifies this
      ensures Ok() && fragmentLength == Fit(|old(dest)| % BLOCK_SIZE, |left|)
      ensures dest == old(dest) + Piece(crc, |old(dest)|, left, begin)
    {
      hide Physical, Fit;
      ghost var off := |dest| % BLOCK_SIZE;
      FitMeans(off, |left|);
      var leftover := BLOCK_SIZE - blockOffset;
      if leftover < HEADER_SIZE {
        if leftover > 0 {
          // fill the trailer
          dest := dest + Zeros(leftover);
        }
        blockOffset := 0;
      }
      assert dest == old(dest) + Trailer(off) && blockOffset == Start(off);
      var avail := BLOCK_SIZE - blockOffset - HEADER_SIZE;
      fragmentLength := if |left| < avail then |left| else avail;
      var end := |left| == fragmentLength;
      EmitPhysicalRecord(Kind(begin, end), left[..fragmentLength]);
      assert old(dest) + Trailer(off) + Physical(crc, Kind(begin, end), left[..fragmentLength]) ==
             old(dest) + (Trailer(off) + Physical(crc, Kind(begin, end), left[..fragmentLength]));
    }

    lemma FitMeans(off: nat, n: nat)
      requires off < BLOCK_SIZE
      ensures Fit(off, n) == if n < BLOCK_SIZE - Start(off) - HEADER_SIZE then n else BLOCK_SIZE - Start(off) - HEADER_SIZE
    {
    }

    method EmitPhysicalRecord(kind: Byte, data: Bytes)
      requires blockOffset + HEADER_SIZE + |data| <= BLOCK_SIZE && blockOffset % BLOCK_SIZE == |dest| % BLOCK_SIZE
      modifies this
      ensures dest == old(dest) + Physical(crc, kind, data)
      ensures blockOffset == old(blockOffset) + HEADER_SIZE + |data| && Ok()
    {
      hide EncodeFixed32, Mask;
      var n := |data|;
      var header := EncodeFixed32(Mask(crc([kind] + data))) + [n % 256, n / 256, kind];
      assert Physical(crc, kind, data) == header + data;
      dest := dest + header + data;
      assert dest == old(dest) + (header + data);
      blockOffset := blockOffset + HEADER_SIZE + n;
    }
  }

  // ----- What a reader makes of any file -----

  /** Where the block of a file position ends. */
  function BlockEnd(p: int): int {
    (p / BLOCK_SIZE + 1) * BLOCK_SIZE
  }

  /** What reading a physical record yields: a fragment, the end of the file, or nothing usable. */
  datatype Outcome = Fragment(kind: Byte, data: Bytes) | Eof | Bad

  /** What is found at a position, where parsing goes on, and how often a corruption is reported. */
  datatype Parsed = Parsed(r: Outcome, next: nat, reports: nat)

  /** Parse what is left of a block, from position `q` on; `eof` when the file ends in the block. */
  function ParseBuffer(crc: Crc, b: Bytes, q: nat, eof: bool): (x: Parsed)
    requires |b| >= HEADER_SIZE
    ensures q < x.next <= q + |b|
    ensures x.r.Bad? ==> x.next == q + |b|
  {
    var n: nat := b[4] as nat + 256 * b[5] as nat;
    if HEADER_SIZE + n > |b| then Parsed(if eof then Eof else Bad, q + |b|, if eof then 0 else 1)
    else if b[6] == ZERO_TYPE && n == 0 then Parsed(Bad, q + |b|, 0)
    else if crc([b[6]] + b[HEADER_SIZE..HEADER_SIZE + n]) != Unmask(DecodeFixed32(b)) then Parsed(Bad, q + |b|, 1)
    else Parsed(Fragment(b[6], b[HEADER_SIZE..HEADER_SIZE + n]), q + HEADER_SIZE + n, 0)
  }

  /** The bytes from `q` to the end of its block or of the file. */
  function BlockRest(file: Bytes, q: nat): Bytes
    requires q <= |file|
  {
    file[q..if BlockEnd(q) < |file| then BlockEnd(q) else |file|]
  }

  function ParseAt(crc: Crc, file: Bytes, p: nat): (x: Parsed)
    requires p <= |file|
    ensures x.next <= |file| && (x.r != Eof ==> p < x.next)
  {
    var q := p + |Trailer(p % BLOCK_SIZE)|;
    if q + HEADER_SIZE > |file| then Parsed(Eof, |file|, 0)
    else
      HeaderInBlock(file, p);
      ParseBuffer(crc, BlockRest(file, q), q, BlockEnd(q) > |file|)
  }

  lemma HeaderInBlock(file: Bytes, p: nat)
    requires p + |Trailer(p % BLOCK_SIZE)| + HEADER_SIZE <= |file|
    ensures |BlockRest(file, p + |Trailer(p % BLOCK_SIZE)|)| >= HEADER_SIZE
  {
  }

  /** The number that says what was read: the type of a fragment as the file has it, and for the end of
      the file and for nothing usable the two numbers after the last type. A fragment may have a type
      with one of these numbers, and is then taken for the one or the other. */
  function Code(r: Outcome): nat {
    match r
    case Fragment(kind, _) => kind
    case Eof => EOF_CODE
    case Bad => BAD_CODE
  }

  /** What a fragment does to the record being put together. */
  datatype Assembly = Assembly(done: bool, scratch: Bytes, fragmented: bool, reports: nat)

  /** A fragment completes the record, extends it or, out of place, counts as a corruption; so does one
      of an unknown type. An empty first fragment before another start is no fault. */
  function Assembled(kind: nat, data: Bytes, scratch: Bytes, fragmented: bool): Assembly {
    var partial := if fragmented && scratch != [] then 1 else 0;
    if kind == FULL_TYPE then Assembly(true, data, false, partial)
    else if kind == FIRST_TYPE then Assembly(false, data, true, partial)
    else if kind == MIDDLE_TYPE then
      if fragmented then Assembly(false, scratch + data, true, 0) else Assembly(false, scratch, false, 1)
    else if kind == LAST_TYPE then
      if fragmented then Assembly(true, scratch + data, false, 0) else Assembly(false, scratch, false, 1)
    else Assembly(false, [], false, 1)
  }

  /** What one step of reading yields, and the part of a record put together after it. */
  datatype Effect = Effect(records: seq<Bytes>, reports: nat, scratch: Bytes, fragmented: bool)

  function EffectOf(x: Parsed, scratch: Bytes, fragmented: bool): Effect {
    if Code(x.r) == EOF_CODE then Effect([], x.reports, [], false)
    else if Code(x.r) == BAD_CODE then
      Effect([], x.reports + if fragmented then 1 else 0, if fragmented then [] else scratch, false)
    else
      var a := Assembled(x.r.kind, x.r.data, scratch, fragmented);
      Effect(if a.done then [a.scratch] else [], x.reports + a.reports, if a.done then [] else a.scratch, a.fragmented)
  }

  /** The records read, and how often a corruption was reported. */
  datatype Reading = Reading(records: seq<Bytes>, reports: nat) {
    function After(records0: seq<Bytes>, reports0: nat): Reading {
      Reading(records0 + records, reports0 + reports)
    }
  }

  /** What reading a file from `p` to its end gives, with part of a record put together already. */
  function ReadLog(crc: Crc, file: Bytes, p: nat, scratch: Bytes, fragmented: bool): Reading
    requires p <= |file|
    decreases |file| - p
  {
    var x := ParseAt(crc, file, p);
    var e := EffectOf(x, scratch, fragmented);
    if Code(x.r) == EOF_CODE then Reading([], e.reports)
    else ReadLog(crc, file, x.next, e.scratch, e.fragmented).After(e.records, e.reports)
  }

  lemma ReadLogStep(crc: Crc, file: Bytes, p: nat, scratch: Bytes, fragmented: bool)
    requires p <= |file|
    ensures var x := ParseAt(crc, file, p); var e := EffectOf(x, scratch, fragmented);
            ReadLog(crc, file, p, scratch, fragmented) ==
              if Code(x.r) == EOF_CODE then Reading([], e.reports)
              else ReadLog(crc, file, x.next, e.scratch, e.fragmented).After(e.records, e.reports)
  {
    hide ParseAt, EffectOf;
  }

  lemma FromStart(r: Reading)
    ensures r.After([], 0) == r
  {
    assert [] + r.records == r.records;
  }

  /** One step of reading, `n` reports after it began. */
  lemma StepReads(was: Reading, n: nat, crc: Crc, file: Bytes, p: nat, scratch: Bytes, fragmented: bool)
    requires p <= |file| && was == ReadLog(crc, file, p, scratch, fragmented).After([], n)
    ensures var x := ParseAt(crc, file, p); var e := EffectOf(x, scratch, fragmented);
            was == if Code(x.r) == EOF_CODE then Reading([], n + e.reports)
                   else ReadLog(crc, file, x.next, e.scratch, e.fragmented).After(e.records, n + e.reports)
  {
    hide ParseAt, EffectOf, ReadLog;
    ReadLogStep(crc, file, p, scratch, fragmented);
    var x := ParseAt(crc, file, p);
    var e := EffectOf(x, scratch, fragmented);
    var r := ReadLog(crc, file, x.next, e.scratch, e.fragmented);
    assert [] + (e.records + r.records) == e.records + r.records;
  }

  // ----- The reader -----

  /** The buffer holds the end of what was read, all of it from one block. */
  ghost predicate OkAt(file: Bytes, pos: nat, buffer: Bytes, eof: bool) {
    && |buffer| <= pos <= |file|
    && buffer == file[pos - |buffer|..pos]
    && (eof ==> pos == |file|)
    && (!eof ==> pos % BLOCK_SIZE == 0)
    && (buffer != [] ==> if eof then pos < BlockEnd(pos - |buffer|) else pos == BlockEnd(pos - |buffer|))
  }

  lemma EmptyBuffer(file: Bytes, pos: nat, buffer: Bytes, eof: bool)
    requires OkAt(file, pos, buffer, eof)
    ensures OkAt(file, pos, [], eof) && |buffer| <= pos <= |file|
  {
  }

  /** Dropping bytes from the front of the buffer keeps it within its block. */
  lemma Consumes(file: Bytes, pos: nat, buffer: Bytes, eof: bool, n: nat)
    requires OkAt(file, pos, buffer, eof) && 0 < n <= |buffer|
    ensures OkAt(file, pos, buffer[n..], eof) && |buffer| <= pos <= |file|
  {
    var p := pos - |buffer|;
    if n < |buffer| {
      assert BlockEnd(p + n) == BlockEnd(p);
    }
  }

  /** A trailer is not followed by another. */
  lemma TrailerOnce(p: nat)
    ensures var q := p + |Trailer(p % BLOCK_SIZE)|; Trailer(q % BLOCK_SIZE) == []
  {
  }

  /** With no header in the buffer, what was read ends where the trailer of `p` does. */
  lemma ReadsOn(file: Bytes, pos: nat, buffer: Bytes, p: nat)
    requires OkAt(file, pos, buffer, false) && |buffer| < HEADER_SIZE
    requires pos - |buffer| == p || pos - |buffer| == p + |Trailer(p % BLOCK_SIZE)|
    ensures pos == p + |Trailer(p % BLOCK_SIZE)| && pos <= |file|
    ensures var end := if pos + BLOCK_SIZE <= |file| then pos + BLOCK_SIZE else |file|;
            OkAt(file, end, file[pos..end], end - pos < BLOCK_SIZE)
  {
    hide Trailer;
    TrailerOnce(p);
    TrailerSize((pos - |buffer|) % BLOCK_SIZE);
    var end := if pos + BLOCK_SIZE <= |file| then pos + BLOCK_SIZE else |file|;
    assert file[pos..end] == file[end - |file[pos..end]|..end];
  }

  lemma TrailerSize(off: nat)
    requires off < BLOCK_SIZE
    ensures |Trailer(off)| == if BLOCK_SIZE - off < HEADER_SIZE then BLOCK_SIZE - off else 0
  {
  }

  lemma EndsHere(file: Bytes, pos: nat, buffer: Bytes, p: nat)
    requires OkAt(file, pos, buffer, true) && |buffer| < HEADER_SIZE
    requires pos - |buffer| == p || pos - |buffer| == p + |Trailer(p % BLOCK_SIZE)|
    ensures p + |Trailer(p % BLOCK_SIZE)| + HEADER_SIZE > |file| && OkAt(file, pos, [], true) && p <= pos == |file|
  {
    hide Trailer;
  }

  lemma AtStart(file: Bytes, pos: nat, buffer: Bytes, eof: bool)
    requires OkAt(file, pos, buffer, eof)
    ensures |buffer| <= pos <= |file|
    ensures |buffer| >= HEADER_SIZE ==> Trailer((pos - |buffer|) % BLOCK_SIZE) == []
  {
  }

  /** A buffer with a header in it is the rest of its block. */
  lemma BufferIsRest(file: Bytes, pos: nat, buffer: Bytes, eof: bool)
    requires OkAt(file, pos, buffer, eof) && buffer != []
    ensures |buffer| <= pos <= |file| && buffer == BlockRest(file, pos - |buffer|) && (eof <==> BlockEnd(pos - |buffer|) > |file|)
  {
  }

  class Reader {
    const crc: Crc
    const file: Bytes
    var pos: nat         // bytes read from the file so far
    var buffer: Bytes    // of those, the ones not parsed yet
    var eof: bool        // the last read came up short
    var corruptions: nat // how often a corruption was reported

    ghost predicate Ok()
      reads this
    {
      OkAt(file, pos, buffer, eof)
    }

    /** The file position parsed up to. */
    ghost function At(): (p: nat)
      requires Ok()
      reads this
      ensures p <= |file|
    {
      pos - |buffer|
    }

    constructor (c: Crc, f: Bytes)
      ensures Ok() && crc == c && file == f && At() == 0 && corruptions == 0
    {
      crc, file := c, f;
      pos, buffer, eof, corruptions := 0, [], false, 0;
    }

    /** Read blocks until a header is in the buffer or the file ends. What is left of a block too
        short for a header is its trailer. */
    method FillBuffer() returns (more: bool)
      requires Ok()
      modifies this`buffer, this`pos, this`eof
      ensures Ok()
      ensures var q := old(At()) + |Trailer(old(At()) % BLOCK_SIZE)|;
              if more then |buffer| >= HEADER_SIZE && At() == q
              else q + HEADER_SIZE > |file| && buffer == [] && eof && At() == |file|
    {
      hide OkAt, Trailer;
      ghost var p := At();
      ghost var q := p + |Trailer(p % BLOCK_SIZE)|;
      AtStart(file, pos, buffer, eof);
      while |buffer| < HEADER_SIZE
        invariant Ok() && p <= At() && 0 <= p
        invariant |buffer| >= HEADER_SIZE ==> At() == q
        invariant At() == q || (At() == p && buffer == old(buffer) && pos == old(pos) && eof == old(eof))
        decreases !eof, |file| - pos
      {
        if !eof {
          // the last read was a full read, so this is a trailer to skip
          var end := if pos + BLOCK_SIZE <= |file| then pos + BLOCK_SIZE else |file|;
          ReadsOn(file, pos, buffer, p);
          buffer := file[pos..end];
          pos := end;
          if |buffer| < BLOCK_SIZE {
            eof := true;
          }
        } else {
          EndsHere(file, pos, buffer, p);
          buffer := [];
          return false;
        }
      }
      return true;
    }

    /** Parse the physical record at the front of the buffer. */
    method ParseRecord() returns (r: Outcome)
      requires Ok() && |buffer| >= HEADER_SIZE
      modifies this`buffer, this`corruptions
      ensures Ok() && corruptions >= old(corruptions)
      ensures Parsed(r, At(), corruptions - old(corruptions)) == ParseBuffer(crc, old(buffer), old(At()), eof)
    {
      hide DecodeFixed32, Unmask, OkAt;
      EmptyBuffer(file, pos, buffer, eof);
      var header := buffer;
      var length: nat := header[4] as nat + 256 * header[5] as nat;
      var kind := header[6];
      if HEADER_SIZE + length > |buffer| {
        buffer := [];
        if !eof {
          corruptions := corruptions + 1;
          return Bad;
        }
        return Eof;
      }
      if kind == ZERO_TYPE && length == 0 {
        buffer := [];
        return Bad;
      }
      var expected := Unmask(DecodeFixed32(header));
      var actual := crc([kind] + header[HEADER_SIZE..HEADER_SIZE + length]);
      if actual != expected {
        buffer := [];
        corruptions := corruptions + 1;
        return Bad;
      }
      Consumes(file, pos, buffer, eof, HEADER_SIZE + length);
      buffer := buffer[HEADER_SIZE + length..];
      return Fragment(kind, header[HEADER_SIZE..HEADER_SIZE + length]);
    }

    /** Read one physical record: its type, or one of the two codes, and its payload. */
    method ReadPhysicalRecord() returns (recordType: nat, fragment: Bytes)
      requires Ok()
      modifies this
      ensures var x := ParseAt(crc, file, old(At()));
              && Ok() && At() == x.next && corruptions == old(corruptions) + x.reports
              && recordType == Code(x.r) && fragment == if x.r.Fragment? then x.r.data else []
    {
      hide ParseBuffer, BlockRest, Trailer, OkAt;
      var more := FillBuffer();
      if !more {
        return EOF_CODE, [];
      }
      BufferIsRest(file, pos, buffer, eof);
      var r := ParseRecord();
      match r
      case Fragment(kind, data) => return kind, data;
      case Eof => return EOF_CODE, [];
      case Bad => return BAD_CODE, [];
    }

    /** Read one record, or find that there is none any more. */
    method ReadRecord() returns (ok: bool, record: Bytes)
      requires Ok()
      modifies this
      ensures Ok() && corruptions >= old(corruptions) && (ok ==> old(At()) < At())
      ensures old(ReadLog(crc, file, At(), [], false)) ==
                if ok then ReadLog(crc, file, At(), [], false).After([record], corruptions - old(corruptions))
                else Reading([], corruptions - old(corruptions))
    {
      hide ParseAt, OkAt, ReadLog, Reading.After;
      ghost var was := ReadLog(crc, file, At(), [], false);
      FromStart(was);
      var scratch: Bytes := [];
      var inFragmentedRecord := false;
      while true
        invariant Ok() && old(At()) <= At() && corruptions >= old(corruptions)
        invariant was == ReadLog(crc, file, At(), scratch, inFragmentedRecord).After([], corruptions - old(corruptions))
        decreases |file| - At()
      {
        StepReads(was, corruptions - old(corruptions), crc, file, At(), scratch, inFragmentedRecord);
        var recordType, fragment := ReadPhysicalRecord();
        if recordType == EOF_CODE {
          return false, [];
        } else if recordType == BAD_CODE {
          if inFragmentedRecord {
            corruptions := corruptions + 1;
            inFragmentedRecord := false;
            scratch := [];
          }
        } else {
          var done;
          done, scratch, inFragmentedRecord := Assemble(recordType, fragment, scratch, inFragmentedRecord);
          if done {
            return true, scratch;
          }
        }
      }
    }

    /** Put a fragment where it belongs. */
    method Assemble(kind: nat, data: Bytes, scratch: Bytes, fragmented: bool)
      returns (done: bool, scratch': Bytes, fragmented': bool)
      modifies this`corruptions
      ensures var a := Assembled(kind, data, scratch, fragmented);
              done == a.done && scratch' == a.scratch && (!done ==> fragmented' == a.fragmented) &&
              corruptions == old(corruptions) + a.reports
    {
      done, scratch', fragmented' := false, scratch, fragmented;
      if kind == FULL_TYPE {
        if fragmented && scratch != [] {
          corruptions := corruptions + 1;
        }
        done, scratch' := true, data;
      } else if kind == FIRST_TYPE {
        if fragmented && scratch != [] {
          corruptions := corruptions + 1;
        }
        scratch', fragmented' := data, true;
      } else if kind == MIDDLE_TYPE {
        if !fragmented {
          corruptions := corruptions + 1;
        } else {
          scratch' := scratch + data;
        }
      } else if kind == LAST_TYPE {
        if !fragmented {
          corruptions := corruptions + 1;
        } else {
          done, scratch' := true, scratch + data;
        }
      } else {
        corruptions := corruptions + 1;
        scratch', fragmented' := [], false;
      }
    }
  }

  /** `n` of the records `all` that are in the file have been read and used; `ok` and `record` are what
      reading the next one gave. */
  ghost predicate Progress(reader: Reader, all: seq<Bytes>, n: nat, ok: bool, record: Bytes)
    reads reader
  {
    && reader.Ok() && reader.corruptions == 0
    && if ok then n < |all| && record == all[n] && ReadLog(reader.crc, reader.file, reader.At(), [], false) == Reading(all[n + 1..], 0)
       else n == |all|
  }

  lemma ProgressMeans(reader: Reader, all: seq<Bytes>, n: nat, ok: bool, record: Bytes)
    requires Progress(reader, all, n, ok, record)
    ensures if ok then n < |all| && record == all[n] else n == |all|
  {
  }

  method ReadFirst(crc: Crc, file: Bytes, ghost all: seq<Bytes>) returns (reader: Reader, ok: bool, record: Bytes)
    requires ReadLog(crc, file, 0, [], false) == Reading(all, 0)
    ensures fresh(reader) && Progress(reader, all, 0, ok, record)
  {
    hide ReadLog, OkAt;
    reader := new Reader(crc, file);
    ok, record := reader.ReadRecord();
  }

  method ReadNext(reader: Reader, ghost all: seq<Bytes>, ghost n: nat, ghost last: Bytes) returns (ok: bool, record: Bytes)
    requires Progress(reader, all, n, true, last)
    modifies reader
    ensures n < |all| && Progress(reader, all, n + 1, ok, record)
  {
    hide ReadLog, OkAt;
    ok, record := reader.ReadRecord();
    assert ok ==> all[n + 1..][1..] == all[n + 2..];
  }

  /** Read a whole file, whatever is in it. */
  method ReadFile(crc: Crc, file: Bytes) returns (out: seq<Bytes>, corruptions: nat)
    ensures Reading(out, corruptions) == ReadLog(crc, file, 0, [], false)
  {
    hide ReadLog, OkAt;
    var reader := new Reader(crc, file);
    out := [];
    var ok, record := reader.ReadRecord();
    while ok
      invariant reader.Ok() && reader.crc == crc && reader.file == file
      invariant ReadLog(crc, file, 0, [], false) ==
                  if ok then ReadLog(crc, file, reader.At(), [], false).After(out + [record], reader.corruptions)
                  else Reading(out, reader.corruptions)
      decreases ok, |file| - reader.At()
    {
      out := out + [record];
      ok, record := reader.ReadRecord();
    }
    corruptions := reader.corruptions;
  }

  // ----- Reading what was written -----

  lemma SameFixed32(a: Bytes, b: Bytes)
    requires |a| >= 4 && |b| >= 4 && a[0] == b[0] && a[1] == b[1] && a[2] == b[2] && a[3] == b[3]
    ensures DecodeFixed32(a) == DecodeFixed32(b)
  {
  }

  lemma PhysicalFields(crc: Crc, kind: Byte, data: Bytes)
    requires |data| <= 0xffff
    ensures var b := Physical(crc, kind, data);
            && b[4] as nat + 256 * b[5] as nat == |data| && b[6] == kind && b[HEADER_SIZE..] == data
            && Unmask(DecodeFixed32(b)) == crc([kind] + data)
  {
    var m := Mask(crc([kind] + data));
    var fixed := EncodeFixed32(m);
    var b := Physical(crc, kind, data);
    assert b == fixed + ([|data| % 256, |data| / 256, kind] + data);
    assert DecodeFixed32(b) == DecodeFixed32(fixed);
    UnmaskUndoesMask(crc([kind] + data));
  }

  /** A buffer that begins with a physical record, or with its header and part of the rest. */
  lemma ParseBufferIntact(crc: Crc, b: Bytes, q: nat, eof: bool, kind: Byte, data: Bytes)
    requires |data| <= 0xffff && kind != ZERO_TYPE && HEADER_SIZE <= |b|
    requires forall i :: 0 <= i < |b| && i < HEADER_SIZE + |data| ==> b[i] == Physical(crc, kind, data)[i]
    ensures ParseBuffer(crc, b, q, eof) ==
              if HEADER_SIZE + |data| <= |b| then Parsed(Fragment(kind, data), q + HEADER_SIZE + |data|, 0)
              else Parsed(if eof then Eof else Bad, q + |b|, if eof then 0 else 1)
  {
    hide Physical, Unmask, DecodeFixed32;
    var record := Physical(crc, kind, data);
    PhysicalFields(crc, kind, data);
    SameFixed32(b, record);
    if HEADER_SIZE + |data| <= |b| {
      assert b[HEADER_SIZE..HEADER_SIZE + |data|] == record[HEADER_SIZE..];
    }
  }

  /** Where the file goes on with an intact physical record, it is found if it is all there, and
      otherwise the end of the file is; nothing is reported. */
  lemma ParseIntact(crc: Crc, file: Bytes, p: nat, kind: Byte, data: Bytes, rest: Bytes)
    requires p <= |file| && |data| <= 0xffff && kind != ZERO_TYPE
    requires Start(p % BLOCK_SIZE) + HEADER_SIZE + |data| <= BLOCK_SIZE
    requires file[p..] <= Trailer(p % BLOCK_SIZE) + Physical(crc, kind, data) + rest
    ensures var end := p + |Trailer(p % BLOCK_SIZE)| + HEADER_SIZE + |data|;
            if end <= |file| then ParseAt(crc, file, p) == Parsed(Fragment(kind, data), end, 0) && file[end..] <= rest
            else ParseAt(crc, file, p) == Parsed(Eof, |file|, 0)
  {
    hide Physical, ParseBuffer, BlockRest;
    var t, record := Trailer(p % BLOCK_SIZE), Physical(crc, kind, data);
    var q := p + |t|;
    if q + HEADER_SIZE <= |file| {
      HeaderInBlock(file, p);
      var b := BlockRest(file, q);
      RestReaches(file, p, |data|);
      forall i | 0 <= i < |b| && i < HEADER_SIZE + |data|
        ensures b[i] == record[i]
      {
        assert b[i] == file[q + i] == file[p..][|t| + i] == (t + record + rest)[|t| + i];
      }
      ParseBufferIntact(crc, b, q, BlockEnd(q) > |file|, kind, data);
    }
    FacesOn(file, p, t + record, rest);
  }

  /** A record that fits in its block is in the rest of it, unless the file ends before. */
  lemma RestReaches(file: Bytes, p: nat, n: nat)
    requires Start(p % BLOCK_SIZE) + HEADER_SIZE + n <= BLOCK_SIZE && p + |Trailer(p % BLOCK_SIZE)| <= |file|
    ensures var q := p + |Trailer(p % BLOCK_SIZE)|; var b := BlockRest(file, q);
            && |b| <= |file| - q && b == file[q..q + |b|]
            && (q + HEADER_SIZE + n <= |file| ==> HEADER_SIZE + n <= |b|)
            && (q + HEADER_SIZE + n > |file| ==> HEADER_SIZE + n > |b| && BlockEnd(q) > |file| && q + |b| == |file|)
  {
    var q := p + |Trailer(p % BLOCK_SIZE)|;
    assert q % BLOCK_SIZE == Start(p % BLOCK_SIZE);
    assert q + HEADER_SIZE + n <= BlockEnd(q);
  }

  /** After a whole piece the file goes on with the rest. */
  lemma FacesOn(file: Bytes, p: nat, piece: Bytes, rest: Bytes)
    requires p <= |file| && file[p..] <= piece + rest
    ensures p + |piece| <= |file| ==> file[p + |piece|..] <= rest
  {
    if p + |piece| <= |file| {
      assert file[p..][|piece|..] == file[p + |piece|..];
      assert (piece + rest)[|piece|..] == rest;
    }
  }

  /** What follows the first fragment of a record. */
  function More(crc: Crc, p: nat, left: Bytes): Bytes {
    var n := Fit(p % BLOCK_SIZE, |left|);
    if n == |left| then [] else Emit(crc, 0, left[n..], false)
  }

  lemma EmitParts(crc: Crc, p: nat, left: Bytes, begin: bool)
    ensures var n, end := Fit(p % BLOCK_SIZE, |left|), p + |Piece(crc, p, left, begin)|;
            && n <= |left| && p < end
            && Emit(crc, p % BLOCK_SIZE, left, begin) == Piece(crc, p, left, begin) + More(crc, p, left)
            && (n < |left| ==> end % BLOCK_SIZE == 0 && (n > 0 || p % BLOCK_SIZE != 0))
  {
    hide Emit, Piece, Fit;
    EmitUnfolds(crc, p, left, begin);
    PieceFits(p, left, begin);
  }

  /** The first fragment of a record, or of its rest, that the file goes on with. */
  lemma ParsePiece(crc: Crc, file: Bytes, p: nat, left: Bytes, begin: bool, tail: Bytes)
    requires p <= |file| && file[p..] <= Emit(crc, p % BLOCK_SIZE, left, begin) + tail
    ensures var n, end := Fit(p % BLOCK_SIZE, |left|), p + |Piece(crc, p, left, begin)|;
            n <= |left| &&
            if end <= |file| then
              ParseAt(crc, file, p) == Parsed(Fragment(Kind(begin, n == |left|), left[..n]), end, 0) &&
              file[end..] <= More(crc, p, left) + tail
            else ParseAt(crc, file, p) == Parsed(Eof, |file|, 0)
  {
    hide Emit, Physical, ParseAt, Fit, Kind, Start, Trailer, More;
    EmitParts(crc, p, left, begin);
    PieceFits(p, left, begin);
    var piece, more := Piece(crc, p, left, begin), More(crc, p, left);
    assert piece + more + tail == piece + (more + tail);
    var n := Fit(p % BLOCK_SIZE, |left|);
    ParseIntact(crc, file, p, Kind(begin, n == |left|), left[..n], more + tail);
  }

  lemma PieceFits(p: nat, left: Bytes, begin: bool)
    ensures var n := Fit(p % BLOCK_SIZE, |left|);
            && n <= |left| && n <= 0xffff && Start(p % BLOCK_SIZE) + HEADER_SIZE + n <= BLOCK_SIZE
            && Kind(begin, n == |left|) != ZERO_TYPE
            && (n < |left| && p % BLOCK_SIZE == 0 ==> n > 0)
  {
  }

  /** The rest of a record whose first fragments were read. */
  lemma {:induction false} RestRead(crc: Crc, file: Bytes, p: nat, left: Bytes, tail: Bytes, scratch: Bytes)
    requires p <= |file| && p % BLOCK_SIZE == 0 && file[p..] <= Emit(crc, 0, left, false) + tail
    ensures var end := p + |Emit(crc, 0, left, false)|;
            if end <= |file| then
              file[end..] <= tail &&
              ReadLog(crc, file, p, scratch, true) == ReadLog(crc, file, end, [], false).After([scratch + left], 0)
            else ReadLog(crc, file, p, scratch, true) == Reading([], 0)
    decreases |left|
  {
    hide Emit, ParseAt, Piece, Fit, ReadLog;
    ReadLogStep(crc, file, p, scratch, true);
    EmitParts(crc, p, left, false);
    ParsePiece(crc, file, p, left, false, tail);
    var n := Fit(p % BLOCK_SIZE, |left|);
    var end := p + |Piece(crc, p, left, false)|;
    assert [] + tail == tail;
    if n < |left| {
      if end <= |file| {
        RestRead(crc, file, end, left[n..], tail, scratch + left[..n]);
        assert scratch + left[..n] + left[n..] == scratch + left;
      }
    } else {
      assert left[..n] == left;
    }
  }

  /** What is reported when a record starts before the one being put together is complete. */
  function Partial(scratch: Bytes, fragmented: bool): nat {
    if fragmented && scratch != [] then 1 else 0
  }

  /** A record that the file goes on with is read if all its bytes are there, whatever came before;
      otherwise nothing is. */
  lemma RecordRead(crc: Crc, file: Bytes, p: nat, data: Bytes, tail: Bytes, scratch: Bytes, fragmented: bool)
    requires p <= |file| && file[p..] <= Emit(crc, p % BLOCK_SIZE, data, true) + tail
    ensures var end := p + |Emit(crc, p % BLOCK_SIZE, data, true)|;
            if end <= |file| then
              file[end..] <= tail &&
              ReadLog(crc, file, p, scratch, fragmented) ==
                ReadLog(crc, file, end, [], false).After([data], Partial(scratch, fragmented))
            else ReadLog(crc, file, p, scratch, fragmented).records == [] &&
                 ReadLog(crc, file, p, scratch, fragmented).reports <= Partial(scratch, fragmented)
  {
    hide Emit, ParseAt, Piece, Fit, ReadLog;
    ReadLogStep(crc, file, p, scratch, fragmented);
    EmitParts(crc, p, data, true);
    ParsePiece(crc, file, p, data, true, tail);
    var n := Fit(p % BLOCK_SIZE, |data|);
    var end := p + |Piece(crc, p, data, true)|;
    assert [] + tail == tail;
    if n < |data| {
      if end <= |file| {
        RestRead(crc, file, end, data[n..], tail, data[..n]);
        assert data[..n] + data[n..] == data;
      }
    } else {
      assert data[..n] == data;
    }
  }

  lemma StreamUnfolds(c: Crc, p: nat, rs: seq<Bytes>)
    ensures rs == [] ==> Stream(c, p, rs) == []
    ensures rs != [] ==> Stream(c, p, rs) == Emit(c, p % BLOCK_SIZE, rs[0], true) +
                                             Stream(c, p + |Emit(c, p % BLOCK_SIZE, rs[0], true)|, rs[1..])
  {
  }

  /** Where the file goes on with a list of records, possibly cut off, exactly those all of whose bytes
      are there are read. Nothing is reported but a record that was left incomplete before. */
  lemma {:induction false} StreamRead(crc: Crc, file: Bytes, p: nat, rs: seq<Bytes>, scratch: Bytes, fragmented: bool)
    requires p <= |file| && file[p..] <= Stream(crc, p, rs)
    ensures ReadLog(crc, file, p, scratch, fragmented).records == Whole(crc, p, rs, |file|)
    ensures ReadLog(crc, file, p, scratch, fragmented).reports <= Partial(scratch, fragmented)
    decreases |rs|
  {
    hide Emit, ReadLog;
    StreamUnfolds(crc, p, rs);
    if rs == [] {
      NothingThere(crc, file, p, scratch, fragmented);
    } else {
      var end := p + |Emit(crc, p % BLOCK_SIZE, rs[0], true)|;
      RecordRead(crc, file, p, rs[0], Stream(crc, end, rs[1..]), scratch, fragmented);
      if end <= |file| {
        StreamRead(crc, file, end, rs[1..], [], false);
      }
    }
  }

  /** Whole records in front of anything are read, and reading goes on behind them. */
  lemma {:induction false} StreamPassed(crc: Crc, file: Bytes, p: nat, rs: seq<Bytes>)
    requires p <= |file| && Stream(crc, p, rs) <= file[p..]
    ensures ReadLog(crc, file, p, [], false) == ReadLog(crc, file, p + |Stream(crc, p, rs)|, [], false).After(rs, 0)
    decreases |rs|
  {
    hide Emit, ReadLog, Stream;
    StreamUnfolds(crc, p, rs);
    if rs != [] {
      var emit := Emit(crc, p % BLOCK_SIZE, rs[0], true);
      var end := p + |emit|;
      assert file[p..] == emit + file[end..];
      RecordRead(crc, file, p, rs[0], file[end..], [], false);
      assert Stream(crc, end, rs[1..]) <= file[end..];
      StreamPassed(crc, file, end, rs[1..]);
      assert [rs[0]] + rs[1..] == rs;
    }
  }

  lemma NothingThere(crc: Crc, file: Bytes, p: nat, scratch: Bytes, fragmented: bool)
    requires p <= |file| && |file[p..]| == 0
    ensures ReadLog(crc, file, p, scratch, fragmented) == Reading([], 0)
  {
  }

  // ----- A log written, cut off and read -----

  lemma StreamOne(c: Crc, p: nat, data: Bytes)
    ensures Stream(c, p, [data]) == Emit(c, p % BLOCK_SIZE, data, true)
  {
    var none: seq<Bytes> := [];
    assert [data][1..] == none;
  }

  /** Write records one after another, to a new file or at the end of one reopened. */
  method WriteRecords(w: Writer, records: seq<Bytes>)
    requires w.Ok()
    modifies w
    ensures w.Ok() && w.dest == old(w.dest) + Stream(w.crc, |old(w.dest)|, records)
  {
    hide Emit;
    for i := 0 to |records|
      invariant w.Ok() && w.dest == old(w.dest) + Stream(w.crc, |old(w.dest)|, records[..i])
    {
      assert records[..i + 1] == records[..i] + [records[i]];
      StreamSplits(w.crc, |old(w.dest)|, records[..i], [records[i]]);
      StreamOne(w.crc, |w.dest|, records[i]);
      w.AddRecord(records[i]);
    }
    assert records[..|records|] == records;
  }

  lemma CutIsWhole(crc: Crc, file: Bytes, records: seq<Bytes>)
    requires file <= Stream(crc, 0, records)
    ensures ReadLog(crc, file, 0, [], false) == Reading(Whole(crc, 0, records, |file|), 0)
  {
    hide Stream, ReadLog, Whole;
    assert file[0..] == file;
    StreamRead(crc, file, 0, records, [], false);
  }

  /** Reading a log that was cut off at any byte gives exactly the records that lie wholly before
      the cut, in order, and reports no corruption. */
  method ReadRecords(crc: Crc, file: Bytes, ghost records: seq<Bytes>) returns (out: seq<Bytes>, corruptions: nat)
    requires file <= Stream(crc, 0, records)
    ensures out == Whole(crc, 0, records, |file|) && corruptions == 0
  {
    hide Stream, ReadLog, Whole;
    CutIsWhole(crc, file, records);
    out, corruptions := ReadFile(crc, file);
  }

  /** Whatever was written in the first session and after reopening the file at its length, a read
      of the file cut off anywhere returns a beginning of all of it. */
  method WriteReopenRead(crc: Crc, first: seq<Bytes>, second: seq<Bytes>, cut: nat) returns (out: seq<Bytes>, corruptions: nat)
    requires cut <= |Stream(crc, 0, first + second)|
    ensures out == Whole(crc, 0, first + second, cut) && corruptions == 0
  {
    hide Emit, Stream, Whole;
    ghost var empty: Bytes := [];
    var w := new Writer(crc);
    WriteRecords(w, first);
    var w2 := new Writer.Reopen(crc, w.dest);
    WriteRecords(w2, second);
    StreamSplits(crc, 0, first, second);
    assert empty + Stream(crc, 0, first) == Stream(crc, 0, first);
    out, corruptions := ReadRecords(crc, w2.dest[..cut], first + second);
  }
}
