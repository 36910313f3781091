/** Write batches: a header with sequence number and count, then tagged records, as one byte string
    that is both the unit of the log and the unit of insertion into a memtable. */
module WriteBatches {
  import opened Keys
  import opened Coding

  const HEADER: nat := 12
  const TYPE_DELETION: Byte := 0
  const TYPE_VALUE: Byte := 1
  const MAX_COUNT: nat := 0x8000_0000 // counts are C ints

  datatype Op = PutOp(key: Bytes, value: Bytes) | DeleteOp(key: Bytes)

  datatype Status = Ok | Corruption(message: string) | IOError(message: string) | InvalidArgument(message: string)

  // ----- The bytes of a batch -----

  /** Lengths are stored in 32 bits. */
  predicate Fits(op: Op) {
    |op.key| < WORD32 && (op.PutOp? ==> |op.value| < WORD32)
  }

  function EncodeOp(op: Op): Bytes {
    match op
    case PutOp(key, value) => [TYPE_VALUE] + LengthPrefixed(key) + LengthPrefixed(value)
    case DeleteOp(key) => [TYPE_DELETION] + LengthPrefixed(key)
  }

  function EncodeOps(ops: seq<Op>): Bytes {
    if ops == [] then [] else EncodeOp(ops[0]) + EncodeOps(ops[1..])
  }

  lemma {:induction false} EncodeOpsSplits(a: seq<Op>, b: seq<Op>)
    ensures EncodeOps(a + b) == EncodeOps(a) + EncodeOps(b)
  {
    if a == [] {
      assert a + b == b;
    } else {
      assert (a + b)[1..] == a[1..] + b;
      EncodeOpsSplits(a[1..], b);
    }
  }

  predicate GoodOps(ops: seq<Op>) {
    |ops| < MAX_COUNT && forall op :: op in ops ==> Fits(op)
  }

  /** The representation of a batch of `ops` starting at sequence number `sn`. */
  function Rep(sn: Word64, ops: seq<Op>): (b: Bytes)
    requires |ops| < MAX_COUNT
    ensures |b| >= HEADER
  {
    EncodeFixed64(sn) + EncodeFixed32(|ops|) + EncodeOps(ops)
  }

  function SequenceOf(rep: Bytes): Word64
    requires |rep| >= HEADER
  {
    DecodeFixed64(rep)
  }

  function CountOf(rep: Bytes): Word32
    requires |rep| >= HEADER
  {
    DecodeFixed32(rep[8..])
  }

  lemma RepFields(sn: Word64, ops: seq<Op>)
    requires |ops| < MAX_COUNT
    ensures var rep := Rep(sn, ops);
            SequenceOf(rep) == sn && CountOf(rep) == |ops| && rep[..8] == EncodeFixed64(sn) &&
            rep[8..HEADER] == EncodeFixed32(|ops|) && rep[HEADER..] == EncodeOps(ops)
  {
    hide EncodeOps, EncodeFixed32, DecodeFixed32, EncodeFixed64, DecodeFixed64;
    var rep := Rep(sn, ops);
    var fixed := EncodeFixed64(sn);
    var count := EncodeFixed32(|ops|);
    ThreeParts(fixed, count, EncodeOps(ops));
    assert fixed[..8] == fixed && count[..4] == count;
    assert rep[8..][..4] == rep[8..HEADER];
    SameWord64(rep, fixed);
    SameWord32(rep[8..], count);
  }

  lemma ThreeParts(a: Bytes, b: Bytes, c: Bytes)
    requires |a| == 8 && |b| == 4
    ensures var abc := a + b + c; abc[..8] == a && abc[8..HEADER] == b && abc[HEADER..] == c
  {
  }

  lemma SameWord32(a: Bytes, b: Bytes)
    requires |a| >= 4 && |b| >= 4 && a[..4] == b[..4]
    ensures DecodeFixed32(a) == DecodeFixed32(b)
  {
    assert forall i :: 0 <= i < 4 ==> a[i] == a[..4][i] && b[i] == b[..4][i];
  }

  lemma SameWord64(a: Bytes, b: Bytes)
    requires |a| >= 8 && |b| >= 8 && a[..8] == b[..8]
    ensures DecodeFixed64(a) == DecodeFixed64(b)
  {
    hide DecodeFixed32;
    assert a[..4] == a[..8][..4] && b[..4] == b[..8][..4];
    assert a[4..][..4] == a[..8][4..] && b[4..][..4] == b[..8][4..];
    SameWord32(a[4..], b[4..]);
  }

  // ----- Walking a batch -----

  /** The first record of `input` and what follows, or why there is none. */
  datatype Parsed = Record(op: Op, rest: Bytes) | Malformed(message: string)

  function ParseOp(input: Bytes): (r: Parsed)
    requires input != []
    ensures r.Record? ==> |r.rest| < |input|
  {
    if input[0] == TYPE_VALUE then
      match GetLengthPrefixed(input[1..])
      case None => Malformed("bad WriteBatch Put")
      case Some((key, more)) =>
        match GetLengthPrefixed(more)
        case None => Malformed("bad WriteBatch Put")
        case Some((value, rest)) => PrefixedShrinks(input[1..]); PrefixedShrinks(more); Record(PutOp(key, value), rest)
    else if input[0] == TYPE_DELETION then
      match GetLengthPrefixed(input[1..])
      case None => Malformed("bad WriteBatch Delete")
      case Some((key, rest)) => PrefixedShrinks(input[1..]); Record(DeleteOp(key), rest)
    else Malformed("unknown WriteBatch tag")
  }

  lemma {:induction false} VarintShrinks(b: Bytes, n: nat)
    ensures ParseVarint(b, n).Some? ==> |ParseVarint(b, n).value.1| < |b|
  {
    if n > 0 && b != [] && b[0] >= 128 {
      VarintShrinks(b[1..], n - 1);
    }
  }

  lemma PrefixedShrinks(b: Bytes)
    ensures GetLengthPrefixed(b).Some? ==> |GetLengthPrefixed(b).value.1| < |b|
  {
    VarintShrinks(b, 5);
  }

  /** The records a walk over `input` reports before it ends or fails. */
  function Scan(input: Bytes): (r: (seq<Op>, Status))
    decreases |input|
  {
    if input == [] then ([], Ok)
    else
      match ParseOp(input)
      case Malformed(message) => ([], Corruption(message))
      case Record(op, rest) => var (ops, status) := Scan(rest); ([op] + ops, status)
  }

  /** The records a batch reports, and the outcome, count included. */
  function Contents(rep: Bytes): (seq<Op>, Status) {
    if |rep| < HEADER then ([], Corruption("malformed WriteBatch (too small)"))
    else
      var (ops, status) := Scan(rep[HEADER..]);
      (ops, if status.Ok? && |ops| != CountOf(rep) then Corruption("WriteBatch has wrong count") else status)
  }

  lemma OpRoundTrip(op: Op, rest: Bytes)
    requires Fits(op)
    ensures EncodeOp(op) + rest != [] && ParseOp(EncodeOp(op) + rest) == Record(op, rest)
  {
    hide LengthPrefixed, GetLengthPrefixed;
    var b := EncodeOp(op) + rest;
    match op {
      case PutOp(key, value) =>
        assert b[1..] == LengthPrefixed(key) + (LengthPrefixed(value) + rest);
        LengthPrefixedRoundTrip(key, LengthPrefixed(value) + rest);
        LengthPrefixedRoundTrip(value, rest);
      case DeleteOp(key) =>
        assert b[1..] == LengthPrefixed(key) + rest;
        LengthPrefixedRoundTrip(key, rest);
    }
  }

  lemma {:induction false} ScanRoundTrip(ops: seq<Op>)
    requires forall op :: op in ops ==> Fits(op)
    ensures Scan(EncodeOps(ops)) == (ops, Ok)
  {
    hide EncodeOp, ParseOp, Fits;
    if ops != [] {
      OpRoundTrip(ops[0], EncodeOps(ops[1..]));
      ScanRoundTrip(ops[1..]);
      assert ops == [ops[0]] + ops[1..];
    }
  }

  /** Every batch reports exactly the operations put into it, in order. */
  lemma BatchRoundTrip(sn: Word64, ops: seq<Op>)
    requires GoodOps(ops)
    ensures Contents(Rep(sn, ops)) == (ops, Ok) && SequenceOf(Rep(sn, ops)) == sn
  {
    hide EncodeOps, Scan, Rep, Fits, CountOf, SequenceOf;
    RepFields(sn, ops);
    ScanRoundTrip(ops);
  }

  // ----- The entries of a batch -----

  function EntryOf(sn: nat, op: Op): Entry {
    match op
    case PutOp(key, value) => Entry(IKey(BytewiseRank(key), sn, Value), value)
    case DeleteOp(key) => Entry(IKey(BytewiseRank(key), sn, Deletion), [])
  }

  /** Every operation takes a sequence number of its own, counting from the batch's. */
  function BatchEntries(sn: nat, ops: seq<Op>): (es: seq<Entry>)
    ensures |es| == |ops|
    ensures forall i :: 0 <= i < |ops| ==> es[i] == EntryOf(sn + i, ops[i])
    ensures forall e :: e in es ==> sn <= e.key.sn < sn + |ops|
  {
    seq(|ops|, i requires 0 <= i < |ops| => EntryOf(sn + i, ops[i]))
  }

  lemma BatchEntriesSplit(sn: nat, a: seq<Op>, b: seq<Op>)
    ensures BatchEntries(sn, a + b) == BatchEntries(sn, a) + BatchEntries(sn + |a|, b)
  {
  }

  /** What the operations, taken in order, do to the value of a key. */
  function Applied(ops: seq<Op>, user: UserKey, before: Option<Bytes>): Option<Bytes> {
    if ops == [] then before
    else
      var op := ops[|ops| - 1];
      if BytewiseRank(op.key) != user then Applied(ops[..|ops| - 1], user, before)
      else if op.PutOp? then Some(op.value) else None
  }

  /** Reading after a batch gives what its operations leave of a key, in order; and until its last
      sequence number is published, reads go on as if the batch were not there. */
  lemma {:induction false} BatchIsAtomic(es: set<Entry>, sn: nat, ops: seq<Op>, user: UserKey, v: Option<Bytes>)
    requires forall e :: e in es ==> e.key.sn < sn
    requires sn > 0 && Reads(es, user, sn - 1, v)
    ensures Reads(es + ToSet(BatchEntries(sn, ops)), user, sn - 1, v)
    ensures Reads(es + ToSet(BatchEntries(sn, ops)), user, sn + |ops| - 1, Applied(ops, user, v))
    decreases |ops|
  {
    hide Applied, BatchEntries, IsNewest, EntryOf;
    SameBefore(es, ToSet(BatchEntries(sn, ops)), sn, user, v);
    if ops == [] {
      assert es + ToSet(BatchEntries(sn, ops)) == es;
      AppliedUnfolds(ops, user, v);
    } else {
      var front, op := ops[..|ops| - 1], ops[|ops| - 1];
      BatchIsAtomic(es, sn, front, user, v);
      AppliedUnfolds(ops, user, v);
      assert ops == front + [op];
      LastEntry(es, sn, front, op);
      OneMore(es + ToSet(BatchEntries(sn, front)), sn + |front|, op, user, Applied(front, user, v));
    }
  }

  lemma SameBefore(es: set<Entry>, more: set<Entry>, sn: nat, user: UserKey, v: Option<Bytes>)
    requires sn > 0 && Reads(es, user, sn - 1, v)
    requires forall e :: e in more ==> e.key.sn >= sn
    ensures Reads(es + more, user, sn - 1, v)
  {
    var r :| IsNewest(es, user, sn - 1, r) && Shows(r) == v;
    assert IsNewest(es + more, user, sn - 1, r);
  }

  lemma AppliedUnfolds(ops: seq<Op>, user: UserKey, before: Option<Bytes>)
    ensures Applied(ops, user, before) ==
              if ops == [] then before
              else
                var op := ops[|ops| - 1];
                if BytewiseRank(op.key) != user then Applied(ops[..|ops| - 1], user, before)
                else if op.PutOp? then Some(op.value) else None
  {
  }

  lemma LastEntry(es: set<Entry>, sn: nat, front: seq<Op>, op: Op)
    ensures es + ToSet(BatchEntries(sn, front + [op])) ==
            es + ToSet(BatchEntries(sn, front)) + {EntryOf(sn + |front|, op)}
  {
    BatchEntriesSplit(sn, front, [op]);
    assert BatchEntries(sn + |front|, [op]) == [EntryOf(sn + |front|, op)];
  }

  lemma OneMore(es: set<Entry>, sn: nat, op: Op, user: UserKey, v: Option<Bytes>)
    requires sn > 0 && (forall e :: e in es ==> e.key.sn < sn) && Reads(es, user, sn - 1, v)
    ensures Reads(es + {EntryOf(sn, op)}, user, sn,
                  if BytewiseRank(op.key) != user then v else if op.PutOp? then Some(op.value) else None)
  {
    var all, e := es + {EntryOf(sn, op)}, EntryOf(sn, op);
    if BytewiseRank(op.key) == user {
      assert IsNewest(all, user, sn, Some(e));
    } else {
      var r :| IsNewest(es, user, sn - 1, r) && Shows(r) == v;
      assert IsNewest(all, user, sn, r);
    }
  }

  lemma OneOp(op: Op)
    ensures EncodeOps([op]) == EncodeOp(op)
  {
    assert EncodeOps([op][1..]) == [];
  }

  /** Raising the count and appending records is adding operations. */
  lemma Grown(sn: Word64, ops: seq<Op>, more: seq<Op>, after: Bytes)
    requires |ops| + |more| < MAX_COUNT
    requires after == Rep(sn, ops)[..8] + EncodeFixed32(|ops| + |more|) + Rep(sn, ops)[HEADER..] + EncodeOps(more)
    ensures after == Rep(sn, ops + more)
  {
    hide EncodeFixed64, EncodeFixed32, EncodeOps, CountOf, SequenceOf;
    RepFields(sn, ops);
    EncodeOpsSplits(ops, more);
    Regroup(EncodeFixed64(sn) + EncodeFixed32(|ops| + |more|), EncodeOps(ops), EncodeOps(more));
  }

  lemma Regroup(a: Bytes, b: Bytes, c: Bytes)
    ensures a + (b + c) == a + b + c
  {
  }

  // ----- The classes -----

  /** The handler that inserts a batch into a memtable, here the list of entries added to it. */
  class MemTableInserter {
    var sn: nat
    var mem: seq<Entry>

    constructor (sn0: nat, mem0: seq<Entry>)
      ensures sn == sn0 && mem == mem0
    {
      sn, mem := sn0, mem0;
    }

    method Put(key: Bytes, value: Bytes)
      modifies this
      ensures sn == old(sn) + 1 && mem == old(mem) + [EntryOf(old(sn), PutOp(key, value))]
    {
      mem := mem + [Entry(IKey(BytewiseRank(key), sn, Value), value)];
      sn := sn + 1;
    }

    method Delete(key: Bytes)
      modifies this
      ensures sn == old(sn) + 1 && mem == old(mem) + [EntryOf(old(sn), DeleteOp(key))]
    {
      mem := mem + [Entry(IKey(BytewiseRank(key), sn, Deletion), [])];
      sn := sn + 1;
    }
  }

  class WriteBatch {
    var rep: Bytes
    ghost var sn: Word64
    ghost var ops: seq<Op>

    /** The representation is that of the operations put in so far. */
    ghost predicate Valid()
      reads this
    {
      |ops| < MAX_COUNT && rep == Rep(sn, ops)
    }

    constructor ()
      ensures Valid() && sn == 0 && ops == []
    {
      rep := Zeros(HEADER);
      sn, ops := 0, [];
      new;
      assert EncodeFixed32(0) == [0, 0, 0, 0];
      assert EncodeFixed64(0) == EncodeFixed32(0) + EncodeFixed32(0);
      assert rep == Rep(0, []);
    }

    /** Take over the bytes of a batch read back from the log. */
    constructor SetContents(contents: Bytes)
      requires |contents| >= HEADER
      ensures rep == contents
    {
      rep := contents;
    }

    method SetCount(n: Word32)
      requires |rep| >= HEADER
      modifies this`rep
      ensures rep == old(rep)[..8] + EncodeFixed32(n) + old(rep)[HEADER..]
    {
      rep := rep[..8] + EncodeFixed32(n) + rep[HEADER..];
    }

    method SetSequence(s: Word64)
      requires Valid()
      modifies this
      ensures Valid() && sn == s && ops == old(ops)
    {
      hide EncodeFixed64, EncodeFixed32, EncodeOps;
      RepFields(sn, ops);
      assert rep[8..] == rep[8..HEADER] + rep[HEADER..];
      rep := EncodeFixed64(s) + rep[8..];
      sn := s;
      assert rep == Rep(s, ops);
    }

    method Put(key: Bytes, value: Bytes)
      requires Valid() && |ops| + 1 < MAX_COUNT
      modifies this
      ensures Valid() && sn == old(sn) && ops == old(ops) + [PutOp(key, value)]
    {
      hide EncodeFixed64, EncodeFixed32, LengthPrefixed, CountOf, Rep, SequenceOf, EncodeOps;
      RepFields(sn, ops);
      SetCount(CountOf(rep) + 1);
      ghost var body := rep;
      rep := rep + [TYPE_VALUE];
      rep := rep + LengthPrefixed(key);
      rep := rep + LengthPrefixed(value);
      OneOp(PutOp(key, value));
      assert rep == body + EncodeOps([PutOp(key, value)]);
      Grown(sn, ops, [PutOp(key, value)], rep);
      ops := ops + [PutOp(key, value)];
    }

    method Delete(key: Bytes)
      requires Valid() && |ops| + 1 < MAX_COUNT
      modifies this
      ensures Valid() && sn == old(sn) && ops == old(ops) + [DeleteOp(key)]
    {
      hide EncodeFixed64, EncodeFixed32, LengthPrefixed, CountOf, Rep, SequenceOf, EncodeOps;
      RepFields(sn, ops);
      SetCount(CountOf(rep) + 1);
      ghost var body := rep;
      rep := rep + [TYPE_DELETION];
      rep := rep + LengthPrefixed(key);
      OneOp(DeleteOp(key));
      assert rep == body + EncodeOps([DeleteOp(key)]);
      Grown(sn, ops, [DeleteOp(key)], rep);
      ops := ops + [DeleteOp(key)];
    }

    /** Add the operations of another batch behind those of this one. */
    method Append(src: WriteBatch)
      requires Valid() && src.Valid() && src != this && |ops| + |src.ops| < MAX_COUNT
      modifies this
      ensures Valid() && sn == old(sn) && ops == old(ops) + src.ops
    {
      hide EncodeFixed64, EncodeFixed32, CountOf, Rep, SequenceOf, EncodeOps;
      RepFields(sn, ops);
      RepFields(src.sn, src.ops);
      SetCount(CountOf(rep) + CountOf(src.rep));
      rep := rep + src.rep[HEADER..];
      Grown(sn, ops, src.ops, rep);
      ops := ops + src.ops;
    }

    /** Report the records to the handler, in order, until the end or the first fault. */
    method Iterate(handler: MemTableInserter) returns (status: Status)
      modifies handler
      ensures status == Contents(rep).1
      ensures handler.mem == old(handler.mem) + BatchEntries(old(handler.sn), Contents(rep).0)
      ensures handler.sn == old(handler.sn) + |Contents(rep).0|
    {
      hide Scan, CountOf, BatchEntries;
      if |rep| < HEADER {
        NoEntries(handler.sn, handler.mem);
        return Corruption("malformed WriteBatch (too small)");
      }
      var found;
      found, status := Walk(rep[HEADER..], handler);
      if status.Ok? {
        status := if found != CountOf(rep) then Corruption("WriteBatch has wrong count") else Ok;
      }
    }

    /** The loop over the records. */
    method Walk(records: Bytes, handler: MemTableInserter) returns (found: nat, status: Status)
      modifies handler
      ensures status == Scan(records).1 && (status.Ok? ==> found == |Scan(records).0|)
      ensures handler.mem == old(handler.mem) + BatchEntries(old(handler.sn), Scan(records).0)
      ensures handler.sn == old(handler.sn) + |Scan(records).0|
    {
      hide ParseOp, BatchEntries;
      var input := records;
      found := 0;
      ghost var calls: seq<Op> := [];
      NoEntries(handler.sn, handler.mem);
      while input != []
        invariant found == |calls|
        invariant Scan(records).0 == calls + Scan(input).0 && Scan(records).1 == Scan(input).1
        invariant handler.sn == old(handler.sn) + |calls|
        invariant handler.mem == old(handler.mem) + BatchEntries(old(handler.sn), calls)
        decreases |input|
      {
        found := found + 1;
        match ParseOp(input) {
          case Malformed(message) =>
            assert calls + [] == calls;
            return found, Corruption(message);
          case Record(op, rest) =>
            OneMoreCall(old(handler.mem), old(handler.sn), calls, op, Scan(rest).0);
            if op.PutOp? {
              handler.Put(op.key, op.value);
            } else {
              handler.Delete(op.key);
            }
            calls := calls + [op];
            input := rest;
        }
      }
      assert calls + [] == calls;
      status := Ok;
    }

    lemma NoEntries(sn: nat, mem: seq<Entry>)
      ensures mem + BatchEntries(sn, []) == mem
    {
    }

    lemma OneMoreCall(mem: seq<Entry>, sn: nat, calls: seq<Op>, op: Op, rest: seq<Op>)
      ensures mem + BatchEntries(sn, calls + [op]) == mem + BatchEntries(sn, calls) + [EntryOf(sn + |calls|, op)]
      ensures calls + ([op] + rest) == calls + [op] + rest
    {
      BatchEntriesSplit(sn, calls, [op]);
    }

    /** Insert the batch into a memtable, numbering from the batch's own sequence number. */
    method InsertInto(mem: seq<Entry>) returns (mem': seq<Entry>, status: Status)
      requires |rep| >= HEADER
      ensures status == Contents(rep).1 && mem' == mem + BatchEntries(SequenceOf(rep), Contents(rep).0)
      ensures Valid() && GoodOps(ops) ==> status.Ok? && mem' == mem + BatchEntries(sn, ops)
    {
      hide Contents, SequenceOf, Rep, Fits;
      if Valid() && GoodOps(ops) {
        BatchRoundTrip(sn, ops);
      }
      var inserter := new MemTableInserter(SequenceOf(rep), mem);
      status := Iterate(inserter);
      mem' := inserter.mem;
    }
  }
}
