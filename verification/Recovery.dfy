/** Rebuilding the memtable from a log that was cut off at any byte. */
module Recovery {
  import opened Keys
  import opened Coding
  import opened WriteBatches
  import opened Log

  /** The batch of one log record: the joined operations of a group of writers. */
  datatype Commit = Commit(sn: Word64, ops: seq<Op>)

  predicate GoodCommits(commits: seq<Commit>) {
    forall c :: c in commits ==> GoodOps(c.ops)
  }

  /** The log records of the commits. */
  function Reps(commits: seq<Commit>): (r: seq<Bytes>)
    requires GoodCommits(commits)
    ensures |r| == |commits|
  {
    if commits == [] then [] else [Rep(commits[0].sn, commits[0].ops)] + Reps(commits[1..])
  }

  lemma {:induction false} RepsTake(commits: seq<Commit>, k: nat)
    requires GoodCommits(commits) && k <= |commits|
    ensures Reps(commits[..k]) == Reps(commits)[..k]
  {
    hide Rep;
    if k > 0 {
      assert commits[..k][1..] == commits[1..][..k - 1];
      RepsTake(commits[1..], k - 1);
    }
  }

  /** The memtable entries of the commits, in order. */
  function CommitEntries(commits: seq<Commit>): seq<Entry> {
    if commits == [] then [] else BatchEntries(commits[0].sn, commits[0].ops) + CommitEntries(commits[1..])
  }

  lemma {:induction false} CommitEntriesSplit(a: seq<Commit>, b: seq<Commit>)
    ensures CommitEntries(a + b) == CommitEntries(a) + CommitEntries(b)
  {
    hide BatchEntries;
    if a == [] {
      assert a + b == b;
    } else {
      assert (a + b)[1..] == a[1..] + b;
      CommitEntriesSplit(a[1..], b);
    }
  }

  lemma CommitEntriesOne(done: seq<Commit>, c: Commit)
    ensures CommitEntries(done + [c]) == CommitEntries(done) + BatchEntries(c.sn, c.ops)
  {
    CommitEntriesSplit(done, [c]);
    assert CommitEntries([c][1..]) == [];
  }

  /** The highest sequence number used by the commits, or `from` when that is higher. */
  function MaxSequence(commits: seq<Commit>, from: Word64): Word64 {
    if commits == [] then from
    else Higher(MaxSequence(commits[..|commits| - 1], from), LastSequence(commits[|commits| - 1]))
  }

  /** The last sequence number of a commit, in the 64 bits of the source. */
  function LastSequence(c: Commit): Word64 {
    (c.sn + |c.ops| - 1) % WORD64
  }

  function Higher(a: Word64, b: Word64): Word64 {
    if b > a then b else a
  }

  /** How many leading commits lie wholly before byte `cut` of their log. */
  ghost function Survivors(crc: Crc, commits: seq<Commit>, cut: nat): nat
    requires GoodCommits(commits)
  {
    |Whole(crc, 0, Reps(commits), cut)|
  }

  /** The commits that survive a cut are the most whose bytes all lie before it; in particular all
      those whose bytes were made durable do. */
  lemma SurvivorsExact(crc: Crc, commits: seq<Commit>, cut: nat)
    requires GoodCommits(commits)
    ensures var k := Survivors(crc, commits, cut);
            && k <= |commits| && |Stream(crc, 0, Reps(commits[..k]))| <= cut
            && (k < |commits| ==> |Stream(crc, 0, Reps(commits[..k + 1]))| > cut)
            && Whole(crc, 0, Reps(commits), cut) == Reps(commits[..k])
  {
    hide Stream, Whole, Reps;
    WholeIsLongest(crc, 0, Reps(commits), cut);
    var k := Survivors(crc, commits, cut);
    RepsTake(commits, k);
    if k < |commits| {
      RepsTake(commits, k + 1);
    }
  }

  lemma {:induction false} SurvivorsAtLeast(crc: Crc, commits: seq<Commit>, n: nat, cut: nat)
    requires GoodCommits(commits) && n <= |commits| && |Stream(crc, 0, Reps(commits[..n]))| <= cut
    ensures n <= Survivors(crc, commits, cut)
  {
    hide Stream, Whole, Reps;
    SurvivorsExact(crc, commits, cut);
    var k := Survivors(crc, commits, cut);
    if k < n {
      assert commits[..n] == commits[..k + 1] + commits[k + 1..n];
      RepsJoin(commits[..k + 1], commits[k + 1..n]);
      StreamSplits(crc, 0, Reps(commits[..k + 1]), Reps(commits[k + 1..n]));
    }
  }

  lemma {:induction false} RepsJoin(a: seq<Commit>, b: seq<Commit>)
    requires GoodCommits(a) && GoodCommits(b)
    ensures GoodCommits(a + b) && Reps(a + b) == Reps(a) + Reps(b)
  {
    hide Rep;
    if a == [] {
      assert a + b == b;
    } else {
      assert (a + b)[1..] == a[1..] + b;
      RepsJoin(a[1..], b);
    }
  }

  /** The outcome that a caller sees of an error it may have chosen to ignore. */
  function MaybeIgnoreError(status: Status, paranoid: bool): Status {
    if status.Ok? || paranoid then status else Ok
  }

  // ----- Any log -----

  /** A record that holds a batch without fault. */
  predicate Sound(record: Bytes) {
    |record| >= HEADER && Contents(record).1.Ok?
  }

  /** The entries that replaying a record inserts: of one with a fault, those before it. */
  function Replayed(record: Bytes): seq<Entry> {
    if |record| < HEADER then [] else BatchEntries(SequenceOf(record), Contents(record).0)
  }

  function AllReplayed(records: seq<Bytes>): seq<Entry> {
    if records == [] then [] else AllReplayed(records[..|records| - 1]) + Replayed(records[|records| - 1])
  }

  /** The count as the source has it, a signed 32-bit number. */
  function SignedCount(record: Bytes): int
    requires |record| >= HEADER
  {
    if CountOf(record) < MAX_COUNT then CountOf(record) else CountOf(record) - WORD32
  }

  /** The highest sequence number after a record, in 64 bits: a batch of no operations at number 0 counts
      as ending at the highest there is. */
  function Raised(from: Word64, record: Bytes): Word64 {
    if |record| < HEADER then from else Higher(from, (SequenceOf(record) + SignedCount(record) - 1) % WORD64)
  }

  function AllRaised(from: Word64, records: seq<Bytes>): Word64 {
    if records == [] then from else Raised(AllRaised(from, records[..|records| - 1]), records[|records| - 1])
  }

  lemma EmptyBatchRaises(record: Bytes)
    requires record == Zeros(HEADER)
    ensures Raised(0, record) == WORD64 - 1
  {
    assert DecodeFixed64(record) == 0 && DecodeFixed32(record[8..]) == 0;
  }

  /** Insert the batch of one log record and raise the highest sequence number seen. */
  method RecoverRecord(record: Bytes, mem: seq<Entry>, maxSequence: Word64, paranoid: bool)
    returns (mem': seq<Entry>, maxSequence': Word64, status: Status)
    ensures mem' == mem + Replayed(record)
    ensures status.Ok? <==> !paranoid || Sound(record)
    ensures status.Ok? ==> maxSequence' == Raised(maxSequence, record)
  {
    hide Contents, SequenceOf, CountOf, BatchEntries;
    mem', maxSequence', status := mem, maxSequence, Ok;
    if |record| < HEADER {
      // the record is reported and skipped
      status := MaybeIgnoreError(Corruption("log record too small"), paranoid);
      return;
    }
    var batch := new WriteBatch.SetContents(record);
    mem', status := batch.InsertInto(mem);
    status := MaybeIgnoreError(status, paranoid);
    if !status.Ok? {
      return;
    }
    var last := (SequenceOf(record) + SignedCount(record) - 1) % WORD64;
    if last > maxSequence {
      maxSequence' := last;
    }
  }

  /** Replay a log, whatever is in it, into a memtable, writing the memtable out as a table whenever it
      is `full`. An error is returned only when errors are not to be ignored, and then exactly for a
      corruption reported or a record with a fault; without one, the tables and the memtable together
      hold what replaying the records one after another inserts. */
  method RecoverLogFile(crc: Crc, file: Bytes, maxSequence: Word64, paranoid: bool, full: seq<Entry> -> bool)
    returns (tables: seq<seq<Entry>>, mem: seq<Entry>, maxSequence': Word64, status: Status)
    ensures var all := ReadLog(crc, file, 0, [], false);
            && (status.Ok? <==> !paranoid || (all.reports == 0 && forall r :: r in all.records ==> Sound(r)))
            && (status.Ok? ==> Joined(tables) + mem == AllReplayed(all.records) && maxSequence' == AllRaised(maxSequence, all.records))
  {
    hide ReadLog, OkAt, Replayed, Raised, Sound, Joined, Reading.After;
    var reader := new Reader(crc, file);
    ghost var all := ReadLog(crc, file, 0, [], false);
    ghost var done: seq<Bytes> := [];
    tables, mem, maxSequence', status := [], [], maxSequence, Ok;
    NothingYet();
    var ok, record := reader.ReadRecord();
    assert done + [record] == [record];
    status := ReporterStatus(reader, paranoid, status);
    while ok && status.Ok?
      invariant reader.Ok() && reader.crc == crc && reader.file == file
      invariant all == if ok then ReadLog(crc, file, reader.At(), [], false).After(done + [record], reader.corruptions)
                       else Reading(done, reader.corruptions)
      invariant status.Ok? ==> Joined(tables) + mem == AllReplayed(done) && maxSequence' == AllRaised(maxSequence, done)
      invariant status.Ok? <==> !paranoid || (reader.corruptions == 0 && forall r :: r in done ==> Sound(r))
      decreases ok, |file| - reader.At()
    {
      ghost var before := mem;
      mem, maxSequence', status := RecoverRecord(record, mem, maxSequence', paranoid);
      OneMoreReplayed(maxSequence, done, record, Joined(tables), before);
      done := done + [record];
      if !status.Ok? {
        break;
      }
      if |record| >= HEADER && full(mem) {
        JoinedOne(tables, mem);
        tables := tables + [mem];
        mem := [];
      }
      ghost var rest := ReadLog(crc, file, reader.At(), [], false);
      ghost var reports := reader.corruptions;
      ok, record := reader.ReadRecord();
      GoesOn(all, done, reports, rest, ok, record, if ok then ReadLog(crc, file, reader.At(), [], false) else rest, reader.corruptions - reports);
      status := ReporterStatus(reader, paranoid, status);
    }
    InAll(all, done, ok, record, if ok then ReadLog(crc, file, reader.At(), [], false) else all, reader.corruptions);
  }

  /** The reporter notes the first corruption, unless errors are to be ignored. */
  method ReporterStatus(reader: Reader, paranoid: bool, status: Status) returns (status': Status)
    ensures status'.Ok? <==> status.Ok? && !(paranoid && reader.corruptions > 0)
  {
    status' := if status.Ok? && paranoid && reader.corruptions > 0 then Corruption("corrupted log") else status;
  }

  lemma NothingYet()
    ensures Joined<Entry>([]) + [] == AllReplayed([])
  {
  }

  lemma OneMoreReplayed(from: Word64, done: seq<Bytes>, record: Bytes, joined: seq<Entry>, mem: seq<Entry>)
    ensures joined + mem == AllReplayed(done) ==> joined + (mem + Replayed(record)) == AllReplayed(done + [record])
    ensures Raised(AllRaised(from, done), record) == AllRaised(from, done + [record])
  {
    hide Replayed, Raised;
    assert (done + [record])[..|done|] == done;
    assert joined + (mem + Replayed(record)) == joined + mem + Replayed(record);
  }

  lemma GoesOn(all: Reading, done: seq<Bytes>, reports: nat, rest: Reading, ok: bool, record: Bytes, rest': Reading, more: nat)
    requires all == rest.After(done, reports)
    requires rest == if ok then rest'.After([record], more) else Reading([], more)
    ensures all == if ok then rest'.After(done + [record], reports + more) else Reading(done, reports + more)
  {
    if ok {
      assert done + ([record] + rest'.records) == done + [record] + rest'.records;
    }
  }

  /** What is done so far is of the whole. */
  lemma InAll(all: Reading, done: seq<Bytes>, ok: bool, record: Bytes, rest: Reading, reports: nat)
    requires all == (if ok then rest.After(done + [record], reports) else Reading(done, reports)) || all == rest.After(done, reports)
    ensures all.reports >= reports && forall r :: r in done ==> r in all.records
  {
  }

  // ----- A log of commits -----

  /** What can be read of a file that begins as the log of some commits, or is a beginning of it: the
      commits that lie wholly in it, first of all. */
  lemma CommitsInFront(crc: Crc, file: Bytes, commits: seq<Commit>) returns (more: seq<Bytes>)
    requires GoodCommits(commits)
    requires file <= Stream(crc, 0, Reps(commits)) || Stream(crc, 0, Reps(commits)) <= file
    ensures var k, all := Survivors(crc, commits, |file|), ReadLog(crc, file, 0, [], false);
            && k <= |commits| && all.records == Reps(commits[..k]) + more
            && (|file| <= |Stream(crc, 0, Reps(commits))| ==> more == [] && all.reports == 0)
            && (|file| >= |Stream(crc, 0, Reps(commits))| ==> k == |commits|)
  {
    hide Stream, Whole, ReadLog, Reps;
    SurvivorsExact(crc, commits, |file|);
    assert commits[..|commits|] == commits;
    if file <= Stream(crc, 0, Reps(commits)) {
      CutIsWhole(crc, file, Reps(commits));
      more := [];
    } else {
      assert file[0..] == file;
      StreamPassed(crc, file, 0, Reps(commits));
      more := ReadLog(crc, file, |Stream(crc, 0, Reps(commits))|, [], false).records;
    }
    if |file| >= |Stream(crc, 0, Reps(commits))| {
      SurvivorsAtLeast(crc, commits, |commits|, |file|);
    }
  }

  /** The records of commits hold them without fault. */
  lemma {:induction false} CommitsReplayed(commits: seq<Commit>, from: Word64)
    requires GoodCommits(commits)
    ensures forall r :: r in Reps(commits) ==> Sound(r)
    ensures AllReplayed(Reps(commits)) == CommitEntries(commits) && AllRaised(from, Reps(commits)) == MaxSequence(commits, from)
    decreases |commits|
  {
    hide Rep, Sound, Replayed, Raised, BatchEntries, CommitEntries, LastSequence;
    if commits == [] {
      NoEntriesYet();
    } else {
      var front, c := commits[..|commits| - 1], commits[|commits| - 1];
      assert commits == front + [c] && c in commits;
      CommitsReplayed(front, from);
      RepsJoin(front, [c]);
      RepsOne(c);
      CommitReplayed(c);
      CommitEntriesOne(front, c);
      assert Reps(commits)[..|Reps(commits)| - 1] == Reps(front);
    }
  }

  lemma NoEntriesYet()
    ensures CommitEntries([]) == []
  {
  }

  lemma RepsOne(c: Commit)
    requires GoodOps(c.ops)
    ensures GoodCommits([c]) && Reps([c]) == [Rep(c.sn, c.ops)]
  {
    hide Rep;
    assert [c][1..] == [];
  }

  lemma CommitReplayed(c: Commit)
    requires GoodOps(c.ops)
    ensures var r := Rep(c.sn, c.ops);
            Sound(r) && Replayed(r) == BatchEntries(c.sn, c.ops) && forall from :: Raised(from, r) == Higher(from, LastSequence(c))
  {
    hide Contents, Rep, BatchEntries, SequenceOf, CountOf, EncodeFixed32, EncodeFixed64, EncodeOps, Fits;
    BatchRoundTrip(c.sn, c.ops);
    RepFields(c.sn, c.ops);
  }

  /** What replaying a log of commits that was cut off at any byte leaves: exactly the entries of the
      commits that lie wholly before the cut, in order, their highest sequence number, and no error. */
  method RecoverCutLog(crc: Crc, file: Bytes, maxSequence: Word64, paranoid: bool, full: seq<Entry> -> bool, ghost commits: seq<Commit>)
    returns (tables: seq<seq<Entry>>, mem: seq<Entry>, maxSequence': Word64, status: Status)
    requires GoodCommits(commits) && file <= Stream(crc, 0, Reps(commits))
    ensures status.Ok?
    ensures var k := Survivors(crc, commits, |file|);
            && k <= |commits|
            && Joined(tables) + mem == CommitEntries(commits[..k])
            && maxSequence' == MaxSequence(commits[..k], maxSequence)
  {
    hide Stream, ReadLog, Sound, CommitEntries, MaxSequence, Joined, Reps, Survivors, GoodOps, AllReplayed, AllRaised;
    ghost var k := Survivors(crc, commits, |file|);
    tables, mem, maxSequence', status := RecoverLogFile(crc, file, maxSequence, paranoid, full);
    ghost var more := CommitsInFront(crc, file, commits);
    assert Reps(commits[..k]) + [] == Reps(commits[..k]);
    CommitsReplayed(commits[..k], maxSequence);
  }
}
