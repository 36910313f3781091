/** Concurrent writers: whoever is at the front of the queue writes for a whole group. */
module GroupCommit {
  import opened Keys
  import opened Coding
  import opened WriteBatches
  import opened Log
  import opened Recovery

  // ----- Requests and groups -----

  /** One call of Write: a batch (none to force a compaction) and whether to sync the log. */
  datatype Request = Request(batch: Option<seq<Op>>, sync: bool)

  /** The operations of a run of requests, in order. */
  function OpsOf(q: seq<Request>): seq<Op> {
    if q == [] then []
    else OpsOf(q[..|q| - 1]) + if q[|q| - 1].batch.Some? then q[|q| - 1].batch.value else []
  }

  function ByteSize(ops: seq<Op>): nat {
    HEADER + |EncodeOps(ops)|
  }

  function SizeOf(q: seq<Request>): nat {
    if q == [] then 0
    else SizeOf(q[..|q| - 1]) + if q[|q| - 1].batch.Some? then ByteSize(q[|q| - 1].batch.value) else 0
  }

  /** How large a group may grow whose first batch has `size` bytes. */
  function MaxSize(size: nat): nat {
    if size <= 0x2_0000 then size + 0x2_0000 else 0x10_0000
  }

  /** Request `n` of the queue may not join those before it. */
  predicate Stops(q: seq<Request>, n: nat)
    requires n < |q| && q[0].batch.Some?
  {
    (q[n].sync && !q[0].sync) ||
    (q[n].batch.Some? && SizeOf(q[..n + 1]) > MaxSize(ByteSize(q[0].batch.value)))
  }

  /** The first `n` requests of the queue are the group its first one writes for: none of them but
      the first stops the group, and the next one does. */
  predicate IsGroup(q: seq<Request>, n: nat) {
    && 0 < n <= |q| && q[0].batch.Some?
    && (forall i :: 0 < i < n ==> !Stops(q, i))
    && (n < |q| ==> Stops(q, n))
  }

  /** A queue has one group, a non-sync leader takes no sync request with it, and what follows the
      leader is bounded in size. */
  lemma GroupIsUnique(q: seq<Request>, n: nat, m: nat)
    requires IsGroup(q, n) && IsGroup(q, m)
    ensures n == m
    ensures forall i :: 0 <= i < n && q[i].sync ==> q[0].sync
  {
    forall i | 0 <= i < n && q[i].sync
      ensures q[0].sync
    {
      if i > 0 {
        assert !Stops(q, i);
      }
    }
  }

  lemma {:induction false} OpsOfSplits(a: seq<Request>, b: seq<Request>)
    ensures OpsOf(a + b) == OpsOf(a) + OpsOf(b)
    decreases |b|
  {
    if b == [] {
      assert a + b == a;
    } else {
      assert (a + b)[..|a + b| - 1] == a + b[..|b| - 1];
      OpsOfSplits(a, b[..|b| - 1]);
    }
  }

  /** Every operation takes up at least two bytes, so a group within its size has a sane count. */
  lemma {:induction false} OpsTakeSpace(ops: seq<Op>)
    ensures |EncodeOps(ops)| >= 2 * |ops|
  {
    if ops != [] {
      OpsTakeSpace(ops[1..]);
      assert |EncodeOp(ops[0])| >= 2;
    }
  }

  lemma {:induction false} CountWithinSize(q: seq<Request>)
    ensures |OpsOf(q)| <= SizeOf(q)
  {
    hide EncodeOps;
    if q != [] {
      CountWithinSize(q[..|q| - 1]);
      if q[|q| - 1].batch.Some? {
        OpsTakeSpace(q[|q| - 1].batch.value);
      }
    }
  }

  /** A group has no more operations than a batch can count. */
  lemma GroupCount(q: seq<Request>, n: nat)
    requires IsGroup(q, n) && |q[0].batch.value| < MAX_COUNT
    ensures |OpsOf(q[..n])| < MAX_COUNT
  {
    hide ByteSize;
    if forall i :: 0 < i < n ==> q[i].batch.None? {
      OnlyLeader(q, n);
    } else {
      LastBatch(q, n);
    }
  }

  lemma {:induction false} OnlyLeader(q: seq<Request>, n: nat)
    requires 0 < n <= |q| && q[0].batch.Some? && forall i :: 0 < i < n ==> q[i].batch.None?
    ensures OpsOf(q[..n]) == q[0].batch.value && SizeOf(q[..n]) == ByteSize(q[0].batch.value)
    decreases n
  {
    assert q[..n][..n - 1] == q[..n - 1];
    if n == 1 {
      assert q[..1][..0] == [];
    } else {
      OnlyLeader(q, n - 1);
    }
  }

  lemma {:induction false} LastBatch(q: seq<Request>, n: nat)
    requires 0 < n <= |q| && q[0].batch.Some? && forall i :: 0 < i < n ==> !Stops(q, i)
    requires exists i :: 0 < i < n && q[i].batch.Some?
    ensures |OpsOf(q[..n])| < MAX_COUNT
    decreases n
  {
    hide ByteSize;
    assert q[..n][..n - 1] == q[..n - 1];
    if q[n - 1].batch.Some? {
      assert !Stops(q, n - 1);
      CountWithinSize(q[..n]);
    } else {
      LastBatch(q, n - 1);
    }
  }

  // ----- The protocol, step by step -----

  /** What a group of writers put in the log: requests `lo` to `hi`, in order of arrival. */
  datatype Group = Group(lo: nat, hi: nat, sn: Word64, ops: seq<Op>)

  /** Where the writer at the front of the queue is. Between Room and End it does not hold the
      mutex, so requests may arrive at any of these steps. */
  datatype Phase =
    | Idle
    | MakingRoom
    | Logging(g: Group)
    | Syncing(g: Group)
    | Inserting(g: Group, n: nat)
    | Ending(hi: nat, last: nat, status: Status)

  /** `results` are the writers that left the queue, in order, with the status they returned. */
  datatype State = State(
    requests: seq<Request>,
    queue: seq<nat>,
    results: seq<(nat, Status)>,
    phase: Phase,
    log: seq<Group>,       // the records added to the log file
    torn: Option<nat>,     // how many were added before a failed addition left bytes in the file
    synced: nat,           // how many of them a sync has made durable
    applied: seq<Group>,   // groups inserted in full
    mem: seq<Entry>,
    lastSequence: nat,
    bgError: bool)

  datatype Event =
    | Enqueue(r: Request)
    | Lead
    | Room(status: Status, n: nat)
    | BackgroundError
    | AddRecord(status: Status, left: bool)
    | Sync(status: Status)
    | Insert
    | Inserted
    | Release

  const START: State := State([], [], [], Idle, [], None, 0, [], [], 0, false)

  function Queued(s: State): (q: seq<Request>)
    requires forall j :: 0 <= j < |s.queue| ==> s.queue[j] < |s.requests|
    ensures |q| == |s.queue|
  {
    seq(|s.queue|, i requires 0 <= i < |s.queue| => s.requests[s.queue[i]])
  }

  predicate Enabled(s: State, e: Event) {
    (forall j :: 0 <= j < |s.queue| ==> s.queue[j] < |s.requests|) &&
    match e
    case Enqueue(r) => r.batch.Some? ==> GoodOps(r.batch.value)
    case Lead => s.phase.Idle? && s.queue != []
    case Room(status, n) =>
      && s.phase.MakingRoom? && |s.queue| > 0 && (s.bgError ==> !status.Ok?)
      && (status.Ok? && Queued(s)[0].batch.Some? ==> IsGroup(Queued(s), n) && s.lastSequence + |OpsOf(Queued(s)[..n])| < WORD64 - 1)
    case BackgroundError => true
    case AddRecord(status, left) => s.phase.Logging? && s.phase.g.lo < |s.requests|
    case Sync(status) => s.phase.Syncing?
    case Insert => s.phase.Inserting? && s.phase.n < |s.phase.g.ops|
    case Inserted => s.phase.Inserting? && s.phase.n == |s.phase.g.ops|
    case Release => s.phase.Ending? && |s.results| <= s.phase.hi <= |s.results| + |s.queue|
  }

  function Next(s: State, e: Event): State
    requires Enabled(s, e)
  {
    match e
    case Enqueue(r) => s.(requests := s.requests + [r], queue := s.queue + [|s.requests|])
    case Lead => s.(phase := MakingRoom)
    case Room(status, n) =>
      if status.Ok? && Queued(s)[0].batch.Some? then
        var ops := OpsOf(Queued(s)[..n]);
        s.(phase := Logging(Group(s.queue[0], s.queue[0] + n, s.lastSequence + 1, ops)))
      else s.(phase := Ending(s.queue[0] + 1, s.lastSequence, status))
    case BackgroundError => s.(bgError := true)
    case AddRecord(status, left) =>
      var g := s.phase.g;
      if !status.Ok? then s.(torn := if left && s.torn.None? then Some(|s.log|) else s.torn, phase := Ending(g.hi, s.lastSequence + |g.ops|, status))
      else s.(log := s.log + [g], phase := if s.requests[g.lo].sync then Syncing(g) else Inserting(g, 0))
    case Sync(status) =>
      var g := s.phase.g;
      if status.Ok? then s.(synced := |s.log|, phase := Inserting(g, 0))
      else s.(bgError := true, phase := Ending(g.hi, s.lastSequence + |g.ops|, status))
    case Insert =>
      var g, n := s.phase.g, s.phase.n;
      s.(mem := s.mem + [EntryOf(g.sn + n, g.ops[n])], phase := Inserting(g, n + 1))
    case Inserted =>
      var g := s.phase.g;
      s.(applied := s.applied + [g], phase := Ending(g.hi, s.lastSequence + |g.ops|, Ok))
    case Release =>
      var n := s.phase.hi - |s.results|;
      s.(queue := s.queue[n..], phase := Idle, lastSequence := s.phase.last,
         results := s.results + seq(n, i requires 0 <= i < n => (s.queue[i], s.phase.status)))
  }

  // ----- What every step keeps -----

  /** The group joins the batches of a run of requests, and holds sync requests only when its
      leader is one. */
  ghost predicate GroupOk(requests: seq<Request>, g: Group) {
    && g.lo < g.hi <= |requests|
    && GoodOps(g.ops) && g.ops == OpsOf(requests[g.lo..g.hi])
    && forall i :: g.lo <= i < g.hi && requests[i].sync ==> requests[g.lo].sync
  }

  /** Writers leave in the order they came, each once. */
  ghost predicate QueueOk(s: State) {
    && |s.results| + |s.queue| == |s.requests|
    && (forall j :: 0 <= j < |s.queue| ==> s.queue[j] == |s.results| + j)
    && (forall i :: 0 <= i < |s.results| ==> s.results[i].0 == i)
    && (forall r :: r in s.requests && r.batch.Some? ==> GoodOps(r.batch.value))
  }

  /** A group wholly before another: of requests and of sequence numbers. */
  predicate Behind(a: Group, b: Group) {
    a.hi <= b.lo && a.sn + |a.ops| <= b.sn
  }

  ghost predicate LogOk(requests: seq<Request>, log: seq<Group>) {
    && (forall i :: 0 <= i < |log| ==> GroupOk(requests, log[i]) && log[i].sn > 0)
    && (forall i, j :: 0 <= i < j < |log| ==> Behind(log[i], log[j]))
  }

  /** The groups of the log, but for one still under way, are of writers that have left, and their
      sequence numbers are published. */
  ghost predicate Frontier(s: State) {
    forall i :: 0 <= i < |s.log| ==>
      (s.log[i].hi <= |s.results| && s.log[i].sn + |s.log[i].ops| <= s.lastSequence + 1) ||
      (i == |s.log| - 1 && UnderWay(s, s.log[i]))
  }

  ghost predicate UnderWay(s: State, g: Group) {
    match s.phase
    case Syncing(h) => g == h
    case Inserting(h, _) => g == h
    case Ending(hi, last, _) => g.lo == |s.results| && g.hi == hi && g.sn + |g.ops| == last + 1
    case _ => false
  }

  /** The group at the front of the queue, numbered from the first free sequence number. */
  ghost predicate Current(s: State, g: Group) {
    g.lo == |s.results| && g.sn == s.lastSequence + 1 && GroupOk(s.requests, g) && s.requests[g.lo].batch.Some?
  }

  ghost predicate PhaseOk(s: State) {
    match s.phase
    case Idle => true
    case MakingRoom => |s.queue| > 0
    case Logging(g) => Current(s, g)
    case Syncing(g) => Current(s, g) && s.requests[g.lo].sync
    case Inserting(g, n) => Current(s, g) && n <= |g.ops| && (s.requests[g.lo].sync ==> s.synced == |s.log|)
    case Ending(hi, last, status) =>
      && |s.results| < hi <= |s.requests| && last >= s.lastSequence
      && if status.Ok? && s.requests[|s.results|].batch.Some? then JustApplied(s, hi)
         else
           && (status.Ok? ==> hi == |s.results| + 1)
           && (forall k :: 0 <= k < |s.applied| ==> s.applied[k].hi <= |s.results|)
  }

  ghost predicate JustApplied(s: State, hi: nat) {
    && s.applied != [] && |s.results| < |s.requests|
    && var g := s.applied[|s.applied| - 1];
       g.lo == |s.results| && g.hi == hi && g.sn == s.lastSequence + 1 && GroupOk(s.requests, g) &&
       (s.requests[g.lo].sync ==> |s.applied| <= s.synced)
  }

  /** What is applied is what is logged, up to the group under way or one whose sync failed; after
      that, no further group gets to be logged. */
  ghost predicate AppliedOk(s: State) {
    && s.synced <= |s.log|
    && match s.phase
       case Logging(g) => s.log == s.applied
       case Syncing(g) => s.log == s.applied + [g]
       case Inserting(g, n) => s.log == s.applied + [g]
       case _ => s.log == s.applied ||
                 (s.bgError && |s.log| == |s.applied| + 1 && s.applied == s.log[..|s.applied|])
  }

  function Commits(groups: seq<Group>): (cs: seq<Commit>)
    ensures |cs| == |groups|
  {
    seq(|groups|, i requires 0 <= i < |groups| => Commit(groups[i].sn, groups[i].ops))
  }

  ghost predicate MemOk(s: State) {
    s.mem == CommitEntries(Commits(s.applied)) +
             if s.phase.Inserting? && s.phase.n <= |s.phase.g.ops|
             then BatchEntries(s.phase.g.sn, s.phase.g.ops[..s.phase.n]) else []
  }

  /** Request `i` is of the `k`-th applied group. */
  predicate In(applied: seq<Group>, k: nat, i: nat) {
    k < |applied| && applied[k].lo <= i < applied[k].hi
  }

  /** A writer is told of success exactly when its group was applied, and of a synced success only
      when the group's record is durable. */
  ghost predicate ResultOk(s: State, i: nat) {
    i < |s.results| && i < |s.requests| && (s.requests[i].batch.Some? ==>
      if s.results[i].1.Ok? then exists k: nat :: In(s.applied, k, i) && (s.requests[i].sync ==> k < s.synced)
      else forall k: nat :: !In(s.applied, k, i))
  }

  ghost predicate ResultsOk(s: State) {
    forall i :: 0 <= i < |s.results| ==> ResultOk(s, i)
  }

  /** Writers of one logged group that have left, left with one status. */
  ghost predicate StatusesOk(log: seq<Group>, results: seq<(nat, Status)>) {
    forall g, i, j :: g in log && g.lo <= i < g.hi && g.lo <= j < g.hi && i < |results| && j < |results| ==>
      results[i].1 == results[j].1
  }

  ghost predicate Inv(s: State) {
    && QueueOk(s) && LogOk(s.requests, s.log) && Frontier(s) && PhaseOk(s) && AppliedOk(s) && MemOk(s) && ResultsOk(s)
    && StatusesOk(s.log, s.results) && Numbered(s) && Readable(s) <= |s.log|
  }

  /** Sequence numbers stay within 64 bits. */
  ghost predicate Numbered(s: State) {
    s.lastSequence < WORD64 - 1 &&
    match s.phase
    case Logging(g) => g.sn + |g.ops| < WORD64
    case Syncing(g) => g.sn + |g.ops| < WORD64
    case Inserting(g, _) => g.sn + |g.ops| < WORD64
    case Ending(_, last, _) => last < WORD64 - 1
    case _ => true
  }

  /** How many records of the log no failed addition has left bytes in front of. */
  function Readable(s: State): nat {
    if s.torn.Some? then s.torn.value else |s.log|
  }

  lemma GroupOkStays(requests: seq<Request>, g: Group, r: Request)
    requires GroupOk(requests, g)
    ensures GroupOk(requests + [r], g) && g.lo < |requests| && (requests + [r])[g.lo] == requests[g.lo]
  {
    assert (requests + [r])[g.lo..g.hi] == requests[g.lo..g.hi];
  }

  lemma NumberedKeeps(s: State, e: Event)
    requires Numbered(s) && PhaseOk(s) && Enabled(s, e)
    ensures Numbered(Next(s, e))
  {
    hide GroupOk, OpsOf, IsGroup, EntryOf;
  }

  lemma EnqueueKeeps(s: State, r: Request)
    requires Inv(s) && Enabled(s, Enqueue(r))
    ensures Inv(Next(s, Enqueue(r)))
  {
    hide GroupOk, CommitEntries, BatchEntries, Fits, GoodOps, StatusesOk, Numbered;
    NumberedKeeps(s, Enqueue(r));
    var t := Next(s, Enqueue(r));
    forall g | GroupOk(s.requests, g)
      ensures GroupOk(t.requests, g) && g.lo < |s.requests| && t.requests[g.lo] == s.requests[g.lo]
    {
      GroupOkStays(s.requests, g, r);
    }
    forall i | 0 <= i < |t.results|
      ensures ResultOk(t, i)
    {
      assert ResultOk(s, i);
    }
    assert LogOk(t.requests, t.log);
    assert QueueOk(t);
    assert Frontier(t);
    assert PhaseOk(t);
    assert MemOk(t);
    assert AppliedOk(t);
  }

  /** The leader's choice of a group satisfies what is asked of one. */
  lemma ChoiceIsGroup(s: State, n: nat)
    requires QueueOk(s) && s.queue != [] && IsGroup(Queued(s), n)
    ensures n > 0 && s.queue[0] == |s.results| && s.queue[0] + n <= |s.requests|
    ensures GoodOps(OpsOf(Queued(s)[..n]))
    ensures Queued(s)[..n] == s.requests[s.queue[0]..s.queue[0] + n]
    ensures forall i :: s.queue[0] <= i < s.queue[0] + n && s.requests[i].sync ==> s.requests[s.queue[0]].sync
    ensures s.requests[s.queue[0]].batch.Some?
  {
    hide Stops, OpsOf, Fits, IsGroup;
    var q := Queued(s);
    GroupBasics(q, n);
    assert q[0] in s.requests;
    assert q[..n] == s.requests[s.queue[0]..s.queue[0] + n];
    assert forall i :: s.queue[0] <= i < s.queue[0] + n ==> s.requests[i] == q[i - s.queue[0]];
    assert forall i :: 0 <= i < |q| ==> q[i] in s.requests;
    AllFits(q[..n]);
  }

  lemma GroupBasics(q: seq<Request>, n: nat)
    requires IsGroup(q, n)
    ensures 0 < n <= |q| && q[0].batch.Some?
    ensures forall i :: 0 <= i < n && q[i].sync ==> q[0].sync
    ensures GoodOps(q[0].batch.value) ==> |OpsOf(q[..n])| < MAX_COUNT
  {
    GroupIsUnique(q, n, n);
    if |q[0].batch.value| < MAX_COUNT {
      GroupCount(q, n);
    }
  }

  lemma {:induction false} AllFits(q: seq<Request>)
    requires forall r :: r in q && r.batch.Some? ==> GoodOps(r.batch.value)
    ensures forall op :: op in OpsOf(q) ==> Fits(op)
  {
    if q != [] {
      AllFits(q[..|q| - 1]);
      assert q[|q| - 1] in q;
    }
  }

  lemma RoomKeeps(s: State, status: Status, n: nat)
    requires Inv(s) && Enabled(s, Room(status, n))
    ensures Inv(Next(s, Room(status, n)))
  {
    hide LogOk, IsGroup, OpsOf, CommitEntries, BatchEntries, Fits, GoodOps, ResultOk, Behind, StatusesOk, Numbered;
    NumberedKeeps(s, Room(status, n));
    var t := Next(s, Room(status, n));
    if status.Ok? && Queued(s)[0].batch.Some? {
      ChoiceIsGroup(s, n);
    } else {
      assert s.requests[|s.results|] == Queued(s)[0];
      NothingUnderWay(s);
    }
    SameResults(s, t);
    assert Frontier(t);
    assert PhaseOk(t);
    assert AppliedOk(t);
    assert MemOk(t);
  }

  /** Between groups, everything applied belongs to writers that have left. */
  lemma NothingUnderWay(s: State)
    requires Frontier(s) && AppliedOk(s) && (s.phase.Idle? || s.phase.MakingRoom? || s.phase.Logging?)
    ensures forall k :: 0 <= k < |s.applied| ==> s.applied[k].hi <= |s.results|
  {
  }

  lemma SameResults(s: State, t: State)
    requires ResultsOk(s) && t.results == s.results && t.requests == s.requests && t.applied == s.applied && t.synced >= s.synced
    ensures ResultsOk(t)
  {
    forall i | 0 <= i < |t.results|
      ensures ResultOk(t, i)
    {
      assert ResultOk(s, i);
    }
  }

  lemma AddRecordKeeps(s: State, status: Status, left: bool)
    requires Inv(s) && Enabled(s, AddRecord(status, left))
    ensures Inv(Next(s, AddRecord(status, left)))
  {
    hide GroupOk, CommitEntries, BatchEntries, Fits, GoodOps, ResultOk, Numbered;
    NumberedKeeps(s, AddRecord(status, left));
    var t := Next(s, AddRecord(status, left));
    var g := s.phase.g;
    assert g.hi > g.lo && g.hi <= |s.requests| by { GroupMeans(s.requests, g); }
    NothingUnderWay(s);
    if status.Ok? {
      forall i | 0 <= i < |s.log|
        ensures Behind(s.log[i], g)
      {
      }
    }
    SameResults(s, t);
    assert LogOk(t.requests, t.log);
    assert Frontier(t);
  }

  lemma GroupMeans(requests: seq<Request>, g: Group)
    requires GroupOk(requests, g)
    ensures g.lo < g.hi <= |requests| && GoodOps(g.ops)
  {
  }

  lemma SyncKeeps(s: State, status: Status)
    requires Inv(s) && Enabled(s, Sync(status))
    ensures Inv(Next(s, Sync(status)))
  {
    hide GroupOk, CommitEntries, BatchEntries, Fits, GoodOps, ResultOk, LogOk, StatusesOk, Numbered;
    NumberedKeeps(s, Sync(status));
    var t := Next(s, Sync(status));
    var g := s.phase.g;
    GroupMeans(s.requests, g);
    AppliedLeft(s);
    SameResults(s, t);
    assert Frontier(t);
    assert PhaseOk(t);
    assert AppliedOk(t);
  }

  /** While a group is being written, all applied ones are of writers that have left. */
  lemma AppliedLeft(s: State)
    requires Frontier(s) && AppliedOk(s) && (s.phase.Syncing? || s.phase.Inserting?)
    ensures forall k :: 0 <= k < |s.applied| ==> s.applied[k].hi <= |s.results|
    ensures |s.applied| + 1 == |s.log|
  {
    forall k | 0 <= k < |s.applied|
      ensures s.applied[k].hi <= |s.results|
    {
      assert s.applied[k] == s.log[k];
    }
  }

  lemma InsertKeeps(s: State)
    requires Inv(s) && Enabled(s, Insert)
    ensures Inv(Next(s, Insert))
  {
    hide GroupOk, CommitEntries, BatchEntries, EntryOf, Fits, GoodOps, ResultOk, LogOk, StatusesOk, Numbered;
    NumberedKeeps(s, Insert);
    SameResults(s, Next(s, Insert));
    OneInserted(CommitEntries(Commits(s.applied)), s.phase.g, s.phase.n);
  }

  lemma OneInserted(before: seq<Entry>, g: Group, n: nat)
    requires n < |g.ops|
    ensures before + BatchEntries(g.sn, g.ops[..n]) + [EntryOf(g.sn + n, g.ops[n])] ==
            before + BatchEntries(g.sn, g.ops[..n + 1])
  {
    assert g.ops[..n + 1] == g.ops[..n] + [g.ops[n]];
    BatchEntriesSplit(g.sn, g.ops[..n], [g.ops[n]]);
  }

  lemma InsertedKeeps(s: State)
    requires Inv(s) && Enabled(s, Inserted)
    ensures Inv(Next(s, Inserted))
  {
    hide GroupOk, CommitEntries, BatchEntries, Fits, GoodOps, LogOk, StatusesOk, Numbered;
    NumberedKeeps(s, Inserted);
    var t := Next(s, Inserted);
    var g := s.phase.g;
    GroupMeans(s.requests, g);
    AppliedLeft(s);
    assert g.ops[..|g.ops|] == g.ops;
    assert Commits(t.applied) == Commits(s.applied) + [Commit(g.sn, g.ops)];
    CommitEntriesOne(Commits(s.applied), Commit(g.sn, g.ops));
    forall i | 0 <= i < |t.results|
      ensures ResultOk(t, i)
    {
      assert ResultOk(s, i);
      ResultStays(s, t, i);
    }
    assert Frontier(t);
    assert PhaseOk(t);
    assert AppliedOk(t);
    assert MemOk(t);
  }

  lemma ResultStays(s: State, t: State, i: nat)
    requires ResultOk(s, i) && t.results == s.results && t.requests == s.requests && t.synced == s.synced
    requires |t.applied| == |s.applied| + 1 && t.applied[..|s.applied|] == s.applied && t.applied[|s.applied|].lo >= |s.results|
    ensures ResultOk(t, i)
  {
    forall k: nat
      ensures In(t.applied, k, i) <==> In(s.applied, k, i)
    {
      if k < |s.applied| {
        assert t.applied[k] == t.applied[..|s.applied|][k];
      }
    }
  }

  lemma ReleaseKeeps(s: State)
    requires Inv(s) && Enabled(s, Release)
    ensures Inv(Next(s, Release))
  {
    hide GroupOk, CommitEntries, BatchEntries, Fits, GoodOps, LogOk, StatusesOk, Numbered;
    NumberedKeeps(s, Release);
    ReleaseKeepsStatuses(s);
    var t := Next(s, Release);
    forall i | 0 <= i < |t.results|
      ensures ResultOk(t, i)
    {
      if i < |s.results| {
        assert ResultOk(s, i);
        SameResult(s, t, i);
      } else {
        NewResult(s, t, i);
      }
    }
    assert Frontier(t);
    assert QueueOk(t);
    assert MemOk(t);
    assert AppliedOk(t);
  }

  lemma SameResult(s: State, t: State, i: nat)
    requires ResultOk(s, i) && t.requests == s.requests && t.synced == s.synced && t.applied == s.applied
    requires |t.results| >= |s.results| && t.results[i] == s.results[i]
    ensures ResultOk(t, i)
  {
  }

  lemma ReleaseKeepsStatuses(s: State)
    requires QueueOk(s) && Frontier(s) && s.phase.Ending? && Enabled(s, Release) && StatusesOk(s.log, s.results)
    ensures StatusesOk(s.log, Next(s, Release).results)
  {
    var t := Next(s, Release);
    forall g, i, j | g in s.log && g.lo <= i < g.hi && g.lo <= j < g.hi && i < |t.results| && j < |t.results|
      ensures t.results[i].1 == t.results[j].1
    {
      var k :| 0 <= k < |s.log| && s.log[k] == g;
      if g.hi <= |s.results| {
        assert t.results[i] == s.results[i] && t.results[j] == s.results[j];
      } else {
        assert UnderWay(s, g);
      }
    }
  }

  /** The status a writer leaves with is that of the group it is in. */
  lemma NewResult(s: State, t: State, i: nat)
    requires QueueOk(s) && PhaseOk(s) && s.phase.Ending? && |s.results| <= i < s.phase.hi == |t.results|
    requires t.requests == s.requests && t.applied == s.applied && t.synced == s.synced && t.results[i].1 == s.phase.status
    requires LogOk(s.requests, s.log) && AppliedOk(s)
    ensures ResultOk(t, i)
  {
    hide GoodOps, Fits, OpsOf;
    if s.requests[i].batch.Some? {
      if s.phase.status.Ok? {
        if s.requests[|s.results|].batch.Some? {
          var k := |s.applied| - 1;
          assert In(t.applied, k, i);
        }
      } else {
        assert forall k: nat :: !In(t.applied, k, i);
      }
    }
  }

  /** Whatever step is taken, in whatever order writers arrive and errors strike. */
  lemma StepKeeps(s: State, e: Event)
    requires Inv(s) && Enabled(s, e)
    ensures Inv(Next(s, e))
  {
    hide Inv, Enabled, Next;
    match e {
      case Enqueue(r) => EnqueueKeeps(s, r);
      case Lead => LeadKeeps(s);
      case Room(status, n) => RoomKeeps(s, status, n);
      case BackgroundError => BackgroundErrorKeeps(s);
      case AddRecord(status, left) => AddRecordKeeps(s, status, left);
      case Sync(status) => SyncKeeps(s, status);
      case Insert => InsertKeeps(s);
      case Inserted => InsertedKeeps(s);
      case Release => ReleaseKeeps(s);
    }
  }

  lemma LeadKeeps(s: State)
    requires Inv(s) && Enabled(s, Lead)
    ensures Inv(Next(s, Lead))
  {
    hide GroupOk, CommitEntries, BatchEntries, Fits, GoodOps, ResultOk, LogOk, StatusesOk, Numbered;
    NumberedKeeps(s, Lead);
    SameResults(s, Next(s, Lead));
  }

  lemma BackgroundErrorKeeps(s: State)
    requires Inv(s)
    ensures Inv(Next(s, BackgroundError))
  {
    hide GroupOk, CommitEntries, BatchEntries, Fits, GoodOps, ResultOk, LogOk, StatusesOk, Numbered;
    NumberedKeeps(s, BackgroundError);
    SameResults(s, Next(s, BackgroundError));
  }

  // ----- Whole runs -----

  ghost predicate IsRun(ss: seq<State>, es: seq<Event>) {
    |ss| == |es| + 1 && forall i :: 0 <= i < |es| ==> Enabled(ss[i], es[i]) && ss[i + 1] == Next(ss[i], es[i])
  }

  lemma {:induction false} RunKeeps(ss: seq<State>, es: seq<Event>, i: nat)
    requires IsRun(ss, es) && ss[0] == START && i < |ss|
    ensures Inv(ss[i])
  {
    hide Enabled, Next;
    if i == 0 {
      assert MemOk(START);
    } else {
      hide Inv;
      RunKeeps(ss, es, i - 1);
      StepKeeps(ss[i - 1], es[i - 1]);
    }
  }

  /** In every state of every run: the writers that left are the first ones that came, in order and
      each once; every operation in the log has a sequence number of its own, rising along the log;
      the log holds each request's operations at most once, in order of arrival; and each writer left
      with the status of its group, success exactly when the group was inserted and, for one that asked
      for it, made durable. */
  lemma LoggedOnceInOrder(ss: seq<State>, es: seq<Event>, i: nat)
    requires IsRun(ss, es) && ss[0] == START && i < |ss|
    ensures var s := ss[i];
            && (forall j :: 0 <= j < |s.results| ==> s.results[j].0 == j)
            && (forall g :: g in s.log ==> g.lo < g.hi <= |s.requests| && g.ops == OpsOf(s.requests[g.lo..g.hi]))
            && (forall a, b :: 0 <= a < b < |s.log| ==>
                  s.log[a].hi <= s.log[b].lo && s.log[a].sn + |s.log[a].ops| <= s.log[b].sn)
            && (forall g, j :: g in s.log && g.lo <= j < g.hi && s.requests[j].sync ==> s.requests[g.lo].sync)
    ensures var s := ss[i];
            && StatusesOk(s.log, s.results)
            && (forall j :: 0 <= j < |s.results| ==> j < |s.requests| && ResultOk(s, j))
            && |s.applied| <= |s.log| && (forall k :: 0 <= k < |s.applied| ==> s.applied[k] == s.log[k])
  {
    hide Enabled, Next, IsRun, ResultOk;
    RunKeeps(ss, es, i);
  }

  /** The group at the front never holds more than the queue: leaving is always possible. */
  lemma ReleaseIsEnabled(s: State)
    requires Inv(s) && s.phase.Ending?
    ensures Enabled(s, Release)
  {
  }

  lemma LogIsGood(s: State)
    requires Inv(s)
    ensures GoodCommits(Commits(s.log)) && Readable(s) <= |s.log|
    ensures forall n :: 0 <= n <= |s.log| ==> GoodCommits(Commits(s.log[..n])) && Commits(s.log[..n]) == Commits(s.log)[..n]
  {
    hide OpsOf, Fits;
  }

  /** The commits of the groups that no leftover bytes stand in front of. */
  function ReadableCommits(s: State): seq<Commit>
    requires Readable(s) <= |s.log|
  {
    Commits(s.log[..Readable(s)])
  }

  /** What a crash may leave of the log file: the records added, cut off at some byte; but when a failed
      addition has left bytes, there may be anything behind the records added before it. */
  ghost predicate MayBeLeft(crc: Crc, s: State, file: Bytes) {
    Readable(s) <= |s.log| && GoodCommits(ReadableCommits(s)) ==>
      var bytes := Stream(crc, 0, Reps(ReadableCommits(s)));
      file <= bytes || (s.torn.Some? && bytes <= file)
  }

  /** A writer that was told its synced batch succeeded. */
  predicate SyncedOk(s: State, w: nat) {
    w < |s.results| && w < |s.requests| && s.results[w].1.Ok? && s.requests[w].sync && s.requests[w].batch.Some?
  }

  /** A crash leaves the log cut off at some byte, behind those a sync made durable. A reader then finds
      the first `k` groups whole, first of all, and nothing else unless a failed addition had left bytes;
      and every writer that was told its synced batch succeeded is in one of them, unless its group was
      added behind such bytes. */
  lemma SyncedSurvives(ss: seq<State>, es: seq<Event>, i: nat, crc: Crc, file: Bytes, w: nat)
    returns (more: seq<Bytes>)
    requires IsRun(ss, es) && ss[0] == START && i < |ss| && MayBeLeft(crc, ss[i], file)
    ensures Readable(ss[i]) <= |ss[i].log| && ss[i].synced <= |ss[i].log| && GoodCommits(ReadableCommits(ss[i]))
    ensures var s, n, commits := ss[i], Readable(ss[i]), ReadableCommits(ss[i]); var k := Survivors(crc, commits, |file|);
            && k <= n && ReadLog(crc, file, 0, [], false).records == Reps(commits[..k]) + more && (s.torn.None? ==> more == [])
            && (SyncedOk(s, w) && |file| >= |Stream(crc, 0, Reps(commits[..if s.synced < n then s.synced else n]))| ==>
                  exists g: nat :: In(s.log, g, w) && (g < n ==> g < k))
  {
    hide Enabled, Next, IsRun, Stream, Reps, GoodCommits, Survivors, ReadLog;
    RunKeeps(ss, es, i);
    var s, n := ss[i], Readable(ss[i]);
    LogIsGood(s);
    var commits := ReadableCommits(s);
    more := CommitsInFront(crc, file, commits);
    var m := if s.synced < n then s.synced else n;
    GoodFront(commits, m);
    if SyncedOk(s, w) && |file| >= |Stream(crc, 0, Reps(commits[..m]))| {
      SurvivorsAtLeast(crc, commits, m, |file|);
      assert ResultOk(s, w);
      var g: nat :| In(s.applied, g, w) && g < s.synced;
      AppliedIsLogged(s, g);
      assert In(s.log, g, w);
    }
  }

  lemma AppliedIsLogged(s: State, k: nat)
    requires AppliedOk(s) && k < |s.applied|
    ensures k < |s.log| && s.log[k] == s.applied[k]
  {
  }

  // ----- What readers see -----

  /** Rising sequence numbers, from 1. */
  ghost predicate Rising(cs: seq<Commit>) {
    (forall i, j :: 0 <= i < j < |cs| ==> cs[i].sn + |cs[i].ops| <= cs[j].sn) &&
    (forall i :: 0 <= i < |cs| ==> cs[i].sn > 0)
  }

  function AllOps(cs: seq<Commit>): seq<Op> {
    if cs == [] then [] else AllOps(cs[..|cs| - 1]) + cs[|cs| - 1].ops
  }

  lemma {:induction false} AppliedSplits(a: seq<Op>, b: seq<Op>, user: UserKey, v: Option<Bytes>)
    ensures Applied(a + b, user, v) == Applied(b, user, Applied(a, user, v))
    decreases |b|
  {
    if b == [] {
      assert a + b == a;
    } else {
      assert (a + b)[..|a + b| - 1] == a + b[..|b| - 1];
      AppliedSplits(a, b[..|b| - 1], user, v);
    }
  }

  lemma {:induction false} EntriesBelow(cs: seq<Commit>, limit: nat)
    requires forall i :: 0 <= i < |cs| ==> cs[i].sn + |cs[i].ops| <= limit
    ensures forall e :: e in CommitEntries(cs) ==> e.key.sn < limit
  {
    if cs != [] {
      EntriesBelow(cs[1..], limit);
    }
  }

  /** The entries of whole commits read as their operations do, done one after another. */
  lemma {:induction false} CommitsRead(cs: seq<Commit>, user: UserKey, s: nat)
    requires Rising(cs) && forall i :: 0 <= i < |cs| ==> cs[i].sn + |cs[i].ops| <= s + 1
    ensures Reads(ToSet(CommitEntries(cs)), user, s, Applied(AllOps(cs), user, None))
    decreases |cs|
  {
    hide Applied, BatchEntries, CommitEntries, Reads;
    if cs == [] {
      NothingReads(user, s);
    } else {
      var front, c := cs[..|cs| - 1], cs[|cs| - 1];
      assert cs == front + [c];
      CommitEntriesOne(front, c);
      CommitsRead(front, user, c.sn - 1);
      EntriesBelow(front, c.sn);
      BatchIsAtomic(ToSet(CommitEntries(front)), c.sn, c.ops, user, Applied(AllOps(front), user, None));
      AppliedSplits(AllOps(front), c.ops, user, None);
      assert ToSet(CommitEntries(cs)) == ToSet(CommitEntries(front)) + ToSet(BatchEntries(c.sn, c.ops));
      EntriesBelow(cs, c.sn + |c.ops|);
      ReadsLater(ToSet(CommitEntries(cs)), user, c.sn + |c.ops| - 1, s, Applied(AllOps(cs), user, None));
    }
  }

  lemma NothingReads(user: UserKey, s: nat)
    ensures Reads(ToSet(CommitEntries([])), user, s, Applied(AllOps([]), user, None))
  {
    assert IsNewest(ToSet(CommitEntries([])), user, s, None);
  }

  lemma ReadsLater(es: set<Entry>, user: UserKey, s: nat, t: nat, v: Option<Bytes>)
    requires s <= t && (forall e :: e in es ==> e.key.sn <= s) && Reads(es, user, s, v)
    ensures Reads(es, user, t, v)
  {
    var r :| IsNewest(es, user, s, r) && Shows(r) == v;
    assert IsNewest(es, user, t, r);
  }

  /** The groups whose sequence numbers readers use already. */
  ghost function Published(s: State): seq<Group> {
    if s.phase.Ending? && s.applied != [] && s.applied[|s.applied| - 1].hi > |s.results| then s.applied[..|s.applied| - 1]
    else s.applied
  }

  /** In every state of every run a reader at the published sequence number sees the operations of
      the groups finished so far, one after another, and nothing of a group being inserted. */
  lemma ReadersSeeWholeGroups(ss: seq<State>, es: seq<Event>, i: nat, user: UserKey)
    requires IsRun(ss, es) && ss[0] == START && i < |ss|
    ensures Reads(ToSet(ss[i].mem), user, ss[i].lastSequence, Applied(AllOps(Commits(Published(ss[i]))), user, None))
  {
    hide IsRun, Inv, Published, CommitEntries, Applied, AllOps, Commits, ToSet, Reads;
    RunKeeps(ss, es, i);
    var s := ss[i];
    PublishedIsBelow(s);
    CommitsRead(Commits(Published(s)), user, s.lastSequence);
    var more := UnpublishedEntries(s);
    SameBefore(ToSet(CommitEntries(Commits(Published(s)))), ToSet(more), s.lastSequence + 1, user,
               Applied(AllOps(Commits(Published(s))), user, None));
    ToSetJoins(CommitEntries(Commits(Published(s))), more);
  }

  lemma ToSetJoins(a: seq<Entry>, b: seq<Entry>)
    ensures ToSet(a + b) == ToSet(a) + ToSet(b)
  {
  }

  lemma PublishedIsBelow(s: State)
    requires Inv(s)
    ensures Rising(Commits(Published(s)))
    ensures var cs := Commits(Published(s)); forall i :: 0 <= i < |cs| ==> cs[i].sn + |cs[i].ops| <= s.lastSequence + 1
  {
    hide MemOk, ResultsOk, GroupOk;
    var p := Published(s);
    forall k | 0 <= k < |p|
      ensures s.log[k] == p[k] && p[k].sn + |p[k].ops| <= s.lastSequence + 1
    {
      AppliedIsLogged(s, k);
    }
    assert s.log != [] ==> Behind(s.log[0], s.log[|s.log| - 1]) || |s.log| == 1;
  }

  /** The entries behind those of published groups have higher sequence numbers. */
  lemma UnpublishedEntries(s: State) returns (more: seq<Entry>)
    requires Inv(s)
    ensures s.mem == CommitEntries(Commits(Published(s))) + more
    ensures forall e :: e in ToSet(more) ==> e.key.sn >= s.lastSequence + 1
  {
    hide LogOk, ResultsOk, CommitEntries, QueueOk, GoodOps, OpsOf;
    if Published(s) == s.applied {
      more := if s.phase.Inserting? then BatchEntries(s.phase.g.sn, s.phase.g.ops[..s.phase.n]) else [];
    } else {
      var g := s.applied[|s.applied| - 1];
      assert Commits(s.applied) == Commits(Published(s)) + [Commit(g.sn, g.ops)];
      CommitEntriesOne(Commits(Published(s)), Commit(g.sn, g.ops));
      more := BatchEntries(g.sn, g.ops);
    }
  }

  /** Sequence numbers of commits that fit in 64 bits. */
  ghost predicate Within64(cs: seq<Commit>) {
    forall c :: c in cs ==> c.sn > 0 && c.sn + |c.ops| <= WORD64
  }

  lemma {:induction false} MaxSequenceCovers(cs: seq<Commit>, from: Word64)
    requires Within64(cs)
    ensures MaxSequence(cs, from) >= from
    ensures forall i :: 0 <= i < |cs| ==> cs[i].sn + |cs[i].ops| <= MaxSequence(cs, from) + 1
    decreases |cs|
  {
    if cs != [] {
      MaxSequenceCovers(cs[..|cs| - 1], from);
      assert cs[|cs| - 1] in cs;
    }
  }

  lemma LogRises(s: State)
    requires Inv(s)
    ensures Rising(Commits(s.log)) && Within64(Commits(s.log))
  {
    hide GroupOk, CommitEntries, OpsOf, Fits;
    assert forall i, j :: 0 <= i < j < |s.log| ==> Behind(s.log[i], s.log[j]);
    forall c | c in Commits(s.log)
      ensures c.sn > 0 && c.sn + |c.ops| <= WORD64
    {
      var i :| 0 <= i < |s.log| && Commits(s.log)[i] == c;
      assert s.log[i].sn > 0;
    }
  }

  /** Recover from what a crash left of the log, in any state of any run. What is inserted is, first of
      all, the entries of the first `k` groups, `k` being how many records the crash left whole in front
      of any leftover bytes. When the file does not go on behind those bytes, that is all, there is no
      error, and what is read back is what the operations of these groups make of the store. Together
      with SyncedSurvives, no batch is seen in part and no synced one is lost. */
  method RecoverAfterCrash(crc: Crc, file: Bytes, paranoid: bool, full: seq<Entry> -> bool,
                           ghost ss: seq<State>, ghost es: seq<Event>, ghost i: nat)
    returns (tables: seq<seq<Entry>>, mem: seq<Entry>, last: Word64, status: Status, ghost more: seq<Entry>)
    requires IsRun(ss, es) && ss[0] == START && i < |ss| && MayBeLeft(crc, ss[i], file)
    ensures Readable(ss[i]) <= |ss[i].log| && GoodCommits(ReadableCommits(ss[i])) && (!paranoid ==> status.Ok?)
    ensures var commits := ReadableCommits(ss[i]); var k := Survivors(crc, commits, |file|);
            && k <= |commits| && (status.Ok? ==> Joined(tables) + mem == CommitEntries(commits[..k]) + more)
            && (|file| <= |Stream(crc, 0, Reps(commits))| ==>
                  && status.Ok? && more == []
                  && forall user :: Reads(ToSet(Joined(tables) + mem), user, last, Applied(AllOps(commits[..k]), user, None)))
  {
    hide Enabled, Next, IsRun, Inv, GoodCommits, Stream, Survivors, Joined, CommitEntries, Rising, MaxSequence, Reps, AllOps,
      Applied, Reads, ReadLog, Sound, AllReplayed, AllRaised, Within64;
    RunKeeps(ss, es, i);
    LogIsGood(ss[i]);
    tables, mem, last, status := RecoverLogFile(crc, file, 0, paranoid, full);
    ghost var commits := ReadableCommits(ss[i]);
    ghost var behind := CommitsInFront(crc, file, commits);
    ghost var front := commits[..Survivors(crc, commits, |file|)];
    GoodFront(commits, |front|);
    CommitsReplayed(front, 0);
    ReplayedSplits(Reps(front), behind);
    more := AllReplayed(behind);
    if |file| <= |Stream(crc, 0, Reps(commits))| {
      assert Reps(front) + [] == Reps(front);
      NothingReplayed();
      LogRises(ss[i]);
      FrontRises(Commits(ss[i].log), |front|);
      assert front == Commits(ss[i].log)[..|front|];
      MaxSequenceCovers(front, 0);
      assert CommitEntries(front) + [] == CommitEntries(front);
      forall user
        ensures Reads(ToSet(Joined(tables) + mem), user, last, Applied(AllOps(front), user, None))
      {
        CommitsRead(front, user, last);
      }
    }
  }

  lemma GoodFront(cs: seq<Commit>, k: nat)
    requires GoodCommits(cs) && k <= |cs|
    ensures GoodCommits(cs[..k])
  {
  }

  lemma NothingReplayed()
    ensures AllReplayed([]) == []
  {
  }

  lemma {:induction false} ReplayedSplits(a: seq<Bytes>, b: seq<Bytes>)
    ensures AllReplayed(a + b) == AllReplayed(a) + AllReplayed(b)
    decreases |b|
  {
    hide Replayed;
    if b == [] {
      assert a + b == a;
    } else {
      assert (a + b)[..|a + b| - 1] == a + b[..|b| - 1];
      ReplayedSplits(a, b[..|b| - 1]);
    }
  }

  lemma FrontRises(cs: seq<Commit>, k: nat)
    requires Rising(cs) && Within64(cs) && k <= |cs|
    ensures Rising(cs[..k]) && Within64(cs[..k])
  {
  }

  // ----- The code of the leader -----

  /** A waiting call of Write. */
  class Writer {
    const batch: WriteBatch?
    const sync: bool
    var done: bool
    var status: Status

    constructor (b: WriteBatch?, s: bool)
      ensures batch == b && sync == s && !done && status == Ok
    {
      batch, sync, done, status := b, s, false, Ok;
    }
  }

  function Batches(ws: seq<Writer>): set<WriteBatch> {
    set w | w in ws && w.batch != null :: w.batch
  }

  ghost function RequestOf(w: Writer): Request
    reads if w.batch == null then {} else {w.batch}
  {
    Request(if w.batch == null then None else Some(w.batch.ops), w.sync)
  }

  ghost function RequestsOf(ws: seq<Writer>): (q: seq<Request>)
    reads Batches(ws)
    ensures |q| == |ws| && forall i :: 0 <= i < |ws| ==> q[i] == RequestOf(ws[i])
    decreases |ws|
  {
    if ws == [] then []
    else
      var front := ws[..|ws| - 1];
      assert Batches(front) <= Batches(ws);
      assert ws[|ws| - 1].batch != null ==> ws[|ws| - 1].batch in Batches(ws);
      RequestsOf(front) + [RequestOf(ws[|ws| - 1])]
  }

  class DBImpl {
    var writers: seq<Writer>
    const tmpBatch: WriteBatch

    constructor ()
      ensures writers == [] && fresh(tmpBatch) && tmpBatch.Valid() && tmpBatch.ops == []
    {
      writers := [];
      tmpBatch := new WriteBatch();
    }

    /** No writer waits twice, and the scratch batch is the database's own. */
    ghost predicate Valid()
      reads this, tmpBatch, Batches(writers)
    {
      && (forall i, j :: 0 <= i < j < |writers| ==> writers[i] != writers[j])
      && tmpBatch !in Batches(writers) && tmpBatch.Valid()
      && forall b :: b in Batches(writers) ==> b.Valid()
    }

    /** Join the batches of the writers at the front of the queue, up to the first that may not
        join: `n` of them. Callers' batches are left alone. */
    method BuildBatchGroup() returns (result: WriteBatch, n: nat)
      requires Valid() && writers != [] && writers[0].batch != null && tmpBatch.ops == []
      modifies tmpBatch
      ensures IsGroup(RequestsOf(writers), n)
      ensures result.Valid() && result.ops == OpsOf(RequestsOf(writers)[..n])
      ensures result == tmpBatch || (result == writers[0].batch && tmpBatch.ops == [])
    {
      hide Stops, OpsOf, SizeOf, EncodeOps, WriteBatch.Valid, RequestsOf, ByteSize;
      var first := writers[0];
      result := first.batch;
      ghost var q := RequestsOf(writers);
      assert first.batch in Batches(writers);
      OnlyLeader(q, 1);
      BatchSize(result);
      var size := |result.rep|;
      var maxSize := 0x10_0000;
      if size <= 0x2_0000 {
        maxSize := size + 0x2_0000;
      }
      n := 1;
      while n < |writers|
        invariant 1 <= n <= |writers| && q == RequestsOf(writers)
        invariant result == tmpBatch || (result == first.batch && tmpBatch.ops == [])
        invariant Valid() && result.Valid() && result.ops == OpsOf(q[..n])
        invariant size == SizeOf(q[..n]) && maxSize == MaxSize(ByteSize(first.batch.ops))
        invariant forall i :: 0 < i < n ==> !Stops(q, i)
      {
        var w := writers[n];
        assert q[n] == RequestOf(w);
        StopsMeans(q, n);
        if w.sync && !first.sync {
          // a sync write does not join a batch handled by a non-sync write
          break;
        }
        if w.batch != null {
          assert w.batch in Batches(writers);
          BatchSize(w.batch);
          size := size + |w.batch.rep|;
          if size > maxSize {
            break;
          }
          CountWithinSize(q[..n + 1]);
          result := Join(result, first.batch, w.batch);
        }
        n := n + 1;
      }
    }

    /** Append a batch to the group's, which is the scratch batch as soon as there are two. */
    method Join(group: WriteBatch, first: WriteBatch, batch: WriteBatch) returns (result: WriteBatch)
      requires tmpBatch.Valid() && group.Valid() && first.Valid() && batch.Valid()
      requires first != tmpBatch && batch != tmpBatch && |group.ops| + |batch.ops| < MAX_COUNT
      requires group == tmpBatch || (group == first && tmpBatch.ops == [])
      modifies tmpBatch
      ensures result == tmpBatch && result.Valid() && result.ops == old(group.ops) + batch.ops
    {
      hide Rep;
      result := group;
      if result == first {
        // switch to the scratch batch instead of disturbing the caller's
        result := tmpBatch;
        result.Append(first);
      }
      result.Append(batch);
    }

    lemma BatchSize(b: WriteBatch)
      requires b.Valid()
      ensures |b.rep| == ByteSize(b.ops) && |b.ops| < MAX_COUNT
    {
    }

    lemma StopsMeans(q: seq<Request>, n: nat)
      requires 0 < n < |q| && q[0].batch.Some?
      ensures OpsOf(q[..n + 1]) == OpsOf(q[..n]) + if q[n].batch.Some? then q[n].batch.value else []
      ensures SizeOf(q[..n + 1]) == SizeOf(q[..n]) + if q[n].batch.Some? then ByteSize(q[n].batch.value) else 0
      ensures Stops(q, n) <==> (q[n].sync && !q[0].sync) ||
                               (q[n].batch.Some? && SizeOf(q[..n + 1]) > MaxSize(ByteSize(q[0].batch.value)))
    {
      assert q[..n + 1][..n] == q[..n];
    }

    /** Take the writers up to `last` off the queue, telling all but this one their outcome. */
    method FinishGroup(w: Writer, last: Writer, status: Status, ghost n: nat)
      requires forall i, j :: 0 <= i < j < |writers| ==> writers[i] != writers[j]
      requires 0 < n <= |writers| && w == writers[0] && last == writers[n - 1]
      modifies this`writers, set x | x in writers[1..n]
      ensures writers == old(writers)[n..]
      ensures forall i :: 0 < i < n ==> old(writers)[i].done && old(writers)[i].status == status
    {
      ghost var all := writers;
      ghost var k := 0;
      while true
        invariant 0 <= k < n && writers == all[k..]
        invariant forall i :: 0 < i < k ==> all[i].done && all[i].status == status
        decreases n - k
      {
        var ready := writers[0];
        writers := writers[1..];
        if ready != w {
          assert all[1..n][k - 1] == ready;
          ready.status := status;
          ready.done := true;
        }
        k := k + 1;
        if ready == last {
          break;
        }
      }
    }
  }
}
