/** Runs of the store: any sequence of memtable flushes, trivial moves and compactions keeps the
    version invariant and gives every read at or above the oldest snapshot the answer that all
    entries ever written give. */
module Store {
  import opened Keys
  import opened Files
  import opened Versions
  import opened Builder
  import opened Compaction
  import opened Lsm

  // ----- Flushing a memtable -----

  ghost predicate NoOverlap(v: Version, level: nat, lo: UserKey, hi: UserKey)
    requires level < |v.levels|
  {
    forall f :: f in v.levels[level] ==> !Overlaps(f, Some(lo), Some(hi))
  }

  /** Whether a flushed file may go from `level` one further down. */
  ghost predicate MayPush(v: Version, level: nat, lo: UserKey, hi: UserKey, maxGrandparentOverlap: nat)
    requires level + 1 < |v.levels|
  {
    NoOverlap(v, level + 1, lo, hi) &&
    (level + 2 < |v.levels| ==>
       TotalFileSize(Overlapping(v.levels[level + 2], Some(lo), Some(hi))) <= maxGrandparentOverlap)
  }

  /** The level a flushed memtable goes to: as deep as the rules let it go, at most level 2. */
  method PickLevelForMemTableOutput(v: Version, lo: UserKey, hi: UserKey, maxGrandparentOverlap: nat)
    returns (level: nat)
    requires EachLevelInv(v)
    ensures level <= MAX_MEM_COMPACT_LEVEL
    ensures level > 0 ==> forall l :: 0 <= l <= level ==> NoOverlap(v, l, lo, hi)
    ensures forall l :: 0 <= l < level ==> MayPush(v, l, lo, hi, maxGrandparentOverlap)
    ensures NoOverlap(v, 0, lo, hi) && level < MAX_MEM_COMPACT_LEVEL ==>
              !MayPush(v, level, lo, hi, maxGrandparentOverlap)
  {
    level := 0;
    assert LevelInv(true, v.levels[0]);
    var overlap := SomeFileOverlapsRange(false, v.levels[0], Some(lo), Some(hi));
    if !overlap {
      while level < MAX_MEM_COMPACT_LEVEL
        invariant level <= MAX_MEM_COMPACT_LEVEL
        invariant forall l :: 0 <= l <= level ==> NoOverlap(v, l, lo, hi)
        invariant forall l :: 0 <= l < level ==> MayPush(v, l, lo, hi, maxGrandparentOverlap)
      {
        assert LevelInv(false, v.levels[level + 1]) && LevelInv(false, v.levels[level + 2]);
        overlap := SomeFileOverlapsRange(true, v.levels[level + 1], Some(lo), Some(hi));
        if overlap {
          break;
        }
        if level + 2 < NUM_LEVELS {
          ghost var lo', hi';
          var overlaps;
          overlaps, lo', hi' := GetOverlappingInputs(false, v.levels[level + 2], Some(lo), Some(hi));
          if TotalFileSize(overlaps) > maxGrandparentOverlap {
            break;
          }
        }
        level := level + 1;
      }
    }
  }

  /** `f` is a table of entries newer than all in `v`, placed where nothing above or beside it
      overlaps it. */
  ghost predicate GoodFlush(v: Version, f: File, level: nat) {
    && EachLevelInv(v) && ValidFile(f) && level < NUM_LEVELS
    && Newer(ToSet(f.entries), AllEntries(v))
    && (forall l, g :: 0 <= l < NUM_LEVELS && g in v.levels[l] ==> g.number < f.number)
    && (level > 0 ==> forall l :: 0 <= l <= level ==> NoOverlap(v, l, f.smallest.user, f.largest.user))
  }

  ghost predicate Flushed(v: Version, f: File, level: nat, v': Version) {
    && |v.levels| == NUM_LEVELS && |v'.levels| == NUM_LEVELS && level < NUM_LEVELS
    && (forall l :: 0 <= l < NUM_LEVELS ==> InOrder(v'.levels[l]))
    && (forall l :: 0 <= l < NUM_LEVELS ==> ToSet(v'.levels[l]) == ToSet(v.levels[l]) + if l == level then {f} else {})
  }

  lemma FlushKeepsLevel(v: Version, f: File, level: nat, files: seq<File>)
    requires GoodFlush(v, f, level) && InOrder(files)
    requires forall g :: g in files <==> g in v.levels[level] || g == f
    ensures LevelInv(level == 0, files)
  {
    var before := v.levels[level];
    assert LevelInv(level == 0, before);
    LevelInvGives(level == 0, before);
    if level == 0 {
      forall g | g in before
        ensures Newer(ToSet(f.entries), ToSet(g.entries)) && f.number > g.number
      {
        InAll(v, level, g);
      }
    } else {
      assert NoOverlap(v, level, f.smallest.user, f.largest.user);
      forall g | g in before
        ensures Apart(f, g) && f.number != g.number
      {
        assert !Overlaps(g, Some(f.smallest.user), Some(f.largest.user));
      }
    }
    LevelInvFromSet(level == 0, files);
  }

  lemma InAll(v: Version, level: nat, g: File)
    requires level < |v.levels| && g in v.levels[level]
    ensures ToSet(g.entries) <= EntriesOf(v.levels[level]) <= AllEntries(v)
  {
  }

  lemma FlushEntries(v: Version, f: File, level: nat, v': Version, l: nat)
    requires Flushed(v, f, level, v') && l < NUM_LEVELS
    ensures EntriesOf(v'.levels[l]) == EntriesOf(v.levels[l]) + if l == level then ToSet(f.entries) else {}
  {
    assert forall g :: g in v'.levels[l] <==> g in ToSet(v'.levels[l]);
    assert forall g :: g in v.levels[l] <==> g in ToSet(v.levels[l]);
    if l == level {
      assert f in ToSet(v'.levels[l]);
    }
  }

  lemma FlushKeepsInv(v: Version, f: File, level: nat, v': Version)
    requires Inv(v) && GoodFlush(v, f, level) && Flushed(v, f, level, v')
    ensures Inv(v') && AllEntries(v') == AllEntries(v) + ToSet(f.entries)
  {
    hide LevelInv, ValidFile, InOrder, LevelsByAge;
    forall l | 0 <= l < NUM_LEVELS
      ensures LevelInv(l == 0, v'.levels[l])
    {
      assert forall g :: g in v'.levels[l] <==> g in ToSet(v'.levels[l]);
      assert forall g :: g in v.levels[l] <==> g in ToSet(v.levels[l]);
      if l == level {
        FlushKeepsLevel(v, f, level, v'.levels[l]);
      } else {
        assert LevelInv(l == 0, v.levels[l]);
        OtherLevelKept(l == 0, v.levels[l], v'.levels[l]);
      }
    }
    forall l | 0 <= l < NUM_LEVELS
      ensures EntriesOf(v'.levels[l]) == EntriesOf(v.levels[l]) + if l == level then ToSet(f.entries) else {}
    {
      FlushEntries(v, f, level, v', l);
    }
    FlushKeepsAge(v, f, level, v');
    forall e
      ensures e in AllEntries(v') <==> e in AllEntries(v) + ToSet(f.entries)
    {
      if e in ToSet(f.entries) {
        assert e in EntriesOf(v'.levels[level]);
      }
      if e in AllEntries(v) {
        var l :| 0 <= l < |v.levels| && e in EntriesOf(v.levels[l]);
        assert e in EntriesOf(v'.levels[l]);
      }
    }
  }

  lemma FlushKeepsAge(v: Version, f: File, level: nat, v': Version)
    requires LevelsByAge(v) && GoodFlush(v, f, level) && |v'.levels| == NUM_LEVELS
    requires forall l :: 0 <= l < NUM_LEVELS ==>
               EntriesOf(v'.levels[l]) == EntriesOf(v.levels[l]) + if l == level then ToSet(f.entries) else {}
    ensures LevelsByAge(v')
  {
    hide LevelInv;
    forall l, m | 0 <= l < m < |v'.levels|
      ensures Newer(EntriesOf(v'.levels[l]), EntriesOf(v'.levels[m]))
    {
      assert Newer(EntriesOf(v.levels[l]), EntriesOf(v.levels[m]));
      if l == level {
        assert EntriesOf(v.levels[m]) <= AllEntries(v);
      } else if m == level {
        NothingInCommon(v, f, level, l);
      }
    }
  }

  lemma NothingInCommon(v: Version, f: File, level: nat, l: nat)
    requires GoodFlush(v, f, level) && l <= level && level > 0
    ensures forall e, d :: e in EntriesOf(v.levels[l]) && d in f.entries ==> e.key.user != d.key.user
  {
    hide ValidFile;
    forall e, d | e in EntriesOf(v.levels[l]) && d in f.entries
      ensures e.key.user != d.key.user
    {
      var g :| g in v.levels[l] && e in g.entries;
      assert LevelInv(l == 0, v.levels[l]);
      WithinFile(g, e);
      WithinFile(f, d);
      assert NoOverlap(v, l, f.smallest.user, f.largest.user);
    }
  }

  // ----- Trivial moves -----

  /** A trivial move: one file goes down a level, none is there to meet it. */
  function Move(level: nat, f: File): Shift {
    Shift(level, [f], [], [f])
  }

  lemma MoveIsGoodShift(v: Version, level: nat, f: File)
    requires EachLevelInv(v) && level + 1 < NUM_LEVELS && f in v.levels[level]
    requires level == 0 ==> TakesAll(v.levels[0], [f])
    requires IsOverlapOf(v.levels[level + 1], [f], [])
    requires forall g :: g in v.levels[level + 1] ==> g.number != f.number
    ensures GoodShift(v, Move(level, f))
  {
    hide ValidFile;
    assert LevelInv(level == 0, v.levels[level]);
    assert ValidFile(f);
  }

  lemma MoveKeepsEntries(v: Version, level: nat, f: File, v': Version)
    requires GoodShift(v, Move(level, f)) && Shifted(v, Move(level, f), v')
    ensures AllEntries(v') == AllEntries(v)
  {
    hide GoodShift, Shifted, AllEntries;
    forall e
      ensures e in AllEntries(v') <==> e in AllEntries(v)
    {
      ShiftEntries(v, Move(level, f), v', e);
      assert EntriesOf([]) == {};
    }
  }

  /** Lookups in `v` are right: stopping at the first level with a hit finds the newest entry. */
  ghost predicate LookupsRight(v: Version) {
    forall user, s, r :: LayeredNewest(v, user, s, r) ==> IsNewest(AllEntries(v), user, s, r)
  }

  /** A move or a compaction leaves lookups right exactly when it carries no entry past an older one
      of its user key. The code does not check for this. */
  lemma ShiftIsSafeIff(v: Version, sh: Shift, v': Version)
    requires Inv(v) && GoodShift(v, sh) && Shifted(v, sh, v')
    ensures LookupsRight(v') <==> !Overtaken(v, sh)
    ensures Inv(v') <==> !Overtaken(v, sh)
  {
    hide LevelInv, LevelsByAge, AllEntries, GoodShift, Shifted, LayeredNewest, IsNewest, EachLevelInv;
    ShiftSizes(v, sh);
    ShiftKeepsLevels(v, sh, v');
    if Overtaken(v, sh) {
      var e, d :| e in EntriesOf(sh.outs) && StaysAt(v, sh, sh.level, d) && e.key.user == d.key.user && d.key.sn < e.key.sn;
      OvertakingGoesWrong(v, sh, v', e, d);
    } else {
      ShiftKeepsAge(v, sh, v');
    }
    if Inv(v') {
      forall user, s, r | LayeredNewest(v', user, s, r)
        ensures IsNewest(AllEntries(v'), user, s, r)
      {
        LayeredIsFlat(v', user, s, r);
      }
    }
  }

  /** A lookup at the overtaking entry's number stops at the older entry left above it. */
  lemma OvertakingGoesWrong(v: Version, sh: Shift, v': Version, e: Entry, d: Entry)
    requires Inv(v) && GoodShift(v, sh) && Shifted(v, sh, v')
    requires e in EntriesOf(sh.outs) && StaysAt(v, sh, sh.level, d) && e.key.user == d.key.user && d.key.sn < e.key.sn
    ensures !LookupsRight(v')
  {
    hide LevelInv, LevelsByAge, GoodShift, Shifted, AllEntries, LayeredNewest, StaysAt;
    ShiftSizes(v, sh);
    ShiftedSizes(v, sh, v');
    OutsAreInputs(v, sh);
    ShiftEntries(v, sh, v', e);
    StaysIsKept(v, sh, v', sh.level, d);
    var user, s := e.key.user, e.key.sn;
    var r := LayeredExists(v', user, s);
    if IsNewest(AllEntries(v'), user, s, r) {
      assert Visible(e, user, s);
      assert r.Some? && r.value.key.sn == s;
      var l := HitAbove(v', user, s, r.value, sh.level, d);
      EntryWas(v, sh, v', l, r.value);
      InputAge(v, sh, l, r.value, e);
    }
  }

  /** A trivial move is safe exactly when no file left behind continues the last user key of the one
      moved. */
  lemma MoveIsSafeIff(v: Version, level: nat, f: File, v': Version)
    requires Inv(v) && GoodShift(v, Move(level, f)) && Shifted(v, Move(level, f), v')
    ensures LookupsRight(v') <==> CleanCut(v.levels[level], [f])
    ensures Inv(v') <==> CleanCut(v.levels[level], [f])
  {
    hide LevelInv, LevelsByAge, AllEntries, Shifted, IsOverlapOf, TakesAll, CleanCut, LookupsRight, Inv;
    var sh := Move(level, f);
    assert LevelsByAge(v) by { InvGives(v); }
    ShiftIsSafeIff(v, sh, v');
    if CleanCut(v.levels[level], [f]) {
      CleanCutIsEnough(v, sh);
    } else {
      var g := NotClean(v.levels[level], f);
      MoveOvertakes(v, level, f, g);
    }
  }

  lemma InvGives(v: Version)
    requires Inv(v)
    ensures EachLevelInv(v) && LevelsByAge(v)
  {
  }

  lemma NotClean(files: seq<File>, f: File) returns (g: File)
    requires !CleanCut(files, [f])
    ensures g in files && g != f && Continues(f, g)
  {
    g :| g in files && g !in [f] && Continues(f, g);
  }

  lemma MoveOvertakes(v: Version, level: nat, f: File, g: File)
    requires GoodShift(v, Move(level, f)) && g in v.levels[level] && g != f && Continues(f, g)
    ensures Overtaken(v, Move(level, f))
  {
    hide LevelInv, IsOverlapOf, TakesAll;
    assert LevelInv(level == 0, v.levels[level]);
    ValidInLevel(level == 0, v.levels[level], f);
    ValidInLevel(level == 0, v.levels[level], g);
    var last, first := f.entries[|f.entries| - 1], g.entries[0];
    assert last in f.entries && first in g.entries && f in [f];
    assert last in EntriesOf([f]) && StaysAt(v, Move(level, f), level, first);
  }

  lemma LayeredExists(v: Version, user: UserKey, s: nat) returns (r: Option<Entry>)
    ensures LayeredNewest(v, user, s, r)
  {
    var l := 0;
    while l < |v.levels|
      invariant l <= |v.levels| && NothingAbove(v, l, user, s)
    {
      r := NewestExists(EntriesOf(v.levels[l]), user, s);
      if r.Some? {
        return;
      }
      l := l + 1;
    }
    r := None;
  }

  /** A lookup stops no later than the first level that has a visible entry. */
  lemma HitAbove(v: Version, user: UserKey, s: nat, e: Entry, level: nat, first: Entry) returns (l: nat)
    requires LayeredNewest(v, user, s, Some(e)) && level < |v.levels|
    requires first in EntriesOf(v.levels[level]) && Visible(first, user, s)
    ensures l <= level && e in EntriesOf(v.levels[l]) && Visible(e, user, s)
  {
    l :| 0 <= l < |v.levels| && NothingAbove(v, l, user, s) && IsNewest(EntriesOf(v.levels[l]), user, s, Some(e));
  }

  // ----- Runs -----

  /** The store and its history: everything ever written, and the highest oldest-snapshot any
      compaction has worked with. */
  datatype Db = Db(v: Version, written: set<Entry>, horizon: nat)

  const EMPTY := Db(Version(seq(NUM_LEVELS, _ => [])), {}, 0)

  datatype Event =
    | Flush(f: File, at: nat)
    | MoveDown(level: nat, f: File)
    | Compact(sh: Shift, input: seq<Entry>, snap: nat)

  ghost predicate Step(a: Db, ev: Event, b: Db) {
    match ev
    case Flush(f, at) =>
      GoodFlush(a.v, f, at) && Flushed(a.v, f, at, b.v) && Newer(ToSet(f.entries), a.written) &&
      b.written == a.written + ToSet(f.entries) && b.horizon == a.horizon
    case MoveDown(level, f) =>
      GoodShift(a.v, Move(level, f)) && Shifted(a.v, Move(level, f), b.v) &&
      b.written == a.written && b.horizon == a.horizon
    case Compact(sh, input, snap) =>
      GoodShift(a.v, sh) && Shifted(a.v, sh, b.v) && GoodWork(a.v, sh, input, snap) &&
      b.written == a.written && b.horizon == Later(snap, a.horizon)
  }

  function Later(snap: nat, horizon: nat): nat {
    if snap > horizon then snap else horizon
  }

  /** What makes an event safe, seen in the state before it. A flush always is. A move must leave no
      file that continues the one moved. A compaction must carry nothing past an older entry of its
      user key and expose no read at the horizon. */
  ghost predicate Harmless(a: Db, ev: Event) {
    match ev
    case Flush(f, at) => true
    case MoveDown(level, f) => level < |a.v.levels| && CleanCut(a.v.levels[level], [f])
    case Compact(sh, input, snap) => !Overtaken(a.v, sh) && ExposesNothing(a.v, sh, input, snap, Later(snap, a.horizon))
  }

  ghost predicate ExposesNothing(v: Version, sh: Shift, input: seq<Entry>, snap: nat, h: nat) {
    sh.level + 1 < |v.levels| && forall user, i: nat, o :: !Exposed(v, sh, input, snap, user, h, i, o)
  }

  /** Readers at or above the horizon see exactly what was written. */
  ghost predicate DbOk(db: Db) {
    && Inv(db.v) && Unique(db.written) && AllEntries(db.v) <= db.written
    && forall user, s :: s >= db.horizon ==> SameReads(db.written, AllEntries(db.v), user, s)
  }

  lemma EmptyIsOk()
    ensures DbOk(EMPTY)
  {
    assert forall l :: 0 <= l < NUM_LEVELS ==> EntriesOf(EMPTY.v.levels[l]) == {};
    assert AllEntries(EMPTY.v) == {};
  }

  /** Adding entries newer than both sides keeps two sets of entries alike to readers. */
  lemma NewerKeepsReads(a: set<Entry>, b: set<Entry>, m: set<Entry>, user: UserKey, s: nat)
    requires Unique(a + m) && Unique(b + m) && Newer(m, a) && Newer(m, b) && SameReads(a, b, user, s)
    ensures SameReads(a + m, b + m, user, s)
  {
    var n := NewestExists(m, user, s);
    if n.Some? {
      assert IsNewest(a + m, user, s, n) && IsNewest(b + m, user, s, n);
      ReadsForward(a + m, b + m, user, s, n, n);
    } else {
      var r := NewestExists(a, user, s);
      assert Reads(a, user, s, Shows(r));
      assert Reads(b, user, s, Shows(r));
      var r' :| IsNewest(b, user, s, r') && Shows(r') == Shows(r);
      assert IsNewest(a + m, user, s, r) && IsNewest(b + m, user, s, r');
      ReadsForward(a + m, b + m, user, s, r, r');
    }
  }

  lemma NewerUnique(a: set<Entry>, f: File)
    requires Unique(a) && ValidFile(f) && Newer(ToSet(f.entries), a)
    ensures Unique(a + ToSet(f.entries))
  {
    forall x, y | x in a + ToSet(f.entries) && y in a + ToSet(f.entries) && x.key.user == y.key.user && x.key.sn == y.key.sn
      ensures x == y
    {
      if x in ToSet(f.entries) && y in ToSet(f.entries) {
        UniqueInFile(f, x, y);
      }
    }
  }

  lemma FlushKeepsOk(a: Db, f: File, at: nat, b: Db)
    requires DbOk(a) && Step(a, Flush(f, at), b)
    ensures DbOk(b)
  {
    hide LevelInv, LevelsByAge, AllEntries, Unique, SameReads, Newer, InOrder;
    FlushKeepsInv(a.v, f, at, b.v);
    NewerUnique(a.written, f);
    InvUnique(b.v);
    forall user, s | s >= b.horizon
      ensures SameReads(b.written, AllEntries(b.v), user, s)
    {
      NewerKeepsReads(a.written, AllEntries(a.v), ToSet(f.entries), user, s);
    }
  }

  lemma CompactionIsOkIff(a: Db, sh: Shift, input: seq<Entry>, snap: nat, b: Db)
    requires DbOk(a) && Step(a, Compact(sh, input, snap), b)
    ensures DbOk(b) <==> Harmless(a, Compact(sh, input, snap))
  {
    hide Inv, GoodShift, Shifted, GoodWork, AllEntries, Unique, SameReads, Overtaken, Exposed;
    var h := b.horizon;
    ShiftSizes(a.v, sh);
    ShiftIsSafeIff(a.v, sh, b.v);
    NothingNew(a.v, sh, b.v);
    forall user, s | s >= h
      ensures SameReads(b.written, AllEntries(b.v), user, s) <==> SameReads(AllEntries(a.v), AllEntries(b.v), user, s)
      ensures SameReads(AllEntries(a.v), AllEntries(b.v), user, s) <==>
                !exists i: nat, o :: Exposed(a.v, sh, input, snap, user, s, i, o)
    {
      SameReadsTrans(a.written, AllEntries(a.v), AllEntries(b.v), user, s);
      CompactionIsSafeIff(a.v, sh, input, snap, b.v, user, s);
    }
    forall user, s, i: nat, o | s >= h && Exposed(a.v, sh, input, snap, user, s, i, o)
      ensures Exposed(a.v, sh, input, snap, user, h, i, o)
    {
      ExposedEarlier(a.v, sh, input, snap, user, h, s, i, o);
    }
    if DbOk(b) {
      forall user, i: nat, o
        ensures !Exposed(a.v, sh, input, snap, user, h, i, o)
      {
        assert SameReads(b.written, AllEntries(b.v), user, h);
      }
    }
  }

  /** One step of the code from a state that is right leads to one that is right exactly when the
      event is harmless. */
  lemma StepIsOkIff(a: Db, ev: Event, b: Db)
    requires DbOk(a) && Step(a, ev, b)
    ensures DbOk(b) <==> Harmless(a, ev)
  {
    hide Inv, GoodShift, Shifted, GoodWork, GoodFlush, Flushed, AllEntries, Unique, SameReads, CleanCut;
    match ev
    case Flush(f, at) =>
      FlushKeepsOk(a, f, at, b);
    case MoveDown(level, f) =>
      ShiftSizes(a.v, Move(level, f));
      MoveIsSafeIff(a.v, level, f, b.v);
      MoveKeepsEntries(a.v, level, f, b.v);
    case Compact(sh, input, snap) =>
      CompactionIsOkIff(a, sh, input, snap, b);
  }

  lemma SameReadsTrans(a: set<Entry>, b: set<Entry>, c: set<Entry>, user: UserKey, s: nat)
    requires SameReads(a, b, user, s)
    ensures SameReads(a, c, user, s) <==> SameReads(b, c, user, s)
  {
  }

  /** A run: states connected by events. */
  ghost predicate IsRun(dbs: seq<Db>, evs: seq<Event>) {
    |dbs| == |evs| + 1 && forall i :: 0 <= i < |evs| ==> Step(dbs[i], evs[i], dbs[i + 1])
  }

  /** The first `n` events of a run are harmless where they happen. */
  ghost predicate HarmlessUntil(dbs: seq<Db>, evs: seq<Event>, n: nat)
    requires n <= |evs| <= |dbs|
  {
    forall i :: 0 <= i < n ==> Harmless(dbs[i], evs[i])
  }

  /** Over a run of the code from the empty store, every state so far is right exactly when every
      event so far was harmless. */
  lemma {:induction false} RunIsOkIff(dbs: seq<Db>, evs: seq<Event>, n: nat)
    requires IsRun(dbs, evs) && dbs[0] == EMPTY && n < |dbs|
    ensures (forall i :: 0 <= i <= n ==> DbOk(dbs[i])) <==> HarmlessUntil(dbs, evs, n)
    decreases n
  {
    hide DbOk, Harmless, Step;
    if n == 0 {
      EmptyIsOk();
    } else {
      RunIsOkIff(dbs, evs, n - 1);
      if DbOk(dbs[n - 1]) {
        StepIsOkIff(dbs[n - 1], evs[n - 1], dbs[n]);
      }
    }
  }

  /** After any run from the empty store of events harmless where they happen, a layered lookup at
      or above the horizon shows what the newest of all entries ever written shows. */
  lemma RunKeepsReads(dbs: seq<Db>, evs: seq<Event>, n: nat, user: UserKey, s: nat, r: Option<Entry>)
    requires IsRun(dbs, evs) && dbs[0] == EMPTY && n < |dbs| && HarmlessUntil(dbs, evs, n)
    ensures DbOk(dbs[n])
    ensures s >= dbs[n].horizon && LayeredNewest(dbs[n].v, user, s, r) ==> Reads(dbs[n].written, user, s, Shows(r))
  {
    hide LevelInv, LevelsByAge, AllEntries, Unique, Reads, IsRun, HarmlessUntil;
    RunIsOkIff(dbs, evs, n);
    if s >= dbs[n].horizon && LayeredNewest(dbs[n].v, user, s, r) {
      LayeredIsFlat(dbs[n].v, user, s, r);
      ReadsOfNewest(AllEntries(dbs[n].v), user, s, r);
      assert SameReads(dbs[n].written, AllEntries(dbs[n].v), user, s);
    }
  }

  lemma ReadsOfNewest(es: set<Entry>, user: UserKey, s: nat, r: Option<Entry>)
    requires IsNewest(es, user, s, r)
    ensures Reads(es, user, s, Shows(r))
  {
  }

  // ----- What goes wrong without a clean cut at the next level -----

  const LIVE := Entry(IKey(1.0, 7, Value), [1])
  const STALE := Entry(IKey(1.0, 3, Value), [2])
  const GONE := Entry(IKey(2.0, 5, Deletion), [])
  const OLD := Entry(IKey(2.0, 4, Value), [3])

  const UPPER := File(10, 1, LIVE.key, LIVE.key, [LIVE])
  const TAKEN := File(11, 1, STALE.key, GONE.key, [STALE, GONE])
  const LEFT := File(12, 1, OLD.key, OLD.key, [OLD])
  const OUTPUT := File(13, 1, LIVE.key, LIVE.key, [LIVE])

  const BEFORE := Version([[], [UPPER], [TAKEN, LEFT], [], [], [], []])
  const AFTER := Version([[], [], [OUTPUT, LEFT], [], [], [], []])
  const BAD := Shift(1, [UPPER], [TAKEN], [OUTPUT])

  lemma BadInput()
    ensures GoodWork(BEFORE, BAD, [LIVE, STALE, GONE], 7)
  {
    var input := [LIVE, STALE, GONE];
    assert Kept(BEFORE, 1, 7, input, 1) == [LIVE];
    assert Kept(BEFORE, 1, 7, input, 2) == [LIVE];
    assert Kept(BEFORE, 1, 7, input, 3) == [LIVE];
    assert ToSet(input) == {LIVE, STALE, GONE};
    assert EntriesOf([UPPER]) == {LIVE} && EntriesOf([TAKEN]) == {STALE, GONE} by {
      assert STALE in TAKEN.entries && GONE in TAKEN.entries && TAKEN in [TAKEN];
      assert LIVE in UPPER.entries && UPPER in [UPPER];
    }
    assert EntriesOf([OUTPUT]) == {LIVE} by { assert LIVE in OUTPUT.entries && OUTPUT in [OUTPUT]; }
    assert ToSet([LIVE]) == {LIVE};
  }

  lemma BadFiles()
    ensures LevelInv(false, [UPPER]) && LevelInv(false, [TAKEN, LEFT]) && LevelInv(false, []) && LevelInv(true, [])
    ensures ValidFile(OUTPUT) && InOrder([OUTPUT, LEFT])
  {
  }

  lemma BadSpans()
    ensures IsOverlapOf([TAKEN, LEFT], [UPPER], [TAKEN])
  {
    assert UPPER in [UPPER] && Spans([UPPER], 1.0, 1.0);
    assert Overlapping([TAKEN, LEFT], Some(1.0), Some(1.0)) == [TAKEN];
  }

  lemma BadEntries()
    ensures EntriesOf([UPPER]) == {LIVE} && EntriesOf([TAKEN]) == {STALE, GONE} && EntriesOf([OUTPUT]) == {LIVE}
    ensures EntriesOf([TAKEN, LEFT]) == {STALE, GONE, OLD} && EntriesOf([OUTPUT, LEFT]) == {LIVE, OLD}
  {
    assert STALE in TAKEN.entries && GONE in TAKEN.entries && LIVE in UPPER.entries && LIVE in OUTPUT.entries && OLD in LEFT.entries;
    assert UPPER in [UPPER] && TAKEN in [TAKEN] && OUTPUT in [OUTPUT];
    assert TAKEN in [TAKEN, LEFT] && LEFT in [TAKEN, LEFT] && OUTPUT in [OUTPUT, LEFT] && LEFT in [OUTPUT, LEFT];
  }

  lemma BadShape()
    ensures Inv(BEFORE) && GoodShift(BEFORE, BAD) && Shifted(BEFORE, BAD, AFTER)
  {
    hide LevelInv, ValidFile, IsOverlapOf, InOrder;
    BadFiles();
    BadSpans();
    BadEntries();
    assert EntriesOf([]) == {};
    assert EachLevelInv(BEFORE);
  }

  /** With inputs cut off in the middle of a user key at the next level, a compaction can bring a
      deleted value back: nothing is overtaken, but the deletion hides a value left behind, so the
      read that said "deleted" finds the old value afterwards. */
  lemma DeletionCanResurface()
    ensures Inv(BEFORE) && GoodShift(BEFORE, BAD) && Shifted(BEFORE, BAD, AFTER)
    ensures GoodWork(BEFORE, BAD, [LIVE, STALE, GONE], 7)
    ensures CleanCut(BEFORE.levels[1], [UPPER]) && !CleanCut(BEFORE.levels[2], [TAKEN]) && !Overtaken(BEFORE, BAD)
    ensures Exposed(BEFORE, BAD, [LIVE, STALE, GONE], 7, 2.0, 7, 2, OLD)
    ensures Reads(AllEntries(BEFORE), 2.0, 7, None) && Reads(AllEntries(AFTER), 2.0, 7, Some([3]))
  {
    hide LevelInv, ValidFile, IsOverlapOf, InOrder, Inv, GoodShift, Shifted, GoodWork, Reads;
    BadShape();
    BadInput();
    assert Continues(TAKEN, LEFT);
    BadReads();
    BadLeft();
  }

  /** Moving down a file whose last user key goes on in the next file is a move the code makes. It
      hides the deletion behind the value it deleted. */
  lemma MoveCanMislead()
    ensures Inv(BEFORE) && GoodShift(BEFORE, Move(2, TAKEN)) && !CleanCut(BEFORE.levels[2], [TAKEN])
    ensures Overtaken(BEFORE, Move(2, TAKEN))
  {
    hide LevelInv, ValidFile, GoodShift, Inv;
    BadShape();
    assert EachLevelInv(BEFORE) by { InvGives(BEFORE); }
    assert IsOverlapOf([], [TAKEN], []) by { assert TAKEN in [TAKEN] && Spans([TAKEN], 1.0, 2.0); }
    MoveIsGoodShift(BEFORE, 2, TAKEN);
    assert LEFT in BEFORE.levels[2] && Continues(TAKEN, LEFT);
    MoveOvertakes(BEFORE, 2, TAKEN, LEFT);
  }

  lemma BadLeft()
    ensures !Overtaken(BEFORE, BAD) && NewestLeft(BEFORE, BAD, 2.0, 5, OLD)
  {
    assert LEFT in BEFORE.levels[2] && OLD in LEFT.entries && LEFT !in BAD.in1;
    assert StaysAt(BEFORE, BAD, 2, OLD);
    forall e
      ensures !StaysAt(BEFORE, BAD, 1, e) && (StaysAt(BEFORE, BAD, 2, e) ==> e == OLD)
    {
    }
  }

  lemma BadReads()
    ensures IsNewest(AllEntries(BEFORE), 2.0, 7, Some(GONE))
    ensures Reads(AllEntries(BEFORE), 2.0, 7, None) && Reads(AllEntries(AFTER), 2.0, 7, Some([3]))
  {
    BadEntries();
    assert EntriesOf([]) == {};
    assert GONE in EntriesOf(BEFORE.levels[2]) && OLD in EntriesOf(AFTER.levels[2]);
    assert forall e :: e in AllEntries(BEFORE) ==> e in {LIVE, STALE, GONE, OLD};
    assert forall e :: e in AllEntries(AFTER) ==> e in {LIVE, OLD};
    assert IsNewest(AllEntries(BEFORE), 2.0, 7, Some(GONE));
    assert IsNewest(AllEntries(AFTER), 2.0, 7, Some(OLD));
  }
}
