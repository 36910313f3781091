/** The version set as the code keeps it: the current version and the file-number counter, changed
    by flushing a memtable, moving a file down or compacting. Every method is one step of a run. */
module VersionSets {
  import opened Keys
  import opened Files
  import opened Versions
  import opened Builder
  import opened Compaction
  import opened Lsm
  import opened Store

  // ----- From an edit to the step it makes -----

  lemma SavedMembers(base: seq<File>, e: Edit, level: nat, files: seq<File>)
    requires NumbersFresh(Numbers(ToSet(base)), e.added, level)
    requires IsSaved(base, ApplyLevel(NO_EDIT, e, level), files)
    ensures InOrder(files)
    ensures forall f :: f in files <==> (f in base && f.number !in DeletedAt(e, level)) || f in AddedAt(e.added, level)
  {
    EditAlone(base, e, level);
    assert forall f :: f in files <==> f in ToSet(files);
  }

  function AddAt(level: nat, files: seq<File>): seq<(nat, File)> {
    seq(|files|, i requires 0 <= i < |files| => (level, files[i]))
  }

  lemma AddedAtIs(level: nat, files: seq<File>, l: nat)
    ensures AddedAt(AddAt(level, files), l) == if l == level then ToSet(files) else {}
  {
    var added := AddAt(level, files);
    forall f
      ensures f in AddedAt(added, l) <==> l == level && f in files
    {
      if l == level && f in files {
        var i :| 0 <= i < |files| && files[i] == f;
        assert added[i] in added && added[i].0 == l;
      }
    }
  }

  /** The edit of a compaction: delete its inputs, add its outputs one level down. */
  function InputDeletions(sh: Shift): set<(nat, nat)> {
    (set f | f in sh.in0 :: (sh.level, f.number)) + (set f | f in sh.in1 :: (sh.level + 1, f.number))
  }

  function ShiftEdit(sh: Shift): Edit {
    Edit(InputDeletions(sh), AddAt(sh.level + 1, sh.outs))
  }

  lemma DeletedMeansInput(files: seq<File>, inputs: seq<File>, zero: bool, f: File)
    requires LevelInv(zero, files) && SubList(inputs, files) && f in files
    ensures f.number in Numbers(ToSet(inputs)) <==> f in inputs
  {
    LevelInvGives(zero, files);
  }

  lemma DeletionsAt(sh: Shift, l: nat)
    ensures DeletedAt(ShiftEdit(sh), l) ==
            (if l == sh.level then Numbers(ToSet(sh.in0)) else if l == sh.level + 1 then Numbers(ToSet(sh.in1)) else {})
  {
    forall n
      ensures n in DeletedAt(ShiftEdit(sh), l) <==>
                (l == sh.level && n in Numbers(ToSet(sh.in0))) || (l == sh.level + 1 && n in Numbers(ToSet(sh.in1)))
    {
      if l == sh.level && n in Numbers(ToSet(sh.in0)) {
        assert (l, n) in InputDeletions(sh);
      }
      if l == sh.level + 1 && n in Numbers(ToSet(sh.in1)) {
        assert (l, n) in InputDeletions(sh);
      }
    }
  }

  /** No file of the level after `sh.level` has the number of an output. */
  ghost predicate OutsUnused(v: Version, sh: Shift) {
    sh.level + 1 < |v.levels| &&
    (forall f, g :: f in v.levels[sh.level + 1] && g in sh.outs ==> f.number != g.number) &&
    DistinctNumbers(sh.outs)
  }

  lemma ShiftEditUnused(v: Version, sh: Shift)
    requires EachLevelInv(v) && OutsUnused(v, sh)
    ensures AddsUnused(v, ShiftEdit(sh))
  {
    hide LevelInv;
    var e := ShiftEdit(sh);
    forall d | d in e.deleted
      ensures d.0 < NUM_LEVELS
    {
    }
  }

  lemma ShiftApplied(v: Version, sh: Shift, v': Version)
    requires EachLevelInv(v) && OutsUnused(v, sh)
    requires SubList(sh.in0, v.levels[sh.level]) && SubList(sh.in1, v.levels[sh.level + 1])
    requires Applied(v, ShiftEdit(sh), v')
    ensures Shifted(v, sh, v')
  {
    hide LevelInv, IsSaved, ShiftEdit;
    ShiftEditUnused(v, sh);
    forall l | 0 <= l < NUM_LEVELS
      ensures LevelShifted(v.levels[l], sh, l, v'.levels[l])
    {
      assert LevelInv(l == 0, v.levels[l]);
      LevelApplied(v.levels[l], sh, l, v'.levels[l]);
    }
    forall l | 0 <= l < NUM_LEVELS && l != sh.level && l != sh.level + 1
      ensures ToSet(v'.levels[l]) == ToSet(v.levels[l])
    {
      assert LevelShifted(v.levels[l], sh, l, v'.levels[l]);
    }
    assert LevelShifted(v.levels[sh.level], sh, sh.level, v'.levels[sh.level]);
    assert LevelShifted(v.levels[sh.level + 1], sh, sh.level + 1, v'.levels[sh.level + 1]);
  }

  ghost predicate LevelShifted(base: seq<File>, sh: Shift, l: nat, files: seq<File>) {
    InOrder(files) &&
    forall f :: f in files <==>
      (f in base && (l == sh.level ==> f !in sh.in0) && (l == sh.level + 1 ==> f !in sh.in1)) ||
      (l == sh.level + 1 && f in sh.outs)
  }

  lemma LevelApplied(base: seq<File>, sh: Shift, l: nat, files: seq<File>)
    requires LevelInv(l == 0, base) && NumbersFresh(Numbers(ToSet(base)), ShiftEdit(sh).added, l)
    requires l == sh.level ==> SubList(sh.in0, base)
    requires l == sh.level + 1 ==> SubList(sh.in1, base)
    requires IsSaved(base, ApplyLevel(NO_EDIT, ShiftEdit(sh), l), files)
    ensures LevelShifted(base, sh, l, files)
  {
    hide LevelInv, NumbersFresh, IsSaved;
    SavedMembers(base, ShiftEdit(sh), l, files);
    AddedAtIs(sh.level + 1, sh.outs, l);
    DeletionsAt(sh, l);
    forall f | f in base
      ensures f.number in DeletedAt(ShiftEdit(sh), l) <==>
                (l == sh.level && f in sh.in0) || (l == sh.level + 1 && f in sh.in1)
    {
      if l == sh.level {
        DeletedMeansInput(base, sh.in0, l == 0, f);
      } else if l == sh.level + 1 {
        DeletedMeansInput(base, sh.in1, l == 0, f);
      }
    }
  }

  // ----- The outputs of a compaction -----

  lemma {:induction false} FlattenEntries(files: seq<File>)
    ensures ToSet(Flatten(files)) == EntriesOf(files)
  {
    if files != [] {
      var n := |files| - 1;
      FlattenEntries(files[..n]);
      assert files == files[..n] + [files[n]];
      assert EntriesOf(files) == EntriesOf(files[..n]) + ToSet(files[n].entries);
      assert ToSet(Flatten(files)) == ToSet(Flatten(files[..n])) + ToSet(files[n].entries);
    }
  }

  /** Consecutive slices of a sorted list are tables apart from each other. */
  lemma {:induction false} FlattenApart(files: seq<File>)
    requires ValidFiles(files) && Sorted(Flatten(files))
    ensures LevelOk(files)
  {
    if files != [] {
      var n := |files| - 1;
      var a, b := Flatten(files[..n]), files[n].entries;
      assert files == files[..n] + [files[n]];
      assert forall f :: f in files[..n] ==> f in files;
      assert Sorted(a) by { assert forall i :: 0 <= i < |a| ==> a[i] == (a + b)[i]; }
      FlattenApart(files[..n]);
      FlattenEntries(files[..n]);
      forall i | 0 <= i < n
        ensures Precedes(files[i].largest, files[n].smallest)
      {
        var f := files[..n][i];
        assert f in files && files[n] in files;
        var last := f.entries[|f.entries| - 1];
        assert last in f.entries && last in EntriesOf(files[..n]) && last in ToSet(a);
        var k :| 0 <= k < |a| && a[k] == last;
        assert (a + b)[k] == last && (a + b)[|a|] == b[0];
      }
    }
  }

  lemma GoodOutputs(v: Version, sh: Shift, input: seq<Entry>, snap: nat, firstNumber: nat)
    requires Sorted(input) && ToSet(input) == EntriesOf(sh.in0) + EntriesOf(sh.in1) && ValidFiles(sh.outs)
    requires Flatten(sh.outs) == Kept(v, sh.level, snap, input, |input|)
    requires forall i :: 0 <= i < |sh.outs| ==> sh.outs[i].number == firstNumber + i
    requires forall l, f :: 0 <= l < |v.levels| && f in v.levels[l] ==> f.number < firstNumber
    requires |v.levels| == NUM_LEVELS && sh.level + 1 < NUM_LEVELS
    ensures GoodWork(v, sh, input, snap) && OutsUnused(v, sh)
    ensures PairwiseApart(sh.outs) && NumbersTellApart(sh.outs) && EntriesOf(sh.outs) <= EntriesOf(sh.in0) + EntriesOf(sh.in1)
  {
    hide PairwiseApart, NumbersTellApart, LevelOk, Sorted, OutsUnused, ValidFiles;
    OutsAreUnused(v, sh, firstNumber);
    KeptIs(v, sh.level, snap, input, |input|);
    FlattenEntries(sh.outs);
    FlattenApart(sh.outs);
    forall e | e in EntriesOf(sh.outs)
      ensures e in ToSet(input)
    {
      assert e in ToSet(Flatten(sh.outs));
    }
    OutputsApart(sh.outs, firstNumber);
  }

  lemma OutsAreUnused(v: Version, sh: Shift, firstNumber: nat)
    requires forall i :: 0 <= i < |sh.outs| ==> sh.outs[i].number == firstNumber + i
    requires forall l, f :: 0 <= l < |v.levels| && f in v.levels[l] ==> f.number < firstNumber
    requires |v.levels| == NUM_LEVELS && sh.level + 1 < NUM_LEVELS
    ensures OutsUnused(v, sh)
  {
  }

  lemma OutputsApart(outs: seq<File>, firstNumber: nat)
    requires LevelOk(outs) && forall i :: 0 <= i < |outs| ==> outs[i].number == firstNumber + i
    ensures PairwiseApart(outs) && NumbersTellApart(outs)
  {
    forall f, g | f in outs && g in outs
      ensures f != g ==> Apart(f, g)
      ensures f.number == g.number ==> f == g
    {
      var i :| 0 <= i < |outs| && outs[i] == f;
      var j :| 0 <= j < |outs| && outs[j] == g;
      assert i < j || j < i || i == j;
    }
  }

  // ----- The version set -----

  ghost predicate NumbersBelow(v: Version, n: nat) {
    forall l, f :: 0 <= l < |v.levels| && f in v.levels[l] ==> f.number < n
  }

  /** A file number names one file of the version, at one level. */
  ghost predicate NumbersApart(v: Version) {
    forall l, m, f, g :: 0 <= l < |v.levels| && 0 <= m < |v.levels| && f in v.levels[l] && g in v.levels[m] ==>
      f.number == g.number ==> l == m && f == g
  }

  lemma FlushKeepsApart(v: Version, f: File, level: nat, v': Version, n: nat)
    requires NumbersApart(v) && NumbersBelow(v, f.number) && Flushed(v, f, level, v') && f.number < n
    ensures NumbersApart(v') && NumbersBelow(v', n)
  {
    forall l, g | 0 <= l < NUM_LEVELS && g in v'.levels[l]
      ensures g in v.levels[l] || (g == f && l == level)
    {
      assert g in ToSet(v'.levels[l]);
    }
  }

  /** Where a file of a shifted version comes from. */
  ghost predicate CameFrom(v: Version, sh: Shift, l: nat, f: File) {
    l < |v.levels| && ((f in v.levels[l] && (l == sh.level ==> f !in sh.in0)) || (f in sh.outs && l == sh.level + 1))
  }

  lemma ShiftKeepsApart(v: Version, sh: Shift, v': Version, n: nat, n': nat)
    requires NumbersApart(v) && NumbersBelow(v, n) && Shifted(v, sh, v') && n <= n'
    requires NumbersTellApart(sh.outs) && SubList(sh.in0, v.levels[sh.level])
    requires forall f :: f in sh.outs ==> f in sh.in0 || n <= f.number < n'
    ensures NumbersApart(v') && NumbersBelow(v', n')
  {
    hide Shifted, NumbersTellApart, SubList;
    ShiftedSizes(v, sh, v');
    forall l, g | 0 <= l < NUM_LEVELS && g in v'.levels[l]
      ensures CameFrom(v, sh, l, g) && g.number < n'
    {
      ShiftedFrom(v, sh, v', l, g);
      assert CameFrom(v, sh, l, g);
      BelowAfter(v, sh, n, n', l, g);
    }
    forall l, m, f, g | 0 <= l < NUM_LEVELS && 0 <= m < NUM_LEVELS && f in v'.levels[l] && g in v'.levels[m] && f.number == g.number
      ensures l == m && f == g
    {
      SameNumber(v, sh, n, l, f, m, g);
    }
  }

  lemma BelowAfter(v: Version, sh: Shift, n: nat, n': nat, l: nat, f: File)
    requires NumbersBelow(v, n) && n <= n' && sh.level + 1 < |v.levels| && SubList(sh.in0, v.levels[sh.level])
    requires forall f :: f in sh.outs ==> f in sh.in0 || n <= f.number < n'
    requires CameFrom(v, sh, l, f)
    ensures f.number < n'
  {
  }

  lemma SameNumber(v: Version, sh: Shift, n: nat, l: nat, f: File, m: nat, g: File)
    requires NumbersApart(v) && NumbersBelow(v, n) && sh.level + 1 < |v.levels|
    requires NumbersTellApart(sh.outs) && SubList(sh.in0, v.levels[sh.level])
    requires forall f :: f in sh.outs ==> f in sh.in0 || n <= f.number
    requires CameFrom(v, sh, l, f) && CameFrom(v, sh, m, g) && f.number == g.number
    ensures l == m && f == g
  {
  }

  class VersionSet {
    var current: Version
    var nextFileNumber: nat
    ghost var written: set<Entry>
    ghost var horizon: nat

    ghost function State(): Db
      reads this
    {
      Db(current, written, horizon)
    }

    ghost predicate Ok()
      reads this
    {
      DbOk(State()) && NumbersBelow(current, nextFileNumber) && NumbersApart(current)
    }

    constructor ()
      ensures Ok() && State() == EMPTY
    {
      current := Version(seq(NUM_LEVELS, _ => []));
      nextFileNumber := 2;
      written, horizon := {}, 0;
      new;
      EmptyIsOk();
    }

    method Get(user: UserKey, s: nat) returns (r: Option<Bytes>)
      requires Ok()
      ensures s >= horizon ==> Reads(written, user, s, r)
    {
      r := Versions.Get(current, user, s);
      assert s >= horizon ==> SameReads(written, AllEntries(current), user, s);
    }

    /** Save the immutable memtable as a table and install it. An empty one makes no table. */
    method CompactMemTable(mem: seq<Entry>, size: nat, maxGrandparentOverlap: nat)
      requires Ok() && Sorted(mem) && Newer(ToSet(mem), written)
      requires forall e :: e in mem ==> e.key.sn <= MAX_SEQUENCE
      modifies this
      ensures Ok()
      ensures mem == [] ==> State() == old(State())
      ensures mem != [] ==> exists f: File, at: nat :: f.entries == mem && Step(old(State()), Flush(f, at), State())
    {
      if mem == [] {
        return;
      }
      ghost var before := State();
      var f := File(nextFileNumber, size, mem[0].key, mem[|mem| - 1].key, mem);
      nextFileNumber := nextFileNumber + 1;
      assert ValidFile(f);
      var level := PickLevelForMemTableOutput(current, f.smallest.user, f.largest.user, maxGrandparentOverlap);
      FlushIsGood(before.v, f, level, written);
      var v := LogAndApply(current, Edit({}, [(level, f)]));
      FlushApplied(before.v, f, level, v);
      current := v;
      written := written + ToSet(mem);
      assert Step(before, Flush(f, level), State());
      StepIsOkIff(before, Flush(f, level), State());
      FlushKeepsApart(before.v, f, level, current, nextFileNumber);
    }

    /** A background compaction that is a trivial move. The version set stays right exactly when the
        move is harmless where it happens. */
    method MoveFile(level: nat, f: File)
      requires Ok() && level + 1 < NUM_LEVELS && f in current.levels[level]
      requires level == 0 ==> TakesAll(current.levels[0], [f])
      requires IsOverlapOf(current.levels[level + 1], [f], [])
      modifies this
      ensures Step(old(State()), MoveDown(level, f), State())
      ensures Ok() <==> Harmless(old(State()), MoveDown(level, f))
    {
      hide DbOk, LevelInv, IsOverlapOf, TakesAll, Harmless, Applied, Step, AddsUnused, NumbersApart, NumbersBelow;
      ghost var before := State();
      OkGives(before);
      MoveReady(before.v, level, f);
      var v := LogAndApply(current, Edit({(level, f.number)}, [(level + 1, f)]));
      MoveInstalled(before, level, f, v, nextFileNumber);
      current := v;
    }

    /** A compaction of the chosen inputs: do the work on their merge and install the outputs. The
        version set stays right exactly when the compaction is harmless where it happens. */
    method CompactFiles(level: nat, in0: seq<File>, in1: seq<File>, grandparents: seq<File>, input: seq<Entry>, snap: nat,
                        fileSize: seq<Entry> -> nat, maxOutputSize: nat, maxGrandparentOverlap: nat)
      requires Ok() && level + 1 < NUM_LEVELS && SubList(in0, current.levels[level])
      requires level == 0 ==> TakesAll(current.levels[0], in0)
      requires IsOverlapOf(current.levels[level + 1], in0, in1)
      requires Sorted(input) && ToSet(input) == EntriesOf(in0) + EntriesOf(in1) && snap < MAX_SEQUENCE
      modifies this
      ensures exists outs :: Step(old(State()), Compact(Shift(level, in0, in1, outs), input, snap), State()) &&
                (Ok() <==> Harmless(old(State()), Compact(Shift(level, in0, in1, outs), input, snap)))
    {
      hide DbOk, LevelInv, IsOverlapOf, TakesAll, Harmless, Applied, Step, AddsUnused, GoodWork, GoodShift, Sorted, NumbersApart, NumbersBelow;
      ghost var before := State();
      OkGives(before);
      InputsInRange(current, level, in0, in1, input);
      var job := new CompactionJob(current, level, grandparents, maxGrandparentOverlap);
      var outs := job.DoCompactionWork(input, snap, nextFileNumber, fileSize, maxOutputSize);
      ghost var sh := Shift(level, in0, in1, outs);
      CompactReady(before.v, sh, input, snap, nextFileNumber);
      var v := LogAndApply(current, ShiftEdit(Shift(level, in0, in1, outs)));
      CompactInstalled(before, sh, input, snap, v, nextFileNumber);
      nextFileNumber := nextFileNumber + |outs|;
      current := v;
      horizon := Later(snap, horizon);
      assert Step(before, Compact(sh, input, snap), State());
    }
  }

  lemma OkGives(db: Db)
    requires DbOk(db)
    ensures EachLevelInv(db.v)
  {
  }

  lemma MoveReady(v: Version, level: nat, f: File)
    requires EachLevelInv(v) && level + 1 < NUM_LEVELS && f in v.levels[level]
    requires level == 0 ==> TakesAll(v.levels[0], [f])
    requires IsOverlapOf(v.levels[level + 1], [f], [])
    requires NumbersApart(v)
    ensures GoodShift(v, Move(level, f)) && OutsUnused(v, Move(level, f))
    ensures AddsUnused(v, Edit({(level, f.number)}, [(level + 1, f)]))
  {
    hide LevelInv, IsOverlapOf, TakesAll, AddsUnused;
    MoveIsGoodShift(v, level, f);
    ShiftEditUnused(v, Move(level, f));
    MoveEdit(level, f);
  }

  lemma MoveInstalled(before: Db, level: nat, f: File, v: Version, n: nat)
    requires DbOk(before) && GoodShift(before.v, Move(level, f)) && OutsUnused(before.v, Move(level, f))
    requires NumbersBelow(before.v, n) && NumbersApart(before.v)
    requires Applied(before.v, Edit({(level, f.number)}, [(level + 1, f)]), v)
    ensures Step(before, MoveDown(level, f), before.(v := v))
    ensures DbOk(before.(v := v)) <==> Harmless(before, MoveDown(level, f))
    ensures NumbersBelow(v, n) && NumbersApart(v)
  {
    hide DbOk, LevelInv, IsOverlapOf, TakesAll, Harmless, Applied, LevelsByAge;
    OkGives(before);
    MoveEdit(level, f);
    ShiftApplied(before.v, Move(level, f), v);
    StepIsOkIff(before, MoveDown(level, f), before.(v := v));
    ShiftKeepsApart(before.v, Move(level, f), v, n, n);
  }

  lemma CompactReady(v: Version, sh: Shift, input: seq<Entry>, snap: nat, n: nat)
    requires EachLevelInv(v) && sh.level + 1 < NUM_LEVELS && SubList(sh.in0, v.levels[sh.level])
    requires sh.level == 0 ==> TakesAll(v.levels[0], sh.in0)
    requires IsOverlapOf(v.levels[sh.level + 1], sh.in0, sh.in1)
    requires Sorted(input) && ToSet(input) == EntriesOf(sh.in0) + EntriesOf(sh.in1) && ValidFiles(sh.outs)
    requires Flatten(sh.outs) == Kept(v, sh.level, snap, input, |input|)
    requires forall i :: 0 <= i < |sh.outs| ==> sh.outs[i].number == n + i
    requires NumbersBelow(v, n)
    ensures GoodShift(v, sh) && GoodWork(v, sh, input, snap) && OutsUnused(v, sh)
    ensures AddsUnused(v, ShiftEdit(sh))
  {
    hide LevelInv, IsOverlapOf, TakesAll, Sorted, GoodWork, AddsUnused;
    GoodOutputs(v, sh, input, snap, n);
    ShiftEditUnused(v, sh);
  }

  lemma CompactInstalled(before: Db, sh: Shift, input: seq<Entry>, snap: nat, v: Version, n: nat)
    requires DbOk(before) && GoodShift(before.v, sh) && GoodWork(before.v, sh, input, snap) && OutsUnused(before.v, sh)
    requires SubList(sh.in1, before.v.levels[sh.level + 1])
    requires NumbersBelow(before.v, n) && NumbersApart(before.v)
    requires forall i :: 0 <= i < |sh.outs| ==> sh.outs[i].number == n + i
    requires Applied(before.v, ShiftEdit(sh), v)
    ensures var after := Db(v, before.written, Later(snap, before.horizon));
            Step(before, Compact(sh, input, snap), after) && (DbOk(after) <==> Harmless(before, Compact(sh, input, snap)))
    ensures NumbersBelow(v, n + |sh.outs|) && NumbersApart(v)
  {
    hide DbOk, LevelInv, IsOverlapOf, TakesAll, Harmless, Applied, LevelsByAge, GoodWork;
    OkGives(before);
    ShiftApplied(before.v, sh, v);
    StepIsOkIff(before, Compact(sh, input, snap), Db(v, before.written, Later(snap, before.horizon)));
    ShiftKeepsApart(before.v, sh, v, n, n + |sh.outs|);
  }

  lemma InputsInRange(v: Version, level: nat, in0: seq<File>, in1: seq<File>, input: seq<Entry>)
    requires EachLevelInv(v) && level + 1 < NUM_LEVELS && SubList(in0, v.levels[level])
    requires IsOverlapOf(v.levels[level + 1], in0, in1)
    requires ToSet(input) == EntriesOf(in0) + EntriesOf(in1)
    ensures SubList(in1, v.levels[level + 1])
    ensures forall e :: e in input ==> e.key.sn <= MAX_SEQUENCE
  {
    assert LevelInv(level == 0, v.levels[level]) && LevelInv(false, v.levels[level + 1]);
    forall e | e in input
      ensures e.key.sn <= MAX_SEQUENCE
    {
      assert e in ToSet(input);
    }
  }

  lemma FlushIsGood(v: Version, f: File, level: nat, written: set<Entry>)
    requires Inv(v) && ValidFile(f) && level < NUM_LEVELS
    requires AllEntries(v) <= written && Newer(ToSet(f.entries), written)
    requires forall l, g :: 0 <= l < |v.levels| && g in v.levels[l] ==> g.number < f.number
    requires level > 0 ==> forall l :: 0 <= l <= level ==> NoOverlap(v, l, f.smallest.user, f.largest.user)
    ensures GoodFlush(v, f, level) && AddsUnused(v, Edit({}, [(level, f)]))
  {
    hide LevelInv, LevelsByAge;
  }

  lemma FlushApplied(v: Version, f: File, level: nat, v': Version)
    requires EachLevelInv(v) && level < NUM_LEVELS && AddsUnused(v, Edit({}, [(level, f)]))
    requires Applied(v, Edit({}, [(level, f)]), v')
    ensures Flushed(v, f, level, v')
  {
    hide LevelInv, IsSaved;
    var e := Edit({}, [(level, f)]);
    forall l | 0 <= l < NUM_LEVELS
      ensures InOrder(v'.levels[l]) && ToSet(v'.levels[l]) == ToSet(v.levels[l]) + if l == level then {f} else {}
    {
      SavedMembers(v.levels[l], e, l, v'.levels[l]);
      assert (level, f) in e.added;
      assert AddedAt(e.added, l) == if l == level then {f} else {};
    }
  }

  lemma MoveEdit(level: nat, f: File)
    ensures ShiftEdit(Move(level, f)) == Edit({(level, f.number)}, [(level + 1, f)])
  {
    assert InputDeletions(Move(level, f)) == {(level, f.number)};
  }

  lemma ShiftedFrom(v: Version, sh: Shift, v': Version, l: nat, g: File)
    requires Shifted(v, sh, v') && l < NUM_LEVELS && g in v'.levels[l]
    ensures CameFrom(v, sh, l, g)
  {
    if l != sh.level && l != sh.level + 1 {
      assert g in ToSet(v'.levels[l]);
    }
  }
}
