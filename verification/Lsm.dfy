/** The store over time: memtable flushes, trivial moves and compactions change the current
    version and keep both its invariant and what readers see. */
module Lsm {
  import opened Keys
  import opened Files
  import opened Versions
  import opened Builder
  import opened Compaction

  // ----- Installing an edit -----

  const NO_EDIT := LevelState({}, [])

  /** `v'` is `v` with the edit applied. */
  ghost predicate Applied(v: Version, e: Edit, v': Version) {
    |v.levels| == NUM_LEVELS && |v'.levels| == NUM_LEVELS &&
    forall l :: 0 <= l < NUM_LEVELS ==> IsSaved(v.levels[l], ApplyLevel(NO_EDIT, e, l), v'.levels[l])
  }

  /** At every level the edit adds files whose numbers are not in use there. */
  ghost predicate AddsUnused(v: Version, e: Edit) {
    ValidEdit(e) && |v.levels| == NUM_LEVELS &&
    forall l :: 0 <= l < NUM_LEVELS ==> NumbersFresh(Numbers(ToSet(v.levels[l])), e.added, l)
  }

  lemma EditAlone(base: seq<File>, e: Edit, level: nat)
    requires NumbersFresh(Numbers(ToSet(base)), e.added, level)
    ensures var st := ApplyLevel(NO_EDIT, e, level);
            && InOrder(st.added)
            && (forall f :: f in st.added <==> f in AddedAt(e.added, level))
            && (forall f, g :: f in base && g in st.added ==> !Tie(f, g))
            && (forall f :: f in Saved(base, st) <==>
                  (f in base && f.number !in DeletedAt(e, level)) || f in AddedAt(e.added, level))
  {
    var st0 := LevelState({} + DeletedAt(e, level), []);
    assert NumbersFresh({}, e.added, level);
    assert Numbers(ToSet(st0.added)) == {};
    AddFilesIs(st0, e.added, level);
    var st := ApplyLevel(NO_EDIT, e, level);
    assert forall f :: f in st.added <==> f in ToSet(st.added);
    assert forall f :: f in base ==> f in ToSet(base) && f.number in Numbers(ToSet(base));
    forall f | f in AddedAt(e.added, level)
      ensures f.number in Numbers(AddedAt(e.added, level)) && f.number !in Numbers(ToSet(base))
    {
      var i :| 0 <= i < |e.added| && e.added[i] == (level, f);
    }
    forall f | f in base
      ensures f.number !in Numbers(AddedAt(e.added, level))
    {
    }
  }

  method LogAndApply(v: Version, e: Edit) returns (v': Version)
    requires EachLevelInv(v) && AddsUnused(v, e)
    ensures Applied(v, e, v')
  {
    var builder := new VersionBuilder(v);
    builder.Apply(e);
    forall l | 0 <= l < NUM_LEVELS
      ensures builder.levels[l] == ApplyLevel(NO_EDIT, e, l)
      ensures InOrder(v.levels[l]) && InOrder(builder.levels[l].added)
      ensures forall f, g :: f in v.levels[l] && g in builder.levels[l].added ==> !Tie(f, g)
    {
      assert LevelInv(l == 0, v.levels[l]);
      EditAlone(v.levels[l], e, l);
    }
    v' := builder.SaveTo();
  }

  // ----- One level, from its set of files -----

  ghost predicate PairwiseApart(files: seq<File>) {
    forall f, g :: f in files && g in files && f != g ==> Apart(f, g)
  }

  ghost predicate NumbersTellApart(files: seq<File>) {
    forall f, g :: f in files && g in files && f.number == g.number ==> f == g
  }

  lemma LevelInvFromSet(zero: bool, files: seq<File>)
    requires InOrder(files) && ValidFiles(files) && NumbersTellApart(files)
    requires zero ==> RecencyByNumber(files)
    requires !zero ==> PairwiseApart(files)
    ensures LevelInv(zero, files)
  {
    forall i, j | 0 <= i < j < |files|
      ensures files[i].number != files[j].number
    {
      assert files[i] in files && files[j] in files && BySmallest(files[i], files[j]);
    }
    if !zero {
      OrderedApart(files);
    }
  }

  lemma LevelInvGives(zero: bool, files: seq<File>)
    requires LevelInv(zero, files)
    ensures NumbersTellApart(files)
    ensures !zero ==> PairwiseApart(files)
  {
    forall f, g | f in files && g in files && f.number == g.number
      ensures f == g
    {
      var i :| 0 <= i < |files| && files[i] == f;
      var j :| 0 <= j < |files| && files[j] == g;
      assert i == j;
    }
    if !zero {
      forall f, g | f in files && g in files && f != g
        ensures Apart(f, g)
      {
        ApartInLevel(files, f, g);
      }
    }
  }

  // ----- Moving files one level down -----

  /** Files `outs` take the place of the inputs: `in0` leave `level` and `in1` leave the next. */
  datatype Shift = Shift(level: nat, in0: seq<File>, in1: seq<File>, outs: seq<File>)

  ghost predicate SubList(a: seq<File>, b: seq<File>) {
    forall f :: f in a ==> f in b
  }

  /** The members of every level of `v'` after the shift. */
  ghost predicate Shifted(v: Version, sh: Shift, v': Version) {
    && |v.levels| == NUM_LEVELS && |v'.levels| == NUM_LEVELS && sh.level + 1 < NUM_LEVELS
    && (forall l :: 0 <= l < NUM_LEVELS ==> InOrder(v'.levels[l]))
    && (forall l :: 0 <= l < NUM_LEVELS && l != sh.level && l != sh.level + 1 ==>
          ToSet(v'.levels[l]) == ToSet(v.levels[l]))
    && (forall f :: f in v'.levels[sh.level] <==> f in v.levels[sh.level] && f !in sh.in0)
    && (forall f :: f in v'.levels[sh.level + 1] <==>
          (f in v.levels[sh.level + 1] && f !in sh.in1) || f in sh.outs)
  }

  /** A file left behind continues the last user key of one taken, with older entries. The code
      does not look for this; without it a shift is safe. */
  predicate Continues(g: File, f: File) {
    f.smallest.user == g.largest.user && Precedes(g.largest, f.smallest)
  }

  ghost predicate CleanCut(files: seq<File>, inputs: seq<File>) {
    forall f, g :: f in files && f !in inputs && g in inputs ==> !Continues(g, f)
  }

  /** What the choice of inputs and the work on them guarantee. */
  ghost predicate GoodShift(v: Version, sh: Shift) {
    && EachLevelInv(v) && sh.level + 1 < NUM_LEVELS
    && SubList(sh.in0, v.levels[sh.level])
    && (sh.level == 0 ==> TakesAll(v.levels[0], sh.in0))
    && IsOverlapOf(v.levels[sh.level + 1], sh.in0, sh.in1)
    && ValidFiles(sh.outs) && PairwiseApart(sh.outs) && NumbersTellApart(sh.outs)
    && EntriesOf(sh.outs) <= EntriesOf(sh.in0) + EntriesOf(sh.in1)
    && (forall f, g :: f in v.levels[sh.level + 1] && f !in sh.in1 && g in sh.outs ==> f.number != g.number)
  }

  /** At level 0 the files taken share no user key with those left. */
  lemma LevelZeroApart(files: seq<File>, inputs: seq<File>, f: File, g: File)
    requires TakesAll(files, inputs) && f in files && f !in inputs && g in inputs
    ensures f.largest.user < g.smallest.user || g.largest.user < f.smallest.user
  {
    var lo: Bound, hi: Bound :| Closed(files, lo, hi) && inputs == Overlapping(files, lo, hi);
    assert Inside(g, lo, hi) && !Overlaps(f, lo, hi);
  }

  /** What is left of a level is newer than what is taken from it. */
  lemma RestIsNewer(zero: bool, files: seq<File>, inputs: seq<File>, f: File, e: Entry, g: File, d: Entry)
    requires ValidFiles(files) && SubList(inputs, files) && CleanCut(files, inputs)
    requires if zero then TakesAll(files, inputs) else PairwiseApart(files)
    requires f in files && f !in inputs && e in f.entries
    requires g in inputs && d in g.entries && e.key.user == d.key.user
    ensures e.key.sn > d.key.sn
  {
    WithinFile(f, e);
    WithinFile(g, d);
    if zero {
      LevelZeroApart(files, inputs, f, g);
    } else {
      assert Apart(f, g) && !Continues(g, f);
    }
  }

  /** An input entry and a file of the next level that is no input lie apart, on the side on which
      that file lies of the span of the inputs. */
  lemma RestIsAside(next: seq<File>, in0: seq<File>, in1: seq<File>, lo: UserKey, hi: UserKey, h: File, e: Entry)
    requires ValidFiles(next) && PairwiseApart(next) && ValidFiles(in0)
    requires Spans(in0, lo, hi) && in1 == Overlapping(next, Some(lo), Some(hi))
    requires h in next && h !in in1 && e in EntriesOf(in0) + EntriesOf(in1)
    ensures h.largest.user < lo ==> Precedes(h.largest, e.key)
    ensures h.largest.user >= lo ==> Precedes(e.key, h.smallest)
  {
    hide ValidFile;
    FileSpan(h);
    assert !Overlaps(h, Some(lo), Some(hi));
    if e in EntriesOf(in0) {
      var f :| f in in0 && e in f.entries;
      WithinFile(f, e);
    } else {
      var g :| g in in1 && e in g.entries;
      WithinFile(g, e);
      assert Apart(g, h) && Overlaps(g, Some(lo), Some(hi));
    }
  }

  lemma FileSpan(f: File)
    requires ValidFile(f)
    ensures f.smallest.user <= f.largest.user
  {
    WithinFile(f, f.entries[0]);
  }

  lemma OutIsApart(next: seq<File>, in0: seq<File>, in1: seq<File>, outs: seq<File>, h: File, o: File)
    requires ValidFiles(next) && PairwiseApart(next) && ValidFiles(in0) && ValidFiles(outs)
    requires IsOverlapOf(next, in0, in1) && EntriesOf(outs) <= EntriesOf(in0) + EntriesOf(in1)
    requires h in next && h !in in1 && o in outs
    ensures Apart(h, o)
  {
    var lo, hi :| Spans(in0, lo, hi) && in1 == Overlapping(next, Some(lo), Some(hi));
    var a, b := o.entries[0], o.entries[|o.entries| - 1];
    assert a in o.entries && b in o.entries;
    assert a in EntriesOf(outs) && b in EntriesOf(outs);
    RestIsAside(next, in0, in1, lo, hi, h, a);
    RestIsAside(next, in0, in1, lo, hi, h, b);
  }

  /** The next level after the shift. */
  lemma NextLevelKept(next: seq<File>, sh: Shift, files: seq<File>)
    requires LevelInv(false, next) && ValidFiles(sh.in0) && ValidFiles(sh.outs)
    requires PairwiseApart(sh.outs) && NumbersTellApart(sh.outs)
    requires IsOverlapOf(next, sh.in0, sh.in1) && EntriesOf(sh.outs) <= EntriesOf(sh.in0) + EntriesOf(sh.in1)
    requires forall f, g :: f in next && f !in sh.in1 && g in sh.outs ==> f.number != g.number
    requires InOrder(files)
    requires forall f :: f in files <==> (f in next && f !in sh.in1) || f in sh.outs
    ensures LevelInv(false, files)
  {
    LevelInvGives(false, next);
    forall f, g | f in files && g in files && f != g
      ensures Apart(f, g) && f.number != g.number
    {
      if f in sh.outs && g !in sh.outs {
        OutIsApart(next, sh.in0, sh.in1, sh.outs, g, f);
      } else if f !in sh.outs && g in sh.outs {
        OutIsApart(next, sh.in0, sh.in1, sh.outs, f, g);
      }
    }
    LevelInvFromSet(false, files);
  }

  /** A level that has only lost files, if any. */
  lemma OtherLevelKept(zero: bool, files: seq<File>, files': seq<File>)
    requires LevelInv(zero, files) && InOrder(files') && SubList(files', files)
    ensures LevelInv(zero, files')
  {
    LevelInvGives(zero, files);
    LevelInvFromSet(zero, files');
  }

  lemma ShiftKeepsLevels(v: Version, sh: Shift, v': Version)
    requires GoodShift(v, sh) && Shifted(v, sh, v')
    ensures EachLevelInv(v')
  {
    hide ValidFile;
    forall l | 0 <= l < NUM_LEVELS
      ensures LevelInv(l == 0, v'.levels[l])
    {
      assert LevelInv(l == 0, v.levels[l]);
      if l == sh.level + 1 {
        assert LevelInv(sh.level == 0, v.levels[sh.level]);
        NextLevelKept(v.levels[l], sh, v'.levels[l]);
      } else {
        SameSetSubList(v'.levels[l], v.levels[l]);
        OtherLevelKept(l == 0, v.levels[l], v'.levels[l]);
      }
    }
  }

  lemma SameSetSubList(a: seq<File>, b: seq<File>)
    ensures ToSet(a) == ToSet(b) ==> SubList(a, b) && SubList(b, a) && EntriesOf(a) == EntriesOf(b)
  {
    if ToSet(a) == ToSet(b) {
      assert forall f :: f in a <==> f in ToSet(a);
      assert forall f :: f in b <==> f in ToSet(b);
    }
  }

  /** Where an entry of the shifted version was before. */
  ghost predicate StaysAt(v: Version, sh: Shift, l: nat, e: Entry)
    requires l < |v.levels|
  {
    exists f :: f in v.levels[l] && e in f.entries && (l == sh.level ==> f !in sh.in0) && (l == sh.level + 1 ==> f !in sh.in1)
  }

  lemma EntryWas(v: Version, sh: Shift, v': Version, l: nat, e: Entry)
    requires Shifted(v, sh, v') && l < NUM_LEVELS && e in EntriesOf(v'.levels[l])
    ensures (l == sh.level + 1 && e in EntriesOf(sh.outs)) || StaysAt(v, sh, l, e)
  {
    var f :| f in v'.levels[l] && e in f.entries;
    if l != sh.level && l != sh.level + 1 {
      SameSetSubList(v'.levels[l], v.levels[l]);
    }
  }

  lemma ByAge(v: Version, l: nat, m: nat, e: Entry, d: Entry)
    requires LevelsByAge(v) && l < m < |v.levels| && e in EntriesOf(v.levels[l]) && d in EntriesOf(v.levels[m])
    requires e.key.user == d.key.user
    ensures e.key.sn > d.key.sn
  {
    assert Newer(EntriesOf(v.levels[l]), EntriesOf(v.levels[m]));
  }

  /** An input entry is older than what stays above its level, newer than what is below the next,
      and never as old as what stays at these two. */
  lemma InputAge(v: Version, sh: Shift, l: nat, e: Entry, d: Entry)
    requires LevelsByAge(v) && GoodShift(v, sh)
    requires l < NUM_LEVELS && StaysAt(v, sh, l, e) && d in EntriesOf(sh.in0) + EntriesOf(sh.in1)
    requires e.key.user == d.key.user
    ensures l < sh.level ==> e.key.sn > d.key.sn
    ensures l > sh.level + 1 ==> e.key.sn < d.key.sn
    ensures e.key.sn != d.key.sn
    ensures l == sh.level && d in EntriesOf(sh.in1) ==> e.key.sn > d.key.sn
  {
    hide ValidFile, LevelInv, LevelsByAge, PairwiseApart, NumbersTellApart, TakesAll;
    assert e in EntriesOf(v.levels[l]);
    if d in EntriesOf(sh.in0) {
      var g :| g in sh.in0 && d in g.entries;
      OneInputAge(v, l, e, sh.in0, sh.level, g, d);
    }
    if d in EntriesOf(sh.in1) {
      var g :| g in sh.in1 && d in g.entries;
      OneInputAge(v, l, e, sh.in1, sh.level + 1, g, d);
    }
  }

  /** `e` is at level `l` and `d` in a file `g` taken from level `at`. */
  lemma OneInputAge(v: Version, l: nat, e: Entry, inputs: seq<File>, at: nat, g: File, d: Entry)
    requires LevelsByAge(v) && EachLevelInv(v) && l < NUM_LEVELS && at < NUM_LEVELS
    requires exists f :: f in v.levels[l] && e in f.entries && (l == at ==> f !in inputs)
    requires g in inputs && g in v.levels[at] && d in g.entries && e.key.user == d.key.user
    ensures e.key.sn != d.key.sn
    ensures l < at ==> e.key.sn > d.key.sn
    ensures l > at ==> e.key.sn < d.key.sn
  {
    hide ValidFile, LevelInv, LevelsByAge;
    assert e in EntriesOf(v.levels[l]) && d in EntriesOf(v.levels[at]);
    if l < at {
      ByAge(v, l, at, e, d);
    } else if l > at {
      ByAge(v, at, l, d, e);
    } else {
      var f :| f in v.levels[l] && e in f.entries && f !in inputs;
      FilesDiffer(l == 0, v.levels[l], f, e, g, d);
    }
  }

  /** An entry is carried to the next level past an older one of its user key, left behind. */
  ghost predicate Overtaken(v: Version, sh: Shift) {
    sh.level < |v.levels| &&
    exists e, d :: e in EntriesOf(sh.outs) && StaysAt(v, sh, sh.level, d) &&
      e.key.user == d.key.user && d.key.sn < e.key.sn
  }

  /** Inputs not cut within a user key are enough: nothing is overtaken. */
  lemma CleanCutIsEnough(v: Version, sh: Shift)
    requires LevelsByAge(v) && GoodShift(v, sh) && CleanCut(v.levels[sh.level], sh.in0)
    ensures !Overtaken(v, sh)
  {
    hide ValidFile, LevelsByAge, CleanCut, LevelInv, PairwiseApart, NumbersTellApart, TakesAll, IsOverlapOf;
    forall e, d | e in EntriesOf(sh.outs) && StaysAt(v, sh, sh.level, d) && e.key.user == d.key.user
      ensures d.key.sn > e.key.sn
    {
      LeftAtLevel(v, sh, d, e);
    }
  }

  /** At level 0 the choice of inputs cuts between user keys, so nothing is overtaken there. */
  lemma LevelZeroIsClean(v: Version, sh: Shift)
    requires LevelsByAge(v) && GoodShift(v, sh) && sh.level == 0
    ensures CleanCut(v.levels[0], sh.in0) && !Overtaken(v, sh)
  {
    hide LevelsByAge, ValidFile, LevelInv, PairwiseApart, NumbersTellApart, TakesAll, IsOverlapOf;
    forall f, g | f in v.levels[0] && f !in sh.in0 && g in sh.in0
      ensures !Continues(g, f)
    {
      assert LevelInv(true, v.levels[0]);
      ValidInLevel(true, v.levels[0], f);
      ValidInLevel(true, v.levels[0], g);
      FileSpan(f);
      FileSpan(g);
      LevelZeroApart(v.levels[0], sh.in0, f, g);
    }
    CleanCutIsEnough(v, sh);
  }

  lemma LeftAtLevel(v: Version, sh: Shift, e: Entry, d: Entry)
    requires LevelsByAge(v) && GoodShift(v, sh) && CleanCut(v.levels[sh.level], sh.in0)
    requires StaysAt(v, sh, sh.level, e) && d in EntriesOf(sh.in0) + EntriesOf(sh.in1) && e.key.user == d.key.user
    ensures e.key.sn > d.key.sn
  {
    hide ValidFile, LevelsByAge, CleanCut, LevelInv, PairwiseApart, NumbersTellApart, TakesAll, IsOverlapOf;
    InputAge(v, sh, sh.level, e, d);
    if d in EntriesOf(sh.in0) {
      var f :| f in v.levels[sh.level] && e in f.entries && f !in sh.in0;
      var g :| g in sh.in0 && d in g.entries;
      assert LevelInv(sh.level == 0, v.levels[sh.level]);
      LevelInvGives(sh.level == 0, v.levels[sh.level]);
      AllValid(sh.level == 0, v.levels[sh.level]);
      RestIsNewer(sh.level == 0, v.levels[sh.level], sh.in0, f, e, g, d);
    }
  }

  lemma AllValid(zero: bool, files: seq<File>)
    requires LevelInv(zero, files)
    ensures ValidFiles(files)
  {
  }

  lemma ShiftKeepsAge(v: Version, sh: Shift, v': Version)
    requires LevelsByAge(v) && GoodShift(v, sh) && Shifted(v, sh, v') && !Overtaken(v, sh)
    ensures LevelsByAge(v')
  {
    forall l, m | 0 <= l < m < |v'.levels|
      ensures Newer(EntriesOf(v'.levels[l]), EntriesOf(v'.levels[m]))
    {
      forall e, d | e in EntriesOf(v'.levels[l]) && d in EntriesOf(v'.levels[m]) && e.key.user == d.key.user
        ensures e.key.sn > d.key.sn
      {
        PairKeepsAge(v, sh, v', l, m, e, d);
      }
    }
  }

  lemma PairKeepsAge(v: Version, sh: Shift, v': Version, l: nat, m: nat, e: Entry, d: Entry)
    requires LevelsByAge(v) && GoodShift(v, sh) && Shifted(v, sh, v') && !Overtaken(v, sh)
    requires l < m < NUM_LEVELS && e in EntriesOf(v'.levels[l]) && d in EntriesOf(v'.levels[m])
    requires e.key.user == d.key.user
    ensures e.key.sn > d.key.sn
  {
    hide ValidFiles, LevelInv, LevelsByAge, PairwiseApart, NumbersTellApart, InOrder, TakesAll, IsOverlapOf;
    EntryWas(v, sh, v', l, e);
    EntryWas(v, sh, v', m, d);
    if m == sh.level + 1 && d in EntriesOf(sh.outs) {
      InputAge(v, sh, l, e, d);
    } else if l == sh.level + 1 && e in EntriesOf(sh.outs) {
      InputAge(v, sh, m, d, e);
    } else {
      ByAge(v, l, m, e, d);
    }
  }

  // ----- What readers see -----

  lemma UniqueInFile(f: File, a: Entry, b: Entry)
    requires ValidFile(f) && a in f.entries && b in f.entries
    requires a.key.user == b.key.user && a.key.sn == b.key.sn
    ensures a == b
  {
    var i :| 0 <= i < |f.entries| && f.entries[i] == a;
    var j :| 0 <= j < |f.entries| && f.entries[j] == b;
    assert i == j;
  }

  lemma FilesDiffer(zero: bool, files: seq<File>, f: File, a: Entry, g: File, b: Entry)
    requires LevelInv(zero, files) && f in files && g in files && f != g
    requires a in f.entries && b in g.entries && a.key.user == b.key.user
    ensures a.key.sn != b.key.sn
  {
    hide ValidFile;
    assert ValidFile(f) && ValidFile(g);
    LevelInvGives(zero, files);
    WithinFile(f, a);
    WithinFile(g, b);
    assert a in ToSet(f.entries) && b in ToSet(g.entries);
    assert f.number > g.number || g.number > f.number;
    assert !zero ==> Apart(f, g);
  }

  lemma UniqueInLevel(zero: bool, files: seq<File>, a: Entry, b: Entry)
    requires LevelInv(zero, files) && a in EntriesOf(files) && b in EntriesOf(files)
    requires a.key.user == b.key.user && a.key.sn == b.key.sn
    ensures a == b
  {
    hide LevelInv;
    var f :| f in files && a in f.entries;
    var g :| g in files && b in g.entries;
    if f == g {
      assert ValidFile(f) by { ValidInLevel(zero, files, f); }
      UniqueInFile(f, a, b);
    } else {
      FilesDiffer(zero, files, f, a, g, b);
    }
  }

  lemma ValidInLevel(zero: bool, files: seq<File>, f: File)
    requires LevelInv(zero, files) && f in files
    ensures ValidFile(f)
  {
  }

  lemma InvUnique(v: Version)
    requires Inv(v)
    ensures Unique(AllEntries(v))
  {
    hide LevelInv, LevelsByAge;
    forall a, b | a in AllEntries(v) && b in AllEntries(v) && a.key.user == b.key.user && a.key.sn == b.key.sn
      ensures a == b
    {
      var l :| 0 <= l < |v.levels| && a in EntriesOf(v.levels[l]);
      var m :| 0 <= m < |v.levels| && b in EntriesOf(v.levels[m]);
      if l < m {
        ByAge(v, l, m, a, b);
      } else if m < l {
        ByAge(v, m, l, b, a);
      } else {
        UniqueInLevel(l == 0, v.levels[l], a, b);
      }
    }
  }

  /** Reads at `user`, `s` from `a` and from `b` agree. */
  ghost predicate SameReads(a: set<Entry>, b: set<Entry>, user: UserKey, s: nat) {
    forall x :: Reads(a, user, s, x) <==> Reads(b, user, s, x)
  }

  /** One direction is enough, reads being functions. */
  lemma ReadsForward(a: set<Entry>, b: set<Entry>, user: UserKey, s: nat, r: Option<Entry>, r': Option<Entry>)
    requires Unique(a) && Unique(b)
    requires IsNewest(a, user, s, r) && IsNewest(b, user, s, r') && Shows(r) == Shows(r')
    ensures SameReads(a, b, user, s)
  {
    ReadsIsFunctional(a, user, s);
    ReadsIsFunctional(b, user, s);
    assert Reads(a, user, s, Shows(r)) && Reads(b, user, s, Shows(r'));
  }

  /** What the compaction loop makes of the inputs of a shift. */
  ghost predicate GoodWork(v: Version, sh: Shift, input: seq<Entry>, snap: nat) {
    && Sorted(input)
    && ToSet(input) == EntriesOf(sh.in0) + EntriesOf(sh.in1)
    && EntriesOf(sh.outs) == ToSet(Kept(v, sh.level, snap, input, |input|))
  }

  lemma ShiftEntries(v: Version, sh: Shift, v': Version, e: Entry)
    requires GoodShift(v, sh) && Shifted(v, sh, v')
    ensures e in AllEntries(v') <==>
              e in EntriesOf(sh.outs) || exists l :: 0 <= l < NUM_LEVELS && StaysAt(v, sh, l, e)
    ensures e in AllEntries(v) <==>
              e in EntriesOf(sh.in0) + EntriesOf(sh.in1) || exists l :: 0 <= l < NUM_LEVELS && StaysAt(v, sh, l, e)
  {
    hide ValidFiles, LevelInv, PairwiseApart, NumbersTellApart, InOrder, TakesAll;
    if e in AllEntries(v') {
      var l :| 0 <= l < |v'.levels| && e in EntriesOf(v'.levels[l]);
      EntryWas(v, sh, v', l, e);
    }
    if e in EntriesOf(sh.outs) {
      var f :| f in sh.outs && e in f.entries;
      assert f in v'.levels[sh.level + 1];
      assert e in EntriesOf(v'.levels[sh.level + 1]);
    }
    if l :| 0 <= l < NUM_LEVELS && StaysAt(v, sh, l, e) {
      StaysIsKept(v, sh, v', l, e);
    }
    if e in EntriesOf(sh.in0) {
      var f :| f in sh.in0 && e in f.entries;
      assert e in EntriesOf(v.levels[sh.level]);
    }
    if e in EntriesOf(sh.in1) {
      var f :| f in sh.in1 && e in f.entries;
      assert e in EntriesOf(v.levels[sh.level + 1]);
    }
    if e in AllEntries(v) && e !in EntriesOf(sh.in0) + EntriesOf(sh.in1) {
      var l :| 0 <= l < |v.levels| && e in EntriesOf(v.levels[l]);
      assert StaysAt(v, sh, l, e);
    }
  }

  lemma StaysIsKept(v: Version, sh: Shift, v': Version, l: nat, e: Entry)
    requires Shifted(v, sh, v') && l < NUM_LEVELS && StaysAt(v, sh, l, e)
    ensures e in EntriesOf(v'.levels[l]) && e in EntriesOf(v.levels[l])
  {
    if l != sh.level && l != sh.level + 1 {
      SameSetSubList(v'.levels[l], v.levels[l]);
    }
  }

  /** Nothing older than a dropped deletion is left to come back in a file that is no input. */
  lemma NothingResurfaces(v: Version, sh: Shift, n: Entry, l: nat, e: Entry)
    requires LevelsByAge(v) && GoodShift(v, sh)
    requires CleanCut(v.levels[sh.level], sh.in0) && CleanCut(v.levels[sh.level + 1], sh.in1)
    requires n in EntriesOf(sh.in0) + EntriesOf(sh.in1) && BaseLevel(v, sh.level, n.key.user)
    requires l < NUM_LEVELS && StaysAt(v, sh, l, e) && e.key.user == n.key.user
    ensures e.key.sn > n.key.sn
  {
    hide LevelInv, LevelsByAge, CleanCut, PairwiseApart, NumbersTellApart, InOrder, TakesAll, IsOverlapOf, ValidFiles, BaseLevel;
    if l < sh.level {
      InputAge(v, sh, l, e, n);
    } else if l == sh.level {
      LeftAtLevel(v, sh, e, n);
    } else if l > sh.level + 1 {
      BaseLevelEmpty(v, sh.level, n.key.user, l);
    } else {
      var h :| h in v.levels[l] && e in h.entries && h !in sh.in1;
      RestOfNext(v, sh, h, e, n);
    }
  }

  lemma BaseLevelEmpty(v: Version, level: nat, user: UserKey, l: nat)
    requires EachLevelInv(v) && BaseLevel(v, level, user) && level + 2 <= l < NUM_LEVELS
    ensures forall f, e :: f in v.levels[l] && e in f.entries ==> e.key.user != user
  {
    hide ValidFile;
    assert LevelInv(false, v.levels[l]);
    forall f, e | f in v.levels[l] && e in f.entries
      ensures e.key.user != user
    {
      WithinFile(f, e);
    }
  }

  lemma RestOfNext(v: Version, sh: Shift, h: File, e: Entry, n: Entry)
    requires GoodShift(v, sh) && CleanCut(v.levels[sh.level + 1], sh.in1)
    requires h in v.levels[sh.level + 1] && h !in sh.in1 && e in h.entries
    requires n in EntriesOf(sh.in0) + EntriesOf(sh.in1) && e.key.user == n.key.user
    ensures e.key.sn > n.key.sn
  {
    hide ValidFile, NumbersTellApart, InOrder, TakesAll, LevelOk, DistinctNumbers, RecencyByNumber;
    var next := v.levels[sh.level + 1];
    assert LevelInv(false, next) && LevelInv(sh.level == 0, v.levels[sh.level]);
    LevelInvGives(false, next);
    WithinFile(h, e);
    if n in EntriesOf(sh.in1) {
      var g :| g in sh.in1 && n in g.entries;
      WithinFile(g, n);
      assert Apart(g, h) && !Continues(g, h);
    } else {
      var f :| f in sh.in0 && n in f.entries;
      NotInSpan(next, sh.in0, sh.in1, h, f, n);
    }
  }

  lemma NotInSpan(next: seq<File>, in0: seq<File>, in1: seq<File>, h: File, f: File, n: Entry)
    requires IsOverlapOf(next, in0, in1) && h in next && h !in in1
    requires f in in0 && ValidFile(f) && n in f.entries
    ensures !(h.smallest.user <= n.key.user <= h.largest.user)
  {
    var lo, hi :| Spans(in0, lo, hi) && in1 == Overlapping(next, Some(lo), Some(hi));
    WithinFile(f, n);
    assert !Overlaps(h, Some(lo), Some(hi));
  }

  /** An entry that comes after one no newer than the oldest snapshot, of its user key, is dropped. */
  lemma ShadowedIsDropped(v: Version, level: nat, snap: nat, input: seq<Entry>, i: nat, j: nat)
    requires Sorted(input) && i < j < |input| && input[i].key.sn <= snap && input[i].key.user == input[j].key.user
    ensures Dropped(v, level, snap, input, j)
  {
    assert i < j - 1 ==> Precedes(input[i].key, input[j - 1].key);
    assert Precedes(input[j - 1].key, input[j].key);
  }

  lemma OlderIsDropped(v: Version, level: nat, snap: nat, input: seq<Entry>, i: nat, e: Entry)
    requires Sorted(input) && i < |input| && input[i].key.sn <= snap
    requires e in Kept(v, level, snap, input, |input|) && e.key.user == input[i].key.user
    ensures e.key.sn >= input[i].key.sn
  {
    KeptIs(v, level, snap, input, |input|);
    forall j | i < j < |input| && input[j].key.user == input[i].key.user
      ensures Dropped(v, level, snap, input, j)
    {
      ShadowedIsDropped(v, level, snap, input, i, j);
    }
    var j :| 0 <= j < |input| && input[j] == e && !Dropped(v, level, snap, input, j);
    assert j < i ==> Precedes(input[j].key, input[i].key);
  }

  /** Of the entries of a user key that a compaction leaves at its two levels, `o` is the newest
      below sequence number `sn`. */
  ghost predicate NewestLeft(v: Version, sh: Shift, user: UserKey, sn: nat, o: Entry)
    requires sh.level + 1 < |v.levels|
  {
    && Left(v, sh, o) && o.key.user == user && o.key.sn < sn
    && forall e :: Left(v, sh, e) && e.key.user == user && e.key.sn < sn ==> e.key.sn <= o.key.sn
  }

  ghost predicate Left(v: Version, sh: Shift, e: Entry)
    requires sh.level + 1 < |v.levels|
  {
    StaysAt(v, sh, sh.level, e) || StaysAt(v, sh, sh.level + 1, e)
  }

  /** What decides whether a compaction changes a read, seen before it starts: the deletion that
      answers the read goes, and the newest entry it hid that is in no input is a value. */
  ghost predicate Exposed(v: Version, sh: Shift, input: seq<Entry>, snap: nat, user: UserKey, s: nat, i: nat, o: Entry)
    requires sh.level + 1 < |v.levels|
  {
    && i < |input| && input[i].key.kind.Deletion? && input[i].key.sn <= snap && BaseLevel(v, sh.level, user)
    && IsNewest(AllEntries(v), user, s, Some(input[i]))
    && NewestLeft(v, sh, user, input[i].key.sn, o) && o.key.kind.Value?
  }

  /** Replacing the inputs of a compaction by its outputs leaves a read at or above the oldest
      snapshot alone exactly when it exposes nothing to that read. */
  lemma CompactionIsSafeIff(v: Version, sh: Shift, input: seq<Entry>, snap: nat, v': Version, user: UserKey, s: nat)
    requires Inv(v) && GoodShift(v, sh) && Shifted(v, sh, v') && GoodWork(v, sh, input, snap) && snap <= s
    ensures SameReads(AllEntries(v), AllEntries(v'), user, s) <==>
              !exists i: nat, o :: Exposed(v, sh, input, snap, user, s, i, o)
  {
    hide LevelInv, LevelsByAge, GoodShift, Shifted, GoodWork, AllEntries, Unique, SameReads, IsNewest;
    ShiftSizes(v, sh);
    InvUnique(v);
    NothingNew(v, sh, v');
    var all, all' := AllEntries(v), AllEntries(v');
    var r := NewestExists(all, user, s);
    var r' := NewestExists(all', user, s);
    if i: nat, o :| Exposed(v, sh, input, snap, user, s, i, o) {
      ExposedIsRead(v, sh, input, snap, v', user, s, i, o);
    } else if r.None? || r.value in all' {
      StillNewest(all, all', user, s, r);
    } else {
      var i := DroppedAt(v, sh, input, snap, v', r.value);
      DroppedNewest(v, sh, input, snap, v', user, s, i, r');
      ReadsForward(all, all', user, s, r, r');
    }
  }

  lemma ShiftSizes(v: Version, sh: Shift)
    requires GoodShift(v, sh)
    ensures |v.levels| == NUM_LEVELS && sh.level + 1 < NUM_LEVELS
  {
  }

  lemma ShiftedSizes(v: Version, sh: Shift, v': Version)
    requires Shifted(v, sh, v')
    ensures |v'.levels| == |v.levels| == NUM_LEVELS && sh.level + 1 < NUM_LEVELS
  {
  }

  lemma NothingNew(v: Version, sh: Shift, v': Version)
    requires GoodShift(v, sh) && Shifted(v, sh, v')
    ensures AllEntries(v') <= AllEntries(v)
    ensures Unique(AllEntries(v)) ==> Unique(AllEntries(v'))
  {
    hide GoodShift, Shifted, AllEntries;
    forall e | e in AllEntries(v')
      ensures e in AllEntries(v)
    {
      ShiftEntries(v, sh, v', e);
      OutsAreInputs(v, sh);
    }
  }

  lemma OutsAreInputs(v: Version, sh: Shift)
    requires GoodShift(v, sh)
    ensures EntriesOf(sh.outs) <= EntriesOf(sh.in0) + EntriesOf(sh.in1)
  {
  }

  lemma StillNewest(all: set<Entry>, all': set<Entry>, user: UserKey, s: nat, r: Option<Entry>)
    requires Unique(all) && all' <= all && IsNewest(all, user, s, r) && (r.Some? ==> r.value in all')
    ensures SameReads(all, all', user, s)
  {
    assert IsNewest(all', user, s, r);
    ReadsForward(all, all', user, s, r, r);
  }

  /** An entry that a compaction removes was dropped from its input. */
  lemma DroppedAt(v: Version, sh: Shift, input: seq<Entry>, snap: nat, v': Version, n: Entry) returns (i: nat)
    requires GoodShift(v, sh) && Shifted(v, sh, v') && GoodWork(v, sh, input, snap)
    requires n in AllEntries(v) && n !in AllEntries(v')
    ensures i < |input| && input[i] == n && Dropped(v, sh.level, snap, input, i)
  {
    ShiftEntries(v, sh, v', n);
    assert n in ToSet(input);
    i :| 0 <= i < |input| && input[i] == n;
    KeptIs(v, sh.level, snap, input, |input|);
    assert n in Kept(v, sh.level, snap, input, |input|) ==> n in EntriesOf(sh.outs);
  }

  /** An entry dropped from the input is nowhere in the new version. */
  lemma DroppedIsGone(v: Version, sh: Shift, input: seq<Entry>, snap: nat, v': Version, i: nat)
    requires LevelsByAge(v) && GoodShift(v, sh) && Shifted(v, sh, v') && GoodWork(v, sh, input, snap)
    requires i < |input| && Dropped(v, sh.level, snap, input, i)
    ensures input[i] !in AllEntries(v')
  {
    hide LevelsByAge, GoodShift, Shifted, AllEntries, Dropped;
    var n := input[i];
    assert n in ToSet(input);
    ShiftSizes(v, sh);
    ShiftEntries(v, sh, v', n);
    KeptIs(v, sh.level, snap, input, |input|);
    forall j | 0 <= j < |input| && j != i
      ensures input[j] != n
    {
      assert Precedes(input[j].key, n.key) || Precedes(n.key, input[j].key);
    }
    if l :| 0 <= l < NUM_LEVELS && StaysAt(v, sh, l, n) {
      InputAge(v, sh, l, n, n);
    }
  }

  /** What the new version still has of a user key whose deletion was dropped: only entries left at
      the two levels can be older than it. */
  lemma OlderIsLeft(v: Version, sh: Shift, input: seq<Entry>, snap: nat, v': Version, i: nat, e: Entry)
    requires LevelsByAge(v) && GoodShift(v, sh) && Shifted(v, sh, v') && GoodWork(v, sh, input, snap)
    requires i < |input| && input[i].key.sn <= snap && BaseLevel(v, sh.level, input[i].key.user)
    requires e in AllEntries(v') && e.key.user == input[i].key.user && e.key.sn < input[i].key.sn
    ensures sh.level + 1 < |v.levels| && Left(v, sh, e)
  {
    hide LevelInv, LevelsByAge, PairwiseApart, NumbersTellApart, InOrder, TakesAll, IsOverlapOf, ValidFiles, BaseLevel, AllEntries, Shifted;
    ShiftEntries(v, sh, v', e);
    assert input[i] in ToSet(input);
    if e in EntriesOf(sh.outs) {
      OlderIsDropped(v, sh.level, snap, input, i, e);
    } else {
      var l :| 0 <= l < NUM_LEVELS && StaysAt(v, sh, l, e);
      if l < sh.level {
        InputAge(v, sh, l, e, input[i]);
      } else if l > sh.level + 1 {
        BaseLevelEmpty(v, sh.level, input[i].key.user, l);
      }
    }
  }

  /** An entry dropped as shadowed was not the newest at any snapshot still served. */
  lemma ShadowIsNewer(v: Version, sh: Shift, input: seq<Entry>, snap: nat, v': Version, i: nat)
    requires GoodShift(v, sh) && Shifted(v, sh, v') && GoodWork(v, sh, input, snap) && 0 < i < |input|
    requires input[i - 1].key.user == input[i].key.user
    ensures input[i - 1] in AllEntries(v) && input[i - 1].key.sn > input[i].key.sn
  {
    assert input[i - 1] in ToSet(input);
    ShiftEntries(v, sh, v', input[i - 1]);
    assert Precedes(input[i - 1].key, input[i].key);
  }

  /** When the newest visible entry was dropped it was a deletion, and what is read instead was
      exposed or shows nothing either. */
  lemma DroppedNewest(v: Version, sh: Shift, input: seq<Entry>, snap: nat, v': Version, user: UserKey, s: nat, i: nat,
                      r': Option<Entry>)
    requires LevelsByAge(v) && GoodShift(v, sh) && Shifted(v, sh, v') && GoodWork(v, sh, input, snap)
    requires snap <= s && i < |input| && Dropped(v, sh.level, snap, input, i)
    requires IsNewest(AllEntries(v), user, s, Some(input[i]))
    requires IsNewest(AllEntries(v'), user, s, r') && Unique(AllEntries(v))
    ensures sh.level + 1 < |v.levels| && input[i].key.kind.Deletion?
    ensures Shows(r').Some? ==> Exposed(v, sh, input, snap, user, s, i, r'.value)
  {
    hide LevelInv, LevelsByAge, GoodShift, Shifted, GoodWork, BaseLevel, AllEntries, StaysAt;
    ShiftSizes(v, sh);
    if i > 0 && input[i - 1].key.user == input[i].key.user {
      ShadowIsNewer(v, sh, input, snap, v', i);
    }
    if Shows(r').Some? {
      var o := r'.value;
      NothingNew(v, sh, v');
      DroppedIsGone(v, sh, input, snap, v', i);
      OlderIsLeft(v, sh, input, snap, v', i, o);
      forall e | Left(v, sh, e) && e.key.user == user && e.key.sn < input[i].key.sn
        ensures e.key.sn <= o.key.sn
      {
        LeftIsThere(v, sh, v', e);
      }
    }
  }

  lemma LeftIsThere(v: Version, sh: Shift, v': Version, e: Entry)
    requires GoodShift(v, sh) && Shifted(v, sh, v') && sh.level + 1 < |v.levels| && Left(v, sh, e)
    ensures e in AllEntries(v')
  {
    ShiftEntries(v, sh, v', e);
  }

  lemma ExposedIsRead(v: Version, sh: Shift, input: seq<Entry>, snap: nat, v': Version, user: UserKey, s: nat, i: nat, o: Entry)
    requires Inv(v) && GoodShift(v, sh) && Shifted(v, sh, v') && GoodWork(v, sh, input, snap)
    requires sh.level + 1 < |v.levels| && Exposed(v, sh, input, snap, user, s, i, o)
    ensures Reads(AllEntries(v), user, s, None) && Reads(AllEntries(v'), user, s, Some(o.value))
    ensures !SameReads(AllEntries(v), AllEntries(v'), user, s)
  {
    hide LevelInv, LevelsByAge, GoodShift, Shifted, GoodWork, BaseLevel, AllEntries, StaysAt;
    InvUnique(v);
    NothingNew(v, sh, v');
    LeftIsThere(v, sh, v', o);
    DroppedIsGone(v, sh, input, snap, v', i);
    forall e | e in AllEntries(v') && Visible(e, user, s)
      ensures e.key.sn <= o.key.sn
    {
      assert e.key.sn < input[i].key.sn;
      OlderIsLeft(v, sh, input, snap, v', i, e);
    }
    assert IsNewest(AllEntries(v'), user, s, Some(o));
    assert Shows(Some(input[i])) == None;
    assert Reads(AllEntries(v), user, s, None);
    ReadsIsFunctional(AllEntries(v'), user, s);
  }

  /** What a read at `s` is exposed to, a read at an earlier number still served is exposed to. */
  lemma ExposedEarlier(v: Version, sh: Shift, input: seq<Entry>, snap: nat, user: UserKey, h: nat, s: nat, i: nat, o: Entry)
    requires sh.level + 1 < |v.levels| && snap <= h <= s && Exposed(v, sh, input, snap, user, s, i, o)
    ensures Exposed(v, sh, input, snap, user, h, i, o)
  {
  }

  /** A compaction whose inputs at both levels are cut between user keys changes no read at or
      above the oldest snapshot. */
  lemma CompactionKeepsReads(v: Version, sh: Shift, input: seq<Entry>, snap: nat, v': Version, user: UserKey, s: nat)
    requires Inv(v) && GoodShift(v, sh) && Shifted(v, sh, v') && GoodWork(v, sh, input, snap)
    requires CleanCut(v.levels[sh.level], sh.in0) && CleanCut(v.levels[sh.level + 1], sh.in1)
    requires snap <= s
    ensures SameReads(AllEntries(v), AllEntries(v'), user, s)
  {
    hide LevelInv, LevelsByAge, GoodShift, Shifted, AllEntries, SameReads, CleanCut, BaseLevel, StaysAt, Sorted;
    ShiftSizes(v, sh);
    CompactionIsSafeIff(v, sh, input, snap, v', user, s);
    if i: nat, o :| Exposed(v, sh, input, snap, user, s, i, o) {
      assert input[i] in ToSet(input);
      NothingResurfaces(v, sh, input[i], if StaysAt(v, sh, sh.level, o) then sh.level else sh.level + 1, o);
    }
  }
}
