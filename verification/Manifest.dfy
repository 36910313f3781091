/** Rebuilding a version from a manifest: a log of encoded edits, which may have been cut off. */
module Manifests {
  import opened Keys
  import opened Coding
  import opened Files
  import opened Versions
  import opened Builder
  import opened VersionEdits
  import opened Log
  import opened WriteBatches

  /** The log records of the edits. */
  function Records(edits: seq<Fields>): (r: seq<Bytes>)
    ensures |r| == |edits|
  {
    seq(|edits|, i requires 0 <= i < |edits| => EncodeItems(Items(edits[i])))
  }

  predicate GoodEdits(edits: seq<Fields>) {
    forall c :: c in edits ==> FieldsFit(c) && LevelsFit(c)
  }

  /** The tables of a store, by what edits say of them. */
  type Tables = FileMeta -> File

  /** What an edit means for the levels. */
  function EditOf(c: Fields, tables: Tables): Edit {
    Edit(set d | d in c.deleted :: (d.0 as nat, d.1 as nat),
         seq(|c.added|, i requires 0 <= i < |c.added| => (c.added[i].0 as nat, tables(c.added[i].1))))
  }

  function EditsOf(edits: seq<Fields>, tables: Tables): seq<Edit> {
    seq(|edits|, i requires 0 <= i < |edits| => EditOf(edits[i], tables))
  }

  lemma EditIsValid(c: Fields, tables: Tables)
    requires LevelsFit(c)
    ensures ValidEdit(EditOf(c, tables))
  {
    forall i | 0 <= i < |c.added|
      ensures EditOf(c, tables).added[i].0 < NUM_LEVELS
    {
      assert c.added[i] in c.added;
    }
  }

  /** The numbers a manifest carries: of each, the last that an edit has. */
  datatype Counters = Counters(log: Option<Word64>, prevLog: Option<Word64>, nextFile: Option<Word64>,
                             lastSequence: Option<Word64>)

  function Newer<T>(earlier: Option<T>, later: Option<T>): Option<T> {
    if later.Some? then later else earlier
  }

  function LastNumbers(edits: seq<Fields>): Counters {
    if edits == [] then Counters(None, None, None, None)
    else Noted(LastNumbers(edits[..|edits| - 1]), edits[|edits| - 1])
  }

  /** The numbers after one more edit. */
  function Noted(n: Counters, c: Fields): Counters {
    Counters(Newer(n.log, c.logNumber), Newer(n.prevLog, c.prevLogNumber),
            Newer(n.nextFile, c.nextFile), Newer(n.lastSequence, c.lastSequence))
  }

  /** No edit names another comparator. */
  predicate SameComparator(edits: seq<Fields>, name: Bytes) {
    forall c :: c in edits ==> c.comparator == None || c.comparator == Some(name)
  }

  /** How many edits lie wholly before byte `cut` of the manifest. */
  ghost function Kept(crc: Crc, edits: seq<Fields>, cut: nat): (k: nat)
    ensures k <= |edits|
  {
    WholeIsLongest(crc, 0, Records(edits), cut);
    |Whole(crc, 0, Records(edits), cut)|
  }

  /** One record of the manifest: decode it, apply it, and note its numbers. */
  method RecoverEdit(record: Bytes, name: Bytes, builder: VersionBuilder, tables: Tables, numbers: Counters, ghost c: Fields)
    returns (numbers': Counters, status: Status)
    requires builder.Ok() && FieldsFit(c) && LevelsFit(c) && record == EncodeItems(Items(c))
    modifies builder
    ensures builder.Ok()
    ensures status.Ok? <==> c.comparator == None || c.comparator == Some(name)
    ensures status.Ok? || status.InvalidArgument?
    ensures status.Ok? ==> forall l :: 0 <= l < NUM_LEVELS ==>
              builder.levels[l] == ApplyLevel(old(builder.levels)[l], EditOf(c, tables), l)
    ensures numbers' == Noted(numbers, c)
  {
    hide EncodeItems, Items, FieldsFit, LevelsFit, ScanItems, ApplyLevel;
    EditRoundTrip(c, []);
    var edit := new VersionEdit();
    status := edit.DecodeFrom(record);
    assert [] + c.pointers == c.pointers;
    assert edit.Contents() == c;
    if edit.hasComparator && edit.comparator != name {
      status := InvalidArgument("does not match existing comparator");
    }
    if status.Ok? {
      EditIsValid(c, tables);
      builder.Apply(EditOf(edit.Contents(), tables));
    }
    numbers' := numbers;
    if edit.hasLogNumber {
      numbers' := numbers'.(log := Some(edit.logNumber));
    }
    if edit.hasPrevLogNumber {
      numbers' := numbers'.(prevLog := Some(edit.prevLogNumber));
    }
    if edit.hasNextFileNumber {
      numbers' := numbers'.(nextFile := Some(edit.nextFileNumber));
    }
    if edit.hasLastSequence {
      numbers' := numbers'.(lastSequence := Some(edit.lastSequence));
    }
  }

  /** The builder and the numbers after the first `n` edits. */
  ghost predicate AppliedFirst(levels: seq<LevelState>, numbers: Counters, edits: seq<Fields>, n: nat, tables: Tables)
    requires n <= |edits|
  {
    && numbers == LastNumbers(edits[..n])
    && |levels| == NUM_LEVELS
    && forall l :: 0 <= l < NUM_LEVELS ==> levels[l] == ApplyAll(LevelState({}, []), EditsOf(edits[..n], tables), l)
  }

  lemma AppliedNone(levels: seq<LevelState>, edits: seq<Fields>, tables: Tables)
    requires |levels| == NUM_LEVELS && forall l :: 0 <= l < NUM_LEVELS ==> levels[l] == LevelState({}, [])
    ensures AppliedFirst(levels, Counters(None, None, None, None), edits, 0, tables)
  {
  }

  lemma AppliedMore(levels: seq<LevelState>, numbers: Counters, levels': seq<LevelState>, edits: seq<Fields>, n: nat,
                    tables: Tables)
    requires n < |edits| && AppliedFirst(levels, numbers, edits, n, tables) && |levels'| == NUM_LEVELS
    requires forall l :: 0 <= l < NUM_LEVELS ==> levels'[l] == ApplyLevel(levels[l], EditOf(edits[n], tables), l)
    ensures AppliedFirst(levels', Noted(numbers, edits[n]), edits, n + 1, tables)
  {
    hide ApplyLevel, ApplyAll, EditOf;
    assert edits[..n + 1][..n] == edits[..n] && edits[..n + 1][n] == edits[n];
    forall l | 0 <= l < NUM_LEVELS
      ensures levels'[l] == ApplyAll(LevelState({}, []), EditsOf(edits[..n + 1], tables), l)
    {
      assert EditsOf(edits[..n + 1], tables) == EditsOf(edits[..n], tables) + [EditOf(edits[n], tables)];
      ApplyAllOneMore(LevelState({}, []), EditsOf(edits[..n], tables), EditOf(edits[n], tables), l);
    }
  }

  lemma {:induction false} ApplyAllOneMore(st: LevelState, edits: seq<Edit>, e: Edit, level: nat)
    ensures ApplyAll(st, edits + [e], level) == ApplyLevel(ApplyAll(st, edits, level), e, level)
    decreases |edits|
  {
    hide ApplyLevel;
    if edits == [] {
      assert ApplyAll(ApplyLevel(st, e, level), [], level) == ApplyLevel(st, e, level);
      assert (edits + [e])[1..] == [];
    } else {
      assert (edits + [e])[1..] == edits[1..] + [e];
      ApplyAllOneMore(ApplyLevel(st, edits[0], level), edits[1..], e, level);
    }
  }

  lemma EditAt(edits: seq<Fields>, n: nat)
    requires GoodEdits(edits) && n < |edits|
    ensures FieldsFit(edits[n]) && LevelsFit(edits[n]) && Records(edits)[n] == EncodeItems(Items(edits[n]))
  {
    assert edits[n] in edits;
  }

  lemma NoneNamed(edits: seq<Fields>, name: Bytes)
    ensures SameComparator(edits[..0], name)
  {
  }

  lemma OneMoreNamed(edits: seq<Fields>, n: nat, name: Bytes)
    requires n < |edits|
    ensures var c := edits[n].comparator;
            SameComparator(edits[..n + 1], name) <==> SameComparator(edits[..n], name) && (c == None || c == Some(name))
  {
    assert edits[..n + 1] == edits[..n] + [edits[n]];
  }

  lemma OtherNamed(edits: seq<Fields>, n: nat, k: nat, name: Bytes)
    requires n <= k <= |edits| && !SameComparator(edits[..n], name)
    ensures !SameComparator(edits[..k], name)
  {
    assert edits[..n] <= edits[..k];
  }

  /** Reading a manifest that was cut off at any byte applies exactly the edits that lie wholly before
      the cut, in order. It stops at an edit of another comparator, and fails when a number is missing. */
  method ReadManifest(crc: Crc, file: Bytes, name: Bytes, base: Version, tables: Tables, ghost edits: seq<Fields>)
    returns (builder: VersionBuilder, numbers: Counters, status: Status)
    requires GoodEdits(edits) && |base.levels| == NUM_LEVELS && file <= Stream(crc, 0, Records(edits))
    ensures fresh(builder) && builder.Ok() && builder.base == base
    ensures var k := Kept(crc, edits, |file|);
            if SameComparator(edits[..k], name)
            then AppliedFirst(builder.levels, numbers, edits, k, tables) &&
                 (status.Ok? <==> numbers.nextFile.Some? && numbers.log.Some? && numbers.lastSequence.Some?)
            else status.InvalidArgument?
  {
    hide Stream, Whole, ReadLog, Progress, AppliedFirst, FieldsFit, LevelsFit, ApplyLevel, Records, SameComparator, GoodEdits,
      EncodeItems, Items;
    NoneNamed(edits, name);
    builder := new VersionBuilder(base);
    numbers, status := Counters(None, None, None, None), Ok;
    AppliedNone(builder.levels, edits, tables);
    ghost var k := Kept(crc, edits, |file|);
    ghost var records := Records(edits)[..k];
    CutIsWhole(crc, file, Records(edits));
    WholeIsLongest(crc, 0, Records(edits), |file|);
    ghost var n := 0;
    var reader, ok, record := ReadFirst(crc, file, records);
    ProgressMeans(reader, records, n, ok, record);
    while ok && status.Ok?
      invariant fresh(reader) && Progress(reader, records, n, ok, record)
      invariant fresh(builder) && builder.Ok() && builder.base == base
      invariant n <= k && (if ok then n < k && record == records[n] else n == k)
      invariant status.Ok? || status.InvalidArgument?
      invariant if status.Ok? then SameComparator(edits[..n], name) && AppliedFirst(builder.levels, numbers, edits, n, tables)
                else !SameComparator(edits[..n], name)
      decreases |edits| - n
    {
      ghost var c := edits[n];
      EditAt(edits, n);
      ghost var levels, before := builder.levels, numbers;
      numbers, status := RecoverEdit(record, name, builder, tables, numbers, c);
      if status.Ok? {
        AppliedMore(levels, before, builder.levels, edits, n, tables);
      }
      OneMoreNamed(edits, n, name);
      ok, record := ReadNext(reader, records, n, record);
      n := n + 1;
      ProgressMeans(reader, records, n, ok, record);
    }
    if status.Ok? {
      if numbers.nextFile.None? {
        status := Corruption("no meta-nextfile entry in descriptor");
      } else if numbers.log.None? {
        status := Corruption("no meta-lognumber entry in descriptor");
      } else if numbers.lastSequence.None? {
        status := Corruption("no last-sequence-number entry in descriptor");
      }
    } else {
      OtherNamed(edits, n, k, name);
    }
  }

  // ----- The recovered version -----

  lemma {:induction false} FreshPrefix(used: set<nat>, edits: seq<Edit>, k: nat, level: nat)
    requires AddsFresh(used, edits, level) && k <= |edits|
    ensures AddsFresh(used, edits[..k], level)
    decreases k
  {
    hide NumbersFresh;
    if k > 0 {
      assert edits[..k][1..] == edits[1..][..k - 1];
      FreshPrefix(used + Numbers(AddedAt(edits[0].added, level)), edits[1..], k - 1, level);
    }
  }

  lemma {:induction false} ReplayOrdered(st: LevelState, edits: seq<Edit>, level: nat, used: set<nat>)
    requires InOrder(st.added) && Numbers(ToSet(st.added)) <= used && AddsFresh(used, edits, level)
    ensures InOrder(ApplyAll(st, edits, level).added)
    decreases |edits|
  {
    if edits != [] {
      var e := edits[0];
      var st0 := st.(deleted := st.deleted + DeletedAt(e, level));
      assert NumbersFresh(Numbers(ToSet(st.added)), e.added, level);
      AddFilesIs(st0, e.added, level);
      var used' := used + Numbers(AddedAt(e.added, level));
      ReplayOrdered(ApplyLevel(st, e, level), edits[1..], level, used');
    }
  }

  /** The files of each level are those that applying and saving the edits one at a time leaves. */
  ghost predicate IsReplay(v: Version, edits: seq<Edit>) {
    |v.levels| == NUM_LEVELS && forall l :: 0 <= l < NUM_LEVELS ==> OneAtATime([], edits, l, v.levels[l])
  }

  const EMPTY := Version(seq(NUM_LEVELS, _ => []))

  /** The version recovered from a manifest that was cut off at any byte has on every level the files
      that applying and saving the edits wholly before the cut, one at a time, leaves there. */
  method Recover(crc: Crc, file: Bytes, name: Bytes, tables: Tables, ghost edits: seq<Fields>)
    returns (v: Version, numbers: Counters, status: Status)
    requires GoodEdits(edits) && file <= Stream(crc, 0, Records(edits))
    requires forall l :: 0 <= l < NUM_LEVELS ==> AddsFresh({}, EditsOf(edits, tables), l)
    ensures var kept := edits[..Kept(crc, edits, |file|)];
            if SameComparator(kept, name)
            then numbers == LastNumbers(kept) &&
                 (status.Ok? <==> numbers.nextFile.Some? && numbers.log.Some? && numbers.lastSequence.Some?)
            else status.InvalidArgument?
    ensures status.Ok? ==> IsReplay(v, EditsOf(edits[..Kept(crc, edits, |file|)], tables))
  {
    hide Stream, Records, GoodEdits, AddsFresh, EditsOf, OneAtATime, LastNumbers, SameComparator, ApplyAll, IsSaved;
    var builder;
    builder, numbers, status := ReadManifest(crc, file, name, EMPTY, tables, edits);
    v := EMPTY;
    if status.Ok? {
      ghost var k := Kept(crc, edits, |file|);
      ghost var replay := EditsOf(edits[..k], tables);
      forall l | 0 <= l < NUM_LEVELS
        ensures InOrder(builder.levels[l].added) && AddsFresh({}, replay, l)
      {
        KeptFresh(edits, k, tables, l);
      }
      v := builder.SaveTo();
      forall l | 0 <= l < NUM_LEVELS
        ensures OneAtATime([], replay, l, v.levels[l])
      {
        SavedOneAtATime(replay, l, v.levels[l]);
      }
    }
  }

  lemma KeptFresh(edits: seq<Fields>, k: nat, tables: Tables, l: nat)
    requires k <= |edits| && AddsFresh({}, EditsOf(edits, tables), l)
    ensures AddsFresh({}, EditsOf(edits[..k], tables), l)
    ensures InOrder(ApplyAll(LevelState({}, []), EditsOf(edits[..k], tables), l).added)
  {
    hide AddsFresh;
    assert EditsOf(edits[..k], tables) == EditsOf(edits, tables)[..k];
    FreshPrefix({}, EditsOf(edits, tables), k, l);
    ReplayOrdered(LevelState({}, []), EditsOf(edits[..k], tables), l, {});
  }

  lemma SavedOneAtATime(replay: seq<Edit>, l: nat, files: seq<File>)
    requires AddsFresh({}, replay, l) && IsSaved([], ApplyAll(LevelState({}, []), replay, l), files)
    ensures OneAtATime([], replay, l, files)
  {
    hide AddsFresh, OneAtATime, ApplyAll;
    var none: seq<File> := [];
    assert Saved(none, LevelState({}, [])) == {};
    var to := SaveEach(none, replay, l, {});
    ReplayIsOneAtATime(none, LevelState({}, []), none, replay, l, {}, to);
    OrderedListUnique(files, to);
  }

  /** Files that have numbers of their own. */
  ghost predicate OwnNumbers(fs: set<File>) {
    forall f, g :: f in fs && g in fs && f.number == g.number ==> f == g
  }

  lemma {:induction false} InOneList(fs: set<File>) returns (files: seq<File>)
    requires OwnNumbers(fs)
    ensures InOrder(files) && ToSet(files) == fs
  {
    if fs == {} {
      files := [];
    } else {
      var f :| f in fs;
      var rest := InOneList(fs - {f});
      InsertFileOrdered(rest, f);
      files := InsertFile(rest, f);
      forall g | g in rest
        ensures !Tie(f, g)
      {
        assert g in ToSet(rest);
        BySmallestIsOrder(f, g, g);
      }
      forall g
        ensures g in files <==> g in fs
      {
        assert g in rest <==> g in ToSet(rest);
      }
    }
  }

  /** Saving after every edit can be done. */
  lemma {:induction false} SaveEach(from: seq<File>, edits: seq<Edit>, level: nat, used: set<nat>) returns (to: seq<File>)
    requires InOrder(from) && OwnNumbers(ToSet(from)) && Numbers(ToSet(from)) <= used && AddsFresh(used, edits, level)
    ensures OneAtATime(from, edits, level, to)
    decreases |edits|
  {
    if edits == [] {
      to := from;
    } else {
      var e := edits[0];
      var mid := SaveOne(from, e, level, used);
      var used' := used + Numbers(AddedAt(e.added, level));
      to := SaveEach(mid, edits[1..], level, used');
    }
  }

  lemma SaveOne(from: seq<File>, e: Edit, level: nat, used: set<nat>) returns (mid: seq<File>)
    requires InOrder(from) && OwnNumbers(ToSet(from)) && Numbers(ToSet(from)) <= used && NumbersFresh(used, e.added, level)
    ensures IsSaved(from, ApplyLevel(LevelState({}, []), e, level), mid)
    ensures InOrder(mid) && OwnNumbers(ToSet(mid))
    ensures Numbers(ToSet(mid)) <= used + Numbers(AddedAt(e.added, level))
  {
    var one0 := LevelState({} + DeletedAt(e, level), []);
    AddFilesIs(one0, e.added, level);
    var st := ApplyLevel(LevelState({}, []), e, level);
    var fs := Saved(from, st);
    forall f | f in fs
      ensures (f in ToSet(from) && f.number in used) || f in AddedAt(e.added, level)
    {
      if f in from {
        assert f.number in Numbers(ToSet(from));
      } else {
        assert f in ToSet(st.added);
      }
    }
    assert OwnNumbers(fs);
    mid := InOneList(fs);
  }
}
