/** Choosing the inputs of a compaction, and the loop that merges them, drops what no reader can
    see any more and cuts the rest into output files. */
module Compaction {
  import opened Keys
  import opened Files
  import opened Versions

  // ----- Choosing inputs -----

  /** The user-key range the files span. */
  ghost predicate Spans(files: seq<File>, lo: UserKey, hi: UserKey) {
    && (exists f :: f in files && f.smallest.user == lo)
    && (exists f :: f in files && f.largest.user == hi)
    && forall f :: f in files ==> lo <= f.smallest.user && f.largest.user <= hi
  }

  /** No file outside `inputs` holds a user key in the range that `inputs` span. */
  ghost predicate TakesAll(files: seq<File>, inputs: seq<File>) {
    exists lo: Bound, hi: Bound :: Closed(files, lo, hi) && inputs == Overlapping(files, lo, hi)
  }

  lemma RangeSpans(files: seq<File>, smallest: IKey, largest: IKey)
    requires IsRange(files, smallest, largest)
    ensures Spans(files, smallest.user, largest.user)
  {
  }

  /** At level 0 a picked file draws in every file that overlaps it, directly or through others. */
  method PickLevelZero(files: seq<File>, picked: File) returns (inputs: seq<File>)
    requires ValidFiles(files) && picked in files
    ensures picked in inputs && TakesAll(files, inputs)
  {
    var smallest, largest := GetRange([picked]);
    ghost var lo, hi;
    assert picked in [picked];
    inputs, lo, hi := GetOverlappingInputs(true, files, Some(smallest.user), Some(largest.user));
    RangeSpans([picked], smallest, largest);
    WithinFile(picked, picked.entries[0]);
    assert Overlaps(picked, lo, hi);
  }

  /** The files of `files` that the span of `inputs` overlaps. */
  ghost predicate IsOverlapOf(files: seq<File>, inputs: seq<File>, r: seq<File>) {
    exists lo, hi :: Spans(inputs, lo, hi) && r == Overlapping(files, Some(lo), Some(hi))
  }

  /** The inputs at the next level for given inputs. */
  method OverlapOf(files: seq<File>, inputs: seq<File>) returns (r: seq<File>, smallest: IKey, largest: IKey)
    requires ValidFiles(files) && |inputs| > 0
    ensures IsOverlapOf(files, inputs, r) && IsRange(inputs, smallest, largest)
    ensures r == Overlapping(files, Some(smallest.user), Some(largest.user))
  {
    smallest, largest := GetRange(inputs);
    RangeSpans(inputs, smallest, largest);
    ghost var lo, hi;
    r, lo, hi := GetOverlappingInputs(false, files, Some(smallest.user), Some(largest.user));
  }

  /** Widen the inputs of `level` when that draws in no further file of `level + 1`. */
  method SetupOtherInputs(v: Version, level: nat, picked: seq<File>, limit: nat)
    returns (inputs0: seq<File>, inputs1: seq<File>, grandparents: seq<File>)
    requires EachLevelInv(v) && level + 1 < NUM_LEVELS && |picked| > 0
    requires forall f :: f in picked ==> f in v.levels[level]
    requires level == 0 ==> TakesAll(v.levels[0], picked)
    ensures forall f :: f in picked ==> f in inputs0
    ensures forall f :: f in inputs0 ==> f in v.levels[level]
    ensures level == 0 ==> TakesAll(v.levels[0], inputs0)
    // the inputs of level + 1 are exactly the files that the final inputs of level overlap, and
    // widening has drawn in none
    ensures IsOverlapOf(v.levels[level + 1], inputs0, inputs1) && IsOverlapOf(v.levels[level + 1], picked, inputs1)
    ensures inputs0 != picked ==> |inputs0| > |picked| && TotalFileSize(inputs1) + TotalFileSize(inputs0) < limit
    ensures level + 2 < NUM_LEVELS ==> IsOverlapOf(v.levels[level + 2], inputs0 + inputs1, grandparents)
  {
    var next := v.levels[level + 1];
    assert LevelInv(level == 0, v.levels[level]) && LevelInv(false, next);
    inputs0 := picked;
    var smallest, largest;
    inputs1, smallest, largest := OverlapOf(next, inputs0);
    if |inputs1| > 0 {
      var allStart, allLimit := GetRange(inputs0 + inputs1);
      ghost var lo, hi;
      var expanded0;
      expanded0, lo, hi := GetOverlappingInputs(level == 0, v.levels[level], Some(allStart.user), Some(allLimit.user));
      ExpansionKeeps(v.levels[level], picked, inputs1, allStart, allLimit, lo, hi);
      var inputs1Size := TotalFileSize(inputs1);
      var expanded0Size := TotalFileSize(expanded0);
      if |expanded0| > |inputs0| && inputs1Size + expanded0Size < limit {
        var expanded1, newStart, newLimit := OverlapOf(next, expanded0);
        RangeGrows(picked, expanded0, smallest, largest, newStart, newLimit);
        OverlappingGrows(next, smallest.user, largest.user, newStart.user, newLimit.user);
        if |expanded1| == |inputs1| {
          inputs0, inputs1 := expanded0, expanded1;
        }
      }
    }
    grandparents := [];
    if level + 2 < NUM_LEVELS {
      assert LevelInv(false, v.levels[level + 2]);
      var start, limit;
      grandparents, start, limit := OverlapOf(v.levels[level + 2], inputs0 + inputs1);
    }
  }

  lemma RangeGrows(a: seq<File>, b: seq<File>, s: IKey, l: IKey, s': IKey, l': IKey)
    requires IsRange(a, s, l) && IsRange(b, s', l') && forall f :: f in a ==> f in b
    ensures s'.user <= s.user && l.user <= l'.user
  {
  }

  /** A wider range overlaps at least the same files; as many means the same. */
  lemma OverlappingGrows(files: seq<File>, lo: UserKey, hi: UserKey, lo': UserKey, hi': UserKey)
    requires lo' <= lo && hi <= hi'
    ensures |Overlapping(files, Some(lo), Some(hi))| <= |Overlapping(files, Some(lo'), Some(hi'))|
    ensures |Overlapping(files, Some(lo), Some(hi))| == |Overlapping(files, Some(lo'), Some(hi'))| ==>
              Overlapping(files, Some(lo), Some(hi)) == Overlapping(files, Some(lo'), Some(hi'))
  {
  }

  lemma ExpansionKeeps(files: seq<File>, picked: seq<File>, others: seq<File>, start: IKey, limit: IKey, lo: Bound, hi: Bound)
    requires ValidFiles(files) && IsRange(picked + others, start, limit)
    requires forall f :: f in picked ==> f in files
    requires Contains(lo, hi, Some(start.user), Some(limit.user))
    ensures forall f :: f in picked ==> f in Overlapping(files, lo, hi)
  {
    forall f | f in picked
      ensures Overlaps(f, lo, hi)
    {
      assert f in picked + others;
      WithinFile(f, f.entries[0]);
    }
  }

  // ----- What a compaction drops -----

  /** No file two or more levels down covers the user key. */
  ghost predicate BaseLevel(v: Version, level: nat, user: UserKey) {
    forall l, f :: level + 2 <= l < |v.levels| && f in v.levels[l] ==> !(f.smallest.user <= user <= f.largest.user)
  }

  /** Entry `i` of the merged input is dropped: a newer entry of its user key already serves every
      snapshot from `snap` on, or it is a deletion with nothing left below to hide. */
  ghost predicate Dropped(v: Version, level: nat, snap: nat, input: seq<Entry>, i: nat)
    requires i < |input|
  {
    var key := input[i].key;
    (i > 0 && input[i - 1].key.user == key.user && input[i - 1].key.sn <= snap) ||
    (key.kind.Deletion? && key.sn <= snap && BaseLevel(v, level, key.user))
  }

  /** What is kept of the first `n` input entries. */
  ghost function Kept(v: Version, level: nat, snap: nat, input: seq<Entry>, n: nat): seq<Entry>
    requires n <= |input|
  {
    if n == 0 then []
    else Kept(v, level, snap, input, n - 1) + if Dropped(v, level, snap, input, n - 1) then [] else [input[n - 1]]
  }

  lemma {:induction false} KeptIs(v: Version, level: nat, snap: nat, input: seq<Entry>, n: nat)
    requires n <= |input| && Sorted(input)
    ensures forall e :: e in Kept(v, level, snap, input, n) <==>
              exists i :: 0 <= i < n && input[i] == e && !Dropped(v, level, snap, input, i)
    ensures Sorted(Kept(v, level, snap, input, n))
  {
    if n > 0 {
      KeptIs(v, level, snap, input, n - 1);
      var k := Kept(v, level, snap, input, n - 1);
      forall j | 0 <= j < |k|
        ensures Precedes(k[j].key, input[n - 1].key)
      {
        assert k[j] in k;
      }
    }
  }

  // ----- The compaction -----

  function Flatten(files: seq<File>): seq<Entry> {
    if files == [] then [] else Flatten(files[..|files| - 1]) + files[|files| - 1].entries
  }

  class CompactionJob {
    const version: Version
    const level: nat
    const grandparents: seq<File>
    const maxGrandparentOverlap: nat
    const levelPtrs: array<nat>  // for each level, the files already passed by IsBaseLevelForKey
    var grandparentIndex: nat
    var seenKey: bool
    var overlappedBytes: nat
    ghost var asked: Option<UserKey>  // the last user key asked about

    ghost predicate Ok()
      reads this, levelPtrs
    {
      EachLevelInv(version) && level + 1 < NUM_LEVELS && grandparentIndex <= |grandparents| && PtrsOk()
    }

    /** Every file passed ends before the last user key asked about. */
    ghost predicate PtrsOk()
      reads this`asked, levelPtrs
    {
      && |version.levels| == NUM_LEVELS
      && levelPtrs.Length == NUM_LEVELS
      && (forall l :: level + 2 <= l < NUM_LEVELS ==> levelPtrs[l] <= |version.levels[l]|)
      && (forall l, j :: level + 2 <= l < NUM_LEVELS && 0 <= j < levelPtrs[l] ==>
            asked.Some? && version.levels[l][j].largest.user < asked.value)
    }

    constructor (v: Version, lvl: nat, gps: seq<File>, maxOverlap: nat)
      requires EachLevelInv(v) && lvl + 1 < NUM_LEVELS
      ensures Ok() && fresh(levelPtrs) && version == v && level == lvl && asked == None
    {
      version, level, grandparents, maxGrandparentOverlap := v, lvl, gps, maxOverlap;
      levelPtrs := new nat[NUM_LEVELS](_ => 0);
      grandparentIndex, seenKey, overlappedBytes := 0, false, 0;
      asked := None;
    }

    /** Asked in increasing order of user key, the pointers that only move forward give the answer
        of a full scan of the deeper levels. */
    method IsBaseLevelForKey(user: UserKey) returns (r: bool)
      requires Ok() && (asked.Some? ==> asked.value <= user)
      modifies this`asked, levelPtrs
      ensures Ok() && asked == Some(user)
      ensures r <==> BaseLevel(version, level, user)
    {
      asked := Some(user);
      var lvl := level + 2;
      while lvl < NUM_LEVELS
        invariant Ok() && asked == Some(user)
        invariant forall l, f :: level + 2 <= l < lvl && l < NUM_LEVELS && f in version.levels[l] ==>
                    !(f.smallest.user <= user <= f.largest.user)
      {
        var files := version.levels[lvl];
        assert LevelInv(false, files);
        while levelPtrs[lvl] < |files|
          invariant Ok() && asked == Some(user)
          decreases |files| - levelPtrs[lvl]
        {
          var f := files[levelPtrs[lvl]];
          if user <= f.largest.user {
            if user >= f.smallest.user {
              assert f in version.levels[lvl];
              return false;
            }
            break;
          }
          levelPtrs[lvl] := levelPtrs[lvl] + 1;
        }
        PassedLevel(files, levelPtrs[lvl], user);
        lvl := lvl + 1;
      }
      return true;
    }

    /** Whether to close the current output before `key`: it overlaps too much of the level after
        next. */
    method ShouldStopBefore(key: IKey) returns (r: bool)
      requires Ok()
      modifies this`grandparentIndex, this`seenKey, this`overlappedBytes
      ensures Ok() && seenKey && old(grandparentIndex) <= grandparentIndex
      ensures forall j :: old(grandparentIndex) <= j < grandparentIndex ==> Before(grandparents[j].largest, key)
      ensures grandparentIndex < |grandparents| ==> !Before(grandparents[grandparentIndex].largest, key)
      ensures var bytes := old(overlappedBytes) +
                           if old(seenKey) then TotalFileSize(grandparents[old(grandparentIndex)..grandparentIndex]) else 0;
              (r <==> bytes > maxGrandparentOverlap) && overlappedBytes == if r then 0 else bytes
    {
      ghost var from := grandparentIndex;
      while grandparentIndex < |grandparents| && Compare(key, grandparents[grandparentIndex].largest) > 0
        invariant seenKey == old(seenKey) && asked == old(asked)
        invariant Ok() && from <= grandparentIndex
        invariant forall j :: from <= j < grandparentIndex ==> Before(grandparents[j].largest, key)
        invariant overlappedBytes == old(overlappedBytes) +
                    if seenKey then TotalFileSize(grandparents[from..grandparentIndex]) else 0
        decreases |grandparents| - grandparentIndex
      {
        TotalExtends(grandparents, from, grandparentIndex);
        if seenKey {
          overlappedBytes := overlappedBytes + grandparents[grandparentIndex].size;
        }
        grandparentIndex := grandparentIndex + 1;
      }
      seenKey := true;
      if overlappedBytes > maxGrandparentOverlap {
        overlappedBytes := 0;
        return true;
      } else {
        return false;
      }
    }

    /** Merge the inputs, drop what is obsolete, and cut the rest into output files. `fileSize` is
        the size a table with those entries has on disk so far. */
    method DoCompactionWork(input: seq<Entry>, snap: nat, firstNumber: nat, fileSize: seq<Entry> -> nat, maxOutputSize: nat)
      returns (outputs: seq<File>)
      requires Ok() && asked == None && Sorted(input) && snap < MAX_SEQUENCE
      requires forall e :: e in input ==> e.key.sn <= MAX_SEQUENCE
      modifies this, levelPtrs
      ensures Flatten(outputs) == Kept(version, level, snap, input, |input|)
      ensures ValidFiles(outputs)
      ensures forall i :: 0 <= i < |outputs| ==> outputs[i].number == firstNumber + i
    {
      hide WorkOk, Flatten, Kept, Sorted, ValidFiles, Dropped, Ok;
      outputs := [];
      WorkEnds(outputs, firstNumber, input, snap, 0);
      var builder: Option<seq<Entry>> := None;
      var currentUserKey: Option<UserKey> := None;
      var lastSequenceForKey := MAX_SEQUENCE;
      for i := 0 to |input|
        invariant Ok() && Follows(input, i, currentUserKey, lastSequenceForKey)
        invariant WorkOk(outputs, builder, firstNumber, input, snap, i)
      {
        var stop := ShouldStopBefore(input[i].key);
        if stop && builder.Some? {
          outputs := FinishOutput(outputs, builder.value, firstNumber, fileSize, input, snap, i);
          builder := None;
        }
        WorkGoesOn(outputs, builder, firstNumber, input, snap, i);
        var drop;
        drop, currentUserKey, lastSequenceForKey := DropEntry(input, i, snap, currentUserKey, lastSequenceForKey);
        if !drop {
          builder := Some(Pending(builder) + [input[i]]);
          if fileSize(builder.value) >= maxOutputSize {
            outputs := FinishOutput(outputs, builder.value, firstNumber, fileSize, input, snap, i + 1);
            builder := None;
          }
        }
      }
      if builder.Some? {
        outputs := FinishOutput(outputs, builder.value, firstNumber, fileSize, input, snap, |input|);
      }
      WorkEnds(outputs, firstNumber, input, snap, |input|);
    }

    lemma WorkGoesOn(outputs: seq<File>, builder: Option<seq<Entry>>, firstNumber: nat, input: seq<Entry>, snap: nat, i: nat)
      requires i < |input| && WorkOk(outputs, builder, firstNumber, input, snap, i)
      ensures WorkOk(outputs, if Dropped(version, level, snap, input, i) then builder else Some(Pending(builder) + [input[i]]),
                     firstNumber, input, snap, i + 1)
    {
      hide Flatten, ValidFiles, Dropped;
    }

    /** With no output open. */
    lemma WorkEnds(outputs: seq<File>, firstNumber: nat, input: seq<Entry>, snap: nat, n: nat)
      requires n <= |input|
      ensures outputs == [] && n == 0 ==> WorkOk(outputs, None, firstNumber, input, snap, n)
      ensures WorkOk(outputs, None, firstNumber, input, snap, n) ==>
                && Flatten(outputs) == Kept(version, level, snap, input, n) && ValidFiles(outputs)
                && forall i :: 0 <= i < |outputs| ==> outputs[i].number == firstNumber + i
    {
      assert Flatten(outputs) + [] == Flatten(outputs);
    }

    /** The loop's memory of the previous entry. */
    ghost predicate Follows(input: seq<Entry>, i: nat, current: Option<UserKey>, last: nat)
      requires i <= |input|
      reads this`asked
    {
      && (asked.Some? ==> i > 0 && asked.value <= input[i - 1].key.user)
      && (current.Some? <==> i > 0)
      && (i > 0 ==> current == Some(input[i - 1].key.user) && last == input[i - 1].key.sn)
    }

    /** The finished outputs and the open one hold what is kept of the first `n` entries. */
    ghost predicate WorkOk(outputs: seq<File>, builder: Option<seq<Entry>>, firstNumber: nat, input: seq<Entry>, snap: nat, n: nat)
      requires n <= |input|
    {
      && (builder.Some? ==> |builder.value| > 0)
      && Flatten(outputs) + Pending(builder) == Kept(version, level, snap, input, n)
      && ValidFiles(outputs)
      && forall j :: 0 <= j < |outputs| ==> outputs[j].number == firstNumber + j
    }

    /** Decide whether entry `i` is dropped, remembering its user key and sequence number. */
    method DropEntry(input: seq<Entry>, i: nat, snap: nat, current: Option<UserKey>, last: nat)
      returns (drop: bool, current': Option<UserKey>, last': nat)
      requires Ok() && i < |input| && Sorted(input) && snap < MAX_SEQUENCE && Follows(input, i, current, last)
      modifies this`asked, levelPtrs
      ensures Ok() && Follows(input, i + 1, current', last')
      ensures drop <==> Dropped(version, level, snap, input, i)
    {
      var key := input[i].key;
      current', last' := current, last;
      if current'.None? || key.user != current'.value {
        // first occurrence of this user key
        current' := Some(key.user);
        last' := MAX_SEQUENCE;
      }
      drop := false;
      if last' <= snap {
        drop := true;  // hidden by a newer entry for the same user key
      } else if key.kind.Deletion? && key.sn <= snap {
        assert asked.Some? ==> Precedes(input[i - 1].key, key);
        drop := IsBaseLevelForKey(key.user);
      }
      assert i > 0 ==> Precedes(input[i - 1].key, key);
      last' := key.sn;
    }

    function Pending(builder: Option<seq<Entry>>): seq<Entry> {
      if builder.Some? then builder.value else []
    }

    method FinishOutput(outputs: seq<File>, entries: seq<Entry>, firstNumber: nat, fileSize: seq<Entry> -> nat,
                        ghost input: seq<Entry>, ghost snap: nat, ghost n: nat) returns (r: seq<File>)
      requires n <= |input| && Sorted(input)
      requires forall e :: e in input ==> e.key.sn <= MAX_SEQUENCE
      requires WorkOk(outputs, Some(entries), firstNumber, input, snap, n)
      ensures |r| == |outputs| + 1 && WorkOk(r, None, firstNumber, input, snap, n)
    {
      var f := File(firstNumber + |outputs|, fileSize(entries), entries[0].key, entries[|entries| - 1].key, entries);
      r := outputs + [f];
      assert r[..|r| - 1] == outputs;
      KeptIs(version, level, snap, input, n);
      SuffixOfSorted(Flatten(outputs), entries);
      assert ValidFile(f) by {
        forall e | e in entries
          ensures e.key.sn <= MAX_SEQUENCE
        {
          assert e in Kept(version, level, snap, input, n);
        }
      }
    }
  }

  lemma SuffixOfSorted(a: seq<Entry>, b: seq<Entry>)
    requires Sorted(a + b)
    ensures Sorted(b)
  {
    assert forall i :: 0 <= i < |b| ==> b[i] == (a + b)[|a| + i];
  }

  lemma PassedLevel(files: seq<File>, p: nat, user: UserKey)
    requires LevelInv(false, files) && p <= |files|
    requires forall j :: 0 <= j < p ==> files[j].largest.user < user
    requires p < |files| ==> user < files[p].smallest.user
    ensures forall f :: f in files ==> !(f.smallest.user <= user <= f.largest.user)
  {
    forall f | f in files
      ensures !(f.smallest.user <= user <= f.largest.user)
    {
      var j :| 0 <= j < |files| && files[j] == f;
      if p < j {
        assert files[p] in files;
        WithinFile(files[p], files[p].entries[0]);
        assert Precedes(files[p].largest, f.smallest);
      }
    }
  }

  lemma {:induction false} TotalExtends(files: seq<File>, from: nat, to: nat)
    requires from <= to < |files|
    decreases |files| - from
    ensures TotalFileSize(files[from..to + 1]) == TotalFileSize(files[from..to]) + files[to].size
  {
    if from < to {
      TotalExtends(files, from + 1, to);
      assert files[from..to + 1][1..] == files[from + 1..to + 1];
      assert files[from..to][1..] == files[from + 1..to];
    }
  }
}
