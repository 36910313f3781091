/** A version of the store: the files of every level, what a reader may rely on about them, and
    point lookup. */
module Versions {
  import opened Keys
  import opened Files

  datatype Version = Version(levels: seq<seq<File>>)

  ghost function AllEntries(v: Version): set<Entry> {
    set l, e | 0 <= l < |v.levels| && e in EntriesOf(v.levels[l]) :: e
  }

  /** Every entry of `a` is newer than every entry of `b` with the same user key. */
  ghost predicate Newer(a: set<Entry>, b: set<Entry>) {
    forall e, d :: e in a && d in b && e.key.user == d.key.user ==> e.key.sn > d.key.sn
  }

  /** Files in the order the builder keeps them: by smallest key, ties by number. */
  predicate BySmallest(a: File, b: File) {
    Compare(a.smallest, b.smallest) < 0 || (a.smallest == b.smallest && a.number < b.number)
  }

  ghost predicate InOrder(files: seq<File>) {
    forall i, j :: 0 <= i < j < |files| ==> BySmallest(files[i], files[j])
  }

  ghost predicate DistinctNumbers(files: seq<File>) {
    forall i, j :: 0 <= i < j < |files| ==> files[i].number != files[j].number
  }

  /** Level-0 files may overlap, but a higher number means newer entries. */
  ghost predicate RecencyByNumber(files: seq<File>) {
    forall f, g :: f in files && g in files && f.number > g.number ==> Newer(ToSet(f.entries), ToSet(g.entries))
  }

  /** What holds of one level by itself. */
  ghost predicate LevelInv(zero: bool, files: seq<File>) {
    && ValidFiles(files)
    && InOrder(files)
    && DistinctNumbers(files)
    && (if zero then RecencyByNumber(files) else LevelOk(files))
  }

  ghost predicate EachLevelInv(v: Version) {
    |v.levels| == NUM_LEVELS && forall l :: 0 <= l < NUM_LEVELS ==> LevelInv(l == 0, v.levels[l])
  }

  /** An entry in a shallower level is newer than the deeper ones of its user key. */
  ghost predicate LevelsByAge(v: Version) {
    forall l, m :: 0 <= l < m < |v.levels| ==> Newer(EntriesOf(v.levels[l]), EntriesOf(v.levels[m]))
  }

  /** The invariant of every version. */
  ghost predicate Inv(v: Version) {
    EachLevelInv(v) && LevelsByAge(v)
  }

  // ----- Version::Get -----

  function InsertNewest(f: File, files: seq<File>): (r: seq<File>)
    ensures forall g :: g in r <==> g == f || g in files
  {
    if files == [] || f.number > files[0].number then [f] + files
    else [files[0]] + InsertNewest(f, files[1..])
  }

  /** The library's sort with the comparison "higher number first". */
  function SortNewestFirst(files: seq<File>): (r: seq<File>)
    ensures forall g :: g in r <==> g in files
  {
    if files == [] then [] else InsertNewest(files[0], SortNewestFirst(files[1..]))
  }

  ghost predicate NewestFirst(files: seq<File>) {
    forall i, j :: 0 <= i < j < |files| ==> files[i].number >= files[j].number
  }

  lemma {:induction false} SortedNewestFirst(files: seq<File>)
    ensures NewestFirst(SortNewestFirst(files))
  {
    if files != [] {
      SortedNewestFirst(files[1..]);
      InsertKeepsNewestFirst(files[0], SortNewestFirst(files[1..]));
    }
  }

  lemma {:induction false} InsertKeepsNewestFirst(f: File, files: seq<File>)
    requires NewestFirst(files)
    ensures NewestFirst(InsertNewest(f, files))
  {
    if files != [] && f.number <= files[0].number {
      InsertKeepsNewestFirst(f, files[1..]);
      var r := InsertNewest(f, files[1..]);
      forall j | 0 <= j < |r|
        ensures files[0].number >= r[j].number
      {
        assert r[j] in r;
      }
    }
  }

  /** Searching `fs` in order finds the newest visible entry of the level. */
  ghost predicate Suffices(files: seq<File>, fs: seq<File>, user: UserKey, s: nat) {
    && (forall f :: f in fs ==> f in files)
    && (forall i, j :: 0 <= i < j < |fs| ==> Newer(ToSet(fs[i].entries), ToSet(fs[j].entries)))
    && (forall f, e :: f in files && f !in fs && e in f.entries && Visible(e, user, s) ==>
          exists g, d :: g in fs && d in g.entries && Visible(d, user, s) && d.key.sn > e.key.sn)
  }

  /** The files of a level to search for `user`: at level 0 all that cover it, newest first; below,
      the one file a binary search finds. */
  method FilesToSearch(zero: bool, files: seq<File>, user: UserKey, s: nat) returns (fs: seq<File>)
    requires LevelInv(zero, files)
    ensures Suffices(files, fs, user, s)
  {
    if zero {
      var tmp := [];
      ghost var at: seq<nat> := [];
      for i := 0 to |files|
        invariant |at| == |tmp| && forall j :: 0 <= j < |tmp| ==> at[j] < i && files[at[j]] == tmp[j]
        invariant forall j, k :: 0 <= j < k < |tmp| ==> at[j] < at[k]
        invariant forall j :: 0 <= j < i && files[j].smallest.user <= user <= files[j].largest.user ==> files[j] in tmp
      {
        var f := files[i];
        if user >= f.smallest.user && user <= f.largest.user {
          tmp := tmp + [f];
          at := at + [i];
        }
      }
      fs := SortNewestFirst(tmp);
      assert DistinctNumbers(tmp);
      LevelZeroSuffices(files, tmp, user, s);
    } else {
      var index := FindFile(files, SeekKey(user, s));
      if index >= |files| || user < files[index].smallest.user {
        fs := [];
      } else {
        fs := [files[index]];
      }
      DeepLevelSuffices(files, index, user, s);
    }
  }

  lemma LevelZeroSuffices(files: seq<File>, tmp: seq<File>, user: UserKey, s: nat)
    requires ValidFiles(files) && RecencyByNumber(files) && DistinctNumbers(tmp)
    requires forall f :: f in tmp ==> f in files
    requires forall f :: f in files && f.smallest.user <= user <= f.largest.user ==> f in tmp
    ensures Suffices(files, SortNewestFirst(tmp), user, s)
  {
    var fs := SortNewestFirst(tmp);
    SortedNewestFirst(tmp);
    forall i, j | 0 <= i < j < |fs|
      ensures Newer(ToSet(fs[i].entries), ToSet(fs[j].entries))
    {
      DistinctAfterSort(tmp, i, j);
      assert fs[i] in fs && fs[j] in fs;
    }
    forall f, e | f in files && e in f.entries && Visible(e, user, s)
      ensures f in fs
    {
      WithinFile(f, e);
    }
  }

  lemma {:induction false} SortIsPermutation(files: seq<File>)
    ensures multiset(SortNewestFirst(files)) == multiset(files)
  {
    if files != [] {
      SortIsPermutation(files[1..]);
      InsertIsPermutation(files[0], SortNewestFirst(files[1..]));
      assert files == [files[0]] + files[1..];
    }
  }

  lemma {:induction false} InsertIsPermutation(f: File, files: seq<File>)
    ensures multiset(InsertNewest(f, files)) == multiset(files) + multiset{f}
  {
    if files != [] && f.number <= files[0].number {
      InsertIsPermutation(f, files[1..]);
      assert files == [files[0]] + files[1..];
    }
  }

  lemma DistinctAfterSort(files: seq<File>, i: nat, j: nat)
    requires DistinctNumbers(files)
    requires i < j < |SortNewestFirst(files)|
    ensures SortNewestFirst(files)[i].number != SortNewestFirst(files)[j].number
  {
    var r := SortNewestFirst(files);
    SortIsPermutation(files);
    if r[i].number == r[j].number {
      assert r[i] in files && r[j] in files;
      assert r[i] == r[j];
      assert r == r[..j] + [r[j]] + r[j + 1..];
      assert r[i] in r[..j];
      assert multiset(r)[r[j]] >= 2;
      CountAtMostOnce(files, r[j]);
    }
  }

  lemma {:induction false} CountAtMostOnce(files: seq<File>, f: File)
    requires DistinctNumbers(files)
    ensures multiset(files)[f] <= 1
  {
    if files != [] {
      CountAtMostOnce(files[1..], f);
      assert files == [files[0]] + files[1..];
      assert files[0] !in files[1..];
    }
  }

  lemma DeepLevelSuffices(files: seq<File>, index: nat, user: UserKey, s: nat)
    requires ValidFiles(files) && LevelOk(files) && IsFileFor(files, SeekKey(user, s), index)
    ensures Suffices(files, if index < |files| && user >= files[index].smallest.user then [files[index]] else [],
                     user, s)
  {
    var fs := if index < |files| && user >= files[index].smallest.user then [files[index]] else [];
    forall f, e | f in files && f !in fs && e in f.entries && Visible(e, user, s)
      ensures exists g, d :: g in fs && d in g.entries && Visible(d, user, s) && d.key.sn > e.key.sn
    {
      WithinFile(f, e);
      var j :| 0 <= j < |files| && files[j] == f;
      assert !Before(e.key, SeekKey(user, s));
      assert j >= index;
      var g := files[index];
      assert g in files;
      var d := g.entries[|g.entries| - 1];
      assert d in g.entries && d.key == g.largest;
      WithinFile(g, d);
      assert j > index ==> Precedes(g.largest, f.smallest);
    }
  }

  /** What TableCache::Get hands to the saver: the first entry of the file at or after `target`. */
  function TableGet(f: File, target: IKey): Option<Entry> {
    var i := LowerBound(f.entries, target);
    if i < |f.entries| then Some(f.entries[i]) else None
  }

  /** No entry of the levels before `level` is visible. */
  ghost predicate NothingAbove(v: Version, level: nat, user: UserKey, s: nat) {
    forall l, e :: 0 <= l < level && l < |v.levels| && e in EntriesOf(v.levels[l]) ==> !Visible(e, user, s)
  }

  ghost predicate NothingBefore(fs: seq<File>, i: nat, user: UserKey, s: nat) {
    forall k, e :: 0 <= k < i && k < |fs| && e in fs[k].entries ==> !Visible(e, user, s)
  }

  /** What the layered lookup finds: the newest visible entry of the first level that has one. */
  ghost predicate LayeredNewest(v: Version, user: UserKey, s: nat, r: Option<Entry>) {
    match r
    case None => NothingAbove(v, |v.levels|, user, s)
    case Some(e) => exists l :: 0 <= l < |v.levels| && NothingAbove(v, l, user, s) &&
                                IsNewest(EntriesOf(v.levels[l]), user, s, Some(e))
  }

  /** Point lookup: level by level, within level 0 newest file first, stopping at the first hit.
      When shallower entries are newer the answer is the one a flat search of every entry of the
      version gives. */
  method Get(v: Version, user: UserKey, s: nat) returns (r: Option<Bytes>)
    requires EachLevelInv(v)
    ensures exists e :: LayeredNewest(v, user, s, e) && Shows(e) == r
    ensures Inv(v) ==> Reads(AllEntries(v), user, s, r)
  {
    for level := 0 to NUM_LEVELS
      invariant NothingAbove(v, level, user, s)
    {
      assert LevelInv(level == 0, v.levels[level]);
      if |v.levels[level]| == 0 {
        continue;
      }
      var hit := SearchLevel(v.levels[level], level == 0, user, s);
      if hit.Some? {
        assert LayeredNewest(v, user, s, hit);
        if LevelsByAge(v) { LayeredIsFlat(v, user, s, hit); }
        return Shows(hit);
      }
    }
    assert LayeredNewest(v, user, s, None);
    if LevelsByAge(v) { LayeredIsFlat(v, user, s, None); }
    return None;
  }

  /** In a version whose shallower entries are newer, stopping at the first level is right. */
  lemma LayeredIsFlat(v: Version, user: UserKey, s: nat, r: Option<Entry>)
    requires LevelsByAge(v) && LayeredNewest(v, user, s, r)
    ensures IsNewest(AllEntries(v), user, s, r)
  {
    if r.Some? {
      var l :| 0 <= l < |v.levels| && NothingAbove(v, l, user, s) && IsNewest(EntriesOf(v.levels[l]), user, s, r);
      LevelHitIsNewest(v, l, user, s, r.value);
    }
  }

  /** The part of the lookup that searches the files of one level. */
  method SearchLevel(files: seq<File>, zero: bool, user: UserKey, s: nat) returns (hit: Option<Entry>)
    requires LevelInv(zero, files)
    ensures IsNewest(EntriesOf(files), user, s, hit)
  {
    var fs := FilesToSearch(zero, files, user, s);
    for i := 0 to |fs|
      invariant NothingBefore(fs, i, user, s)
    {
      var found := TableGet(fs[i], SeekKey(user, s));
      LowerBoundIsNewest(fs[i].entries, user, s);
      if found.Some? && found.value.key.user == user {
        FirstHitIsNewest(files, fs, i, user, s, found.value);
        return found;
      }
      assert forall e :: e in fs[i].entries ==> e in ToSet(fs[i].entries);
    }
    assert forall f, e :: f in fs && e in f.entries ==> !Visible(e, user, s);
    return None;
  }

  lemma FirstHitIsNewest(files: seq<File>, fs: seq<File>, i: nat, user: UserKey, s: nat, n: Entry)
    requires i < |fs| && Suffices(files, fs, user, s) && NothingBefore(fs, i, user, s)
    requires IsNewest(ToSet(fs[i].entries), user, s, Some(n))
    ensures IsNewest(EntriesOf(files), user, s, Some(n))
  {
    assert fs[i] in fs;
    forall e | e in EntriesOf(files) && Visible(e, user, s)
      ensures e.key.sn <= n.key.sn
    {
      var f :| f in files && e in f.entries;
      if f in fs {
        InSearchedFile(fs, i, user, s, n, f, e);
      } else {
        var g, d :| g in fs && d in g.entries && Visible(d, user, s) && d.key.sn > e.key.sn;
        InSearchedFile(fs, i, user, s, n, g, d);
      }
    }
  }

  lemma InSearchedFile(fs: seq<File>, i: nat, user: UserKey, s: nat, n: Entry, f: File, e: Entry)
    requires i < |fs| && f in fs && e in f.entries && Visible(e, user, s) && NothingBefore(fs, i, user, s)
    requires forall i, j :: 0 <= i < j < |fs| ==> Newer(ToSet(fs[i].entries), ToSet(fs[j].entries))
    requires IsNewest(ToSet(fs[i].entries), user, s, Some(n))
    ensures e.key.sn <= n.key.sn
  {
    var k :| 0 <= k < |fs| && fs[k] == f;
    assert e in ToSet(f.entries);
  }

  lemma LevelHitIsNewest(v: Version, level: nat, user: UserKey, s: nat, n: Entry)
    requires LevelsByAge(v) && level < |v.levels| && NothingAbove(v, level, user, s)
    requires IsNewest(EntriesOf(v.levels[level]), user, s, Some(n))
    ensures IsNewest(AllEntries(v), user, s, Some(n))
  {
    forall e | e in AllEntries(v) && Visible(e, user, s)
      ensures e.key.sn <= n.key.sn
    {
      var l :| 0 <= l < |v.levels| && e in EntriesOf(v.levels[l]);
      assert l == level || level < l;
    }
  }
}
