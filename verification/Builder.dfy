/** Applying version edits: the builder that accumulates edits over a base version and saves the
    result, one sorted file list a level. */
module Builder {
  import opened Keys
  import opened Files
  import opened Versions

  /** The files an edit deletes, by level and number, and those it adds, by level. */
  datatype Edit = Edit(deleted: set<(nat, nat)>, added: seq<(nat, File)>)

  predicate ValidEdit(e: Edit) {
    (forall d :: d in e.deleted ==> d.0 < NUM_LEVELS) &&
    (forall i :: 0 <= i < |e.added| ==> e.added[i].0 < NUM_LEVELS)
  }

  datatype LevelState = LevelState(deleted: set<nat>, added: seq<File>)

  // ----- What applying an edit means for one level -----

  /** Insertion into the ordered set of added files; an equivalent file already there stays. */
  function InsertFile(files: seq<File>, f: File): (r: seq<File>)
    ensures forall g :: g in r ==> g == f || g in files
    ensures forall g :: g in files ==> g in r
    ensures f !in r ==> exists g :: g in files && Tie(f, g)
  {
    if files == [] || BySmallest(f, files[0]) then [f] + files
    else if BySmallest(files[0], f) then [files[0]] + InsertFile(files[1..], f)
    else assert files[0] in files && Tie(f, files[0]); files
  }

  function AddFiles(st: LevelState, added: seq<(nat, File)>, level: nat): LevelState {
    if added == [] then st
    else
      var st' := AddFiles(st, added[..|added| - 1], level);
      var (l, f) := added[|added| - 1];
      if l == level then LevelState(st'.deleted - {f.number}, InsertFile(st'.added, f)) else st'
  }

  function DeletedAt(e: Edit, level: nat): set<nat> {
    set d | d in e.deleted && d.0 == level :: d.1
  }

  function AddedAt(added: seq<(nat, File)>, level: nat): set<File> {
    set p | p in added && p.0 == level :: p.1
  }

  function ApplyLevel(st: LevelState, e: Edit, level: nat): LevelState {
    AddFiles(st.(deleted := st.deleted + DeletedAt(e, level)), e.added, level)
  }

  /** The files a level ends up with. */
  ghost function Saved(base: seq<File>, st: LevelState): set<File> {
    set f | f in base + st.added && f.number !in st.deleted
  }

  ghost predicate Tie(f: File, g: File) {
    !BySmallest(f, g) && !BySmallest(g, f)
  }

  /** A list is the builder's result for a level: those files, in order. */
  ghost predicate IsSaved(base: seq<File>, st: LevelState, files: seq<File>) {
    InOrder(files) && ToSet(files) == Saved(base, st)
  }

  // ----- Ordered lists -----

  lemma BySmallestIsOrder(f: File, g: File, h: File)
    ensures !(BySmallest(f, g) && BySmallest(g, f))
    ensures BySmallest(f, g) && BySmallest(g, h) ==> BySmallest(f, h)
    ensures Tie(f, g) ==> f.number == g.number
  {
  }

  lemma EmptyToSet(files: seq<File>)
    ensures ToSet(files) == {} <==> files == []
  {
    if files != [] {
      assert files[0] in ToSet(files);
    }
  }

  /** An ordered list is determined by its members. */
  lemma {:induction false} OrderedListUnique(a: seq<File>, b: seq<File>)
    requires InOrder(a) && InOrder(b) && ToSet(a) == ToSet(b)
    ensures a == b
  {
    if a == [] {
      EmptyToSet(a);
      EmptyToSet(b);
    } else {
      assert a[0] in ToSet(a);
      var j :| 0 <= j < |b| && b[j] == a[0];
      assert b[0] in ToSet(b);
      var i :| 0 <= i < |a| && a[i] == b[0];
      assert a[0] == b[0];
      forall f
        ensures f in ToSet(a[1..]) <==> f in ToSet(b[1..])
      {
        assert f in ToSet(a) <==> f == a[0] || f in a[1..];
        assert f in ToSet(b) <==> f == b[0] || f in b[1..];
        assert a[0] !in a[1..] && b[0] !in b[1..];
      }
      OrderedListUnique(a[1..], b[1..]);
    }
  }

  lemma {:induction false} InsertFileOrdered(files: seq<File>, f: File)
    requires InOrder(files)
    ensures InOrder(InsertFile(files, f))
  {
    if files != [] && !BySmallest(f, files[0]) && BySmallest(files[0], f) {
      InsertFileOrdered(files[1..], f);
      var r := InsertFile(files[1..], f);
      forall j | 0 <= j < |r|
        ensures BySmallest(files[0], r[j])
      {
        assert r[j] in r;
      }
    }
  }

  /** Files of one level whose key ranges are apart. */
  ghost predicate Apart(f: File, g: File) {
    Precedes(f.largest, g.smallest) || Precedes(g.largest, f.smallest)
  }

  lemma OrderedApart(files: seq<File>)
    requires InOrder(files) && ValidFiles(files)
    requires forall f, g :: f in files && g in files && f != g ==> Apart(f, g)
    ensures LevelOk(files)
  {
    forall i, j | 0 <= i < j < |files|
      ensures Precedes(files[i].largest, files[j].smallest)
    {
      var f, g := files[i], files[j];
      assert f in files && g in files && BySmallest(f, g);
      WithinFile(g, g.entries[|g.entries| - 1]);
    }
  }

  lemma ApartInLevel(files: seq<File>, f: File, g: File)
    requires LevelOk(files) && f in files && g in files && f != g
    ensures Apart(f, g)
  {
    var i :| 0 <= i < |files| && files[i] == f;
    var j :| 0 <= j < |files| && files[j] == g;
    assert i < j || j < i;
  }

  // ----- Replaying a manifest -----

  /** The edits never add a file number a level already has or had. */
  ghost predicate AddsFresh(used: set<nat>, edits: seq<Edit>, level: nat)
    decreases |edits|
  {
    edits == [] ||
    (NumbersFresh(used, edits[0].added, level) &&
     AddsFresh(used + Numbers(AddedAt(edits[0].added, level)), edits[1..], level))
  }

  ghost predicate NumbersFresh(used: set<nat>, added: seq<(nat, File)>, level: nat) {
    (forall i :: 0 <= i < |added| && added[i].0 == level ==> added[i].1.number !in used) &&
    (forall i, j :: 0 <= i < j < |added| && added[i].0 == level && added[j].0 == level ==>
       added[i].1.number != added[j].1.number)
  }

  ghost function Numbers(files: set<File>): set<nat> {
    set f | f in files :: f.number
  }

  function ApplyAll(st: LevelState, edits: seq<Edit>, level: nat): LevelState
    decreases |edits|
  {
    if edits == [] then st else ApplyAll(ApplyLevel(st, edits[0], level), edits[1..], level)
  }

  /** `to` is reached from `from` by saving after every edit, as LogAndApply does. */
  ghost predicate OneAtATime(from: seq<File>, edits: seq<Edit>, level: nat, to: seq<File>)
    decreases |edits|
  {
    if edits == [] then from == to
    else exists mid :: IsSaved(from, ApplyLevel(LevelState({}, []), edits[0], level), mid) &&
                       OneAtATime(mid, edits[1..], level, to)
  }

  lemma {:induction false} AddFilesIs(st: LevelState, added: seq<(nat, File)>, level: nat)
    requires InOrder(st.added) && NumbersFresh(Numbers(ToSet(st.added)), added, level)
    ensures var st' := AddFiles(st, added, level);
            && InOrder(st'.added)
            && ToSet(st'.added) == ToSet(st.added) + AddedAt(added, level)
            && st'.deleted == st.deleted - Numbers(AddedAt(added, level))
  {
    if added != [] {
      var n := |added| - 1;
      AddFilesIs(st, added[..n], level);
      var st' := AddFiles(st, added[..n], level);
      var (l, f) := added[n];
      assert added == added[..n] + [added[n]];
      if l == level {
        forall g | g in st'.added
          ensures !Tie(f, g)
        {
          if g in st.added {
            assert g.number in Numbers(ToSet(st.added));
          } else {
            assert g in AddedAt(added[..n], level);
          }
        }
        InsertFileOrdered(st'.added, f);
        assert AddedAt(added, level) == AddedAt(added[..n], level) + {f};
      } else {
        assert AddedAt(added, level) == AddedAt(added[..n], level);
      }
    }
  }

  /** One edit over an accumulated state saves what the edit alone saves over the result so far. */
  lemma EditStep(base: seq<File>, st: LevelState, e: Edit, level: nat, used: set<nat>, mid: seq<File>)
    requires InOrder(st.added) && IsSaved(base, st, mid)
    requires Numbers(ToSet(base) + ToSet(st.added)) <= used
    requires NumbersFresh(used, e.added, level)
    ensures Saved(base, ApplyLevel(st, e, level)) == Saved(mid, ApplyLevel(LevelState({}, []), e, level))
    ensures InOrder(ApplyLevel(st, e, level).added)
    ensures ToSet(ApplyLevel(st, e, level).added) == ToSet(st.added) + AddedAt(e.added, level)
  {
    var st0 := st.(deleted := st.deleted + DeletedAt(e, level));
    var one0 := LevelState({} + DeletedAt(e, level), []);
    assert forall f :: f in st.added ==> f in ToSet(base) + ToSet(st.added) && f.number in Numbers(ToSet(base) + ToSet(st.added));
    assert forall f :: f in base ==> f in ToSet(base) + ToSet(st.added) && f.number in Numbers(ToSet(base) + ToSet(st.added));
    assert Numbers(ToSet(st.added)) <= used;
    AddFilesIs(st0, e.added, level);
    AddFilesIs(one0, e.added, level);
    var a, b := ApplyLevel(st, e, level), ApplyLevel(LevelState({}, []), e, level);
    forall f
      ensures f in Saved(base, a) <==> f in Saved(mid, b)
    {
      assert f in a.added <==> f in ToSet(a.added);
      assert f in b.added <==> f in ToSet(b.added);
      assert f in mid <==> f in Saved(base, st);
    }
  }

  /** Replaying a manifest through one builder gives, level by level, the list that applying and
      saving the edits one at a time gives. */
  lemma {:induction false} ReplayIsOneAtATime(base: seq<File>, st: LevelState, from: seq<File>, edits: seq<Edit>,
                                              level: nat, used: set<nat>, to: seq<File>)
    requires InOrder(st.added) && IsSaved(base, st, from)
    requires Numbers(ToSet(base) + ToSet(st.added)) <= used
    requires AddsFresh(used, edits, level) && OneAtATime(from, edits, level, to)
    ensures IsSaved(base, ApplyAll(st, edits, level), to)
    decreases |edits|
  {
    if edits != [] {
      var one := ApplyLevel(LevelState({}, []), edits[0], level);
      var mid :| IsSaved(from, one, mid) && OneAtATime(mid, edits[1..], level, to);
      EditStep(base, st, edits[0], level, used, from);
      var used' := used + Numbers(AddedAt(edits[0].added, level));
      ReplayIsOneAtATime(base, ApplyLevel(st, edits[0], level), mid, edits[1..], level, used', to);
    }
  }

  // ----- The builder -----

  class VersionBuilder {
    const base: Version
    var levels: seq<LevelState>

    ghost predicate Ok()
      reads this
    {
      |base.levels| == NUM_LEVELS && |levels| == NUM_LEVELS
    }

    constructor (v: Version)
      requires |v.levels| == NUM_LEVELS
      ensures Ok() && base == v
      ensures forall l :: 0 <= l < NUM_LEVELS ==> levels[l] == LevelState({}, [])
    {
      base := v;
      levels := seq(NUM_LEVELS, _ => LevelState({}, []));
    }

    method Apply(e: Edit)
      requires Ok() && ValidEdit(e)
      modifies this
      ensures Ok()
      ensures forall l :: 0 <= l < NUM_LEVELS ==> levels[l] == ApplyLevel(old(levels)[l], e, l)
    {
      DeleteFiles(e.deleted);
      assert forall l :: DeletedAt(Edit(e.deleted, []), l) == DeletedAt(e, l);
      AddNewFiles(e.added);
    }

    method DeleteFiles(deleted: set<(nat, nat)>)
      requires Ok() && ValidEdit(Edit(deleted, []))
      modifies this
      ensures Ok()
      ensures forall l :: 0 <= l < NUM_LEVELS ==>
                levels[l] == old(levels)[l].(deleted := old(levels)[l].deleted + DeletedAt(Edit(deleted, []), l))
    {
      var rest := deleted;
      while rest != {}
        invariant Ok() && rest <= deleted
        invariant forall l :: 0 <= l < NUM_LEVELS ==>
                    levels[l] == old(levels)[l].(deleted := old(levels)[l].deleted + DeletedAt(Edit(deleted - rest, []), l))
        decreases rest
      {
        var d :| d in rest;
        ghost var done := deleted - rest;
        rest := rest - {d};
        assert deleted - rest == done + {d};
        assert forall l :: DeletedAt(Edit(done + {d}, []), l) == DeletedAt(Edit(done, []), l) + if d.0 == l then {d.1} else {};
        levels := levels[d.0 := levels[d.0].(deleted := levels[d.0].deleted + {d.1})];
      }
      assert deleted - rest == deleted;
    }

    method AddNewFiles(added: seq<(nat, File)>)
      requires Ok() && ValidEdit(Edit({}, added))
      modifies this
      ensures Ok()
      ensures forall l :: 0 <= l < NUM_LEVELS ==> levels[l] == AddFiles(old(levels)[l], added, l)
    {
      for i := 0 to |added|
        invariant Ok()
        invariant forall l :: 0 <= l < NUM_LEVELS ==> levels[l] == AddFiles(old(levels)[l], added[..i], l)
      {
        var (level, f) := added[i];
        assert added[..i + 1][..i] == added[..i];
        var st := levels[level];
        levels := levels[level := LevelState(st.deleted - {f.number}, InsertFile(st.added, f))];
      }
      assert added[..|added|] == added;
    }

    method SaveTo() returns (v: Version)
      requires Ok()
      requires forall l :: 0 <= l < NUM_LEVELS ==> InOrder(base.levels[l]) && InOrder(levels[l].added)
      requires forall l, f, g :: 0 <= l < NUM_LEVELS && f in base.levels[l] && g in levels[l].added ==> !Tie(f, g)
      ensures |v.levels| == NUM_LEVELS
      ensures forall l :: 0 <= l < NUM_LEVELS ==> IsSaved(base.levels[l], levels[l], v.levels[l])
    {
      var out: seq<seq<File>> := [];
      for level := 0 to NUM_LEVELS
        invariant |out| == level
        invariant forall l :: 0 <= l < level ==> IsSaved(base.levels[l], levels[l], out[l])
      {
        var files := SaveLevel(base.levels[level], levels[level]);
        out := out + [files];
      }
      return Version(out);
    }
  }

  /** What has been saved so far is the files of `a` and `b` not deleted, in order, and before all
      of `c`. */
  ghost predicate SavedSoFar(out: seq<File>, a: seq<File>, b: seq<File>, deleted: set<nat>) {
    InOrder(out) && forall f :: f in out <==> (f in a || f in b) && f.number !in deleted
  }

  ghost predicate AllBefore(a: seq<File>, b: seq<File>) {
    forall f, g :: f in a && g in b ==> BySmallest(f, g)
  }

  /** Merge the added files into the base files of one level, dropping deleted ones. */
  method SaveLevel(base: seq<File>, st: LevelState) returns (out: seq<File>)
    requires InOrder(base) && InOrder(st.added)
    requires forall f, g :: f in base && g in st.added ==> !Tie(f, g)
    ensures IsSaved(base, st, out)
  {
    out := [];
    var added := st.added;
    var b := 0;
    for a := 0 to |added|
      invariant b <= |base|
      invariant SavedSoFar(out, base[..b], added[..a], st.deleted)
      invariant AllBefore(base[..b], added[a..]) && AllBefore(added[..a], base[b..])
    {
      var pos := UpperBound(base, b, added[a]);
      assert AllBefore(base[..pos], added[a..]) by {
        AddedFollow(base, pos, added, a);
      }
      while b != pos
        invariant b <= pos
        invariant SavedSoFar(out, base[..b], added[..a], st.deleted)
        invariant AllBefore(added[..a], base[b..])
        decreases pos - b
      {
        out := MaybeAddFile(out, base, b, added[..a], st.deleted);
        assert base[b..][1..] == base[b + 1..];
        b := b + 1;
      }
      out := MaybeAddFile(out, added, a, base[..b], st.deleted);
      BaseFollow(base, b, added, a);
    }
    assert added[..|added|] == added;
    while b < |base|
      invariant b <= |base|
      invariant SavedSoFar(out, base[..b], added, st.deleted)
      invariant AllBefore(added, base[b..])
    {
      out := MaybeAddFile(out, base, b, added, st.deleted);
      assert base[b..][1..] == base[b + 1..];
      b := b + 1;
    }
    assert base[..|base|] == base;
    assert forall f :: f in ToSet(out) <==> f in Saved(base, st);
  }

  /** Add the next file unless it is deleted. */
  method MaybeAddFile(out: seq<File>, list: seq<File>, i: nat, ghost other: seq<File>, deleted: set<nat>)
    returns (r: seq<File>)
    requires i < |list| && InOrder(list)
    requires SavedSoFar(out, list[..i], other, deleted) || SavedSoFar(out, other, list[..i], deleted)
    requires AllBefore(other, list[i..])
    ensures SavedSoFar(r, list[..i + 1], other, deleted) && SavedSoFar(r, other, list[..i + 1], deleted)
  {
    var f := list[i];
    assert list[..i + 1] == list[..i] + [f];
    assert f in list[i..];
    if f.number in deleted {
      r := out;
    } else {
      forall k | 0 <= k < |out|
        ensures BySmallest(out[k], f)
      {
        assert out[k] in out;
      }
      r := out + [f];
    }
  }

  /** The library's binary search: the first place from `from` on whose file comes after `f`. */
  method UpperBound(files: seq<File>, from: nat, f: File) returns (pos: nat)
    requires InOrder(files) && from <= |files|
    ensures from <= pos <= |files|
    ensures forall k :: from <= k < pos ==> !BySmallest(f, files[k])
    ensures forall k :: pos <= k < |files| ==> BySmallest(f, files[k])
  {
    pos := from;
    var len := |files| - from;
    while len > 0
      invariant from <= pos && 0 <= len && pos + len <= |files|
      invariant forall k :: from <= k < pos ==> !BySmallest(f, files[k])
      invariant forall k :: pos + len <= k < |files| ==> BySmallest(f, files[k])
      decreases len
    {
      var half := len / 2;
      OneSide(files, f, pos + half);
      if BySmallest(f, files[pos + half]) {
        len := half;
      } else {
        pos, len := pos + half + 1, len - half - 1;
      }
    }
  }

  lemma OneSide(files: seq<File>, f: File, mid: nat)
    requires InOrder(files) && mid < |files|
    ensures if BySmallest(f, files[mid]) then forall k :: mid <= k < |files| ==> BySmallest(f, files[k])
            else forall k :: 0 <= k <= mid ==> !BySmallest(f, files[k])
  {
    forall k | 0 <= k < |files| && k != mid
      ensures mid < k && BySmallest(f, files[mid]) ==> BySmallest(f, files[k])
      ensures k < mid && BySmallest(f, files[k]) ==> BySmallest(f, files[mid])
    {
      if mid < k {
        BySmallestIsOrder(f, files[mid], files[k]);
      } else {
        BySmallestIsOrder(f, files[k], files[mid]);
      }
    }
  }

  lemma AddedFollow(base: seq<File>, pos: nat, added: seq<File>, a: nat)
    requires InOrder(added) && pos <= |base| && a < |added|
    requires forall f, g :: f in base && g in added ==> !Tie(f, g)
    requires forall k :: 0 <= k < pos ==> BySmallest(base[k], added[a]) || !BySmallest(added[a], base[k])
    ensures AllBefore(base[..pos], added[a..])
  {
    forall f, g | f in base[..pos] && g in added[a..]
      ensures BySmallest(f, g)
    {
      var k :| 0 <= k < pos && base[k] == f;
      var j :| a <= j < |added| && added[j] == g;
      assert f in base && !Tie(f, added[a]);
      if j > a { BySmallestIsOrder(f, added[a], g); }
    }
  }

  lemma BaseFollow(base: seq<File>, b: nat, added: seq<File>, a: nat)
    requires b <= |base| && a < |added| && AllBefore(base[..b], added[a..])
    requires AllBefore(added[..a], base[b..])
    requires forall k :: b <= k < |base| ==> BySmallest(added[a], base[k])
    ensures AllBefore(base[..b], added[a + 1..]) && AllBefore(added[..a + 1], base[b..])
  {
    assert forall g :: g in added[a + 1..] ==> g in added[a..];
    assert added[..a + 1] == added[..a] + [added[a]];
  }
}
