/** The database: a memtable being written, perhaps one being saved, and the versions of the files.
    Reads look through them in this order, and an iterator merges them all. */
module DbImpl {
  import opened Keys
  import opened Files
  import opened Versions
  import opened Compaction
  import opened Lsm
  import opened Store
  import opened VersionSets
  import opened SkipLists
  import opened WriteBatches
  import Cursor
  import Merger
  import DbIter

  // ----- Layers of entries -----

  /** A read of newer entries over older ones: those of the newer layer decide it if they have any
      that is visible. */
  lemma LayerReads(m: set<Entry>, a: set<Entry>, user: UserKey, s: nat, v: Option<Bytes>)
    requires Newer(m, a)
    ensures (exists e :: e in m && Visible(e, user, s)) && Reads(m, user, s, v) ==> Reads(m + a, user, s, v)
    ensures !(exists e :: e in m && Visible(e, user, s)) && Reads(a, user, s, v) ==> Reads(m + a, user, s, v)
  {
    if e :| e in m && Visible(e, user, s) {
      if Reads(m, user, s, v) {
        var r :| IsNewest(m, user, s, r) && Shows(r) == v;
        assert IsNewest(m + a, user, s, r);
      }
    } else if Reads(a, user, s, v) {
      var r :| IsNewest(a, user, s, r) && Shows(r) == v;
      assert IsNewest(m + a, user, s, r);
    }
  }

  /** What is in the two memtables and in what was ever saved: each layer newer than those below. */
  ghost predicate LayersOk(mem: set<Entry>, imm: set<Entry>, saved: set<Entry>, last: nat) {
    && Newer(mem, imm + saved) && Newer(imm, saved)
    && Unique(mem + imm + saved) && last <= MAX_SEQUENCE
    && forall e :: e in mem + imm + saved ==> e.key.sn <= last
  }

  lemma LaterIsNewer(mem: set<Entry>, imm: set<Entry>, saved: set<Entry>, last: nat, e: Entry)
    requires LayersOk(mem, imm, saved, last) && e.key.sn == last + 1 <= MAX_SEQUENCE
    ensures LayersOk(mem + {e}, imm, saved, last + 1) && e !in mem + imm + saved
    ensures forall d :: d in mem + imm + saved ==> d.key != e.key
    ensures mem + {e} + imm + saved == mem + imm + saved + {e}
  {
  }

  lemma LayersRead(mem: set<Entry>, imm: set<Entry>, saved: set<Entry>, last: nat, user: UserKey, s: nat, v: Option<Bytes>)
    requires LayersOk(mem, imm, saved, last)
    ensures (exists e :: e in mem && Visible(e, user, s)) && Reads(mem, user, s, v) ==> Reads(mem + imm + saved, user, s, v)
    ensures !(exists e :: e in mem && Visible(e, user, s)) && (exists e :: e in imm && Visible(e, user, s)) && Reads(imm, user, s, v) ==>
              Reads(mem + imm + saved, user, s, v)
    ensures !(exists e :: e in mem && Visible(e, user, s)) && !(exists e :: e in imm && Visible(e, user, s)) && Reads(saved, user, s, v) ==>
              Reads(mem + imm + saved, user, s, v)
  {
    hide Reads, Visible, Unique;
    LayerReads(imm, saved, user, s, v);
    LayerReads(mem, imm + saved, user, s, v);
    assert mem + imm + saved == mem + (imm + saved);
  }

  // ----- Walking a memtable -----

  ghost predicate Ascending(es: seq<Entry>) {
    forall i, j :: 0 <= i < j < |es| ==> Before(es[i].key, es[j].key)
  }

  lemma AscendingIsSorted(es: seq<Entry>)
    requires Ascending(es) && Unique(ToSet(es))
    ensures Sorted(es)
  {
    forall i, j | 0 <= i < j < |es|
      ensures Precedes(es[i].key, es[j].key)
    {
      assert es[i] in ToSet(es) && es[j] in ToSet(es);
      CompareIsTotalOrder(es[i].key, es[j].key, es[i].key);
    }
  }

  /** The entries of the nodes in front of `n`. */
  ghost function InFront(s: Snap, n: Node?): set<Node> {
    set b | b in s.nodes && (n == null || Before(b.entry.key, n.entry.key))
  }

  lemma FrontAtFirst(s: Snap, n: Node?)
    requires s.Ok() && s.Follows(s.head, n, 0)
    ensures InFront(s, n) == {} && (n != null ==> n in s.nodes)
  {
    AllOnLowest(s);
    if n != null {
      forall b | b in s.nodes
        ensures !Before(b.entry.key, n.entry.key)
      {
        assert s.After(s.head, b.entry.key);
      }
    } else {
      forall b | b in s.nodes
        ensures false
      {
        assert s.After(s.head, b.entry.key);
      }
    }
  }

  lemma AllOnLowest(s: Snap)
    requires s.Ok()
    ensures forall b :: b in s.nodes ==> s.On(b, 0)
  {
  }

  lemma FrontAfter(s: Snap, n: Node, n': Node?)
    requires s.Ok() && n in s.nodes && s.Follows(n, n', 0)
    ensures InFront(s, n') == InFront(s, n) + {n} && n !in InFront(s, n) && (n' != null ==> n' in s.nodes)
  {
    AllOnLowest(s);
    forall b | b in s.nodes
      ensures (n' == null || Before(b.entry.key, n'.entry.key)) <==> Before(b.entry.key, n.entry.key) || b == n
    {
      CompareIsTotalOrder(b.entry.key, n.entry.key, b.entry.key);
      if n' != null {
        CompareIsTotalOrder(b.entry.key, n.entry.key, n'.entry.key);
        CompareIsTotalOrder(n.entry.key, n'.entry.key, b.entry.key);
      }
      assert s.After(n, b.entry.key) <==> Before(n.entry.key, b.entry.key);
      assert s.Whole();
    }
  }

  /** The entries of a memtable, in order. */
  method EntryList(m: MemTable) returns (es: seq<Entry>)
    requires m.table.Valid()
    ensures ToSet(es) == m.table.Entries() && Ascending(es)
  {
    hide Snap.Ok, Snap.Follows;
    var it := new SkipLists.Iterator(m.table);
    it.SeekToFirst();
    ghost var s := m.table.View();
    FrontAtFirst(s, it.node);
    es := [];
    while it.node != null
      invariant m.table.Valid() && s == m.table.View() && it.list == m.table
      invariant it.node != null ==> it.node in s.nodes
      invariant ToSet(es) == set b | b in InFront(s, it.node) :: b.entry
      invariant Ascending(es)
      decreases s.nodes - InFront(s, it.node)
    {
      ghost var front := InFront(s, it.node);
      var e := it.node.entry;
      ghost var n := it.node;
      forall i | 0 <= i < |es|
        ensures Before(es[i].key, e.key)
      {
        assert es[i] in ToSet(es);
      }
      it.Next();
      FrontAfter(s, n, it.node);
      Appended(es, e);
      es := es + [e];
      assert front + {n} <= s.nodes;
    }
  }

  lemma Appended(es: seq<Entry>, e: Entry)
    ensures ToSet(es + [e]) == ToSet(es) + {e}
  {
  }

  // ----- The lists an iterator merges -----

  /** Sorted lists that hold the entries `all` between them, none of them twice. */
  ghost predicate Gathered(lists: seq<seq<Entry>>, all: set<Entry>) {
    && (forall j :: 0 <= j < |lists| ==> Sorted(lists[j]) && ToSet(lists[j]) <= all)
    && (forall e :: e in all ==> exists j :: 0 <= j < |lists| && e in lists[j])
    && (forall j, k, e :: 0 <= j < |lists| && 0 <= k < |lists| && e in lists[j] && e in lists[k] ==> j == k)
  }

  lemma GatherMore(lists: seq<seq<Entry>>, all: set<Entry>, es: seq<Entry>)
    requires Gathered(lists, all) && Sorted(es) && ToSet(es) !! all
    ensures Gathered(lists + [es], all + ToSet(es))
  {
    hide Sorted;
    var more := lists + [es];
    assert forall j, e :: 0 <= j < |lists| && e in lists[j] ==> e in ToSet(lists[j]);
    assert forall e :: e in es ==> e in ToSet(es);
    forall e | e in all + ToSet(es)
      ensures exists j :: 0 <= j < |more| && e in more[j]
    {
      if e in all {
        var j :| 0 <= j < |lists| && e in lists[j];
        assert more[j] == lists[j];
      } else {
        assert more[|lists|] == es;
      }
    }
  }

  lemma GatheredIsMerge(lists: seq<seq<Entry>>, all: set<Entry>) returns (merged: seq<Entry>)
    requires Gathered(lists, all) && Unique(all)
    ensures Merger.IsMerge(lists, merged) && ToSet(merged) == all
  {
    merged := SortedList(all);
    forall j, i | 0 <= j < |lists| && 0 <= i < |lists[j]|
      ensures lists[j][i] in merged
    {
      assert lists[j][i] in ToSet(lists[j]);
      assert lists[j][i] in ToSet(merged);
    }
    forall e | e in merged
      ensures exists j :: 0 <= j < |lists| && e in lists[j]
    {
      assert e in ToSet(merged);
    }
  }

  lemma {:induction false} SortedList(es: set<Entry>) returns (m: seq<Entry>)
    requires Unique(es)
    ensures Sorted(m) && ToSet(m) == es
    decreases es
  {
    m := [];
    if e :| e in es {
      var m0 := SortedList(es - {e});
      var i := LowerBound(m0, e.key);
      m := m0[..i] + [e] + m0[i..];
      forall d | d in m0
        ensures d in es && d != e
      {
        assert d in ToSet(m0);
      }
      Inserted(m0, i, e);
    }
  }

  lemma Inserted(m: seq<Entry>, i: nat, e: Entry)
    requires Sorted(m) && i == LowerBound(m, e.key) && forall d :: d in m ==> d.key.user != e.key.user || d.key.sn != e.key.sn
    ensures Sorted(m[..i] + [e] + m[i..]) && ToSet(m[..i] + [e] + m[i..]) == ToSet(m) + {e}
  {
    hide Precedes, Sorted;
    Sides(m, i, e);
    assert m == m[..i] + m[i..];
    JoinedBetween(m[..i], e, m[i..]);
  }

  lemma JoinedBetween(a: seq<Entry>, e: Entry, b: seq<Entry>)
    requires Sorted(a + b) && (forall d :: d in a ==> Precedes(d.key, e.key)) && (forall d :: d in b ==> Precedes(e.key, d.key))
    ensures Sorted(a + [e] + b) && ToSet(a + [e] + b) == ToSet(a + b) + {e}
  {
    hide Precedes;
    var more := a + [e] + b;
    forall j, k | 0 <= j < k < |more|
      ensures Precedes(more[j].key, more[k].key)
    {
      if j < |a| && k > |a| {
        assert more[j] == (a + b)[j] && more[k] == (a + b)[k - 1];
      } else if k < |a| {
        assert more[j] == (a + b)[j] && more[k] == (a + b)[k];
      } else if j > |a| {
        assert more[j] == (a + b)[j - 1] && more[k] == (a + b)[k - 1];
      }
    }
  }

  lemma Sides(m: seq<Entry>, i: nat, e: Entry)
    requires Sorted(m) && i == LowerBound(m, e.key) && forall d :: d in m ==> d.key.user != e.key.user || d.key.sn != e.key.sn
    ensures forall d :: d in m[..i] ==> Precedes(d.key, e.key)
    ensures forall d :: d in m[i..] ==> Precedes(e.key, d.key)
  {
    forall j | 0 <= j < |m|
      ensures if j < i then Precedes(m[j].key, e.key) else Precedes(e.key, m[j].key)
    {
      assert m[j] in m;
      CompareIsTotalOrder(m[j].key, e.key, m[j].key);
      if i < j {
        assert Precedes(m[i].key, m[j].key);
        CompareIsTotalOrder(m[i].key, e.key, m[i].key);
        assert m[i] in m;
      }
    }
  }

  /** The tables of a level below 0, one behind the other. */
  lemma {:induction false} LevelIsSorted(files: seq<File>)
    requires ValidFiles(files) && LevelOk(files)
    ensures Sorted(Flatten(files))
  {
    if files != [] {
      var n := |files| - 1;
      var front, f := files[..n], files[n];
      assert forall g :: g in front ==> g in files;
      LevelIsSorted(front);
      FlattenEntries(front);
      var a, b := Flatten(front), f.entries;
      assert f in files;
      forall i, j | 0 <= i < |a| && 0 <= j < |b|
        ensures Precedes(a[i].key, b[j].key)
      {
        assert a[i] in ToSet(a);
        var g :| g in front && a[i] in g.entries;
        var k :| 0 <= k < n && files[k] == g;
        assert Precedes(files[k].largest, files[n].smallest);
        WithinFile(g, a[i]);
        WithinFile(f, b[j]);
      }
      SortedJoin(a, b);
    }
  }

  lemma SortedJoin(a: seq<Entry>, b: seq<Entry>)
    requires Sorted(a) && Sorted(b) && forall i, j :: 0 <= i < |a| && 0 <= j < |b| ==> Precedes(a[i].key, b[j].key)
    ensures Sorted(a + b)
  {
  }

  /** The tables of level 0, each with its own list, and each level below as one list. */
  method AddIterators(v: Version, lists0: seq<seq<Entry>>, ghost all: set<Entry>) returns (lists: seq<seq<Entry>>)
    requires Inv(v) && Gathered(lists0, all) && all !! AllEntries(v)
    ensures Gathered(lists, all + AllEntries(v))
  {
    hide LevelInv, LevelsByAge, AllEntries, Gathered, Sorted;
    lists := lists0;
    assert v.levels[0][..0] == [] && all + EntriesOf([]) == all;
    for i := 0 to |v.levels[0]|
      invariant Gathered(lists, all + EntriesOf(v.levels[0][..i]))
    {
      FileIsNew(v, i, all);
      GatherMore(lists, all + EntriesOf(v.levels[0][..i]), v.levels[0][i].entries);
      lists := lists + [v.levels[0][i].entries];
    }
    assert v.levels[0][..|v.levels[0]|] == v.levels[0];
    UpToFirst(v);
    for level := 1 to NUM_LEVELS
      invariant Gathered(lists, all + UpTo(v, level))
    {
      LevelIsNew(v, level, all);
      if v.levels[level] != [] {
        GatherMore(lists, all + UpTo(v, level), Flatten(v.levels[level]));
        lists := lists + [Flatten(v.levels[level])];
      }
    }
    UpToLast(v);
  }

  lemma FileIsNew(v: Version, i: nat, all: set<Entry>)
    requires Inv(v) && all !! AllEntries(v) && i < |v.levels[0]|
    ensures var files, f := v.levels[0], v.levels[0][i];
            && Sorted(f.entries) && ToSet(f.entries) !! all + EntriesOf(files[..i])
            && all + EntriesOf(files[..i]) + ToSet(f.entries) == all + EntriesOf(files[..i + 1])
  {
    hide LevelInv, LevelsByAge, Sorted, ValidFile;
    var files, f := v.levels[0], v.levels[0][i];
    assert LevelInv(true, files);
    ValidInLevel(true, files, f);
    assert Sorted(f.entries) by { SortedInFile(f); }
    assert files[..i + 1] == files[..i] + [f];
    forall e | e in ToSet(f.entries)
      ensures e !in all && e !in EntriesOf(files[..i])
    {
      assert e in EntriesOf(files);
      assert e in AllEntries(v);
      if e in EntriesOf(files[..i]) {
        var g :| g in files[..i] && e in g.entries;
        OtherFile(files, i, g);
        FilesDiffer(true, files, f, e, g, e);
      }
    }
  }

  lemma SortedInFile(f: File)
    requires ValidFile(f)
    ensures Sorted(f.entries)
  {
  }

  lemma OtherFile(files: seq<File>, i: nat, g: File)
    requires LevelInv(true, files) && i < |files| && g in files[..i]
    ensures g != files[i] && g in files
  {
    var k :| 0 <= k < i && files[k] == g;
    assert files[k].number != files[i].number;
  }

  /** The entries of the levels above `level`. */
  ghost function UpTo(v: Version, level: nat): set<Entry>
    requires level <= |v.levels|
  {
    set l, e | 0 <= l < level && e in EntriesOf(v.levels[l]) :: e
  }

  lemma UpToFirst(v: Version)
    requires |v.levels| > 0
    ensures UpTo(v, 1) == EntriesOf(v.levels[0])
  {
  }

  lemma UpToLast(v: Version)
    ensures UpTo(v, |v.levels|) == AllEntries(v)
  {
  }

  lemma LevelIsNew(v: Version, level: nat, all: set<Entry>)
    requires Inv(v) && all !! AllEntries(v) && 0 < level < NUM_LEVELS
    ensures var es := Flatten(v.levels[level]);
            && Sorted(es) && ToSet(es) !! all + UpTo(v, level) && all + UpTo(v, level) + ToSet(es) == all + UpTo(v, level + 1)
    ensures v.levels[level] == [] ==> UpTo(v, level) == UpTo(v, level + 1)
  {
    hide LevelsByAge, Sorted, ValidFile;
    var files := v.levels[level];
    assert LevelInv(false, files);
    LevelIsSorted(files);
    FlattenEntries(files);
    forall e | e in EntriesOf(files)
      ensures e !in all && e !in UpTo(v, level)
    {
      assert e in AllEntries(v);
      if e in UpTo(v, level) {
        var l :| 0 <= l < level && e in EntriesOf(v.levels[l]);
        ByAge(v, l, level, e, e);
      }
    }
    forall e
      ensures e in UpTo(v, level + 1) <==> e in UpTo(v, level) || e in EntriesOf(files)
    {
      if e in UpTo(v, level + 1) {
        var l :| 0 <= l < level + 1 && e in EntriesOf(v.levels[l]);
        assert l == level || l < level;
      }
    }
  }

  // ----- The database -----

  ghost function TableRepr(m: MemTable?): set<object>
    reads if m == null then {} else {m.table}
  {
    if m == null then {} else {m.table, m.table.head} + m.table.nodes
  }

  ghost function EntriesIn(m: MemTable?): set<Entry>
    reads if m == null then {} else {m.table}
  {
    if m == null then {} else m.table.Entries()
  }

  class Database {
    var mem: MemTable
    var imm: MemTable?
    const versions: VersionSet
    var lastSequence: nat

    ghost function Tables(): set<object>
      reads this, mem.table, if imm == null then {} else {imm.table}
    {
      TableRepr(mem) + TableRepr(imm)
    }

    ghost predicate Apart()
      reads this, mem.table, if imm == null then {} else {imm.table}
    {
      TableRepr(mem) !! TableRepr(imm)
    }

    ghost predicate Ok()
      reads this, versions, mem.table, if imm == null then {} else {imm.table}, Tables()
    {
      && Apart() && versions.Ok() && mem.table.Valid() && (imm != null ==> imm.table.Valid())
      && LayersOk(EntriesIn(mem), EntriesIn(imm), versions.written, lastSequence)
    }

    /** Every entry ever written. */
    ghost function Written(): set<Entry>
      reads this, versions, mem.table, if imm == null then {} else {imm.table}
    {
      EntriesIn(mem) + EntriesIn(imm) + versions.written
    }

    constructor ()
      ensures Ok() && Written() == {} && lastSequence == 0
    {
      mem := new MemTable();
      imm := null;
      versions := new VersionSet();
      lastSequence := 0;
    }

    /** Add one operation to the memtable under the next sequence number. */
    method Add(op: Op, height: nat)
      requires Ok() && lastSequence < MAX_SEQUENCE && 1 <= height <= MAX_HEIGHT
      modifies this`lastSequence, TableRepr(mem)
      ensures Ok() && fresh(TableRepr(mem) - old(TableRepr(mem))) && mem == old(mem)
      ensures lastSequence == old(lastSequence) + 1
      ensures Written() == old(Written()) + {EntryOf(lastSequence, op)}
    {
      hide SkipList.Valid, SkipList.Entries, VersionSet.Ok, LayersOk;
      ghost var e := EntryOf(lastSequence + 1, op);
      LaterIsNewer(EntriesIn(mem), EntriesIn(imm), versions.written, lastSequence, e);
      KeyIsNew(e);
      lastSequence := lastSequence + 1;
      match op
      case PutOp(key, value) => mem.Add(lastSequence, Value, BytewiseRank(key), value, height);
      case DeleteOp(key) => mem.Add(lastSequence, Deletion, BytewiseRank(key), [], height);
    }

    /** An iterator over everything in the memtables and the current version, and what a client sees
        through it at a sequence number still served: each user key with the value a read would give. */
    method NewInternalIterator() returns (it: Merger.MergingIterator)
      requires Ok()
      ensures fresh(it) && it.Ok() && ToSet(it.merged) == EntriesIn(mem) + EntriesIn(imm) + AllEntries(versions.current)
      ensures forall user, s, x :: s >= versions.horizon ==>
                (Reads(Written(), user, s, Some(x)) <==>
                   exists e :: e in DbIter.FullView(it.merged, s) && e.key.user == user && e.value == x)
    {
      hide SkipList.Valid, SkipList.Entries, LayersOk, Inv, AllEntries, Gathered, Merger.IsMerge, Merger.MergingIterator.Ok, Reads,
        DbIter.FullView;
      ghost var m, i, v, all := EntriesIn(mem), EntriesIn(imm), AllEntries(versions.current), versions.written;
      var es := EntryList(mem);
      var fs := [];
      if imm != null {
        fs := EntryList(imm);
      }
      LayersApart(m, i, all, v, lastSequence, es, fs);
      var lists := [es];
      if imm != null {
        lists := lists + [fs];
      }
      ListsGathered(m, i, es, fs, imm != null, lists);
      lists := AddIterators(versions.current, lists, m + i);
      ghost var merged := GatheredIsMerge(lists, m + i + v);
      var children := Children(lists);
      assert seq(|children|, j requires 0 <= j < |children| => children[j].entries) == lists;
      it := new Merger.MergingIterator(children, merged);
      forall user, s, x | s >= versions.horizon
        ensures Reads(Written(), user, s, Some(x)) <==>
                  exists e :: e in DbIter.FullView(it.merged, s) && e.key.user == user && e.value == x
      {
        assert SameReads(all, v, user, s);
        ViewOfLayers(m, i, all, v, lastSequence, merged, user, s, x);
      }
    }

    lemma KeyIsNew(e: Entry)
      requires forall d :: d in EntriesIn(mem) ==> d.key != e.key
      ensures forall n :: n in mem.table.nodes ==> n.entry.key != e.key
    {
      forall n | n in mem.table.nodes
        ensures n.entry.key != e.key
      {
        assert n.entry in EntriesIn(mem);
      }
    }

    /** Insert the operations of a group of writers, each under a sequence number of its own; the heights
        of the nodes are drawn at random. */
    method Write(ops: seq<Op>, heights: nat -> nat)
      requires Ok() && lastSequence + |ops| <= MAX_SEQUENCE && forall i :: 1 <= heights(i) <= MAX_HEIGHT
      modifies this`lastSequence, TableRepr(mem)
      ensures Ok() && lastSequence == old(lastSequence) + |ops|
      ensures Written() == old(Written()) + ToSet(BatchEntries(old(lastSequence) + 1, ops))
    {
      hide Database.Ok, Database.Written, TableRepr, EntriesIn, BatchEntries, EntryOf;
      ghost var sn, written, repr := lastSequence + 1, Written(), TableRepr(mem);
      assert ops[..0] == [] && ops[..|ops|] == ops;
      NoEntries(sn);
      for i := 0 to |ops|
        invariant Ok() && lastSequence + 1 == sn + i && mem == old(mem)
        invariant forall o :: o in TableRepr(mem) ==> o in repr || fresh(o)
        invariant Written() == written + ToSet(BatchEntries(sn, ops[..i]))
      {
        ghost var before := TableRepr(mem);
        label Before:
        Add(ops[i], heights(i));
        forall o | o in TableRepr(mem)
          ensures o in repr || fresh(o)
        {
          if o !in before {
            assert o in TableRepr(mem) - before && fresh@Before(o) && !old@Before(allocated(o));
          }
        }
        assert ops[..i + 1] == ops[..i] + [ops[i]];
        OneEntryMore(sn, ops[..i], ops[i]);
      }
    }

    /** The memtable is full: start another while it is saved. */
    method SwitchMemTable()
      requires Ok() && imm == null
      modifies this`mem, this`imm
      ensures Ok() && imm == old(mem) && EntriesIn(mem) == {} && Written() == old(Written()) && lastSequence == old(lastSequence)
    {
      hide SkipList.Valid, VersionSet.Ok;
      imm := mem;
      mem := new MemTable();
    }

    /** Save the memtable that is no longer written, as a table of the current version. */
    method CompactMemTable(size: nat, maxGrandparentOverlap: nat)
      requires Ok() && imm != null
      modifies this`imm, versions
      ensures Ok() && imm == null && Written() == old(Written()) && mem == old(mem) && lastSequence == old(lastSequence)
    {
      hide SkipList.Valid, SkipList.Entries, VersionSet.Ok, Step, LayersOk;
      ghost var saved := versions.written;
      var es := EntryList(imm);
      LayersSaved(EntriesIn(mem), EntriesIn(imm), saved, lastSequence, es);
      ghost var before := versions.State();
      versions.CompactMemTable(es, size, maxGrandparentOverlap);
      FlushSaves(before, es, versions.State());
      imm := null;
    }

    /** Look a key up in the memtable, the one being saved and the current version, as far as needed. */
    method Get(user: UserKey, s: nat) returns (r: Option<Bytes>)
      requires Ok()
      ensures s >= versions.horizon ==> Reads(Written(), user, s, r)
    {
      hide SkipList.Valid, VersionSet.Ok, Reads, Visible, LayersOk;
      var found;
      found, r := mem.Get(user, s);
      if !found && imm != null {
        found, r := imm.Get(user, s);
      }
      if !found {
        r := versions.Get(user, s);
      }
      LayersRead(EntriesIn(mem), EntriesIn(imm), versions.written, lastSequence, user, s, r);
    }
  }

  /** One iterator for each list. */
  method Children(lists: seq<seq<Entry>>) returns (cs: seq<Cursor.ListIterator>)
    requires forall j :: 0 <= j < |lists| ==> Sorted(lists[j])
    ensures |cs| == |lists| && fresh(ToSet(cs)) && forall j :: 0 <= j < |cs| ==> cs[j].Ok() && cs[j].entries == lists[j]
    ensures forall i, j :: 0 <= i < j < |cs| ==> cs[i] != cs[j]
  {
    hide Sorted;
    cs := [];
    for i := 0 to |lists|
      invariant |cs| == i && fresh(ToSet(cs)) && forall j :: 0 <= j < i ==> cs[j] in ToSet(cs) && cs[j].Ok() && cs[j].entries == lists[j]
      invariant forall i, j :: 0 <= i < j < |cs| ==> cs[i] != cs[j]
    {
      var c := new Cursor.ListIterator(lists[i]);
      cs := cs + [c];
    }
  }

  lemma LayersApart(mem: set<Entry>, imm: set<Entry>, saved: set<Entry>, v: set<Entry>, last: nat, es: seq<Entry>, fs: seq<Entry>)
    requires LayersOk(mem, imm, saved, last) && v <= saved && ToSet(es) == mem && ToSet(fs) == imm && Ascending(es) && Ascending(fs)
    ensures Sorted(es) && Sorted(fs) && mem !! imm && mem + imm !! v && Unique(mem + imm + v)
  {
    AscendingIsSorted(es);
    AscendingIsSorted(fs);
  }

  lemma ListsGathered(mem: set<Entry>, imm: set<Entry>, es: seq<Entry>, fs: seq<Entry>, both: bool, lists: seq<seq<Entry>>)
    requires Sorted(es) && Sorted(fs) && ToSet(es) == mem && ToSet(fs) == imm && mem !! imm && (both || fs == [])
    requires lists == if both then [es] + [fs] else [es]
    ensures Gathered(lists, mem + imm)
  {
    hide Sorted;
    assert Gathered([], {});
    assert [] + [es] == [es] && {} + mem == mem;
    GatherMore([], {}, es);
    if both {
      GatherMore([es], mem, fs);
    } else {
      assert mem + imm == mem;
    }
  }

  lemma ViewOfLayers(mem: set<Entry>, imm: set<Entry>, saved: set<Entry>, v: set<Entry>, last: nat, merged: seq<Entry>,
                     user: UserKey, s: nat, x: Bytes)
    requires LayersOk(mem, imm, saved, last) && v <= saved && SameReads(saved, v, user, s)
    requires Sorted(merged) && ToSet(merged) == mem + imm + v
    ensures Reads(mem + imm + saved, user, s, Some(x)) <==>
              exists e :: e in DbIter.FullView(merged, s) && e.key.user == user && e.value == x
  {
    hide Reads;
    DbIter.ViewIsAllReads(merged, s, user, x);
    var m := mem + imm;
    NewerKeepsReads(saved, v, m, user, s);
    assert saved + m == m + saved && v + m == m + v;
  }

  lemma NoEntries(sn: nat)
    ensures ToSet(BatchEntries(sn, [])) == {}
  {
  }

  lemma OneEntryMore(sn: nat, front: seq<Op>, op: Op)
    ensures ToSet(BatchEntries(sn, front + [op])) == ToSet(BatchEntries(sn, front)) + {EntryOf(sn + |front|, op)}
  {
    LastEntry({}, sn, front, op);
  }

  lemma LayersSaved(mem: set<Entry>, imm: set<Entry>, saved: set<Entry>, last: nat, es: seq<Entry>)
    requires LayersOk(mem, imm, saved, last) && ToSet(es) == imm && Ascending(es)
    ensures Sorted(es) && Newer(imm, saved) && (forall e :: e in es ==> e.key.sn <= MAX_SEQUENCE)
    ensures LayersOk(mem, {}, saved + imm, last) && mem + {} + (saved + imm) == mem + imm + saved
  {
    assert forall e :: e in es ==> e in ToSet(es);
    AscendingIsSorted(es);
  }

  lemma FlushSaves(before: Db, es: seq<Entry>, after: Db)
    requires es == [] ==> after == before
    requires es != [] ==> exists f: File, at: nat :: f.entries == es && Step(before, Flush(f, at), after)
    ensures after.written == before.written + ToSet(es)
  {
  }
}
