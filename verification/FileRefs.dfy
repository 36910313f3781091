/** Which versions and tables exist: versions counted by their users, file records by the versions that
    hold them, and the removal of files that nothing needs any more. */
module FileRefs {
  import opened Keys

  /** File records and versions by identity; an identity is never used again. */
  type FileId = nat
  type VersionId = nat

  /** A file record belongs to one level all its life; a file that moves down gets a new record. */
  datatype FileState = FileState(level: nat, number: nat, refs: int)

  /** A version with the file records it holds; their order is the builder's business. */
  datatype VersionState = VersionState(refs: int, files: seq<FileId>)

  type FileMap = map<FileId, FileState>
  type VersionMap = map<VersionId, VersionState>

  datatype FileName =
    | LogFile(number: nat)
    | DescriptorFile(number: nat)
    | TableFile(number: nat)
    | TempFile(number: nat)
    | CurrentFile
    | LockFile
    | InfoLogFile

  // ----- References to files -----

  ghost function Holders(versions: VersionMap, f: FileId): set<VersionId> {
    set v | v in versions && f in versions[v].files
  }

  ghost predicate NoRepeats(s: seq<nat>) {
    forall i, j :: 0 <= i < j < |s| ==> s[i] != s[j]
  }

  /** The references of a file record are the versions that hold it, and its builder's. */
  ghost predicate FileCounted(files: FileMap, versions: VersionMap, extra: set<FileId>, f: FileId)
    requires f in files
  {
    files[f].refs == |Holders(versions, f)| + (if f in extra then 1 else 0) && files[f].refs > 0
  }

  ghost predicate HoldsExisting(files: FileMap, versions: VersionMap, v: VersionId)
    requires v in versions
  {
    NoRepeats(versions[v].files) && forall f :: f in versions[v].files ==> f in files
  }

  /** Every record that a version or the builder `extra` points to exists, and those are all. */
  ghost predicate FilesOk(files: FileMap, versions: VersionMap, extra: set<FileId>) {
    && (forall f :: f in files ==> FileCounted(files, versions, extra, f))
    && (forall v :: v in versions ==> HoldsExisting(files, versions, v))
    && (forall f :: f in extra ==> f in files)
  }

  /** A reference of a file record dropped; the last one deletes it. */
  function Dropped(files: FileMap, f: FileId): FileMap
    requires f in files
  {
    if files[f].refs - 1 <= 0 then files - {f} else files[f := files[f].(refs := files[f].refs - 1)]
  }

  function Added(files: FileMap, f: FileId): FileMap
    requires f in files
  {
    files[f := files[f].(refs := files[f].refs + 1)]
  }

  function WithFiles(versions: VersionMap, v: VersionId, s: seq<FileId>): VersionMap
    requires v in versions
  {
    versions[v := versions[v].(files := s)]
  }

  lemma HoldersChange(versions: VersionMap, v: VersionId, s: seq<FileId>, f: FileId)
    requires v in versions
    ensures var hs, hs' := Holders(versions, f), Holders(WithFiles(versions, v, s), f);
            && (f in s && f !in versions[v].files ==> |hs'| == |hs| + 1)
            && (f !in s && f in versions[v].files ==> |hs'| == |hs| - 1)
            && ((f in s <==> f in versions[v].files) ==> hs' == hs)
            && (v in hs' <==> f in s)
  {
    HoldersNow(versions, v, s, f);
    hide Holders, WithFiles;
    var hs, hs' := Holders(versions, f), Holders(WithFiles(versions, v, s), f);
    if f in s && f !in versions[v].files {
      OneMore(hs, hs', v);
    } else if f !in s && f in versions[v].files {
      OneMore(hs', hs, v);
    } else {
      assert forall w :: w in hs' <==> w in hs;
      assert hs' == hs;
    }
  }

  lemma OneMore(a: set<nat>, b: set<nat>, v: nat)
    requires v !in a && forall w :: w in b <==> w == v || w in a
    ensures |b| == |a| + 1
  {
    assert b == a + {v};
  }

  lemma HoldersNow(versions: VersionMap, v: VersionId, s: seq<FileId>, f: FileId)
    requires v in versions
    ensures forall w :: w in Holders(WithFiles(versions, v, s), f) <==> if w == v then f in s else w in Holders(versions, f)
    ensures v in Holders(versions, f) <==> f in versions[v].files
  {
    var versions' := WithFiles(versions, v, s);
    assert forall w :: w in versions' <==> w in versions;
    assert forall w :: w in versions && w != v ==> versions'[w] == versions[w];
  }

  /** A version takes one more record. */
  lemma GainKeeps(files: FileMap, versions: VersionMap, extra: set<FileId>, v: VersionId, f: FileId)
    requires FilesOk(files, versions, extra) && v in versions && f in files && f !in versions[v].files
    ensures FilesOk(Added(files, f), WithFiles(versions, v, versions[v].files + [f]), extra)
  {
    var s := versions[v].files + [f];
    var (files', versions') := (Added(files, f), WithFiles(versions, v, s));
    forall g | g in files'
      ensures FileCounted(files', versions', extra, g)
    {
      assert FileCounted(files, versions, extra, g);
      HoldersChange(versions, v, s, g);
    }
    forall w | w in versions'
      ensures HoldsExisting(files', versions', w)
    {
      assert HoldsExisting(files, versions, w);
    }
  }

  /** A version gives up its first record. */
  lemma LoseKeeps(files: FileMap, versions: VersionMap, extra: set<FileId>, v: VersionId)
    requires FilesOk(files, versions, extra) && v in versions && versions[v].files != []
    ensures var f := versions[v].files[0];
            f in files && files[f].refs > 0 &&
            FilesOk(Dropped(files, f), WithFiles(versions, v, versions[v].files[1..]), extra)
  {
    var f, s := versions[v].files[0], versions[v].files[1..];
    assert HoldsExisting(files, versions, v);
    assert FileCounted(files, versions, extra, f);
    assert f !in s && forall g :: g in versions[v].files <==> g == f || g in s;
    var (files', versions') := (Dropped(files, f), WithFiles(versions, v, s));
    HoldersChange(versions, v, s, f);
    forall g | g in files'
      ensures FileCounted(files', versions', extra, g)
    {
      assert FileCounted(files, versions, extra, g);
      HoldersChange(versions, v, s, g);
    }
    forall w | w in versions'
      ensures HoldsExisting(files', versions', w)
    {
      assert HoldsExisting(files, versions, w);
      if f in versions'[w].files {
        assert w in Holders(versions', f);
      }
    }
    if f in extra {
      assert files[f].refs >= 2 by {
        assert v in Holders(versions, f);
      }
    }
  }

  /** The builder makes a record. */
  lemma NewFileKeeps(files: FileMap, versions: VersionMap, extra: set<FileId>, f: FileId, level: nat, number: nat)
    requires FilesOk(files, versions, extra) && f !in files
    ensures FilesOk(files[f := FileState(level, number, 1)], versions, extra + {f})
  {
    var files' := files[f := FileState(level, number, 1)];
    assert Holders(versions, f) == {} by {
      forall v | v in versions
        ensures f !in versions[v].files
      {
        assert HoldsExisting(files, versions, v);
      }
    }
    forall g | g in files'
      ensures FileCounted(files', versions, extra + {f}, g)
    {
      assert g != f ==> FileCounted(files, versions, extra, g);
    }
    forall w | w in versions
      ensures HoldsExisting(files', versions, w)
    {
      assert HoldsExisting(files, versions, w);
    }
  }

  /** The builder gives up a record. */
  lemma DropExtraKeeps(files: FileMap, versions: VersionMap, extra: set<FileId>, f: FileId)
    requires FilesOk(files, versions, extra) && f in extra
    ensures f in files && files[f].refs > 0 && FilesOk(Dropped(files, f), versions, extra - {f})
  {
    var files' := Dropped(files, f);
    assert FileCounted(files, versions, extra, f);
    forall g | g in files'
      ensures FileCounted(files', versions, extra - {f}, g)
    {
      assert FileCounted(files, versions, extra, g);
    }
    forall w | w in versions
      ensures HoldsExisting(files', versions, w)
    {
      assert HoldsExisting(files, versions, w);
      if f in versions[w].files {
        assert w in Holders(versions, f);
      }
    }
  }

  /** A version without records comes or goes, or its own references change. */
  lemma VersionsKeep(files: FileMap, versions: VersionMap, versions': VersionMap, extra: set<FileId>)
    requires FilesOk(files, versions, extra)
    requires forall v :: v in versions && versions[v].files != [] ==> v in versions' && versions'[v].files == versions[v].files
    requires forall v :: v in versions' && versions'[v].files != [] ==> v in versions && versions'[v].files == versions[v].files
    ensures FilesOk(files, versions', extra)
  {
    forall f | f in files
      ensures FileCounted(files, versions', extra, f)
    {
      assert FileCounted(files, versions, extra, f);
      assert Holders(versions', f) == Holders(versions, f);
    }
    forall w | w in versions'
      ensures HoldsExisting(files, versions', w)
    {
      assert w in versions ==> HoldsExisting(files, versions, w);
    }
  }

  /** Records that are left are unchanged but for their references. */
  ghost predicate FilesKept(files: FileMap, files': FileMap) {
    forall f :: f in files' ==> f in files && files'[f].level == files[f].level && files'[f].number == files[f].number
  }

  // ----- References to versions -----

  /** A version's references are those of its users, and the set's if it is the current one. The one
      that is being installed has none yet. */
  ghost predicate VersionCounted(versions: VersionMap, handles: multiset<VersionId>, current: VersionId,
                                 building: Option<VersionId>, v: VersionId)
    requires v in versions
  {
    && versions[v].refs == handles[v] + (if v == current then 1 else 0)
    && (versions[v].refs == 0 <==> building == Some(v))
  }

  ghost predicate VersionsOk(versions: VersionMap, list: seq<VersionId>, handles: multiset<VersionId>,
                             current: VersionId, building: Option<VersionId>) {
    && (forall v :: v in versions ==> VersionCounted(versions, handles, current, building, v))
    && (forall v :: v in handles ==> v in versions)
    && current in versions && (building.Some? ==> building.value in versions)
    && NoRepeats(list) && (forall v :: v in list <==> v in versions && building != Some(v))
  }

  /** The list of versions with one unlinked. */
  function Unlinked(list: seq<VersionId>, v: VersionId): seq<VersionId> {
    if list == [] then [] else if list[0] == v then list[1..] else [list[0]] + Unlinked(list[1..], v)
  }

  lemma {:induction false} UnlinkedMembers(list: seq<VersionId>, v: VersionId)
    requires NoRepeats(list)
    ensures NoRepeats(Unlinked(list, v))
    ensures forall w :: w in Unlinked(list, v) <==> w in list && w != v
  {
    if list != [] {
      assert forall w :: w in list <==> w == list[0] || w in list[1..];
      if list[0] != v {
        UnlinkedMembers(list[1..], v);
        assert list[0] !in list[1..];
        var rest := Unlinked(list[1..], v);
        assert forall j :: 0 <= j < |rest| ==> rest[j] in rest;
      }
    }
  }

  /** What is left when a reference of a version is dropped. */
  function VersionsAfter(versions: VersionMap, v: VersionId): VersionMap
    requires v in versions
  {
    if versions[v].refs == 1 then versions - {v} else versions[v := versions[v].(refs := versions[v].refs - 1)]
  }

  function ListAfter(versions: VersionMap, list: seq<VersionId>, v: VersionId): seq<VersionId>
    requires v in versions
  {
    if versions[v].refs == 1 then Unlinked(list, v) else list
  }

  lemma UserJoins(versions: VersionMap, list: seq<VersionId>, handles: multiset<VersionId>, current: VersionId,
                  building: Option<VersionId>)
    requires VersionsOk(versions, list, handles, current, building)
    ensures current in versions
    ensures VersionsOk(versions[current := versions[current].(refs := versions[current].refs + 1)], list,
                       handles + multiset{current}, current, building)
  {
    assert VersionCounted(versions, handles, current, building, current);
    var versions' := versions[current := versions[current].(refs := versions[current].refs + 1)];
    forall w | w in versions'
      ensures VersionCounted(versions', handles + multiset{current}, current, building, w)
    {
      assert VersionCounted(versions, handles, current, building, w);
    }
  }

  lemma UserLeaves(versions: VersionMap, list: seq<VersionId>, handles: multiset<VersionId>, current: VersionId,
                   building: Option<VersionId>, v: VersionId)
    requires VersionsOk(versions, list, handles, current, building) && v in handles
    ensures v in versions && versions[v].refs >= 1
    ensures VersionsOk(VersionsAfter(versions, v), ListAfter(versions, list, v), handles - multiset{v}, current, building)
  {
    UnlinkedMembers(list, v);
    assert VersionCounted(versions, handles, current, building, v);
    assert VersionCounted(versions, handles, current, building, current);
    var versions', handles' := VersionsAfter(versions, v), handles - multiset{v};
    forall w | w in versions'
      ensures VersionCounted(versions', handles', current, building, w)
    {
      assert VersionCounted(versions, handles, current, building, w);
    }
  }

  /** The version that was being installed replaces the current one. */
  lemma InstallKeeps(versions: VersionMap, list: seq<VersionId>, handles: multiset<VersionId>, current: VersionId, v: VersionId)
    requires VersionsOk(versions, list, handles, current, Some(v))
    ensures current in versions && versions[current].refs >= 1 && v in versions && versions[v].refs == 0 && v != current
    ensures var versions', list' := VersionsAfter(versions, current), ListAfter(versions, list, current);
            && v in versions' && versions'[v].refs == 0
            && VersionsOk(versions'[v := versions'[v].(refs := 1)], list' + [v], handles, v, None)
  {
    assert VersionCounted(versions, handles, current, Some(v), v);
    assert VersionCounted(versions, handles, current, Some(v), current);
    assert v !in handles;
    hide NoRepeats;
    var versions' := VersionsAfter(versions, current);
    var versions2 := versions'[v := versions'[v].(refs := 1)];
    InstalledList(versions, list, handles, current, v);
    InstalledCounts(versions, list, handles, current, v);
  }

  lemma InstalledCounts(versions: VersionMap, list: seq<VersionId>, handles: multiset<VersionId>, current: VersionId, v: VersionId)
    requires VersionsOk(versions, list, handles, current, Some(v)) && v != current && v !in handles && current in versions
    requires v in VersionsAfter(versions, current)
    ensures var versions' := VersionsAfter(versions, current);
            var versions2 := versions'[v := versions'[v].(refs := 1)];
            && (forall w :: w in versions2 ==> VersionCounted(versions2, handles, v, None, w))
            && (forall w :: w in handles ==> w in versions2)
  {
    hide NoRepeats;
    var versions' := VersionsAfter(versions, current);
    var versions2 := versions'[v := versions'[v].(refs := 1)];
    forall w | w in versions2
      ensures VersionCounted(versions2, handles, v, None, w)
    {
      assert VersionCounted(versions, handles, current, Some(v), w);
    }
    forall w | w in handles
      ensures w in versions2
    {
      assert VersionCounted(versions, handles, current, Some(v), w);
    }
  }

  lemma InstalledList(versions: VersionMap, list: seq<VersionId>, handles: multiset<VersionId>, current: VersionId, v: VersionId)
    requires VersionsOk(versions, list, handles, current, Some(v)) && v != current
    ensures var list' := ListAfter(versions, list, current) + [v];
            && NoRepeats(list')
            && forall w :: w in list' <==> w in VersionsAfter(versions, current) || w == v
  {
    hide VersionCounted;
    UnlinkedMembers(list, current);
  }

  /** A new version without users is being installed. */
  lemma VersionJoins(versions: VersionMap, list: seq<VersionId>, handles: multiset<VersionId>, current: VersionId, v: VersionId)
    requires VersionsOk(versions, list, handles, current, None) && v !in versions
    ensures VersionsOk(versions[v := VersionState(0, [])], list, handles, current, Some(v))
  {
    var versions' := versions[v := VersionState(0, [])];
    assert v !in handles && handles[v] == 0;
    forall w | w in versions'
      ensures VersionCounted(versions', handles, current, Some(v), w)
    {
      assert w != v ==> VersionCounted(versions, handles, current, None, w);
    }
  }

  // ----- Names of files -----

  function NameOf(files: FileMap, f: FileId): (nat, nat)
    requires f in files
  {
    (files[f].level, files[f].number)
  }

  ghost function Names(files: FileMap, s: seq<FileId>): set<(nat, nat)> {
    set f | f in s && f in files :: NameOf(files, f)
  }

  ghost predicate AreNamed(files: FileMap, records: seq<FileId>, names: seq<(nat, nat)>) {
    |records| == |names| && forall i :: 0 <= i < |records| ==> records[i] in files && NameOf(files, records[i]) == names[i]
  }

  /** The records of `s` whose names are not in `left`. */
  function NotIn(files: FileMap, s: seq<FileId>, left: set<(nat, nat)>): seq<FileId> {
    if s == [] then []
    else
      var f := s[|s| - 1];
      NotIn(files, s[..|s| - 1], left) + if f in files && NameOf(files, f) in left then [] else [f]
  }

  lemma NotInMore(files: FileMap, s: seq<FileId>, k: nat, left: set<(nat, nat)>)
    requires k < |s| && NoRepeats(s)
    ensures s[k] !in NotIn(files, s[..k], left)
    ensures NotIn(files, s[..k + 1], left) ==
            NotIn(files, s[..k], left) + if s[k] in files && NameOf(files, s[k]) in left then [] else [s[k]]
  {
    assert s[..k + 1][..k] == s[..k] && s[..k + 1][k] == s[k];
    NotInMembers(files, s[..k], left);
  }

  lemma {:induction false} NotInMembers(files: FileMap, s: seq<FileId>, left: set<(nat, nat)>)
    ensures forall f :: f in NotIn(files, s, left) <==> f in s && !(f in files && NameOf(files, f) in left)
  {
    if s != [] {
      NotInMembers(files, s[..|s| - 1], left);
      assert s == s[..|s| - 1] + [s[|s| - 1]];
    }
  }

  lemma BaseAndRecords(files: FileMap, versions: VersionMap, base: VersionId, records: seq<FileId>, files0: FileMap)
    requires FilesOk(files, versions, ToSet(records)) && base in versions && NoRepeats(records)
    requires (forall f :: f in records ==> f !in files0) && forall f :: f in versions[base].files ==> f in files0
    ensures NoRepeats(versions[base].files + records)
    ensures forall f :: f in versions[base].files + records ==> f in files
  {
    assert HoldsExisting(files, versions, base);
    var held, s := versions[base].files, versions[base].files + records;
    forall i, j | 0 <= i < j < |s|
      ensures s[i] != s[j]
    {
      if i < |held| <= j {
        assert s[i] in held && s[j] in records;
      }
    }
  }

  lemma HeldExist(files: FileMap, versions: VersionMap, extra: set<FileId>, v: VersionId)
    requires FilesOk(files, versions, extra) && v in versions
    ensures forall f :: f in versions[v].files ==> f in files
  {
    assert HoldsExisting(files, versions, v);
  }

  /** Giving a version files changes no reference to versions. */
  lemma FilesNotCounted(versions: VersionMap, list: seq<VersionId>, handles: multiset<VersionId>, current: VersionId,
                        building: Option<VersionId>, v: VersionId, s: seq<FileId>)
    requires VersionsOk(versions, list, handles, current, building) && v in versions
    ensures VersionsOk(WithFiles(versions, v, s), list, handles, current, building)
    ensures forall w :: w in WithFiles(versions, v, s) ==> w in versions
  {
    var versions' := WithFiles(versions, v, s);
    forall w | w in versions'
      ensures VersionCounted(versions', handles, current, building, w)
    {
      assert VersionCounted(versions, handles, current, building, w);
    }
  }

  lemma BuildingApart(versions: VersionMap, list: seq<VersionId>, handles: multiset<VersionId>, current: VersionId, v: VersionId)
    requires VersionsOk(versions, list, handles, current, Some(v))
    ensures v in versions && current in versions && v != current
  {
    assert VersionCounted(versions, handles, current, Some(v), current);
    assert VersionCounted(versions, handles, current, Some(v), v);
  }

  /** The builder's use of its base comes and goes. */
  lemma BackAgain(versions: VersionMap, list: seq<VersionId>, handles: multiset<VersionId>, current: VersionId,
                  v: VersionId, s: seq<FileId>)
    requires VersionsOk(versions, list, handles, current, Some(v))
    ensures current in versions && v in versions
    ensures var used := versions[current := VersionState(versions[current].refs + 1, versions[current].files)];
            VersionsAfter(WithFiles(used, v, s), current) == WithFiles(versions, v, s) &&
            ListAfter(WithFiles(used, v, s), list, current) == list
  {
    assert VersionCounted(versions, handles, current, Some(v), current);
    assert VersionCounted(versions, handles, current, Some(v), v);
  }

  lemma BuiltNames(files0: FileMap, applied: FileMap, base: seq<FileId>, records: seq<FileId>, added: seq<(nat, nat)>,
                   deleted: set<(nat, nat)>)
    requires FilesKept(applied, files0) && AreNamed(applied, records, added) && forall f :: f in base ==> f in files0
    ensures forall p :: p in Names(applied, NotIn(applied, base + records, deleted - ToSet(added))) <==>
              p in added || (p in Names(files0, base) && p !in deleted)
  {
    var left := deleted - ToSet(added);
    var s := NotIn(applied, base + records, left);
    NotInMembers(applied, base + records, left);
    forall p
      ensures p in Names(applied, s) <==> p in added || (p in Names(files0, base) && p !in deleted)
    {
      if p in Names(applied, s) {
        var f :| f in s && f in applied && NameOf(applied, f) == p;
        if f in records {
          var i :| 0 <= i < |records| && records[i] == f;
          assert added[i] == p;
        } else {
          assert NameOf(files0, f) == p;
        }
      }
      if p in added {
        var i :| 0 <= i < |added| && added[i] == p;
        assert records[i] in s && NameOf(applied, records[i]) == p;
      } else if p in Names(files0, base) && p !in deleted {
        var f :| f in base && f in files0 && NameOf(files0, f) == p;
        assert f in s && NameOf(applied, f) == p;
      }
    }
  }

  lemma BuiltThere(files0: FileMap, versions0: VersionMap, files: FileMap, versions: VersionMap, v: VersionId, dir: set<FileName>)
    requires AllThere(files0, versions0, dir) && v in versions && versions - {v} == versions0
    requires forall w, f :: w in versions0 && f in versions0[w].files ==> f in files0
    requires forall f :: f in files0 && f in files ==> files[f].number == files0[f].number
    requires forall p :: p in Names(files, versions[v].files) ==> TableFile(p.1) in dir
    ensures AllThere(files, versions, dir)
  {
    forall w, f | w in versions && f in versions[w].files && f in files
      ensures TableFile(files[f].number) in dir
    {
      if w == v {
        assert NameOf(files, f) in Names(files, versions[v].files);
      } else {
        assert w in versions0 && versions0[w] == versions[w];
      }
    }
  }

  lemma NamesKept(files: FileMap, files': FileMap, s: seq<FileId>)
    requires FilesKept(files, files') && forall f :: f in s ==> f in files'
    ensures Names(files, s) == Names(files', s)
  {
    forall p
      ensures p in Names(files, s) <==> p in Names(files', s)
    {
      if p in Names(files, s) {
        var f :| f in s && f in files && NameOf(files, f) == p;
        assert NameOf(files', f) == p;
      }
    }
  }

  lemma CurrentHolds(files: FileMap, versions: VersionMap, list: seq<VersionId>, handles: multiset<VersionId>, current: VersionId)
    requires FilesOk(files, versions, {}) && VersionsOk(versions, list, handles, current, None)
    ensures current in versions && forall w, f :: w in versions && f in versions[w].files ==> f in files
  {
    forall w, f | w in versions && f in versions[w].files
      ensures f in files
    {
      HeldExist(files, versions, {}, w);
    }
  }

  lemma NumbersKept(files0: FileMap, applied: FileMap, files: FileMap)
    requires FilesKept(applied, files0) && FilesKept(applied, files)
    ensures forall f :: f in files0 && f in files ==> files[f].number == files0[f].number
  {
  }

  lemma NamesThere(files: FileMap, versions: VersionMap, v: VersionId, dir: set<FileName>)
    requires AllThere(files, versions, dir) && v in versions
    ensures forall p :: p in Names(files, versions[v].files) ==> TableFile(p.1) in dir
  {
  }

  ghost predicate AllThere(files: FileMap, versions: VersionMap, dir: set<FileName>) {
    forall v, f :: v in versions && f in versions[v].files && f in files ==> TableFile(files[f].number) in dir
  }

  lemma FewerThere(files0: FileMap, versions0: VersionMap, files: FileMap, versions: VersionMap, dir: set<FileName>)
    requires AllThere(files0, versions0, dir) && FilesKept(files0, files)
    requires forall w :: w in versions ==> w in versions0 && versions[w].files == versions0[w].files
    ensures AllThere(files, versions, dir)
  {
  }

  lemma {:induction false} UnlinkedAbsent(list: seq<VersionId>, v: VersionId)
    requires v !in list
    ensures Unlinked(list, v) == list
  {
    if list != [] {
      UnlinkedAbsent(list[1..], v);
    }
  }

  /** The version that was being installed goes. */
  lemma AbandonKeeps(versions: VersionMap, list: seq<VersionId>, handles: multiset<VersionId>, current: VersionId, v: VersionId)
    requires VersionsOk(versions, list, handles, current, Some(v))
    ensures v in versions && v != current && VersionsOk(versions - {v}, Unlinked(list, v), handles, current, None)
  {
    UnlinkedAbsent(list, v);
    assert VersionCounted(versions, handles, current, Some(v), v);
    var versions' := versions - {v};
    assert v !in handles;
    forall w | w in versions'
      ensures VersionCounted(versions', handles, current, None, w)
    {
      assert VersionCounted(versions, handles, current, Some(v), w);
    }
    assert VersionCounted(versions, handles, current, Some(v), current);
  }

  // ----- Files to keep -----

  /** The numbers of the tables that the linked versions hold. */
  ghost function LiveTables(files: FileMap, versions: VersionMap, list: seq<VersionId>): set<nat> {
    set v, f | v in list && v in versions && f in versions[v].files && f in files :: files[f].number
  }

  /** Whether a file of the directory is still needed, given the numbers in use. */
  predicate Needed(name: FileName, live: set<nat>, logNumber: nat, prevLogNumber: nat, manifestFileNumber: nat) {
    match name
    case LogFile(n) => n >= logNumber || n == prevLogNumber
    case DescriptorFile(n) => n >= manifestFileNumber
    case TableFile(n) => n in live
    case TempFile(n) => n in live
    case CurrentFile => true
    case LockFile => true
    case InfoLogFile => true
  }

  /** When only needed files are left, the tables of all versions are there just when those of the
      version that is being installed are in use too. */
  lemma ThereWhenLive(files: FileMap, versions: VersionMap, list: seq<VersionId>, handles: multiset<VersionId>,
                      current: VersionId, building: Option<VersionId>, dir: set<FileName>, dir': set<FileName>, live: set<nat>)
    requires FilesOk(files, versions, {}) && VersionsOk(versions, list, handles, current, building) && AllThere(files, versions, dir)
    requires LiveTables(files, versions, list) <= live
    requires forall n :: TableFile(n) in dir' <==> TableFile(n) in dir && n in live
    ensures AllThere(files, versions, dir') <==>
              building == None ||
              forall f :: f in versions[building.value].files && f in files ==> files[f].number in live
  {
    forall v, f | v in versions && f in versions[v].files && f in files && building != Some(v)
      ensures TableFile(files[f].number) in dir'
    {
      assert v in list;
      assert files[f].number in LiveTables(files, versions, list);
    }
  }

  // ----- The versions and the directory -----

  class VersionStore {
    var files: FileMap
    var versions: VersionMap
    var list: seq<VersionId>        // oldest first
    var current: VersionId
    var nextId: nat
    var dir: set<FileName>
    var pendingOutputs: set<nat>
    var logNumber: nat
    var prevLogNumber: nat
    var manifestFileNumber: nat
    var bgError: bool
    ghost var handles: multiset<VersionId>   // versions in use, as often as they are
    ghost var building: Option<VersionId>    // the version whose edit is being logged

    ghost predicate Valid()
      reads this
    {
      && current in versions
      && FilesOk(files, versions, {}) && VersionsOk(versions, list, handles, current, building)
      && (forall f :: f in files ==> f < nextId) && (forall v :: v in versions ==> v < nextId)
    }

    /** The tables of every version are in the directory. */
    ghost predicate TablesThere()
      reads `files, `versions, `dir
    {
      AllThere(files, versions, dir)
    }

    /** The tables being written are in the directory. */
    ghost predicate PendingThere()
      reads `pendingOutputs, `dir
    {
      forall n :: n in pendingOutputs ==> TableFile(n) in dir
    }

    constructor ()
      ensures TablesThere() && PendingThere() && pendingOutputs == {}
      ensures Valid() && building == None && handles == multiset{} && versions.Keys == {current} && list == [current]
      ensures versions[current].files == [] && dir == {} && !bgError
    {
      files, versions, list, current, nextId := map[], map[0 := VersionState(1, [])], [0], 0, 1;
      dir, pendingOutputs, logNumber, prevLogNumber, manifestFileNumber, bgError := {}, {}, 0, 0, 0, false;
      handles, building := multiset{}, None;
    }

    /** Take the current version into use. */
    method Ref() returns (v: VersionId)
      requires Valid()
      modifies this`versions, this`handles
      ensures Valid() && (old(TablesThere()) ==> TablesThere())
      ensures v == current && handles == old(handles) + multiset{v}
      ensures versions == old(versions)[v := VersionState(old(versions)[v].refs + 1, old(versions)[v].files)]
    {
      hide FilesOk, VersionsOk;
      v := current;
      UserJoins(versions, list, handles, current, building);
      ghost var versions0 := versions;
      VersionsKeep(files, versions, versions[v := versions[v].(refs := versions[v].refs + 1)], {});
      versions := versions[v := versions[v].(refs := versions[v].refs + 1)];
      handles := handles + multiset{v};
    }

    /** Give a version back; the last user of one that is not current deletes it. */
    method Unref(v: VersionId)
      requires Valid() && v in handles
      modifies this`versions, this`handles, this`files, this`list
      ensures Valid() && (old(TablesThere()) ==> TablesThere())
      ensures handles == old(handles) - multiset{v} && FilesKept(old(files), files)
      ensures versions == VersionsAfter(old(versions), v) && list == ListAfter(old(versions), old(list), v)
    {
      hide FilesOk, VersionsOk, AllThere;
      UserLeaves(versions, list, handles, current, building, v);
      ghost var files0, versions0 := files, versions;
      DropVersion(v);
      handles := handles - multiset{v};
      if AllThere(files0, versions0, dir) { FewerThere(files0, versions0, files, versions, dir); }
    }

    method DropVersion(v: VersionId)
      requires FilesOk(files, versions, {}) && v in versions && versions[v].refs >= 1
      modifies this`versions, this`files, this`list
      ensures FilesOk(files, versions, {}) && FilesKept(old(files), files)
      ensures versions == VersionsAfter(old(versions), v) && list == ListAfter(old(versions), old(list), v)
    {
      hide FilesOk;
      ghost var versions0 := versions;
      versions := versions[v := versions[v].(refs := versions[v].refs - 1)];
      VersionsKeep(files, versions0, versions, {});
      if versions[v].refs == 0 {
        DeleteVersion(v);
        assert versions == versions0 - {v};
      }
    }

    /** Unlink a version and drop its references to files. */
    method DeleteVersion(v: VersionId)
      requires FilesOk(files, versions, {}) && v in versions
      modifies this`versions, this`files, this`list
      ensures FilesOk(files, versions, {}) && FilesKept(old(files), files)
      ensures versions == old(versions) - {v} && list == Unlinked(old(list), v)
    {
      hide FilesOk;
      list := Unlinked(list, v);
      var s := versions[v].files;
      assert s[0..] == s;
      assert WithFiles(versions, v, s) == versions;
      for i := 0 to |s|
        invariant versions == old(versions) && list == Unlinked(old(list), v)
        invariant FilesOk(files, WithFiles(versions, v, s[i..]), {}) && FilesKept(old(files), files)
      {
        ghost var view := WithFiles(versions, v, s[i..]);
        LoseKeeps(files, view, {}, v);
        assert WithFiles(view, v, s[i..][1..]) == WithFiles(versions, v, s[i + 1..]) by {
          assert s[i..][1..] == s[i + 1..];
        }
        DropFile(s[i]);
      }
      ghost var view := WithFiles(versions, v, s[|s|..]);
      versions := versions - {v};
      VersionsKeep(files, view, versions, {});
    }

    /** Drop a reference of a file record; the last one deletes it. */
    method DropFile(f: FileId)
      requires f in files && files[f].refs > 0
      modifies this`files
      ensures files == Dropped(old(files), f) && FilesKept(old(files), files)
    {
      files := files[f := files[f].(refs := files[f].refs - 1)];
      if files[f].refs <= 0 {
        files := files - {f};
        assert files == old(files) - {f};
      }
    }

    // ----- Logging and applying an edit -----

    /** Build the version that an edit makes of the current one; its record in the manifest is to be
        written next. */
    method Prepare(added: seq<(nat, nat)>, deleted: set<(nat, nat)>) returns (v: VersionId)
      requires Valid() && building == None && TablesThere()
      requires forall p :: p in added ==> TableFile(p.1) in dir
      modifies this`files, this`versions, this`list, this`nextId, this`handles, this`building
      ensures Valid() && building == Some(v) && TablesThere() && v !in old(versions)
      ensures handles == old(handles) && list == old(list) && v in versions && versions - {v} == old(versions)
      ensures forall p :: p in Names(files, versions[v].files) <==>
                p in added || (p in old(Names(files, versions[current].files)) && p !in deleted)
    {
      hide FilesOk, VersionsOk, Names, NotIn, AllThere, AreNamed, FilesKept;
      ghost var files0, versions0, base := files, versions, versions[current].files;
      CurrentHolds(files, versions, list, handles, current);
      v := NewVersion();
      ghost var records, applied;
      records, applied := Build(v, added, deleted);
      BuiltNames(files0, applied, base, records, added, deleted);
      HeldExist(files, versions, {}, v);
      NamesKept(applied, files, versions[v].files);
      assert forall p :: p in Names(files, versions[v].files) ==> TableFile(p.1) in dir by {
        NamesThere(files0, versions0, current, dir);
      }
      NumbersKept(files0, applied, files);
      BuiltThere(files0, versions0, files, versions, v, dir);
    }

    /** Builder, Apply, SaveTo and the end of the builder. */
    method Build(v: VersionId, added: seq<(nat, nat)>, deleted: set<(nat, nat)>)
      returns (ghost records: seq<FileId>, ghost applied: FileMap)
      requires Valid() && building == Some(v) && v in versions && versions[v].files == [] && current in versions
      modifies this`files, this`versions, this`list, this`nextId, this`handles
      ensures Valid() && handles == old(handles) && list == old(list)
      ensures FilesKept(applied, files) && FilesKept(applied, old(files))
      ensures AreNamed(applied, records, added)
      ensures versions == WithFiles(old(versions), v,
                                    NotIn(applied, old(versions)[current].files + records, deleted - ToSet(added)))
    {
      hide FilesOk, VersionsOk, NotIn, AreNamed, NoRepeats, WithFiles, VersionsAfter, ListAfter, TablesThere, AllThere;
      ghost var versions0, handles0 := versions, handles;
      BuildingApart(versions, list, handles, current, v);
      HeldExist(files, versions, {}, current);
      var base := Ref();
      var rs, left := Apply(added, deleted);
      records, applied := rs, files;
      BaseAndRecords(files, versions, base, rs, old(files));
      ghost var s := NotIn(files, versions[base].files + rs, left);
      FilesNotCounted(versions, list, handles, current, building, v, s);
      BackAgain(versions0, list, handles0, current, v, s);
      SaveTo(v, versions[base].files, rs, left);
      DropRecords(rs);
      Unref(base);
    }

    method NewVersion() returns (v: VersionId)
      requires Valid() && building == None
      modifies this`versions, this`nextId, this`building
      ensures Valid() && building == Some(v) && v !in old(versions) && versions == old(versions)[v := VersionState(0, [])]
    {
      hide FilesOk, VersionsOk;
      v := nextId;
      VersionJoins(versions, list, handles, current, v);
      VersionsKeep(files, versions, versions[v := VersionState(0, [])], {});
      versions := versions[v := VersionState(0, [])];
      building := Some(v);
      nextId := nextId + 1;
    }

    /** The builder's records of the added files, and the deletions that stand. */
    method Apply(added: seq<(nat, nat)>, deleted: set<(nat, nat)>) returns (records: seq<FileId>, left: set<(nat, nat)>)
      requires FilesOk(files, versions, {}) && (forall f :: f in files ==> f < nextId) && (forall v :: v in versions ==> v < nextId)
      modifies this`files, this`nextId
      ensures FilesOk(files, versions, ToSet(records)) && NoRepeats(records)
      ensures (forall f :: f in files ==> f < nextId) && (forall v :: v in versions ==> v < nextId)
      ensures FilesKept(files, old(files)) && (forall f :: f in records ==> f !in old(files))
      ensures AreNamed(files, records, added) && left == deleted - ToSet(added)
    {
      hide FilesOk;
      records, left := [], deleted;
      assert ToSet(records) == {} && ToSet(added[..0]) == {};
      for i := 0 to |added|
        invariant FilesOk(files, versions, ToSet(records)) && NoRepeats(records)
        invariant (forall f :: f in files ==> f < nextId) && (forall v :: v in versions ==> v < nextId)
        invariant FilesKept(files, old(files)) && (forall f :: f in records ==> f in files && f !in old(files))
        invariant AreNamed(files, records, added[..i]) && left == deleted - ToSet(added[..i])
      {
        var (level, number) := added[i];
        var f := nextId;
        NewFileKeeps(files, versions, ToSet(records), f, level, number);
        assert ToSet(records + [f]) == ToSet(records) + {f};
        assert added[..i + 1] == added[..i] + [added[i]];
        files := files[f := FileState(level, number, 1)];
        nextId := nextId + 1;
        left := left - {(level, number)};
        records := records + [f];
      }
      assert added[..|added|] == added;
    }

    /** Give the new version the files of its base and of the builder that are not deleted. */
    method SaveTo(v: VersionId, base: seq<FileId>, records: seq<FileId>, left: set<(nat, nat)>)
      requires v in versions && versions[v].files == [] && FilesOk(files, versions, ToSet(records))
      requires NoRepeats(base + records) && forall f :: f in base + records ==> f in files
      modifies this`files, this`versions
      ensures FilesOk(files, versions, ToSet(records)) && FilesKept(old(files), files) && FilesKept(files, old(files))
      ensures versions == WithFiles(old(versions), v, NotIn(old(files), base + records, left))
    {
      hide FilesOk, NoRepeats;
      ghost var s := base + records;
      AddAll(v, base, left, ToSet(records), files, s, 0);
      AddAll(v, records, left, ToSet(records), old(files), s, |base|);
      assert s[..|s|] == s;
    }

    method AddAll(v: VersionId, part: seq<FileId>, left: set<(nat, nat)>,
                  ghost extra: set<FileId>, ghost files0: FileMap, ghost s: seq<FileId>, ghost from: nat)
      requires v in versions && FilesOk(files, versions, extra) && NoRepeats(s)
      requires FilesKept(files0, files) && FilesKept(files, files0)
      requires from + |part| <= |s| && s[from..from + |part|] == part && forall f :: f in part ==> f in files
      requires versions[v].files == NotIn(files0, s[..from], left)
      modifies this`files, this`versions
      ensures FilesOk(files, versions, extra) && FilesKept(files0, files) && FilesKept(files, files0)
      ensures versions == WithFiles(old(versions), v, NotIn(files0, s[..from + |part|], left))
    {
      hide FilesOk, NotIn, NoRepeats;
      for i := 0 to |part|
        invariant FilesOk(files, versions, extra) && FilesKept(files0, files) && FilesKept(files, files0)
        invariant versions == WithFiles(old(versions), v, NotIn(files0, s[..from + i], left))
      {
        assert part[i] == s[from + i];
        NotInMore(files0, s, from + i, left);
        MaybeAddFile(v, part[i], left, extra);
      }
    }

    method MaybeAddFile(v: VersionId, f: FileId, left: set<(nat, nat)>, ghost extra: set<FileId>)
      requires v in versions && f in files && f !in versions[v].files && FilesOk(files, versions, extra)
      modifies this`files, this`versions
      ensures FilesOk(files, versions, extra) && FilesKept(old(files), files) && FilesKept(files, old(files))
      ensures versions == WithFiles(old(versions), v, old(versions)[v].files + if NameOf(old(files), f) in left then [] else [f])
    {
      hide FilesOk;
      if (files[f].level, files[f].number) in left {
        assert versions[v].files + [] == versions[v].files;
        return;
      }
      GainKeeps(files, versions, extra, v, f);
      files := files[f := files[f].(refs := files[f].refs + 1)];
      versions := versions[v := versions[v].(files := versions[v].files + [f])];
    }

    /** The builder goes. */
    method DropRecords(records: seq<FileId>)
      requires FilesOk(files, versions, ToSet(records)) && NoRepeats(records)
      modifies this`files
      ensures FilesOk(files, versions, {}) && FilesKept(old(files), files)
    {
      hide FilesOk;
      assert records[0..] == records;
      for i := 0 to |records|
        invariant FilesOk(files, versions, ToSet(records[i..])) && FilesKept(old(files), files)
      {
        DropExtraKeeps(files, versions, ToSet(records[i..]), records[i]);
        assert ToSet(records[i..]) - {records[i]} == ToSet(records[i + 1..]) by {
          assert records[i..][1..] == records[i + 1..];
          assert forall g :: g in records[i..] <==> g == records[i] || g in records[i + 1..];
        }
        DropFile(records[i]);
      }
      assert ToSet(records[|records|..]) == {};
    }

    /** The edit is in the manifest: its version becomes current. */
    method AppendVersion(v: VersionId)
      requires Valid() && building == Some(v)
      modifies this`versions, this`files, this`list, this`current, this`building
      ensures Valid() && building == None && current == v && (old(TablesThere()) ==> TablesThere())
      ensures v in old(versions) && v in versions && versions[v].files == old(versions)[v].files
      ensures Names(files, versions[v].files) == old(Names(files, versions[v].files))
    {
      hide FilesOk, VersionsOk, AllThere, Names, Unlinked;
      ghost var files0, versions0 := files, versions;
      InstallKeeps(versions, list, handles, current, v);
      DropVersion(current);
      current := v;
      VersionsKeep(files, versions, versions[v := versions[v].(refs := versions[v].refs + 1)], {});
      versions := versions[v := versions[v].(refs := versions[v].refs + 1)];
      list := list + [v];
      building := None;
      if AllThere(files0, versions0, dir) { FewerThere(files0, versions0, files, versions, dir); }
      HeldExist(files, versions, {}, v);
      NamesKept(files0, files, versions[v].files);
    }

    /** The edit may not be in the manifest: its version goes, and no file is removed any more. */
    method Abandon(v: VersionId)
      requires Valid() && building == Some(v)
      modifies this`versions, this`files, this`list, this`building, this`bgError
      ensures Valid() && building == None && bgError && (old(TablesThere()) ==> TablesThere())
      ensures versions == old(versions) - {v} && list == old(list)
    {
      hide FilesOk, VersionsOk, AllThere, Unlinked;
      ghost var files0, versions0 := files, versions;
      AbandonKeeps(versions, list, handles, current, v);
      NotListed(versions, list, handles, current, v);
      DeleteVersion(v);
      building := None;
      bgError := true;
      if AllThere(files0, versions0, dir) { FewerThere(files0, versions0, files, versions, dir); }
    }

    static lemma NotListed(versions: VersionMap, list: seq<VersionId>, handles: multiset<VersionId>, current: VersionId, v: VersionId)
      requires VersionsOk(versions, list, handles, current, Some(v))
      ensures Unlinked(list, v) == list
    {
      UnlinkedAbsent(list, v);
    }

    // ----- Removing files -----

    /** A table is about to be written. */
    method StartOutput(number: nat)
      requires Valid()
      modifies this`pendingOutputs, this`dir
      ensures Valid() && (old(TablesThere()) ==> TablesThere()) && (old(PendingThere()) ==> PendingThere())
      ensures pendingOutputs == old(pendingOutputs) + {number} && dir == old(dir) + {TableFile(number)}
    {
      pendingOutputs := pendingOutputs + {number};
      dir := dir + {TableFile(number)};
    }

    method EndOutput(number: nat)
      requires Valid()
      modifies this`pendingOutputs
      ensures Valid() && pendingOutputs == old(pendingOutputs) - {number} && (old(PendingThere()) ==> PendingThere())
    {
      pendingOutputs := pendingOutputs - {number};
    }

    method AddLiveFiles(live0: set<nat>) returns (live: set<nat>)
      requires Valid()
      ensures live == live0 + LiveTables(files, versions, list)
    {
      hide FilesOk;
      live := live0;
      for i := 0 to |list|
        invariant live == live0 + LiveTables(files, versions, list[..i])
      {
        var v := list[i];
        assert v in versions;
        HeldExist(files, versions, {}, v);
        var s := versions[v].files;
        ghost var before := live;
        for j := 0 to |s|
          invariant live == before + set f | f in s[..j] && f in files :: files[f].number
        {
          assert s[..j + 1] == s[..j] + [s[j]];
          live := live + {files[s[j]].number};
        }
        assert s[..|s|] == s;
        assert list[..i + 1] == list[..i] + [v];
      }
      assert list[..|list|] == list;
    }

    /** Remove the files of the directory that are not needed. Tables in use stay; those of a version
        that is being installed stay just when they are pending outputs or another version has them. */
    method DeleteObsoleteFiles()
      requires Valid() && TablesThere()
      modifies this`dir
      ensures Valid() && (old(PendingThere()) ==> PendingThere())
      ensures bgError ==> dir == old(dir)
      ensures var live := pendingOutputs + LiveTables(files, versions, list);
              && (!bgError ==> dir == set n | n in old(dir) && Needed(n, live, logNumber, prevLogNumber, manifestFileNumber))
              && (TablesThere() <==>
                    bgError || building == None ||
                    forall f :: f in versions[building.value].files && f in files ==> files[f].number in live)
    {
      hide FilesOk, VersionsOk, AllThere;
      if bgError {
        return;
      }
      var live := AddLiveFiles(pendingOutputs);
      ghost var dir0 := dir;
      var rest := dir;
      while rest != {}
        invariant rest <= dir0
        invariant dir == set n | n in dir0 && (n in rest || Needed(n, live, logNumber, prevLogNumber, manifestFileNumber))
        decreases rest
      {
        var name :| name in rest;
        rest := rest - {name};
        if !Needed(name, live, logNumber, prevLogNumber, manifestFileNumber) {
          dir := dir - {name};
        }
      }
      ThereWhenLive(files, versions, list, handles, current, building, dir0, dir, live);
    }
  }

  // ----- Runs -----

  datatype Event =
    | Use
    | GiveBack(v: VersionId)
    | Output(number: nat)
    | OutputDone(number: nat)
    | Log(added: seq<(nat, nat)>, deleted: set<(nat, nat)>)
    | Logged
    | NotLogged
    | Collect

  /** One event; it is passed over when it cannot happen. Files are removed only between edits. */
  method Happen(s: VersionStore, event: Event, building: Option<VersionId>, handles: multiset<VersionId>)
    returns (building': Option<VersionId>, handles': multiset<VersionId>)
    requires s.Valid() && s.TablesThere() && s.PendingThere() && building == s.building && handles == s.handles
    modifies s
    ensures s.Valid() && s.TablesThere() && s.PendingThere() && building' == s.building && handles' == s.handles
  {
    hide VersionStore.Valid, VersionStore.TablesThere, VersionStore.PendingThere, VersionsAfter, ListAfter, Names, LiveTables, Needed, FilesKept;
    building', handles' := building, handles;
    match event {
      case Use =>
        var v := s.Ref();
        handles' := handles + multiset{v};
      case GiveBack(v) =>
        if v in handles {
          s.Unref(v);
          handles' := handles - multiset{v};
        }
      case Output(n) => s.StartOutput(n);
      case OutputDone(n) => s.EndOutput(n);
      case Log(added, deleted) =>
        if building == None && forall p :: p in added ==> TableFile(p.1) in s.dir {
          var v := s.Prepare(added, deleted);
          building' := Some(v);
        }
      case Logged =>
        if building.Some? {
          s.AppendVersion(building.value);
          building' := None;
        }
      case NotLogged =>
        if building.Some? {
          s.Abandon(building.value);
          building' := None;
        }
      case Collect => if building == None { s.DeleteObsoleteFiles(); }
    }
  }

  /** In any run of readers and one background worker every record is counted exactly, and every table
      of every version, and every table being written, stays in the directory. */
  method Run(events: seq<Event>) returns (s: VersionStore)
    ensures fresh(s) && s.Valid() && s.TablesThere() && s.PendingThere()
  {
    hide VersionStore.Valid, VersionStore.TablesThere, VersionStore.PendingThere;
    s := new VersionStore();
    var building: Option<VersionId> := None;
    var handles: multiset<VersionId> := multiset{};
    for i := 0 to |events|
      invariant fresh(s) && s.Valid() && s.TablesThere() && s.PendingThere() && building == s.building && handles == s.handles
    {
      building, handles := Happen(s, events[i], building, handles);
    }
  }

  /** Files must not be removed while an edit is being logged: the new table is no pending output any
      more and no linked version has it yet. */
  method CollectWhileLogging() returns (s: VersionStore)
    ensures s.Valid() && s.building.Some? && !s.TablesThere()
  {
    hide VersionStore.Valid, VersionStore.TablesThere, Needed;
    s := new VersionStore();
    s.StartOutput(7);
    s.EndOutput(7);
    ghost var v0 := s.current;
    var added: seq<(nat, nat)> := [(0, 7)];
    var v := s.Prepare(added, {});
    assert s.versions[v0].files == [];
    assert LiveTables(s.files, s.versions, s.list) == {};
    assert added[0] in Names(s.files, s.versions[v].files);
    s.DeleteObsoleteFiles();
  }
}
