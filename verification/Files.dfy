/** Table files and the searches over the file lists of a version. */
module Files {
  import opened Keys

  const NUM_LEVELS: nat := 7
  const MAX_MEM_COMPACT_LEVEL: nat := 2

  /** A table file as the version set sees it, with the entries it holds. */
  datatype File = File(number: nat, size: nat, smallest: IKey, largest: IKey, entries: seq<Entry>)

  ghost predicate ValidFile(f: File) {
    && |f.entries| > 0
    && Sorted(f.entries)
    && f.smallest == f.entries[0].key
    && f.largest == f.entries[|f.entries| - 1].key
    && forall e :: e in f.entries ==> e.key.sn <= MAX_SEQUENCE
  }

  ghost predicate ValidFiles(files: seq<File>) {
    forall f :: f in files ==> ValidFile(f)
  }

  lemma WithinFile(f: File, e: Entry)
    requires ValidFile(f) && e in f.entries
    ensures f.smallest.user <= e.key.user <= f.largest.user
    ensures e.key == f.smallest || Precedes(f.smallest, e.key)
    ensures e.key == f.largest || Precedes(e.key, f.largest)
  {
  }

  /** The files of a level below the first: in order, with no overlap of their key ranges. */
  ghost predicate LevelOk(files: seq<File>) {
    forall i, j :: 0 <= i < j < |files| ==> Precedes(files[i].largest, files[j].smallest)
  }

  ghost function EntriesOf(files: seq<File>): set<Entry> {
    set f, e | f in files && e in f.entries :: e
  }

  function TotalFileSize(files: seq<File>): nat {
    if files == [] then 0 else files[0].size + TotalFileSize(files[1..])
  }

  // ----- Searching one level -----

  /** The least index whose file ends at or after `key`. */
  ghost predicate IsFileFor(files: seq<File>, key: IKey, r: nat) {
    r <= |files| &&
    (forall j :: 0 <= j < r ==> Before(files[j].largest, key)) &&
    (forall j :: r <= j < |files| ==> !Before(files[j].largest, key))
  }

  method FindFile(files: seq<File>, key: IKey) returns (r: nat)
    requires ValidFiles(files) && LevelOk(files)
    ensures IsFileFor(files, key, r)
  {
    var left, right := 0, |files|;
    while left < right
      invariant left <= right <= |files|
      invariant forall j :: 0 <= j < left ==> Before(files[j].largest, key)
      invariant forall j :: right <= j < |files| ==> !Before(files[j].largest, key)
    {
      var mid := (left + right) / 2;
      LargestAscend(files, mid);
      if Compare(files[mid].largest, key) < 0 {
        left := mid + 1;
      } else {
        right := mid;
      }
    }
    return right;
  }

  lemma LargestAscend(files: seq<File>, m: nat)
    requires ValidFiles(files) && LevelOk(files) && m < |files|
    ensures forall j :: 0 <= j < m ==> Before(files[j].largest, files[m].largest)
    ensures forall j :: m < j < |files| ==> Before(files[m].largest, files[j].largest)
  {
    forall i, j | 0 <= i < j < |files|
      ensures Before(files[i].largest, files[j].largest)
    {
      var g := files[j];
      assert g in files;
      WithinFile(g, g.entries[0]);
    }
  }

  // ----- User-key ranges -----

  /** An end of a range; none is unbounded. */
  type Bound = Option<UserKey>

  predicate AfterFile(key: Bound, f: File) {
    key.Some? && key.value > f.largest.user
  }

  predicate BeforeFile(key: Bound, f: File) {
    key.Some? && key.value < f.smallest.user
  }

  predicate Overlaps(f: File, lo: Bound, hi: Bound) {
    !AfterFile(lo, f) && !BeforeFile(hi, f)
  }

  function Overlapping(files: seq<File>, lo: Bound, hi: Bound): (r: seq<File>)
    ensures forall f :: f in r <==> f in files && Overlaps(f, lo, hi)
    ensures |r| <= |files|
  {
    if files == [] then []
    else (if Overlaps(files[0], lo, hi) then [files[0]] else []) + Overlapping(files[1..], lo, hi)
  }

  lemma OverlappingSplits(a: seq<File>, b: seq<File>, lo: Bound, hi: Bound)
    ensures Overlapping(a + b, lo, hi) == Overlapping(a, lo, hi) + Overlapping(b, lo, hi)
  {
    if a == [] {
      assert a + b == b;
    } else {
      assert (a + b)[1..] == a[1..] + b;
      OverlappingSplits(a[1..], b, lo, hi);
    }
  }

  /** Does any file of the list overlap the user-key range? In a disjoint level one binary search
      answers it. */
  method SomeFileOverlapsRange(disjointSorted: bool, files: seq<File>, lo: Bound, hi: Bound) returns (r: bool)
    requires ValidFiles(files) && (disjointSorted ==> LevelOk(files))
    ensures r <==> exists f :: f in files && Overlaps(f, lo, hi)
  {
    if !disjointSorted {
      for i := 0 to |files|
        invariant forall j :: 0 <= j < i ==> !Overlaps(files[j], lo, hi)
      {
        if AfterFile(lo, files[i]) || BeforeFile(hi, files[i]) {
          // no overlap
        } else {
          assert files[i] in files && Overlaps(files[i], lo, hi);
          return true;
        }
      }
      return false;
    }
    var index := 0;
    if lo.Some? {
      index := FindFile(files, SeekKey(lo.value, MAX_SEQUENCE));
    }
    forall j | 0 <= j < |files|
      ensures AfterFile(lo, files[j]) <==> j < index
    {
      var f := files[j];
      assert f in files && f.entries[|f.entries| - 1] in f.entries;
    }
    if index >= |files| {
      return false;
    }
    r := !BeforeFile(hi, files[index]);
    if r {
      assert Overlaps(files[index], lo, hi);
    } else {
      forall j | index < j < |files|
        ensures BeforeFile(hi, files[j])
      {
        assert files[index] in files;
        WithinFile(files[index], files[index].entries[0]);
      }
    }
  }

  // ----- Overlapping inputs -----

  predicate Inside(f: File, lo: Bound, hi: Bound) {
    (lo.Some? ==> lo.value <= f.smallest.user) && (hi.Some? ==> f.largest.user <= hi.value)
  }

  /** Every file the range touches lies within it. */
  ghost predicate Closed(files: seq<File>, lo: Bound, hi: Bound) {
    forall f :: f in files && Overlaps(f, lo, hi) ==> Inside(f, lo, hi)
  }

  /** The range [lo, hi] contains [a, b]; unbounded ends match. */
  ghost predicate Contains(lo: Bound, hi: Bound, a: Bound, b: Bound) {
    (lo.Some? <==> a.Some?) && (hi.Some? <==> b.Some?) &&
    (lo.Some? ==> lo.value <= a.value) && (hi.Some? ==> b.value <= hi.value)
  }

  ghost predicate ClosedAround(files: seq<File>, a: Bound, b: Bound, lo: Bound, hi: Bound) {
    Closed(files, lo, hi) && Contains(lo, hi, a, b)
  }

  /** Every closed range around [a, b] contains [lo, hi]. */
  ghost predicate Forced(files: seq<File>, a: Bound, b: Bound, lo: Bound, hi: Bound) {
    forall x, y :: ClosedAround(files, a, b, x, y) ==> Contains(x, y, lo, hi)
  }

  /** [lo, hi] is the least closed range around [a, b]. */
  ghost predicate LeastClosed(files: seq<File>, a: Bound, b: Bound, lo: Bound, hi: Bound) {
    ClosedAround(files, a, b, lo, hi) && Forced(files, a, b, lo, hi)
  }

  /** Taking in a file the range touches is forced. */
  lemma GrowthIsForced(files: seq<File>, a: Bound, b: Bound, lo: Bound, hi: Bound, f: File)
    requires Forced(files, a, b, lo, hi) && f in files && Overlaps(f, lo, hi)
    ensures lo.Some? && f.smallest.user < lo.value ==> Forced(files, a, b, Some(f.smallest.user), hi)
    ensures hi.Some? && f.largest.user > hi.value ==> Forced(files, a, b, lo, Some(f.largest.user))
  {
    forall x, y | ClosedAround(files, a, b, x, y)
      ensures Contains(x, y, lo, hi) && Inside(f, x, y)
    {
      assert Overlaps(f, x, y);
    }
  }

  /** How many files reach outside the range, on either side: each restart leaves fewer. */
  ghost function Outside(files: seq<File>, lo: Bound, hi: Bound): nat {
    if files == [] then 0
    else (if lo.Some? && files[0].smallest.user < lo.value then 1 else 0) +
         (if hi.Some? && files[0].largest.user > hi.value then 1 else 0) + Outside(files[1..], lo, hi)
  }

  lemma {:induction false} OutsideShrinks(files: seq<File>, lo: Bound, hi: Bound, lo': Bound, hi': Bound)
    requires Contains(lo', hi', lo, hi)
    ensures Outside(files, lo', hi') <= Outside(files, lo, hi)
    ensures (exists f :: f in files && ((lo.Some? && lo' == Some(f.smallest.user) && f.smallest.user < lo.value) ||
                                        (hi.Some? && hi' == Some(f.largest.user) && f.largest.user > hi.value)))
            ==> Outside(files, lo', hi') < Outside(files, lo, hi)
  {
    if files != [] {
      OutsideShrinks(files[1..], lo, hi, lo', hi');
    }
  }

  lemma PassFile(files: seq<File>, i: nat, lo: Bound, hi: Bound)
    requires i < |files|
    ensures files[i] in files && files[..0] == []
    ensures Overlapping(files[..i + 1], lo, hi) ==
            Overlapping(files[..i], lo, hi) + if Overlaps(files[i], lo, hi) then [files[i]] else []
    ensures Closed(files[..i], lo, hi) && (Overlaps(files[i], lo, hi) ==> Inside(files[i], lo, hi)) ==>
              Closed(files[..i + 1], lo, hi)
  {
    assert files[..i + 1] == files[..i] + [files[i]];
    OverlappingSplits(files[..i], [files[i]], lo, hi);
  }

  /** The files of a level that overlap [begin, end]. Level-0 files may overlap each other, so
      there the range grows to take in whole files, and the scan restarts, until it is stable. */
  method GetOverlappingInputs(levelZero: bool, files: seq<File>, begin: Bound, end: Bound)
    returns (inputs: seq<File>, ghost lo: Bound, ghost hi: Bound)
    requires ValidFiles(files)
    ensures inputs == Overlapping(files, lo, hi)
    ensures !levelZero ==> lo == begin && hi == end
    ensures levelZero ==> LeastClosed(files, begin, end, lo, hi)
    ensures !levelZero ==> inputs == Overlapping(files, begin, end)
    ensures levelZero ==> exists lo, hi :: LeastClosed(files, begin, end, lo, hi) && inputs == Overlapping(files, lo, hi)
  {
    inputs := [];
    var userBegin, userEnd := begin, end;
    var i := 0;
    assert files[..0] == [];
    while i < |files|
      invariant 0 <= i <= |files|
      invariant Contains(userBegin, userEnd, begin, end)
      invariant !levelZero ==> userBegin == begin && userEnd == end
      invariant Forced(files, begin, end, userBegin, userEnd)
      invariant inputs == Overlapping(files[..i], userBegin, userEnd)
      invariant levelZero ==> Closed(files[..i], userBegin, userEnd)
      decreases Outside(files, userBegin, userEnd), |files| - i
    {
      var f := files[i];
      ghost var i0, lo0, hi0 := i, userBegin, userEnd;
      PassFile(files, i, userBegin, userEnd);
      i := i + 1;
      if AfterFile(userBegin, f) {
        // completely before the range
      } else if BeforeFile(userEnd, f) {
        // completely after the range
      } else {
        inputs := inputs + [f];
        if levelZero {
          GrowthIsForced(files, begin, end, userBegin, userEnd, f);
          if userBegin.Some? && f.smallest.user < userBegin.value {
            userBegin := Some(f.smallest.user);
            inputs := [];
            i := 0;
            OutsideShrinks(files, lo0, hi0, userBegin, userEnd);
          } else if userEnd.Some? && f.largest.user > userEnd.value {
            userEnd := Some(f.largest.user);
            inputs := [];
            i := 0;
            OutsideShrinks(files, lo0, hi0, userBegin, userEnd);
          }
        }
      }
    }
    assert files[..i] == files;
    lo, hi := userBegin, userEnd;
  }

  // ----- The key range of a set of files -----

  ghost predicate IsRange(files: seq<File>, smallest: IKey, largest: IKey) {
    && (exists f :: f in files && f.smallest == smallest)
    && (exists f :: f in files && f.largest == largest)
    && forall f :: f in files ==> Compare(smallest, f.smallest) <= 0 && Compare(f.largest, largest) <= 0
  }

  method GetRange(inputs: seq<File>) returns (smallest: IKey, largest: IKey)
    requires |inputs| > 0
    ensures IsRange(inputs, smallest, largest)
  {
    smallest, largest := inputs[0].smallest, inputs[0].largest;
    ghost var s, l := 0, 0;
    for i := 1 to |inputs|
      invariant s < i && l < i && inputs[s].smallest == smallest && inputs[l].largest == largest
      invariant forall j :: 0 <= j < i ==> Compare(smallest, inputs[j].smallest) <= 0 && Compare(inputs[j].largest, largest) <= 0
    {
      var f := inputs[i];
      if Compare(f.smallest, smallest) < 0 {
        smallest := f.smallest;
        s := i;
      }
      if Compare(f.largest, largest) > 0 {
        largest := f.largest;
        l := i;
      }
    }
    assert inputs[s] in inputs && inputs[l] in inputs;
  }
}
