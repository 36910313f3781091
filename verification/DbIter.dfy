/** The iterator a client of the store uses: it folds the many entries of one user key into the
    one a reader at a fixed sequence number may see, in either direction. */
module DbIter {
  import opened Keys
  import opened Cursor

  // ----- The list a client should see -----

  /** Entry `i` is shown at `s`: it is a value and the first entry of its user key at or below
      `s`. */
  ghost predicate Shown(es: seq<Entry>, s: nat, i: nat) {
    i < |es| && es[i].key.kind.Value? && es[i].key.sn <= s &&
    forall j :: 0 <= j < i && es[j].key.user == es[i].key.user ==> es[j].key.sn > s
  }

  /** The shown entries among the first `n`, in order. */
  ghost function View(es: seq<Entry>, s: nat, n: nat): seq<Entry>
    requires n <= |es|
  {
    if n == 0 then []
    else View(es, s, n - 1) + if Shown(es, s, n - 1) then [es[n - 1]] else []
  }

  ghost function FullView(es: seq<Entry>, s: nat): seq<Entry> {
    View(es, s, |es|)
  }

  lemma {:induction false} ViewSplits(es: seq<Entry>, s: nat, i: nat, n: nat)
    requires i <= n <= |es|
    ensures View(es, s, i) <= View(es, s, n)
    ensures i < n && Shown(es, s, i) ==>
              |View(es, s, i)| < |View(es, s, n)| && View(es, s, n)[|View(es, s, i)|] == es[i]
    ensures (forall j :: i < j < n ==> !Shown(es, s, j)) ==>
              |View(es, s, n)| == |View(es, s, i)| + if i < n && Shown(es, s, i) then 1 else 0
  {
    if i < n {
      ViewSplits(es, s, i, n - 1);
    }
  }

  lemma {:induction false} ViewFrom(es: seq<Entry>, s: nat, n: nat, p: nat) returns (i: nat)
    requires n <= |es| && p < |View(es, s, n)|
    ensures i < n && Shown(es, s, i) && |View(es, s, i)| == p && View(es, s, n)[p] == es[i]
  {
    if p < |View(es, s, n - 1)| {
      i := ViewFrom(es, s, n - 1, p);
    } else {
      i := n - 1;
    }
  }

  lemma ShownIsRead(es: seq<Entry>, s: nat, i: nat)
    requires Sorted(es) && i < |es|
    ensures Shown(es, s, i) <==>
              es[i].key.kind.Value? && IsNewest(ToSet(es), es[i].key.user, s, Some(es[i]))
  {
    assert es[i] in ToSet(es);
    if Shown(es, s, i) {
      forall e | e in ToSet(es) && Visible(e, es[i].key.user, s)
        ensures e.key.sn <= es[i].key.sn
      {
        var j :| 0 <= j < |es| && es[j] == e;
      }
    } else if es[i].key.kind.Value? && es[i].key.sn <= s {
      var j :| 0 <= j < i && es[j].key.user == es[i].key.user && es[j].key.sn <= s;
      assert es[j] in ToSet(es);
    }
  }

  /** A view lists each user key once, in increasing order. */
  lemma ViewIsOrdered(es: seq<Entry>, s: nat, p: nat, q: nat)
    requires Sorted(es) && p < q < |FullView(es, s)|
    ensures FullView(es, s)[p].key.user < FullView(es, s)[q].key.user
  {
    var i := ViewFrom(es, s, |es|, p);
    var j := ViewFrom(es, s, |es|, q);
    if j <= i {
      ViewSplits(es, s, j, i);
    }
  }

  /** A view holds exactly the answers of point reads: a user key is listed with a value if and
      only if reading it at `s` gives that value. */
  lemma ViewIsAllReads(es: seq<Entry>, s: nat, user: UserKey, x: Bytes)
    requires Sorted(es)
    ensures Reads(ToSet(es), user, s, Some(x)) <==>
              exists e :: e in FullView(es, s) && e.key.user == user && e.value == x
  {
    var v := FullView(es, s);
    if Reads(ToSet(es), user, s, Some(x)) {
      var r :| IsNewest(ToSet(es), user, s, r) && Shows(r) == Some(x);
      var i :| 0 <= i < |es| && es[i] == r.value;
      ShownIsRead(es, s, i);
      ViewSplits(es, s, i, |es|);
      assert es[i] in v;
    }
    if e :| e in v && e.key.user == user && e.value == x {
      var p :| 0 <= p < |v| && v[p] == e;
      var i := ViewFrom(es, s, |es|, p);
      ShownIsRead(es, s, i);
      assert Shows(Some(es[i])) == Some(x);
    }
  }

  /** The position in a view at which a seek to `target` lands. */
  ghost function UserLowerBound(v: seq<Entry>, target: UserKey): nat {
    if v == [] || v[0].key.user >= target then 0 else 1 + UserLowerBound(v[1..], target)
  }

  lemma UserLowerBoundIs(v: seq<Entry>, target: UserKey, p: nat)
    requires p <= |v|
    requires forall q :: 0 <= q < p ==> v[q].key.user < target
    requires p < |v| ==> v[p].key.user >= target
    ensures UserLowerBound(v, target) == p
  {
    if p > 0 {
      UserLowerBoundIs(v[1..], target, p - 1);
    }
  }

  // ----- Scanning forward -----

  /** What makes it right to scan forward from position `p` for the first shown entry at or after
      `from`, skipping (when `skip`) user keys up to `saved`. */
  ghost predicate ScanOk(es: seq<Entry>, s: nat, p: nat, skip: bool, saved: UserKey, from: nat) {
    // a user key already met before p is skipped
    && (forall j, i :: 0 <= j < p <= i < |es| && es[j].key.user == es[i].key.user && es[j].key.sn <= s ==>
          skip && es[i].key.user <= saved)
    // what is skipped from here on is hidden
    && (skip ==> forall i :: p <= i < |es| && from <= i && es[i].key.user <= saved ==> !Shown(es, s, i))
    // what lies before `from` is skipped
    && (forall i :: p <= i < |es| && i < from && es[i].key.sn <= s ==>
          es[i].key.kind.Value? && skip && es[i].key.user <= saved)
    && (forall i :: from <= i < p ==> !Shown(es, s, i))
  }

  /** Passing the entry at `p` keeps `ScanOk`; a visible deletion becomes the key to skip. */
  lemma ScanStep(es: seq<Entry>, s: nat, p: nat, skip: bool, saved: UserKey, from: nat)
    requires Sorted(es) && p < |es| && ScanOk(es, s, p, skip, saved, from)
    requires es[p].key.sn <= s && es[p].key.kind.Value? ==> skip && es[p].key.user <= saved
    ensures var del := es[p].key.sn <= s && es[p].key.kind.Deletion?;
            ScanOk(es, s, p + 1, skip || del, if del then es[p].key.user else saved, from)
  {
    var del := es[p].key.sn <= s && es[p].key.kind.Deletion?;
    var saved' := if del then es[p].key.user else saved;
    assert !Shown(es, s, p) || p < from;
    forall j, i | 0 <= j < p + 1 <= i < |es| && es[j].key.user == es[i].key.user && es[j].key.sn <= s
      ensures (skip || del) && es[i].key.user <= saved'
    {
      assert es[p].key.user <= es[i].key.user && (j < p ==> es[j].key.user <= es[p].key.user);
    }
    if del {
      forall i | p + 1 <= i < |es| && from <= i && es[i].key.user <= saved'
        ensures !Shown(es, s, i)
      {
        assert es[p].key.user == es[i].key.user;
      }
    }
  }

  // ----- Scanning backward -----

  /** What is known while scanning backward for the last shown entry before `hi`, with the
      entries from `rest` on already passed: `c`, if any, is the newest visible entry met of its
      user key, and it is a value. */
  ghost predicate BackOk(es: seq<Entry>, s: nat, rest: nat, hi: nat, c: Option<nat>) {
    match c
    case None => rest <= |es| && forall i :: rest <= i < hi ==> !Shown(es, s, i)
    case Some(c) => rest <= c < hi && c < |es| && es[c].key.kind.Value? && es[c].key.sn <= s &&
                    (forall i :: rest <= i < c ==> es[i].key.sn > s) &&
                    (forall i :: c < i < hi ==> !Shown(es, s, i))
  }

  /** Passing the entry at `rest - 1` keeps `BackOk`. */
  lemma BackStep(es: seq<Entry>, s: nat, rest: nat, hi: nat, c: Option<nat>)
    requires Sorted(es) && 0 < rest <= |es| && BackOk(es, s, rest, hi, c)
    requires rest <= hi
    requires c.Some? && es[rest - 1].key.sn <= s ==> es[rest - 1].key.user >= es[c.value].key.user
    ensures BackOk(es, s, rest - 1, hi,
                   if es[rest - 1].key.sn > s then c
                   else if es[rest - 1].key.kind.Deletion? then None else Some(rest - 1))
  {
    if c.Some? && es[rest - 1].key.sn <= s {
      assert es[rest - 1].key.user == es[c.value].key.user;
      assert !Shown(es, s, c.value);
    }
  }

  lemma BackMeans(es: seq<Entry>, s: nat, rest: nat, hi: nat, c: Option<nat>)
    requires BackOk(es, s, rest, hi, c)
    ensures c == None ==> forall i :: rest <= i < hi ==> !Shown(es, s, i)
    ensures c.Some? ==> rest <= c.value < hi && c.value < |es| && (forall i :: rest <= i < c.value ==> es[i].key.sn > s)
    ensures c.Some? ==> forall i :: c.value < i < hi ==> !Shown(es, s, i)
  {
  }

  lemma BackDone(es: seq<Entry>, s: nat, rest: nat, hi: nat, c: nat)
    requires Sorted(es) && rest <= |es| && BackOk(es, s, rest, hi, Some(c))
    requires rest > 0 ==> es[rest - 1].key.user < es[c].key.user
    ensures Shown(es, s, c)
  {
    assert forall j :: 0 <= j < rest ==> es[j].key.user <= es[rest - 1].key.user;
  }

  /** The first shown entry at or after the lookup key of `target` is where the view reaches
      `target`. */
  lemma SeekLands(es: seq<Entry>, s: nat, target: UserKey, c: nat)
    requires Sorted(es) && c <= |es|
    requires c < |es| ==> Shown(es, s, c) && LowerBound(es, SeekKey(target, s)) <= c
    requires forall i :: LowerBound(es, SeekKey(target, s)) <= i < c ==> !Shown(es, s, i)
    ensures UserLowerBound(FullView(es, s), target) == |View(es, s, c)|
  {
    var v, p, lo := FullView(es, s), |View(es, s, c)|, LowerBound(es, SeekKey(target, s));
    ViewSplits(es, s, c, |es|);
    forall q | 0 <= q < p
      ensures v[q].key.user < target
    {
      var i := ViewFrom(es, s, c, q);
      assert i < lo;
    }
    UserLowerBoundIs(v, target, p);
  }

  // ----- The iterator -----

  datatype Direction = Forward | Reverse

  class DBIter {
    const iter: ListIterator
    const sequence: nat
    var direction: Direction
    var valid: bool
    var savedKey: UserKey
    var savedValue: Bytes
    ghost var cur: nat  // when valid, the index of the shown entry

    ghost predicate Ok()
      reads this, iter
    {
      iter.Ok() &&
      (valid ==>
         Shown(iter.entries, sequence, cur) &&
         (direction.Forward? ==> iter.pos == cur) &&
         (direction.Reverse? ==> savedKey == iter.entries[cur].key.user &&
                                 savedValue == iter.entries[cur].value &&
                                 BehindKey(iter.pos, cur)))
    }

    /** In reverse the underlying iterator rests before every entry of the current user key, and
        skips back over nothing but entries too new to be visible. */
    ghost predicate BehindKey(pos: nat, c: nat)
      reads this
      requires c < |iter.entries|
    {
      (pos < |iter.entries| ==> pos < c && iter.entries[pos].key.user < iter.entries[c].key.user) &&
      forall j :: (if pos < |iter.entries| then pos + 1 else 0) <= j < c &&
                  iter.entries[j].key.user < iter.entries[c].key.user ==>
                    iter.entries[j].key.sn > sequence
    }

    ghost function Contents(): seq<Entry>
      reads this
    {
      FullView(iter.entries, sequence)
    }

    /** The cursor's position in `Contents()`. */
    ghost function Position(): nat
      requires Ok()
      reads this, iter
    {
      if valid then |View(iter.entries, sequence, cur)| else |Contents()|
    }

    constructor (it: ListIterator, s: nat)
      requires it.Ok()
      ensures Ok() && iter == it && sequence == s && !valid
    {
      iter, sequence := it, s;
      direction, valid, savedKey, savedValue := Forward, false, 0.0, [];
    }

    /** The key and value handed to the client are those of the list at the cursor. */
    function Key(): (k: UserKey)
      requires Ok() && valid
      reads this, iter
      ensures Position() < |Contents()| && k == Contents()[Position()].key.user
    {
      ViewSplits(iter.entries, sequence, cur, |iter.entries|);
      if direction.Forward? then iter.Key().user else savedKey
    }

    function Value(): (v: Bytes)
      requires Ok() && valid
      reads this, iter
      ensures Position() < |Contents()| && v == Contents()[Position()].value
    {
      ViewSplits(iter.entries, sequence, cur, |iter.entries|);
      if direction.Forward? then iter.Value() else savedValue
    }

    method Next()
      requires Ok() && valid
      modifies this, iter
      ensures Ok() && Position() == old(Position()) + 1
    {
      ghost var es, c := iter.entries, cur;
      if direction.Reverse? {
        direction := Forward;
        if !iter.Valid() {
          iter.SeekToFirst();
        } else {
          iter.Next();
        }
        if !iter.Valid() {
          assert false;  // the shown entry lies ahead, so this exit is never taken
        }
      } else {
        savedKey := iter.Key().user;
      }
      FindNextUserEntry(true, c + 1);
      ViewSplits(es, sequence, c, if valid then cur else |es|);
    }

    method FindNextUserEntry(skip: bool, ghost from: nat)
      requires iter.Ok() && iter.Valid() && direction.Forward? && ScanOk(iter.entries, sequence, iter.pos, skip, savedKey, from)
      modifies this, iter
      ensures Ok() && direction.Forward?
      ensures valid ==> from <= cur
      ensures forall i :: from <= i < (if valid then cur else |iter.entries|) ==> !Shown(iter.entries, sequence, i)
    {
      var skipping := skip;
      while true
        invariant iter.Ok() && iter.Valid() && direction.Forward? && ScanOk(iter.entries, sequence, iter.pos, skipping, savedKey, from)
        decreases |iter.entries| - iter.pos
      {
        ghost var es, p, skip0, saved0 := iter.entries, iter.pos, skipping, savedKey;
        var key := iter.Key();
        if key.sn <= sequence {
          match key.kind {
            case Deletion =>
              savedKey := key.user;
              skipping := true;
            case Value =>
              if skipping && key.user <= savedKey {
                // entry hidden
              } else {
                valid := true;
                cur := iter.pos;
                savedKey := 0.0;
                return;
              }
          }
        }
        ScanStep(es, sequence, p, skip0, saved0, from);
        iter.Next();
        if !iter.Valid() {
          break;
        }
      }
      savedKey := 0.0;
      valid := false;
    }

    method Prev()
      requires Ok() && valid
      modifies this, iter
      ensures Ok() && Position() == PrevPos(|Contents()|, old(Position()))
    {
      ghost var es, c := iter.entries, cur;
      if direction.Forward? {
        savedKey := iter.Key().user;
        while true
          invariant iter.Ok() && iter.Valid() && iter.pos <= c && savedKey == es[c].key.user
          invariant es[iter.pos].key.user == savedKey
          invariant unchanged(`cur) && unchanged(`valid) && unchanged(`direction)
          decreases iter.pos
        {
          iter.Prev();
          if !iter.Valid() {
            valid := false;
            savedKey := 0.0;
            savedValue := [];
            ViewSplits(es, sequence, 0, c);
            ViewSplits(es, sequence, c, |es|);
            return;
          }
          if iter.Key().user < savedKey {
            break;
          }
        }
        direction := Reverse;
      }
      FindPrevUserEntry(c);
      ViewSplits(es, sequence, c, |es|);
      ViewSplits(es, sequence, if valid then cur else 0, c);
    }

    method FindPrevUserEntry(ghost hi: nat)
      requires iter.Ok() && direction.Reverse? && hi <= |iter.entries|
      requires var rest := if iter.Valid() then iter.pos + 1 else 0;
               rest <= hi && BackOk(iter.entries, sequence, rest, hi, None)
      modifies this, iter
      ensures Ok()
      ensures valid ==> cur < hi
      ensures forall i :: (if valid then cur + 1 else 0) <= i < hi ==> !Shown(iter.entries, sequence, i)
    {
      hide BackOk, Shown, Sorted;
      var valueType := ValueType.Deletion;
      ghost var es := iter.entries;
      ghost var c: Option<nat> := None;
      if iter.Valid() {
        while true
          invariant iter.Ok() && iter.Valid() && iter.pos < hi && direction.Reverse?
          invariant valueType.Deletion? <==> c.None?
          invariant BackOk(es, sequence, iter.pos + 1, hi, c)
          invariant c.Some? ==> c.value < |es| && savedKey == es[c.value].key.user && savedValue == es[c.value].value
          decreases iter.pos
        {
          ghost var p, c0 := iter.pos, c;
          var key := iter.Key();
          if key.sn <= sequence {
            if valueType.Value? && key.user < savedKey {
              // a value was found, and this is the first entry of an earlier user key
              break;
            }
            valueType := key.kind;
            if valueType.Deletion? {
              savedKey := 0.0;
              savedValue := [];
              c := None;
            } else {
              savedKey := key.user;
              savedValue := iter.Value();
              c := Some(p);
            }
          }
          BackStep(es, sequence, p + 1, hi, c0);
          iter.Prev();
          if !iter.Valid() {
            break;
          }
        }
      }
      BackMeans(es, sequence, if iter.Valid() then iter.pos + 1 else 0, hi, c);
      if valueType.Deletion? {
        valid := false;
        savedKey := 0.0;
        savedValue := [];
        direction := Forward;
      } else {
        BackDone(es, sequence, if iter.Valid() then iter.pos + 1 else 0, hi, c.value);
        valid := true;
        cur := c.value;
      }
    }

    method Seek(target: UserKey)
      requires iter.Ok()
      modifies this, iter
      ensures Ok() && Position() == UserLowerBound(Contents(), target)
    {
      ghost var es := iter.entries;
      direction := Forward;
      savedValue := [];
      savedKey := target;
      iter.Seek(SeekKey(target, sequence));
      ghost var from := iter.pos;
      if iter.Valid() {
        FindNextUserEntry(false, from);
      } else {
        valid := false;
      }
      SeekLands(es, sequence, target, if valid then cur else |es|);
    }

    method SeekToFirst()
      requires iter.Ok()
      modifies this, iter
      ensures Ok() && Position() == 0
    {
      direction := Forward;
      savedValue := [];
      iter.SeekToFirst();
      if iter.Valid() {
        FindNextUserEntry(false, 0);
      } else {
        valid := false;
      }
      ViewSplits(iter.entries, sequence, 0, if valid then cur else |iter.entries|);
    }

    method SeekToLast()
      requires iter.Ok()
      modifies this, iter
      ensures Ok() && Position() == LastPos(|Contents()|)
    {
      ghost var es := iter.entries;
      direction := Reverse;
      savedValue := [];
      iter.SeekToLast();
      FindPrevUserEntry(|es|);
      ViewSplits(es, sequence, if valid then cur else 0, |es|);
    }
  }
}
