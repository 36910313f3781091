/** The merging iterator: a cursor over the merge of its children's lists, whatever order of
    moves and direction changes the client asks for. */
module Merger {
  import opened Keys
  import opened Cursor

  // ----- The merged list -----

  /** `merged` is the sorted list of the entries of `lists`, no entry of which is in two lists. */
  ghost predicate IsMerge(lists: seq<seq<Entry>>, merged: seq<Entry>) {
    && Sorted(merged)
    && (forall j :: 0 <= j < |lists| ==> Sorted(lists[j]))
    && (forall j, i :: 0 <= j < |lists| && 0 <= i < |lists[j]| ==> lists[j][i] in merged)
    && (forall e :: e in merged ==> exists j :: 0 <= j < |lists| && e in lists[j])
    && (forall j, k, e :: 0 <= j < |lists| && 0 <= k < |lists| && e in lists[j] && e in lists[k] ==> j == k)
  }

  /** Where an entry of the merged list stands in it. */
  ghost function Index(merged: seq<Entry>, e: Entry): (i: nat)
    requires Sorted(merged) && e in merged
    ensures i < |merged| && merged[i] == e
    ensures forall k :: 0 <= k < |merged| && merged[k] == e ==> k == i
  {
    var i :| 0 <= i < |merged| && merged[i] == e;
    i
  }

  ghost predicate PartOf(list: seq<Entry>, merged: seq<Entry>) {
    Sorted(list) && Sorted(merged) && forall i :: 0 <= i < |list| ==> list[i] in merged
  }

  lemma IndexOrders(merged: seq<Entry>, a: Entry, b: Entry)
    requires Sorted(merged) && a in merged && b in merged
    ensures Index(merged, a) < Index(merged, b) <==> Before(a.key, b.key)
    ensures Index(merged, a) == Index(merged, b) <==> Compare(a.key, b.key) == 0
  {
    var i, j := Index(merged, a), Index(merged, b);
    assert i < j ==> Precedes(merged[i].key, merged[j].key);
    assert j < i ==> Precedes(merged[j].key, merged[i].key);
  }

  /** The first `n` entries of `list` are those among the first `q` of `merged`. */
  ghost predicate Split(list: seq<Entry>, merged: seq<Entry>, q: nat, n: nat)
    requires PartOf(list, merged)
  {
    n <= |list| && forall i :: 0 <= i < |list| ==> (i < n <==> Index(merged, list[i]) < q)
  }

  /** Position `p` of `list` is its last entry before merged position `q`, or not valid if there
      is none. */
  ghost predicate BackSplit(list: seq<Entry>, merged: seq<Entry>, q: nat, p: nat)
    requires PartOf(list, merged)
  {
    p <= |list| && Split(list, merged, q, if p < |list| then p + 1 else 0)
  }

  lemma LowerBoundSplits(list: seq<Entry>, merged: seq<Entry>, target: IKey)
    requires PartOf(list, merged)
    ensures Split(list, merged, LowerBound(merged, target), LowerBound(list, target))
  {
    var q, n := LowerBound(merged, target), LowerBound(list, target);
    forall i | 0 <= i < |list|
      ensures i < n <==> Index(merged, list[i]) < q
    {
      var k := Index(merged, list[i]);
      assert k < q ==> Before(merged[k].key, target);
      assert k > q ==> Precedes(merged[q].key, merged[k].key);
      assert i > n ==> Precedes(list[n].key, list[i].key);
    }
  }

  lemma PastSplits(list: seq<Entry>, merged: seq<Entry>, q: nat, p: nat)
    requires PartOf(list, merged) && q < |merged| && StandsPast(list, merged[q].key, p)
    ensures Split(list, merged, q + 1, p)
  {
    forall i | 0 <= i < |list|
      ensures i < p <==> Index(merged, list[i]) < q + 1
    {
      IndexOrders(merged, list[i], merged[q]);
    }
  }

  /** How a split moves over one entry of the merged list. */
  lemma SplitMoves(list: seq<Entry>, merged: seq<Entry>, q: nat, n: nat)
    requires PartOf(list, merged) && q < |merged|
    ensures merged[q] !in list ==> (Split(list, merged, q, n) <==> Split(list, merged, q + 1, n))
    ensures n < |list| && list[n] == merged[q] ==> Split(list, merged, q, n) && Split(list, merged, q + 1, n + 1)
  {
    if n < |list| && list[n] == merged[q] {
      forall i | 0 <= i < |list|
        ensures i < n <==> Index(merged, list[i]) < q
        ensures i < n + 1 <==> Index(merged, list[i]) < q + 1
      {
        IndexOrders(merged, list[i], list[n]);
        assert i < n ==> Precedes(list[i].key, list[n].key);
        assert n < i ==> Precedes(list[n].key, list[i].key);
      }
    }
  }

  // ----- The iterator -----

  datatype Direction = Forward | Reverse

  class MergingIterator {
    const children: seq<ListIterator>
    ghost const merged: seq<Entry>
    var current: Option<nat>
    var direction: Direction

    ghost function Lists(): seq<seq<Entry>> {
      seq(|children|, j requires 0 <= j < |children| => children[j].entries)
    }

    /** What never changes: distinct children, whose lists merge to `merged`. */
    ghost predicate Shape() {
      && IsMerge(Lists(), merged)
      && Distinct()
      && (forall j :: 0 <= j < |children| ==> PartOf(children[j].entries, merged))
    }

    ghost predicate Distinct() {
      forall i, j :: 0 <= i < j < |children| ==> children[i] != children[j]
    }

    ghost predicate ChildrenOk()
      reads children
    {
      forall j :: 0 <= j < |children| ==> children[j].Ok()
    }

    ghost predicate Wired()
      reads children
    {
      Shape() && ChildrenOk()
    }

    /** Every child stands at its first entry at or after merged position `q`. */
    ghost predicate AllAt(q: nat)
      requires Shape()
      reads children
    {
      forall j :: 0 <= j < |children| ==> Split(children[j].entries, merged, q, children[j].pos)
    }

    /** Every child stands at its last entry before merged position `q`. */
    ghost predicate AllBefore(q: nat)
      requires Shape()
      reads children
    {
      forall j :: 0 <= j < |children| ==> BackSplit(children[j].entries, merged, q, children[j].pos)
    }

    ghost predicate Ok()
      reads this, children
    {
      Wired() &&
      (current.Some? ==>
         current.value < |children| && children[current.value].Valid() &&
         (direction.Forward? ==> AllAt(Position())) &&
         (direction.Reverse? ==> AllBefore(Position() + 1)))
    }

    /** The cursor's position in `merged`. */
    ghost function Position(): nat
      requires Shape()
      requires current.Some? ==> current.value < |children| && children[current.value].Valid()
      reads this, children
    {
      if current.None? then |merged|
      else Index(merged, children[current.value].entries[children[current.value].pos])
    }

    constructor (cs: seq<ListIterator>, ghost m: seq<Entry>)
      requires forall j :: 0 <= j < |cs| ==> cs[j].Ok()
      requires forall i, j :: 0 <= i < j < |cs| ==> cs[i] != cs[j]
      requires IsMerge(seq(|cs|, j requires 0 <= j < |cs| => cs[j].entries), m)
      ensures Ok() && children == cs && merged == m && current.None?
    {
      children, merged := cs, m;
      current, direction := None, Forward;
      new;
      assert Lists() == seq(|cs|, j requires 0 <= j < |cs| => cs[j].entries);
      forall j | 0 <= j < |cs|
        ensures PartOf(cs[j].entries, m)
      {
        assert Lists()[j] == cs[j].entries;
      }
    }

    predicate Valid()
      reads this
    {
      current.Some?
    }

    function Key(): (k: IKey)
      requires Ok() && Valid()
      reads this, children
      ensures Position() < |merged| && k == merged[Position()].key
    {
      children[current.value].Key()
    }

    function Value(): (v: Bytes)
      requires Ok() && Valid()
      reads this, children
      ensures Position() < |merged| && v == merged[Position()].value
    {
      children[current.value].Value()
    }

    /** `c` is a valid child whose key no valid child's key precedes, or there is no valid child. */
    ghost predicate IsSmallest(c: Option<nat>, n: nat)
      requires n <= |children|
      reads children
    {
      match c
      case None => forall j :: 0 <= j < n ==> !children[j].Valid()
      case Some(c) =>
        c < n && children[c].Valid() &&
        forall j :: 0 <= j < n && children[j].Valid() ==> Compare(children[c].Key(), children[j].Key()) <= 0
    }

    ghost predicate IsLargest(c: Option<nat>, n: nat)
      requires n <= |children|
      reads children
    {
      match c
      case None => forall j :: n <= j < |children| ==> !children[j].Valid()
      case Some(c) =>
        n <= c < |children| && children[c].Valid() &&
        forall j :: n <= j < |children| && children[j].Valid() ==> Compare(children[c].Key(), children[j].Key()) >= 0
    }

    method FindSmallest()
      modifies this`current
      ensures IsSmallest(current, |children|)
    {
      var smallest: Option<nat> := None;
      for i := 0 to |children|
        invariant IsSmallest(smallest, i)
      {
        if children[i].Valid() {
          if smallest.None? {
            smallest := Some(i);
          } else if Compare(children[i].Key(), children[smallest.value].Key()) < 0 {
            smallest := Some(i);
          }
        }
      }
      current := smallest;
    }

    method FindLargest()
      modifies this`current
      ensures IsLargest(current, 0)
    {
      var largest: Option<nat> := None;
      var i := |children|;
      while i > 0
        invariant 0 <= i <= |children|
        invariant IsLargest(largest, i)
      {
        i := i - 1;
        if children[i].Valid() {
          if largest.None? {
            largest := Some(i);
          } else if Compare(children[i].Key(), children[largest.value].Key()) > 0 {
            largest := Some(i);
          }
        }
      }
      current := largest;
    }

    /** A child that holds the merged entry `q`. */
    lemma Holder(q: nat) returns (j: nat, i: nat)
      requires Wired() && q < |merged|
      ensures j < |children| && i < |children[j].entries| && children[j].entries[i] == merged[q]
      ensures Index(merged, children[j].entries[i]) == q
    {
      assert merged[q] in merged;
      j :| 0 <= j < |Lists()| && merged[q] in Lists()[j];
      i :| 0 <= i < |children[j].entries| && children[j].entries[i] == merged[q];
    }

    lemma SmallestIsNext(q: nat)
      requires Wired() && q <= |merged| && AllAt(q) && IsSmallest(current, |children|) && direction.Forward?
      ensures Ok() && Position() == q
    {
      if q < |merged| {
        var j, i := Holder(q);
        var c := children[j];
        assert c.pos <= i;
        IndexOrders(merged, c.entries[c.pos], c.entries[i]);
        assert c.pos == i;
        var s := children[current.value];
        IndexOrders(merged, c.entries[i], s.entries[s.pos]);
      }
    }

    lemma LargestIsPrev(q: nat)
      requires Wired() && q <= |merged| && AllBefore(q) && IsLargest(current, 0) && direction.Reverse?
      ensures Ok() && Position() == PrevPos(|merged|, q)
    {
      if q > 0 {
        var j, i := Holder(q - 1);
        var c := children[j];
        assert i <= c.pos < |c.entries|;
        IndexOrders(merged, c.entries[i], c.entries[c.pos]);
        assert c.pos == i;
        var s := children[current.value];
        IndexOrders(merged, c.entries[i], s.entries[s.pos]);
      }
    }

    // ----- The moves -----

    method SeekToFirst()
      requires Wired()
      modifies this, children
      ensures Ok() && Position() == 0
    {
      for i := 0 to |children|
        invariant ChildrenOk()
        invariant forall j :: 0 <= j < i ==> children[j].pos == 0
      {
        children[i].SeekToFirst();
      }
      FindSmallest();
      direction := Forward;
      SmallestIsNext(0);
    }

    method SeekToLast()
      requires Wired()
      modifies this, children
      ensures Ok() && Position() == LastPos(|merged|)
    {
      for i := 0 to |children|
        invariant ChildrenOk()
        invariant forall j :: 0 <= j < i ==> children[j].pos == LastPos(|children[j].entries|)
      {
        children[i].SeekToLast();
      }
      FindLargest();
      direction := Reverse;
      LargestIsPrev(|merged|);
    }

    method Seek(target: IKey)
      requires Wired()
      modifies this, children
      ensures Ok() && Position() == LowerBound(merged, target)
    {
      SeekChildren(target);
      AllSought(target);
      FindSmallest();
      direction := Forward;
      SmallestIsNext(LowerBound(merged, target));
    }

    method SeekChildren(target: IKey)
      requires Distinct() && ChildrenOk()
      modifies children
      ensures ChildrenOk()
      ensures forall j :: 0 <= j < |children| ==> children[j].pos == LowerBound(children[j].entries, target)
    {
      for i := 0 to |children|
        invariant ChildrenOk()
        invariant forall j :: 0 <= j < i ==> children[j].pos == LowerBound(children[j].entries, target)
      {
        children[i].Seek(target);
      }
    }

    lemma AllSought(target: IKey)
      requires Wired()
      requires forall j :: 0 <= j < |children| ==> children[j].pos == LowerBound(children[j].entries, target)
      ensures AllAt(LowerBound(merged, target))
    {
      forall j | 0 <= j < |children|
        ensures Split(children[j].entries, merged, LowerBound(merged, target), children[j].pos)
      {
        LowerBoundSplits(children[j].entries, merged, target);
      }
    }

    method Next()
      requires Ok() && Valid()
      modifies this, children
      ensures Ok() && Position() == old(Position()) + 1
    {
      ghost var q := Position();
      var c := current.value;
      TurnIfReverse(c, q);
      StepForward(c, q);
      FindSmallest();
      SmallestIsNext(q + 1);
    }

    /** Before the current child steps over merged entry `q`, every other child is already where
        it must be for `q + 1`. */
    ghost predicate OthersAt(c: nat, q: nat)
      requires Shape()
      reads children
    {
      c < |children| && children[c].Valid() && q < |merged| && children[c].entries[children[c].pos] == merged[q] &&
      forall j :: 0 <= j < |children| && j != c ==> Split(children[j].entries, merged, q + 1, children[j].pos)
    }

    ghost predicate OthersBefore(c: nat, q: nat)
      requires Shape()
      reads children
    {
      c < |children| && children[c].Valid() && q < |merged| && children[c].entries[children[c].pos] == merged[q] &&
      forall j :: 0 <= j < |children| && j != c ==> BackSplit(children[j].entries, merged, q, children[j].pos)
    }

    lemma NotElsewhere(c: nat, q: nat, j: nat)
      requires Shape() && q < |merged| && c < |children| && j < |children| && j != c
      requires merged[q] in children[c].entries
      ensures merged[q] !in children[j].entries
    {
      assert Lists()[j] == children[j].entries && Lists()[c] == children[c].entries;
    }

    lemma AllNext(c: nat, q: nat)
      requires Wired() && AllAt(q) && q < |merged| && c < |children| && children[c].Valid()
      requires children[c].entries[children[c].pos] == merged[q]
      ensures OthersAt(c, q)
    {
      forall j | 0 <= j < |children| && j != c
        ensures Split(children[j].entries, merged, q + 1, children[j].pos)
      {
        NotElsewhere(c, q, j);
        SplitMoves(children[j].entries, merged, q, children[j].pos);
      }
    }

    lemma AllPrev(c: nat, q: nat)
      requires Wired() && AllBefore(q + 1) && q < |merged| && c < |children| && children[c].Valid()
      requires children[c].entries[children[c].pos] == merged[q]
      ensures OthersBefore(c, q)
    {
      forall j | 0 <= j < |children| && j != c
        ensures BackSplit(children[j].entries, merged, q, children[j].pos)
      {
        var list, p := children[j].entries, children[j].pos;
        NotElsewhere(c, q, j);
        SplitMoves(list, merged, q, if p < |list| then p + 1 else 0);
      }
    }

    method StepForward(c: nat, ghost q: nat)
      requires Wired() && OthersAt(c, q)
      modifies children
      ensures Wired() && AllAt(q + 1)
    {
      SplitMoves(children[c].entries, merged, q, children[c].pos);
      ghost var ps := seq(|children|, j requires 0 <= j < |children| reads children => children[j].pos);
      children[c].Next();
      forall j | 0 <= j < |children|
        ensures Split(children[j].entries, merged, q + 1, children[j].pos)
      {
        assert children[j].pos == if j == c then ps[j] + 1 else ps[j];
      }
    }

    method StepBack(c: nat, ghost q: nat)
      requires Wired() && OthersBefore(c, q)
      modifies children
      ensures Wired() && AllBefore(q)
    {
      SplitMoves(children[c].entries, merged, q, children[c].pos);
      ghost var ps := seq(|children|, j requires 0 <= j < |children| reads children => children[j].pos);
      children[c].Prev();
      forall j | 0 <= j < |children|
        ensures BackSplit(children[j].entries, merged, q, children[j].pos)
      {
        assert children[j].pos == if j == c then PrevPos(|children[c].entries|, ps[j]) else ps[j];
      }
    }

    /** Ensure that all children stand after the current key before moving forward. */
    method TurnIfReverse(c: nat, ghost q: nat)
      requires Ok() && current == Some(c) && q == Position()
      modifies this`direction, children
      ensures Wired() && OthersAt(c, q) && direction.Forward?
    {
      if direction.Reverse? {
        TurnForward(c, Key());
        TurnedForward(c, q);
        direction := Forward;
      } else {
        AllNext(c, q);
      }
    }

    /** Ensure that all children stand before the current key before moving back. */
    method TurnIfForward(c: nat, ghost q: nat)
      requires Ok() && current == Some(c) && q == Position()
      modifies this`direction, children
      ensures Wired() && OthersBefore(c, q) && direction.Reverse?
    {
      if direction.Forward? {
        TurnBack(c, Key());
        TurnedBack(c, q);
        direction := Reverse;
      } else {
        AllPrev(c, q);
      }
    }

    /** The direction switch of Next: every other child is put after `key`. */
    method TurnForward(c: nat, key: IKey)
      requires Distinct() && ChildrenOk() && c < |children|
      modifies children
      ensures ChildrenOk() && children[c].pos == old(children[c].pos)
      ensures forall j :: 0 <= j < |children| && j != c ==> StandsPast(children[j].entries, key, children[j].pos)
    {
      for i := 0 to |children|
        invariant ChildrenOk()
        invariant children[c].pos == old(children[c].pos)
        invariant forall j :: 0 <= j < i && j != c ==> StandsPast(children[j].entries, key, children[j].pos)
      {
        if i != c {
          StepPast(children[i], key);
        }
      }
    }

    lemma TurnedForward(c: nat, q: nat)
      requires Wired() && q < |merged| && c < |children| && children[c].Valid()
      requires children[c].entries[children[c].pos] == merged[q]
      requires forall j :: 0 <= j < |children| && j != c ==>
                 StandsPast(children[j].entries, merged[q].key, children[j].pos)
      ensures OthersAt(c, q)
    {
      forall j | 0 <= j < |children| && j != c
        ensures Split(children[j].entries, merged, q + 1, children[j].pos)
      {
        PastSplits(children[j].entries, merged, q, children[j].pos);
      }
    }

    /** The direction switch of Prev: every other child is put before `key`. */
    method TurnBack(c: nat, key: IKey)
      requires Distinct() && ChildrenOk() && c < |children|
      modifies children
      ensures ChildrenOk() && children[c].pos == old(children[c].pos)
      ensures forall j :: 0 <= j < |children| && j != c ==> StandsBefore(children[j].entries, key, children[j].pos)
    {
      for i := 0 to |children|
        invariant ChildrenOk()
        invariant children[c].pos == old(children[c].pos)
        invariant forall j :: 0 <= j < i && j != c ==> StandsBefore(children[j].entries, key, children[j].pos)
      {
        if i != c {
          StepBefore(children[i], key);
        }
      }
    }

    lemma TurnedBack(c: nat, q: nat)
      requires Wired() && q < |merged| && c < |children| && children[c].Valid()
      requires children[c].entries[children[c].pos] == merged[q]
      requires forall j :: 0 <= j < |children| && j != c ==>
                 StandsBefore(children[j].entries, merged[q].key, children[j].pos)
      ensures OthersBefore(c, q)
    {
      LowerBoundUnique(merged, merged[q].key, q);
      forall j | 0 <= j < |children| && j != c
        ensures BackSplit(children[j].entries, merged, q, children[j].pos)
      {
        LowerBoundSplits(children[j].entries, merged, merged[q].key);
      }
    }

    method Prev()
      requires Ok() && Valid()
      modifies this, children
      ensures Ok() && Position() == PrevPos(|merged|, old(Position()))
    {
      ghost var q := Position();
      var c := current.value;
      TurnIfForward(c, q);
      StepBack(c, q);
      FindLargest();
      LargestIsPrev(q);
    }
  }

  /** Position `p` of `list` is its first entry after `key`. */
  ghost predicate StandsPast(list: seq<Entry>, key: IKey, p: nat) {
    p <= |list| && forall i :: 0 <= i < |list| ==> (i < p <==> Compare(list[i].key, key) <= 0)
  }

  /** Position `p` of `list` is its last entry before `key`, or not valid if there is none. */
  ghost predicate StandsBefore(list: seq<Entry>, key: IKey, p: nat) {
    p == PrevPos(|list|, LowerBound(list, key))
  }

  /** On turning forward a child other than the current one is put after `key`. */
  method StepPast(child: ListIterator, key: IKey)
    requires child.Ok()
    modifies child
    ensures child.Ok() && StandsPast(child.entries, key, child.pos)
  {
    child.Seek(key);
    if child.Valid() && Compare(key, child.Key()) == 0 {
      child.Next();
    }
  }

  /** On turning back a child other than the current one is put before `key`. */
  method StepBefore(child: ListIterator, key: IKey)
    requires child.Ok()
    modifies child
    ensures child.Ok() && StandsBefore(child.entries, key, child.pos)
  {
    child.Seek(key);
    if child.Valid() {
      child.Prev();
    } else {
      child.SeekToLast();
    }
  }
}
