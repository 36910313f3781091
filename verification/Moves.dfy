/** Clients of iterators: any sequence of moves shows the same through every iterator as through a
    position in its list. What is built on one kind of iterator may therefore be given another. */
module Moves {
  import opened Keys
  import opened Cursor
  import Blocks
  import Comparators
  import DbIter
  import Merger
  import TableReaders

  /** What a client may ask of an iterator; the last two only while it is at an entry. */
  datatype Move<K> = First | Last | To(target: K) | Forward | Back

  /** Where a move takes a cursor on a list of `n` entries, in which `bound` is the first position at or
      after a target. */
  function After<K>(n: nat, p: nat, m: Move<K>, bound: K -> nat): nat {
    match m
    case First => 0
    case Last => LastPos(n)
    case To(target) => bound(target)
    case Forward => if p < n then p + 1 else p
    case Back => if p < n then PrevPos(n, p) else p
  }

  function AfterAll<K>(n: nat, p: nat, moves: seq<Move<K>>, bound: K -> nat): nat {
    if moves == [] then p else After(n, AfterAll(n, p, moves[..|moves| - 1], bound), moves[|moves| - 1], bound)
  }

  function At<E>(es: seq<E>, p: nat): Option<E> {
    if p < |es| then Some(es[p]) else None
  }

  /** What a client sees after each of its moves, starting at position `p` of the list. */
  ghost predicate Sees<E, K>(es: seq<E>, p: nat, moves: seq<Move<K>>, bound: K -> nat, seen: seq<Option<E>>) {
    |seen| == |moves| && forall i :: 0 <= i < |moves| ==> seen[i] == At(es, AfterAll(|es|, p, moves[..i + 1], bound))
  }

  /** The list and the start decide all that is seen. */
  lemma SeesTheSame<E, K>(es: seq<E>, p: nat, moves: seq<Move<K>>, bound: K -> nat, a: seq<Option<E>>, b: seq<Option<E>>)
    requires Sees(es, p, moves, bound, a) && Sees(es, p, moves, bound, b)
    ensures a == b
  {
  }

  lemma SeesMore<E, K>(es: seq<E>, p: nat, moves: seq<Move<K>>, i: nat, bound: K -> nat, seen: seq<Option<E>>)
    requires i < |moves| && Sees(es, p, moves[..i], bound, seen)
    ensures var q := After(|es|, AfterAll(|es|, p, moves[..i], bound), moves[i], bound);
            q == AfterAll(|es|, p, moves[..i + 1], bound) && Sees(es, p, moves[..i + 1], bound, seen + [At(es, q)])
  {
    hide After, At, AfterAll;
    AfterOneMore(|es|, p, moves, i, bound);
    var more := seen + [At(es, AfterAll(|es|, p, moves[..i + 1], bound))];
    forall j | 0 <= j < i + 1
      ensures more[j] == At(es, AfterAll(|es|, p, moves[..i + 1][..j + 1], bound))
    {
      if j < i {
        assert moves[..i + 1][..j + 1] == moves[..i][..j + 1];
      } else {
        assert moves[..i + 1][..i + 1] == moves[..i + 1];
      }
    }
  }

  lemma AfterOneMore<K>(n: nat, p: nat, moves: seq<Move<K>>, i: nat, bound: K -> nat)
    requires i < |moves|
    ensures After(n, AfterAll(n, p, moves[..i], bound), moves[i], bound) == AfterAll(n, p, moves[..i + 1], bound)
  {
    assert moves[..i + 1][..i] == moves[..i];
  }

  function Bound(es: seq<Entry>): IKey -> nat {
    (k: IKey) => LowerBound(es, k)
  }

  method MoveList(it: ListIterator, moves: seq<Move<IKey>>) returns (seen: seq<Option<Entry>>)
    requires it.Ok()
    modifies it
    ensures it.Ok() && Sees(it.entries, old(it.pos), moves, Bound(it.entries), seen)
  {
    hide Sees, Sorted;
    ghost var es, p := it.entries, it.pos;
    seen := [];
    NothingSeen(es, p, moves, Bound(es));
    for i := 0 to |moves|
      invariant it.Ok() && it.pos == AfterAll(|es|, p, moves[..i], Bound(es)) && Sees(es, p, moves[..i], Bound(es), seen)
    {
      SeesMore(es, p, moves, i, Bound(es), seen);
      match moves[i] {
        case First => it.SeekToFirst();
        case Last => it.SeekToLast();
        case To(k) => it.Seek(k);
        case Forward => if it.Valid() { it.Next(); }
        case Back => if it.Valid() { it.Prev(); }
      }
      seen := seen + [if it.Valid() then Some(Entry(it.Key(), it.Value())) else None];
    }
    assert moves[..|moves|] == moves;
  }

  lemma NothingSeen<E, K>(es: seq<E>, p: nat, moves: seq<Move<K>>, bound: K -> nat)
    ensures Sees(es, p, moves[..0], bound, []) && AfterAll(|es|, p, moves[..0], bound) == p
  {
  }

  /** The merging iterator shows what an iterator over the merged list shows. */
  method MoveMerged(it: Merger.MergingIterator, moves: seq<Move<IKey>>) returns (seen: seq<Option<Entry>>)
    requires it.Ok()
    modifies it, it.children
    ensures it.Ok() && Sees(it.merged, old(it.Position()), moves, Bound(it.merged), seen)
  {
    hide Sees, Merger.MergingIterator.Position, Merger.MergingIterator.Shape, Merger.MergingIterator.ChildrenOk;
    ghost var es, p := it.merged, it.Position();
    seen := [];
    NothingSeen(es, p, moves, Bound(es));
    for i := 0 to |moves|
      invariant it.Ok() && it.Position() == AfterAll(|es|, p, moves[..i], Bound(es))
      invariant Sees(es, p, moves[..i], Bound(es), seen)
    {
      SeesMore(es, p, moves, i, Bound(es), seen);
      OkMeans(it);
      match moves[i] {
        case First => it.SeekToFirst();
        case Last => it.SeekToLast();
        case To(k) => it.Seek(k);
        case Forward => if it.Valid() { it.Next(); }
        case Back => if it.Valid() { it.Prev(); }
      }
      OkMeans(it);
      seen := seen + [if it.Valid() then Some(Entry(it.Key(), it.Value())) else None];
    }
    assert moves[..|moves|] == moves;
  }

  lemma OkMeans(it: Merger.MergingIterator)
    requires it.Ok()
    ensures it.Wired() && it.Shape() && (it.current.Some? ==> it.current.value < |it.children| && it.children[it.current.value].Valid())
    ensures it.Valid() <==> it.Position() < |it.merged|
    ensures it.Position() <= |it.merged|
  {
  }

  /** What a client of the store sees of an entry. */
  function Pairs(es: seq<Entry>): (ps: seq<(UserKey, Bytes)>)
    ensures |ps| == |es| && forall i :: 0 <= i < |es| ==> ps[i] == (es[i].key.user, es[i].value)
  {
    seq(|es|, i requires 0 <= i < |es| => (es[i].key.user, es[i].value))
  }

  ghost function UserBound(es: seq<Entry>): UserKey -> nat {
    (k: UserKey) => DbIter.UserLowerBound(es, k)
  }

  /** The iterator of the store shows what a position in its list of visible keys shows. */
  method MoveDbIter(it: DbIter.DBIter, moves: seq<Move<UserKey>>) returns (seen: seq<Option<(UserKey, Bytes)>>)
    requires it.Ok()
    modifies it, it.iter
    ensures it.Ok() && it.Contents() == old(it.Contents())
    ensures Sees(Pairs(it.Contents()), old(it.Position()), moves, UserBound(it.Contents()), seen)
  {
    hide Sees, DbIter.DBIter.Ok, DbIter.FullView, DbIter.View;
    ghost var view, p := it.Contents(), it.Position();
    ghost var es := Pairs(view);
    seen := [];
    NothingSeen(es, p, moves, UserBound(view));
    for i := 0 to |moves|
      invariant it.Ok() && view == it.Contents() && it.Position() == AfterAll(|es|, p, moves[..i], UserBound(view))
      invariant Sees(es, p, moves[..i], UserBound(view), seen)
    {
      SeesMore(es, p, moves, i, UserBound(view), seen);
      DbOkMeans(it);
      match moves[i] {
        case First => it.SeekToFirst();
        case Last => it.SeekToLast();
        case To(k) => it.Seek(k);
        case Forward => if it.valid { it.Next(); }
        case Back => if it.valid { it.Prev(); }
      }
      DbOkMeans(it);
      seen := seen + [if it.valid then Some((it.Key(), it.Value())) else None];
    }
    assert moves[..|moves|] == moves;
  }

  lemma DbOkMeans(it: DbIter.DBIter)
    requires it.Ok()
    ensures it.iter.Ok() && (it.valid <==> it.Position() < |it.Contents()|)
  {
    if it.valid {
      DbIter.ViewSplits(it.iter.entries, it.sequence, it.cur, |it.iter.entries|);
    }
  }

  ghost function KeyBound(es: seq<Blocks.Pair>): Bytes -> nat {
    (k: Bytes) => TableReaders.Position(Comparators.InternalRank, es, k)
  }

  lemma BoundIsOne(es: seq<Blocks.Pair>, k: Bytes, p: nat)
    requires Blocks.IsLowerBound(Comparators.InternalRank, es, k, p)
    ensures KeyBound(es)(k) == p
  {
    hide Comparators.InternalRank;
    var q := KeyBound(es)(k);
    assert Blocks.IsLowerBound(Comparators.InternalRank, es, k, q);
    assert !(p < q) && !(q < p);
  }

  /** The iterator of a table shows what a position in the table's list shows. */
  method MoveTable(it: TableReaders.TwoLevelIterator, moves: seq<Move<Bytes>>) returns (seen: seq<Option<Blocks.Pair>>)
    requires it.Valid()
    modifies it.Repr()
    ensures it.Valid() && Sees(it.table.es, old(it.Position()), moves, KeyBound(it.table.es), seen)
  {
    hide Sees, TableReaders.TwoLevelIterator.Wired, KeyBound;
    ghost var es, p := it.table.es, it.Position();
    ghost var repr := it.Repr();
    seen := [];
    NothingSeen(es, p, moves, KeyBound(es));
    for i := 0 to |moves|
      invariant it.Valid() && it.Position() == AfterAll(|es|, p, moves[..i], KeyBound(es))
      invariant forall o :: o in it.Repr() ==> o in repr || fresh(o)
      invariant Sees(es, p, moves[..i], KeyBound(es), seen)
    {
      SeesMore(es, p, moves, i, KeyBound(es), seen);
      MoveOnce(it, moves[i]);
      var valid := it.IsValid();
      if valid {
        var e := it.Current();
        seen := seen + [Some(e)];
      } else {
        seen := seen + [None];
      }
    }
    assert moves[..|moves|] == moves;
  }

  method MoveOnce(it: TableReaders.TwoLevelIterator, m: Move<Bytes>)
    requires it.Valid()
    modifies it.Repr()
    ensures it.Valid() && fresh(it.Repr() - old(it.Repr()))
    ensures it.Position() == After(|it.table.es|, old(it.Position()), m, KeyBound(it.table.es))
  {
    hide TableReaders.TwoLevelIterator.Wired, KeyBound;
    var valid := it.IsValid();
    match m {
      case First => it.SeekToFirst();
      case Last => it.SeekToLast();
      case To(k) =>
        it.Seek(k);
        BoundIsOne(it.table.es, k, it.Position());
      case Forward => if valid { it.Next(); }
      case Back => if valid { it.Prev(); }
    }
  }
}
