/** Iterators as cursors on a list. A cursor on a list of length n has the positions 0 .. n, and
    n means "not valid": stepping off either end gives the same state. */
module Cursor {
  import opened Keys

  function PrevPos(n: nat, p: nat): nat {
    if p == 0 then n else p - 1
  }

  function LastPos(n: nat): nat {
    if n == 0 then 0 else n - 1
  }

  /** An iterator over one sorted list of entries: a memtable, a table or one level. The other
      iterators are built on it and behave like it. */
  class ListIterator {
    const entries: seq<Entry>
    var pos: nat

    ghost predicate Ok()
      reads this
    {
      Sorted(entries) && pos <= |entries|
    }

    constructor (es: seq<Entry>)
      requires Sorted(es)
      ensures Ok() && entries == es && pos == |es|
    {
      entries := es;
      pos := |es|;
    }

    predicate Valid()
      reads this
    {
      pos < |entries|
    }

    function Key(): IKey
      requires Valid()
      reads this
    {
      entries[pos].key
    }

    function Value(): Bytes
      requires Valid()
      reads this
    {
      entries[pos].value
    }

    method Next()
      requires Ok() && Valid()
      modifies this
      ensures Ok() && pos == old(pos) + 1
    {
      pos := pos + 1;
    }

    method Prev()
      requires Ok() && Valid()
      modifies this
      ensures Ok() && pos == PrevPos(|entries|, old(pos))
    {
      pos := if pos == 0 then |entries| else pos - 1;
    }

    method Seek(target: IKey)
      requires Ok()
      modifies this
      ensures Ok() && pos == LowerBound(entries, target)
    {
      var left, right := 0, |entries|;
      while left < right
        invariant left <= right <= |entries|
        invariant forall j :: 0 <= j < left ==> Before(entries[j].key, target)
        invariant right < |entries| ==> !Before(entries[right].key, target)
      {
        var mid := (left + right) / 2;
        if Compare(entries[mid].key, target) < 0 {
          left := mid + 1;
        } else {
          right := mid;
        }
      }
      pos := right;
      LowerBoundUnique(entries, target, pos);
    }

    method SeekToFirst()
      requires Ok()
      modifies this
      ensures Ok() && pos == 0
    {
      pos := 0;
    }

    method SeekToLast()
      requires Ok()
      modifies this
      ensures Ok() && pos == LastPos(|entries|)
    {
      pos := if |entries| == 0 then 0 else |entries| - 1;
    }
  }
}
