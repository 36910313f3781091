/** The hash table of the cache: buckets of linked entries, doubled as it fills. */
module HandleTables {
  import opened Keys
  import opened Coding

  /** A cache entry. It is on a chain of the hash table and on one of the cache's two rings. */
  class LRUHandle {
    const key: Bytes
    const hash: Word32
    const charge: nat
    var nextHash: LRUHandle?
    var next: LRUHandle?
    var prev: LRUHandle?
    var inCache: bool
    var refs: nat

    constructor (k: Bytes, h: Word32, c: nat)
      ensures key == k && hash == h && charge == c
      ensures nextHash == null && next == null && prev == null && !inCache && refs == 1
    {
      key, hash, charge := k, h, c;
      nextHash, next, prev, inCache, refs := null, null, null, false, 1;
    }

    /** The dummy head of an empty ring. */
    constructor Head()
      ensures next == this && prev == this && !inCache && refs == 0
    {
      key, hash, charge := [], 0, 0;
      nextHash, next, prev, inCache, refs := null, this, this, false, 0;
    }
  }

  predicate Matches(h: LRUHandle, key: Bytes, hash: Word32) {
    h.hash == hash && h.key == key
  }

  /** The links of the handles at one moment. */
  type Links = map<LRUHandle, LRUHandle?>

  /** From `first` on, the links run through the handles of `c` and end. */
  ghost predicate Chain(nx: Links, first: LRUHandle?, c: seq<LRUHandle>) {
    && first == (if c == [] then null else c[0])
    && (forall k :: 0 <= k < |c| ==> LinkAt(nx, c, k))
  }

  ghost predicate LinkAt(nx: Links, c: seq<LRUHandle>, k: nat)
    requires k < |c|
  {
    c[k] in nx && nx[c[k]] == if k + 1 < |c| then c[k + 1] else null
  }

  ghost function Members(chains: seq<seq<LRUHandle>>): set<LRUHandle> {
    set b, h | 0 <= b < |chains| && h in chains[b] :: h
  }

  function Total(chains: seq<seq<LRUHandle>>): nat {
    if chains == [] then 0 else Total(chains[..|chains| - 1]) + |chains[|chains| - 1]|
  }

  ghost predicate NoRepeats(c: seq<LRUHandle>) {
    forall i, j :: 0 <= i < j < |c| ==> c[i] != c[j]
  }

  /** Each handle is once in the bucket of its hash, and no two have the same key. */
  ghost predicate Bucketed(chains: seq<seq<LRUHandle>>, length: nat) {
    && |chains| == length > 0
    && (forall b :: 0 <= b < length ==> NoRepeats(chains[b]))
    && (forall b, h :: 0 <= b < length && h in chains[b] ==> h.hash % length == b)
    && (forall b, g, h :: 0 <= b < length && g in chains[b] && h in chains[b] && Matches(g, h.key, h.hash) ==> g == h)
  }

  lemma {:induction false} TotalChanges(chains: seq<seq<LRUHandle>>, b: nat, c: seq<LRUHandle>)
    requires b < |chains|
    ensures Total(chains[b := c]) == Total(chains) - |chains[b]| + |c|
    decreases |chains|
  {
    var front := chains[..|chains| - 1];
    if b < |chains| - 1 {
      TotalChanges(front, b, c);
      assert chains[b := c][..|chains| - 1] == front[b := c];
    } else {
      assert chains[b := c][..|chains| - 1] == front;
    }
  }

  /** A handle that is not in the bucket of its hash is nowhere. */
  lemma NotThere(chains: seq<seq<LRUHandle>>, length: nat, b: nat, i: nat, key: Bytes, hash: Word32)
    requires Bucketed(chains, length) && b == hash % length && i <= |chains[b]|
    requires forall j :: 0 <= j < i ==> !Matches(chains[b][j], key, hash)
    ensures i == |chains[b]| ==> forall g :: g in Members(chains) ==> !Matches(g, key, hash)
  {
    if i == |chains[b]| {
      forall g | g in Members(chains)
        ensures !Matches(g, key, hash)
      {
        var d :| 0 <= d < |chains| && g in chains[d];
        if g.hash == hash {
          assert d == b;
        }
      }
    }
  }

  lemma {:induction false} EmptyTotal(n: nat)
    ensures Total(seq(n, _ => [])) == 0
  {
    if n > 0 {
      EmptyTotal(n - 1);
      assert seq(n, _ => [])[..n - 1] == seq<seq<LRUHandle>>(n - 1, _ => []);
    }
  }

  /** The buckets `ls` start the chains. */
  ghost predicate TableOk(ls: seq<LRUHandle?>, nx: Links, chains: seq<seq<LRUHandle>>, length: nat) {
    && |chains| == length > 0 && Bucketed(chains, length) && |ls| == length
    && (forall b :: 0 <= b < length ==> Chain(nx, ls[b], chains[b]))
  }

  /** Making the link before place `i` of bucket `b` point to `to`. */
  ghost predicate SlotWritten(ls: seq<LRUHandle?>, nx: Links, ls': seq<LRUHandle?>, nx': Links, chains: seq<seq<LRUHandle>>,
                              b: nat, i: nat, to: LRUHandle?)
    requires b < |chains| && i <= |chains[b]| && |ls| == |chains|
  {
    if i == 0 then ls' == ls[b := to] && nx' == nx
    else ls' == ls && nx' == nx[chains[b][i - 1] := to]
  }

  /** The chain of a bucket with another handle in place of the `i`-th, or at its end. */
  ghost function Placed(c: seq<LRUHandle>, i: nat, h: LRUHandle): seq<LRUHandle>
    requires i <= |c|
  {
    if i < |c| then c[i := h] else c + [h]
  }

  lemma OtherChain(nx: Links, nx': Links, first: LRUHandle?, c: seq<LRUHandle>)
    requires Chain(nx, first, c) && forall h :: h in c && h in nx ==> h in nx' && nx'[h] == nx[h]
    ensures Chain(nx', first, c)
  {
    assert forall k :: 0 <= k < |c| && LinkAt(nx, c, k) ==> c[k] in c && LinkAt(nx', c, k);
  }

  /** Linking a handle in keeps the table. */
  lemma PlacedKeeps(ls: seq<LRUHandle?>, nx: Links, ls': seq<LRUHandle?>, nx': Links, chains: seq<seq<LRUHandle>>, length: nat,
                    b: nat, i: nat, h: LRUHandle, rest: LRUHandle?)
    requires TableOk(ls, nx, chains, length) && b == h.hash % length && i <= |chains[b]| && h !in Members(chains)
    requires rest == if i + 1 < |chains[b]| then chains[b][i + 1] else null
    requires SlotWritten(ls, nx[h := rest], ls', nx', chains, b, i, h)
    requires i < |chains[b]| ==> Matches(chains[b][i], h.key, h.hash)
    requires i == |chains[b]| ==> forall g :: g in chains[b] ==> !Matches(g, h.key, h.hash)
    ensures TableOk(ls', nx', chains[b := Placed(chains[b], i, h)], length)
  {
    hide Bucketed, Members;
    ReplaceKeeps(chains, length, b, i, h);
    Apart(chains, length, b, i, h);
    forall d | 0 <= d < length
      ensures Chain(nx', ls'[d], chains[b := Placed(chains[b], i, h)][d])
    {
      if d == b {
        PlacedChain(nx, nx', ls[b], ls'[b], chains[b], i, h, rest);
      } else {
        OtherChain(nx, nx', ls[d], chains[d]);
      }
    }
  }

  lemma PlacedChain(nx: Links, nx': Links, first: LRUHandle?, first': LRUHandle?, c: seq<LRUHandle>, i: nat, h: LRUHandle, rest: LRUHandle?)
    requires Chain(nx, first, c) && i <= |c| && h !in c && NoRepeats(c)
    requires rest == if i + 1 < |c| then c[i + 1] else null
    requires if i == 0 then first' == h && nx' == nx[h := rest] else first' == first && nx' == nx[h := rest][c[i - 1] := h]
    ensures Chain(nx', first', Placed(c, i, h))
  {
    var d := Placed(c, i, h);
    forall k | 0 <= k < |d|
      ensures LinkAt(nx', d, k)
    {
      if k != i {
        assert c[k] in c && LinkAt(nx, c, k);
      }
    }
  }

  /** Taking a handle off its chain keeps the table. */
  lemma RemovedKeeps(ls: seq<LRUHandle?>, nx: Links, ls': seq<LRUHandle?>, nx': Links, chains: seq<seq<LRUHandle>>, length: nat,
                     b: nat, i: nat)
    requires TableOk(ls, nx, chains, length) && b < length && i < |chains[b]| && chains[b][i] in nx
    requires SlotWritten(ls, nx, ls', nx', chains, b, i, nx[chains[b][i]])
    ensures TableOk(ls', nx', chains[b := chains[b][..i] + chains[b][i + 1..]], length)
  {
    hide Bucketed, Members;
    RemoveKeeps(chains, length, b, i);
    var c := chains[b];
    BucketNoRepeats(chains, length, b);
    forall d | 0 <= d < length
      ensures Chain(nx', ls'[d], chains[b := c[..i] + c[i + 1..]][d])
    {
      if d == b {
        RemovedChain(nx, nx', ls[b], ls'[b], c, i);
      } else {
        if i > 0 {
          OneBucket(chains, length, d, b, c[i - 1]);
        }
        OtherChain(nx, nx', ls[d], chains[d]);
      }
    }
  }

  lemma RemovedChain(nx: Links, nx': Links, first: LRUHandle?, first': LRUHandle?, c: seq<LRUHandle>, i: nat)
    requires Chain(nx, first, c) && i < |c| && NoRepeats(c) && c[i] in nx
    requires if i == 0 then first' == nx[c[i]] && nx' == nx else first' == first && nx' == nx[c[i - 1] := nx[c[i]]]
    ensures Chain(nx', first', c[..i] + c[i + 1..])
  {
    var d := c[..i] + c[i + 1..];
    assert LinkAt(nx, c, i);
    forall k | 0 <= k < |d|
      ensures LinkAt(nx', d, k)
    {
      var n := if k < i then k else k + 1;
      assert d[k] == c[n] && LinkAt(nx, c, n) && LinkAt(nx, c, i);
    }
  }

  lemma BucketNoRepeats(chains: seq<seq<LRUHandle>>, length: nat, b: nat)
    requires Bucketed(chains, length) && b < length
    ensures NoRepeats(chains[b])
  {
  }

  /** Neither a handle of bucket `b` nor one that is not in the table is in another bucket. */
  lemma Apart(chains: seq<seq<LRUHandle>>, length: nat, b: nat, i: nat, h: LRUHandle)
    requires Bucketed(chains, length) && b < length && i <= |chains[b]| && h !in Members(chains)
    ensures NoRepeats(chains[b])
    ensures forall d :: 0 <= d < length ==> h !in chains[d] && (d != b && i > 0 ==> chains[b][i - 1] !in chains[d])
  {
    forall d | 0 <= d < length
      ensures h !in chains[d] && (d != b && i > 0 ==> chains[b][i - 1] !in chains[d])
    {
      BucketIn(chains, d);
      if d != b && i > 0 {
        OneBucket(chains, length, d, b, chains[b][i - 1]);
      }
    }
  }

  /** Putting a handle at the front of its bucket keeps the table. */
  lemma FrontKeepsTable(ls: seq<LRUHandle?>, nx: Links, chains: seq<seq<LRUHandle>>, length: nat, d: nat, h: LRUHandle)
    requires TableOk(ls, nx, chains, length) && d == h.hash % length && h !in Members(chains)
    requires forall g :: g in Members(chains) ==> !Matches(g, h.key, h.hash)
    ensures TableOk(ls[d := h], nx[h := ls[d]], chains[d := [h] + chains[d]], length)
  {
    hide Members, Matches;
    AddKeeps(chains, length, d, h);
    Apart(chains, length, d, 0, h);
    forall e | 0 <= e < length && e != d
      ensures Chain(nx[h := ls[d]], ls[e], chains[e])
    {
      OtherChain(nx, nx[h := ls[d]], ls[e], chains[e]);
    }
    FrontChain(nx, ls[d], chains[d], h);
  }

  lemma FrontChain(nx: Links, first: LRUHandle?, c: seq<LRUHandle>, h: LRUHandle)
    requires Chain(nx, first, c) && h !in c
    ensures Chain(nx[h := first], h, [h] + c)
  {
    var d := [h] + c;
    var nx' := nx[h := first];
    forall k | 0 <= k < |d|
      ensures LinkAt(nx', d, k)
    {
      if k > 0 {
        assert c[k - 1] in c && LinkAt(nx, c, k - 1);
      }
    }
  }

  class HandleTable {
    var length: nat
    var elems: nat
    var list: array<LRUHandle?>
    ghost var chains: seq<seq<LRUHandle>>

    ghost function Handles(): set<LRUHandle>
      reads `chains
    {
      Members(chains)
    }

    ghost predicate Shape()
      reads `length, `list, `chains, list, Members(chains)`nextHash
    {
      list.Length == length && TableOk(list[..], NextsOf(Members(chains)), chains, length)
    }

    ghost predicate Valid()
      reads this, list, Members(chains)`nextHash
    {
      Shape() && elems == Total(chains)
    }

    constructor ()
      ensures Valid() && Handles() == {} && fresh(list)
    {
      length, elems := 4, 0;
      list := new LRUHandle?[4](_ => null);
      chains := seq(4, _ => []);
      new;
      EmptyTotal(4);
    }

    /** The bucket of a hash, the handle before the one that matches (none at the front of the
        bucket), and the one that matches (none at the end of the bucket). */
    method FindPointer(key: Bytes, hash: Word32) returns (b: nat, before: LRUHandle?, h: LRUHandle?, ghost i: nat)
      requires Shape()
      ensures b == hash % length && b < length && i <= |chains[b]|
      ensures before == if i == 0 then null else chains[b][i - 1]
      ensures if i < |chains[b]| then h == chains[b][i] && Matches(h, key, hash) else h == null
      ensures forall j :: 0 <= j < i ==> !Matches(chains[b][j], key, hash)
      ensures h == null ==> forall g :: g in Handles() ==> !Matches(g, key, hash)
      ensures (before != null ==> before in Handles()) && (h != null ==> h in Handles())
    {
      hide Members, Bucketed;
      b := hash % length;
      ghost var c := chains[b];
      BucketIn(chains, b);
      before, h, i := null, list[b], 0;
      ghost var nx := NextsOf(Members(chains));
      while h != null && (h.hash != hash || key != h.key)
        invariant i <= |c| && h == (if i < |c| then c[i] else null) && c == chains[b] && b < length
        invariant nx == NextsOf(Members(chains)) && Chain(nx, list[b], c)
        invariant before == if i == 0 then null else c[i - 1]
        invariant forall j :: 0 <= j < i ==> !Matches(c[j], key, hash)
        decreases |c| - i
      {
        assert LinkAt(nx, c, i);
        assert nx[h] == h.nextHash;
        before := h;
        h := h.nextHash;
        i := i + 1;
      }
      NotThere(chains, length, b, i, key, hash);
    }

    method Lookup(key: Bytes, hash: Word32) returns (h: LRUHandle?)
      requires Valid()
      ensures if h == null then forall g :: g in Handles() ==> !Matches(g, key, hash)
              else h in Handles() && Matches(h, key, hash)
    {
      hide Members;
      var b, before; ghost var i;
      b, before, h, i := FindPointer(key, hash);
    }

    /** Make the link before place `i` of a bucket point elsewhere. */
    method WriteSlot(b: nat, before: LRUHandle?, to: LRUHandle?, ghost i: nat, ghost all: set<LRUHandle>)
      requires list.Length == length == |chains| && b < length && i <= |chains[b]|
      requires before == if i == 0 then null else chains[b][i - 1]
      requires before != null ==> before in all
      modifies list, all`nextHash
      ensures SlotWritten(old(list[..]), old(NextsOf(all)), list[..], NextsOf(all), chains, b, i, to)
    {
      if before == null {
        list[b] := to;
      } else {
        before.nextHash := to;
      }
    }

    /** Add a handle, replacing the one with its key, if any, which is returned. */
    method Insert(h: LRUHandle) returns (replaced: LRUHandle?)
      requires Valid() && h !in Handles()
      modifies this, list, (Handles() + {h})`nextHash
      ensures Valid() && (list == old(list) || fresh(list))
      ensures if replaced == null then forall g :: g in old(Handles()) ==> !Matches(g, h.key, h.hash)
              else replaced in old(Handles()) && Matches(replaced, h.key, h.hash)
      ensures Handles() == old(Handles()) - (if replaced == null then {} else {replaced}) + {h}
    {
      hide Members, Bucketed, TableOk, SlotWritten, Matches, Total, Shape;
      replaced := InsertLink(h);
      if replaced == null {
        elems := elems + 1;
        if elems > length {
          Resize();
        }
      }
    }

    /** No two handles in the table have the same key. */
    lemma KeysUnique(g: LRUHandle, h: LRUHandle)
      requires Valid() && g in Handles() && h in Handles() && Matches(g, h.key, h.hash)
      ensures g == h
    {
      var b :| 0 <= b < |chains| && g in chains[b];
      var d :| 0 <= d < |chains| && h in chains[d];
      BucketOf(chains, length, b, g);
      BucketOf(chains, length, d, h);
    }

    lemma KeysDiffer()
      requires Valid()
      ensures forall g, h :: g in Handles() && h in Handles() && Matches(g, h.key, h.hash) ==> g == h
    {
      forall g, h | g in Handles() && h in Handles() && Matches(g, h.key, h.hash)
        ensures g == h
      {
        KeysUnique(g, h);
      }
    }

    lemma OnlyOne(h: LRUHandle)
      requires Valid() && h in Handles()
      ensures forall g :: g in Handles() && Matches(g, h.key, h.hash) ==> g == h
    {
      KeysDiffer();
    }

    /** Put a handle on the chain of its bucket, in place of the one with its key, if any. */
    method InsertLink(h: LRUHandle) returns (replaced: LRUHandle?)
      requires Shape() && h !in Handles()
      modifies this`chains, list, (Handles() + {h})`nextHash
      ensures Shape() && list == old(list)
      ensures if replaced == null then forall g :: g in old(Handles()) ==> !Matches(g, h.key, h.hash)
              else replaced in old(Handles()) && Matches(replaced, h.key, h.hash)
      ensures Handles() == old(Handles()) - (if replaced == null then {} else {replaced}) + {h}
      ensures Total(chains) == old(Total(chains)) + if replaced == null then 1 else 0
    {
      hide Members, Bucketed, TableOk, SlotWritten, Matches, Total;
      ghost var nx := NextsOf(Handles());
      TableSize(list[..], nx, chains, length);
      var b, before; ghost var i;
      b, before, replaced, i := FindPointer(h.key, h.hash);
      BucketIn(chains, b);
      ReplaceKeeps(chains, length, b, i, h);
      TotalChanges(chains, b, Placed(chains[b], i, h));
      if replaced != null {
        LinkThere(list[..], nx, chains, length, b, i);
      }
      NoMatch(chains, b, replaced, h);
      PlaceAt(b, before, h, if replaced == null then null else replaced.nextHash, i);
    }

    lemma NoMatch(chains: seq<seq<LRUHandle>>, b: nat, replaced: LRUHandle?, h: LRUHandle)
      requires b < |chains| && (replaced == null ==> forall g :: g in Members(chains) ==> !Matches(g, h.key, h.hash))
      ensures replaced == null ==> forall g :: g in chains[b] ==> !Matches(g, h.key, h.hash)
    {
      BucketIn(chains, b);
    }

    /** Put a handle in place of the `i`-th of its bucket, or at its end. */
    method PlaceAt(b: nat, before: LRUHandle?, h: LRUHandle, rest: LRUHandle?, ghost i: nat)
      requires Shape() && h !in Handles() && |chains| == length && b == h.hash % length && i <= |chains[b]|
      requires before == (if i == 0 then null else chains[b][i - 1]) && (before != null ==> before in Handles())
      requires rest == if i + 1 < |chains[b]| then chains[b][i + 1] else null
      requires i < |chains[b]| ==> Matches(chains[b][i], h.key, h.hash)
      requires i == |chains[b]| ==> forall g :: g in chains[b] ==> !Matches(g, h.key, h.hash)
      requires Members(chains[b := Placed(chains[b], i, h)]) <= Handles() + {h}
      modifies this`chains, list, (Handles() + {h})`nextHash
      ensures Shape() && list == old(list) && chains == old(chains)[b := Placed(old(chains)[b], i, h)]
    {
      hide Members, Bucketed, TableOk, SlotWritten, Matches;
      ghost var all := Handles();
      ghost var nx := NextsOf(all);
      ghost var ls := list[..];
      TableSize(ls, nx, chains, length);
      h.nextHash := rest;
      assert NextsOf(all + {h}) == nx[h := rest];
      WriteSlot(b, before, h, i, all + {h});
      PlacedKeeps(ls, nx, list[..], NextsOf(all + {h}), chains, length, b, i, h, rest);
      chains := chains[b := Placed(chains[b], i, h)];
      FewerLinks(list[..], NextsOf(all + {h}), NextsOf(Handles()), chains, length);
    }

    /** Take the handle with the key, if any, off its chain. */
    method Remove(key: Bytes, hash: Word32) returns (result: LRUHandle?)
      requires Valid()
      modifies this`elems, this`chains, list, Handles()`nextHash
      ensures Valid() && list == old(list)
      ensures if result == null then Handles() == old(Handles()) && forall g :: g in Handles() ==> !Matches(g, key, hash)
              else result in old(Handles()) && Matches(result, key, hash) && Handles() == old(Handles()) - {result}
    {
      hide Members, Bucketed, TableOk, SlotWritten, Matches;
      ghost var all := Handles();
      ghost var nx := NextsOf(all);
      ghost var ls := list[..];
      TableSize(ls, nx, chains, length);
      var b, before; ghost var i;
      b, before, result, i := FindPointer(key, hash);
      if result != null {
        ghost var c := chains[b];
        BucketIn(chains, b);
        TotalChanges(chains, b, c[..i] + c[i + 1..]);
        RemoveKeeps(chains, length, b, i);
        WriteSlot(b, before, result.nextHash, i, all);
        RemovedKeeps(ls, nx, list[..], NextsOf(all), chains, length, b, i);
        chains := chains[b := c[..i] + c[i + 1..]];
        FewerLinks(list[..], NextsOf(all), NextsOf(Handles()), chains, length);
        elems := elems - 1;
      }
    }

    lemma TableSize(ls: seq<LRUHandle?>, nx: Links, chains: seq<seq<LRUHandle>>, length: nat)
      requires TableOk(ls, nx, chains, length)
      ensures |chains| == length == |ls| > 0 && Bucketed(chains, length)
      ensures forall d :: 0 <= d < length ==> Chain(nx, ls[d], chains[d])
    {
    }

    lemma LinkThere(ls: seq<LRUHandle?>, nx: Links, chains: seq<seq<LRUHandle>>, length: nat, b: nat, i: nat)
      requires TableOk(ls, nx, chains, length) && b < length && i < |chains[b]|
      ensures chains[b][i] in nx && nx[chains[b][i]] == if i + 1 < |chains[b]| then chains[b][i + 1] else null
    {
      assert LinkAt(nx, chains[b], i);
    }

    /** Links of handles that are on no chain do not matter. */
    lemma FewerLinks(ls: seq<LRUHandle?>, nx: Links, nx': Links, chains: seq<seq<LRUHandle>>, length: nat)
      requires TableOk(ls, nx, chains, length)
      requires forall h :: h in Members(chains) && h in nx ==> h in nx' && nx'[h] == nx[h]
      ensures TableOk(ls, nx', chains, length)
    {
      forall b | 0 <= b < length
        ensures Chain(nx', ls[b], chains[b])
      {
        BucketIn(chains, b);
        OtherChain(nx, nx', ls[b], chains[b]);
      }
    }

    /** Double the table until it is as large as it has entries, and move them over. */
    method Resize()
      requires Shape()
      modifies this`length, this`list, this`chains, Handles()`nextHash
      ensures Shape() && fresh(list) && Handles() == old(Handles()) && Total(chains) == old(Total(chains))
      ensures length >= elems
    {
      hide Members, Bucketed, TableOk, Matches;
      var newLength := 4;
      while newLength < elems
        invariant newLength >= 4
        decreases elems - newLength
      {
        newLength := newLength * 2;
      }
      ghost var all := Handles();
      ghost var nx := NextsOf(all);
      ghost var ls := list[..];
      TableSize(ls, nx, chains, length);
      var newList := new LRUHandle?[newLength](_ => null);
      ghost var newChains: seq<seq<LRUHandle>> := seq(newLength, _ => []);
      EmptyTotal(newLength);
      EmptyTable(newList[..], NextsOf(all), newChains, newLength, chains);
      var i := 0;
      while i < length
        invariant i <= length == list.Length == |chains| && fresh(newList) && newList.Length == newLength > 0
        invariant length == old(length) && list == old(list) && chains == old(chains) && elems == old(elems) && list[..] == ls
        invariant TableOk(newList[..], NextsOf(all), newChains, newLength)
        invariant Members(newChains) == Members(chains[..i]) && Total(newChains) == Total(chains[..i])
        invariant forall d :: i <= d < length ==> Chain(NextsOf(all), ls[d], chains[d])
      {
        assert chains[..i + 1][..i] == chains[..i];
        MembersOne(chains, i);
        newChains := MoveBucket(newList, newLength, newChains, chains, length, i, list[i], all, ls);
        i := i + 1;
      }
      assert chains[..length] == chains;
      list := newList;
      length := newLength;
      chains := newChains;
    }

    lemma EmptyTable(ls: seq<LRUHandle?>, nx: Links, newChains: seq<seq<LRUHandle>>, newLength: nat, chains: seq<seq<LRUHandle>>)
      requires newLength > 0 && ls == seq(newLength, _ => null) && newChains == seq(newLength, _ => [])
      ensures TableOk(ls, nx, newChains, newLength)
      ensures Members(newChains) == Members(chains[..0]) && Total(chains[..0]) == 0
    {
    }

    /** Move the chain of one bucket to the fronts of its new buckets. */
    method MoveBucket(newList: array<LRUHandle?>, newLength: nat, ghost newChains: seq<seq<LRUHandle>>,
                      ghost chains: seq<seq<LRUHandle>>, ghost length: nat, ghost i: nat, first: LRUHandle?,
                      ghost all: set<LRUHandle>, ghost ls: seq<LRUHandle?>)
      returns (ghost moved: seq<seq<LRUHandle>>)
      requires newList.Length == newLength > 0 && |chains| == length == |ls| && i < length
      requires Bucketed(chains, length) && Members(chains) == all
      requires Chain(NextsOf(all), first, chains[i])
      requires TableOk(newList[..], NextsOf(all), newChains, newLength) && Members(newChains) == Members(chains[..i])
      requires forall d :: i < d < length ==> Chain(NextsOf(all), ls[d], chains[d])
      modifies newList, all`nextHash
      ensures TableOk(newList[..], NextsOf(all), moved, newLength)
      ensures Members(moved) == Members(newChains) + ToSet(chains[i])
      ensures Total(moved) == Total(newChains) + |chains[i]|
      ensures forall d :: i < d < length ==> Chain(NextsOf(all), ls[d], chains[d])
    {
      hide Members, Bucketed, TableOk, Matches;
      ghost var c := chains[i];
      BucketIn(chains, i);
      moved := newChains;
      ghost var n := 0;
      var h := first;
      while h != null
        invariant n <= |c| && h == (if n < |c| then c[n] else null)
        invariant Members(moved) == Members(newChains) + ToSet(c[..n]) && Total(moved) == Total(newChains) + n
        invariant TableOk(newList[..], NextsOf(all), moved, newLength)
        invariant forall k :: n <= k < |c| ==> LinkAt(NextsOf(all), c, k)
        invariant forall d :: i < d < length ==> Chain(NextsOf(all), ls[d], chains[d])
        decreases |c| - n
      {
        assert LinkAt(NextsOf(all), c, n);
        assert h in c && c[n] == h;
        ghost var nx := NextsOf(all);
        ghost var ls0 := newList[..];
        TableSize(ls0, nx, moved, newLength);
        var next := h.nextHash;
        assert nx[h] == next;
        var d := h.hash % newLength;
        FrontKeeps(moved, newLength, d, h, chains, length, i, n, newChains);
        FrontKeepsTable(ls0, nx, moved, newLength, d, h);
        TotalChanges(moved, d, [h] + moved[d]);
        h.nextHash := newList[d];
        newList[d] := h;
        assert NextsOf(all) == nx[h := ls0[d]] && newList[..] == ls0[d := h];
        RestStays(nx, NextsOf(all), chains, length, i, n, ls, ls0[d]);
        moved := moved[d := [h] + moved[d]];
        assert c[..n + 1] == c[..n] + [c[n]];
        h := next;
        n := n + 1;
      }
      assert c[..|c|] == c;
    }

    /** Moving a handle leaves the links of those still to be moved. */
    lemma RestStays(nx: Links, nx': Links, chains: seq<seq<LRUHandle>>, length: nat, i: nat, n: nat, ls: seq<LRUHandle?>, x: LRUHandle?)
      requires Bucketed(chains, length) && |chains| == length == |ls| && i < length && n < |chains[i]|
      requires chains[i][n] in nx && nx' == nx[chains[i][n] := x]
      ensures forall k :: n < k < |chains[i]| && LinkAt(nx, chains[i], k) ==> LinkAt(nx', chains[i], k)
      ensures forall d :: i < d < length && Chain(nx, ls[d], chains[d]) ==> Chain(nx', ls[d], chains[d])
    {
      var c := chains[i];
      BucketNoRepeats(chains, length, i);
      forall d | i < d < length && Chain(nx, ls[d], chains[d])
        ensures Chain(nx', ls[d], chains[d])
      {
        OneBucket(chains, length, d, i, c[n]);
        OtherChain(nx, nx', ls[d], chains[d]);
      }
    }
  }

  ghost function NextsOf(all: set<LRUHandle>): Links
    reads all`nextHash
  {
    map h | h in all :: h.nextHash
  }

  lemma MembersOne(chains: seq<seq<LRUHandle>>, i: nat)
    requires i < |chains|
    ensures Members(chains[..i + 1]) == Members(chains[..i]) + ToSet(chains[i])
  {
    forall h | h in Members(chains[..i + 1])
      ensures h in Members(chains[..i]) + ToSet(chains[i])
    {
      var b :| 0 <= b < i + 1 && h in chains[..i + 1][b];
      if b < i {
        assert h in chains[..i][b];
      }
    }
    forall h | h in Members(chains[..i]) + ToSet(chains[i])
      ensures h in Members(chains[..i + 1])
    {
      if h in chains[i] {
        assert h in chains[..i + 1][i];
      } else {
        var b :| 0 <= b < i && h in chains[..i][b];
        assert h in chains[..i + 1][b];
      }
    }
  }

  lemma OneBucket(chains: seq<seq<LRUHandle>>, length: nat, i: nat, d: nat, g: LRUHandle)
    requires Bucketed(chains, length) && i < length && d < length && d != i && g in chains[d]
    ensures g !in chains[i]
  {
    BucketOf(chains, length, d, g);
    if g in chains[i] {
      BucketOf(chains, length, i, g);
    }
  }

  lemma BucketOf(chains: seq<seq<LRUHandle>>, length: nat, d: nat, g: LRUHandle)
    requires Bucketed(chains, length) && d < length && g in chains[d]
    ensures g.hash % length == d && g in Members(chains)
  {
  }

  /** Handles of one bucket are in no other. */
  lemma Elsewhere(chains: seq<seq<LRUHandle>>, length: nat, i: nat)
    requires Bucketed(chains, length) && i < length
    ensures forall d, g :: 0 <= d < length && d != i && g in chains[d] ==> g !in chains[i]
    ensures forall g :: g in Members(chains[..i]) ==> g !in chains[i]
  {
    forall d, g | 0 <= d < length && d != i && g in chains[d]
      ensures g !in chains[i]
    {
      OneBucket(chains, length, i, d, g);
    }
    forall g | g in Members(chains[..i])
      ensures g !in chains[i]
    {
      var b :| 0 <= b < i && g in chains[..i][b];
      assert g in chains[b];
    }
  }

  /** A handle from the old table is not in the new one yet. */
  lemma FrontKeeps(moved: seq<seq<LRUHandle>>, newLength: nat, d: nat, h: LRUHandle,
                   chains: seq<seq<LRUHandle>>, length: nat, i: nat, n: nat, newChains: seq<seq<LRUHandle>>)
    requires Bucketed(moved, newLength) && d == h.hash % newLength && Bucketed(chains, length) && i < length && n < |chains[i]|
    requires h == chains[i][n] && Members(newChains) == Members(chains[..i])
    requires Members(moved) == Members(newChains) + ToSet(chains[i][..n])
    ensures h !in Members(moved) && forall g :: g in Members(moved) ==> !Matches(g, h.key, h.hash)
    ensures Members(moved[d := [h] + moved[d]]) == Members(moved) + {h}
  {
    forall g | g in Members(moved)
      ensures g != h && !Matches(g, h.key, h.hash)
    {
      OtherKey(chains, length, i, n, g);
    }
    AddKeeps(moved, newLength, d, h);
  }

  /** A handle earlier in the table has another key. */
  lemma OtherKey(chains: seq<seq<LRUHandle>>, length: nat, i: nat, n: nat, g: LRUHandle)
    requires Bucketed(chains, length) && i < length && n < |chains[i]|
    requires g in Members(chains[..i]) + ToSet(chains[i][..n])
    ensures g != chains[i][n] && !Matches(g, chains[i][n].key, chains[i][n].hash)
  {
    var h := chains[i][n];
    assert h in chains[i];
    if g in chains[i][..n] {
      var k :| 0 <= k < n && chains[i][..n][k] == g;
      assert g == chains[i][k] && g in chains[i];
    } else {
      var b :| 0 <= b < i && g in chains[..i][b];
      assert g in chains[b];
      assert g.hash % length == b;
      assert h.hash % length == i;
    }
  }

  /** Another chain in one bucket. */
  lemma Update(chains: seq<seq<LRUHandle>>, length: nat, b: nat, c: seq<LRUHandle>)
    requires Bucketed(chains, length) && b < length && NoRepeats(c)
    requires forall h :: h in c ==> h.hash % length == b
    requires forall g, h :: g in c && h in c && Matches(g, h.key, h.hash) ==> g == h
    ensures Bucketed(chains[b := c], length)
    ensures Members(chains[b := c]) == Members(chains) - ToSet(chains[b]) + ToSet(c)
  {
    hide Matches;
    var after := chains[b := c];
    Elsewhere(chains, length, b);
    forall g | g in Members(after)
      ensures g in Members(chains) - ToSet(chains[b]) + ToSet(c)
    {
      var d :| 0 <= d < |after| && g in after[d];
      if d != b {
        assert g in chains[d];
      }
    }
    forall g | g in Members(chains) - ToSet(chains[b]) + ToSet(c)
      ensures g in Members(after)
    {
      if g in c {
        assert g in after[b];
      } else {
        var d :| 0 <= d < |chains| && g in chains[d];
        assert g in after[d];
      }
    }
  }

  lemma AddKeeps(chains: seq<seq<LRUHandle>>, length: nat, d: nat, h: LRUHandle)
    requires Bucketed(chains, length) && d == h.hash % length && h !in Members(chains)
    requires forall g :: g in Members(chains) ==> !Matches(g, h.key, h.hash)
    ensures var after := chains[d := [h] + chains[d]];
            Bucketed(after, length) && Members(after) == Members(chains) + {h}
  {
    var c := [h] + chains[d];
    BucketIn(chains, d);
    assert forall k :: 0 < k < |c| ==> c[k] == chains[d][k - 1] && c[k] in chains[d];
    assert forall g :: g in c ==> g == h || g in chains[d];
    MatchesBack(h);
    Update(chains, length, d, c);
  }

  lemma MatchesBack(h: LRUHandle)
    ensures forall g: LRUHandle :: Matches(h, g.key, g.hash) ==> Matches(g, h.key, h.hash)
  {
  }

  lemma BucketIn(chains: seq<seq<LRUHandle>>, d: nat)
    requires d < |chains|
    ensures ToSet(chains[d]) <= Members(chains)
  {
    forall g | g in chains[d]
      ensures g in Members(chains)
    {
    }
  }

  lemma RemoveKeeps(chains: seq<seq<LRUHandle>>, length: nat, b: nat, i: nat)
    requires Bucketed(chains, length) && b < length && i < |chains[b]|
    ensures var c := chains[b];
            var after := chains[b := c[..i] + c[i + 1..]];
            Bucketed(after, length) && Members(after) == Members(chains) - {c[i]}
  {
    var c := chains[b];
    var d := c[..i] + c[i + 1..];
    BucketIn(chains, b);
    assert forall k :: 0 <= k < |d| ==> d[k] == c[if k < i then k else k + 1];
    assert forall g :: g in d <==> g in c && g != c[i] by {
      forall g | g in c && g != c[i]
        ensures g in d
      {
        var k :| 0 <= k < |c| && c[k] == g;
        assert d[if k < i then k else k - 1] == g;
      }
    }
    Update(chains, length, b, d);
  }

  lemma ReplaceKeeps(chains: seq<seq<LRUHandle>>, length: nat, b: nat, i: nat, h: LRUHandle)
    requires Bucketed(chains, length) && b == h.hash % length && i <= |chains[b]| && h !in Members(chains)
    requires i < |chains[b]| ==> Matches(chains[b][i], h.key, h.hash)
    requires i == |chains[b]| ==> forall g :: g in chains[b] ==> !Matches(g, h.key, h.hash)
    ensures var c := chains[b];
            var after := chains[b := if i < |c| then c[i := h] else c + [h]];
            Bucketed(after, length) &&
            Members(after) == Members(chains) - (if i < |c| then {c[i]} else {}) + {h}
  {
    var c := chains[b];
    var d := if i < |c| then c[i := h] else c + [h];
    BucketIn(chains, b);
    MatchesBack(h);
    PlacedMembers(c, i, h);
    assert forall g :: g in c && Matches(g, h.key, h.hash) ==> i < |c| && g == c[i];
    Update(chains, length, b, d);
  }

  lemma PlacedMembers(c: seq<LRUHandle>, i: nat, h: LRUHandle)
    requires i <= |c| && h !in c && NoRepeats(c)
    ensures var d := if i < |c| then c[i := h] else c + [h];
            NoRepeats(d) && ToSet(d) == ToSet(c) - (if i < |c| then {c[i]} else {}) + {h}
  {
    var d := if i < |c| then c[i := h] else c + [h];
    assert forall k :: 0 <= k < |c| ==> c[k] in c;
    forall g | g in c && (i < |c| ==> g != c[i])
      ensures g in d
    {
      var k :| 0 <= k < |c| && c[k] == g;
      assert d[k] == g;
    }
    assert d[i] == h;
  }
}
