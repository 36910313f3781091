/** The LRU cache: entries counted by reference, on one ring while clients hold them and on another,
    in order of last use, while none does. */
module LruCaches {
  import opened Keys
  import opened Coding
  import opened HandleTables

  // ----- Rings -----

  /** The handles of a ring, its head before the first and after the last. */
  ghost function RingAt(head: LRUHandle, s: seq<LRUHandle>, k: int): LRUHandle {
    if 0 <= k < |s| then s[k] else head
  }

  ghost predicate JointAt(nx: Links, pv: Links, head: LRUHandle, s: seq<LRUHandle>, k: int) {
    var a, b := RingAt(head, s, k - 1), RingAt(head, s, k);
    a in nx && b in pv && nx[a] == b && pv[b] == a
  }

  /** Next links run from the head through `s` and back, previous links the other way round. */
  ghost predicate Ring(nx: Links, pv: Links, head: LRUHandle, s: seq<LRUHandle>) {
    NoRepeats(s) && head !in s && forall k :: 0 <= k <= |s| ==> JointAt(nx, pv, head, s, k)
  }

  /** A ring does not depend on links of handles that are not on it. */
  lemma OtherRing(nx: Links, pv: Links, nx': Links, pv': Links, head: LRUHandle, s: seq<LRUHandle>)
    requires Ring(nx, pv, head, s)
    requires forall h :: (h == head || h in s) && h in nx ==> h in nx' && nx'[h] == nx[h]
    requires forall h :: (h == head || h in s) && h in pv ==> h in pv' && pv'[h] == pv[h]
    ensures Ring(nx', pv', head, s)
  {
    forall k | 0 <= k <= |s|
      ensures JointAt(nx', pv', head, s, k)
    {
      assert JointAt(nx, pv, head, s, k);
    }
  }

  /** Unlinking a handle. */
  lemma UnlinkRing(nx: Links, pv: Links, nx': Links, pv': Links, head: LRUHandle, s: seq<LRUHandle>, i: nat)
    requires Ring(nx, pv, head, s) && i < |s|
    requires var before, after := RingAt(head, s, i - 1), RingAt(head, s, i + 1);
             nx' == nx[before := after] && pv' == pv[after := before]
    ensures Ring(nx', pv', head, s[..i] + s[i + 1..])
    ensures s[i] in nx && s[i] in pv && nx[s[i]] == RingAt(head, s, i + 1) && pv[s[i]] == RingAt(head, s, i - 1)
  {
    var t := s[..i] + s[i + 1..];
    assert JointAt(nx, pv, head, s, i) && JointAt(nx, pv, head, s, i + 1);
    assert forall k :: 0 <= k < |t| ==> t[k] == s[if k < i then k else k + 1];
    forall k | 0 <= k <= |t|
      ensures JointAt(nx', pv', head, t, k)
    {
      assert JointAt(nx, pv, head, s, if k <= i then k else k + 1);
      assert k == i ==> RingAt(head, t, k) == RingAt(head, s, i + 1) && RingAt(head, t, k - 1) == RingAt(head, s, i - 1);
    }
  }

  /** Linking a handle in before the head: it is the newest. */
  lemma AppendRing(nx: Links, pv: Links, nx': Links, pv': Links, head: LRUHandle, s: seq<LRUHandle>, e: LRUHandle)
    requires Ring(nx, pv, head, s) && e !in s && e != head
    requires var last := RingAt(head, s, |s| - 1);
             nx' == nx[e := head][last := e] && pv' == pv[e := last][head := e]
    ensures Ring(nx', pv', head, s + [e])
    ensures head in pv && pv[head] == RingAt(head, s, |s| - 1)
  {
    var t := s + [e];
    assert JointAt(nx, pv, head, s, |s|);
    forall k | 0 <= k <= |t|
      ensures JointAt(nx', pv', head, t, k)
    {
      if k < |s| {
        assert JointAt(nx, pv, head, s, k);
      }
    }
  }

  ghost function NextOf(all: set<LRUHandle>): Links
    reads all`next
  {
    map h | h in all :: h.next
  }

  ghost function PrevOf(all: set<LRUHandle>): Links
    reads all`prev
  {
    map h | h in all :: h.prev
  }

  function Charge(s: seq<LRUHandle>): nat {
    if s == [] then 0 else Charge(s[..|s| - 1]) + s[|s| - 1].charge
  }

  lemma {:induction false} ChargeWithout(s: seq<LRUHandle>, i: nat)
    requires i < |s|
    ensures Charge(s) == Charge(s[..i] + s[i + 1..]) + s[i].charge
    decreases |s|
  {
    var front := s[..|s| - 1];
    if i == |s| - 1 {
      assert s[..i] + s[i + 1..] == front;
    } else {
      ChargeWithout(front, i);
      assert (s[..i] + s[i + 1..])[..|s| - 2] == front[..i] + front[i + 1..];
    }
  }

  lemma ChargeWith(s: seq<LRUHandle>, e: LRUHandle)
    ensures Charge(s + [e]) == Charge(s) + e.charge
  {
    assert (s + [e])[..|s|] == s;
  }

  ghost function IndexOf(s: seq<LRUHandle>, e: LRUHandle): (i: nat)
    requires e in s
    ensures i < |s| && s[i] == e
  {
    if s[0] == e then 0 else 1 + IndexOf(s[1..], e)
  }

  ghost function Without(s: seq<LRUHandle>, e: LRUHandle): seq<LRUHandle> {
    if e in s then s[..IndexOf(s, e)] + s[IndexOf(s, e) + 1..] else s
  }

  lemma WithoutMembers(s: seq<LRUHandle>, e: LRUHandle)
    requires NoRepeats(s)
    ensures NoRepeats(Without(s, e)) && ToSet(Without(s, e)) == ToSet(s) - {e}
    ensures Charge(s) == Charge(Without(s, e)) + if e in s then e.charge else 0
  {
    hide Charge, NoRepeats, ToSet;
    MembersOfSet(s, e);
    if e in s {
      var i := IndexOf(s, e);
      ChargeWithout(s, i);
      DropOne(s, i);
    }
  }

  lemma MembersOfSet(s: seq<LRUHandle>, e: LRUHandle)
    ensures e in ToSet(s) <==> e in s
  {
  }

  lemma DropOne(s: seq<LRUHandle>, i: nat)
    requires NoRepeats(s) && i < |s|
    ensures var t := s[..i] + s[i + 1..]; NoRepeats(t) && ToSet(t) == ToSet(s) - {s[i]}
  {
    var t := s[..i] + s[i + 1..];
    assert forall k :: 0 <= k < |t| ==> t[k] == s[if k < i then k else k + 1];
    forall g | g in s && g != s[i]
      ensures g in t
    {
      var k :| 0 <= k < |s| && s[k] == g;
      assert t[if k < i then k else k - 1] == g;
    }
  }

  /** Two rings with nothing in common. */
  ghost predicate Both(nx: Links, pv: Links, lh: LRUHandle, ih: LRUHandle, lru: seq<LRUHandle>, inUse: seq<LRUHandle>) {
    && lh != ih && lh !in inUse && ih !in lru && (forall e :: e in lru ==> e !in inUse)
    && Ring(nx, pv, lh, lru) && Ring(nx, pv, ih, inUse)
  }

  lemma Neighbours(nx: Links, pv: Links, lh: LRUHandle, ih: LRUHandle, lru: seq<LRUHandle>, inUse: seq<LRUHandle>, e: LRUHandle)
    requires Both(nx, pv, lh, ih, lru, inUse) && (e in lru || e in inUse)
    ensures e in nx && e in pv && nx[e] != null && pv[e] != null && nx[e] != e && pv[e] != e
    ensures var all := ToSet(lru) + ToSet(inUse) + {lh, ih}; nx[e] in all && pv[e] in all
  {
    var head, s := if e in lru then lh else ih, if e in lru then lru else inUse;
    var i := IndexOf(s, e);
    assert JointAt(nx, pv, head, s, i) && JointAt(nx, pv, head, s, i + 1);
  }

  lemma UnlinkBoth(nx: Links, pv: Links, nx': Links, pv': Links, lh: LRUHandle, ih: LRUHandle,
                   lru: seq<LRUHandle>, inUse: seq<LRUHandle>, e: LRUHandle)
    requires Both(nx, pv, lh, ih, lru, inUse) && (e in lru || e in inUse)
    requires e in nx && e in pv && nx[e] != null && pv[e] != null
    requires nx' == nx[pv[e] := nx[e]] && pv' == pv[nx[e] := pv[e]]
    ensures Both(nx', pv', lh, ih, Without(lru, e), Without(inUse, e))
  {
    hide JointAt, Ring, Without;
    RingsDistinct(nx, pv, lh, ih, lru, inUse);
    WithoutIs(lru, e);
    WithoutIs(inUse, e);
    WithoutMembers(lru, e);
    WithoutMembers(inUse, e);
    if e in lru {
      UnlinkOne(nx, pv, nx', pv', lh, ih, lru, inUse, e);
    } else {
      UnlinkOne(nx, pv, nx', pv', ih, lh, inUse, lru, e);
    }
  }

  lemma UnlinkOne(nx: Links, pv: Links, nx': Links, pv': Links, head: LRUHandle, otherHead: LRUHandle,
                  s: seq<LRUHandle>, other: seq<LRUHandle>, e: LRUHandle)
    requires Ring(nx, pv, head, s) && Ring(nx, pv, otherHead, other) && e in s
    requires head != otherHead && head !in other && otherHead !in s && forall g :: g in s ==> g !in other
    requires e in nx && e in pv && nx[e] != null && pv[e] != null
    requires nx' == nx[pv[e] := nx[e]] && pv' == pv[nx[e] := pv[e]]
    ensures Ring(nx', pv', head, Without(s, e)) && Ring(nx', pv', otherHead, other)
  {
    hide JointAt, Ring;
    var i: int := IndexOf(s, e);
    var before, after := RingAt(head, s, i - 1), RingAt(head, s, i + 1);
    UnlinkRing(nx, pv, nx[before := after], pv[after := before], head, s, i);
    assert before !in other && after !in other && before != otherHead && after != otherHead;
    OtherRing(nx, pv, nx', pv', otherHead, other);
  }

  lemma WithoutIs(s: seq<LRUHandle>, e: LRUHandle)
    ensures Without(s, e) == if e in s then s[..IndexOf(s, e)] + s[IndexOf(s, e) + 1..] else s
  {
  }

  lemma RingsDistinct(nx: Links, pv: Links, lh: LRUHandle, ih: LRUHandle, lru: seq<LRUHandle>, inUse: seq<LRUHandle>)
    requires Both(nx, pv, lh, ih, lru, inUse)
    ensures NoRepeats(lru) && NoRepeats(inUse) && lh !in lru && ih !in inUse && lh !in inUse && ih !in lru && lh != ih
    ensures forall e :: e in lru ==> e !in inUse
  {
  }

  lemma AppendBoth(nx: Links, pv: Links, nx': Links, pv': Links, lh: LRUHandle, ih: LRUHandle,
                   lru: seq<LRUHandle>, inUse: seq<LRUHandle>, e: LRUHandle, toLru: bool)
    requires Both(nx, pv, lh, ih, lru, inUse) && e !in lru && e !in inUse && e != lh && e != ih
    requires var h := if toLru then lh else ih;
             h in pv && pv[h] != null && nx' == nx[e := h][pv[h] := e] && pv' == pv[e := pv[h]][h := e]
    ensures if toLru then Both(nx', pv', lh, ih, lru + [e], inUse) else Both(nx', pv', lh, ih, lru, inUse + [e])
  {
    hide JointAt;
    var head, s := if toLru then lh else ih, if toLru then lru else inUse;
    var otherHead, other := if toLru then ih else lh, if toLru then inUse else lru;
    LastIs(nx, pv, head, s);
    AppendRing(nx, pv, nx', pv', head, s, e);
    OtherRing(nx, pv, nx', pv', otherHead, other);
  }

  lemma LastIs(nx: Links, pv: Links, head: LRUHandle, s: seq<LRUHandle>)
    requires Ring(nx, pv, head, s)
    ensures head in pv && pv[head] == RingAt(head, s, |s| - 1) && (pv[head] == head || pv[head] in s)
    ensures head in nx && nx[head] == RingAt(head, s, 0)
  {
    assert JointAt(nx, pv, head, s, |s|) && JointAt(nx, pv, head, s, 0);
  }

  lemma BothKeys(nx: Links, pv: Links, lh: LRUHandle, ih: LRUHandle, lru: seq<LRUHandle>, inUse: seq<LRUHandle>)
    requires Both(nx, pv, lh, ih, lru, inUse)
    ensures lh in nx && ih in nx && forall e :: e in lru || e in inUse ==> e in nx && e != lh && e != ih
  {
    LastIs(nx, pv, lh, lru);
    LastIs(nx, pv, ih, inUse);
    forall e | e in lru || e in inUse
      ensures e in nx
    {
      Neighbours(nx, pv, lh, ih, lru, inUse, e);
    }
  }

  lemma MoreHandles(nx: Links, pv: Links, nx': Links, pv': Links, lh: LRUHandle, ih: LRUHandle,
                    lru: seq<LRUHandle>, inUse: seq<LRUHandle>)
    requires Both(nx, pv, lh, ih, lru, inUse)
    requires forall h :: h in nx ==> h in nx' && nx'[h] == nx[h]
    requires forall h :: h in pv ==> h in pv' && pv'[h] == pv[h]
    ensures Both(nx', pv', lh, ih, lru, inUse)
  {
    hide JointAt;
    OtherRing(nx, pv, nx', pv', lh, lru);
    OtherRing(nx, pv, nx', pv', ih, inUse);
  }

  /** The list with an entry moved to its end, or taken off it. */
  ghost function Moved(s: seq<LRUHandle>, e: LRUHandle, here: bool): seq<LRUHandle> {
    if here then Without(s, e) + [e] else Without(s, e)
  }

  /** What moving an entry between the rings keeps. */
  lemma MovedMembers(lru: seq<LRUHandle>, inUse: seq<LRUHandle>, e: LRUHandle, toLru: bool)
    requires NoRepeats(lru) && NoRepeats(inUse) && (e in lru <==> e !in inUse)
    ensures var l, u := Moved(lru, e, toLru), Moved(inUse, e, !toLru);
            && (forall g :: g in l <==> if g == e then toLru else g in lru)
            && (forall g :: g in u <==> if g == e then !toLru else g in inUse)
            && Charge(l) + Charge(u) == Charge(lru) + Charge(inUse) && ToSet(l) + ToSet(u) == ToSet(lru) + ToSet(inUse)
  {
    hide Charge, Without;
    WithoutMembers(lru, e);
    WithoutMembers(inUse, e);
    ChargeWith(Without(lru, e), e);
    ChargeWith(Without(inUse, e), e);
    SameMembers(lru, Without(lru, e), e);
    SameMembers(inUse, Without(inUse, e), e);
    var l, u := Moved(lru, e, toLru), Moved(inUse, e, !toLru);
    assert forall g :: g in l <==> if g == e then toLru else g in lru;
    assert forall g :: g in u <==> if g == e then !toLru else g in inUse;
    SameUnion(lru, inUse, l, u);
  }

  lemma SameUnion(s: seq<LRUHandle>, t: seq<LRUHandle>, s': seq<LRUHandle>, t': seq<LRUHandle>)
    requires forall g :: g in s || g in t <==> g in s' || g in t'
    ensures ToSet(s') + ToSet(t') == ToSet(s) + ToSet(t)
  {
    forall g
      ensures g in ToSet(s') + ToSet(t') <==> g in ToSet(s) + ToSet(t)
    {
      assert g in ToSet(s') + ToSet(t') <==> g in s' || g in t';
      assert g in ToSet(s) + ToSet(t) <==> g in s || g in t;
    }
  }

  lemma SameMembers(s: seq<LRUHandle>, t: seq<LRUHandle>, e: LRUHandle)
    requires ToSet(t) == ToSet(s) - {e}
    ensures forall g :: g in t <==> g in s && g != e
  {
    assert forall g :: g in t <==> g in ToSet(t);
  }

  // ----- References -----

  ghost function RefsOf(all: set<LRUHandle>): map<LRUHandle, nat>
    reads all`refs
  {
    map h | h in all :: h.refs
  }

  ghost function CachedOf(all: set<LRUHandle>): map<LRUHandle, bool>
    reads all`inCache
  {
    map h | h in all :: h.inCache
  }

  /** References are those of clients and, for a cached entry, one of the cache; an entry is on the
      ring that its references say. */
  ghost predicate TallyAt(lru: seq<LRUHandle>, inUse: seq<LRUHandle>, out: multiset<LRUHandle>,
                          refs: map<LRUHandle, nat>, cached: map<LRUHandle, bool>, e: LRUHandle) {
    && e in refs && e in cached
    && (if e in lru || e in inUse then cached[e] && refs[e] == out[e] + 1 && (e in lru <==> out[e] == 0)
        else !cached[e] && refs[e] == out[e])
  }

  ghost predicate Tallied(lru: seq<LRUHandle>, inUse: seq<LRUHandle>, out: multiset<LRUHandle>,
                          refs: map<LRUHandle, nat>, cached: map<LRUHandle, bool>) {
    && (forall e :: e in refs ==> TallyAt(lru, inUse, out, refs, cached, e))
    && (forall e :: e in out ==> e in refs)
  }

  /** Only the tally of `e` has to be looked at when nothing else changed. */
  lemma OtherTallies(lru: seq<LRUHandle>, inUse: seq<LRUHandle>, out: multiset<LRUHandle>,
                     refs: map<LRUHandle, nat>, cached: map<LRUHandle, bool>,
                     lru': seq<LRUHandle>, inUse': seq<LRUHandle>, out': multiset<LRUHandle>,
                     refs': map<LRUHandle, nat>, cached': map<LRUHandle, bool>, e: LRUHandle)
    requires Tallied(lru, inUse, out, refs, cached)
    requires forall g :: g != e ==> (g in lru' <==> g in lru) && (g in inUse' <==> g in inUse)
    requires forall g :: g != e ==> out'[g] == out[g]
    requires forall g :: g != e ==> (g in refs' <==> g in refs) && (g in cached' <==> g in cached)
    requires forall g :: g != e && g in refs ==> refs'[g] == refs[g]
    requires forall g :: g != e && g in cached ==> cached'[g] == cached[g]
    requires TallyAt(lru', inUse', out', refs', cached', e)
    ensures Tallied(lru', inUse', out', refs', cached')
  {
    forall g | g in refs'
      ensures TallyAt(lru', inUse', out', refs', cached', g)
    {
      assert g != e ==> TallyAt(lru, inUse, out, refs, cached, g);
    }
    assert forall g :: g in out' && g != e ==> g in out;
  }

  ghost predicate Disjoint(lru: seq<LRUHandle>, inUse: seq<LRUHandle>) {
    NoRepeats(lru) && NoRepeats(inUse) && forall e :: e in lru ==> e !in inUse
  }

  lemma RefTallies(lru: seq<LRUHandle>, inUse: seq<LRUHandle>, out: multiset<LRUHandle>,
                   refs: map<LRUHandle, nat>, cached: map<LRUHandle, bool>, e: LRUHandle)
    requires Tallied(lru, inUse, out, refs, cached) && Disjoint(lru, inUse) && (e in lru || e in inUse)
    requires e in refs && e in cached
    ensures refs[e] == 1 && cached[e] <==> e in lru
    ensures var l, u := Moved(lru, e, false), Moved(inUse, e, true);
            if e in lru then Tallied(l, u, out + multiset{e}, refs[e := refs[e] + 1], cached) && u == inUse + [e]
            else Tallied(lru, inUse, out + multiset{e}, refs[e := refs[e] + 1], cached)
  {
    assert TallyAt(lru, inUse, out, refs, cached, e);
    var l, u := if e in lru then Moved(lru, e, false) else lru, if e in lru then Moved(inUse, e, true) else inUse;
    MovedMembers(lru, inUse, e, false);
    OtherTallies(lru, inUse, out, refs, cached, l, u, out + multiset{e}, refs[e := refs[e] + 1], cached, e);
  }

  lemma ReleaseTallies(lru: seq<LRUHandle>, inUse: seq<LRUHandle>, out: multiset<LRUHandle>,
                       refs: map<LRUHandle, nat>, cached: map<LRUHandle, bool>, e: LRUHandle)
    requires Tallied(lru, inUse, out, refs, cached) && Disjoint(lru, inUse) && e in out
    requires e in refs && e in cached
    ensures refs[e] > 0 && (cached[e] <==> e in lru || e in inUse) && (cached[e] ==> e in inUse && refs[e] == out[e] + 1)
    ensures !cached[e] ==> refs[e] == out[e]
    ensures var l, u := Moved(lru, e, true), Moved(inUse, e, false);
            if cached[e] && refs[e] == 2 then
              Tallied(l, u, out - multiset{e}, refs[e := refs[e] - 1], cached) && l == lru + [e] && u == Without(inUse, e)
            else Tallied(lru, inUse, out - multiset{e}, refs[e := refs[e] - 1], cached)
  {
    hide Without, Charge;
    WithoutIs(lru, e);
    assert TallyAt(lru, inUse, out, refs, cached, e);
    var moves := cached[e] && refs[e] == 2;
    var l, u := if moves then Moved(lru, e, true) else lru, if moves then Moved(inUse, e, false) else inUse;
    if moves {
      MovedMembers(lru, inUse, e, true);
    }
    OtherTallies(lru, inUse, out, refs, cached, l, u, out - multiset{e}, refs[e := refs[e] - 1], cached, e);
  }

  lemma EraseTallies(lru: seq<LRUHandle>, inUse: seq<LRUHandle>, out: multiset<LRUHandle>,
                     refs: map<LRUHandle, nat>, cached: map<LRUHandle, bool>, e: LRUHandle)
    requires Tallied(lru, inUse, out, refs, cached) && Disjoint(lru, inUse) && (e in lru || e in inUse)
    requires e in refs && e in cached
    ensures cached[e] && refs[e] == out[e] + 1
    ensures var l, u := Without(lru, e), Without(inUse, e);
            && Tallied(l, u, out, refs[e := refs[e] - 1], cached[e := false])
            && Charge(l) + Charge(u) + e.charge == Charge(lru) + Charge(inUse)
            && ToSet(l) + ToSet(u) == ToSet(lru) + ToSet(inUse) - {e}
  {
    hide Without, Charge;
    assert TallyAt(lru, inUse, out, refs, cached, e);
    WithoutMembers(lru, e);
    WithoutMembers(inUse, e);
    SameMembers(lru, Without(lru, e), e);
    SameMembers(inUse, Without(inUse, e), e);
    OtherTallies(lru, inUse, out, refs, cached, Without(lru, e), Without(inUse, e), out,
                 refs[e := refs[e] - 1], cached[e := false], e);
  }

  lemma AddTallies(lru: seq<LRUHandle>, inUse: seq<LRUHandle>, out: multiset<LRUHandle>,
                   refs: map<LRUHandle, nat>, cached: map<LRUHandle, bool>, e: LRUHandle)
    requires Tallied(lru, inUse, out, refs, cached) && e !in refs && e !in lru && e !in inUse
    ensures e !in out && Tallied(lru, inUse + [e], out + multiset{e}, refs[e := 2], cached[e := true])
  {
    assert out[e] == 0;
    var refs', cached' := refs[e := 2], cached[e := true];
    forall g | g in refs'
      ensures TallyAt(lru, inUse + [e], out + multiset{e}, refs', cached', g)
    {
      assert g != e ==> TallyAt(lru, inUse, out, refs, cached, g);
    }
  }

  /** The list less an entry, if there is one to take off. */
  ghost function Less(s: seq<LRUHandle>, e: LRUHandle?): seq<LRUHandle> {
    if e == null then s else Without(s, e)
  }

  lemma LessAppend(s: seq<LRUHandle>, e: LRUHandle, r: LRUHandle?)
    requires r != e
    ensures Less(s + [e], r) == Less(s, r) + [e]
  {
    if r != null && r in s {
      SameIndex(s, e, r);
      var i := IndexOf(s, r);
      assert (s + [e])[..i] + (s + [e])[i + 1..] == s[..i] + s[i + 1..] + [e];
    }
  }

  lemma {:induction false} SameIndex(s: seq<LRUHandle>, e: LRUHandle, r: LRUHandle)
    requires r in s
    ensures IndexOf(s + [e], r) == IndexOf(s, r)
  {
    if s[0] != r {
      assert (s + [e])[1..] == s[1..] + [e];
      SameIndex(s[1..], e, r);
    }
  }

  lemma WithoutFirst(s: seq<LRUHandle>)
    requires s != []
    ensures Without(s, s[0]) == s[1..]
  {
    assert IndexOf(s, s[0]) == 0;
  }

  // ----- The cache -----

  class LRUCache {
    const capacity: nat
    var usage: nat
    const lruHead: LRUHandle
    const inUseHead: LRUHandle
    const table: HandleTable

    ghost var all: set<LRUHandle>      // every handle made so far, and the heads
    ghost var lru: seq<LRUHandle>      // oldest first
    ghost var inUse: seq<LRUHandle>
    ghost var out: multiset<LRUHandle> // handles that clients hold, as often as they do

    ghost function OnRings(): set<LRUHandle>
      reads `lru, `inUse
    {
      ToSet(lru) + ToSet(inUse)
    }

    /** Both rings are whole and have nothing in common. */
    ghost predicate RingsOk()
      reads `all, `lru, `inUse, all`next, all`prev
    {
      Both(NextOf(all), PrevOf(all), lruHead, inUseHead, lru, inUse)
    }

    ghost predicate TalliesOk()
      reads `all, `lru, `inUse, `out, all`refs, all`inCache
    {
      Tallied(lru, inUse, out, RefsOf(all), CachedOf(all))
    }

    /** The usage is the charge of the cached entries. */
    ghost predicate UsageOk()
      reads `lru, `inUse, `usage
    {
      usage == Charge(lru) + Charge(inUse)
    }

    /** The hash table holds just the entries on the rings. */
    ghost predicate TableOk()
      reads `all, `lru, `inUse, table, table.list, all`nextHash
    {
      table.Handles() <= all && table.Handles() == OnRings() && table.Valid()
    }

    ghost predicate Valid()
      reads this, all, table, table.list
    {
      RingsOk() && TalliesOk() && UsageOk() && TableOk()
    }

    constructor (c: nat)
      requires c > 0
      ensures Valid() && capacity == c && OnRings() == {} && out == multiset{}
      ensures fresh(all) && fresh(table) && fresh(table.list)
    {
      capacity, usage := c, 0;
      lruHead := new LRUHandle.Head();
      inUseHead := new LRUHandle.Head();
      table := new HandleTable();
      lru, inUse, out := [], [], multiset{};
      new;
      hide *;
      all := {lruHead, inUseHead};
      EmptyIsValid();
    }

    lemma EmptyIsValid()
      requires lruHead != inUseHead && all == {lruHead, inUseHead}
      requires lru == [] && inUse == [] && out == multiset{} && usage == 0
      requires lruHead.next == lruHead.prev == lruHead && inUseHead.next == inUseHead.prev == inUseHead
      requires lruHead.refs == inUseHead.refs == 0 && !lruHead.inCache && !inUseHead.inCache
      requires table.Handles() == {} && table.Valid()
      ensures Valid() && OnRings() == {}
    {
      hide HandleTable.Valid, HandleTable.Handles, Both;
      EmptyRings(NextOf(all), PrevOf(all), lruHead, inUseHead);
    }

    static lemma EmptyRings(nx: Links, pv: Links, lh: LRUHandle, ih: LRUHandle)
      requires lh != ih && lh in nx && lh in pv && ih in nx && ih in pv
      requires nx[lh] == lh && pv[lh] == lh && nx[ih] == ih && pv[ih] == ih
      ensures Both(nx, pv, lh, ih, [], [])
    {
      assert JointAt(nx, pv, lh, [], 0) && JointAt(nx, pv, ih, [], 0);
    }

    lemma RingsApart()
      requires RingsOk()
      ensures NoRepeats(lru) && NoRepeats(inUse) && lruHead in all && inUseHead in all
      ensures forall e :: e in lru || e in inUse ==> e in all && e != lruHead && e != inUseHead
      ensures forall e :: e in lru ==> e !in inUse
    {
      hide Both;
      RingsDistinct(NextOf(all), PrevOf(all), lruHead, inUseHead, lru, inUse);
      BothKeys(NextOf(all), PrevOf(all), lruHead, inUseHead, lru, inUse);
    }

    /** Take an entry off its ring. */
    method LRURemove(e: LRUHandle)
      requires RingsOk() && (e in lru || e in inUse)
      modifies this`lru, this`inUse, all`next, all`prev
      ensures RingsOk() && lru == Without(old(lru), e) && inUse == Without(old(inUse), e)
    {
      hide Both, Without;
      ghost var nx: Links, pv: Links := NextOf(all), PrevOf(all);
      Neighbours(nx, pv, lruHead, inUseHead, lru, inUse, e);
      BothKeys(nx, pv, lruHead, inUseHead, lru, inUse);
      Unlink(e, all, nx[e], pv[e]);
      UnlinkBoth(nx, pv, NextOf(all), PrevOf(all), lruHead, inUseHead, lru, inUse, e);
      lru, inUse := Without(lru, e), Without(inUse, e);
    }

    /** The two writes that unlink an entry. */
    static method Unlink(e: LRUHandle, ghost all: set<LRUHandle>, ghost after: LRUHandle, ghost before: LRUHandle)
      requires e.next == after != e && e.prev == before != e && {e, after, before} <= all
      modifies all`next, all`prev
      ensures NextOf(all) == old(NextOf(all))[before := after] && PrevOf(all) == old(PrevOf(all))[after := before]
    {
      e.next.prev := e.prev;
      e.prev.next := e.next;
    }

    /** Make an entry the newest of a ring. */
    method LRUAppend(toLru: bool, e: LRUHandle)
      requires RingsOk() && e in all && e !in lru && e !in inUse && e != lruHead && e != inUseHead
      modifies this`lru, this`inUse, all`next, all`prev
      ensures RingsOk()
      ensures lru == (if toLru then old(lru) + [e] else old(lru)) && inUse == if toLru then old(inUse) else old(inUse) + [e]
    {
      hide Both;
      ghost var nx: Links, pv: Links := NextOf(all), PrevOf(all);
      var list := if toLru then lruHead else inUseHead;
      HeadLast(nx, pv, lruHead, inUseHead, lru, inUse, toLru);
      Link(list, e, all, pv[list]);
      AppendBoth(nx, pv, NextOf(all), PrevOf(all), lruHead, inUseHead, lru, inUse, e, toLru);
      if toLru {
        lru := lru + [e];
      } else {
        inUse := inUse + [e];
      }
    }

    /** The four writes that link an entry in before the head of a ring. */
    static method Link(list: LRUHandle, e: LRUHandle, ghost all: set<LRUHandle>, ghost last: LRUHandle)
      requires {list, e, last} <= all && list.prev == last && e != list && e != last
      modifies all`next, all`prev
      ensures NextOf(all) == old(NextOf(all))[e := list][last := e]
      ensures PrevOf(all) == old(PrevOf(all))[e := last][list := e]
    {
      e.next := list;
      e.prev := list.prev;
      e.prev.next := e;
      e.next.prev := e;
    }

    static lemma HeadLast(nx: Links, pv: Links, lh: LRUHandle, ih: LRUHandle,
                          lru: seq<LRUHandle>, inUse: seq<LRUHandle>, toLru: bool)
      requires Both(nx, pv, lh, ih, lru, inUse)
      ensures var h := if toLru then lh else ih;
              h in pv && pv[h] != null && pv[h] in nx && (pv[h] == h || pv[h] in lru || pv[h] in inUse)
    {
      LastIs(nx, pv, lh, lru);
      LastIs(nx, pv, ih, inUse);
      BothKeys(nx, pv, lh, ih, lru, inUse);
    }

    /** Move an entry to the newest place of a ring. */
    method Move(toLru: bool, e: LRUHandle)
      requires RingsOk() && (e in lru || e in inUse)
      modifies this`lru, this`inUse, all`next, all`prev
      ensures RingsOk() && lru == Moved(old(lru), e, toLru) && inUse == Moved(old(inUse), e, !toLru)
    {
      hide RingsOk, Without;
      RingsApart();
      WithoutMembers(lru, e);
      WithoutMembers(inUse, e);
      SameMembers(lru, Without(lru, e), e);
      SameMembers(inUse, Without(inUse, e), e);
      LRURemove(e);
      LRUAppend(toLru, e);
    }

    /** A client takes a reference; an entry that had none moves to the in-use ring. */
    method Ref(e: LRUHandle)
      requires RingsOk() && TalliesOk() && UsageOk() && (e in lru || e in inUse)
      modifies this`lru, this`inUse, this`out, all`next, all`prev, e`refs
      ensures RingsOk() && TalliesOk() && UsageOk() && out == old(out) + multiset{e}
      ensures if e in old(lru) then lru == Without(old(lru), e) && inUse == old(inUse) + [e]
              else lru == old(lru) && inUse == old(inUse)
      ensures OnRings() == old(OnRings())
    {
      hide RingsOk, Without, Charge, Tallied;
      RingsApart();
      ghost var refs, cached := RefsOf(all), CachedOf(all);
      RefTallies(lru, inUse, out, refs, cached, e);
      if e.refs == 1 && e.inCache {
        MovedMembers(lru, inUse, e, false);
        Move(false, e);
      }
      e.refs := e.refs + 1;
      out := out + multiset{e};
      assert RefsOf(all) == refs[e := e.refs] && CachedOf(all) == cached;
    }

    method Lookup(key: Bytes, hash: Word32) returns (e: LRUHandle?)
      requires Valid()
      modifies this`lru, this`inUse, this`out, all`next, all`prev, all`refs
      ensures Valid() && OnRings() == old(OnRings())
      ensures if e == null then out == old(out) && forall g :: g in OnRings() ==> !Matches(g, key, hash)
              else e in OnRings() && Matches(e, key, hash) && out == old(out) + multiset{e}
      ensures if e != null && e in old(lru) then lru == Without(old(lru), e) && inUse == old(inUse) + [e]
              else lru == old(lru) && inUse == old(inUse)
    {
      hide RingsOk, TalliesOk, HandleTable.Valid, Without, Charge;
      e := table.Lookup(key, hash);
      if e != null {
        RingsApart();
        Ref(e);
      }
    }

    /** Drop a reference. The last one frees the entry; when only the cache's is left the entry
        becomes the newest of the LRU ring. */
    method Unref(e: LRUHandle)
      requires RingsOk() && e.refs > 0 && e in all && (e.inCache ==> e in lru || e in inUse)
      modifies this`lru, this`inUse, all`next, all`prev, e`refs
      ensures RingsOk() && e.refs == old(e.refs) - 1 && RefsOf(all) == old(RefsOf(all))[e := e.refs]
      ensures if e.inCache && e.refs == 1 then lru == Moved(old(lru), e, true) && inUse == Moved(old(inUse), e, false)
              else lru == old(lru) && inUse == old(inUse)
    {
      hide Both, Moved;
      e.refs := e.refs - 1;
      if e.refs == 0 {
        // the deleter is called and the entry freed
      } else if e.inCache && e.refs == 1 {
        Move(true, e);
      }
      assert RefsOf(all) == old(RefsOf(all))[e := e.refs];
    }

    /** A client gives a handle back. The last client's makes a cached entry the newest of the LRU ring. */
    method Release(e: LRUHandle)
      requires Valid() && e in out
      modifies this`lru, this`inUse, this`out, all`next, all`prev, e`refs
      ensures Valid() && OnRings() == old(OnRings()) && out == old(out) - multiset{e}
      ensures e.refs == 0 <==> !e.inCache && e !in out
      ensures if e in old(inUse) && e !in out then lru == old(lru) + [e] && inUse == Without(old(inUse), e)
              else lru == old(lru) && inUse == old(inUse)
    {
      hide RingsOk, TalliesOk, HandleTable.Valid, Without, Charge;
      ReleaseRef(e);
    }

    method ReleaseRef(e: LRUHandle)
      requires RingsOk() && TalliesOk() && UsageOk() && e in out
      modifies this`lru, this`inUse, this`out, all`next, all`prev, e`refs
      ensures RingsOk() && TalliesOk() && UsageOk() && OnRings() == old(OnRings()) && out == old(out) - multiset{e}
      ensures e.refs == 0 <==> !e.inCache && e !in out
      ensures if e in old(inUse) && e !in out then lru == old(lru) + [e] && inUse == Without(old(inUse), e)
              else lru == old(lru) && inUse == old(inUse)
    {
      hide RingsOk, Without, Charge, Tallied, RefsOf, CachedOf, Moved, NoRepeats;
      RingsApart();
      ghost var refs, cached := RefsOf(all), CachedOf(all);
      InTally(e);
      ReleaseTallies(lru, inUse, out, refs, cached, e);
      if e in inUse {
        MovedMembers(lru, inUse, e, true);
      }
      Unref(e);
      out := out - multiset{e};
    }

    lemma InTally(e: LRUHandle)
      requires TalliesOk() && (e in out || e in all)
      ensures e in all && e in RefsOf(all) && e in CachedOf(all)
      ensures RefsOf(all)[e] == e.refs && CachedOf(all)[e] == e.inCache
    {
    }

    /** Finish taking an entry out of the cache; it is out of the hash table already. */
    method FinishErase(e: LRUHandle?) returns (erased: bool)
      requires RingsOk() && TalliesOk() && UsageOk() && (e != null ==> e in lru || e in inUse)
      modifies this`lru, this`inUse, this`usage, all`next, all`prev, all`refs, all`inCache
      ensures RingsOk() && TalliesOk() && UsageOk() && erased == (e != null)
      ensures lru == Less(old(lru), e) && inUse == Less(old(inUse), e)
      ensures usage == old(usage) - if e == null then 0 else e.charge
      ensures OnRings() == old(OnRings()) - if e == null then {} else {e}
      ensures e != null ==> !e.inCache && (e.refs == 0 <==> e !in out)
    {
      hide RingsOk, Without, Charge, Tallied, RefsOf, Moved, NoRepeats;
      if e != null {
        RingsApart();
        InTally(e);
        ghost var refs, cached := RefsOf(all), CachedOf(all);
        EraseTallies(lru, inUse, out, refs, cached, e);
        LRURemove(e);
        e.inCache := false;
        usage := usage - e.charge;
        Unref(e);
        assert CachedOf(all) == cached[e := false];
      }
      return e != null;
    }

    /** A new entry, linked into the in-use ring with a reference for the caller and one for the cache. */
    method MakeEntry(key: Bytes, hash: Word32, charge: nat) returns (e: LRUHandle)
      requires RingsOk() && TalliesOk() && UsageOk()
      modifies this`all, this`lru, this`inUse, this`out, this`usage, all`next, all`prev
      ensures RingsOk() && TalliesOk() && UsageOk() && fresh(e) && all == old(all) + {e}
      ensures e.key == key && e.hash == hash && e.charge == charge
      ensures lru == old(lru) && inUse == old(inUse) + [e] && out == old(out) + multiset{e}
    {
      hide RingsOk, Charge, Tallied, RefsOf, CachedOf;
      ghost var refs, cached := RefsOf(all), CachedOf(all);
      e := NewEntry(key, hash, charge);
      AddTallies(lru, inUse, out, refs, cached, e);
      ChargeWith(inUse, e);
      LRUAppend(false, e);
      usage := usage + charge;
      out := out + multiset{e};
    }

    /** A new entry on no ring. */
    method NewEntry(key: Bytes, hash: Word32, charge: nat) returns (e: LRUHandle)
      requires RingsOk()
      modifies this`all
      ensures RingsOk() && fresh(e) && all == old(all) + {e}
      ensures e.key == key && e.hash == hash && e.charge == charge
      ensures e !in lru && e !in inUse && e != lruHead && e != inUseHead && e !in old(RefsOf(all))
      ensures RefsOf(all) == old(RefsOf(all))[e := 2] && CachedOf(all) == old(CachedOf(all))[e := true]
    {
      hide Both, NextOf, PrevOf, RefsOf, CachedOf, NoRepeats;
      RingsApart();
      e := new LRUHandle(key, hash, charge);
      e.refs := e.refs + 1;
      e.inCache := true;
      OneMore(all, e);
      MoreHandles(NextOf(all), PrevOf(all), NextOf(all + {e}), PrevOf(all + {e}), lruHead, inUseHead, lru, inUse);
      all := all + {e};
    }

    static lemma OneMore(all: set<LRUHandle>, e: LRUHandle)
      requires e !in all
      ensures RefsOf(all + {e}) == RefsOf(all)[e := e.refs] && CachedOf(all + {e}) == CachedOf(all)[e := e.inCache]
      ensures forall h :: h in NextOf(all) ==> h in NextOf(all + {e}) && NextOf(all + {e})[h] == NextOf(all)[h]
      ensures forall h :: h in PrevOf(all) ==> h in PrevOf(all + {e}) && PrevOf(all + {e})[h] == PrevOf(all)[h]
      ensures e !in RefsOf(all)
    {
    }

    lemma OldestIs()
      requires RingsOk()
      ensures lruHead in all && lruHead.next == if lru == [] then lruHead else lru[0]
      ensures lruHead !in lru
    {
      RingsApart();
      LastIs(NextOf(all), PrevOf(all), lruHead, lru);
    }

    /** Drop the entry that no client has held for longest. */
    method EraseOldest()
      requires Valid() && lruHead.next != lruHead
      modifies this`lru, this`inUse, this`usage, all`next, all`prev, all`refs, all`inCache
      modifies table, table.list, all`nextHash
      ensures Valid() && old(lru) != [] && lru == old(lru)[1..] && inUse == old(inUse)
      ensures usage == old(usage) - old(lru)[0].charge && table.list == old(table.list)
    {
      hide RingsOk, TalliesOk, HandleTable.Valid, Without, Charge;
      RingsApart();
      OldestIs();
      var e := lruHead.next;
      table.OnlyOne(e);
      WithoutFirst(lru);
      WithoutIs(inUse, e);
      var removed := table.Remove(e.key, e.hash);
      var _ := FinishErase(removed);
    }

    /** Cache a charge under a key, in place of what was there, and hand out the new entry. Entries that
        no client holds are dropped, the longest unused first, while the cache is over its capacity and
        no longer. */
    method Insert(key: Bytes, hash: Word32, charge: nat) returns (e: LRUHandle, ghost replaced: LRUHandle?, ghost n: nat)
      requires Valid() && capacity > 0
      modifies this`all, this`lru, this`inUse, this`out, this`usage, all`next, all`prev, all`refs, all`inCache
      modifies table, table.list, all`nextHash
      ensures Valid() && fresh(e) && e.key == key && e.hash == hash && e.charge == charge
      ensures if replaced == null then forall g :: g in old(OnRings()) ==> !Matches(g, key, hash)
              else replaced in old(OnRings()) && Matches(replaced, key, hash)
      ensures out == old(out) + multiset{e} && inUse == Less(old(inUse), replaced) + [e]
      ensures var rest := Less(old(lru), replaced); n <= |rest| && lru == rest[n..]
      ensures usage <= capacity || lru == []
      ensures n > 0 ==> usage + Less(old(lru), replaced)[n - 1].charge > capacity
    {
      hide Valid, RingsOk, TalliesOk, UsageOk, TableOk, Less, Matches, Charge;
      e, replaced := Admit(key, hash, charge);
      n := 0;
      ghost var rest := lru;
      ghost var used := inUse;
      ValidOldest();
      while usage > capacity && lruHead.next != lruHead
        invariant Valid() && all == old(all) + {e} && (table.list == old(table.list) || fresh(table.list))
        invariant lruHead.next == lruHead <==> lru == []
        invariant n <= |rest| && lru == rest[n..] && inUse == used && out == old(out) + multiset{e}
        invariant n > 0 ==> usage + rest[n - 1].charge > capacity
        decreases |lru|
      {
        EraseOldest();
        ValidOldest();
        n := n + 1;
      }
    }

    lemma ValidOldest()
      requires Valid()
      ensures lruHead.next == lruHead <==> lru == []
    {
      OldestIs();
    }

    /** Put a new entry in the rings and in the hash table, and take out the one it replaces. */
    method Admit(key: Bytes, hash: Word32, charge: nat) returns (e: LRUHandle, ghost replaced: LRUHandle?)
      requires Valid()
      modifies this`all, this`lru, this`inUse, this`out, this`usage, all`next, all`prev, all`refs, all`inCache
      modifies table, table.list, all`nextHash
      ensures Valid() && fresh(e) && e.key == key && e.hash == hash && e.charge == charge
      ensures if replaced == null then forall g :: g in old(OnRings()) ==> !Matches(g, key, hash)
              else replaced in old(OnRings()) && Matches(replaced, key, hash)
      ensures out == old(out) + multiset{e} && inUse == Less(old(inUse), replaced) + [e] && lru == Less(old(lru), replaced)
      ensures all == old(all) + {e} && (table.list == old(table.list) || fresh(table.list))
    {
      hide RingsOk, TalliesOk, UsageOk, HandleTable.Valid, Without, Charge, Matches;
      RingsApart();
      e := MakeEntry(key, hash, charge);
      var former := table.Insert(e);
      replaced := former;
      LessAppend(old(inUse), e, replaced);
      var _ := FinishErase(former);
    }

    /** Take what is cached under a key, if anything, out of the cache. */
    method Erase(key: Bytes, hash: Word32) returns (ghost erased: LRUHandle?)
      requires Valid()
      modifies this`lru, this`inUse, this`usage, all`next, all`prev, all`refs, all`inCache
      modifies table, table.list, all`nextHash
      ensures Valid() && lru == Less(old(lru), erased) && inUse == Less(old(inUse), erased)
      ensures if erased == null then forall g :: g in old(OnRings()) ==> !Matches(g, key, hash)
              else erased in old(OnRings()) && Matches(erased, key, hash) && !erased.inCache
      ensures forall g :: g in OnRings() ==> !Matches(g, key, hash)
    {
      hide RingsOk, TalliesOk, HandleTable.Valid, Without, Charge;
      RingsApart();
      table.KeysDiffer();
      var removed := table.Remove(key, hash);
      erased := removed;
      var _ := FinishErase(removed);
    }

    /** Drop every entry that no client holds. */
    method Prune()
      requires Valid()
      modifies this`lru, this`inUse, this`usage, all`next, all`prev, all`refs, all`inCache
      modifies table, table.list, all`nextHash
      ensures Valid() && lru == [] && inUse == old(inUse)
    {
      hide RingsOk, TalliesOk, HandleTable.Valid, Without, Charge;
      OldestIs();
      while lruHead.next != lruHead
        invariant Valid() && table.list == old(table.list) && inUse == old(inUse)
        invariant lruHead.next == lruHead <==> lru == []
        decreases |lru|
      {
        EraseOldest();
        OldestIs();
      }
    }
  }
}
