/** The skip list of a memtable. One writer at a time links nodes in; readers take no lock and may
    read a link between any two writes. */
module SkipLists {
  import opened Keys

  const MAX_HEIGHT: nat := 12

  class Node {
    const entry: Entry
    var next: seq<Node?>    // one link for each level of the node's height
    ghost var linked: nat   // on how many levels, from the lowest, it is in the list

    constructor (e: Entry, height: nat)
      ensures entry == e && next == seq(height, _ => null) && linked == 0
    {
      entry := e;
      next := seq(height, _ => null);
      linked := 0;
    }
  }

  /** The links of a list at one moment. */
  datatype Snap = Snap(head: Node, nodes: set<Node>, next: map<Node, seq<Node?>>, linked: map<Node, nat>) {

    ghost predicate Whole() {
      && head !in nodes && next.Keys == linked.Keys == nodes + {head}
      && |next[head]| == MAX_HEIGHT == linked[head]
      && (forall a, b :: a in nodes && b in nodes && a.entry.key == b.entry.key ==> a == b)
      && (forall a :: a in nodes ==> 1 <= linked[a] <= |next[a]| <= MAX_HEIGHT)
    }

    /** `a` is the head or comes before `k`. */
    ghost predicate After(a: Node, k: IKey) {
      a == head || Before(a.entry.key, k)
    }

    /** `b` is on level `l`. */
    ghost predicate On(b: Node, l: nat) {
      b in nodes && b in linked && linked[b] > l
    }

    /** On level `l`, `n` follows `a` with no node between; null follows the last. */
    ghost predicate Follows(a: Node, n: Node?, l: nat) {
      if n == null then forall b :: b in nodes && On(b, l) ==> !After(a, b.entry.key)
      else On(n, l) && After(a, n.entry.key) && forall b :: b in nodes && On(b, l) && After(a, b.entry.key) ==> !Before(b.entry.key, n.entry.key)
    }

    ghost predicate LinkOk(a: Node, l: nat) {
      a in next && l < |next[a]| && Follows(a, next[a][l], l)
    }

    /** Every level is a sorted chain: each link leads to the next node of the level. Since a node is
        linked from the lowest level up, each level is a part of the one below. */
    ghost predicate Ok() {
      && Whole()
      && (forall l: nat :: l < MAX_HEIGHT ==> LinkOk(head, l))
      && (forall a, l: nat :: a in nodes && On(a, l) ==> LinkOk(a, l))
    }

    /** A node a search for `k` may stand at on level `l`. */
    ghost predicate Stand(x: Node, l: nat, k: IKey) {
      x == head || (On(x, l) && Before(x.entry.key, k))
    }

    /** `n` is the first node at or after `k`, or null when there is none. */
    ghost predicate IsFirst(n: Node?, k: IKey) {
      if n == null then forall b :: b in nodes ==> Before(b.entry.key, k)
      else n in nodes && !Before(n.entry.key, k) && forall b :: b in nodes && !Before(b.entry.key, k) ==> !Before(b.entry.key, n.entry.key)
    }

    /** `x` is the last node on level `l` before `k`, or the head. */
    ghost predicate IsPrev(x: Node, l: nat, k: IKey) {
      Stand(x, l, k) && forall b :: b in nodes && On(b, l) && Before(b.entry.key, k) ==> !After(x, b.entry.key)
    }

    ghost function Ahead(x: Node): set<Node> {
      set b | b in nodes && After(x, b.entry.key)
    }
  }

  lemma LinkAt(s: Snap, x: Node, l: nat, k: IKey)
    requires s.Ok() && s.Stand(x, l, k) && l < MAX_HEIGHT
    ensures x in s.next && l < |s.next[x]| && s.Follows(x, s.next[x][l], l)
  {
    assert s.LinkOk(x, l);
  }

  /** A search that goes right has fewer nodes ahead of it. */
  lemma FewerAhead(s: Snap, x: Node, n: Node, l: nat)
    requires s.Whole() && s.Follows(x, n, l)
    ensures s.Ahead(n) < s.Ahead(x)
  {
    assert n in s.Ahead(x) && n !in s.Ahead(n);
  }

  /** On the lowest level, what follows the last node before `k` is the first node at or after it. */
  lemma FirstAfterPrev(s: Snap, x: Node, n: Node?, k: IKey)
    requires s.Whole() && s.Stand(x, 0, k) && s.Follows(x, n, 0) && (n != null ==> !Before(n.entry.key, k))
    ensures s.IsFirst(n, k)
  {
    forall b | b in s.nodes
      ensures s.On(b, 0)
    {
    }
  }

  lemma PrevHere(s: Snap, x: Node, n: Node?, l: nat, k: IKey)
    requires s.Stand(x, l, k) && s.Follows(x, n, l) && (n != null ==> !Before(n.entry.key, k))
    ensures s.IsPrev(x, l, k)
  {
  }

  // ----- Linking a node in -----

  ghost predicate CanLink(s: Snap, x: Node, i: nat, p: Node, own: seq<Node?>) {
    && s.Whole() && x != s.head && x != p && (p == s.head || p in s.nodes) && i < |s.next[p]|
    && (if i == 0 then x !in s.nodes && (forall b :: b in s.nodes ==> b.entry.key != x.entry.key) else x in s.nodes && s.linked[x] == i)
    && i < |own| <= MAX_HEIGHT && own[i] == s.next[p][i] && (i > 0 ==> own == s.next[x])
  }

  /** `t` is `s` with `x` linked on level `i` behind `p`: its own link was set to what followed `p`,
      and then the link of `p` to it. */
  ghost predicate LinkedIn(s: Snap, t: Snap, x: Node, i: nat, p: Node, own: seq<Node?>) {
    && CanLink(s, x, i, p, own)
    && t.head == s.head && t.nodes == s.nodes + {x} && t.next.Keys == t.linked.Keys == t.nodes + {s.head}
    && (forall n :: n in t.next ==> t.next[n] == if n == x then own else if n == p then s.next[p][i := x] else s.next[n])
    && (forall n :: n in t.linked ==> t.linked[n] == if n == x then i + 1 else s.linked[n])
  }

  lemma OnAfter(s: Snap, t: Snap, x: Node, i: nat, p: Node, own: seq<Node?>, b: Node, l: nat)
    requires LinkedIn(s, t, x, i, p, own)
    ensures t.On(b, l) <==> s.On(b, l) || (b == x && l == i)
  {
  }

  /** Other levels are as they were. */
  lemma OtherLevel(s: Snap, t: Snap, x: Node, i: nat, p: Node, own: seq<Node?>, a: Node, n: Node?, l: nat)
    requires LinkedIn(s, t, x, i, p, own) && l != i && s.Follows(a, n, l)
    ensures t.Follows(a, n, l)
  {
    forall b
      ensures t.On(b, l) <==> s.On(b, l)
    {
      OnAfter(s, t, x, i, p, own, b, l);
    }
  }

  /** A key whose last node before it is `p` is not between another node and what follows that. */
  lemma NotBetween(s: Snap, a: Node, n: Node?, i: nat, p: Node, k: IKey)
    requires s.Whole() && s.Follows(a, n, i) && s.IsPrev(p, i, k) && a != p && (a == s.head || s.On(a, i))
    ensures s.After(a, k) ==> n != null && !Before(k, n.entry.key)
  {
    if s.After(a, k) {
      if a != s.head {
        assert !s.After(p, a.entry.key);
        CompareIsTotalOrder(a.entry.key, p.entry.key, k);
      }
      assert s.After(a, p.entry.key);
    }
  }

  /** On the level itself, nodes other than the one before are followed by what followed them. */
  lemma OtherNode(s: Snap, t: Snap, x: Node, i: nat, p: Node, own: seq<Node?>, a: Node, n: Node?)
    requires LinkedIn(s, t, x, i, p, own) && s.Follows(a, n, i) && s.IsPrev(p, i, x.entry.key)
    requires a != p && (a == s.head || s.On(a, i))
    ensures t.Follows(a, n, i)
  {
    OnLevel(s, t, x, i, p, own);
    NotBetween(s, a, n, i, p, x.entry.key);
    hide Snap.On, LinkedIn, Compare, Snap.IsPrev;
  }

  /** The new node stands between the one before and what followed it. */
  lemma NewNode(s: Snap, t: Snap, x: Node, i: nat, p: Node, own: seq<Node?>, n: Node?)
    requires LinkedIn(s, t, x, i, p, own) && s.Follows(p, n, i) && s.IsPrev(p, i, x.entry.key)
    requires forall b :: b in s.nodes && b.entry.key == x.entry.key ==> b == x
    ensures t.Follows(x, n, i) && t.Follows(p, x, i)
  {
    OnLevel(s, t, x, i, p, own);
    LinkedMeans(s, t, x, i, p, own);
    NewBehind(s, t, x, i, p, n);
    NewAhead(s, t, x, i, p);
  }

  /** On level `i`, `t` has just `x` more than `s`. */
  ghost predicate OneMoreOn(s: Snap, t: Snap, x: Node, i: nat) {
    && s.head == t.head && t.nodes == s.nodes + {x} && x != s.head && t.On(x, i) && !s.On(x, i)
    && forall b :: b in t.nodes ==> (t.On(b, i) <==> s.On(b, i) || b == x)
  }

  lemma NewBehind(s: Snap, t: Snap, x: Node, i: nat, p: Node, n: Node?)
    requires OneMoreOn(s, t, x, i) && s.Follows(p, n, i) && s.IsPrev(p, i, x.entry.key)
    requires forall b :: b in s.nodes && b.entry.key == x.entry.key ==> b == x
    ensures t.Follows(x, n, i)
  {
    if n != null {
      CompareIsTotalOrder(n.entry.key, x.entry.key, n.entry.key);
    }
  }

  lemma NewAhead(s: Snap, t: Snap, x: Node, i: nat, p: Node)
    requires OneMoreOn(s, t, x, i) && s.IsPrev(p, i, x.entry.key)
    ensures t.Follows(p, x, i)
  {
    hide Snap.On;
  }

  lemma LinkedMeans(s: Snap, t: Snap, x: Node, i: nat, p: Node, own: seq<Node?>)
    requires LinkedIn(s, t, x, i, p, own)
    ensures s.head == t.head && t.nodes == s.nodes + {x} && x != s.head && x != p && s.head !in s.nodes
  {
  }

  lemma OnLevel(s: Snap, t: Snap, x: Node, i: nat, p: Node, own: seq<Node?>)
    requires LinkedIn(s, t, x, i, p, own)
    ensures OneMoreOn(s, t, x, i)
  {
    forall b | b in t.nodes
      ensures t.On(b, i) <==> s.On(b, i) || b == x
    {
      OnAfter(s, t, x, i, p, own, b, i);
    }
  }

  lemma LinkStays(s: Snap, t: Snap, x: Node, i: nat, p: Node, own: seq<Node?>, a: Node, l: nat)
    requires s.Ok() && LinkedIn(s, t, x, i, p, own) && s.IsPrev(p, i, x.entry.key) && i < MAX_HEIGHT
    requires (a == t.head && l < MAX_HEIGHT) || t.On(a, l)
    ensures t.LinkOk(a, l)
  {
    hide Snap.Follows, Snap.IsPrev;
    OnAfter(s, t, x, i, p, own, a, l);
    assert s.LinkOk(p, i) by { PrevLinked(s, p, i, x.entry.key); }
    if l == i && (a == p || a == x) {
      NewNode(s, t, x, i, p, own, s.next[p][i]);
    } else {
      assert s.LinkOk(a, l);
      if l == i {
        OtherNode(s, t, x, i, p, own, a, s.next[a][l]);
      } else {
        OtherLevel(s, t, x, i, p, own, a, s.next[a][l], l);
      }
    }
  }

  lemma PrevLinked(s: Snap, p: Node, i: nat, k: IKey)
    requires s.Ok() && s.IsPrev(p, i, k) && i < MAX_HEIGHT
    ensures s.LinkOk(p, i)
  {
  }

  /** After every single write of a link the list is whole. */
  lemma LinkingKeepsOk(s: Snap, t: Snap, x: Node, i: nat, p: Node, own: seq<Node?>)
    requires s.Ok() && LinkedIn(s, t, x, i, p, own) && s.IsPrev(p, i, x.entry.key) && i < MAX_HEIGHT
    ensures t.Ok()
  {
    hide Snap.Follows, Snap.IsPrev, Snap.LinkOk;
    forall l: nat | l < MAX_HEIGHT
      ensures t.LinkOk(t.head, l)
    {
      LinkStays(s, t, x, i, p, own, t.head, l);
    }
    forall a, l: nat | t.On(a, l)
      ensures t.LinkOk(a, l)
    {
      LinkStays(s, t, x, i, p, own, a, l);
    }
  }

  /** What a search relies on stays true while a writer links nodes in. */
  lemma StandStays(s: Snap, t: Snap, x: Node, i: nat, p: Node, own: seq<Node?>, y: Node, l: nat, k: IKey)
    requires LinkedIn(s, t, x, i, p, own) && s.Stand(y, l, k)
    ensures t.Stand(y, l, k)
  {
  }

  lemma PrevStays(s: Snap, t: Snap, x: Node, i: nat, p: Node, own: seq<Node?>, q: Node, l: nat)
    requires LinkedIn(s, t, x, i, p, own) && l > i && s.IsPrev(q, l, x.entry.key)
    ensures t.IsPrev(q, l, x.entry.key)
  {
    forall b
      ensures t.On(b, l) <==> s.On(b, l)
    {
      OnAfter(s, t, x, i, p, own, b, l);
    }
  }

  // ----- A search among inserts -----

  /** Where a lock-free search is, or that it is over and what it found. */
  datatype Reader = Searching(x: Node, level: nat) | Found(n: Node?)

  /** One read of a link by a search. */
  ghost predicate ReaderStep(s: Snap, k: IKey, r: Reader, r': Reader) {
    r.Searching? && r.x in s.next && r.level < |s.next[r.x]| &&
    var n := s.next[r.x][r.level];
    r' == if n != null && Before(n.entry.key, k) then Searching(n, r.level)
          else if r.level == 0 then Found(n)
          else Searching(r.x, r.level - 1)
  }

  /** First write of a level: the link on level `i` of a node that is on the levels below only. Of a
      node on no level yet the list shows nothing. */
  ghost predicate OwnStep(s: Snap, t: Snap, x: Node, i: nat, n: Node?) {
    if x in s.nodes then
      && x in s.next && x in s.linked && s.linked[x] == i < |s.next[x]|
      && t == s.(next := s.next[x := s.next[x][i := n]])
    else
      x != s.head && i == 0 && t == s
  }

  /** Second write of a level: the link of the last node before. */
  ghost predicate LinkStep(s: Snap, t: Snap, x: Node, i: nat, p: Node, own: seq<Node?>) {
    LinkedIn(s, t, x, i, p, own) && s.IsPrev(p, i, x.entry.key) && i < MAX_HEIGHT
  }

  datatype Turn = ReaderTurn | OwnTurn(x: Node, i: nat, n: Node?) | LinkTurn(x: Node, i: nat, p: Node, own: seq<Node?>)

  /** One write of a link by the writer. */
  ghost predicate WriterStep(s: Snap, t: Snap, turn: Turn) {
    match turn
    case ReaderTurn => false
    case OwnTurn(x, i, n) => OwnStep(s, t, x, i, n)
    case LinkTurn(x, i, p, own) => LinkStep(s, t, x, i, p, own)
  }

  /** The list from one write to the next. */
  ghost predicate Writes(ss: seq<Snap>, turns: seq<Turn>) {
    |ss| == |turns| + 1 && forall j :: 0 <= j < |turns| ==> WriterStep(ss[j], ss[j + 1], turns[j])
  }

  /** Reads of one search and writes of inserts, in any order. */
  ghost predicate Interleaved(k: IKey, ss: seq<Snap>, rs: seq<Reader>, turns: seq<Turn>) {
    |ss| == |rs| == |turns| + 1 && forall j :: 0 <= j < |turns| ==> TurnTaken(k, ss[j], ss[j + 1], rs[j], rs[j + 1], turns[j])
  }

  ghost predicate TurnTaken(k: IKey, s: Snap, t: Snap, r: Reader, r': Reader, turn: Turn) {
    match turn
    case ReaderTurn => t == s && ReaderStep(s, k, r, r')
    case _ => r' == r && WriterStep(s, t, turn)
  }

  /** After every single read and write the list is whole and the search stands where it may; and
      the search ends with the first node at or after its key of the list as it is at its last read. */
  lemma {:induction false} SearchAmongInserts(k: IKey, ss: seq<Snap>, rs: seq<Reader>, turns: seq<Turn>, j: nat)
    requires Interleaved(k, ss, rs, turns) && j < |ss|
    requires ss[0].Ok() && rs[0].Searching? && rs[0].x == ss[0].head && rs[0].level < MAX_HEIGHT
    ensures ss[j].Ok() && (rs[j].Searching? ==> ss[j].Stand(rs[j].x, rs[j].level, k) && rs[j].level < MAX_HEIGHT)
    ensures j > 0 && rs[j].Found? && rs[j - 1].Searching? ==> ss[j - 1].IsFirst(rs[j].n, k)
  {
    hide Snap.Ok, Snap.Follows, Snap.IsPrev, LinkedIn, WriterStep;
    if j > 0 {
      SearchAmongInserts(k, ss, rs, turns, j - 1);
      var s, r := ss[j - 1], rs[j - 1];
      assert TurnTaken(k, ss[j - 1], ss[j - 1 + 1], rs[j - 1], rs[j - 1 + 1], turns[j - 1]);
      match turns[j - 1] {
        case ReaderTurn =>
          LinkAt(s, r.x, r.level, k);
          OkMeansWhole(s);
          var n := s.next[r.x][r.level];
          if n != null && Before(n.entry.key, k) {
            FollowsOn(s, r.x, n, r.level);
          } else if r.level == 0 {
            FirstAfterPrev(s, r.x, n, k);
          }
        case _ =>
          WriterKeeps(s, ss[j], turns[j - 1], k, r);
      }
    }
  }

  /** A write keeps the list whole and a search where it may stand. */
  lemma WriterKeeps(s: Snap, t: Snap, turn: Turn, k: IKey, r: Reader)
    requires s.Ok() && WriterStep(s, t, turn)
    ensures t.Ok() && (r.Searching? && s.Stand(r.x, r.level, k) ==> t.Stand(r.x, r.level, k))
  {
    hide Snap.Ok, Snap.Follows, Snap.IsPrev, LinkedIn;
    match turn
    case OwnTurn(x, i, n) =>
      if x in s.nodes {
        OwnLinkKeepsOk(s, x, i, s.next[x][i := n]);
      }
    case LinkTurn(x, i, p, own) =>
      LinkingKeepsOk(s, t, x, i, p, own);
      if r.Searching? && s.Stand(r.x, r.level, k) {
        StandStays(s, t, x, i, p, own, r.x, r.level, k);
      }
  }

  lemma OkMeansWhole(s: Snap)
    requires s.Ok()
    ensures s.Whole()
  {
  }

  lemma FollowsOn(s: Snap, x: Node, n: Node, l: nat)
    requires s.Whole() && s.Follows(x, n, l)
    ensures s.On(n, l) && n != x
  {
  }

  /** A node's own link above the levels it is on is nobody's business. */
  lemma OwnLinkKeepsOk(s: Snap, x: Node, i: nat, own: seq<Node?>)
    requires s.Ok() && x in s.nodes && s.linked[x] == i < |s.next[x]| == |own| && forall l :: 0 <= l < i ==> own[l] == s.next[x][l]
    ensures s.(next := s.next[x := own]).Ok()
  {
    hide Snap.Follows;
    var t := s.(next := s.next[x := own]);
    forall a, l: nat | (a == s.head && l < MAX_HEIGHT) || t.On(a, l)
      ensures t.LinkOk(a, l)
    {
      assert s.LinkOk(a, l);
      SameFollows(s, t, a, s.next[a][l], l);
    }
  }

  lemma SameFollows(s: Snap, t: Snap, a: Node, n: Node?, l: nat)
    requires t.head == s.head && t.nodes == s.nodes && t.linked == s.linked
    ensures s.Follows(a, n, l) ==> t.Follows(a, n, l)
  {
    assert forall b :: b in s.nodes ==> (s.On(b, l) <==> t.On(b, l));
  }

  lemma SamePrev(s: Snap, t: Snap, q: Node, l: nat, k: IKey)
    requires t.head == s.head && t.nodes == s.nodes && t.linked == s.linked
    ensures s.IsPrev(q, l, k) ==> t.IsPrev(q, l, k)
  {
    assert forall b :: b in s.nodes ==> (s.On(b, l) <==> t.On(b, l));
  }

  // ----- The list -----

  class SkipList {
    const head: Node
    var maxHeight: nat
    ghost var nodes: set<Node> // linked on the lowest level at least

    ghost function View(): Snap
      reads this, head, nodes
    {
      Snap(head, nodes, map n | n in nodes + {head} :: n.next, map n | n in nodes + {head} :: n.linked)
    }

    ghost predicate Valid()
      reads this, head, nodes
    {
      View().Ok() && 1 <= maxHeight <= MAX_HEIGHT && forall a :: a in nodes ==> a.linked <= maxHeight
    }

    ghost function Entries(): set<Entry>
      reads this
    {
      set n | n in nodes :: n.entry
    }

    constructor ()
      ensures Valid() && nodes == {} && fresh(head)
    {
      head := new Node(Entry(IKey(0.0, 0, Deletion), []), MAX_HEIGHT);
      maxHeight := 1;
      nodes := {};
      new;
      head.linked := MAX_HEIGHT;
      assert forall l: nat :: l < MAX_HEIGHT ==> View().LinkOk(head, l);
    }

    /** Read one link and decide: go right, go down or stop. The list may have changed since the
        last step; when the search stops, the node read is the first at or after `k` in the list as it
        is then. */
    method SearchStep(k: IKey, x: Node, level: nat) returns (x': Node, level': nat, done: bool, n: Node?)
      requires Valid() && View().Stand(x, level, k) && level < MAX_HEIGHT
      ensures View().Stand(x', level', k)
      ensures done ==> level == level' == 0 && x' == x && View().IsFirst(n, k)
      ensures !done && x' != x ==> level' == level && View().Ahead(x') < View().Ahead(x)
      ensures !done && x' == x ==> level' + 1 == level
      ensures x' == x ==> View().IsPrev(x, level, k)
      ensures ReaderStep(View(), k, Searching(x, level), if done then Found(n) else Searching(x', level'))
    {
      hide Snap.Ok, Snap.Follows, Snap.IsFirst, Snap.IsPrev;
      ghost var s := View();
      LinkAt(s, x, level, k);
      var next := x.next[level];
      assert s.next[x] == x.next;
      OkMeansWhole(s);
      if next != null && Compare(next.entry.key, k) < 0 {
        // keep searching on this level
        FewerAhead(s, x, next, level);
        FollowsOn(s, x, next, level);
        return next, level, false, null;
      }
      PrevHere(s, x, next, level, k);
      if level == 0 {
        FirstAfterPrev(s, x, next, k);
        return x, 0, true, next;
      }
      return x, level - 1, false, null;
    }

    /** The first node at or after `k`, and on each level in use the last node before it. */
    method FindGreaterOrEqual(k: IKey) returns (n: Node?, prev: seq<Node>)
      requires Valid()
      ensures View().IsFirst(n, k) && |prev| == MAX_HEIGHT
      ensures forall l :: 0 <= l < maxHeight ==> View().IsPrev(prev[l], l, k)
      ensures forall l :: maxHeight <= l < MAX_HEIGHT ==> prev[l] == head
    {
      hide Snap.Ok, Snap.IsFirst, Snap.IsPrev;
      var x := head;
      var level: nat := maxHeight - 1;
      prev := seq(MAX_HEIGHT, _ => head);
      while true
        invariant level < maxHeight && View().Stand(x, level, k) && |prev| == MAX_HEIGHT
        invariant forall l :: level < l < maxHeight ==> View().IsPrev(prev[l], l, k)
        invariant forall l :: maxHeight <= l < MAX_HEIGHT ==> prev[l] == head
        decreases level, View().Ahead(x)
      {
        var x', level', done, found := SearchStep(k, x, level);
        if x' == x {
          prev := prev[level := x];
        }
        if done {
          return found, prev;
        }
        x, level := x', level';
      }
    }

    /** The last node before `k`, or the head. */
    method FindLessThan(k: IKey) returns (x: Node)
      requires Valid()
      ensures View().IsPrev(x, 0, k)
    {
      hide Snap.Ok, Snap.IsFirst, Snap.IsPrev;
      x := head;
      var level: nat := maxHeight - 1;
      while true
        invariant level < maxHeight && View().Stand(x, level, k)
        decreases level, View().Ahead(x)
      {
        var x', level', done, found := SearchStep(k, x, level);
        if done {
          return x;
        }
        x, level := x', level';
      }
    }

    /** The last node, or the head of an empty list. */
    method FindLast() returns (x: Node)
      requires Valid()
      ensures x == head || x in nodes
      ensures forall b :: b in nodes ==> !View().After(x, b.entry.key)
    {
      hide Snap.Follows;
      x := head;
      var level: nat := maxHeight - 1;
      while true
        invariant level < maxHeight && (x == head || View().On(x, level))
        decreases level, View().Ahead(x)
      {
        ghost var s := View();
        assert s.LinkOk(x, level);
        var next := x.next[level];
        assert s.next[x] == x.next;
        if next == null {
          if level == 0 {
            NothingBehind(s, x);
            return x;
          }
          level := level - 1;
        } else {
          FewerAhead(s, x, next, level);
          FollowsOn(s, x, next, level);
          x := next;
        }
      }
    }

    lemma NothingBehind(s: Snap, x: Node)
      requires s.Whole() && s.Follows(x, null, 0)
      ensures forall b :: b in s.nodes ==> !s.After(x, b.entry.key)
    {
      forall b | b in s.nodes
        ensures s.On(b, 0)
      {
      }
    }

    // ----- Inserting -----

    /** A node on its way into the list: linked on levels below `i`, the last nodes before it known
        from level `i` on. */
    ghost predicate Joining(x: Node, i: nat, prev: seq<Node>)
      reads this, head, nodes, x
    {
      && x != head && x.linked == i <= |x.next| <= maxHeight <= MAX_HEIGHT == |prev|
      && (if i == 0 then x !in nodes && (forall b :: b in nodes ==> b.entry.key != x.entry.key) else x in nodes)
      && (forall l :: i <= l < |x.next| ==> View().IsPrev(prev[l], l, x.entry.key))
    }

    /** First write of a level: the new node's own link, which no reader follows yet. */
    method SetOwnLink(x: Node, i: nat, prev: seq<Node>)
      requires Valid() && Joining(x, i, prev) && i < |x.next|
      modifies x`next
      ensures Valid() && Joining(x, i, prev)
      ensures i < |prev[i].next| && x.next == old(x.next)[i := prev[i].next[i]]
      ensures WriterStep(old(View()), View(), OwnTurn(x, i, x.next[i]))
    {
      hide Snap.Ok, Snap.IsPrev, View;
      ghost var s := View();
      var p: Node := prev[i];
      PrevHasLink(s, p, i, x.entry.key);
      ViewOf(p);
      ViewOf(x);
      WriteOwn(x, i, p, s);
      ghost var t := View();
      if i > 0 {
        WholeHeight(s, x);
        OwnLinkKeepsOk(s, x, i, x.next);
      }
      forall l | i <= l < |x.next|
        ensures t.IsPrev(prev[l], l, x.entry.key)
      {
        SamePrev(s, t, prev[l], l, x.entry.key);
      }
    }

    lemma ViewOf(a: Node)
      ensures View().head == head && View().nodes == nodes
      ensures forall b :: b in View().next <==> b == head || b in nodes
      ensures a == head || a in nodes ==> View().next[a] == a.next && View().linked[a] == a.linked
    {
    }

    method WriteOwn(x: Node, i: nat, p: Node, ghost s: Snap)
      requires s == View() && i < |x.next| && x != head && (p == head || p in nodes) && i < |p.next|
      modifies x`next
      ensures x.next == old(x.next)[i := old(p.next)[i]] && p.next[i] == old(p.next)[i] && |p.next| == |old(p.next)|
      ensures View() == if x in nodes then s.(next := s.next[x := x.next]) else s
    {
      x.next := x.next[i := p.next[i]];
    }

    lemma PrevHasLink(s: Snap, p: Node, i: nat, k: IKey)
      requires s.Ok() && s.IsPrev(p, i, k) && i < MAX_HEIGHT
      ensures p in s.next && i < |s.next[p]| && (p == s.head || p in s.nodes) && s.Whole()
    {
      PrevLinked(s, p, i, k);
    }

    lemma WholeHeight(s: Snap, x: Node)
      requires s.Ok() && x in s.nodes
      ensures x in s.next && x in s.linked && s.linked[x] <= |s.next[x]|
    {
    }

    /** Second write of a level: the link of the node before. With it the node is in the list on this
        level, and the list is whole again at once. */
    method SetPrevLink(x: Node, i: nat, prev: seq<Node>)
      requires Valid() && Joining(x, i, prev) && i < |x.next|
      requires i < |prev[i].next| && x.next[i] == prev[i].next[i]
      modifies this`nodes, prev[i], x
      ensures Valid() && Joining(x, i + 1, prev) && nodes == old(nodes) + {x} && x.next == old(x.next)
      ensures WriterStep(old(View()), View(), LinkTurn(x, i, prev[i], x.next))
    {
      hide Snap.Ok, Snap.IsPrev, Snap.Whole, Snap.On, LinkedIn, View;
      ghost var s := View();
      var p: Node := prev[i];
      MayLink(x, i, prev);
      WriteLink(x, i, p, s);
      ghost var t := View();
      LinkingKeepsOk(s, t, x, i, p, x.next);
      PrevsStay(s, t, x, i, p, x.next, prev);
    }

    method WriteLink(x: Node, i: nat, p: Node, ghost s: Snap)
      requires s == View() && CanLink(s, x, i, p, x.next)
      modifies this`nodes, p, x
      ensures nodes == old(nodes) + {x} && x.next == old(x.next) && x.linked == i + 1 && p.linked == old(p.linked)
      ensures LinkedIn(s, View(), x, i, p, x.next)
    {
      p.next := p.next[i := x];
      x.linked := i + 1;
      nodes := nodes + {x};
    }

    lemma MayLink(x: Node, i: nat, prev: seq<Node>)
      requires Valid() && Joining(x, i, prev) && i < |x.next|
      requires i < |prev[i].next| && x.next[i] == prev[i].next[i]
      ensures CanLink(View(), x, i, prev[i], x.next) && View().Ok() && View().IsPrev(prev[i], i, x.entry.key)
      ensures forall l :: i <= l < |x.next| ==> View().IsPrev(prev[l], l, x.entry.key)
      ensures forall b :: b in nodes && b.entry.key == x.entry.key ==> b == x
    {
      hide Snap.Ok;
      PrevHasLink(View(), prev[i], i, x.entry.key);
      NotItself(View(), prev[i], i, x);
    }

    lemma PrevsStay(s: Snap, t: Snap, x: Node, i: nat, p: Node, own: seq<Node?>, prev: seq<Node>)
      requires LinkedIn(s, t, x, i, p, own) && |own| <= |prev|
      requires forall l :: i <= l < |own| ==> s.IsPrev(prev[l], l, x.entry.key)
      ensures forall l :: i + 1 <= l < |own| ==> t.IsPrev(prev[l], l, x.entry.key)
    {
      hide Snap.IsPrev, LinkedIn;
      forall l | i + 1 <= l < |own|
        ensures t.IsPrev(prev[l], l, x.entry.key)
      {
        PrevStays(s, t, x, i, p, own, prev[l], l);
      }
    }

    lemma NotItself(s: Snap, p: Node, i: nat, x: Node)
      requires s.IsPrev(p, i, x.entry.key) && x != s.head
      ensures p != x
    {
    }

    /** Link in a node of the given height (the source draws it at random), level by level: two
        writes a level, and `ss` is the list before the first and after each. */
    method Insert(e: Entry, height: nat) returns (ghost x: Node, ghost ss: seq<Snap>, ghost turns: seq<Turn>)
      requires Valid() && 1 <= height <= MAX_HEIGHT
      requires forall n :: n in nodes ==> n.entry.key != e.key
      modifies this, head, nodes
      ensures Valid() && nodes == old(nodes) + {x} && fresh(x) && x.entry == e
      ensures Writes(ss, turns) && |turns| == 2 * height && ss[0] == old(View()) && ss[|turns|] == View()
    {
      hide Valid, View, WriterStep;
      var node, prev := NewNode(e, height);
      x := node;
      ghost var before := nodes;
      ss, turns := [View()], [];
      var i := 0;
      while i < height
        invariant i <= height == |node.next| && Valid() && Joining(node, i, prev) && fresh(node)
        invariant nodes == if i == 0 then before else before + {node}
        invariant forall l :: i <= l < height ==> prev[l] == head || prev[l] in before
        invariant Writes(ss, turns) && |turns| == 2 * i && ss[0] == old(View()) && ss[|turns|] == View()
      {
        SetOwnLink(node, i, prev);
        ss, turns := ss + [View()], turns + [OwnTurn(node, i, node.next[i])];
        SetPrevLink(node, i, prev);
        ss, turns := ss + [View()], turns + [LinkTurn(node, i, prev[i], node.next)];
        i := i + 1;
      }
    }

    /** A node that is on no level yet, and the nodes before its place. */
    method NewNode(e: Entry, height: nat) returns (node: Node, prev: seq<Node>)
      requires Valid() && 1 <= height <= MAX_HEIGHT
      requires forall n :: n in nodes ==> n.entry.key != e.key
      modifies this`maxHeight
      ensures View() == old(View())
      ensures Valid() && fresh(node) && node.entry == e && |node.next| == height && Joining(node, 0, prev)
      ensures forall l :: 0 <= l < height ==> prev[l] == head || prev[l] in nodes
    {
      hide Snap.Ok, Snap.IsPrev, Snap.IsFirst;
      var n;
      n, prev := FindGreaterOrEqual(e.key);
      HighLevelsEmpty(e.key);
      PrevsInList(e.key, prev);
      ghost var s := View();
      if height > maxHeight {
        // on the new levels the node before is the head
        maxHeight := height;
      }
      assert View() == s;
      node := new Node(e, height);
      assert View() == s;
    }

    lemma PrevsInList(k: IKey, prev: seq<Node>)
      requires |prev| == MAX_HEIGHT && 1 <= maxHeight <= MAX_HEIGHT
      requires forall l :: 0 <= l < maxHeight ==> View().IsPrev(prev[l], l, k)
      requires forall l :: maxHeight <= l < MAX_HEIGHT ==> prev[l] == head
      ensures forall l :: 0 <= l < MAX_HEIGHT ==> prev[l] == head || prev[l] in nodes
    {
      forall l | 0 <= l < maxHeight
        ensures prev[l] == head || prev[l] in nodes
      {
        assert View().IsPrev(prev[l], l, k);
      }
    }

    /** Above the height of the list there is nothing, so the head is before any key. */
    lemma HighLevelsEmpty(k: IKey)
      requires Valid()
      ensures forall l: nat :: l >= maxHeight ==> View().IsPrev(head, l, k)
      ensures head !in nodes
    {
      forall l: nat, b | l >= maxHeight && b in nodes
        ensures !View().On(b, l)
      {
      }
    }

    method Contains(k: IKey) returns (r: bool)
      requires Valid()
      ensures r <==> exists n :: n in nodes && n.entry.key == k
    {
      var n, prev := FindGreaterOrEqual(k);
      r := n != null && Compare(k, n.entry.key) == 0;
      if r {
        CompareIsTotalOrder(k, n.entry.key, k);
        assert n in nodes && n.entry.key == k;
      } else {
        forall m | m in nodes && m.entry.key == k
          ensures false
        {
          CompareIsTotalOrder(k, n.entry.key, k);
        }
      }
    }
  }

  /** An iterator over the lowest level. There are no links back: going back is a search. */
  class Iterator {
    const list: SkipList
    var node: Node?

    constructor (l: SkipList)
      ensures list == l && node == null
    {
      list, node := l, null;
    }

    method Next()
      requires list.Valid() && node != null && node in list.nodes
      modifies this
      ensures list.View().Follows(old(node), node, 0)
    {
      hide Snap.Follows;
      assert list.View().LinkOk(node, 0);
      assert list.View().next[node] == node.next;
      node := node.next[0];
    }

    method Prev()
      requires list.Valid() && node != null && node in list.nodes
      modifies this
      ensures var k := old(node).entry.key;
              if node == null then forall b :: b in list.nodes ==> !Before(b.entry.key, k)
              else node in list.nodes && list.View().Follows(node, old(node), 0)
    {
      var x := list.FindLessThan(node.entry.key);
      if x == list.head {
        node := null;
      } else {
        PrevFollows(list.View(), x, node);
        node := x;
      }
    }

    lemma PrevFollows(s: Snap, x: Node, n: Node)
      requires s.Whole() && n in s.nodes && s.IsPrev(x, 0, n.entry.key) && x != s.head
      ensures s.Follows(x, n, 0) && x in s.nodes
    {
      forall b | b in s.nodes
        ensures s.On(b, 0)
      {
      }
    }

    method Seek(target: IKey)
      requires list.Valid()
      modifies this
      ensures list.View().IsFirst(node, target)
    {
      hide Snap.Ok, Snap.IsFirst;
      var n, prev := list.FindGreaterOrEqual(target);
      node := n;
    }

    method SeekToFirst()
      requires list.Valid()
      modifies this
      ensures list.View().Follows(list.head, node, 0)
    {
      hide Snap.Follows;
      assert list.View().LinkOk(list.head, 0);
      assert list.View().next[list.head] == list.head.next;
      node := list.head.next[0];
    }

    method SeekToLast()
      requires list.Valid()
      modifies this
      ensures if node == null then list.nodes == {}
              else node in list.nodes && forall b :: b in list.nodes ==> !Before(node.entry.key, b.entry.key)
    {
      hide Snap.Ok;
      var x := list.FindLast();
      node := if x == list.head then null else x;
    }
  }

  // ----- Memtables -----

  class MemTable {
    const table: SkipList

    constructor ()
      ensures table.Valid() && table.nodes == {} && fresh(table) && fresh(table.head)
    {
      table := new SkipList();
    }

    method Add(s: nat, kind: ValueType, user: UserKey, value: Bytes, height: nat)
      requires table.Valid() && 1 <= height <= MAX_HEIGHT
      requires forall n :: n in table.nodes ==> n.entry.key != IKey(user, s, kind)
      modifies table, table.head, table.nodes
      ensures table.Valid() && table.Entries() == old(table.Entries()) + {Entry(IKey(user, s, kind), value)}
      ensures fresh(table.nodes - old(table.nodes))
    {
      ghost var x, ss, turns := table.Insert(Entry(IKey(user, s, kind), value), height);
    }

    /** The newest entry for a user key at or below a sequence number: its value, or that it is a
        deletion; or that there is none here. */
    method Get(user: UserKey, s: nat) returns (found: bool, value: Option<Bytes>)
      requires table.Valid()
      ensures found <==> exists e :: e in table.Entries() && Visible(e, user, s)
      ensures found ==> Reads(table.Entries(), user, s, value)
      ensures !found ==> Reads(table.Entries(), user, s, None)
    {
      hide SkipList.Valid, Snap.Ok;
      var n, prev := table.FindGreaterOrEqual(SeekKey(user, s));
      ghost var es := table.Entries();
      if n != null && n.entry.key.user == user {
        assert n.entry in es && IsNewest(es, user, s, Some(n.entry));
        return true, if n.entry.key.kind.Value? then Some(n.entry.value) else None;
      }
      assert IsNewest(es, user, s, None);
      return false, None;
    }
  }
}
