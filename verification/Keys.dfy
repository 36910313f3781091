/** Internal keys of the store: a user key, a sequence number and a value type, and the order
    the comparator gives them.

    The store works for any user comparator, so a user key is modelled by its rank in that
    order. Every total order on countably many keys embeds in the reals, and `BytewiseRank`
    shows the embedding for the default bytewise comparator; nothing below uses more of a user
    key than comparison. */
module Keys {

  type Byte = x: int | 0 <= x < 256
  type Bytes = seq<Byte>
  type UserKey = real

  const MAX_SEQUENCE: nat := 0x100_0000_0000_0000 - 1

  datatype Option<+T> = None | Some(value: T)

  datatype ValueType = Deletion | Value

  /** Sequence number and type packed as the trailing fixed64 of an encoded internal key. */
  datatype IKey = IKey(user: UserKey, sn: nat, kind: ValueType) {
    function Tag(): nat {
      sn * 256 + if kind.Value? then 1 else 0
    }
  }

  datatype Entry = Entry(key: IKey, value: Bytes)

  /** Negative, zero or positive, as the comparator's Compare. */
  function Compare(a: IKey, b: IKey): int {
    if a.user < b.user then -1
    else if a.user > b.user then 1
    else if a.Tag() > b.Tag() then -1
    else if a.Tag() < b.Tag() then 1
    else 0
  }

  predicate Before(a: IKey, b: IKey) {
    Compare(a, b) < 0
  }

  /** The internal key at which a search for `user` as of sequence number `s` starts. */
  function SeekKey(user: UserKey, s: nat): IKey {
    IKey(user, s, Value)
  }

  /** Sorted by internal key, with no (user key, sequence number) pair twice: a write gives
      every entry a sequence number of its own. */
  predicate Sorted(es: seq<Entry>) {
    forall i, j :: 0 <= i < j < |es| ==> Precedes(es[i].key, es[j].key)
  }

  predicate Precedes(a: IKey, b: IKey) {
    a.user < b.user || (a.user == b.user && a.sn > b.sn)
  }

  lemma CompareIsTotalOrder(a: IKey, b: IKey, c: IKey)
    ensures Compare(a, b) == -Compare(b, a)
    ensures Compare(a, b) == 0 <==> a == b
    ensures Compare(a, b) <= 0 && Compare(b, c) <= 0 ==> Compare(a, c) <= 0
    ensures Precedes(a, b) ==> Before(a, b)
  {
  }

  // ----- What a reader sees -----

  predicate Visible(e: Entry, user: UserKey, s: nat) {
    e.key.user == user && e.key.sn <= s
  }

  /** `r` is the newest entry of `es` for `user` at or below sequence number `s`. */
  ghost predicate IsNewest(es: set<Entry>, user: UserKey, s: nat, r: Option<Entry>) {
    match r
    case None => forall e :: e in es ==> !Visible(e, user, s)
    case Some(n) => n in es && Visible(n, user, s) &&
                    forall e :: e in es && Visible(e, user, s) ==> e.key.sn <= n.key.sn
  }

  /** What a read reports of the newest entry: its value, or nothing when the entry is a
      deletion or there is none. */
  function Shows(r: Option<Entry>): Option<Bytes> {
    if r.Some? && r.value.key.kind.Value? then Some(r.value.value) else None
  }

  /** Reading `user` at `s` from the entries `es` gives `v`. */
  ghost predicate Reads(es: set<Entry>, user: UserKey, s: nat, v: Option<Bytes>) {
    exists r :: IsNewest(es, user, s, r) && Shows(r) == v
  }

  /** No two entries share user key and sequence number. */
  ghost predicate Unique(es: set<Entry>) {
    forall a, b :: a in es && b in es && a.key.user == b.key.user && a.key.sn == b.key.sn ==> a == b
  }

  function ToSet<T(==)>(s: seq<T>): set<T> {
    set x | x in s
  }

  lemma NewestExists(es: set<Entry>, user: UserKey, s: nat) returns (r: Option<Entry>)
    ensures IsNewest(es, user, s, r)
  {
    r := None;
    var rest := es;
    while rest != {}
      invariant rest <= es
      invariant IsNewest(es - rest, user, s, r)
      decreases rest
    {
      var e :| e in rest;
      rest := rest - {e};
      assert es - rest == (es - (rest + {e})) + {e};
      if Visible(e, user, s) && (r.None? || r.value.key.sn < e.key.sn) {
        r := Some(e);
      }
    }
    assert es - rest == es;
  }

  /** A read has exactly one answer. */
  lemma ReadsIsFunctional(es: set<Entry>, user: UserKey, s: nat)
    requires Unique(es)
    ensures exists v :: Reads(es, user, s, v)
    ensures forall v, w :: Reads(es, user, s, v) && Reads(es, user, s, w) ==> v == w
  {
    var r := NewestExists(es, user, s);
    assert Reads(es, user, s, Shows(r));
  }

  /** A list of lists, joined. */
  function Joined<T>(parts: seq<seq<T>>): seq<T> {
    if parts == [] then [] else Joined(parts[..|parts| - 1]) + parts[|parts| - 1]
  }

  lemma JoinedOne<T>(parts: seq<seq<T>>, part: seq<T>)
    ensures Joined(parts + [part]) == Joined(parts) + part
  {
    assert (parts + [part])[..|parts|] == parts;
  }

  /** Where the first `i` parts end in the joined list. */
  function End<T>(parts: seq<seq<T>>, i: nat): nat
    requires i <= |parts|
  {
    |Joined(parts[..i])|
  }

  lemma {:induction false} EndIsPrefix<T>(parts: seq<seq<T>>, i: nat, j: nat)
    requires i <= j <= |parts|
    ensures Joined(parts[..i]) <= Joined(parts[..j])
    decreases j - i
  {
    if i < j {
      assert parts[..j][..j - 1] == parts[..j - 1];
      EndIsPrefix(parts, i, j - 1);
    }
  }

  /** Part `b` is the stretch of the joined list from its start to its end. */
  lemma PartIsStretch<T>(parts: seq<seq<T>>, b: nat)
    requires b < |parts|
    ensures End(parts, b + 1) == End(parts, b) + |parts[b]| <= |Joined(parts)|
    ensures Joined(parts)[End(parts, b)..End(parts, b + 1)] == parts[b]
  {
    assert parts[..b + 1][..b] == parts[..b] && parts[..|parts|] == parts;
    EndIsPrefix(parts, b + 1, |parts|);
  }

  // ----- Position of a key in a sorted list -----

  /** The index of the first entry at or after `target`. */
  function LowerBound(es: seq<Entry>, target: IKey): (i: nat)
    ensures i <= |es|
    ensures forall j :: 0 <= j < i ==> Before(es[j].key, target)
    ensures i < |es| ==> !Before(es[i].key, target)
  {
    if es == [] || !Before(es[0].key, target) then 0
    else 1 + LowerBound(es[1..], target)
  }

  /** In a sorted list the entry at the lower bound of a lookup key decides the lookup. */
  lemma LowerBoundIsNewest(es: seq<Entry>, user: UserKey, s: nat)
    requires Sorted(es)
    ensures var i := LowerBound(es, SeekKey(user, s));
            IsNewest(ToSet(es), user, s, if i < |es| && es[i].key.user == user then Some(es[i]) else None)
  {
    var i := LowerBound(es, SeekKey(user, s));
    forall e | e in ToSet(es) && Visible(e, user, s)
      ensures i < |es| && es[i].key.user == user && e.key.sn <= es[i].key.sn
    {
      var j :| 0 <= j < |es| && es[j] == e;
      assert !Before(e.key, SeekKey(user, s));
      assert i <= j;
    }
  }

  lemma LowerBoundUnique(es: seq<Entry>, target: IKey, k: nat)
    requires Sorted(es) && k <= |es|
    requires forall j :: 0 <= j < k ==> Before(es[j].key, target)
    requires k < |es| ==> !Before(es[k].key, target)
    ensures LowerBound(es, target) == k
  {
    assert !(k < LowerBound(es, target));
  }

  // ----- The default comparator -----

  /** Lexicographic comparison of byte strings, shorter first. */
  predicate BytesBefore(a: Bytes, b: Bytes) {
    if b == [] then false
    else if a == [] then true
    else if a[0] != b[0] then a[0] < b[0]
    else BytesBefore(a[1..], b[1..])
  }

  function BytewiseRank(a: Bytes): (r: UserKey)
    ensures 0.0 <= r < 1.0
    ensures a == [] <==> r == 0.0
  {
    if a == [] then 0.0 else (a[0] as real + 1.0 + BytewiseRank(a[1..])) / 257.0
  }

  /** Ranks order byte strings exactly as the bytewise comparator does. */
  lemma {:induction false} BytewiseRankEmbeds(a: Bytes, b: Bytes)
    ensures BytesBefore(a, b) <==> BytewiseRank(a) < BytewiseRank(b)
    ensures BytewiseRank(a) == BytewiseRank(b) ==> a == b
  {
    if a != [] && b != [] {
      BytewiseRankEmbeds(a[1..], b[1..]);
      if a[0] < b[0] {
        assert a[0] as real + 1.0 <= b[0] as real;
      } else if b[0] < a[0] {
        assert b[0] as real + 1.0 <= a[0] as real;
      } else if BytewiseRank(a) == BytewiseRank(b) {
        assert a == [a[0]] + a[1..] && b == [b[0]] + b[1..];
      }
    }
  }
}
