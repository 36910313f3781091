/** The bytewise comparator, the internal key comparator over it, and the short keys they find to
    tell blocks apart. */
module Comparators {
  import opened Keys
  import opened Coding
  import opened Blocks

  // ----- Encoded internal keys -----

  /** A user key followed by its packed sequence number and type. */
  predicate IsInternal(k: Bytes) {
    |k| >= 8
  }

  function UserPart(k: Bytes): Bytes
    requires IsInternal(k)
  {
    k[..|k| - 8]
  }

  function TagPart(k: Bytes): Word64
    requires IsInternal(k)
  {
    DecodeFixed64(k[|k| - 8..])
  }

  /** The largest tag there is: the highest sequence number, and the type searches use. */
  const MAX_TAG: Word64 := MAX_SEQUENCE * 256 + 1

  /** User keys rising, then tags falling. */
  predicate InternalBefore(a: Bytes, b: Bytes)
    requires IsInternal(a) && IsInternal(b)
  {
    BytesBefore(UserPart(a), UserPart(b)) || (UserPart(a) == UserPart(b) && TagPart(a) > TagPart(b))
  }

  /** The rank of a byte string followed by a tail that lies in [0, 1). */
  function RankWithTail(user: Bytes, tail: real): (r: real)
    requires 0.0 <= tail < 1.0
    ensures 0.0 <= r < 1.0
    ensures user == [] <==> r < 1.0 / 257.0
  {
    if user == [] then tail / 257.0 else (user[0] as real + 1.0 + RankWithTail(user[1..], tail)) / 257.0
  }

  lemma {:induction false} RankWithTailOrders(a: Bytes, ta: real, b: Bytes, tb: real)
    requires 0.0 <= ta < 1.0 && 0.0 <= tb < 1.0
    ensures RankWithTail(a, ta) < RankWithTail(b, tb) <==> BytesBefore(a, b) || (a == b && ta < tb)
  {
    if a != [] && b != [] {
      RankWithTailOrders(a[1..], ta, b[1..], tb);
      if a[0] < b[0] {
        assert a[0] as real + 1.0 <= b[0] as real;
      } else if b[0] < a[0] {
        assert b[0] as real + 1.0 <= a[0] as real;
      } else {
        assert a == [a[0]] + a[1..] && b == [b[0]] + b[1..];
      }
    }
  }

  function TagTail(tag: Word64): (t: real)
    ensures 0.0 <= t < 1.0
  {
    (WORD64 - 1 - tag) as real / WORD64 as real
  }

  /** The internal key comparator as a rank of byte strings. */
  function InternalRank(k: Bytes): (r: real) {
    if IsInternal(k) then RankWithTail(UserPart(k), TagTail(TagPart(k))) else -1.0
  }

  /** The rank orders encoded keys as the comparator does. */
  lemma InternalRankEmbeds(a: Bytes, b: Bytes)
    requires IsInternal(a) && IsInternal(b)
    ensures InternalRank(a) < InternalRank(b) <==> InternalBefore(a, b)
  {
    RankWithTailOrders(UserPart(a), TagTail(TagPart(a)), UserPart(b), TagTail(TagPart(b)));
    TailsOrder(TagPart(a), TagPart(b));
  }

  lemma TailsOrder(s: Word64, t: Word64)
    ensures TagTail(s) < TagTail(t) <==> s > t
  {
    var x, y := (WORD64 - 1 - s) as real, (WORD64 - 1 - t) as real;
    assert x < y <==> s > t;
  }

  /** The comparator itself: negative, zero or positive. */
  method Compare(a: Bytes, b: Bytes) returns (r: int)
    requires IsInternal(a) && IsInternal(b)
    ensures r < 0 <==> InternalRank(a) < InternalRank(b)
    ensures r > 0 <==> InternalRank(b) < InternalRank(a)
    ensures r == 0 <==> UserPart(a) == UserPart(b) && TagPart(a) == TagPart(b)
  {
    hide InternalRank, BytesBefore, DecodeFixed64;
    InternalRankEmbeds(a, b);
    InternalRankEmbeds(b, a);
    BytesOrder(UserPart(a), UserPart(b), []);
    r := if BytesBefore(UserPart(a), UserPart(b)) then -1 else if BytesBefore(UserPart(b), UserPart(a)) then 1 else 0;
    if r == 0 {
      var x, y := DecodeFixed64(a[|a| - 8..]), DecodeFixed64(b[|b| - 8..]);
      if x > y {
        r := -1;
      } else if x < y {
        r := 1;
      }
    }
  }

  /** The bytewise order is total and transitive. */
  lemma BytesOrder(a: Bytes, b: Bytes, c: Bytes)
    ensures !(BytesBefore(a, b) && BytesBefore(b, a))
    ensures BytesBefore(a, b) || BytesBefore(b, a) || a == b
    ensures BytesBefore(a, b) && BytesBefore(b, c) ==> BytesBefore(a, c)
    ensures !BytesBefore(a, a)
  {
    BytewiseRankEmbeds(a, b);
    BytewiseRankEmbeds(b, a);
    BytewiseRankEmbeds(b, c);
    BytewiseRankEmbeds(a, c);
    BytewiseRankEmbeds(a, a);
  }

  // ----- Short separators of user keys -----

  function Separator(start: Bytes, limit: Bytes): Bytes {
    var d := Common(start, limit);
    if d < |start| && d < |limit| && start[d] < 255 && start[d] + 1 < limit[d] then start[..d] + [start[d] + 1] else start
  }

  function Successor(key: Bytes): Bytes {
    if key == [] then key
    else if key[0] != 255 then [key[0] + 1]
    else if Successor(key[1..]) == key[1..] then key
    else [key[0]] + Successor(key[1..])
  }

  lemma {:induction false} SamePrefix(p: Bytes, a: Bytes, b: Bytes)
    ensures BytesBefore(p + a, p + b) <==> BytesBefore(a, b)
  {
    if p == [] {
      assert p + a == a && p + b == b;
    } else {
      assert (p + a)[1..] == p[1..] + a && (p + b)[1..] == p[1..] + b;
      SamePrefix(p[1..], a, b);
    }
  }

  /** The separator is `start`, or shorter or as long, and strictly between `start` and `limit`. */
  lemma SeparatorBetween(start: Bytes, limit: Bytes)
    ensures var s := Separator(start, limit);
            s == start || (|s| <= |start| && BytesBefore(start, s) && BytesBefore(s, limit))
  {
    var s, d := Separator(start, limit), Common(start, limit);
    if s != start {
      var p := start[..d];
      assert start == p + start[d..] && limit == p + limit[d..] && s == p + [start[d] + 1];
      SamePrefix(p, start[d..], [start[d] + 1]);
      SamePrefix(p, [start[d] + 1], limit[d..]);
    }
  }

  lemma {:induction false} SuccessorAfter(key: Bytes)
    ensures var s := Successor(key); s == key || (|s| <= |key| && BytesBefore(key, s))
  {
    if key != [] && key[0] == 255 {
      SuccessorAfter(key[1..]);
      var s := Successor(key[1..]);
      if s != key[1..] {
        assert ([key[0]] + s)[1..] == s;
      }
    }
  }

  /** Shorten a user key in place, staying below `limit`. */
  method FindShortestSeparator(start: Bytes, limit: Bytes) returns (s: Bytes)
    ensures s == Separator(start, limit)
  {
    var minLength := if |start| < |limit| then |start| else |limit|;
    var diff := 0;
    assert start[0..] == start && limit[0..] == limit;
    while diff < minLength && start[diff] == limit[diff]
      invariant diff <= minLength
      invariant Common(start, limit) == diff + Common(start[diff..], limit[diff..])
    {
      assert start[diff..][1..] == start[diff + 1..] && limit[diff..][1..] == limit[diff + 1..];
      diff := diff + 1;
    }
    s := start;
    if diff < minLength {
      var byte := start[diff];
      if byte < 255 && byte + 1 < limit[diff] {
        s := s[diff := byte + 1];
        s := s[..diff + 1];
      }
    }
  }

  /** Shorten a user key to one at or after it. */
  method FindShortSuccessor(key: Bytes) returns (s: Bytes)
    ensures s == Successor(key)
  {
    hide Successor;
    s := key;
    assert key[0..] == key;
    for i := 0 to |key|
      invariant s == key
      invariant Successor(key) == (if Successor(key[i..]) == key[i..] then key else key[..i] + Successor(key[i..]))
    {
      SuccessorUnfolds(key, i);
      var byte := key[i];
      if byte != 255 {
        s := s[i := byte + 1];
        s := s[..i + 1];
        assert s == key[..i] + [byte + 1];
        return;
      }
    }
    SuccessorOfNone(key);
  }

  lemma SuccessorOfNone(key: Bytes)
    ensures Successor(key[|key|..]) == key[|key|..]
  {
  }

  /** The successor of what is left of a key, by its first byte. */
  lemma SuccessorUnfolds(key: Bytes, i: nat)
    requires i < |key|
    ensures var rest, more := key[i..], key[i + 1..];
            && (key[i] != 255 ==> Successor(rest) == [key[i] + 1] && rest != [key[i] + 1])
            && (key[i] == 255 ==> (Successor(rest) == rest <==> Successor(more) == more))
            && (key[i] == 255 && Successor(more) != more ==> key[..i] + Successor(rest) == key[..i + 1] + Successor(more))
  {
    assert key[i..][1..] == key[i + 1..];
    assert key[..i + 1] == key[..i] + [key[i]];
    assert key[i..] == [key[i]] + key[i + 1..];
  }

  // ----- Short separators of internal keys -----

  function Tagged(user: Bytes, tag: Word64): (k: Bytes)
    ensures IsInternal(k) && UserPart(k) == user && TagPart(k) == tag
  {
    var t := EncodeFixed64(tag);
    assert (user + t)[|user|..] == t;
    user + t
  }

  function InternalSeparator(start: Bytes, limit: Bytes): (s: Bytes)
    requires IsInternal(start) && IsInternal(limit)
    ensures IsInternal(s)
  {
    var tmp := Separator(UserPart(start), UserPart(limit));
    if |tmp| < |UserPart(start)| && BytesBefore(UserPart(start), tmp) then Tagged(tmp, MAX_TAG) else start
  }

  function InternalSuccessor(key: Bytes): (s: Bytes)
    requires IsInternal(key)
    ensures IsInternal(s)
  {
    var tmp := Successor(UserPart(key));
    if |tmp| < |UserPart(key)| && BytesBefore(UserPart(key), tmp) then Tagged(tmp, MAX_TAG) else key
  }

  /** An index key `s` between two adjacent keys of a table: not before the one, before the other,
      and, unless it is the first key itself, with neither's user key. */
  lemma InternalSeparatorBetween(start: Bytes, limit: Bytes)
    requires IsInternal(start) && IsInternal(limit) && InternalRank(start) < InternalRank(limit)
    ensures var s := InternalSeparator(start, limit);
            && InternalRank(start) <= InternalRank(s) < InternalRank(limit)
            && (s == start || (BytesBefore(UserPart(start), UserPart(s)) && BytesBefore(UserPart(s), UserPart(limit))))
  {
    hide InternalRank, BytesBefore, Separator, DecodeFixed64;
    SeparatorBetween(UserPart(start), UserPart(limit));
    var s := InternalSeparator(start, limit);
    InternalRankEmbeds(start, s);
    InternalRankEmbeds(s, limit);
    BytesOrder(UserPart(start), UserPart(start), []);
  }

  lemma InternalSuccessorAfter(key: Bytes)
    requires IsInternal(key)
    ensures var s := InternalSuccessor(key);
            InternalRank(key) <= InternalRank(s) && (s == key || BytesBefore(UserPart(key), UserPart(s)))
  {
    hide InternalRank, BytesBefore, Successor, DecodeFixed64;
    SuccessorAfter(UserPart(key));
    InternalRankEmbeds(key, InternalSuccessor(key));
  }

  method FindShortestInternalSeparator(start: Bytes, limit: Bytes) returns (s: Bytes)
    requires IsInternal(start) && IsInternal(limit)
    ensures s == InternalSeparator(start, limit)
  {
    hide Separator, BytesBefore;
    var userStart := UserPart(start);
    var tmp := FindShortestSeparator(userStart, UserPart(limit));
    s := start;
    if |tmp| < |userStart| && BytesBefore(userStart, tmp) {
      // shorter, but later: give it the earliest position among keys of its own
      s := tmp + EncodeFixed64(MAX_TAG);
    }
  }

  method FindShortInternalSuccessor(key: Bytes) returns (s: Bytes)
    requires IsInternal(key)
    ensures s == InternalSuccessor(key)
  {
    hide Successor, BytesBefore;
    var userKey := UserPart(key);
    var tmp := FindShortSuccessor(userKey);
    s := key;
    if |tmp| < |userKey| && BytesBefore(userKey, tmp) {
      s := tmp + EncodeFixed64(MAX_TAG);
    }
  }
}
