/** Integers and strings as bytes: fixed-width little-endian words, varints and length prefixes. */
module Coding {
  import opened Keys

  const WORD32: nat := 0x1_0000_0000
  const WORD64: nat := 0x1_0000_0000_0000_0000

  type Word32 = x: int | 0 <= x < 0x1_0000_0000
  type Word64 = x: int | 0 <= x < 0x1_0000_0000_0000_0000

  /** Bytes of zero. */
  function Zeros(n: nat): (z: Bytes)
    ensures |z| == n
  {
    seq(n, _ => 0)
  }

  // ----- Fixed-width words -----

  function EncodeFixed32(v: Word32): (b: Bytes)
    ensures |b| == 4 && DecodeFixed32(b) == v
  {
    var (w, x, y) := (v / 256, v / 256 / 256, v / 256 / 256 / 256);
    [v % 256, w % 256, x % 256, y]
  }

  function DecodeFixed32(b: Bytes): Word32
    requires |b| >= 4
  {
    b[0] as int + 0x100 * b[1] as int + 0x1_0000 * b[2] as int + 0x100_0000 * b[3] as int
  }

  function EncodeFixed64(v: Word64): (b: Bytes)
    ensures |b| == 8 && DecodeFixed64(b) == v
  {
    var lo, hi := EncodeFixed32(v % WORD32), EncodeFixed32(v / WORD32);
    assert (lo + hi)[..4] == lo && (lo + hi)[4..] == hi;
    lo + hi
  }

  function DecodeFixed64(b: Bytes): Word64
    requires |b| >= 8
  {
    DecodeFixed32(b[..4]) + DecodeFixed32(b[4..]) * WORD32
  }

  /** Offsets as the 32-bit words they are stored in. */
  function Words(ws: seq<nat>): (b: Bytes)
    ensures |b| == 4 * |ws|
  {
    if ws == [] then [] else Words(ws[..|ws| - 1]) + EncodeFixed32(ws[|ws| - 1] % WORD32)
  }

  lemma {:induction false} WordAt(ws: seq<nat>, i: nat)
    requires i < |ws|
    ensures Words(ws)[4 * i..4 * i + 4] == EncodeFixed32(ws[i] % WORD32)
  {
    hide EncodeFixed32;
    var front := Words(ws[..|ws| - 1]);
    if i < |ws| - 1 {
      WordAt(ws[..|ws| - 1], i);
      assert Words(ws)[4 * i..4 * i + 4] == front[4 * i..4 * i + 4];
    }
  }

  // ----- Varints -----

  /** Seven bits a byte, least significant first, the high bit set on all but the last. */
  function Varint(v: nat): (b: Bytes)
    ensures |b| >= 1
  {
    if v < 128 then [v] else [128 + v % 128] + Varint(v / 128)
  }

  /** The value of at most `n` varint bytes at the front of `b`, and what follows them. */
  function ParseVarint(b: Bytes, n: nat): Option<(nat, Bytes)> {
    if n == 0 || b == [] then None
    else if b[0] < 128 then Some((b[0], b[1..]))
    else
      match ParseVarint(b[1..], n - 1)
      case None => None
      case Some((v, rest)) => Some((b[0] - 128 + 128 * v, rest))
  }

  function Power128(n: nat): nat {
    if n == 0 then 1 else 128 * Power128(n - 1)
  }

  lemma {:induction false} VarintRoundTrip(v: nat, rest: Bytes, n: nat)
    requires n > 0 && v < Power128(n)
    ensures ParseVarint(Varint(v) + rest, n) == Some((v, rest))
    ensures |Varint(v)| <= n
  {
    var b := Varint(v) + rest;
    if v < 128 {
      assert b[1..] == rest;
    } else {
      assert b[1..] == Varint(v / 128) + rest;
      VarintRoundTrip(v / 128, rest, n - 1);
    }
  }

  /** A varint cut short does not parse. */
  lemma {:induction false} VarintTruncated(v: nat, m: nat, n: nat)
    requires m < |Varint(v)|
    ensures ParseVarint(Varint(v)[..m], n) == None
  {
    if v >= 128 && m > 0 && n > 0 {
      assert Varint(v)[..m][1..] == Varint(v / 128)[..m - 1];
      VarintTruncated(v / 128, m - 1, n - 1);
    }
  }

  function GetVarint32(b: Bytes): Option<(Word32, Bytes)> {
    match ParseVarint(b, 5)
    case None => None
    case Some((v, rest)) => Some((v % WORD32, rest))
  }

  function GetVarint64(b: Bytes): Option<(Word64, Bytes)> {
    match ParseVarint(b, 10)
    case None => None
    case Some((v, rest)) => Some((v % WORD64, rest))
  }

  lemma Powers128()
    ensures Power128(5) == 0x8_0000_0000 && Power128(10) == 0x40_0000_0000_0000_0000
  {
    assert Power128(2) == 0x4000 && Power128(4) == 0x1000_0000;
    assert Power128(6) == 0x400_0000_0000 && Power128(8) == 0x100_0000_0000_0000;
  }

  lemma Varint32RoundTrip(v: Word32, rest: Bytes)
    ensures GetVarint32(Varint(v) + rest) == Some((v, rest))
  {
    hide Varint, ParseVarint;
    Powers128();
    VarintRoundTrip(v, rest, 5);
  }

  lemma Varint64RoundTrip(v: Word64, rest: Bytes)
    ensures GetVarint64(Varint(v) + rest) == Some((v, rest))
  {
    hide Varint, ParseVarint;
    Powers128();
    VarintRoundTrip(v, rest, 10);
  }

  /** The branches of the encoder for 32-bit values. */
  method EncodeVarint32(v: Word32) returns (b: Bytes)
    ensures b == Varint(v)
  {
    if v < 0x80 {
      b := [v];
    } else if v < 0x4000 {
      b := [128 + v % 128, v / 0x80];
    } else if v < 0x20_0000 {
      b := [128 + v % 128, 128 + v / 0x80 % 128, v / 0x4000];
      assert v / 0x80 / 128 == v / 0x4000;
      assert Varint(v / 0x80) == [128 + v / 0x80 % 128, v / 0x4000];
    } else if v < 0x1000_0000 {
      b := [128 + v % 128, 128 + v / 0x80 % 128, 128 + v / 0x4000 % 128, v / 0x20_0000];
      assert v / 0x80 / 128 == v / 0x4000 && v / 0x4000 / 128 == v / 0x20_0000;
      assert Varint(v / 0x4000) == [128 + v / 0x4000 % 128, v / 0x20_0000];
    } else {
      b := [128 + v % 128, 128 + v / 0x80 % 128, 128 + v / 0x4000 % 128, 128 + v / 0x20_0000 % 128, v / 0x1000_0000];
      assert v / 0x80 / 128 == v / 0x4000 && v / 0x4000 / 128 == v / 0x20_0000 && v / 0x20_0000 / 128 == v / 0x1000_0000;
      assert Varint(v / 0x20_0000) == [128 + v / 0x20_0000 % 128, v / 0x1000_0000];
      assert Varint(v / 0x4000) == [128 + v / 0x4000 % 128] + Varint(v / 0x20_0000);
    }
  }

  /** The loop of the encoder for 64-bit values. */
  method EncodeVarint64(v: Word64) returns (b: Bytes)
    ensures b == Varint(v)
  {
    b := [];
    var rest: nat := v;
    while rest >= 128
      invariant b + Varint(rest) == Varint(v)
    {
      b := b + [128 + rest % 128];
      rest := rest / 128;
    }
    b := b + [rest];
  }

  /** A parse result whose value is added to `r` at weight `w`. */
  ghost function AtWeight(r: nat, w: nat, t: Option<(nat, Bytes)>): Option<(nat, Bytes)> {
    match t
    case None => None
    case Some((v, rest)) => Some((r + w * v, rest))
  }

  lemma WeightMoves(r: nat, w: nat, b: Bytes, n: nat)
    requires n > 0 && |b| > 0 && b[0] >= 128
    ensures AtWeight(r, w, ParseVarint(b, n)) == AtWeight(r + (b[0] - 128) * w, w * 128, ParseVarint(b[1..], n - 1))
  {
    if ParseVarint(b[1..], n - 1).Some? {
      var d: nat, v := b[0] - 128, ParseVarint(b[1..], n - 1).value.0;
      assert w * (d + 128 * v) == d * w + w * 128 * v;
    }
  }

  lemma WeightStarts(t: Option<(nat, Bytes)>)
    ensures AtWeight(0, 1, t) == t
  {
  }

  lemma FirstByte(r: nat, w: nat, b: Bytes, n: nat)
    requires n > 0 && |b| > 0 && b[0] < 128
    ensures AtWeight(r, w, ParseVarint(b, n)) == Some((r + b[0] * w, b[1..]))
  {
    assert b[0] * w == w * b[0];
  }

  lemma NoByte(r: nat, w: nat, b: Bytes, n: nat)
    requires n == 0 || b == []
    ensures AtWeight(r, w, ParseVarint(b, n)) == None
  {
  }

  /** The loop of the decoders: `limit` bytes at most, seven bits a byte, in a word of size `word`. */
  method DecodeVarint(b: Bytes, limit: nat, word: nat) returns (r: Option<(nat, Bytes)>)
    requires word > 0
    ensures r == match ParseVarint(b, limit)
                 case None => None
                 case Some((v, rest)) => Some((v % word, rest))
  {
    hide ParseVarint, AtWeight;
    var result: nat := 0;
    var weight: nat := 1;
    WeightStarts(ParseVarint(b, limit));
    var p := 0;
    assert b[0..] == b;
    while p < limit && p < |b|
      invariant p <= limit && p <= |b|
      invariant AtWeight(0, 1, ParseVarint(b, limit)) == AtWeight(result, weight, ParseVarint(b[p..], limit - p))
      decreases limit - p
    {
      var byte := b[p];
      ghost var tail := b[p..];
      assert tail[1..] == b[p + 1..];
      if byte >= 128 {
        WeightMoves(result, weight, tail, limit - p);
        result := result + (byte - 128) * weight;
        weight := weight * 128;
      } else {
        FirstByte(result, weight, tail, limit - p);
        return Some(((result + byte * weight) % word, b[p + 1..]));
      }
      p := p + 1;
    }
    NoByte(result, weight, b[p..], limit - p);
    return None;
  }

  // ----- Length-prefixed strings -----

  function LengthPrefixed(s: Bytes): Bytes
  {
    Varint(|s|) + s
  }

  function GetLengthPrefixed(b: Bytes): Option<(Bytes, Bytes)> {
    match GetVarint32(b)
    case None => None
    case Some((n, rest)) => if |rest| >= n then Some((rest[..n], rest[n..])) else None
  }

  lemma LengthPrefixedRoundTrip(s: Bytes, rest: Bytes)
    requires |s| < WORD32
    ensures GetLengthPrefixed(LengthPrefixed(s) + rest) == Some((s, rest))
  {
    assert LengthPrefixed(s) + rest == Varint(|s|) + (s + rest);
    Varint32RoundTrip(|s|, s + rest);
  }
}
