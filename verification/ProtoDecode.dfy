/** The decoder: it reads tags, finds their fields and fills in the struct, submessages through
    streams of limited length. */
module ProtoDecode {
  import opened Keys
  import opened Coding
  import opened Bits
  import opened Proto
  import opened ProtoEncode

  // ----- Fields that are not known -----

  /** The bytes of a varint: all but the last have their top bit set. */
  predicate VarintBytes(b: Bytes) {
    |b| > 0 && b[|b| - 1] < 128 && forall i :: 0 <= i < |b| - 1 ==> b[i] >= 128
  }

  /** Bytes that a decoder can pass over, knowing no more of them than the wire type of their tag. */
  ghost predicate Skippable(wireType: nat, body: Bytes) {
    if wireType == WT_VARINT then VarintBytes(body)
    else if wireType == WT_64BIT then |body| == 8
    else if wireType == WT_STRING then |Content(body)| < WORD32 && body == Prefixed(Content(body))
    else wireType == WT_32BIT && |body| == 4
  }

  /** What a length-prefixed string holds. */
  ghost function Content(body: Bytes): Bytes {
    if s :| body == Prefixed(s) then s else []
  }

  // ----- Input streams -----

  class IStream {
    const data: Bytes
    var at: nat
    var bytesLeft: nat

    ghost predicate Ok()
      reads this
    {
      at + bytesLeft <= |data|
    }

    /** Where the stream ends; no read moves it. */
    ghost function End(): nat
      reads this
    {
      at + bytesLeft
    }

    /** The stream has exactly `b` left. */
    ghost predicate Faces(b: Bytes)
      reads this
    {
      Ok() && data[at..at + bytesLeft] == b
    }

    /** What is left. */
    ghost function Rest(): (b: Bytes)
      requires Ok()
      reads this
      ensures |b| == bytesLeft && Faces(b)
    {
      data[at..at + bytesLeft]
    }

    constructor (d: Bytes, pos: nat, n: nat)
      requires pos + n <= |d|
      ensures Ok() && data == d && at == pos && bytesLeft == n
    {
      data, at, bytesLeft := d, pos, n;
    }

    method Read(count: nat, ghost b: Bytes, ghost tail: Bytes) returns (ok: bool, buf: Bytes)
      requires Ok()
      modifies this
      ensures Ok() && End() == old(End()) && bytesLeft <= old(bytesLeft)
      ensures ok <==> count <= old(bytesLeft)
      ensures ok ==> buf == data[old(at)..old(at) + count] && bytesLeft == old(bytesLeft) - count
      ensures old(Faces(b + tail)) && |b| == count ==> ok && buf == b && Faces(tail)
    {
      if bytesLeft < count {
        return false, [];
      }
      ghost var rest := data[at..at + bytesLeft];
      buf := data[at..at + count];
      assert buf == rest[..count] && data[at + count..at + bytesLeft] == rest[count..];
      if rest == b + tail && |b| == count {
        assert rest[..count] == b && rest[count..] == tail;
      }
      at, bytesLeft := at + count, bytesLeft - count;
      return true, buf;
    }

    method ReadByte(ghost b: Byte, ghost tail: Bytes) returns (ok: bool, byte: Byte)
      requires Ok()
      modifies this
      ensures Ok() && End() == old(End())
      ensures ok <==> old(bytesLeft) > 0
      ensures bytesLeft == old(bytesLeft) - if ok then 1 else 0
      ensures old(Faces([b] + tail)) ==> ok && byte == b && Faces(tail)
    {
      if bytesLeft == 0 {
        return false, 0;
      }
      var buf;
      ok, buf := Read(1, [b], tail);
      byte := buf[0];
    }

    /** Decode a varint of at most 32 bits, sign extension of a negative one allowed. */
    method DecodeVarint32(ghost v: Word32, ghost tail: Bytes) returns (ok: bool, eof: bool, dest: Word32)
      requires Ok()
      modifies this
      ensures Ok() && End() == old(End()) && bytesLeft <= old(bytesLeft) && (ok ==> bytesLeft < old(bytesLeft))
      ensures old(Faces(Varint(v) + tail)) ==> ok && dest == v && Faces(tail)
    {
      ghost var facing := Faces(Varint(v) + tail);
      VarintHead(v, tail);
      eof, dest := false, 0;
      var byte;
      ok, byte := ReadByte(Varint(v)[0], Varint(v)[1..] + tail);
      if !ok {
        return false, bytesLeft == 0, 0;
      }
      if byte < 128 {
        return true, false, byte;
      }
      ok, dest := DecodeVarint32Rest(byte, if v < 128 then 0 else v / 128, tail, facing, v);
    }

    /** The multibyte case. */
    method DecodeVarint32Rest(first: Byte, ghost more: nat, ghost tail: Bytes, ghost facing: bool, ghost v: Word32)
      returns (ok: bool, dest: Word32)
      requires Ok() && first >= 128
      requires facing ==> v == (first - 128) + 128 * more && more > 0 && Faces(Varint(more) + tail)
      modifies this
      ensures Ok() && End() == old(End()) && bytesLeft <= old(bytesLeft)
      ensures facing ==> ok && dest == v && Faces(tail)
    {
      hide Varint, Power2, Faces, AddBits;
      dest := first - 128;
      ghost var w := more;
      var byte: Byte := first;
      var bitpos := 7;
      Powers();
      while byte >= 128
        invariant Ok() && End() == old(End()) && bytesLeft <= old(bytesLeft)
        invariant bitpos >= 7 && bitpos % 7 == 0
        invariant facing ==> bitpos <= 35 && dest < Power2(bitpos)
        invariant facing && byte >= 128 ==> w > 0 && v == dest + Power2(bitpos) * w && Faces(Varint(w) + tail)
        invariant facing && byte < 128 ==> dest == v && Faces(tail) && (bitpos == 35 ==> byte < 16)
        decreases bytesLeft, byte >= 128
      {
        VarintHead(w, tail);
        if facing {
          BitsLeft(v, dest, bitpos, w);
          Absorbs(v, dest, bitpos, w, Varint(w)[0], WORD32);
        }
        ok, byte := ReadByte(Varint(w)[0], Varint(w)[1..] + tail);
        if !ok {
          return false, 0;
        }
        if bitpos >= 32 {
          // trailing 0x80 bytes, or 0xFF bytes of a negative number
          var signExtension := if bitpos < 63 then 0xff else 0x01;
          if byte % 128 != 0 && (dest < 0x8000_0000 || byte != signExtension) {
            return false, 0;
          }
        } else {
          dest := AddBits(dest, byte, bitpos, WORD32);
        }
        w := w / 128;
        bitpos := bitpos + 7;
      }
      if bitpos == 35 && byte >= 16 {
        // of the last byte only four bits fit
        return false, 0;
      }
      return true, dest;
    }

    /** Decode a varint of at most 64 bits. */
    method DecodeVarint(ghost v: Word64, ghost tail: Bytes) returns (ok: bool, dest: Word64)
      requires Ok()
      modifies this
      ensures Ok() && End() == old(End()) && bytesLeft <= old(bytesLeft)
      ensures old(Faces(Varint(v) + tail)) ==> ok && dest == v && Faces(tail)
    {
      hide Varint, Power2, Faces, AddBits;
      ghost var facing := Faces(Varint(v) + tail);
      ghost var w: nat := v;
      var bitpos := 0;
      var byte: Byte := 128;
      dest := 0;
      WeightOne(v);
      while byte >= 128
        invariant Ok() && End() == old(End()) && bytesLeft <= old(bytesLeft)
        invariant facing && byte >= 128 ==>
                    dest + Power2(bitpos) * w == v && Faces(Varint(w) + tail) && (bitpos == 0 || w > 0)
        invariant facing && byte < 128 ==> dest == v && Faces(tail)
        decreases bytesLeft, byte >= 128
      {
        VarintHead(w, tail);
        if facing {
          WeightSplits(v, dest, bitpos, w);
          Absorbs(v, dest, bitpos, w, Varint(w)[0], WORD64);
        }
        if bitpos >= 64 {
          return false, 0;
        }
        ok, byte := ReadByte(Varint(w)[0], Varint(w)[1..] + tail);
        if !ok {
          return false, 0;
        }
        dest := AddBits(dest, byte, bitpos, WORD64);
        w := w / 128;
        bitpos := bitpos + 7;
      }
      return true, dest;
    }

    method SkipVarint(ghost body: Bytes, ghost tail: Bytes) returns (ok: bool)
      requires Ok()
      modifies this
      ensures Ok() && End() == old(End()) && bytesLeft <= old(bytesLeft)
      ensures VarintBytes(body) && old(Faces(body + tail)) ==> ok && Faces(tail)
    {
      hide Faces;
      ghost var facing := VarintBytes(body) && Faces(body + tail);
      ghost var left := body;
      var byte: Byte := 128;
      while byte >= 128
        invariant Ok() && End() == old(End()) && bytesLeft <= old(bytesLeft)
        invariant facing ==> if byte >= 128 then VarintBytes(left) && Faces(left + tail) else Faces(tail)
        decreases bytesLeft, byte >= 128
      {
        if facing {
          assert left + tail == [left[0]] + (left[1..] + tail);
        }
        ok, byte := ReadByte(if left == [] then 0 else left[0], (if left == [] then [] else left[1..]) + tail);
        if !ok {
          return false;
        }
        if facing && byte < 128 {
          assert left[1..] + tail == tail;
        }
        left := if left == [] then [] else left[1..];
      }
      return true;
    }

    /** Skip a field that is not known. */
    method SkipField(wireType: nat, ghost body: Bytes, ghost tail: Bytes) returns (ok: bool)
      requires Ok()
      modifies this
      ensures Ok() && End() == old(End()) && bytesLeft <= old(bytesLeft)
      ensures Skippable(wireType, body) && old(Faces(body + tail)) ==> ok && Faces(tail)
    {
      hide Faces, Varint, VarintBytes;
      var skipped;
      if wireType == WT_VARINT {
        ok := SkipVarint(body, tail);
      } else if wireType == WT_64BIT {
        ok, skipped := Read(8, body, tail);
      } else if wireType == WT_STRING {
        var eof, length;
        ghost var s := Content(body);
        ghost var n: Word32 := if |s| < WORD32 then |s| else 0;
        assert Skippable(wireType, body) ==> body + tail == Varint(n) + (s + tail);
        ok, eof, length := DecodeVarint32(n, s + tail);
        if ok {
          ok, skipped := Read(length, s, tail);
        }
      } else if wireType == WT_32BIT {
        ok, skipped := Read(4, body, tail);
      } else {
        ok := false;
      }
    }

    /** Decode a tag. A zero tag ends the message, as the end of the stream does. */
    method DecodeTag(ghost wt: nat, ghost t: nat, ghost tail: Bytes) returns (ok: bool, wireType: nat, tag: nat, eof: bool)
      requires Ok() && wt < 8
      modifies this
      ensures Ok() && End() == old(End()) && bytesLeft <= old(bytesLeft) && (ok ==> bytesLeft < old(bytesLeft))
      ensures 0 < t && 8 * t + wt < WORD32 && old(Faces(TagBytes(wt, t) + tail)) ==> ok && wireType == wt && tag == t && Faces(tail)
    {
      hide Varint, Faces;
      var temp;
      ok, eof, temp := DecodeVarint32(if 8 * t + wt < WORD32 then 8 * t + wt else 0, tail);
      if !ok {
        return false, 0, 0, eof;
      }
      if temp == 0 {
        return false, 0, 0, true;
      }
      return true, temp % 8, temp / 8, false;
    }

    /** Decode a length and return a stream of that length; it must be closed before reading on. */
    method MakeStringSubstream(ghost b: Bytes, ghost tail: Bytes) returns (ok: bool, substream: IStream)
      requires Ok()
      modifies this
      ensures ok ==> fresh(substream) && substream.Ok() && substream.data == data && substream.at == at
      ensures ok ==> Ok() && End() + substream.bytesLeft == old(End()) && at + substream.bytesLeft + bytesLeft <= |data|
      ensures ok ==> bytesLeft < old(bytesLeft)
      ensures !ok ==> Ok() && End() == old(End()) && bytesLeft <= old(bytesLeft)
      ensures |b| < WORD32 && old(Faces(Prefixed(b) + tail)) ==>
                ok && substream.Faces(b) && data[substream.End()..substream.End() + bytesLeft] == tail
    {
      hide Varint;
      ghost var facing := |b| < WORD32 && Faces(Prefixed(b) + tail);
      PrefixedParts(b, tail);
      var eof, size;
      ok, eof, size := DecodeVarint32(if |b| < WORD32 then |b| else 0, b + tail);
      substream := new IStream(data, 0, 0);
      if !ok {
        return;
      }
      if bytesLeft < size {
        return false, substream;
      }
      ghost var rest := data[at..at + bytesLeft];
      Slices(data, at, size, bytesLeft);
      substream := new IStream(data, at, size);
      bytesLeft := bytesLeft - size;
      if facing {
        assert rest == b + tail;
        PrefixedParts(b, tail);
      }
    }

    /** Skip what is left of a substream and go on behind it. */
    method CloseStringSubstream(substream: IStream, ghost tail: Bytes)
      requires substream.Ok() && substream.data == data && substream != this
      requires substream.End() + bytesLeft <= |data|
      modifies this`at, substream
      ensures Ok() && End() == old(substream.End()) + bytesLeft
      ensures data[old(substream.End())..old(substream.End()) + bytesLeft] == tail ==> Faces(tail)
    {
      if substream.bytesLeft > 0 {
        var ok, skipped := substream.Read(substream.bytesLeft, [], []);
      }
      at := substream.at;
    }
  }

  lemma Slices(data: Bytes, at: nat, size: nat, n: nat)
    requires size <= n && at + n <= |data|
    ensures data[at..at + size] == data[at..at + n][..size] && data[at + size..at + n] == data[at..at + n][size..]
  {
  }

  /** Adding the bits of the first byte of `w` leaves the rest of it to add. */
  lemma Absorbs(v: nat, dest: nat, bitpos: nat, w: nat, byte: Byte, word: nat)
    requires v < word && byte == if w < 128 then w else 128 + w % 128
    requires v == dest + w % 128 * Power2(bitpos) + Power2(bitpos + 7) * (w / 128)
    ensures AddBits(dest, byte, bitpos, word) == dest + w % 128 * Power2(bitpos)
    ensures AddBits(dest, byte, bitpos, word) + Power2(bitpos + 7) * (w / 128) == v
    ensures byte >= 128 <==> w / 128 > 0
    ensures byte < 128 ==> AddBits(dest, byte, bitpos, word) == v && byte == w
  {
    hide Power2, AddBits;
    LowBits(w, byte);
    MulAtLeastZero(Power2(bitpos + 7), w / 128);
    AddBitsIs(dest, byte, bitpos, word);
  }

  lemma LowBits(w: nat, byte: Byte)
    requires byte == if w < 128 then w else 128 + w % 128
    ensures byte % 128 == w % 128 && (byte >= 128 <==> w / 128 > 0)
    ensures byte < 128 ==> byte == w
  {
  }

  lemma AddBitsIs(dest: nat, byte: Byte, bitpos: nat, word: nat)
    requires dest + byte % 128 * Power2(bitpos) < word
    ensures AddBits(dest, byte, bitpos, word) == dest + byte % 128 * Power2(bitpos)
  {
    hide Power2;
    var low: nat := byte % 128;
    MulAtLeastZero(low, Power2(bitpos));
    SmallMod(dest + low * Power2(bitpos), word);
  }

  lemma SmallMod(x: nat, w: nat)
    requires x < w
    ensures x % w == x
  {
  }

  lemma MulAtLeastZero(a: nat, b: nat)
    ensures a * b >= 0
  {
  }

  lemma WeightOne(v: nat)
    ensures Power2(0) * v == v
  {
  }

  /** The value splits into the part decoded, the next seven bits and the rest. */
  lemma WeightSplits(v: Word64, dest: nat, bitpos: nat, w: nat)
    requires dest + Power2(bitpos) * w == v && (bitpos == 0 || w > 0)
    ensures bitpos < 64
    ensures dest + w % 128 * Power2(bitpos) <= v
    ensures dest + w % 128 * Power2(bitpos) + Power2(bitpos + 7) * (w / 128) == v
  {
    hide HasBit;
    if bitpos >= 64 {
      PowersRise(64, bitpos);
      Power64();
      MulAtLeast(Power2(bitpos), w);
    }
    SevenMore(bitpos);
    var p, q, r := Power2(bitpos), w / 128, w % 128;
    WeightRegroups(p, q, r);
    assert w == 128 * q + r;
  }

  lemma WeightRegroups(p: nat, q: nat, r: nat)
    ensures p * (128 * q + r) == r * p + 128 * p * q && 128 * p * q >= 0
  {
  }

  lemma MulAtLeast(p: nat, w: nat)
    requires w > 0
    ensures p * w >= p
  {
  }

  lemma Power64()
    ensures Power2(64) == WORD64
  {
    Powers();
    SplitPower(32, 32);
  }

  lemma {:induction false} SplitPower(a: nat, b: nat)
    ensures Power2(a + b) == Power2(a) * Power2(b)
  {
    if a > 0 {
      SplitPower(a - 1, b);
    }
  }

  lemma SevenMore(n: nat)
    ensures Power2(n + 7) == 128 * Power2(n)
  {
    Powers();
    SplitPower(7, n);
  }

  /** The low seven bits of a byte, shifted into place in a word. */
  function AddBits(dest: nat, byte: Byte, bitpos: nat, word: nat): (r: nat)
    requires word > 0
    ensures r < word
  {
    var low: nat := byte % 128;
    (dest + low * Power2(bitpos)) % word
  }

  lemma Associates(a: Bytes, b: Bytes, c: Bytes)
    ensures a + b + c == a + (b + c)
  {
  }

  lemma Halves(b: Bytes, c: Bytes)
    ensures (b + c)[..|b|] == b && (b + c)[|b|..] == c
  {
  }

  lemma PrefixedParts(b: Bytes, tail: Bytes)
    ensures Prefixed(b) + tail == Varint(|b|) + (b + tail)
    ensures (b + tail)[..|b|] == b && (b + tail)[|b|..] == tail
  {
    hide Varint;
    Associates(Varint(|b|), b, tail);
    Halves(b, tail);
  }

  lemma VarintHead(v: nat, tail: Bytes)
    ensures Varint(v) + tail == [Varint(v)[0]] + (Varint(v)[1..] + tail)
    ensures v < 128 ==> Varint(v)[0] == v && Varint(v)[1..] + tail == tail
    ensures v >= 128 ==> Varint(v)[0] == 128 + v % 128 && Varint(v)[1..] == Varint(v / 128)
  {
  }

  lemma Powers()
    ensures Power2(7) == 0x80 && Power2(14) == 0x4000 && Power2(21) == 0x20_0000 && Power2(28) == 0x1000_0000
    ensures Power2(35) == 0x8_0000_0000 && Power2(32) == WORD32
  {
    assert Power2(10) == 1024 && Power2(20) == 1048576 && Power2(30) == 1073741824;
  }

  /** A 32-bit varint has its last bits by the fifth byte. */
  lemma BitsLeft(v: Word32, dest: nat, bitpos: nat, w: nat)
    requires bitpos % 7 == 0 && 7 <= bitpos <= 35 && w > 0 && v == dest + Power2(bitpos) * w && dest < Power2(bitpos)
    ensures bitpos <= 28
    ensures dest + w % 128 * Power2(bitpos) < Power2(bitpos + 7)
    ensures v == dest + w % 128 * Power2(bitpos) + Power2(bitpos + 7) * (w / 128)
    ensures bitpos == 28 ==> w < 16
    ensures dest + w % 128 * Power2(bitpos) < WORD32
    ensures bitpos + 7 <= 35
  {
    hide Power2;
    Powers();
    TooHeavy(dest, w);
    if bitpos == 7 {
      Split(v, dest, 0x80, w);
    } else if bitpos == 14 {
      Split(v, dest, 0x4000, w);
    } else if bitpos == 21 {
      Split(v, dest, 0x20_0000, w);
    } else if bitpos == 28 {
      Split(v, dest, 0x1000_0000, w);
    }
  }

  lemma TooHeavy(dest: nat, w: nat)
    requires w > 0
    ensures dest + 0x8_0000_0000 * w >= WORD32
  {
  }

  lemma Split(v: Word32, dest: nat, p: nat, w: nat)
    requires p in {0x80, 0x4000, 0x20_0000, 0x1000_0000} && v == dest + p * w && dest < p
    ensures dest + w % 128 * p < 128 * p && v == dest + w % 128 * p + 128 * p * (w / 128)
    ensures p == 0x1000_0000 ==> w < 16
    ensures dest + w % 128 * p < WORD32
  {
    var q, r := w / 128, w % 128;
    assert w == 128 * q + r;
    if p == 0x80 {
      assert v == dest + 0x80 * r + 0x80 * 128 * q;
    } else if p == 0x4000 {
      assert v == dest + 0x4000 * r + 0x4000 * 128 * q;
    } else if p == 0x20_0000 {
      assert v == dest + 0x20_0000 * r + 0x20_0000 * 128 * q;
    } else {
      assert v == dest + 0x1000_0000 * r + 0x1000_0000 * 128 * q;
    }
  }

  // ----- What decoding should restore -----

  /** The descriptor is one the decoder can work from: tags distinct and within 32 bits, and default
      values that fit their members. */
  predicate GoodDesc(d: Desc)
    decreases d, 0
  {
    && (forall i, j :: 0 <= i < j < |d.fields| ==> d.fields[i].tag != d.fields[j].tag)
    && (forall i :: 0 <= i < |d.fields| ==> GoodField(d.fields[i]))
    && (forall i :: 0 <= i < |d.fields| && d.fields[i].htype.OneofH? ==> d.fields[i].htype.group < d.groups)
  }

  predicate GoodField(f: Field)
    decreases f, 0
  {
    0 < f.tag && 8 * f.tag + 7 < WORD32 && ItemShaped(f.ltype, f.init) && (f.ltype.SubmessageT? ==> GoodDesc(f.ltype.desc))
  }

  /** A string has its terminator within its array. */
  predicate GoodItem(lt: LType, item: Item)
    requires ItemShaped(lt, item)
    decreases lt, 0
  {
    match lt
    case StringT(_) => |CString(item.b)| < |item.b|
    case SubmessageT(d) => GoodMessage(d, item.m)
    case _ => true
  }

  /** What is present is good, and a which_ member names a field of its oneof, or none. */
  predicate GoodSlot(f: Field, slot: Slot, which: seq<nat>)
    requires SlotShaped(f, slot) && (f.htype.OneofH? ==> f.htype.group < |which|)
    decreases f, 1
  {
    match f.htype
    case RequiredH => GoodItem(f.ltype, slot.item)
    case OptionalH => slot.has ==> GoodItem(f.ltype, slot.item)
    case RepeatedH(_) => forall item :: item in slot.items ==> GoodItem(f.ltype, item)
    case OneofH(group) => which[group] == f.tag ==> GoodItem(f.ltype, slot.item)
  }

  predicate GoodMessage(d: Desc, m: Message)
    requires Shaped(d, m)
    decreases d, 1
  {
    && (forall i :: 0 <= i < |d.fields| ==> GoodSlot(d.fields[i], m.slots[i], m.which))
    && (forall i :: 0 <= i < |d.fields| && d.fields[i].htype.OneofH? ==> Names(d, d.fields[i].htype.group, m.which))
  }

  predicate Names(d: Desc, group: nat, which: seq<nat>) {
    group < |which| && (which[group] == 0 ||
    exists k :: 0 <= k < |d.fields| && d.fields[k].htype == OneofH(group) && d.fields[k].tag == which[group])
  }

  /** A member holds its default: for a submessage, all its members do. */
  predicate FreshItem(f: Field, item: Item)
    requires ItemShaped(f.ltype, item)
    decreases f, 0
  {
    if f.ltype.SubmessageT? then Fresh(f.ltype.desc, item.m) else item == f.init
  }

  predicate FreshSlot(f: Field, slot: Slot)
    requires SlotShaped(f, slot)
    decreases f, 1
  {
    match f.htype
    case RequiredH => FreshItem(f, slot.item)
    case OptionalH => !slot.has && FreshItem(f, slot.item)
    case RepeatedH(_) => slot.items == []
    case OneofH(_) => true
  }

  /** All members hold their defaults; no optional one, no array entry and no oneof choice is set. */
  predicate Fresh(d: Desc, g: Message)
    requires Shaped(d, g)
    decreases d, 1
  {
    && (forall i :: 0 <= i < |d.fields| ==> FreshSlot(d.fields[i], g.slots[i]))
    && (forall i :: 0 <= i < |d.fields| && d.fields[i].htype.OneofH? ==> g.which[d.fields[i].htype.group] == 0)
  }

  /** `got` has the value of `item`: strings up to their terminators, submessages member by member. */
  predicate Restored(lt: LType, item: Item, got: Item)
    requires ItemShaped(lt, item) && ItemShaped(lt, got)
    decreases lt, 0
  {
    match lt
    case StringT(_) => CString(item.b) == CString(got.b)
    case SubmessageT(d) => RestoredMessage(d, item.m, got.m)
    case _ => item == got
  }

  predicate RestoredSlot(f: Field, slot: Slot, which: seq<nat>, got: Slot, gotWhich: seq<nat>)
    requires SlotShaped(f, slot) && SlotShaped(f, got)
    requires f.htype.OneofH? ==> f.htype.group < |which| && f.htype.group < |gotWhich|
    decreases f, 1
  {
    match f.htype
    case RequiredH => Restored(f.ltype, slot.item, got.item)
    case OptionalH => got.has == slot.has && if slot.has then Restored(f.ltype, slot.item, got.item) else FreshItem(f, got.item)
    case RepeatedH(_) =>
      |got.items| == |slot.items| && forall j :: 0 <= j < |slot.items| ==> Restored(f.ltype, slot.items[j], got.items[j])
    case OneofH(group) =>
      which[group] == f.tag ==> gotWhich[group] == f.tag && Restored(f.ltype, slot.item, got.item)
  }

  /** Every present field, count and oneof choice is restored, and what is absent holds its default. */
  predicate RestoredMessage(d: Desc, m: Message, got: Message)
    requires Shaped(d, m) && Shaped(d, got)
    decreases d, 1
  {
    && (forall i :: 0 <= i < |d.fields| ==> RestoredSlot(d.fields[i], m.slots[i], m.which, got.slots[i], got.which))
    && (forall i :: 0 <= i < |d.fields| && d.fields[i].htype.OneofH? ==>
          got.which[d.fields[i].htype.group] == m.which[d.fields[i].htype.group])
  }

  // ----- Default values -----

  method SetFieldToDefault(f: Field, slot: Slot, which: seq<nat>) returns (slot': Slot, which': seq<nat>)
    requires GoodField(f) && SlotShaped(f, slot) && (f.htype.OneofH? ==> f.htype.group < |which|)
    ensures SlotShaped(f, slot') && FreshSlot(f, slot')
    ensures which' == match f.htype case OneofH(group) => which[group := 0] case _ => which
    decreases f, 1
  {
    slot', which' := slot, which;
    match f.htype {
      case RequiredH =>
        var item := DefaultItem(f, slot.item);
        slot' := Single(item);
      case OptionalH =>
        // not present, but initialized all the same
        var item := DefaultItem(f, slot.item);
        slot' := Maybe(false, item);
      case RepeatedH(_) => slot' := Many([]);
      case OneofH(group) => which' := which[group := 0];
    }
  }

  method DefaultItem(f: Field, item: Item) returns (item': Item)
    requires GoodField(f) && ItemShaped(f.ltype, item)
    ensures ItemShaped(f.ltype, item') && FreshItem(f, item')
    decreases f, 0
  {
    if f.ltype.SubmessageT? {
      var m := SetToDefaults(f.ltype.desc, item.m);
      item' := MsgItem(m);
    } else {
      item' := f.init;
    }
  }

  /** Initialize all members of a struct, submessages too. */
  method SetToDefaults(d: Desc, dest: Message) returns (g: Message)
    requires GoodDesc(d) && Shaped(d, dest)
    ensures Shaped(d, g) && Fresh(d, g)
    decreases d, 2
  {
    hide GoodField, SlotShaped, FreshSlot;
    g := dest;
    var iter := new FieldIter(d.fields);
    var more := iter.Begin();
    ghost var i := 0;
    while more
      invariant iter.Ok() && iter.fields == d.fields && fresh(iter) && Shaped(d, g)
      invariant i <= |d.fields| && (more <==> i < |d.fields|) && (more ==> iter.pos == i)
      invariant forall k :: 0 <= k < i ==> FreshSlot(d.fields[k], g.slots[k])
      invariant forall k :: 0 <= k < i && d.fields[k].htype.OneofH? ==> g.which[d.fields[k].htype.group] == 0
      decreases |d.fields| - i
    {
      var f := d.fields[iter.pos];
      var slot, which := SetFieldToDefault(f, g.slots[iter.pos], g.which);
      g := Message(g.slots[iter.pos := slot], which);
      i := i + 1;
      more := iter.Next();
    }
  }

  // ----- Field decoders -----

  /** The value of an integer cast to a signed one of so many bytes. */
  function AsSigned(v: int, size: nat): (r: int)
    ensures InSigned(r, size)
  {
    var p := Power256(size);
    if 2 * (v % p) < p then v % p else v % p - p
  }

  /** A value in range survives sign extension to 64 bits, truncation and the cast to its size. */
  lemma SignedSame(v: int, size: nat)
    requires IntSize(size) && InSigned(v, size)
    ensures AsSigned(v % WORD64, if size == 8 then 8 else 4) == v && AsSigned(v, size) == v
  {
    Sizes();
    if size == 1 {
      Residues(v, 0x100);
    } else if size == 2 {
      Residues(v, 0x1_0000);
    } else if size == 4 {
      Residues(v, WORD32);
    } else {
      Residues(v, WORD64);
    }
  }

  lemma Residues(v: int, p: nat)
    requires p in {0x100, 0x1_0000, WORD32, WORD64} && -(WORD64 as int) <= 2 * v < WORD64
    requires -(p as int) <= 2 * v < p
    ensures v % p == if v >= 0 then v else v + p
    ensures v % WORD64 == if v >= 0 then v else v + WORD64
    ensures p <= WORD32 ==> v % WORD64 % WORD32 == if v >= 0 then v else v + WORD32
  {
  }

  lemma Sizes()
    ensures Power256(1) == 0x100 && Power256(2) == 0x1_0000 && Power256(4) == WORD32 && Power256(8) == WORD64
  {
  }

  /** Decode an integer of any of the varint types and check that its member can hold it. */
  method DecodeInt(stream: IStream, lt: LType, dest: int, ghost v: int, ghost tail: Bytes) returns (ok: bool, dest': int)
    requires stream.Ok() && (lt.VarintT? || lt.UVarintT? || lt.SVarintT?)
    requires ItemShaped(lt, IntItem(dest)) && ItemShaped(lt, IntItem(v))
    modifies stream
    ensures stream.Ok() && stream.End() <= old(stream.End()) && stream.bytesLeft <= old(stream.bytesLeft)
    ensures ok ==> stream.End() == old(stream.End())
    ensures ItemShaped(lt, IntItem(dest'))
    ensures old(stream.Faces(ItemBytes(lt, IntItem(v)).value + tail)) ==> ok && dest' == v && stream.Faces(tail)
  {
    hide IStream.Faces, Varint, Power256, AsSigned;
    Sizes();
    match lt {
      case VarintT(size) =>
        SignedSame(v, size);
        var value;
        ok, value := stream.DecodeVarint(v % WORD64, tail);
        if !ok {
          return false, dest;
        }
        var svalue := AsSigned(value, if size == 8 then 8 else 4);
        dest' := AsSigned(svalue, size);
        ok := dest' == svalue;
      case UVarintT(size) =>
        UnsignedSame(v, size);
        var value;
        ok, value := stream.DecodeVarint(v, tail);
        if !ok {
          return false, dest;
        }
        dest' := value % Power256(size);
        ok := dest' == value;
      case SVarintT(size) =>
        SignedSame(v, size);
        ZigzagSame(v, size);
        var value;
        ok, value := stream.DecodeVarint(Zigzag(v), tail);
        if !ok {
          return false, dest;
        }
        var svalue := Unzigzag(value);
        dest' := AsSigned(svalue, size);
        ok := dest' == svalue;
    }
  }

  function Unzigzag(value: nat): int {
    if value % 2 == 1 then -(value / 2) - 1 else value / 2
  }

  lemma UnsignedSame(v: int, size: nat)
    requires IntSize(size) && InUnsigned(v, size)
    ensures 0 <= v < WORD64 && v % Power256(size) == v
  {
    Sizes();
  }

  lemma ZigzagSame(v: int, size: nat)
    requires IntSize(size) && InSigned(v, size)
    ensures Zigzag(v) < WORD64 && Unzigzag(Zigzag(v)) == v
  {
    Sizes();
  }

  /** `item` can be decoded from its encoding: it is good, it has one, and its length fits 32 bits. */
  ghost predicate Ready(lt: LType, item: Item) {
    && ItemShaped(lt, item) && GoodItem(lt, item)
    && ItemBytes(lt, item).Some? && |ItemBytes(lt, item).value| < WORD32
  }

  predicate Inited(lt: LType, dest: Item)
    requires ItemShaped(lt, dest)
  {
    lt.SubmessageT? ==> Fresh(lt.desc, dest.m)
  }

  /** The bytes are an encoding of the value; of a submessage, one as a newer program may write it. */
  ghost predicate Carries(lt: LType, item: Item, body: Bytes)
    requires ItemShaped(lt, item)
    decreases lt
  {
    if lt.SubmessageT? then exists b: Bytes :: IsContent(lt.desc, item.m, b, body)
    else ItemBytes(lt, item) == Some(body)
  }

  ghost predicate IsContent(d: Desc, m: Message, b: Bytes, body: Bytes)
    requires Shaped(d, m)
    decreases d, |b|, |d.fields| + 2
  {
    |b| < WORD32 && body == Prefixed(b) && Extended(d, m, b)
  }

  ghost function ContentOf(d: Desc, m: Message, body: Bytes): (b: Bytes)
    requires Shaped(d, m) && exists b :: IsContent(d, m, b, body)
    ensures IsContent(d, m, b, body)
  {
    var b :| IsContent(d, m, b, body);
    b
  }

  /** The plain encoding is one. */
  lemma PlainCarries(lt: LType, item: Item)
    requires ItemShaped(lt, item) && ItemBytes(lt, item).Some? && |ItemBytes(lt, item).value| < WORD32
    ensures Carries(lt, item, ItemBytes(lt, item).value)
  {
    hide FieldsFrom, Varint;
    if lt.SubmessageT? {
      var b := Encoded(lt.desc, item.m).value;
      assert Place(lt.desc, item.m, 0, 0) && RestFrom(lt.desc, item.m, 0, 0) == Some(b);
      assert Mixed(lt.desc, item.m, 0, 0, b);
      assert Extended(lt.desc, item.m, b);
      assert IsContent(lt.desc, item.m, b, ItemBytes(lt, item).value);
    }
  }

  /** The decoder of a value, by type. A new array entry is initialized first (`init`). Facing the
      encoding of a good item it restores the item and reads just that. */
  method DecodeItem(stream: IStream, lt: LType, init: bool, dest: Item,
                    ghost good: bool, ghost item: Item, ghost body: Bytes, ghost tail: Bytes)
    returns (ok: bool, dest': Item)
    requires stream.Ok() && ItemShaped(lt, dest) && (lt.SubmessageT? ==> GoodDesc(lt.desc))
    requires good ==> Ready(lt, item) && (init || Inited(lt, dest)) && Carries(lt, item, body) && stream.Faces(body + tail)
    modifies stream
    ensures stream.Ok() && stream.End() <= old(stream.End()) && stream.bytesLeft <= old(stream.bytesLeft)
    ensures ok ==> stream.End() == old(stream.End())
    ensures ItemShaped(lt, dest')
    ensures good ==> ok && Restored(lt, item, dest') && stream.Faces(tail)
    decreases lt, 0
  {
    hide IStream.Faces, Varint, Power256, Fresh, GoodDesc, Shaped, EncodeFixed32, EncodeFixed64, DecodeFixed32, DecodeFixed64,
      Extended;
    match lt {
      case VarintT(_) =>
        var v;
        ok, v := DecodeInt(stream, lt, dest.v, if good then item.v else dest.v, tail);
        dest' := IntItem(v);
      case UVarintT(_) =>
        var v;
        ok, v := DecodeInt(stream, lt, dest.v, if good then item.v else dest.v, tail);
        dest' := IntItem(v);
      case SVarintT(_) =>
        var v;
        ok, v := DecodeInt(stream, lt, dest.v, if good then item.v else dest.v, tail);
        dest' := IntItem(v);
      case Fixed32T =>
        var buf;
        ok, buf := stream.Read(4, if good then EncodeFixed32(item.v) else [], tail);
        dest' := if ok then IntItem(DecodeFixed32(buf)) else dest;
      case Fixed64T =>
        var buf;
        ok, buf := stream.Read(8, if good then EncodeFixed64(item.v) else [], tail);
        dest' := if ok then IntItem(DecodeFixed64(buf)) else dest;
      case BytesT(capacity) => ok, dest' := DecodeBytes(stream, capacity, dest, good, item, tail);
      case StringT(size) => ok, dest' := DecodeString(stream, size, dest, good, if good then CString(item.b) else [], tail);
      case FixedBytesT(size) => ok, dest' := DecodeFixedBytes(stream, size, dest, good, item, tail);
      case SubmessageT(d) =>
        var m;
        ghost var b := if good then ContentOf(d, item.m, body) else [];
        ok, m := DecodeSubmessage(stream, d, init, dest.m, good, if good then item.m else dest.m, b, tail);
        dest' := MsgItem(m);
    }
  }

  method DecodeBytes(stream: IStream, capacity: nat, dest: Item, ghost good: bool, ghost item: Item, ghost tail: Bytes)
    returns (ok: bool, dest': Item)
    requires stream.Ok() && dest.BlobItem?
    requires good ==> Ready(BytesT(capacity), item) && stream.Faces(Prefixed(item.b) + tail)
    modifies stream
    ensures stream.Ok() && stream.End() <= old(stream.End()) && stream.bytesLeft <= old(stream.bytesLeft)
    ensures ok ==> stream.End() == old(stream.End())
    ensures dest'.BlobItem? && (good ==> ok && dest' == item && stream.Faces(tail))
  {
    hide IStream.Faces, Varint;
    ghost var b: Bytes := if good then item.b else [];
    PrefixedParts(b, tail);
    var eof, size, buf;
    dest' := dest;
    ok, eof, size := stream.DecodeVarint32(if good then |b| else 0, b + tail);
    if !ok {
      return;
    }
    if size > capacity {
      return false, dest';
    }
    ok, buf := stream.Read(size, b, tail);
    if ok {
      dest' := BlobItem(buf);
    }
  }

  /** Decode a string. It is accepted exactly when its array has room for it and a terminator; so a
      string that was encoded from an array without one is refused. */
  method DecodeString(stream: IStream, capacity: nat, dest: Item, ghost good: bool, ghost s: Bytes, ghost tail: Bytes)
    returns (ok: bool, dest': Item)
    requires stream.Ok() && ItemShaped(StringT(capacity), dest)
    requires good ==> |s| < WORD32 && 0 !in s && stream.Faces(Prefixed(s) + tail)
    modifies stream
    ensures stream.Ok() && stream.End() <= old(stream.End()) && stream.bytesLeft <= old(stream.bytesLeft)
    ensures ok ==> stream.End() == old(stream.End())
    ensures ItemShaped(StringT(capacity), dest')
    ensures good ==> (ok <==> |s| < capacity)
    ensures good && ok ==> CString(dest'.b) == s && stream.Faces(tail)
  {
    hide IStream.Faces, Varint;
    ghost var b: Bytes := if good then s else [];
    PrefixedParts(b, tail);
    var eof, size, buf;
    dest' := dest;
    ok, eof, size := stream.DecodeVarint32(if good then |b| else 0, b + tail);
    if !ok {
      return;
    }
    // room for the terminator too
    if size + 1 > capacity {
      return false, dest';
    }
    ok, buf := stream.Read(size, b, tail);
    if ok {
      dest' := BlobItem(buf + [0] + dest.b[size + 1..]);
      if good {
        Terminated(b, dest.b[size + 1..]);
      }
    }
  }

  lemma {:induction false} Terminated(s: Bytes, rest: Bytes)
    requires 0 !in s
    ensures CString(s + [0] + rest) == s
  {
    var b := s + [0] + rest;
    if s == [] {
    } else {
      assert s[0] in s;
      assert b[1..] == s[1..] + [0] + rest;
      Terminated(s[1..], rest);
    }
  }

  method DecodeFixedBytes(stream: IStream, size: nat, dest: Item, ghost good: bool, ghost item: Item, ghost tail: Bytes)
    returns (ok: bool, dest': Item)
    requires stream.Ok() && ItemShaped(FixedBytesT(size), dest)
    requires good ==> Ready(FixedBytesT(size), item) && stream.Faces(Prefixed(item.b) + tail)
    modifies stream
    ensures stream.Ok() && stream.End() <= old(stream.End()) && stream.bytesLeft <= old(stream.bytesLeft)
    ensures ok ==> stream.End() == old(stream.End())
    ensures ItemShaped(FixedBytesT(size), dest') && (good ==> ok && dest' == item && stream.Faces(tail))
  {
    hide IStream.Faces, Varint;
    ghost var b: Bytes := if good then item.b else [];
    PrefixedParts(b, tail);
    var eof, n, buf;
    dest' := dest;
    ok, eof, n := stream.DecodeVarint32(if good then |b| else 0, b + tail);
    if !ok {
      return;
    }
    if n == 0 {
      // an empty string stands for all zeros
      dest' := BlobItem(Zeros(size));
      assert b + tail == tail || !good;
      return;
    }
    if n != size {
      return false, dest';
    }
    ok, buf := stream.Read(size, b, tail);
    if ok {
      dest' := BlobItem(buf);
    }
  }

  /** Decode a submessage from a stream of its length. Entries of arrays are initialized; others have
      been, together with the message they are in. */
  method DecodeSubmessage(stream: IStream, d: Desc, init: bool, dest: Message,
                          ghost good: bool, ghost m: Message, ghost b: Bytes, ghost tail: Bytes)
    returns (ok: bool, dest': Message)
    requires stream.Ok() && Shaped(d, dest) && GoodDesc(d)
    requires good ==>
               && Shaped(d, m) && GoodMessage(d, m) && Encoded(d, m).Some? && |Encoded(d, m).value| < WORD32
               && (init || Fresh(d, dest)) && |b| < WORD32 && Extended(d, m, b) && stream.Faces(Prefixed(b) + tail)
    modifies stream
    ensures stream.Ok() && stream.End() <= old(stream.End()) && stream.bytesLeft <= old(stream.bytesLeft)
    ensures ok ==> stream.End() == old(stream.End())
    ensures Shaped(d, dest')
    ensures good ==> ok && RestoredMessage(d, m, dest') && stream.Faces(tail)
    decreases d, 4
  {
    hide Fresh, Shaped, GoodMessage, GoodDesc, FieldsFrom, RestoredMessage, Varint, Extended;
    dest' := dest;
    var substream;
    ok, substream := stream.MakeStringSubstream(b, tail);
    if !ok {
      return;
    }
    ghost var end := substream.End();
    if init {
      ok, dest' := Decode(substream, d, dest, good, m);
    } else {
      ok, dest' := DecodeNoinit(substream, d, dest, good, m);
    }
    stream.CloseStringSubstream(substream, tail);
  }

  /** Decode into a struct, initializing it first. */
  method Decode(stream: IStream, d: Desc, dest: Message, ghost good: bool, ghost m: Message) returns (ok: bool, dest': Message)
    requires stream.Ok() && Shaped(d, dest) && GoodDesc(d)
    requires good ==>
               && Shaped(d, m) && GoodMessage(d, m) && Encoded(d, m).Some? && |Encoded(d, m).value| < WORD32
               && stream.bytesLeft < WORD32 && Extended(d, m, stream.Rest())
    modifies stream
    ensures stream.Ok() && stream.End() <= old(stream.End()) && stream.bytesLeft <= old(stream.bytesLeft)
    ensures ok ==> stream.End() == old(stream.End())
    ensures Shaped(d, dest')
    ensures good ==> ok && RestoredMessage(d, m, dest')
    decreases d, 3
  {
    hide Shaped, GoodMessage, GoodDesc, FieldsFrom, RestoredMessage, Fresh, Extended;
    var g := SetToDefaults(d, dest);
    ok, dest' := DecodeNoinit(stream, d, g, good, m);
  }

  lemma ExactIsExtended(stream: IStream, d: Desc, m: Message)
    requires Shaped(d, m) && Encoded(d, m).Some? && stream.Faces(Encoded(d, m).value)
    ensures Extended(d, m, stream.Rest())
  {
    hide FieldsFrom;
    assert Place(d, m, 0, 0) && RestFrom(d, m, 0, 0) == Encoded(d, m);
  }

  /** The payload of one tag: all entries of a packed array, or one value. */
  function Payload(f: Field, items: seq<Item>): Option<Bytes>
    requires items != [] && forall item :: item in items ==> ItemShaped(f.ltype, item)
  {
    if f.htype.RepeatedH? && Packable(f.ltype) then
      var data := ItemsBytes(f.ltype, items);
      if data.None? then None else Some(Prefixed(data.value))
    else ItemBytes(f.ltype, items[0])
  }

  function PieceType(f: Field): nat {
    if f.htype.RepeatedH? && Packable(f.ltype) then WT_STRING else WireType(f.ltype)
  }

  /** The values that one tag brings: a packed array whole, or one value. */
  ghost predicate ReadyPiece(f: Field, slot: Slot, items: seq<Item>)
    requires SlotShaped(f, slot)
  {
    && items != [] && (forall item :: item in items ==> ItemShaped(f.ltype, item))
    && Payload(f, items).Some? && |Payload(f, items).value| < WORD32
    && (if f.htype.RepeatedH? && Packable(f.ltype) then slot.items == [] && |items| <= f.htype.arraySize
        else |items| == 1 && Ready(f.ltype, items[0]) &&
             match f.htype
             case RequiredH => FreshItem(f, slot.item)
             case OptionalH => FreshItem(f, slot.item)
             case RepeatedH(n) => |slot.items| < n
             case OneofH(_) => true)
  }

  /** What decoding the values makes of the member. */
  ghost predicate TookPiece(f: Field, slot: Slot, items: seq<Item>, got: Slot)
    requires SlotShaped(f, slot) && SlotShaped(f, got) && items != [] && forall item :: item in items ==> ItemShaped(f.ltype, item)
  {
    match f.htype
    case RequiredH => Restored(f.ltype, items[0], got.item)
    case OneofH(_) => Restored(f.ltype, items[0], got.item)
    case OptionalH => got.has && Restored(f.ltype, items[0], got.item)
    case RepeatedH(_) =>
      && |got.items| == |slot.items| + |items| && got.items[..|slot.items|] == slot.items
      && forall j :: 0 <= j < |items| ==> Restored(f.ltype, items[j], got.items[|slot.items| + j])
  }

  /** The bytes are an encoding of what one tag brings. */
  ghost predicate CarriesAll(f: Field, items: seq<Item>, body: Bytes)
    requires items != [] && forall item :: item in items ==> ItemShaped(f.ltype, item)
    decreases f
  {
    if f.htype.RepeatedH? && Packable(f.ltype) then Payload(f, items) == Some(body) else Carries(f.ltype, items[0], body)
  }

  lemma PlainPayload(f: Field, items: seq<Item>)
    requires items != [] && forall item :: item in items ==> ItemShaped(f.ltype, item)
    requires Payload(f, items).Some? && |Payload(f, items).value| < WORD32
    ensures CarriesAll(f, items, Payload(f, items).value)
  {
    hide ItemBytes, ItemsBytes, ItemShaped, Carries;
    assert items[0] in items;
    if !(f.htype.RepeatedH? && Packable(f.ltype)) {
      PlainCarries(f.ltype, items[0]);
    }
  }

  /** Decode what follows a tag into its member, by the rule of the field. */
  method DecodeStaticField(stream: IStream, wireType: nat, f: Field, slot: Slot, which: seq<nat>,
                           ghost good: bool, ghost items: seq<Item>, ghost body: Bytes, ghost tail: Bytes)
    returns (ok: bool, slot': Slot, which': seq<nat>)
    requires stream.Ok() && SlotShaped(f, slot) && GoodField(f) && (f.htype.OneofH? ==> f.htype.group < |which|)
    requires good ==> wireType == PieceType(f) && ReadyPiece(f, slot, items) && CarriesAll(f, items, body) && stream.Faces(body + tail)
    modifies stream
    ensures stream.Ok() && stream.End() <= old(stream.End()) && stream.bytesLeft <= old(stream.bytesLeft)
    ensures ok ==> stream.End() == old(stream.End())
    ensures SlotShaped(f, slot')
    ensures which' == match f.htype case OneofH(group) => which[group := f.tag] case _ => which
    ensures good ==> ok && TookPiece(f, slot, items, slot') && stream.Faces(tail)
    decreases f, 1
  {
    hide IStream.Faces, ItemShaped, ItemBytes, GoodItem, Restored, FreshItem, Ready, GoodDesc, Carries;
    slot', which' := slot, which;
    ghost var item := if good then items[0] else f.init;
    ReadyMeans(f, slot, items, good);
    match f.htype {
      case RequiredH =>
        var x;
        ok, x := DecodeItem(stream, f.ltype, false, slot.item, good, item, body, tail);
        slot' := Single(x);
      case OptionalH =>
        var x;
        ok, x := DecodeItem(stream, f.ltype, false, slot.item, good, item, body, tail);
        slot' := Maybe(true, x);
      case RepeatedH(arraySize) =>
        if wireType == WT_STRING && Packable(f.ltype) {
          ok, slot' := DecodePacked(stream, f, slot, good, items, tail);
        } else {
          if |slot.items| >= arraySize {
            return false, slot', which';
          }
          NotPacked(f, wireType, good);
          var x;
          ok, x := DecodeItem(stream, f.ltype, true, f.init, good, item, body, tail);
          slot' := Many(slot.items + [x]);
        }
      case OneofH(group) =>
        which' := which[group := f.tag];
        var x := f.init;
        if f.ltype.SubmessageT? {
          x := DefaultItem(f, f.init);
        }
        OneofInited(f, x);
        ok, x := DecodeItem(stream, f.ltype, false, x, good, item, body, tail);
        slot' := Single(x);
    }
  }

  lemma NotPacked(f: Field, wireType: nat, good: bool)
    requires good ==> wireType == PieceType(f)
    ensures good && f.htype.RepeatedH? && !(wireType == WT_STRING && Packable(f.ltype)) ==> !Packable(f.ltype)
  {
  }

  lemma OneofInited(f: Field, x: Item)
    requires ItemShaped(f.ltype, x) && (f.ltype.SubmessageT? ==> FreshItem(f, x))
    ensures Inited(f.ltype, x)
  {
  }

  lemma ReadyMeans(f: Field, slot: Slot, items: seq<Item>, good: bool)
    requires SlotShaped(f, slot) && GoodField(f) && (good ==> ReadyPiece(f, slot, items))
    ensures f.ltype.SubmessageT? ==> GoodDesc(f.ltype.desc)
    ensures ItemShaped(f.ltype, f.init)
    ensures f.htype.RepeatedH? ==> forall x :: x in slot.items ==> ItemShaped(f.ltype, x)
    ensures !f.htype.RepeatedH? ==> ItemShaped(f.ltype, slot.item)
    ensures good ==> ItemShaped(f.ltype, items[0])
    ensures good && !(f.htype.RepeatedH? && Packable(f.ltype)) ==>
              |items| == 1 && Ready(f.ltype, items[0]) && Payload(f, items) == ItemBytes(f.ltype, items[0])
    ensures good && (f.htype.RequiredH? || f.htype.OptionalH?) ==> Inited(f.ltype, slot.item)
  {
    if good {
      assert items[0] in items;
    }
  }

  /** A packed array: values until its length is used up or the array is full. */
  method DecodePacked(stream: IStream, f: Field, slot: Slot, ghost good: bool, ghost items: seq<Item>, ghost tail: Bytes)
    returns (ok: bool, slot': Slot)
    requires stream.Ok() && SlotShaped(f, slot) && GoodField(f) && f.htype.RepeatedH? && Packable(f.ltype)
    requires good ==> ReadyPiece(f, slot, items) && stream.Faces(Payload(f, items).value + tail)
    modifies stream
    ensures stream.Ok() && stream.End() <= old(stream.End()) && stream.bytesLeft <= old(stream.bytesLeft)
    ensures ok ==> stream.End() == old(stream.End())
    ensures SlotShaped(f, slot')
    ensures good ==> ok && TookPiece(f, slot, items, slot') && stream.Faces(tail)
    decreases f, 0
  {
    hide IStream.Faces, ItemShaped, ItemsBytes, Restored, GoodDesc, Varint;
    ghost var data: Bytes := if good then ItemsBytes(f.ltype, items).value else [];
    slot' := slot;
    var substream;
    ok, substream := stream.MakeStringSubstream(data, tail);
    if !ok {
      return;
    }
    ghost var end := substream.End();
    ok, slot' := DecodeEntries(substream, f, slot, good, items);
    if substream.bytesLeft != 0 {
      // "array overflow"
      return false, slot';
    }
    stream.CloseStringSubstream(substream, tail);
  }

  method DecodeEntries(substream: IStream, f: Field, slot: Slot, ghost good: bool, ghost items: seq<Item>)
    returns (ok: bool, slot': Slot)
    requires substream.Ok() && SlotShaped(f, slot) && GoodField(f) && f.htype.RepeatedH? && Packable(f.ltype)
    requires good ==> ReadyPiece(f, slot, items) && substream.Faces(ItemsBytes(f.ltype, items).value)
    modifies substream
    ensures substream.Ok() && substream.End() <= old(substream.End()) && substream.bytesLeft <= old(substream.bytesLeft)
    ensures ok ==> substream.End() == old(substream.End())
    ensures SlotShaped(f, slot')
    ensures good ==> ok && TookPiece(f, slot, items, slot') && substream.bytesLeft == 0
    decreases f, 0, 0
  {
    hide IStream.Faces, ItemShaped, ItemsBytes, ItemBytes, Restored, GoodDesc, Carries;
    slot' := slot;
    ok := true;
    ghost var n := 0;
    ShapedItems(f, slot);
    if good { LeftOver(substream, f.ltype, items); }
    while substream.bytesLeft > 0 && |slot'.items| < f.htype.arraySize
      invariant substream.Ok() && substream.End() == old(substream.End()) && substream.bytesLeft <= old(substream.bytesLeft)
      invariant slot'.Many? && ok && forall x :: x in slot'.items ==> ItemShaped(f.ltype, x)
      invariant good ==> n <= |items| && |slot'.items| == n && |items| <= f.htype.arraySize
      invariant good ==> forall x :: x in items ==> ItemShaped(f.ltype, x)
      invariant good ==> ItemsBytes(f.ltype, items[n..]).Some? && substream.Faces(ItemsBytes(f.ltype, items[n..]).value)
      invariant good ==> |ItemsBytes(f.ltype, items[n..]).value| < WORD32 && (substream.bytesLeft > 0 <==> n < |items|)
      invariant good ==> forall j :: 0 <= j < n ==> Restored(f.ltype, items[j], slot'.items[j])
      decreases f.htype.arraySize - |slot'.items|
    {
      ghost var item, tail := f.init, [];
      if good {
        NextEntry(f.ltype, items, n);
        item, tail := items[n], ItemsBytes(f.ltype, items[n + 1..]).value;
      }
      var x;
      if good { PlainCarries(f.ltype, item); }
      ok, x := DecodeItem(substream, f.ltype, false, f.init, good, item, if good then ItemBytes(f.ltype, item).value else [], tail);
      if !ok {
        return;
      }
      slot' := Many(slot'.items + [x]);
      n := n + 1;
      if good { LeftOver(substream, f.ltype, items[n..]); }
    }
  }

  lemma ShapedItems(f: Field, slot: Slot)
    requires SlotShaped(f, slot) && GoodField(f) && f.htype.RepeatedH? && Packable(f.ltype)
    ensures slot.Many? && ItemShaped(f.ltype, f.init) && forall x :: x in slot.items ==> ItemShaped(f.ltype, x)
    ensures Inited(f.ltype, f.init)
  {
  }

  /** A stream that faces packed values has bytes left exactly while there are values. */
  lemma LeftOver(stream: IStream, lt: LType, items: seq<Item>)
    requires Packable(lt) && forall x :: x in items ==> ItemShaped(lt, x)
    requires ItemsBytes(lt, items).Some? && stream.Faces(ItemsBytes(lt, items).value)
    ensures stream.bytesLeft > 0 <==> items != []
    ensures items[0..] == items
  {
  }

  lemma NextEntry(lt: LType, items: seq<Item>, n: nat)
    requires Packable(lt) && n < |items| && forall x :: x in items ==> ItemShaped(lt, x)
    requires ItemsBytes(lt, items[n..]).Some? && |ItemsBytes(lt, items[n..]).value| < WORD32
    ensures Ready(lt, items[n]) && ItemsBytes(lt, items[n + 1..]).Some?
    ensures |ItemsBytes(lt, items[n + 1..]).value| < WORD32
    ensures ItemsBytes(lt, items[n..]).value == ItemBytes(lt, items[n]).value + ItemsBytes(lt, items[n + 1..]).value
  {
    assert items[n..][1..] == items[n + 1..];
  }

  // ----- The required fields seen -----

  const MAX_REQUIRED: nat := 64

  /** Required field number `r` was seen. */
  predicate SeenBit(fieldsSeen: seq<Word32>, r: nat) {
    |fieldsSeen| == 2 && r < MAX_REQUIRED && HasBit(fieldsSeen[r / 32], r % 32)
  }

  /** Set the bit of a required field. */
  method MarkSeen(fieldsSeen: seq<Word32>, index: nat) returns (seen: seq<Word32>)
    requires |fieldsSeen| == 2 && index < MAX_REQUIRED
    ensures |seen| == 2 && forall r: nat :: SeenBit(seen, r) <==> r == index || SeenBit(fieldsSeen, r)
  {
    hide HasBit, WithBit;
    Powers();
    var word: nat := fieldsSeen[index / 32];
    WithBitFits(word, index % 32, 32);
    seen := fieldsSeen[index / 32 := WithBit(word, index % 32)];
    forall r: nat
      ensures SeenBit(seen, r) <==> r == index || SeenBit(fieldsSeen, r)
    {
      WithBitHas(word, index % 32, r % 32);
    }
  }

  /** Note the iterator's field as seen, if it is a required one that is tracked. */
  method NoteRequired(iter: FieldIter, fieldsSeen: seq<Word32>) returns (seen: seq<Word32>)
    requires iter.Ok() && iter.pos < |iter.fields| && |fieldsSeen| == 2
    requires forall r: nat :: SeenBit(fieldsSeen, r) ==> r < Requireds(iter.fields, |iter.fields|)
    ensures |seen| == 2 && forall r: nat :: SeenBit(seen, r) ==> r < Requireds(iter.fields, |iter.fields|)
    ensures forall r: nat :: SeenBit(fieldsSeen, r) ==> SeenBit(seen, r)
    ensures var r := Requireds(iter.fields, iter.pos);
            iter.fields[iter.pos].htype.RequiredH? && r < MAX_REQUIRED ==> SeenBit(seen, r)
  {
    hide SeenBit, Requireds;
    seen := fieldsSeen;
    RequiredIndex(iter.fields, iter.pos);
    if iter.fields[iter.pos].htype.RequiredH? && iter.requiredFieldIndex < MAX_REQUIRED {
      seen := MarkSeen(fieldsSeen, iter.requiredFieldIndex);
    }
  }

  /** Whether all required fields, as far as they are tracked, were seen: whole words are compared,
      then the bits left over. */
  method CheckRequired(iter: FieldIter, fieldsSeen: seq<Word32>) returns (ok: bool)
    requires iter.Ok() && |fieldsSeen| == 2
    requires forall r: nat :: SeenBit(fieldsSeen, r) ==> r < Requireds(iter.fields, |iter.fields|)
    modifies iter
    ensures ok <==> forall r: nat :: r < MAX_REQUIRED && r < Requireds(iter.fields, |iter.fields|) ==> SeenBit(fieldsSeen, r)
  {
    hide HasBit;
    var count := CountRequired(iter);
    if count > MAX_REQUIRED {
      count := MAX_REQUIRED;
    }
    Powers();
    ok := true;
    var i := 0;
    while i < count / 32 && ok
      invariant i <= count / 32
      invariant ok ==> forall r: nat :: r < 32 * i ==> SeenBit(fieldsSeen, r)
      invariant !ok ==> exists r: nat :: r < count && !SeenBit(fieldsSeen, r)
    {
      AllBits(fieldsSeen[i], 32, 32);
      WordSeen(fieldsSeen, i, 32);
      if fieldsSeen[i] != 0xffff_ffff {
        ok := false;
      }
      i := i + 1;
    }
    if ok && count % 32 != 0 {
      assert i == count / 32 < 2;
      AllBits(fieldsSeen[i], 32, count % 32);
      WordSeen(fieldsSeen, i, count % 32);
      ok := fieldsSeen[i] == Power2(count % 32) - 1;
    }
  }

  /** A word's bits are those of 32 required fields. */
  lemma WordSeen(fieldsSeen: seq<Word32>, i: nat, m: nat)
    requires |fieldsSeen| == 2 && i < 2 && m <= 32
    requires forall r: nat :: 32 * i + m <= r < 32 * i + 32 ==> !SeenBit(fieldsSeen, r)
    ensures JustBelow(fieldsSeen[i], 32, m) <==> forall r: nat :: 32 * i <= r < 32 * i + m ==> SeenBit(fieldsSeen, r)
  {
    hide HasBit;
    forall r: nat | 32 * i <= r < 32 * i + 32
      ensures SeenBit(fieldsSeen, r) <==> HasBit(fieldsSeen[i], r - 32 * i)
    {
    }
    if JustBelow(fieldsSeen[i], 32, m) {
    } else {
      var k: nat :| k < 32 && (HasBit(fieldsSeen[i], k) != (k < m));
      assert SeenBit(fieldsSeen, 32 * i + k) <==> HasBit(fieldsSeen[i], k);
    }
    if forall r: nat :: 32 * i <= r < 32 * i + m ==> SeenBit(fieldsSeen, r) {
      forall k: nat | k < 32
        ensures HasBit(fieldsSeen[i], k) <==> k < m
      {
        assert SeenBit(fieldsSeen, 32 * i + k) <==> HasBit(fieldsSeen[i], k);
      }
    }
  }

  /** Count the required fields by going on to the last field. */
  method CountRequired(iter: FieldIter) returns (count: nat)
    requires iter.Ok()
    modifies iter
    ensures count == Requireds(iter.fields, |iter.fields|)
  {
    count := iter.requiredFieldIndex;
    ghost var last := iter.pos;
    var lastRequired := iter.pos < |iter.fields| && iter.fields[iter.pos].htype.RequiredH?;
    var more := iter.Next();
    while more
      invariant iter.Ok() && last <= |iter.fields| && (more ==> iter.pos == last + 1)
      invariant iter.fields != [] ==> last < |iter.fields| && (more <==> last + 1 < |iter.fields|)
      invariant iter.fields == [] ==> last == 0 && !more
      invariant count == Requireds(iter.fields, last)
      invariant lastRequired <==> last < |iter.fields| && iter.fields[last].htype.RequiredH?
      decreases |iter.fields| - last
    {
      count := iter.requiredFieldIndex;
      last := iter.pos;
      lastRequired := iter.fields[iter.pos].htype.RequiredH?;
      more := iter.Next();
    }
    // the last field is not counted by the iterator
    if lastRequired && |iter.fields| > 0 {
      count := count + 1;
    }
  }

  // ----- Where decoding stands in the encoding of a message -----

  predicate Unpacked(f: Field) {
    f.htype.RepeatedH? && !Packable(f.ltype)
  }

  lemma ShapedSlot(d: Desc, m: Message, i: nat)
    requires Shaped(d, m) && i < |d.fields|
    ensures SlotShaped(d.fields[i], m.slots[i]) && (d.fields[i].htype.OneofH? ==> d.fields[i].htype.group < |m.which|)
    ensures d.fields[i].htype.RepeatedH? ==>
              m.slots[i].Many? && forall x :: x in m.slots[i].items ==> ItemShaped(d.fields[i].ltype, x)
  {
  }

  /** The entries of an array field. */
  function Entries(d: Desc, m: Message, i: nat): (es: seq<Item>)
    requires Shaped(d, m) && i < |d.fields| && d.fields[i].htype.RepeatedH?
    ensures forall x :: x in es ==> ItemShaped(d.fields[i].ltype, x)
    ensures m.slots[i] == Many(es)
  {
    ShapedSlot(d, m, i);
    m.slots[i].items
  }

  /** Fields before the `i`-th are done, and `j` entries of an array that is not packed. */
  predicate Place(d: Desc, m: Message, i: nat, j: nat)
    requires Shaped(d, m)
  {
    i <= |d.fields| &&
    (j > 0 ==> i < |d.fields| && Unpacked(d.fields[i]) && j <= |Entries(d, m, i)| <= d.fields[i].htype.arraySize)
  }

  function RestFrom(d: Desc, m: Message, i: nat, j: nat): Option<Bytes>
    requires Shaped(d, m) && Place(d, m, i, j)
  {
    if j == 0 then FieldsFrom(d, m, i)
    else Join(TaggedItems(d.fields[i], Entries(d, m, i)[j..]), FieldsFrom(d, m, i + 1))
  }

  /** A field of a tag that the descriptor does not have. */
  datatype Unknown = Unknown(tag: nat, wireType: nat, body: Bytes)

  ghost predicate IsUnknown(d: Desc, u: Unknown) {
    && (forall f :: f in d.fields ==> f.tag != u.tag)
    && 0 < u.tag && u.wireType < 8 && 8 * u.tag + u.wireType < WORD32 && Skippable(u.wireType, u.body)
  }

  ghost predicate UnknownThen(d: Desc, u: Unknown, rest: Bytes, b: Bytes) {
    IsUnknown(d, u) && |rest| < |b| && b == TagBytes(u.wireType, u.tag) + (u.body + rest)
  }

  /** The bytes of the next tag of the message and its payload, and then `rest`. */
  ghost predicate PieceThen(d: Desc, m: Message, i: nat, j: nat, body: Bytes, rest: Bytes, b: Bytes)
    requires Shaped(d, m) && Place(d, m, i, j) && Busy(d, m, i, j)
    decreases d, |b|, |d.fields| - i, 0
  {
    var f, items, next := d.fields[i], PieceItems(d, m, i, j), NextPlace(d, i, j);
    Place(d, m, next.0, next.1) && CarriesAll(f, items, body) && |rest| < |b| &&
    b == TagBytes(PieceType(f), f.tag) + (body + rest)
  }

  /** `b` is what the encoding of the message has from a place on, with any number of fields of other
      tags in front of any of its own and at the end, and in its submessages likewise. */
  ghost predicate Mixed(d: Desc, m: Message, i: nat, j: nat, b: Bytes)
    requires Shaped(d, m) && Place(d, m, i, j)
    decreases d, |b|, |d.fields| - i, 1
  {
    || RestFrom(d, m, i, j) == Some(b)
    || (exists u, rest :: UnknownThen(d, u, rest, b) && Mixed(d, m, i, j, rest))
    || (i < |d.fields| &&
        if Busy(d, m, i, j) then
          exists body, rest ::
            PieceThen(d, m, i, j, body, rest, b) && Mixed(d, m, NextPlace(d, i, j).0, NextPlace(d, i, j).1, rest)
        else Mixed(d, m, i + 1, 0, b))
  }

  /** An encoding of the message as a newer program may write it, whose descriptor has more fields. */
  ghost predicate Extended(d: Desc, m: Message, b: Bytes)
    requires Shaped(d, m)
    decreases d, |b|, |d.fields| + 1
  {
    Mixed(d, m, 0, 0, b)
  }

  ghost predicate SlotDone(d: Desc, m: Message, g: Message, k: nat)
    requires Shaped(d, m) && Shaped(d, g) && k < |d.fields|
  {
    RestoredSlot(d.fields[k], m.slots[k], m.which, g.slots[k], g.which)
  }

  ghost predicate WhichOk(d: Desc, m: Message, g: Message, k: nat)
    requires Shaped(d, m) && Shaped(d, g) && k < |d.fields|
  {
    d.fields[k].htype.OneofH? ==>
      var group := d.fields[k].htype.group; g.which[group] == 0 || g.which[group] == m.which[group]
  }

  ghost predicate EntriesDone(lt: LType, items: seq<Item>, got: seq<Item>, j: nat)
    requires forall x :: x in items ==> ItemShaped(lt, x)
    requires forall x :: x in got ==> ItemShaped(lt, x)
  {
    j <= |items| && |got| == j && forall n :: 0 <= n < j ==> Restored(lt, items[n], got[n])
  }

  /** What has been decoded so far is restored, and the rest is as it was initialized. */
  ghost predicate At(d: Desc, m: Message, g: Message, i: nat, j: nat)
    requires Shaped(d, m) && Shaped(d, g)
  {
    && Place(d, m, i, j)
    && (forall k: nat :: k < i ==> SlotDone(d, m, g, k))
    && (forall k: nat :: i < k < |d.fields| ==> FreshSlot(d.fields[k], g.slots[k]))
    && (i < |d.fields| ==>
          if j == 0 then FreshSlot(d.fields[i], g.slots[i])
          else EntriesDone(d.fields[i].ltype, Entries(d, m, i), Entries(d, g, i), j))
    && (forall k: nat :: k < |d.fields| ==> WhichOk(d, m, g, k))
  }

  /** There is something to decode at the place. */
  ghost predicate Busy(d: Desc, m: Message, i: nat, j: nat)
    requires Shaped(d, m) && Place(d, m, i, j)
  {
    i < |d.fields| &&
    if j == 0 then
      ShapedSlot(d, m, i);
      FieldBytes(d.fields[i], m.slots[i], m.which) != Some([])
    else j < |Entries(d, m, i)|
  }

  /** Pass over fields that are absent. */
  lemma {:induction false} Settle(d: Desc, m: Message, g: Message, i: nat, j: nat) returns (i': nat, j': nat)
    requires Shaped(d, m) && Shaped(d, g) && At(d, m, g, i, j) && RestFrom(d, m, i, j).Some?
    ensures At(d, m, g, i', j') && RestFrom(d, m, i', j') == RestFrom(d, m, i, j)
    ensures i' == |d.fields| || Busy(d, m, i', j')
    ensures i <= i' && (j > 0 || Requireds(d.fields, i') == Requireds(d.fields, i))
    ensures j > 0 ==> Requireds(d.fields, i') == Requireds(d.fields, i)
    decreases |d.fields| - i
  {
    hide Fresh, ItemBytes, ItemShaped, Restored, GoodDesc;
    i', j' := i, j;
    if i < |d.fields| && !Busy(d, m, i, j) {
      PassOver(d, m, g, i, j);
      i', j' := Settle(d, m, g, i + 1, 0);
    }
  }

  lemma PassOver(d: Desc, m: Message, g: Message, i: nat, j: nat)
    requires Shaped(d, m) && Shaped(d, g) && At(d, m, g, i, j) && RestFrom(d, m, i, j).Some?
    requires i < |d.fields| && !Busy(d, m, i, j)
    ensures At(d, m, g, i + 1, 0) && RestFrom(d, m, i + 1, 0) == RestFrom(d, m, i, j)
    ensures Requireds(d.fields, i + 1) == Requireds(d.fields, i)
  {
    hide ItemBytes, ItemShaped, Restored, FreshItem;
    var f := d.fields[i];
    ShapedSlot(d, m, i);
    ShapedSlot(d, g, i);
    JoinAssociates(FieldsFrom(d, m, i + 1), None, None);
    if j > 0 {
      assert Entries(d, m, i)[j..] == [];
      JoinAssociates(FieldsFrom(d, m, i + 1), None, None);
    } else {
      AbsentField(f, m.slots[i], m.which, g.slots[i], g.which);
    }
  }

  lemma TagNotEmpty(wireType: nat, tag: nat)
    ensures |TagBytes(wireType, tag)| > 0
  {
  }

  /** A field that encodes to nothing is restored by leaving it at its default. */
  lemma AbsentField(f: Field, slot: Slot, which: seq<nat>, got: Slot, gotWhich: seq<nat>)
    requires SlotShaped(f, slot) && SlotShaped(f, got) && FreshSlot(f, got)
    requires f.htype.OneofH? ==> f.htype.group < |which| && f.htype.group < |gotWhich|
    requires FieldBytes(f, slot, which) == Some([])
    ensures RestoredSlot(f, slot, which, got, gotWhich) && !f.htype.RequiredH?
  {
    hide ItemBytes, ItemShaped, Restored, FreshItem, Tagged, ArrayBytes;
    if f.htype.RepeatedH? {
      if slot.items != [] {
        ArrayNotEmpty(f, slot.items);
      }
    } else {
      TaggedNotEmpty(f, slot.item);
    }
  }

  lemma JoinNotEmpty(x: Bytes, y: Option<Bytes>)
    requires |x| > 0
    ensures Join(Some(x), y) != Some([])
  {
  }

  lemma TaggedNotEmpty(f: Field, item: Item)
    requires ItemShaped(f.ltype, item)
    ensures Tagged(f, item) != Some([]) && (Tagged(f, item).Some? ==> |Tagged(f, item).value| > 0)
  {
    hide ItemBytes, ItemShaped, TagBytes;
    TagNotEmpty(WireType(f.ltype), f.tag);
    JoinNotEmpty(TagBytes(WireType(f.ltype), f.tag), ItemBytes(f.ltype, item));
  }

  lemma ArrayNotEmpty(f: Field, items: seq<Item>)
    requires f.htype.RepeatedH? && items != [] && forall item :: item in items ==> ItemShaped(f.ltype, item)
    ensures ArrayBytes(f, items) != Some([])
  {
    hide ItemsBytes, ItemShaped, TagBytes, Tagged;
    TagNotEmpty(WT_STRING, f.tag);
    TaggedNotEmpty(f, items[0]);
    if Tagged(f, items[0]).Some? {
      JoinNotEmpty(Tagged(f, items[0]).value, TaggedItems(f, items[1..]));
    }
  }

  // ----- One step -----

  /** The values that the next tag brings. */
  ghost function PieceItems(d: Desc, m: Message, i: nat, j: nat): (items: seq<Item>)
    requires Shaped(d, m) && Place(d, m, i, j) && Busy(d, m, i, j)
    ensures items != [] && forall x :: x in items ==> ItemShaped(d.fields[i].ltype, x)
  {
    ShapedSlot(d, m, i);
    if !d.fields[i].htype.RepeatedH? then [m.slots[i].item]
    else if Unpacked(d.fields[i]) then UnpackedBusy(d, m, i, j); [Entries(d, m, i)[j]]
    else UnpackedBusy(d, m, i, j); Entries(d, m, i)
  }

  lemma UnpackedBusy(d: Desc, m: Message, i: nat, j: nat)
    requires Shaped(d, m) && Place(d, m, i, j) && Busy(d, m, i, j) && d.fields[i].htype.RepeatedH?
    ensures j < |Entries(d, m, i)| && (!Unpacked(d.fields[i]) ==> j == 0)
  {
    hide ItemShaped, ItemsBytes, TaggedItems;
    ShapedSlot(d, m, i);
    EmptyArray(d.fields[i], m.slots[i], m.which);
  }

  lemma EmptyArray(f: Field, slot: Slot, which: seq<nat>)
    requires SlotShaped(f, slot) && f.htype.RepeatedH?
    ensures slot.items == [] ==> FieldBytes(f, slot, which) == Some([])
  {
    hide ItemShaped, ItemsBytes, TaggedItems;
  }

  /** The place after the next tag. */
  ghost function NextPlace(d: Desc, i: nat, j: nat): (nat, nat)
    requires i < |d.fields|
  {
    if Unpacked(d.fields[i]) then (i, j + 1) else (i + 1, 0)
  }

  /** The next bytes are a tag, its payload and what follows. */
  lemma PieceBytes(d: Desc, m: Message, i: nat, j: nat)
    requires Shaped(d, m) && Place(d, m, i, j) && Busy(d, m, i, j) && RestFrom(d, m, i, j).Some?
    ensures var f, items, (i2, j2) := d.fields[i], PieceItems(d, m, i, j), NextPlace(d, i, j);
            && Place(d, m, i2, j2) && RestFrom(d, m, i2, j2).Some? && Payload(f, items).Some?
            && RestFrom(d, m, i, j).value ==
                 TagBytes(PieceType(f), f.tag) + (Payload(f, items).value + RestFrom(d, m, i2, j2).value)
            && (f.htype.RepeatedH? ==> |Entries(d, m, i)| <= f.htype.arraySize)
  {
    hide ItemBytes, ItemShaped, ItemsBytes, TagBytes, TaggedItems, Tagged;
    var f := d.fields[i];
    ShapedSlot(d, m, i);
    var tag := TagBytes(PieceType(f), f.tag);
    if !f.htype.RepeatedH? {
      SinglePiece(f, m.slots[i], m.which, FieldsFrom(d, m, i + 1));
    } else {
      UnpackedBusy(d, m, i, j);
      var items := Entries(d, m, i);
      if Unpacked(f) {
        UnpackedPiece(f, items, j, FieldsFrom(d, m, i + 1));
      } else {
        PackedPiece(f, items, FieldsFrom(d, m, i + 1));
      }
    }
  }

  lemma Regroup3(a: Bytes, b: Bytes, c: Bytes)
    ensures a + b + c == a + (b + c)
  {
  }

  lemma SinglePiece(f: Field, slot: Slot, which: seq<nat>, rest: Option<Bytes>)
    requires SlotShaped(f, slot) && !f.htype.RepeatedH? && (f.htype.OneofH? ==> f.htype.group < |which|)
    requires FieldBytes(f, slot, which) != Some([]) && Join(FieldBytes(f, slot, which), rest).Some?
    ensures ItemShaped(f.ltype, slot.item) && ItemBytes(f.ltype, slot.item).Some?
    ensures Join(FieldBytes(f, slot, which), rest).value ==
              TagBytes(WireType(f.ltype), f.tag) + (ItemBytes(f.ltype, slot.item).value + rest.value)
  {
    hide ItemBytes, ItemShaped, TagBytes;
    assert FieldBytes(f, slot, which) == Tagged(f, slot.item);
    Regroup3(TagBytes(WireType(f.ltype), f.tag), ItemBytes(f.ltype, slot.item).value, rest.value);
  }

  lemma PackedPiece(f: Field, items: seq<Item>, rest: Option<Bytes>)
    requires f.htype.RepeatedH? && Packable(f.ltype) && items != [] && forall x :: x in items ==> ItemShaped(f.ltype, x)
    requires Join(ArrayBytes(f, items), rest).Some?
    ensures |items| <= f.htype.arraySize && Payload(f, items).Some?
    ensures Join(ArrayBytes(f, items), rest).value == TagBytes(WT_STRING, f.tag) + (Payload(f, items).value + rest.value)
  {
    hide ItemsBytes, ItemShaped, TagBytes, Prefixed;
    Regroup3(TagBytes(WT_STRING, f.tag), Payload(f, items).value, rest.value);
  }

  lemma UnpackedPiece(f: Field, items: seq<Item>, j: nat, rest: Option<Bytes>)
    requires Unpacked(f) && j < |items| && forall x :: x in items ==> ItemShaped(f.ltype, x)
    requires Join(if j == 0 then ArrayBytes(f, items) else TaggedItems(f, items[j..]), rest).Some?
    ensures j == 0 ==> |items| <= f.htype.arraySize
    ensures ItemBytes(f.ltype, items[j]).Some? && Join(TaggedItems(f, items[j + 1..]), rest).Some?
    ensures Join(if j == 0 then ArrayBytes(f, items) else TaggedItems(f, items[j..]), rest).value ==
              TagBytes(WireType(f.ltype), f.tag) + (ItemBytes(f.ltype, items[j]).value + Join(TaggedItems(f, items[j + 1..]), rest).value)
  {
    hide ItemBytes, ItemShaped, TagBytes;
    assert items[0..] == items && items[j..][1..] == items[j + 1..];
    assert TaggedItems(f, items[j..]).Some?;
    var tag, item, more := TagBytes(WireType(f.ltype), f.tag), ItemBytes(f.ltype, items[j]).value, TaggedItems(f, items[j + 1..]).value;
    assert tag + item + more + rest.value == tag + (item + (more + rest.value));
  }

  /** The piece is ready to be decoded into the member as it is. */
  lemma PieceReady(d: Desc, m: Message, g: Message, i: nat, j: nat)
    requires Shaped(d, m) && Shaped(d, g) && At(d, m, g, i, j) && Busy(d, m, i, j) && GoodMessage(d, m)
    requires RestFrom(d, m, i, j).Some? && |RestFrom(d, m, i, j).value| < WORD32
    ensures SlotShaped(d.fields[i], g.slots[i]) && ReadyPiece(d.fields[i], g.slots[i], PieceItems(d, m, i, j))
  {
    hide ItemBytes, ItemShaped, ItemsBytes, TagBytes, TaggedItems, Tagged, Restored, FreshItem, GoodItem;
    PieceBytes(d, m, i, j);
    ShapedSlot(d, m, i);
    ShapedSlot(d, g, i);
    var f := d.fields[i];
    assert GoodSlot(f, m.slots[i], m.which);
    GoodPiece(d, m, i, j);
    if f.htype.RepeatedH? {
      UnpackedBusy(d, m, i, j);
    }
  }

  lemma GoodPiece(d: Desc, m: Message, i: nat, j: nat)
    requires Shaped(d, m) && Place(d, m, i, j) && Busy(d, m, i, j) && GoodMessage(d, m)
    ensures forall x :: x in PieceItems(d, m, i, j) ==> GoodItem(d.fields[i].ltype, x)
  {
    hide ItemBytes, ItemShaped, ItemsBytes, TagBytes, TaggedItems, Tagged, GoodItem, ArrayBytes;
    ShapedSlot(d, m, i);
    assert GoodSlot(d.fields[i], m.slots[i], m.which);
    if d.fields[i].htype.RepeatedH? {
      UnpackedBusy(d, m, i, j);
    }
  }

  /** What the struct is after a piece was decoded into it. */
  lemma Stepped(d: Desc, m: Message, g: Message, i: nat, j: nat, slot: Slot, which: seq<nat>)
    requires Shaped(d, m) && Shaped(d, g) && At(d, m, g, i, j) && Busy(d, m, i, j) && GoodDesc(d)
    requires SlotShaped(d.fields[i], g.slots[i]) && SlotShaped(d.fields[i], slot)
    requires TookPiece(d.fields[i], g.slots[i], PieceItems(d, m, i, j), slot)
    requires which == match d.fields[i].htype case OneofH(group) => g.which[group := d.fields[i].tag] case _ => g.which
    requires d.fields[i].htype.RepeatedH? ==> |Entries(d, m, i)| <= d.fields[i].htype.arraySize
    ensures var h, (i2, j2) := Message(g.slots[i := slot], which), NextPlace(d, i, j);
            Shaped(d, h) && At(d, m, h, i2, j2)
  {
    hide ItemBytes, ItemShaped, ItemsBytes, TagBytes, TaggedItems, Tagged, Restored, FreshItem, GoodItem, GoodField;
    var f := d.fields[i];
    var h := Message(g.slots[i := slot], which);
    ShapedSlot(d, m, i);
    ShapedSlot(d, g, i);
    assert Shaped(d, h);
    OthersStay(d, m, g, h, i);
    if f.htype.RepeatedH? {
      UnpackedBusy(d, m, i, j);
    }
    if Unpacked(f) {
      var items, before := PieceItems(d, m, i, j), |g.slots[i].items|;
      assert Restored(f.ltype, items[0], slot.items[before + 0]);
      EntriesGrow(f.ltype, Entries(d, m, i), Entries(d, g, i), Entries(d, h, i), j);
    } else {
      assert SlotDone(d, m, h, i);
    }
  }

  lemma EntriesGrow(lt: LType, items: seq<Item>, got: seq<Item>, more: seq<Item>, j: nat)
    requires (forall x :: x in items ==> ItemShaped(lt, x)) && (forall x :: x in got ==> ItemShaped(lt, x))
    requires forall x :: x in more ==> ItemShaped(lt, x)
    requires j < |items| && (if j == 0 then got == [] else EntriesDone(lt, items, got, j))
    requires |more| == |got| + 1 && more[..|got|] == got && Restored(lt, items[j], more[|got|])
    ensures EntriesDone(lt, items, more, j + 1)
  {
    hide Restored, ItemShaped;
    forall n | 0 <= n < j + 1
      ensures Restored(lt, items[n], more[n])
    {
      assert n < j ==> more[n] == more[..|got|][n];
    }
  }

  /** Writing one member leaves what is known of the others. */
  lemma OthersStay(d: Desc, m: Message, g: Message, h: Message, i: nat)
    requires Shaped(d, m) && Shaped(d, g) && Shaped(d, h) && i < |d.fields|
    requires forall k :: 0 <= k < |d.fields| && k != i ==> h.slots[k] == g.slots[k]
    requires h.which == match d.fields[i].htype case OneofH(group) => g.which[group := d.fields[i].tag] case _ => g.which
    requires d.fields[i].htype.OneofH? ==> m.which[d.fields[i].htype.group] == d.fields[i].tag
    ensures forall k: nat :: k < i && SlotDone(d, m, g, k) ==> SlotDone(d, m, h, k)
    ensures forall k: nat :: k < |d.fields| && WhichOk(d, m, g, k) ==> WhichOk(d, m, h, k)
  {
    hide ItemShaped, Restored, FreshItem;
    forall k: nat | k < i && SlotDone(d, m, g, k)
      ensures SlotDone(d, m, h, k)
    {
      ShapedSlot(d, m, k);
      ShapedSlot(d, g, k);
      ShapedSlot(d, h, k);
    }
  }

  /** When all is decoded the message is restored. */
  lemma Finished(d: Desc, m: Message, g: Message)
    requires Shaped(d, m) && Shaped(d, g) && At(d, m, g, |d.fields|, 0) && GoodMessage(d, m)
    ensures RestoredMessage(d, m, g)
  {
    hide ItemShaped, Restored, FreshItem, GoodItem, GoodSlot;
    forall k | 0 <= k < |d.fields| && d.fields[k].htype.OneofH?
      ensures g.which[d.fields[k].htype.group] == m.which[d.fields[k].htype.group]
    {
      var group := d.fields[k].htype.group;
      assert Names(d, group, m.which) && WhichOk(d, m, g, k);
      if m.which[group] != 0 {
        var n :| 0 <= n < |d.fields| && d.fields[n].htype == OneofH(group) && d.fields[n].tag == m.which[group];
        assert SlotDone(d, m, g, n);
        ShapedSlot(d, m, n);
        ShapedSlot(d, g, n);
      }
    }
    forall k: nat | k < |d.fields|
      ensures RestoredSlot(d.fields[k], m.slots[k], m.which, g.slots[k], g.which)
    {
      assert SlotDone(d, m, g, k);
    }
  }

  /** The stream faces what is left of the message's encoding, mixed with unknown fields, and the struct
      is as far. */
  ghost predicate Standing(stream: IStream, d: Desc, m: Message, g: Message, i: nat, j: nat)
    requires Shaped(d, g)
    reads stream
  {
    Shaped(d, m) && At(d, m, g, i, j) && SmallRest(d, m, i, j) &&
    stream.Ok() && stream.bytesLeft < WORD32 && Mixed(d, m, i, j, stream.Rest())
  }

  predicate SmallRest(d: Desc, m: Message, i: nat, j: nat)
    requires Shaped(d, m) && Place(d, m, i, j)
  {
    RestFrom(d, m, i, j).Some? && |RestFrom(d, m, i, j).value| < WORD32
  }

  lemma NoneSeen(fields: seq<Field>)
    ensures forall r: nat :: !SeenBit([0, 0], r)
    ensures Requireds(fields, 0) == 0
  {
    forall r: nat
      ensures !SeenBit([0, 0], r)
    {
      ZeroHasNone(r % 32);
    }
  }

  lemma AtStart(stream: IStream, d: Desc, m: Message, g: Message)
    requires Shaped(d, m) && Shaped(d, g) && Fresh(d, g)
    requires Encoded(d, m).Some? && |Encoded(d, m).value| < WORD32
    requires stream.Ok() && stream.bytesLeft < WORD32 && Extended(d, m, stream.Rest())
    ensures Standing(stream, d, m, g, 0, 0)
  {
    hide FreshSlot, FieldsFrom;
  }

  lemma AtPlace(d: Desc, m: Message, g: Message, i: nat, j: nat)
    requires Shaped(d, m) && Shaped(d, g) && At(d, m, g, i, j)
    ensures Place(d, m, i, j) && (i == |d.fields| ==> j == 0)
    ensures i == |d.fields| ==> RestFrom(d, m, i, j) == Some([])
  {
  }

  /** What comes next: an unknown field, or the next tag of the message. */
  datatype Coming = Coming(i: nat, j: nat, unknown: Option<Unknown>, body: Bytes, rest: Bytes)

  ghost predicate IsComing(d: Desc, m: Message, g: Message, b: Bytes, c: Coming)
    requires Shaped(d, m) && Shaped(d, g)
  {
    && At(d, m, g, c.i, c.j) && SmallRest(d, m, c.i, c.j)
    && match c.unknown
       case Some(u) => UnknownThen(d, u, c.rest, b) && Mixed(d, m, c.i, c.j, c.rest)
       case None =>
         && Busy(d, m, c.i, c.j) && PieceThen(d, m, c.i, c.j, c.body, c.rest, b)
         && Mixed(d, m, NextPlace(d, c.i, c.j).0, NextPlace(d, c.i, c.j).1, c.rest)
  }

  /** While bytes are left there is a tag to decode. */
  lemma {:induction false} NextComing(d: Desc, m: Message, g: Message, i: nat, j: nat, b: Bytes) returns (c: Coming)
    requires Shaped(d, m) && Shaped(d, g) && At(d, m, g, i, j) && SmallRest(d, m, i, j) && Mixed(d, m, i, j, b) && b != []
    ensures IsComing(d, m, g, b, c) && Requireds(d.fields, c.i) == Requireds(d.fields, i)
    decreases |b|, |d.fields| - i
  {
    hide At, Busy, RestFrom, UnknownThen, Payload, TagBytes, CarriesAll;
    AtPlace(d, m, g, i, j);
    if RestFrom(d, m, i, j) == Some(b) {
      var i', j' := Settle(d, m, g, i, j);
      AtPlace(d, m, g, i', j');
      c := PlainPiece(d, m, i', j', b);
    } else if u, rest :| UnknownThen(d, u, rest, b) && Mixed(d, m, i, j, rest) {
      c := Coming(i, j, Some(u), u.body, rest);
    } else if Busy(d, m, i, j) {
      var body, rest :| PieceThen(d, m, i, j, body, rest, b) && Mixed(d, m, NextPlace(d, i, j).0, NextPlace(d, i, j).1, rest);
      c := Coming(i, j, None, body, rest);
    } else {
      PassOver(d, m, g, i, j);
      c := NextComing(d, m, g, i + 1, 0, b);
    }
  }

  lemma PlainPiece(d: Desc, m: Message, i: nat, j: nat, b: Bytes) returns (c: Coming)
    requires Shaped(d, m) && Place(d, m, i, j) && Busy(d, m, i, j) && RestFrom(d, m, i, j) == Some(b) && |b| < WORD32
    ensures c.i == i && c.j == j && c.unknown.None? && PieceThen(d, m, i, j, c.body, c.rest, b)
    ensures Mixed(d, m, NextPlace(d, i, j).0, NextPlace(d, i, j).1, c.rest)
  {
    hide Busy, RestFrom, Payload, TagBytes, CarriesAll;
    PieceBytes(d, m, i, j);
    PlainPayload(d.fields[i], PieceItems(d, m, i, j));
    TagNotEmpty(PieceType(d.fields[i]), d.fields[i].tag);
    var next := NextPlace(d, i, j);
    c := Coming(i, j, None, Payload(d.fields[i], PieceItems(d, m, i, j)).value, RestFrom(d, m, next.0, next.1).value);
  }

  lemma NotMissing(d: Desc, m: Message, g: Message, i: nat, j: nat, items: seq<Item>, wt: nat, t: nat, payload: Bytes, tail: Bytes)
    requires Shaped(d, m) && Place(d, m, i, j) && IsPiece(d, m, g, i, j, items, wt, t, payload, tail)
    ensures exists f :: f in d.fields && f.tag == t
  {
    assert d.fields[i] in d.fields;
  }

  /** A tag that the descriptor has is that of the piece. */
  lemma PieceFound(d: Desc, m: Message, g: Message, i: nat, j: nat, items: seq<Item>, wt: nat, t: nat, payload: Bytes, tail: Bytes,
                   pos: nat, known: bool)
    requires GoodDesc(d) && Shaped(d, m) && Place(d, m, i, j) && pos < |d.fields| && d.fields[pos].tag == t
    requires if known then IsPiece(d, m, g, i, j, items, wt, t, payload, tail) else forall f :: f in d.fields ==> f.tag != t
    ensures known && i == pos && wt == PieceType(d.fields[i]) && i < |g.slots| && SlotShaped(d.fields[i], g.slots[i])
    ensures items != [] && (forall item :: item in items ==> ItemShaped(d.fields[i].ltype, item))
    ensures ReadyPiece(d.fields[i], g.slots[i], items) && CarriesAll(d.fields[i], items, payload)
  {
    hide SlotShaped, ReadyPiece, Payload, Mixed, PieceType, CarriesAll;
    assert d.fields[pos] in d.fields;
    TagsDistinct(d, i, pos);
  }

  lemma StandsOn(stream: IStream, d: Desc, m: Message, g: Message, i: nat, j: nat, tail: Bytes)
    requires Shaped(d, m) && Shaped(d, g) && At(d, m, g, i, j) && Place(d, m, i, j) && SmallRest(d, m, i, j)
    requires Mixed(d, m, i, j, tail) && |tail| < WORD32 && stream.Faces(tail)
    ensures Standing(stream, d, m, g, i, j)
  {
    hide At, RestFrom, Mixed;
  }

  lemma TagsDistinct(d: Desc, i: nat, k: nat)
    requires GoodDesc(d) && i < |d.fields| && k < |d.fields| && d.fields[i].tag == d.fields[k].tag
    ensures i == k
  {
  }

  lemma {:induction false} RequiredIndex(fields: seq<Field>, pos: nat)
    requires pos < |fields|
    ensures fields[pos].htype.RequiredH? ==> Requireds(fields, pos) < Requireds(fields, |fields|)
  {
    RequiredsRise(fields, pos + 1, |fields|);
  }

  lemma {:induction false} RequiredsRise(fields: seq<Field>, i: nat, j: nat)
    requires i <= j <= |fields|
    ensures Requireds(fields, i) <= Requireds(fields, j)
    decreases j - i
  {
    if i < j {
      RequiredsRise(fields, i, j - 1);
    }
  }

  lemma SeenGrows(fields: seq<Field>, i: nat)
    requires i < |fields|
    ensures Requireds(fields, i + 1) == Requireds(fields, i) + if fields[i].htype.RequiredH? then 1 else 0
  {
  }

  /** What the next tag will bring, before it is read. */
  lemma Prepare(stream: IStream, d: Desc, m: Message, g: Message, i: nat, j: nat)
    returns (i': nat, j': nat, known: bool, items: seq<Item>, wt: nat, t: nat, payload: Bytes, tail: Bytes)
    requires Shaped(d, g) && GoodDesc(d) && Standing(stream, d, m, g, i, j) && stream.bytesLeft > 0 && GoodMessage(d, m)
    ensures i' <= |d.fields| && Requireds(d.fields, i') == Requireds(d.fields, i)
    ensures wt < 8 && 0 < t && 8 * t + wt < WORD32
    ensures stream.Faces(TagBytes(wt, t) + (payload + tail)) && |tail| < WORD32
    ensures Shaped(d, m) && At(d, m, g, i', j') && Place(d, m, i', j') && SmallRest(d, m, i', j')
    ensures !known ==> Skippable(wt, payload) && (forall f :: f in d.fields ==> f.tag != t) && Mixed(d, m, i', j', tail)
    ensures known ==> IsPiece(d, m, g, i', j', items, wt, t, payload, tail)
  {
    hide IStream.Faces, GoodMessage, At, RestFrom, Payload, TagBytes, Busy, PieceType, NextPlace, ReadyPiece, Skippable;
    var c := NextComing(d, m, g, i, j, stream.Rest());
    i', j', tail, known := c.i, c.j, c.rest, c.unknown.None?;
    AtPlace(d, m, g, i', j');
    if known {
      payload := c.body;
      items, wt, t := PieceHere(d, m, g, i', j', payload, tail, stream.Rest());
    } else {
      items, wt, t, payload := [], c.unknown.value.wireType, c.unknown.value.tag, c.unknown.value.body;
    }
  }

  /** The tag and payload of a piece of the message, and that its member is ready for it. */
  ghost predicate IsPiece(d: Desc, m: Message, g: Message, i: nat, j: nat, items: seq<Item>, wt: nat, t: nat, payload: Bytes, tail: Bytes)
    requires Shaped(d, m) && Place(d, m, i, j)
  {
    && Busy(d, m, i, j) && items == PieceItems(d, m, i, j)
    && wt == PieceType(d.fields[i]) && t == d.fields[i].tag
    && i < |g.slots| && SlotShaped(d.fields[i], g.slots[i]) && ReadyPiece(d.fields[i], g.slots[i], items)
    && CarriesAll(d.fields[i], items, payload)
    && (var next := NextPlace(d, i, j); Place(d, m, next.0, next.1) && SmallRest(d, m, next.0, next.1) && Mixed(d, m, next.0, next.1, tail))
  }

  lemma PieceHere(d: Desc, m: Message, g: Message, i: nat, j: nat, payload: Bytes, tail: Bytes, b: Bytes)
    returns (items: seq<Item>, wt: nat, t: nat)
    requires Shaped(d, m) && Shaped(d, g) && At(d, m, g, i, j) && Place(d, m, i, j) && Busy(d, m, i, j) && SmallRest(d, m, i, j)
    requires GoodDesc(d) && GoodMessage(d, m) && PieceThen(d, m, i, j, payload, tail, b)
    requires Mixed(d, m, NextPlace(d, i, j).0, NextPlace(d, i, j).1, tail)
    ensures wt < 8 && 0 < t && 8 * t + wt < WORD32 && b == TagBytes(wt, t) + (payload + tail)
    ensures IsPiece(d, m, g, i, j, items, wt, t, payload, tail)
  {
    hide At, Busy, RestFrom, GoodMessage, ReadyPiece, Payload, Mixed, CarriesAll;
    PieceBytes(d, m, i, j);
    PieceReady(d, m, g, i, j);
    assert GoodField(d.fields[i]);
    items, wt, t := PieceItems(d, m, i, j), PieceType(d.fields[i]), d.fields[i].tag;
  }

  /** Where things stand after the piece was decoded. */
  lemma Conclude(stream: IStream, d: Desc, m: Message, g: Message, i: nat, j: nat, slot: Slot, which: seq<nat>,
                 items: seq<Item>, wt: nat, t: nat, payload: Bytes, tail: Bytes)
    returns (i': nat, j': nat)
    requires Shaped(d, m) && Shaped(d, g) && At(d, m, g, i, j) && Place(d, m, i, j) && SmallRest(d, m, i, j) && GoodDesc(d)
    requires IsPiece(d, m, g, i, j, items, wt, t, payload, tail) && i < |d.fields|
    requires SlotShaped(d.fields[i], slot) && TookPiece(d.fields[i], g.slots[i], items, slot)
    requires d.fields[i].htype.OneofH? ==> d.fields[i].htype.group < |g.which|
    requires which == match d.fields[i].htype case OneofH(group) => g.which[group := d.fields[i].tag] case _ => g.which
    requires stream.Faces(tail) && |tail| < WORD32
    ensures var h := Message(g.slots[i := slot], which);
            Shaped(d, h) && Standing(stream, d, m, h, i', j')
    ensures i' <= |d.fields| && Requireds(d.fields, i') <= Requireds(d.fields, i + 1)
    ensures i' == i || i' == i + 1
  {
    hide GoodDesc, At, RestFrom, Payload, TookPiece, Busy, Place, Mixed;
    PieceBytes(d, m, i, j);
    Stepped(d, m, g, i, j, slot, which);
    var next := NextPlace(d, i, j);
    i', j' := next.0, next.1;
    SeenGrows(d.fields, i);
  }

  lemma ReadyParts(f: Field, slot: Slot, items: seq<Item>)
    requires SlotShaped(f, slot) && ReadyPiece(f, slot, items)
    ensures items != [] && (forall item :: item in items ==> ItemShaped(f.ltype, item)) && Payload(f, items).Some?
  {
  }

  lemma FieldParts(d: Desc, g: Message, pos: nat)
    requires Shaped(d, g) && GoodDesc(d) && pos < |d.fields|
    ensures |g.slots| == |d.fields| && SlotShaped(d.fields[pos], g.slots[pos]) && GoodField(d.fields[pos])
    ensures d.fields[pos].htype.OneofH? ==> d.fields[pos].htype.group < |g.which|
  {
    ShapedSlot(d, g, pos);
  }

  lemma StillShaped(d: Desc, g: Message, h: Message, pos: nat)
    requires Shaped(d, g) && pos < |d.fields| && |h.slots| == |g.slots| && |h.which| == |g.which|
    requires SlotShaped(d.fields[pos], h.slots[pos]) && forall k :: 0 <= k < |d.fields| && k != pos ==> h.slots[k] == g.slots[k]
    ensures Shaped(d, h)
  {
  }

  lemma BusyNotEmpty(d: Desc, m: Message, i: nat, j: nat)
    requires Shaped(d, m) && Place(d, m, i, j) && Busy(d, m, i, j) && RestFrom(d, m, i, j).Some?
    ensures RestFrom(d, m, i, j) != Some([])
  {
    hide Busy, Payload, FieldsFrom, RestFrom;
    PieceBytes(d, m, i, j);
    TagNotEmpty(PieceType(d.fields[i]), d.fields[i].tag);
  }

  /** At the end of the stream everything is decoded. */
  lemma AllDone(stream: IStream, d: Desc, m: Message, g: Message, i: nat, j: nat)
    requires Shaped(d, g) && Standing(stream, d, m, g, i, j) && stream.bytesLeft == 0 && GoodMessage(d, m)
    ensures RestoredMessage(d, m, g)
    ensures Requireds(d.fields, i) == Requireds(d.fields, |d.fields|)
  {
    hide At, GoodMessage, RestoredMessage;
    NothingMixed(d, m, g, i, j);
    var i', j' := Settle(d, m, g, i, j);
    AtPlace(d, m, g, i', j');
    if i' < |d.fields| {
      BusyNotEmpty(d, m, i', j');
    }
    Finished(d, m, g);
  }

  lemma {:induction false} NothingMixed(d: Desc, m: Message, g: Message, i: nat, j: nat)
    requires Shaped(d, m) && Shaped(d, g) && At(d, m, g, i, j) && SmallRest(d, m, i, j) && Mixed(d, m, i, j, [])
    ensures RestFrom(d, m, i, j) == Some([])
    decreases |d.fields| - i
  {
    hide At, Busy, RestFrom;
    AtPlace(d, m, g, i, j);
    if RestFrom(d, m, i, j) != Some([]) && i < |d.fields| && !Busy(d, m, i, j) {
      PassOver(d, m, g, i, j);
      NothingMixed(d, m, g, i + 1, 0);
    }
  }

  // ----- Decoding a message -----

  /** Decode tags and their fields until the stream ends. The encoding of any good message is decoded
      in full and restores it, and so is one mixed with fields of other tags. */
  method DecodeNoinit(stream: IStream, d: Desc, dest: Message, ghost good: bool, ghost m: Message) returns (ok: bool, dest': Message)
    requires stream.Ok() && Shaped(d, dest) && GoodDesc(d)
    requires good ==>
               && Shaped(d, m) && GoodMessage(d, m) && Encoded(d, m).Some? && |Encoded(d, m).value| < WORD32
               && Fresh(d, dest) && stream.bytesLeft < WORD32 && Extended(d, m, stream.Rest())
    modifies stream
    ensures stream.Ok() && stream.End() <= old(stream.End()) && stream.bytesLeft <= old(stream.bytesLeft)
    ensures ok ==> stream.End() == old(stream.End())
    ensures Shaped(d, dest')
    ensures good ==> ok && RestoredMessage(d, m, dest')
    decreases d, 2
  {
    hide IStream.Faces, Shaped, GoodMessage, GoodDesc, At, FieldsFrom, Fresh, RestoredMessage, RestFrom, SeenBit, Requireds,
      Payload, ReadyPiece, TookPiece, TagBytes, Busy, Place, Standing, PieceItems, SlotShaped, PieceType, GoodField, NextPlace,
      Mixed, Extended, Skippable, IsPiece, SmallRest, CarriesAll;
    dest' := dest;
    var fieldsSeen: seq<Word32> := [0, 0];
    var iter := new FieldIter(d.fields);
    var some := iter.Begin();
    ghost var i: nat, j: nat := 0, 0;
    NoneSeen(d.fields);
    if good { AtStart(stream, d, m, dest); }
    while stream.bytesLeft > 0
      invariant stream.Ok() && stream.End() == old(stream.End()) && stream.bytesLeft <= old(stream.bytesLeft)
      invariant Shaped(d, dest') && iter.Ok() && iter.fields == d.fields && fresh(iter) && |fieldsSeen| == 2
      invariant forall r: nat :: SeenBit(fieldsSeen, r) ==> r < Requireds(d.fields, |d.fields|)
      invariant good ==> Standing(stream, d, m, dest', i, j)
      invariant i <= |d.fields|
      invariant good ==> forall r: nat :: r < MAX_REQUIRED && r < Requireds(d.fields, i) ==> SeenBit(fieldsSeen, r)
      decreases stream.bytesLeft
    {
      ghost var known, items, payload: Bytes, tail: Bytes, wt: nat, t: nat := good, [], [], [], 0, 0;
      if good {
        i, j, known, items, wt, t, payload, tail := Prepare(stream, d, m, dest', i, j);
      }
      var wireType, tag, eof;
      ok, wireType, tag, eof := stream.DecodeTag(wt, t, payload + tail);
      if !ok {
        if eof {
          break;
        }
        return false, dest';
      }
      var found := iter.Find(tag);
      if !found {
        if good && known { NotMissing(d, m, dest', i, j, items, wt, t, payload, tail); }
        ok := stream.SkipField(wireType, payload, tail);
        if !ok {
          return false, dest';
        }
        if good { StandsOn(stream, d, m, dest', i, j, tail); }
        continue;
      }
      if good { PieceFound(d, m, dest', i, j, items, wt, t, payload, tail, iter.pos, known); }
      var pos := iter.pos;
      var f := d.fields[pos];
      fieldsSeen := NoteRequired(iter, fieldsSeen);
      FieldParts(d, dest', pos);
      var slot, which;
      ok, slot, which := DecodeStaticField(stream, wireType, f, dest'.slots[pos], dest'.which, good, items, payload, tail);
      if !ok {
        return false, dest';
      }
      ghost var before := dest';
      dest' := Message(dest'.slots[pos := slot], which);
      StillShaped(d, before, dest', pos);
      if good {
        SeenGrows(d.fields, i);
        i, j := Conclude(stream, d, m, before, i, j, slot, which, items, wt, t, payload, tail);
      }
    }
    if good {
      AllDone(stream, d, m, dest', i, j);
    }
    ok := CheckRequired(iter, fieldsSeen);
  }

  /** Encode a message into a buffer and decode it again: it fits exactly when its size does, and
      every present field, count and oneof choice comes back. */
  method EncodeAndDecode(d: Desc, m: Message, bufsize: nat, dest: Message) returns (ok: bool, size: nat, got: Message)
    requires Shaped(d, m) && GoodMessage(d, m) && GoodDesc(d) && Shaped(d, dest) && bufsize < WORD32
    ensures ok <==> Encoded(d, m).Some? && |Encoded(d, m).value| <= bufsize
    ensures Encoded(d, m).Some? ==> size == |Encoded(d, m).value|
    ensures Shaped(d, got) && (ok ==> RestoredMessage(d, m, got))
  {
    hide Shaped, GoodMessage, GoodDesc, FieldsFrom, RestoredMessage;
    var buffer;
    got := dest;
    ok, buffer, size := EncodeToBuffer(d, m, bufsize);
    if ok {
      var stream := new IStream(buffer, 0, |buffer|);
      ExactIsExtended(stream, d, m);
      ok, got := Decode(stream, d, dest, true, m);
    }
  }
}
