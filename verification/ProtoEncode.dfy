/** The encoder: it writes into a buffer or only counts, and sizes every submessage and packed array
    in a first pass over it. */
module ProtoEncode {
  import opened Keys
  import opened Coding
  import opened Proto

  // ----- What a write does to a stream -----

  /** What a stream shows of its state. */
  datatype Out = Out(sizing: bool, maxSize: nat, bytesWritten: nat, state: Bytes)

  /** Writing `enc` went well exactly when there is something to write and it fits; then it was
      written, or just counted. */
  ghost predicate Wrote(before: Out, after: Out, enc: Option<Bytes>, ok: bool) {
    && after.sizing == before.sizing && after.maxSize == before.maxSize
    && (ok <==> enc.Some? && (before.sizing || before.bytesWritten + |enc.value| <= before.maxSize))
    && (ok ==>
          && after.bytesWritten == before.bytesWritten + |enc.value|
          && after.state == if before.sizing then before.state else before.state + enc.value)
  }

  lemma WroteThen(a: Out, b: Out, c: Out, x: Option<Bytes>, y: Option<Bytes>, ok: bool)
    requires Wrote(a, b, x, true) && Wrote(b, c, y, ok)
    ensures Wrote(a, c, Join(x, y), ok)
  {
    if ok && !a.sizing {
      assert a.state + x.value + y.value == a.state + (x.value + y.value);
    }
  }

  /** A write that fails makes any longer one fail. */
  lemma WroteNot(a: Out, b: Out, x: Option<Bytes>, y: Option<Bytes>)
    requires Wrote(a, b, x, false)
    ensures Wrote(a, b, Join(x, y), false)
  {
  }

  lemma WroteNothing(a: Out)
    ensures Wrote(a, a, Some([]), true) || (!a.sizing && a.bytesWritten > a.maxSize)
  {
    var empty: Bytes := [];
    assert a.state + empty == a.state;
  }

  lemma JoinAssociates(x: Option<Bytes>, y: Option<Bytes>, z: Option<Bytes>)
    ensures Join(Join(x, y), z) == Join(x, Join(y, z))
    ensures Join(x, Some([])) == x && Join(Some([]), x) == x
  {
    if x.Some? && y.Some? && z.Some? {
      assert x.value + y.value + z.value == x.value + (y.value + z.value);
    }
    var empty: Bytes := [];
    if x.Some? {
      assert x.value + empty == x.value && empty + x.value == x.value;
    }
  }

  class OStream {
    const sizing: bool     // no callback: bytes are only counted
    const maxSize: nat
    var bytesWritten: nat
    var state: Bytes       // the buffer, as far as it is written

    constructor (s: bool, max: nat, buffer: Bytes)
      ensures sizing == s && maxSize == max && bytesWritten == 0 && state == buffer
    {
      sizing, maxSize, bytesWritten, state := s, max, 0, buffer;
    }

    ghost function View(): Out
      reads this
    {
      Out(sizing, maxSize, bytesWritten, state)
    }

    /** A buffer is never overrun. */
    ghost predicate Ok()
      reads this
    {
      sizing || bytesWritten <= maxSize
    }

    method Write(buf: Bytes) returns (ok: bool)
      requires Ok()
      modifies this
      ensures Ok() && Wrote(old(View()), View(), Some(buf), ok)
    {
      if !sizing {
        if bytesWritten + |buf| > maxSize {
          return false;
        }
        state := state + buf;
      }
      bytesWritten := bytesWritten + |buf|;
      return true;
    }

    /** Count `size` bytes without having them. */
    method WriteSize(size: nat)
      requires sizing
      modifies this
      ensures View() == old(View()).(bytesWritten := old(bytesWritten) + size)
    {
      bytesWritten := bytesWritten + size;
    }

    method EncodeVarint(value: nat) returns (ok: bool)
      requires Ok()
      modifies this
      ensures Ok() && Wrote(old(View()), View(), Some(Varint(value)), ok)
    {
      if value <= 0x7f {
        ok := Write([value]);
        return;
      }
      var buffer := VarintBuffer(value);
      ok := Write(buffer);
    }

    static method VarintBuffer(value: nat) returns (buffer: Bytes)
      requires value > 0
      ensures buffer == Varint(value)
    {
      buffer := [];
      var v: nat := value;
      while v > 0
        invariant v > 0 ==> buffer + Varint(v) == Varint(value)
        invariant v == 0 ==> |buffer| > 0 && buffer[|buffer| - 1] >= 128 &&
                             buffer[..|buffer| - 1] + [buffer[|buffer| - 1] - 128] == Varint(value)
      {
        ghost var before := buffer;
        buffer := buffer + [v % 128 + 128];
        v := v / 128;
        assert buffer[..|buffer| - 1] == before;
      }
      // unset the top bit of the last byte
      buffer := buffer[..|buffer| - 1] + [buffer[|buffer| - 1] - 128];
    }

    method EncodeTag(wireType: nat, tag: nat) returns (ok: bool)
      requires Ok()
      modifies this
      ensures Ok() && Wrote(old(View()), View(), Some(TagBytes(wireType, tag)), ok)
    {
      ok := EncodeVarint(8 * tag + wireType);
    }

    method EncodeString(b: Bytes) returns (ok: bool)
      requires Ok()
      modifies this
      ensures Ok() && Wrote(old(View()), View(), Some(Prefixed(b)), ok)
    {
      hide Wrote;
      ghost var a := View();
      ok := EncodeVarint(|b|);
      ghost var m := View();
      if !ok {
        WroteNot(a, m, Some(Varint(|b|)), Some(b));
        return;
      }
      ok := Write(b);
      WroteThen(a, m, View(), Some(Varint(|b|)), Some(b), ok);
    }
  }

  /** The first string terminator, or the end of the array. */
  method StringLength(b: Bytes) returns (size: nat)
    ensures size == |CString(b)|
  {
    size := 0;
    assert b[0..] == b;
    while size < |b| && b[size] != 0
      invariant size <= |b|
      invariant |CString(b)| == size + |CString(b[size..])|
    {
      assert b[size..][1..] == b[size + 1..];
      size := size + 1;
    }
  }

  /** The encoder of a value, by type. */
  method EncodeItem(stream: OStream, lt: LType, item: Item) returns (ok: bool)
    requires stream.Ok() && ItemShaped(lt, item)
    modifies stream
    ensures stream.Ok() && Wrote(old(stream.View()), stream.View(), ItemBytes(lt, item), ok)
    decreases lt, 0
  {
    hide Shaped, FieldsFrom;
    match lt {
      case VarintT(_) => ok := stream.EncodeVarint(item.v % WORD64);
      case UVarintT(size) => ok := stream.EncodeVarint(item.v);
      case SVarintT(size) => ok := stream.EncodeVarint(Zigzag(item.v));
      case Fixed32T => ok := stream.Write(EncodeFixed32(item.v));
      case Fixed64T => ok := stream.Write(EncodeFixed64(item.v));
      case BytesT(capacity) =>
        if |item.b| > capacity {
          return false;
        }
        ok := stream.EncodeString(item.b);
      case StringT(_) =>
        var size := StringLength(item.b);
        ok := stream.EncodeString(item.b[..size]);
      case FixedBytesT(_) => ok := stream.EncodeString(item.b);
      case SubmessageT(d) => ok := EncodeSubmessage(stream, d, item.m);
    }
  }

  method EncodeTagged(stream: OStream, f: Field, item: Item) returns (ok: bool)
    requires stream.Ok() && ItemShaped(f.ltype, item)
    modifies stream
    ensures stream.Ok() && Wrote(old(stream.View()), stream.View(), Tagged(f, item), ok)
    decreases f, 0
  {
    hide Wrote, ItemBytes, ItemShaped;
    ghost var a := stream.View();
    ok := stream.EncodeTag(WireType(f.ltype), f.tag);
    ghost var b := stream.View();
    if !ok {
      WroteNot(a, b, Some(TagBytes(WireType(f.ltype), f.tag)), ItemBytes(f.ltype, item));
      return;
    }
    ok := EncodeItem(stream, f.ltype, item);
    WroteThen(a, b, stream.View(), Some(TagBytes(WireType(f.ltype), f.tag)), ItemBytes(f.ltype, item), ok);
  }

  /** Write the entries of an array: packed when the type allows it, after a pass that sizes them. */
  method EncodeArray(stream: OStream, f: Field, items: seq<Item>) returns (ok: bool)
    requires stream.Ok() && f.htype.RepeatedH? && forall item :: item in items ==> ItemShaped(f.ltype, item)
    modifies stream
    ensures stream.Ok() && Wrote(old(stream.View()), stream.View(), ArrayBytes(f, items), ok)
    decreases f, 2
  {
    hide Wrote, ItemsBytes, TaggedItems, ItemShaped;
    WroteNothing(stream.View());
    if |items| == 0 {
      return true;
    }
    if |items| > f.htype.arraySize {
      WroteNone(stream.View());
      return false;
    }
    if Packable(f.ltype) {
      ok := EncodePacked(stream, f, items);
    } else {
      ok := EncodeTaggedItems(stream, f, items);
    }
  }

  lemma WroteNone(a: Out)
    ensures Wrote(a, a, None, false)
  {
  }

  method EncodePacked(stream: OStream, f: Field, items: seq<Item>) returns (ok: bool)
    requires stream.Ok() && Packable(f.ltype) && forall item :: item in items ==> ItemShaped(f.ltype, item)
    modifies stream
    ensures var data := ItemsBytes(f.ltype, items);
            stream.Ok() && Wrote(old(stream.View()), stream.View(),
                                 if data.None? then None else Some(TagBytes(WT_STRING, f.tag) + Prefixed(data.value)), ok)
    decreases f, 0
  {
    hide Wrote, ItemsBytes, ItemShaped;
    ghost var a := stream.View();
    ghost var data := ItemsBytes(f.ltype, items);
    PackedAlways(f.ltype, items);
    ok := stream.EncodeTag(WT_STRING, f.tag);
    ghost var b := stream.View();
    if !ok {
      WroteNot(a, b, Some(TagBytes(WT_STRING, f.tag)), Some(Prefixed(data.value)));
      return;
    }
    // determine the total size
    var size := PackedSize(f.ltype, items);
    ok := stream.EncodeVarint(size);
    ghost var c := stream.View();
    if !ok {
      WroteNot(b, c, Some(Varint(size)), data);
      WroteThen(a, b, c, Some(TagBytes(WT_STRING, f.tag)), Some(Prefixed(data.value)), ok);
      return;
    }
    if stream.sizing {
      stream.WriteSize(size);
      WroteSize(c, data);
    } else {
      ok := EncodeItems(stream, f.ltype, items);
    }
    WroteThen(b, c, stream.View(), Some(Varint(size)), data, ok);
    WroteThen(a, b, stream.View(), Some(TagBytes(WT_STRING, f.tag)), Some(Prefixed(data.value)), ok);
  }

  lemma WroteSize(c: Out, data: Option<Bytes>)
    requires c.sizing && data.Some?
    ensures Wrote(c, c.(bytesWritten := c.bytesWritten + |data.value|), data, true)
  {
  }

  /** Values of the packable types can always be written. */
  lemma {:induction false} PackedAlways(lt: LType, items: seq<Item>)
    requires Packable(lt) && forall item :: item in items ==> ItemShaped(lt, item)
    ensures ItemsBytes(lt, items).Some?
    ensures lt.Fixed32T? ==> |ItemsBytes(lt, items).value| == 4 * |items|
    ensures lt.Fixed64T? ==> |ItemsBytes(lt, items).value| == 8 * |items|
    decreases |items|
  {
    if items != [] {
      PackedAlways(lt, items[1..]);
    }
  }

  method PackedSize(lt: LType, items: seq<Item>) returns (size: nat)
    requires Packable(lt) && forall item :: item in items ==> ItemShaped(lt, item)
    ensures ItemsBytes(lt, items).Some? && size == |ItemsBytes(lt, items).value|
    decreases lt, 2
  {
    hide ItemsBytes, ItemShaped;
    PackedAlways(lt, items);
    if lt.Fixed32T? {
      return 4 * |items|;
    } else if lt.Fixed64T? {
      return 8 * |items|;
    }
    var sizestream := new OStream(true, 0, []);
    var ok := EncodeItems(sizestream, lt, items);
    SizedExactly(Out(true, 0, 0, []), sizestream.View(), ItemsBytes(lt, items), ok);
    size := sizestream.bytesWritten;
  }

  lemma SizedExactly(a: Out, b: Out, enc: Option<Bytes>, ok: bool)
    requires a.sizing && Wrote(a, b, enc, ok)
    ensures ok <==> enc.Some?
    ensures ok ==> b.bytesWritten == a.bytesWritten + |enc.value|
  {
  }

  method EncodeItems(stream: OStream, lt: LType, items: seq<Item>) returns (ok: bool)
    requires stream.Ok() && forall item :: item in items ==> ItemShaped(lt, item)
    modifies stream
    ensures stream.Ok() && Wrote(old(stream.View()), stream.View(), ItemsBytes(lt, items), ok)
    decreases lt, 1
  {
    hide Wrote, ItemBytes, ItemShaped, Join;
    ghost var a := stream.View();
    ghost var done: Option<Bytes> := Some([]);
    WroteNothing(a);
    JoinAssociates(ItemsBytes(lt, items), None, None);
    for i := 0 to |items|
      invariant stream.Ok() && Wrote(a, stream.View(), done, true)
      invariant ItemsBytes(lt, items) == Join(done, ItemsBytes(lt, items[i..]))
    {
      ghost var b := stream.View();
      ghost var x, y := ItemBytes(lt, items[i]), ItemsBytes(lt, items[i + 1..]);
      assert items[i..][1..] == items[i + 1..];
      JoinAssociates(done, x, y);
      ok := EncodeItem(stream, lt, items[i]);
      WroteThen(a, b, stream.View(), done, x, ok);
      if !ok {
        WroteNot(a, stream.View(), Join(done, x), y);
        return;
      }
      done := Join(done, x);
    }
    JoinAssociates(done, None, None);
    return true;
  }

  method EncodeTaggedItems(stream: OStream, f: Field, items: seq<Item>) returns (ok: bool)
    requires stream.Ok() && forall item :: item in items ==> ItemShaped(f.ltype, item)
    modifies stream
    ensures stream.Ok() && Wrote(old(stream.View()), stream.View(), TaggedItems(f, items), ok)
    decreases f, 1
  {
    hide Wrote, Tagged, ItemShaped, Join;
    ghost var a := stream.View();
    ghost var done: Option<Bytes> := Some([]);
    WroteNothing(a);
    JoinAssociates(TaggedItems(f, items), None, None);
    for i := 0 to |items|
      invariant stream.Ok() && Wrote(a, stream.View(), done, true)
      invariant TaggedItems(f, items) == Join(done, TaggedItems(f, items[i..]))
    {
      ghost var b := stream.View();
      ghost var x, y := Tagged(f, items[i]), TaggedItems(f, items[i + 1..]);
      assert items[i..][1..] == items[i + 1..];
      JoinAssociates(done, x, y);
      ok := EncodeTagged(stream, f, items[i]);
      WroteThen(a, b, stream.View(), done, x, ok);
      if !ok {
        WroteNot(a, stream.View(), Join(done, x), y);
        return;
      }
      done := Join(done, x);
    }
    JoinAssociates(done, None, None);
    return true;
  }

  /** A field by its rule: always, if present, each entry, or if chosen. */
  method EncodeField(stream: OStream, f: Field, slot: Slot, which: seq<nat>) returns (ok: bool)
    requires stream.Ok() && SlotShaped(f, slot) && (f.htype.OneofH? ==> f.htype.group < |which|)
    modifies stream
    ensures stream.Ok() && Wrote(old(stream.View()), stream.View(), FieldBytes(f, slot, which), ok)
    decreases f, 3
  {
    hide Wrote, Tagged, ArrayBytes, ItemShaped;
    WroteNothing(stream.View());
    match f.htype {
      case RequiredH => ok := EncodeTagged(stream, f, slot.item);
      case OptionalH =>
        ok := true;
        if slot.has {
          ok := EncodeTagged(stream, f, slot.item);
        }
      case RepeatedH(_) => ok := EncodeArray(stream, f, slot.items);
      case OneofH(group) =>
        ok := true;
        if which[group] == f.tag {
          ok := EncodeTagged(stream, f, slot.item);
        }
    }
  }

  /** Encode all fields in order. It succeeds exactly when the message has an encoding and that fits
      the stream. */
  method Encode(stream: OStream, d: Desc, m: Message) returns (ok: bool)
    requires stream.Ok() && Shaped(d, m)
    modifies stream
    ensures stream.Ok() && Wrote(old(stream.View()), stream.View(), Encoded(d, m), ok)
    decreases d, 0
  {
    hide Wrote, FieldBytes, SlotShaped, Join;
    ghost var a := stream.View();
    ghost var done: Option<Bytes> := Some([]);
    WroteNothing(a);
    JoinAssociates(Encoded(d, m), None, None);
    var iter := new FieldIter(d.fields);
    var more := iter.Begin();
    ghost var i := 0;
    while more
      invariant stream.Ok() && iter.Ok() && iter.fields == d.fields && fresh(iter)
      invariant i <= |d.fields| && (more <==> i < |d.fields|) && (more ==> iter.pos == i)
      invariant Wrote(a, stream.View(), done, true)
      invariant Encoded(d, m) == Join(done, FieldsFrom(d, m, i))
      decreases |d.fields| - i
    {
      ghost var b := stream.View();
      ghost var x, y := FieldBytes(d.fields[i], m.slots[i], m.which), FieldsFrom(d, m, i + 1);
      JoinAssociates(done, x, y);
      var f := d.fields[iter.pos];
      ok := EncodeField(stream, f, m.slots[iter.pos], m.which);
      WroteThen(a, b, stream.View(), done, x, ok);
      if !ok {
        WroteNot(a, stream.View(), Join(done, x), y);
        return;
      }
      done := Join(done, x);
      i := i + 1;
      more := iter.Next();
    }
    JoinAssociates(done, None, None);
    return true;
  }

  /** Encode a submessage with its length in front: a first pass only sizes it, a second writes it
      through a stream of just that size. The second pass always writes what the first counted. */
  method EncodeSubmessage(stream: OStream, d: Desc, m: Message) returns (ok: bool)
    requires stream.Ok() && Shaped(d, m)
    modifies stream
    ensures var inner := Encoded(d, m);
            stream.Ok() && Wrote(old(stream.View()), stream.View(), if inner.None? then None else Some(Prefixed(inner.value)), ok)
    decreases d, 1
  {
    hide Wrote, FieldsFrom, Shaped;
    ghost var a := stream.View();
    ghost var inner := Encoded(d, m);
    var sizestream := new OStream(true, 0, []);
    ok := Encode(sizestream, d, m);
    SizedExactly(Out(true, 0, 0, []), sizestream.View(), inner, ok);
    if !ok {
      WroteNone(stream.View());
      return;
    }
    var size := sizestream.bytesWritten;
    ok := stream.EncodeVarint(size);
    ghost var b := stream.View();
    if !ok {
      WroteNot(a, b, Some(Varint(size)), inner);
      return;
    }
    if stream.sizing {
      stream.WriteSize(size);
      WroteSize(b, inner);
      WroteThen(a, b, stream.View(), Some(Varint(size)), inner, ok);
      return;
    }
    if stream.bytesWritten + size > stream.maxSize {
      WroteFull(b, inner);
      WroteThen(a, b, b, Some(Varint(size)), inner, false);
      return false;
    }
    var substream := new OStream(false, size, stream.state);
    ok := Encode(substream, d, m);
    WroteAll(Out(false, size, 0, b.state), substream.View(), inner, ok);
    stream.bytesWritten := stream.bytesWritten + substream.bytesWritten;
    stream.state := substream.state;
    if substream.bytesWritten != size {
      // "submsg size changed"
      return false;
    }
    WroteSub(b, stream.View(), inner);
    WroteThen(a, b, stream.View(), Some(Varint(size)), inner, ok);
  }

  lemma WroteFull(b: Out, enc: Option<Bytes>)
    requires !b.sizing && enc.Some? && b.bytesWritten + |enc.value| > b.maxSize
    ensures Wrote(b, b, enc, false)
  {
  }

  /** A stream of exactly the right size is filled to the end. */
  lemma WroteAll(a: Out, b: Out, enc: Option<Bytes>, ok: bool)
    requires !a.sizing && a.bytesWritten == 0 && enc.Some? && a.maxSize == |enc.value| && Wrote(a, b, enc, ok)
    ensures ok && b.bytesWritten == |enc.value| && b.state == a.state + enc.value
  {
  }

  lemma WroteSub(b: Out, c: Out, enc: Option<Bytes>)
    requires !b.sizing && enc.Some? && b.bytesWritten + |enc.value| <= b.maxSize
    requires c == b.(bytesWritten := b.bytesWritten + |enc.value|, state := b.state + enc.value)
    ensures Wrote(b, c, enc, true)
  {
  }

  /** The size found without writing is that of what is written, and a buffer is large enough
      exactly when it holds that size. */
  method EncodeToBuffer(d: Desc, m: Message, bufsize: nat) returns (ok: bool, buffer: Bytes, size: nat)
    requires Shaped(d, m)
    ensures ok <==> Encoded(d, m).Some? && |Encoded(d, m).value| <= bufsize
    ensures ok ==> buffer == Encoded(d, m).value
    ensures Encoded(d, m).Some? ==> size == |Encoded(d, m).value|
  {
    hide FieldsFrom, Shaped;
    var sizing := new OStream(true, 0, []);
    ok := Encode(sizing, d, m);
    size := sizing.bytesWritten;
    var stream := new OStream(false, bufsize, []);
    ok := Encode(stream, d, m);
    buffer := stream.state;
    if ok {
      assert [] + Encoded(d, m).value == Encoded(d, m).value;
    }
  }
}
