/** Protocol Buffers messages: descriptors, message structs and the wire format (Protocol Buffers
    encoding guide, sections "Base 128 Varints" and "Message Structure"). */
module Proto {
  import opened Keys
  import opened Coding

  // ----- Descriptors -----

  /** How a value is stored and encoded; `size` is that of the member in the struct. */
  datatype LType =
    | VarintT(size: nat)       // int32, int64, enum, bool
    | UVarintT(size: nat)      // uint32, uint64
    | SVarintT(size: nat)      // sint32, sint64
    | Fixed32T
    | Fixed64T
    | BytesT(capacity: nat)    // a length and room for so many bytes
    | StringT(size: nat)       // a char array with a terminator
    | SubmessageT(desc: Desc)
    | FixedBytesT(size: nat)   // a byte array used in full

  datatype HType = RequiredH | OptionalH | RepeatedH(arraySize: nat) | OneofH(group: nat)

  datatype Field = Field(tag: nat, htype: HType, ltype: LType, init: Item)

  datatype Desc = Desc(fields: seq<Field>, groups: nat)

  // ----- Messages -----

  datatype Item = IntItem(v: int) | BlobItem(b: Bytes) | MsgItem(m: Message)

  /** The member of a field: its value with, for optional ones, the has_ member, and for repeated
      ones as many entries as the count member says. */
  datatype Slot = Single(item: Item) | Maybe(has: bool, item: Item) | Many(items: seq<Item>)

  /** A struct: a member for each field, and the which_ member of each oneof. */
  datatype Message = Message(slots: seq<Slot>, which: seq<nat>)

  predicate IntSize(size: nat) {
    size in {1, 2, 4, 8}
  }

  function Power256(n: nat): (p: nat)
    ensures p > 0
  {
    if n == 0 then 1 else 256 * Power256(n - 1)
  }

  predicate InSigned(v: int, size: nat) {
    var p: int := Power256(size);
    -p <= 2 * v < p
  }

  predicate InUnsigned(v: int, size: nat) {
    0 <= v < Power256(size)
  }

  /** The value is one that a member of the type can hold. */
  predicate ItemShaped(lt: LType, item: Item)
    decreases lt, 0
  {
    match lt
    case VarintT(size) => item.IntItem? && IntSize(size) && InSigned(item.v, size)
    case UVarintT(size) => item.IntItem? && IntSize(size) && InUnsigned(item.v, size)
    case SVarintT(size) => item.IntItem? && IntSize(size) && InSigned(item.v, size)
    case Fixed32T => item.IntItem? && 0 <= item.v < WORD32
    case Fixed64T => item.IntItem? && 0 <= item.v < WORD64
    case BytesT(_) => item.BlobItem?
    case StringT(size) => item.BlobItem? && |item.b| == size
    case FixedBytesT(size) => item.BlobItem? && |item.b| == size
    case SubmessageT(d) => item.MsgItem? && Shaped(d, item.m)
  }

  predicate SlotShaped(f: Field, slot: Slot)
    decreases f, 0
  {
    match f.htype
    case RequiredH => slot.Single? && ItemShaped(f.ltype, slot.item)
    case OneofH(_) => slot.Single? && ItemShaped(f.ltype, slot.item)
    case OptionalH => slot.Maybe? && ItemShaped(f.ltype, slot.item)
    case RepeatedH(_) => slot.Many? && forall item :: item in slot.items ==> ItemShaped(f.ltype, item)
  }

  /** The struct is laid out as the descriptor says. */
  predicate Shaped(d: Desc, m: Message)
    decreases d, 0
  {
    && |m.slots| == |d.fields| && |m.which| == d.groups
    && (forall i :: 0 <= i < |d.fields| ==> SlotShaped(d.fields[i], m.slots[i]))
    && (forall i :: 0 <= i < |d.fields| && d.fields[i].htype.OneofH? ==> d.fields[i].htype.group < d.groups)
  }

  // ----- The wire format -----

  const WT_VARINT: nat := 0
  const WT_64BIT: nat := 1
  const WT_STRING: nat := 2
  const WT_32BIT: nat := 5

  function WireType(lt: LType): nat {
    match lt
    case VarintT(_) => WT_VARINT
    case UVarintT(_) => WT_VARINT
    case SVarintT(_) => WT_VARINT
    case Fixed32T => WT_32BIT
    case Fixed64T => WT_64BIT
    case _ => WT_STRING
  }

  predicate Packable(lt: LType) {
    lt.VarintT? || lt.UVarintT? || lt.SVarintT? || lt.Fixed32T? || lt.Fixed64T?
  }

  function TagBytes(wireType: nat, tag: nat): Bytes {
    Varint(8 * tag + wireType)
  }

  function Prefixed(b: Bytes): Bytes {
    Varint(|b|) + b
  }

  /** The characters of a char array up to its terminator, or all of them. */
  function CString(b: Bytes): (s: Bytes)
    ensures |s| <= |b| && s == b[..|s|] && 0 !in s
    ensures |s| < |b| ==> b[|s|] == 0
  {
    if b == [] || b[0] == 0 then [] else [b[0]] + CString(b[1..])
  }

  function Zigzag(v: int): nat {
    if v < 0 then -2 * v - 1 else 2 * v
  }

  function Join(a: Option<Bytes>, b: Option<Bytes>): Option<Bytes> {
    if a.Some? && b.Some? then Some(a.value + b.value) else None
  }

  /** The bytes of one value, without tag; none for a value the encoder refuses. */
  function ItemBytes(lt: LType, item: Item): Option<Bytes>
    requires ItemShaped(lt, item)
    decreases lt, 1
  {
    match lt
    case VarintT(_) => Some(Varint(item.v % WORD64))
    case UVarintT(_) => Some(Varint(item.v))
    case SVarintT(_) => Some(Varint(Zigzag(item.v)))
    case Fixed32T => Some(EncodeFixed32(item.v))
    case Fixed64T => Some(EncodeFixed64(item.v))
    case BytesT(capacity) => if |item.b| > capacity then None else Some(Prefixed(item.b))
    case StringT(_) => Some(Prefixed(CString(item.b)))
    case FixedBytesT(_) => Some(Prefixed(item.b))
    case SubmessageT(d) =>
      var inner := FieldsFrom(d, item.m, 0);
      if inner.None? then None else Some(Prefixed(inner.value))
  }

  /** Values one after another, as in a packed array. */
  function ItemsBytes(lt: LType, items: seq<Item>): Option<Bytes>
    requires forall item :: item in items ==> ItemShaped(lt, item)
    decreases lt, 2, |items|
  {
    if items == [] then Some([]) else Join(ItemBytes(lt, items[0]), ItemsBytes(lt, items[1..]))
  }

  function Tagged(f: Field, item: Item): Option<Bytes>
    requires ItemShaped(f.ltype, item)
    decreases f, 1
  {
    Join(Some(TagBytes(WireType(f.ltype), f.tag)), ItemBytes(f.ltype, item))
  }

  /** Values one after another, each with its tag. */
  function TaggedItems(f: Field, items: seq<Item>): Option<Bytes>
    requires forall item :: item in items ==> ItemShaped(f.ltype, item)
    decreases f, 2, |items|
  {
    if items == [] then Some([]) else Join(Tagged(f, items[0]), TaggedItems(f, items[1..]))
  }

  function ArrayBytes(f: Field, items: seq<Item>): Option<Bytes>
    requires f.htype.RepeatedH? && forall item :: item in items ==> ItemShaped(f.ltype, item)
    decreases f, 3
  {
    if items == [] then Some([])
    else if |items| > f.htype.arraySize then None
    else if Packable(f.ltype) then
      var data := ItemsBytes(f.ltype, items);
      if data.None? then None else Some(TagBytes(WT_STRING, f.tag) + Prefixed(data.value))
    else TaggedItems(f, items)
  }

  function FieldBytes(f: Field, slot: Slot, which: seq<nat>): Option<Bytes>
    requires SlotShaped(f, slot) && (f.htype.OneofH? ==> f.htype.group < |which|)
    decreases f, 4
  {
    match f.htype
    case RequiredH => Tagged(f, slot.item)
    case OptionalH => if slot.has then Tagged(f, slot.item) else Some([])
    case RepeatedH(_) => ArrayBytes(f, slot.items)
    case OneofH(group) => if which[group] == f.tag then Tagged(f, slot.item) else Some([])
  }

  /** The bytes of the fields from the `i`-th on. */
  function FieldsFrom(d: Desc, m: Message, i: nat): Option<Bytes>
    requires Shaped(d, m) && i <= |d.fields|
    decreases d, 1, |d.fields| - i
  {
    if i == |d.fields| then Some([])
    else Join(FieldBytes(d.fields[i], m.slots[i], m.which), FieldsFrom(d, m, i + 1))
  }

  /** The encoding of a message. */
  function Encoded(d: Desc, m: Message): Option<Bytes>
    requires Shaped(d, m)
  {
    FieldsFrom(d, m, 0)
  }

  // ----- Walking the fields -----

  function Requireds(fields: seq<Field>, n: nat): nat
    requires n <= |fields|
  {
    if n == 0 then 0 else Requireds(fields, n - 1) + if fields[n - 1].htype.RequiredH? then 1 else 0
  }

  /** The cyclic iterator over the fields of a message. It counts the required fields before the
      one it is at. */
  class FieldIter {
    const fields: seq<Field>
    var pos: nat
    var requiredFieldIndex: nat

    ghost predicate Ok()
      reads this
    {
      requiredFieldIndex <= pos && (if fields == [] then pos == 0 else pos < |fields|) &&
      (pos <= |fields| ==> requiredFieldIndex == Requireds(fields, pos))
    }

    /** Begin; `some` tells whether there is a field at all. */
    constructor (fs: seq<Field>)
      ensures Ok() && fields == fs && pos == 0
    {
      fields, pos, requiredFieldIndex := fs, 0, 0;
    }

    method Begin() returns (some: bool)
      modifies this
      ensures Ok() && pos == 0 && (some <==> fields != [])
    {
      pos, requiredFieldIndex := 0, 0;
      return |fields| > 0;
    }

    /** Go to the next field; after the last, back to the first. */
    method Next() returns (more: bool)
      requires Ok()
      modifies this
      ensures Ok() && (more <==> old(pos) + 1 < |fields|)
      ensures pos == if more then old(pos) + 1 else 0
    {
      if |fields| == 0 {
        return false;
      }
      var prev := fields[pos];
      pos := pos + 1;
      if pos == |fields| {
        var _ := Begin();
        return false;
      }
      if prev.htype.RequiredH? {
        requiredFieldIndex := requiredFieldIndex + 1;
      }
      return true;
    }

    /** Find the field with the tag, starting where the iterator is: that field is found wherever
        the search starts, and not found only if there is none. */
    method Find(tag: nat) returns (found: bool)
      requires Ok()
      modifies this
      ensures Ok()
      ensures if found then pos < |fields| && fields[pos].tag == tag
              else pos == old(pos) && forall f :: f in fields ==> f.tag != tag
    {
      var start := pos;
      ghost var seen := 0;
      while true
        invariant Ok() && (fields == [] ==> pos == start && seen == 0)
        invariant fields != [] ==> start < |fields| && 0 <= seen < |fields|
        invariant fields != [] ==> pos == if start + seen < |fields| then start + seen else start + seen - |fields|
        invariant forall i :: start <= i < |fields| && i < start + seen ==> fields[i].tag != tag
        invariant forall i :: 0 <= i < start && i < start + seen - |fields| ==> fields[i].tag != tag
        decreases |fields| - seen
      {
        if pos < |fields| && fields[pos].tag == tag {
          return true;
        }
        var _ := Next();
        if pos == start {
          return false;
        }
        seen := seen + 1;
      }
    }
  }
}
