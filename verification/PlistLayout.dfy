/** Property lists and the layout of their binary form (src/utils/plist.cpp): what the bytes of
    every object are, where they go, and how the sizing pass counts them. */
module PlistLayout {
  import opened BigEndianBytes
  import opened MachineInts

  datatype Plist =
    | Null                                // a null pointer where a child is expected
    | Primitive(v: byte)
    | Integer(n: int64)
    | Real(bits: seq<byte>)               // the double as it lies in memory
    | Data(bytes: seq<byte>)
    | Str(chars: seq<byte>)               // up to, not including, the terminating NUL
    | Date(bytes: seq<byte>)
    | Unicode(chars: seq<byte>)
    | Array(items: seq<Plist>)
    | Dict(entries: seq<Entry>)

  datatype Entry = Entry(key: seq<byte>, value: Plist)

  // ---- Integers ----

  const TWO64: int := 0x1_0000_0000_0000_0000

  /** `integer_length`. Zero takes eight bytes. */
  function IntLen(v: int): (k: nat)
    ensures k == 1 || k == 2 || k == 4 || k == 8
  {
    if 0 < v < 0x100 then 1 else if 0 < v < 0x1_0000 then 2 else if 0 < v < 0x1_0000_0000 then 4 else 8
  }

  /** `blist_integer_length`, the binary logarithm of `integer_length`. */
  function IntTag(v: int): (k: byte)
    ensures k <= 3
  {
    if 0 < v < 0x100 then 0 else if 0 < v < 0x1_0000 then 1 else if 0 < v < 0x1_0000_0000 then 2 else 3
  }

  /** `serialize_integer`: the low k bytes in two's complement, big-endian. */
  function IntBytes(v: int, k: nat): (b: seq<byte>)
    ensures |b| == k
  {
    BigEndian(v % TWO64, k)
  }

  // ---- Bytes of one object ----

  /** The type byte with the length in it, or followed by it. */
  function Head(kind: byte, n: nat): (h: seq<byte>)
    requires kind <= 0xf0
    ensures |h| == HeadLen(n)
  {
    if n < 15 then [kind + n as byte] else [kind + 15, 0x10 + IntTag(n)] + IntBytes(n, IntLen(n))
  }

  function HeadLen(n: nat): nat
  {
    if n < 15 then 1 else 2 + IntLen(n)
  }

  /** The number of objects, and so of object ids, in a tree. */
  ghost function Count(t: Plist): (n: nat)
    ensures n >= 1
  {
    match t
    case Array(items) => 1 + CountItems(items)
    case Dict(entries) => 1 + CountEntries(entries)
    case _ => 1
  }

  ghost function CountItems(items: seq<Plist>): nat
  {
    if items == [] then 0 else CountItems(items[..|items| - 1]) + Count(items[|items| - 1])
  }

  ghost function CountEntries(entries: seq<Entry>): nat
  {
    if entries == [] then 0 else CountEntries(entries[..|entries| - 1]) + 1 + Count(entries[|entries| - 1].value)
  }

  /** The bytes of a tree whose root has object id `id`, with references of w bytes: a head, the
      references to the children, and the children in preorder. */
  ghost function Body(t: Plist, w: nat, id: nat): (b: seq<byte>)
    ensures |b| == BodyLen(t, w)
    decreases t
  {
    match t
    case Null => [0]
    case Primitive(v) => [v]
    case Integer(n) => [0x10 + IntTag(n as int)] + IntBytes(n as int, IntLen(n as int))
    case Real(bits) => [0x23] + bits
    case Data(b) => Head(0x40, |b|) + b
    case Str(s) => StrBody(s)
    case Date(_) => []
    case Unicode(_) => []
    case Array(items) => Head(0xa0, |items|) + ItemRefs(items, w, id + 1) + Items(items, w, id + 1)
    case Dict(entries) =>
      Head(0xd0, |entries|) + KeyRefs(entries, w, id + 1) + ValueRefs(entries, w, id + 1) + Entries(entries, w, id + 1)
  }

  ghost function StrBody(s: seq<byte>): (b: seq<byte>)
    ensures |b| == HeadLen(|s|) + |s|
  {
    Head(0x50, |s|) + s
  }

  ghost function Items(items: seq<Plist>, w: nat, id: nat): (b: seq<byte>)
    ensures |b| == ItemsLen(items, w)
    decreases items
  {
    if items == [] then []
    else
      var init := items[..|items| - 1];
      Items(init, w, id) + Body(items[|items| - 1], w, id + CountItems(init))
  }

  ghost function Entries(entries: seq<Entry>, w: nat, id: nat): (b: seq<byte>)
    ensures |b| == EntriesLen(entries, w)
    decreases entries
  {
    if entries == [] then []
    else
      var init := entries[..|entries| - 1];
      Entries(init, w, id) + EntryBody(entries[|entries| - 1], w, id + CountEntries(init))
  }

  /** A key, which is a string object with id `id`, and its value. */
  ghost function EntryBody(e: Entry, w: nat, id: nat): (b: seq<byte>)
    ensures |b| == EntryLen(e, w)
    decreases e
  {
    StrBody(e.key) + Body(e.value, w, id + 1)
  }

  /** The ids of the children, w bytes each. */
  ghost function ItemRefs(items: seq<Plist>, w: nat, id: nat): (b: seq<byte>)
    ensures |b| == |items| * w
  {
    if items == [] then []
    else
      var init := items[..|items| - 1];
      ItemRefs(init, w, id) + IntBytes(id + CountItems(init), w)
  }

  ghost function KeyRefs(entries: seq<Entry>, w: nat, id: nat): (b: seq<byte>)
    ensures |b| == |entries| * w
  {
    if entries == [] then []
    else
      var init := entries[..|entries| - 1];
      KeyRefs(init, w, id) + IntBytes(id + CountEntries(init), w)
  }

  ghost function ValueRefs(entries: seq<Entry>, w: nat, id: nat): (b: seq<byte>)
    ensures |b| == |entries| * w
  {
    if entries == [] then []
    else
      var init := entries[..|entries| - 1];
      ValueRefs(init, w, id) + IntBytes(id + CountEntries(init) + 1, w)
  }

  /** The length of `Body`. */
  ghost function BodyLen(t: Plist, w: nat): nat
  {
    match t
    case Null => 1
    case Primitive(_) => 1
    case Integer(n) => 1 + IntLen(n as int)
    case Real(bits) => 1 + |bits|
    case Data(b) => HeadLen(|b|) + |b|
    case Str(s) => HeadLen(|s|) + |s|
    case Date(_) => 0
    case Unicode(_) => 0
    case Array(items) => HeadLen(|items|) + |items| * w + ItemsLen(items, w)
    case Dict(entries) => HeadLen(|entries|) + |entries| * w + |entries| * w + EntriesLen(entries, w)
  }

  ghost function ItemsLen(items: seq<Plist>, w: nat): nat
  {
    if items == [] then 0 else ItemsLen(items[..|items| - 1], w) + BodyLen(items[|items| - 1], w)
  }

  ghost function EntriesLen(entries: seq<Entry>, w: nat): nat
  {
    if entries == [] then 0 else EntriesLen(entries[..|entries| - 1], w) + EntryLen(entries[|entries| - 1], w)
  }

  ghost function EntryLen(e: Entry, w: nat): nat
  {
    HeadLen(|e.key|) + |e.key| + BodyLen(e.value, w)
  }

  /** The offsets of all objects of a tree that is laid out from `base` on, in order of id. */
  ghost function Offsets(t: Plist, w: nat, base: nat): (o: seq<nat>)
    ensures |o| == Count(t)
    decreases t
  {
    match t
    case Array(items) => [base] + ItemOffsets(items, w, base + HeadLen(|items|) + |items| * w)
    case Dict(entries) => [base] + EntryOffsets(entries, w, base + HeadLen(|entries|) + |entries| * w + |entries| * w)
    case _ => [base]
  }

  ghost function ItemOffsets(items: seq<Plist>, w: nat, base: nat): (o: seq<nat>)
    ensures |o| == CountItems(items)
    decreases items
  {
    if items == [] then []
    else
      var init := items[..|items| - 1];
      ItemOffsets(init, w, base) + Offsets(items[|items| - 1], w, base + ItemsLen(init, w))
  }

  ghost function EntryOffsets(entries: seq<Entry>, w: nat, base: nat): (o: seq<nat>)
    ensures |o| == CountEntries(entries)
    decreases entries
  {
    if entries == [] then []
    else
      var init := entries[..|entries| - 1];
      EntryOffsets(init, w, base) + OffsetsOfEntry(entries[|entries| - 1], w, base + EntriesLen(init, w))
  }

  ghost function OffsetsOfEntry(e: Entry, w: nat, base: nat): (o: seq<nat>)
    ensures |o| == 1 + Count(e.value)
    decreases e
  {
    [base] + Offsets(e.value, w, base + HeadLen(|e.key|) + |e.key|)
  }

  // ---- The sizing pass ----

  /** What `bplist_analyze` adds to `bytes`. A dictionary's head is sized by twice its length. */
  ghost function Bytes(t: Plist): nat
  {
    match t
    case Null => 1
    case Primitive(_) => 1
    case Integer(n) => 1 + IntLen(n as int)
    case Real(_) => 1 + 8
    case Data(b) => HeadLen(|b|) + |b|
    case Str(s) => HeadLen(|s|) + |s|
    case Date(_) => 0
    case Unicode(_) => 0
    case Array(items) => HeadLen(|items|) + BytesItems(items)
    case Dict(entries) => DictHeadSize(|entries|) + BytesEntries(entries)
  }

  ghost function DictHeadSize(n: nat): nat
  {
    if n < 15 then 1 else 2 + IntLen(2 * n)
  }

  ghost function BytesItems(items: seq<Plist>): nat
  {
    if items == [] then 0 else BytesItems(items[..|items| - 1]) + Bytes(items[|items| - 1])
  }

  ghost function BytesEntries(entries: seq<Entry>): nat
  {
    if entries == [] then 0
    else
      var e := entries[|entries| - 1];
      BytesEntries(entries[..|entries| - 1]) + (HeadLen(|e.key|) + |e.key|) + Bytes(e.value)
  }

  /** What it adds to `refs`. */
  ghost function Refs(t: Plist): nat
  {
    match t
    case Array(items) => |items| + RefsItems(items)
    case Dict(entries) => 2 * |entries| + RefsEntries(entries)
    case _ => 0
  }

  ghost function RefsItems(items: seq<Plist>): nat
  {
    if items == [] then 0 else RefsItems(items[..|items| - 1]) + Refs(items[|items| - 1])
  }

  ghost function RefsEntries(entries: seq<Entry>): nat
  {
    if entries == [] then 0 else RefsEntries(entries[..|entries| - 1]) + Refs(entries[|entries| - 1].value)
  }

  /** By how much the sizing pass overestimates: the dictionaries whose length and twice their
      length take different numbers of bytes. */
  ghost function Excess(t: Plist): nat
  {
    match t
    case Array(items) => ExcessItems(items)
    case Dict(entries) => DictHeadSize(|entries|) - HeadLen(|entries|) + ExcessEntries(entries)
    case _ => 0
  }

  ghost function ExcessItems(items: seq<Plist>): nat
  {
    if items == [] then 0 else ExcessItems(items[..|items| - 1]) + Excess(items[|items| - 1])
  }

  ghost function ExcessEntries(entries: seq<Entry>): nat
  {
    if entries == [] then 0 else ExcessEntries(entries[..|entries| - 1]) + Excess(entries[|entries| - 1].value)
  }

  /** The doubles in a tree are eight bytes long. */
  ghost predicate Doubles(t: Plist)
  {
    match t
    case Real(bits) => |bits| == 8
    case Array(items) => DoublesItems(items)
    case Dict(entries) => DoublesEntries(entries)
    case _ => true
  }

  ghost predicate DoublesItems(items: seq<Plist>)
  {
    items == [] || (DoublesItems(items[..|items| - 1]) && Doubles(items[|items| - 1]))
  }

  ghost predicate DoublesEntries(entries: seq<Entry>)
  {
    entries == [] || (DoublesEntries(entries[..|entries| - 1]) && Doubles(entries[|entries| - 1].value))
  }

  // ---- The sizing pass predicts the layout ----

  /** Objects are one more than references. */
  lemma {:induction false} ObjectsAreRefs(t: Plist)
    ensures Count(t) == Refs(t) + 1
    decreases t
  {
    match t
    case Array(items) => ObjectsAreRefsItems(items);
    case Dict(entries) => ObjectsAreRefsEntries(entries);
    case _ =>
  }

  lemma {:induction false} ObjectsAreRefsItems(items: seq<Plist>)
    ensures CountItems(items) == RefsItems(items) + |items|
    decreases items
  {
    if items != [] {
      ObjectsAreRefsItems(items[..|items| - 1]);
      ObjectsAreRefs(items[|items| - 1]);
    }
  }

  lemma {:induction false} ObjectsAreRefsEntries(entries: seq<Entry>)
    ensures CountEntries(entries) == RefsEntries(entries) + 2 * |entries|
    decreases entries
  {
    if entries != [] {
      ObjectsAreRefsEntries(entries[..|entries| - 1]);
      ObjectsAreRefs(entries[|entries| - 1].value);
    }
  }

  /** The bytes written are the bytes sized, less the excess. */
  lemma {:induction false} BytesAreBody(t: Plist, w: nat)
    requires Doubles(t)
    ensures BodyLen(t, w) + Excess(t) == Bytes(t) + Refs(t) * w
    decreases t
  {
    match t
    case Array(items) =>
      BytesAreItems(items, w);
      Distribute(|items|, RefsItems(items), w);
    case Dict(entries) =>
      BytesAreEntries(entries, w);
      Distribute(2 * |entries|, RefsEntries(entries), w);
      Distribute(|entries|, |entries|, w);
    case _ =>
  }

  lemma Distribute(a: int, b: int, w: int)
    ensures (a + b) * w == a * w + b * w
  {
  }

  lemma {:induction false} BytesAreItems(items: seq<Plist>, w: nat)
    requires DoublesItems(items)
    ensures ItemsLen(items, w) + ExcessItems(items) == BytesItems(items) + RefsItems(items) * w
    decreases items
  {
    if items != [] {
      var init, last := items[..|items| - 1], items[|items| - 1];
      BytesAreItems(init, w);
      BytesAreBody(last, w);
      Distribute(RefsItems(init), Refs(last), w);
    }
  }

  lemma {:induction false} BytesAreEntries(entries: seq<Entry>, w: nat)
    requires DoublesEntries(entries)
    ensures EntriesLen(entries, w) + ExcessEntries(entries) == BytesEntries(entries) + RefsEntries(entries) * w
    decreases entries
  {
    if entries != [] {
      var init, last := entries[..|entries| - 1], entries[|entries| - 1];
      BytesAreEntries(init, w);
      BytesAreBody(last.value, w);
      Distribute(RefsEntries(init), Refs(last.value), w);
    }
  }

  // ---- The whole file ----

  /** "bplist00" */
  const MAGIC: seq<byte> := [0x62, 0x70, 0x6c, 0x69, 0x73, 0x74, 0x30, 0x30]

  ghost function RefLen(t: Plist): (w: nat)
    ensures w == 1 || w == 2 || w == 4 || w == 8
  {
    IntLen(Refs(t))
  }

  /** The width of an offset, chosen by the sizing pass. */
  ghost function OffLen(t: Plist): (w: nat)
    ensures w == 1 || w == 2 || w == 4 || w == 8
  {
    IntLen(8 + Bytes(t) + Refs(t) * RefLen(t))
  }

  /** Offsets, k bytes each. */
  ghost function Table(o: seq<nat>, k: nat): (b: seq<byte>)
    ensures |b| == |o| * k
  {
    if o == [] then [] else Table(o[..|o| - 1], k) + IntBytes(o[|o| - 1], k)
  }

  /** The part that `bplist_serialize_object` and the offset loop write. */
  ghost function Contents(t: Plist): (b: seq<byte>)
  {
    MAGIC + Body(t, RefLen(t), 0) + Table(Offsets(t, RefLen(t), 8), OffLen(t))
  }

  /** The last 26 bytes of the trailer. */
  ghost function Trailer(t: Plist): (b: seq<byte>)
    ensures |b| == 26
  {
    IntBytes(OffLen(t), 1) + IntBytes(RefLen(t), 1) + IntBytes(Count(t), 8) + IntBytes(0, 8)
    + IntBytes(8 + BodyLen(t, RefLen(t)), 8)
  }

  /** What `plist_object_to_bplist` returns. The excess of the sizing pass stays behind the
      trailer, as zeros. */
  ghost function Encoded(t: Plist): (b: seq<byte>)
  {
    Contents(t) + Zeros(6) + Trailer(t) + Zeros(Excess(t))
  }

  /** The length the sizing pass predicts. */
  lemma EncodedLength(t: Plist)
    requires Doubles(t)
    ensures |Contents(t)| + 32 + Excess(t) == |Encoded(t)|
    ensures |Encoded(t)| == 8 + Bytes(t) + Refs(t) * RefLen(t) + Count(t) * OffLen(t) + 32
  {
    hide Body, Offsets, BodyLen, Excess, Bytes, Refs, Table, Count, IntBytes;
    BytesAreBody(t, RefLen(t));
  }

  lemma SlotsFit(i: nat, n: nat, w: nat)
    requires i < n
    ensures i * w + w == (i + 1) * w <= n * w
  {
    assert n * w == (i + 1) * w + (n - i - 1) * w;
  }
}
