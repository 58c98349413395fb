/** Reading what the plist writer wrote (src/utils/plist.cpp). */
module PlistRoundTrip {
  import opened BigEndianBytes
  import opened Bitwise
  import opened LittleEndian
  import opened MachineInts
  import PlistExact
  import PlistFormat
  import opened PlistLayout
  import opened PlistParse
  import PlistReader
  import PlistWriter
  import opened Wrappers

  // ---- What can be expected back ----

  /** Primitives below 15, doubles of eight bytes, C strings without NUL; no dates and no unicode
      strings, for which the writer writes nothing. Null children are allowed. */
  ghost predicate Scope(t: Plist)
  {
    match t
    case Primitive(v) => v < 15
    case Real(bits) => |bits| == 8
    case Str(s) => 0 !in s
    case Date(_) => false
    case Unicode(_) => false
    case Array(items) => ScopeItems(items)
    case Dict(entries) => ScopeEntries(entries)
    case _ => true
  }

  ghost predicate ScopeItems(items: seq<Plist>)
  {
    forall i | 0 <= i < |items| :: Scope(items[i])
  }

  ghost predicate ScopeEntries(entries: seq<Entry>)
  {
    forall i | 0 <= i < |entries| :: 0 !in entries[i].key && Scope(entries[i].value)
  }

  /** The tree that comes back: a null child is a primitive 0, and a double has its bytes reversed. */
  ghost function Image(t: Plist): Plist
  {
    match t
    case Null => Primitive(0)
    case Real(bits) => Real(Reversed(bits))
    case Array(items) => Array(ImageItems(items))
    case Dict(entries) => Dict(ImageEntries(entries))
    case _ => t
  }

  ghost function ImageItems(items: seq<Plist>): (r: seq<Plist>)
    ensures |r| == |items|
  {
    if items == [] then [] else [Image(items[0])] + ImageItems(items[1..])
  }

  ghost function ImageEntries(entries: seq<Entry>): (r: seq<Entry>)
    ensures |r| == |entries|
  {
    if entries == [] then []
    else [Entry(entries[0].key, Image(entries[0].value))] + ImageEntries(entries[1..])
  }

  // ---- Integers and heads ----

  lemma Pow256Values()
    ensures Pow256(1) == 0x100 && Pow256(2) == 0x1_0000 && Pow256(4) == 0x1_0000_0000 && Pow256(8) == TWO64
  {
    assert Pow256(1) == 0x100;
    hide Pow256;
    Pow256Add(1, 1);
    Pow256Add(2, 2);
    Pow256Add(4, 4);
  }

  /** A nonnegative number that fits k bytes comes back. */
  lemma NatComesBack(v: nat, k: nat, data: seq<byte>, i: nat)
    requires k == 1 || k == 2 || k == 4 || k == 8
    requires v < Pow256(k) && v < TWO63 && i + k <= |data| && data[i..i + k] == IntBytes(v, k)
    ensures ParseInteger(data, i, k) == Some(v) && BE(data[i..i + k]) == v
  {
    assert v % TWO64 == v;
    BigEndianDecodes(v, k);
  }

  lemma IntLenFits(v: nat)
    requires v < TWO63
    ensures v < Pow256(IntLen(v))
  {
    Pow256Values();
  }

  /** Every int64 comes back. */
  lemma IntComesBack(v: int64, data: seq<byte>, i: nat)
    requires i + IntLen(v as int) <= |data| && data[i..i + IntLen(v as int)] == IntBytes(v as int, IntLen(v as int))
    ensures ParseInteger(data, i, IntLen(v as int)) == Some(v as int)
  {
    Pow256Values();
    if v >= 0 {
      NatComesBack(v as int, IntLen(v as int), data, i);
    } else {
      var u := v as int + TWO64;
      assert (v as int) % TWO64 == u;
      BigEndianDecodes(u, 8);
    }
  }

  lemma Tags(v: int)
    ensures Pow2(IntTag(v) as nat) == IntLen(v)
  {
    assert Pow2(1) == 2 && Pow2(2) == 4 && Pow2(3) == 2 * Pow2(2);
  }

  /** The bytes b stand at position i. */
  ghost predicate StandsAt<T>(data: seq<T>, i: nat, b: seq<T>)
  {
    i + |b| <= |data| && data[i..i + |b|] == b
  }

  lemma StandsParts<T>(data: seq<T>, i: nat, a: seq<T>, b: seq<T>)
    ensures StandsAt(data, i, a + b) <==> StandsAt(data, i, a) && StandsAt(data, i + |a|, b)
  {
    if i + |a| + |b| <= |data| {
      var x := data[i..i + |a + b|];
      assert x[..|a|] == data[i..i + |a|] && x[|a|..] == data[i + |a|..i + |a| + |b|];
      assert (a + b)[..|a|] == a && (a + b)[|a|..] == b;
      assert x == x[..|a|] + x[|a|..];
    }
  }

  lemma HeadComesBack(data: seq<byte>, at: nat, kind: byte, n: nat)
    requires kind % 16 == 0 && kind <= 0xf0 && n < TWO63 && StandsAt(data, at, Head(kind, n))
    ensures var r := ReadHead(data, at);
      r.Some? && r.value.kind == kind && r.value.length == n && r.value.next == at + HeadLen(n)
    ensures n < 15 ==> ReadHead(data, at).value.low as nat == n
  {
    hide IntBytes, BE, Pow256, Pow2;
    var h := Head(kind, n);
    if n < 15 {
      assert data[at] == data[at..at + |h|][0] == kind + n as byte;
    } else {
      StandsParts(data, at, [kind + 15, 0x10 + IntTag(n)], IntBytes(n, IntLen(n)));
      assert data[at] == data[at..at + |h|][0] == kind + 15;
      assert data[at + 1] == data[at..at + |h|][1] == 0x10 + IntTag(n);
      Tags(n);
      IntLenFits(n);
      NatComesBack(n, IntLen(n), data, at + 2);
    }
  }

  lemma {:induction false} NoNul(s: seq<byte>)
    requires 0 !in s
    ensures CString(s) == s
  {
    if s != [] {
      NoNul(s[1..]);
      assert s == [s[0]] + s[1..];
    }
  }

  // ---- Where the pieces are ----

  /** A file whose references are w bytes wide and fit. */
  ghost predicate Readable(w: nat, data: seq<byte>, reftab: seq<nat>)
  {
    && (w == 1 || w == 2 || w == 4 || w == 8) && |data| < 0x1_0000_0000
    && |reftab| <= Pow256(w) && |reftab| <= TWO63
  }

  /** The tree t is laid out from `at` on, with ids from `id` on. */
  ghost predicate Laid(t: Plist, w: nat, id: nat, at: nat, data: seq<byte>, reftab: seq<nat>)
  {
    StandsAt(data, at, Body(t, w, id)) && StandsAt(reftab, id, Offsets(t, w, at))
  }

  ghost predicate LaidItems(items: seq<Plist>, w: nat, id: nat, slot: nat, first: nat, data: seq<byte>, reftab: seq<nat>)
  {
    && StandsAt(data, slot, ItemRefs(items, w, id)) && StandsAt(data, first, Items(items, w, id))
    && StandsAt(reftab, id, ItemOffsets(items, w, first))
  }

  ghost predicate LaidEntries(entries: seq<Entry>, w: nat, id: nat, kslot: nat, vslot: nat, first: nat,
                              data: seq<byte>, reftab: seq<nat>)
  {
    && StandsAt(data, kslot, KeyRefs(entries, w, id)) && StandsAt(data, vslot, ValueRefs(entries, w, id))
    && StandsAt(data, first, Entries(entries, w, id)) && StandsAt(reftab, id, EntryOffsets(entries, w, first))
  }

  /** Child i of an array, and its reference. */
  lemma {:induction false} ItemLaid(items: seq<Plist>, i: nat, w: nat, id: nat, slot: nat, first: nat,
      data: seq<byte>, reftab: seq<nat>)
    requires i < |items| && LaidItems(items, w, id, slot, first, data, reftab)
    ensures var id1 := id + CountItems(items[..i]);
      && StandsAt(data, slot + i * w, IntBytes(id1, w))
      && Laid(items[i], w, id1, first + ItemsLen(items[..i], w), data, reftab)
  {
    hide Body, Offsets, BodyLen, Count, IntBytes, StandsAt;
    var n := |items| - 1;
    var init := items[..n];
    StandsParts(data, slot, ItemRefs(init, w, id), IntBytes(id + CountItems(init), w));
    StandsParts(data, first, Items(init, w, id), Body(items[n], w, id + CountItems(init)));
    StandsParts<nat>(reftab, id, ItemOffsets(init, w, first), Offsets(items[n], w, first + ItemsLen(init, w)));
    if i < n {
      ItemLaid(init, i, w, id, slot, first, data, reftab);
      assert init[..i] == items[..i];
    }
  }

  /** Entry i of a dictionary, and its two references. */
  lemma {:induction false} EntryLaid(entries: seq<Entry>, i: nat, w: nat, id: nat, kslot: nat, vslot: nat, first: nat,
                                     data: seq<byte>, reftab: seq<nat>)
    requires i < |entries| && LaidEntries(entries, w, id, kslot, vslot, first, data, reftab)
    ensures var id1, at := id + CountEntries(entries[..i]), first + EntriesLen(entries[..i], w);
      && StandsAt(data, kslot + i * w, IntBytes(id1, w)) && StandsAt(data, vslot + i * w, IntBytes(id1 + 1, w))
      && StandsAt(data, at, EntryBody(entries[i], w, id1)) && StandsAt(reftab, id1, OffsetsOfEntry(entries[i], w, at))
  {
    hide EntryBody, OffsetsOfEntry, EntryLen, Count, IntBytes, StandsAt;
    var n := |entries| - 1;
    var init := entries[..n];
    StandsParts(data, kslot, KeyRefs(init, w, id), IntBytes(id + CountEntries(init), w));
    StandsParts(data, vslot, ValueRefs(init, w, id), IntBytes(id + CountEntries(init) + 1, w));
    StandsParts(data, first, Entries(init, w, id), EntryBody(entries[n], w, id + CountEntries(init)));
    StandsParts<nat>(reftab, id, EntryOffsets(init, w, first), OffsetsOfEntry(entries[n], w, first
        + EntriesLen(init, w)));
    if i < n {
      EntryLaid(init, i, w, id, kslot, vslot, first, data, reftab);
      assert init[..i] == entries[..i];
    }
  }

  /** Key and value of an entry, as two objects. */
  lemma EntryParts(e: Entry, w: nat, id: nat, at: nat, data: seq<byte>, reftab: seq<nat>)
    requires StandsAt(data, at, EntryBody(e, w, id)) && StandsAt(reftab, id, OffsetsOfEntry(e, w, at))
    ensures Laid(Str(e.key), w, id, at, data, reftab)
    ensures Laid(e.value, w, id + 1, at + HeadLen(|e.key|) + |e.key|, data, reftab)
  {
    hide StandsAt, StrBody;
    var next := at + HeadLen(|e.key|) + |e.key|;
    StandsParts(data, at, StrBody(e.key), Body(e.value, w, id + 1));
    StandsParts<nat>(reftab, id, [at], Offsets(e.value, w, next));
    assert Body(Str(e.key), w, id) == StrBody(e.key) && Offsets(Str(e.key), w, at) == [at];
  }

  // ---- Reading it back ----

  /** The offset table leads to the object. */
  lemma Found(t: Plist, w: nat, id: nat, at: nat, data: seq<byte>, reftab: seq<nat>)
    requires Laid(t, w, id, at, data, reftab)
    ensures id < |reftab| && reftab[id] == at
  {
    var o := Offsets(t, w, at);
    assert reftab[id] == reftab[id..id + |o|][0] == o[0] == at;
  }

  /** Objects without children. */
  lemma LeafComesBack(t: Plist, w: nat, id: nat, at: nat, data: seq<byte>, reftab: seq<nat>, fuel: nat)
    requires Readable(w, data, reftab) && Scope(t) && Laid(t, w, id, at, data, reftab) && fuel >= 1
    requires !t.Array? && !t.Dict?
    ensures Parse(reftab, id, data, w, fuel) == Parsed(Image(t))
  {
    Found(t, w, id, at, data, reftab);
    match t {
      case Null => OneByte(data, at, 0);
      case Primitive(v) => OneByte(data, at, v);
      case Integer(n) => IntegerComesBack(n, at, data);
      case Real(bits) => RealComesBack(bits, at, data);
      case Data(b) => BytesComeBack(0x40, b, at, data);
      case Str(s) =>
        BytesComeBack(0x50, s, at, data);
        NoNul(s);
    }
  }

  lemma OneByte(data: seq<byte>, at: nat, v: byte)
    requires v < 15 && StandsAt(data, at, [v])
    ensures ReadHead(data, at) == Some(Opening(0, v, v as nat, at + 1))
  {
    assert data[at] == data[at..at + 1][0] == v;
  }

  lemma IntegerComesBack(n: int64, at: nat, data: seq<byte>)
    requires StandsAt(data, at, [0x10 + IntTag(n as int)] + IntBytes(n as int, IntLen(n as int)))
    ensures var h := ReadHead(data, at); h.Some? && h.value.kind == 0x10 && ParseInt(data, h.value) == Parsed(Integer(n))
  {
    var tag, k := IntTag(n as int), IntLen(n as int);
    StandsParts(data, at, [0x10 + tag], IntBytes(n as int, k));
    assert data[at] == data[at..at + 1][0] == 0x10 + tag;
    Tags(n as int);
    IntComesBack(n, data, at + 1);
  }

  lemma RealComesBack(bits: seq<byte>, at: nat, data: seq<byte>)
    requires |bits| == 8 && StandsAt(data, at, [0x23] + bits)
    ensures var h := ReadHead(data, at);
      h.Some? && h.value.kind == 0x20 && ParseReal(data, h.value) == Parsed(Real(Reversed(bits)))
  {
    StandsParts(data, at, [0x23], bits);
    assert data[at] == data[at..at + 1][0] == 0x23;
    assert Pow2(3) == 2 * Pow2(2);
  }

  lemma BytesComeBack(kind: byte, b: seq<byte>, at: nat, data: seq<byte>)
    requires kind == 0x40 || kind == 0x50
    requires |data| < 0x1_0000_0000 && StandsAt(data, at, Head(kind, |b|) + b)
    ensures var h := ReadHead(data, at);
      h.Some? && h.value.kind == kind && ParseBytes(data, h.value) == Parsed(if kind
          == 0x40 then Data(b) else Str(CString(b)))
  {
    hide Head, CString, ReadHead, StandsAt, ParseBytes;
    StandsParts(data, at, Head(kind, |b|), b);
    HeadStands(data, at, kind, b);
    HeadComesBack(data, at, kind, |b|);
    BytesStand(data, ReadHead(data, at).value, b);
  }

  lemma HeadStands(data: seq<byte>, at: nat, kind: byte, b: seq<byte>)
    requires kind <= 0xf0 && StandsAt(data, at, Head(kind, |b|)) && StandsAt(data, at + |Head(kind, |b|)|, b)
    ensures StandsAt(data, at + HeadLen(|b|), b) && |b| <= |data|
  {
    hide Head;
  }

  lemma BytesStand(data: seq<byte>, h: Opening, b: seq<byte>)
    requires h.kind == 0x40 || h.kind == 0x50
    requires h.length == |b| && StandsAt(data, h.next, b)
    ensures ParseBytes(data, h) == Parsed(if h.kind == 0x40 then Data(b) else Str(CString(b)))
  {
    hide CString;
  }

  /** A reference leads back to its id. */
  lemma RefComesBack(id: nat, w: nat, at: nat, data: seq<byte>, reftab: seq<nat>)
    requires Readable(w, data, reftab) && id < |reftab| && StandsAt(data, at, IntBytes(id, w))
    ensures at + w <= |data| && ParseInteger(data, at, w) == Some(id)
  {
    NatComesBack(id, w, data, at);
  }

  lemma {:induction false} ObjectComesBack(t: Plist, w: nat, id: nat, at: nat, data: seq<byte>, reftab: seq<nat>,
      fuel: nat)
    requires Readable(w, data, reftab) && Scope(t) && Laid(t, w, id, at, data, reftab) && fuel >= Count(t)
    ensures Parse(reftab, id, data, w, fuel) == Parsed(Image(t))
    decreases t, 2, 0
  {
    hide Image, Scope, Laid, Readable, Parse;
    match t {
      case Array(items) => ArrayComesBack(t, w, id, at, data, reftab, fuel);
      case Dict(entries) => DictComesBack(t, w, id, at, data, reftab, fuel);
      case _ => LeafComesBack(t, w, id, at, data, reftab, fuel);
    }
  }

  lemma {:induction false} ArrayComesBack(t: Plist, w: nat, id: nat, at: nat, data: seq<byte>, reftab: seq<nat>,
      fuel: nat)
    requires t.Array? && Readable(w, data, reftab) && Scope(t) && Laid(t, w, id, at, data, reftab) && fuel >= Count(t)
    ensures Parse(reftab, id, data, w, fuel) == Parsed(Image(t))
    decreases t, 1, 0
  {
    hide StandsAt, Head, IntBytes, Parse, Readable, LaidItems, Laid, ParseChildren, ImageItems;
    var items := t.items;
    var n := |items|;
    var slot := at + HeadLen(n);
    var first := slot + n * w;
    LaidArray(t, w, id, at, data, reftab);
    RowFits(items, w, id, slot, first, data, reftab);
    HeadComesBack(data, at, 0xa0, n);
    ItemsComeBack(t, items, 0, w, id + 1, slot, first, data, reftab, fuel - 1);
    assert items[0..] == items;
    ArrayParses(t, w, id, at, data, reftab, fuel);
  }

  lemma LaidArray(t: Plist, w: nat, id: nat, at: nat, data: seq<byte>, reftab: seq<nat>)
    requires t.Array? && Laid(t, w, id, at, data, reftab)
    ensures var slot := at + HeadLen(|t.items|);
      StandsAt(data, at, Head(0xa0, |t.items|)) && LaidItems(t.items, w, id + 1, slot, slot + |t.items| * w, data, reftab)
  {
    hide StandsAt, Head, Items, ItemRefs, ItemOffsets;
    var items := t.items;
    var slot := at + HeadLen(|items|);
    StandsParts(data, at, Head(0xa0, |items|) + ItemRefs(items, w, id + 1), Items(items, w, id + 1));
    StandsParts(data, at, Head(0xa0, |items|), ItemRefs(items, w, id + 1));
    StandsParts<nat>(reftab, id, [at], ItemOffsets(items, w, slot + |items| * w));
  }

  /** A row of n references fits into the file, so n is small. */
  lemma LengthFits(n: nat, w: nat, slot: nat, refs: seq<byte>, data: seq<byte>)
    requires |refs| == n * w && w >= 1 && StandsAt(data, slot, refs) && |data| < 0x1_0000_0000
    ensures n < TWO63 && slot + n * w <= |data|
  {
    assert n <= n * w;
  }

  lemma RowFits(items: seq<Plist>, w: nat, id: nat, slot: nat, first: nat, data: seq<byte>, reftab: seq<nat>)
    requires Readable(w, data, reftab) && LaidItems(items, w, id + 1, slot, first, data, reftab)
    ensures |items| < TWO63 && slot + |items| * w <= |data|
  {
    hide StandsAt, Items, ItemRefs, ItemOffsets;
    LengthFits(|items|, w, slot, ItemRefs(items, w, id + 1), data);
  }

  lemma RowsFit(entries: seq<Entry>, w: nat, id: nat, kslot: nat, vslot: nat, first: nat, data: seq<byte>,
      reftab: seq<nat>)
    requires Readable(w, data, reftab) && LaidEntries(entries, w, id + 1, kslot, vslot, first, data, reftab)
    ensures |entries| < TWO63 && vslot + |entries| * w <= |data|
  {
    hide StandsAt, Entries, KeyRefs, ValueRefs, EntryOffsets;
    LengthFits(|entries|, w, vslot, ValueRefs(entries, w, id + 1), data);
  }

  lemma ArrayParses(t: Plist, w: nat, id: nat, at: nat, data: seq<byte>, reftab: seq<nat>, fuel: nat)
    requires t.Array? && fuel > 0 && Laid(t, w, id, at, data, reftab) && Readable(w, data, reftab)
    requires var h := ReadHead(data, at);
      h.Some? && h.value.kind == 0xa0 && h.value.length == |t.items| && h.value.next == at + HeadLen(|t.items|)
    requires at + HeadLen(|t.items|) + |t.items| * w <= |data|
    requires var slot := at + HeadLen(|t.items|);
      ParseChildren(reftab, data, w, slot, |t.items|, false, fuel - 1)
      == Children(ImageItems(t.items), slot + |t.items| * w, Complete)
    ensures Parse(reftab, id, data, w, fuel) == Parsed(Image(t))
  {
    hide Body, ParseChildren, ReadHead;
    Found(t, w, id, at, data, reftab);
    var h := ReadHead(data, at).value;
    assert (h.next + h.length * w) % TWO64 == h.next + h.length * w;
    assert ParseArray(reftab, data, w, h, fuel - 1) == Parsed(Image(t));
    assert ParseOpened(reftab, data, w, h, fuel - 1) == Parsed(Image(t));
  }

  /** Child i: its reference and where it is. */
  lemma ItemFound(items: seq<Plist>, i: nat, w: nat, id: nat, slot: nat, first: nat,
                  data: seq<byte>, reftab: seq<nat>) returns (id1: nat, at: nat)
    requires i < |items| && Readable(w, data, reftab) && LaidItems(items, w, id, slot, first, data, reftab)
    ensures Laid(items[i], w, id1, at, data, reftab)
    ensures slot + i * w + w <= |data| && ParseInteger(data, slot + i * w, w) == Some(id1)
    ensures Count(items[i]) <= CountItems(items)
  {
    hide Body, Offsets, BodyLen, Items, ItemRefs, ItemOffsets, IntBytes, StandsAt;
    ItemLaid(items, i, w, id, slot, first, data, reftab);
    PlistWriter.ItemsStep(items, i, w);
    id1, at := id + CountItems(items[..i]), first + ItemsLen(items[..i], w);
    Found(items[i], w, id1, at, data, reftab);
    RefComesBack(id1, w, slot + i * w, data, reftab);
  }

  /** The loop over the references of an array, from child i on. */
  lemma {:induction false} ItemsComeBack(t: Plist, items: seq<Plist>, i: nat, w: nat, id: nat, slot: nat, first: nat,
                                         data: seq<byte>, reftab: seq<nat>, fuel: nat)
    requires t == Array(items) && i <= |items| && Readable(w, data, reftab) && ScopeItems(items)
    requires LaidItems(items, w, id, slot, first, data, reftab) && fuel >= CountItems(items)
    ensures ParseChildren(reftab, data, w, slot + i * w, |items| - i, false, fuel)
            == Children(ImageItems(items[i..]), slot + |items| * w, Complete)
    decreases t, 0, |items| - i
  {
    hide Parse, Scope, LaidItems, Laid, Readable, CountItems, Image;
    if i < |items| {
      var id1, at := ItemFound(items, i, w, id, slot, first, data, reftab);
      ObjectComesBack(items[i], w, id1, at, data, reftab, fuel);
      ItemsComeBack(t, items, i + 1, w, id, slot, first, data, reftab, fuel);
      assert items[i..][0] == items[i] && items[i..][1..] == items[i + 1..];
      assert slot + i * w + w == slot + (i + 1) * w;
    }
  }

  lemma {:induction false} DictComesBack(t: Plist, w: nat, id: nat, at: nat, data: seq<byte>, reftab: seq<nat>, fuel: nat)
    requires t.Dict? && Readable(w, data, reftab) && Scope(t) && Laid(t, w, id, at, data, reftab) && fuel >= Count(t)
    ensures Parse(reftab, id, data, w, fuel) == Parsed(Image(t))
    decreases t, 1, 0
  {
    hide StandsAt, Head, IntBytes, Parse, LaidEntries, Laid, ParseChildren, KeyObjects, ValueObjects, ReadHead;
    var entries := t.entries;
    var n := |entries|;
    var kslot := at + HeadLen(n);
    var vslot := kslot + n * w;
    var first := vslot + n * w;
    LaidDict(t, w, id, at, data, reftab);
    RowsFit(entries, w, id, kslot, vslot, first, data, reftab);
    HeadComesBack(data, at, 0xd0, n);
    KeysComeBack(t, entries, 0, w, id + 1, kslot, vslot, first, data, reftab, fuel - 1);
    ValuesComeBack(t, entries, 0, w, id + 1, kslot, vslot, first, data, reftab, fuel - 1);
    assert entries[0..] == entries;
    DictParses(t, w, id, at, data, reftab, fuel);
  }

  lemma LaidDict(t: Plist, w: nat, id: nat, at: nat, data: seq<byte>, reftab: seq<nat>)
    requires t.Dict? && Laid(t, w, id, at, data, reftab)
    ensures var n := |t.entries|;
      var kslot := at + HeadLen(n);
      StandsAt(data, at, Head(0xd0, n))
      && LaidEntries(t.entries, w, id + 1, kslot, kslot + n * w, kslot + n * w + n * w, data, reftab)
  {
    hide StandsAt, Head, Entries, KeyRefs, ValueRefs, EntryOffsets;
    var entries := t.entries;
    var kslot := at + HeadLen(|entries|);
    var head, keys, values := Head(0xd0, |entries|), KeyRefs(entries, w, id + 1), ValueRefs(entries, w, id + 1);
    StandsParts(data, at, head + keys + values, Entries(entries, w, id + 1));
    StandsParts(data, at, head + keys, values);
    StandsParts(data, at, head, keys);
    StandsParts<nat>(reftab, id, [at], EntryOffsets(entries, w, kslot + |entries| * w + |entries| * w));
  }

  /** The keys as the loop over them collects them. */
  ghost function KeyObjects(entries: seq<Entry>): (k: seq<Plist>)
    ensures |k| == |entries|
  {
    if entries == [] then [] else [Str(entries[0].key)] + KeyObjects(entries[1..])
  }

  ghost function ValueObjects(entries: seq<Entry>): (v: seq<Plist>)
    ensures |v| == |entries|
  {
    if entries == [] then [] else [Image(entries[0].value)] + ValueObjects(entries[1..])
  }

  lemma {:induction false} PairsComeBack(entries: seq<Entry>)
    ensures Pairs(KeyObjects(entries), ValueObjects(entries)) == ImageEntries(entries)
  {
    if entries != [] {
      PairsComeBack(entries[1..]);
      assert KeyObjects(entries)[1..] == KeyObjects(entries[1..]);
      assert ValueObjects(entries)[1..] == ValueObjects(entries[1..]);
    }
  }

  lemma DictParses(t: Plist, w: nat, id: nat, at: nat, data: seq<byte>, reftab: seq<nat>, fuel: nat)
    requires t.Dict? && fuel > 0 && Laid(t, w, id, at, data, reftab) && Readable(w, data, reftab)
    requires var h := ReadHead(data, at);
      h.Some? && h.value.kind == 0xd0 && h.value.length == |t.entries| && h.value.next == at + HeadLen(|t.entries|)
    requires at + HeadLen(|t.entries|) + |t.entries| * w + |t.entries| * w <= |data|
    requires var n := |t.entries|;
      var kslot := at + HeadLen(n);
      && ParseChildren(reftab, data, w, kslot, n, true, fuel - 1) == Children(KeyObjects(t.entries), kslot + n * w,
          Complete)
      && ParseChildren(reftab, data, w, kslot + n * w, n, false, fuel - 1)
         == Children(ValueObjects(t.entries), kslot + n * w + n * w, Complete)
    ensures Parse(reftab, id, data, w, fuel) == Parsed(Image(t))
  {
    hide Body, ParseChildren, ReadHead, KeyObjects, ValueObjects, Pairs, ImageEntries, StandsAt, Offsets;
    Found(t, w, id, at, data, reftab);
    PairsComeBack(t.entries);
    var h := ReadHead(data, at).value;
    assert 2 * h.length * w == h.length * w + h.length * w;
    assert (h.next + 2 * h.length * w) % TWO64 == h.next + 2 * h.length * w;
    assert ParseDict(reftab, data, w, h, fuel - 1) == Parsed(Image(t));
    assert ParseOpened(reftab, data, w, h, fuel - 1) == Parsed(Image(t));
  }

  /** Entry i: both references and both objects. */
  lemma EntryFound(entries: seq<Entry>, i: nat, w: nat, id: nat, kslot: nat, vslot: nat, first: nat,
                   data: seq<byte>, reftab: seq<nat>) returns (id1: nat, at: nat, next: nat)
    requires i < |entries| && Readable(w, data, reftab) && LaidEntries(entries, w, id, kslot, vslot, first, data, reftab)
    ensures Laid(Str(entries[i].key), w, id1, at, data, reftab) && Laid(entries[i].value, w, id1 + 1, next, data, reftab)
    ensures kslot + i * w + w <= |data| && ParseInteger(data, kslot + i * w, w) == Some(id1)
    ensures vslot + i * w + w <= |data| && ParseInteger(data, vslot + i * w, w) == Some(id1 + 1)
    ensures Count(entries[i].value) <= CountEntries(entries)
  {
    hide Body, Offsets, BodyLen, Entries, KeyRefs, ValueRefs, EntryOffsets, IntBytes, StandsAt, Scope, EntryBody,
        OffsetsOfEntry;
    EntryLaid(entries, i, w, id, kslot, vslot, first, data, reftab);
    PlistWriter.EntriesStep(entries, i, w);
    id1, at := id + CountEntries(entries[..i]), first + EntriesLen(entries[..i], w);
    next := at + HeadLen(|entries[i].key|) + |entries[i].key|;
    EntryParts(entries[i], w, id1, at, data, reftab);
    Found(Str(entries[i].key), w, id1, at, data, reftab);
    Found(entries[i].value, w, id1 + 1, next, data, reftab);
    RefComesBack(id1, w, kslot + i * w, data, reftab);
    RefComesBack(id1 + 1, w, vslot + i * w, data, reftab);
  }

  /** The loop over the keys, from entry i on. */
  lemma {:induction false} KeysComeBack(t: Plist, entries: seq<Entry>, i: nat, w: nat, id: nat, kslot: nat,
      vslot: nat, first: nat,
                                        data: seq<byte>, reftab: seq<nat>, fuel: nat)
    requires t == Dict(entries) && i <= |entries| && Readable(w, data, reftab) && ScopeEntries(entries)
    requires LaidEntries(entries, w, id, kslot, vslot, first, data, reftab) && fuel >= CountEntries(entries)
    ensures ParseChildren(reftab, data, w, kslot + i * w, |entries| - i, true, fuel)
            == Children(KeyObjects(entries[i..]), kslot + |entries| * w, Complete)
    decreases t, 0, |entries| - i
  {
    hide Body, Offsets, LaidEntries, Parse, CountEntries, Laid, Readable;
    if i < |entries| {
      var id1, at, next := EntryFound(entries, i, w, id, kslot, vslot, first, data, reftab);
      LeafComesBack(Str(entries[i].key), w, id1, at, data, reftab, fuel);
      KeysComeBack(t, entries, i + 1, w, id, kslot, vslot, first, data, reftab, fuel);
      assert entries[i..][0] == entries[i] && entries[i..][1..] == entries[i + 1..];
      assert kslot + i * w + w == kslot + (i + 1) * w;
    }
  }

  /** The loop over the values. */
  lemma {:induction false} ValuesComeBack(t: Plist, entries: seq<Entry>, i: nat, w: nat, id: nat, kslot: nat,
      vslot: nat, first: nat,
                                          data: seq<byte>, reftab: seq<nat>, fuel: nat)
    requires t == Dict(entries) && i <= |entries| && Readable(w, data, reftab) && ScopeEntries(entries)
    requires LaidEntries(entries, w, id, kslot, vslot, first, data, reftab) && fuel >= CountEntries(entries)
    ensures ParseChildren(reftab, data, w, vslot + i * w, |entries| - i, false, fuel)
            == Children(ValueObjects(entries[i..]), vslot + |entries| * w, Complete)
    decreases t, 0, |entries| - i
  {
    hide Body, Offsets, LaidEntries, Parse, CountEntries, Laid, Readable, Scope;
    if i < |entries| {
      var id1, at, next := EntryFound(entries, i, w, id, kslot, vslot, first, data, reftab);
      ObjectComesBack(entries[i].value, w, id1 + 1, next, data, reftab, fuel);
      ValuesComeBack(t, entries, i + 1, w, id, kslot, vslot, first, data, reftab, fuel);
      assert entries[i..][0] == entries[i] && entries[i..][1..] == entries[i + 1..];
      assert vslot + i * w + w == vslot + (i + 1) * w;
    }
  }

  // ---- The sizes of things in scope ----

  ghost predicate Below(o: seq<nat>, bound: nat)
  {
    forall i | 0 <= i < |o| :: o[i] < bound
  }

  lemma BelowParts(a: seq<nat>, b: seq<nat>, m: nat, n: nat)
    requires Below(a, m) && Below(b, n) && m <= n
    ensures Below(a + b, n)
  {
  }

  /** Every object takes a byte, and starts inside its tree. */
  lemma {:induction false} OffsetsInside(t: Plist, w: nat, base: nat)
    requires Scope(t)
    ensures Count(t) <= BodyLen(t, w) && Below(Offsets(t, w, base), base + BodyLen(t, w))
    decreases t
  {
    hide Below, ItemOffsets, EntryOffsets, HeadLen, ItemsLen, EntriesLen, CountItems, CountEntries, Body, IntBytes,
        IntLen;
    if t.Array? {
      var items := t.items;
      var first := base + HeadLen(|items|) + |items| * w;
      SomeHead(|items|);
      OneBelow(base, base + 1);
      ItemOffsetsInside(items, w, first);
      BelowParts([base], ItemOffsets(items, w, first), base + 1, first + ItemsLen(items, w));
    } else if t.Dict? {
      var entries := t.entries;
      var first := base + HeadLen(|entries|) + |entries| * w + |entries| * w;
      SomeHead(|entries|);
      OneBelow(base, base + 1);
      EntryOffsetsInside(entries, w, first);
      BelowParts([base], EntryOffsets(entries, w, first), base + 1, first + EntriesLen(entries, w));
    } else {
      LeafLength(t, w);
      OneBelow(base, base + BodyLen(t, w));
    }
  }

  lemma SomeHead(n: nat)
    ensures HeadLen(n) >= 1
  {
  }

  lemma LeafLength(t: Plist, w: nat)
    requires Scope(t) && !t.Array? && !t.Dict?
    ensures BodyLen(t, w) >= 1
  {
  }

  lemma NoneBelow(bound: nat)
    ensures Below([], bound)
  {
  }

  lemma OneBelow(x: nat, bound: nat)
    requires x < bound
    ensures Below([x], bound)
  {
  }

  lemma {:induction false} ItemOffsetsInside(items: seq<Plist>, w: nat, base: nat)
    requires ScopeItems(items)
    ensures CountItems(items) <= ItemsLen(items, w) && Below(ItemOffsets(items, w, base), base + ItemsLen(items, w))
    decreases items
  {
    hide Body, Offsets, BodyLen, Below, Count;
    if items == [] {
      NoneBelow(base);
    } else {
      var n := |items| - 1;
      ItemOffsetsInside(items[..n], w, base);
      OffsetsInside(items[n], w, base + ItemsLen(items[..n], w));
      BelowParts(ItemOffsets(items[..n], w, base), Offsets(items[n], w, base + ItemsLen(items[..n], w)),
                 base + ItemsLen(items[..n], w), base + ItemsLen(items, w));
    }
  }

  lemma {:induction false} EntryOffsetsInside(entries: seq<Entry>, w: nat, base: nat)
    requires ScopeEntries(entries)
    ensures CountEntries(entries) <= EntriesLen(entries, w) && Below(EntryOffsets(entries, w, base), base
        + EntriesLen(entries, w))
    decreases entries
  {
    hide Offsets, BodyLen, Below, Count, IntLen;
    if entries == [] {
      NoneBelow(base);
    } else {
      var n := |entries| - 1;
      var start := base + EntriesLen(entries[..n], w);
      var next := start + HeadLen(|entries[n].key|) + |entries[n].key|;
      EntryOffsetsInside(entries[..n], w, base);
      OffsetsInside(entries[n].value, w, next);
      OneBelow(start, start + 1);
      assert base + EntriesLen(entries, w) == start + EntryLen(entries[n], w) == next + BodyLen(entries[n].value, w);
      BelowParts([start], Offsets(entries[n].value, w, next), start + 1, base + EntriesLen(entries, w));
      BelowParts(EntryOffsets(entries[..n], w, base), OffsetsOfEntry(entries[n], w, start), start, base
          + EntriesLen(entries, w));
    }
  }

  lemma {:induction false} ScopeDoubles(t: Plist)
    requires Scope(t)
    ensures Doubles(t)
    decreases t
  {
    match t {
      case Array(items) => ScopeDoublesItems(items);
      case Dict(entries) => ScopeDoublesEntries(entries);
      case _ =>
    }
  }

  lemma {:induction false} ScopeDoublesItems(items: seq<Plist>)
    requires ScopeItems(items)
    ensures DoublesItems(items)
    decreases items
  {
    if items != [] {
      ScopeDoublesItems(items[..|items| - 1]);
      ScopeDoubles(items[|items| - 1]);
    }
  }

  lemma {:induction false} ScopeDoublesEntries(entries: seq<Entry>)
    requires ScopeEntries(entries)
    ensures DoublesEntries(entries)
    decreases entries
  {
    if entries != [] {
      ScopeDoublesEntries(entries[..|entries| - 1]);
      ScopeDoubles(entries[|entries| - 1].value);
    }
  }

  // ---- The offset table ----

  lemma {:induction false} TableComesBack(o: seq<nat>, k: nat, data: seq<byte>, at: nat)
    requires k == 1 || k == 2 || k == 4 || k == 8
    requires Below(o, Pow256(k)) && Below(o, TWO63) && StandsAt(data, at, Table(o, k))
    ensures at + |o| * k <= |data| && ReadTable(data, at, |o|, k) == o
  {
    hide StandsAt, Pow256, IntBytes, TableEntry;
    if o != [] {
      var n := |o| - 1;
      assert |o| * k == n * k + k;
      StandsParts(data, at, Table(o[..n], k), IntBytes(o[n], k));
      TableComesBack(o[..n], k, data, at);
      EntryComesBack(o[n], k, data, at + n * k);
    } else {
      assert StandsAt(data, at, []) ==> at <= |data| by { Inside(data, at); }
    }
  }

  lemma Inside(data: seq<byte>, at: nat)
    ensures StandsAt(data, at, []) ==> at <= |data|
  {
  }

  lemma EntryComesBack(v: nat, k: nat, data: seq<byte>, i: nat)
    requires k == 1 || k == 2 || k == 4 || k == 8
    requires v < Pow256(k) && v < TWO63 && StandsAt(data, i, IntBytes(v, k))
    ensures i + k <= |data| && TableEntry(data, i, k) == v
  {
    NatComesBack(v, k, data, i);
  }

  // ---- The trailer ----

  lemma TrailerFields(t: Plist)
    ensures var b, w := Zeros(6) + Trailer(t), RefLen(t);
      && |b| == 32 && b[6] as nat == OffLen(t) && b[7] as nat == w
      && b[8..16] == IntBytes(Count(t), 8) && b[16..24] == IntBytes(0, 8) && b[24..32] == IntBytes(8 + BodyLen(t, w), 8)
  {
    hide Count, BodyLen, OffLen, RefLen, IntBytes;
    OneByteInt(OffLen(t));
    OneByteInt(RefLen(t));
  }

  lemma OneByteInt(v: nat)
    requires v < 0x100
    ensures IntBytes(v, 1) == [v as byte]
  {
    assert v % TWO64 == v;
    assert BigEndian(v, 1) == BigEndian(v / 0x100, 0) + [(v % 0x100) as byte];
  }

  // ---- The file ----

  /** The last k of the bytes a + b, when b has k bytes. */
  lemma Tail(a: seq<byte>, b: seq<byte>)
    ensures (a + b)[|a + b| - |b|..] == b
  {
  }

  /** Without excess the reader finds the trailer, the table and the root. */
  lemma WellSizedComesBack(t: Plist, fuel: nat)
    requires Scope(t) && Excess(t) == 0 && |Encoded(t)| < 0x1_0000_0000 && fuel >= Count(t)
    ensures FromBplist(Encoded(t), fuel) == Parsed(Image(t))
  {
    hide Body, Offsets, Count, BodyLen, IntBytes, Parse, Scope, Image, Excess, Bytes, Refs, RefLen, OffLen,
        Contents, Trailer, ReadTable;
    var data, w, k := Encoded(t), RefLen(t), OffLen(t);
    var trailer, at := Zeros(6) + Trailer(t), 8 + BodyLen(t, w);
    assert data == Contents(t) + trailer by {
      assert Zeros(0) == [];
    }
    Tail(Contents(t), trailer);
    assert data[|data| - 32..] == trailer;
    TrailerFields(t);
    SmallFields(t);
    NatComesBack8(Count(t), trailer[8..16]);
    NatComesBack8(0, trailer[16..24]);
    NatComesBack8(at, trailer[24..32]);
    TableStands(t, data);
    assert at + Count(t) * k <= |data|;
    RootComesBack(t, data, fuel);
  }

  lemma NatComesBack8(v: nat, b: seq<byte>)
    requires v < TWO63 && b == IntBytes(v, 8)
    ensures Signed(BE(b)) == v
  {
    Pow256Values();
    assert b[0..8] == b;
    NatComesBack(v, 8, b, 0);
  }

  /** Counts and offsets of a file below 2^32 bytes. */
  lemma SmallFields(t: Plist)
    requires Scope(t) && |Encoded(t)| < 0x1_0000_0000
    ensures 8 + BodyLen(t, RefLen(t)) + Count(t) * OffLen(t) + 32 + Excess(t) == |Encoded(t)|
    ensures 1 <= Count(t) <= BodyLen(t, RefLen(t)) && Count(t) < 0x8000_0000
  {
    hide Body, Offsets, Table, Count, BodyLen, Excess, Bytes, Refs, IntBytes, Scope;
    ScopeDoubles(t);
    EncodedLength(t);
    OffsetsInside(t, RefLen(t), 8);
  }

  /** The table of offsets is where the trailer says, and the offsets fit their width. */
  lemma TableStands(t: Plist, data: seq<byte>)
    requires Scope(t) && |data| < 0x1_0000_0000 && data == Encoded(t)
    ensures var w, k := RefLen(t), OffLen(t);
      var at := 8 + BodyLen(t, w);
      StandsAt(data, 8, Body(t, w, 0)) && at + Count(t) * k <= |data| && ReadTable(data, at, Count(t), k)
          == Offsets(t, w, 8)
  {
    hide Body, Offsets, Table, Count, BodyLen, IntBytes, Scope, Excess, Trailer, StandsAt, ReadTable, Pow256,
        Below, RefLen, OffLen;
    var w, k := RefLen(t), OffLen(t);
    var table := Table(Offsets(t, w, 8), k);
    WholeStands(data);
    StandsParts(data, 0, Contents(t) + Zeros(6) + Trailer(t), Zeros(Excess(t)));
    StandsParts(data, 0, Contents(t) + Zeros(6), Trailer(t));
    StandsParts(data, 0, Contents(t), Zeros(6));
    StandsParts(data, 0, MAGIC + Body(t, w, 0), table);
    StandsParts(data, 0, MAGIC, Body(t, w, 0));
    OffsetsFit(t);
    TableComesBack(Offsets(t, w, 8), k, data, 8 + BodyLen(t, w));
  }

  lemma WholeStands(data: seq<byte>)
    ensures StandsAt(data, 0, data)
  {
    assert data[0..|data|] == data;
  }

  lemma OffsetsFit(t: Plist)
    requires Scope(t) && |Encoded(t)| < 0x1_0000_0000
    ensures Below(Offsets(t, RefLen(t), 8), Pow256(OffLen(t))) && Below(Offsets(t, RefLen(t), 8), TWO63)
  {
    hide Body, Offsets, Table, Count, BodyLen, Excess, Bytes, Refs, IntBytes, Scope;
    var w := RefLen(t);
    ScopeDoubles(t);
    BytesAreBody(t, w);
    EncodedLength(t);
    OffsetsInside(t, w, 8);
    IntLenFits(8 + Bytes(t) + Refs(t) * w);
  }

  /** References fit their width, so the root is read back. */
  lemma RootComesBack(t: Plist, data: seq<byte>, fuel: nat)
    requires Scope(t) && |data| < 0x1_0000_0000 && fuel >= Count(t) && StandsAt(data, 8, Body(t, RefLen(t), 0))
    ensures Parse(Offsets(t, RefLen(t), 8), 0, data, RefLen(t), fuel) == Parsed(Image(t))
  {
    hide Body, Offsets, Count, BodyLen, Refs, IntBytes, Scope, Pow256, Parse, Image;
    var w := RefLen(t);
    var reftab := Offsets(t, w, 8);
    assert StandsAt(reftab, 0, reftab) by {
      assert reftab[0..|reftab|] == reftab;
    }
    OffsetsInside(t, w, 8);
    ObjectsAreRefs(t);
    IntLenFits(Refs(t));
    ObjectComesBack(t, w, 0, 8, data, reftab, fuel);
  }

  /** With excess the reader looks for the trailer too far on, and what it takes for the offset of
      the table is too small or too large. */
  lemma MisSizedFails(t: Plist, fuel: nat)
    requires Scope(t) && Excess(t) > 0 && |Encoded(t)| < 0x1_0000_0000
    ensures FromBplist(Encoded(t), fuel) == Failed || FromBplist(Encoded(t), fuel) == Undefined
  {
    hide Body, Offsets, Count, BodyLen, IntBytes, FromBplist, Scope, Image, Excess, Bytes, Refs, RefLen, OffLen,
        Contents, BE;
    var data, k, off := Encoded(t), Excess(t), 8 + BodyLen(t, RefLen(t));
    var front, last := Contents(t) + Zeros(6), Trailer(t) + Zeros(k);
    assert data == front + last;
    SmallFields(t);
    Product(Count(t), OffLen(t), 8);
    LastFields(t, k);
    hide Trailer, Encoded;
    LastEight(front, last);
    ShiftedOffset(last, off, k);
    BadOffset(data, fuel);
  }

  lemma LastFields(t: Plist, k: nat)
    ensures var last := Trailer(t) + Zeros(k);
      last[18..26] == IntBytes(8 + BodyLen(t, RefLen(t)), 8) && last[26..] == Zeros(k)
  {
    hide IntBytes, BodyLen, RefLen, OffLen, Count;
  }

  lemma LastEight<T>(front: seq<T>, last: seq<T>)
    requires |front + last| >= 32 && |last| >= 8
    ensures var data := front + last; data[|data| - 32..][24..32] == last[|last| - 8..]
  {
  }

  lemma BadOffset(data: seq<byte>, fuel: nat)
    requires |data| >= 32
    requires var at := Signed(BE(data[|data| - 32..][24..32])); at < 8 || at > |data|
    ensures FromBplist(data, fuel) == Failed || FromBplist(data, fuel) == Undefined
  {
    hide Parse, ReadTable, BE, Signed;
  }

  /** The eight bytes that are read k bytes past the offset of the table. */
  lemma ShiftedOffset(last: seq<byte>, off: nat, k: nat)
    requires k > 0 && 9 <= off < 0x1_0000_0000 && |last| == 26 + k
    requires last[18..26] == IntBytes(off, 8) && last[26..] == Zeros(k)
    ensures var at := Signed(BE(last[|last| - 8..])); at < 8 || at >= 0x1_0000_0000 || (k <= 3 && at >= 256 * off)
  {
    hide BE, Pow256, BigEndian, IntBytes;
    var e := last[|last| - 8..];
    if k >= 8 {
      assert e == Zeros(8);
      assert [] + Zeros(8) == Zeros(8);
      TrailingZeros([], 8);
      NothingIsZero();
    } else {
      var o := IntBytes(off, 8)[k..];
      Overlap(last, off, k);
      TrailingZeros(o, k);
      SmallBytes(off, k);
      Pow256Values();
      BEBounded(e);
      Shifted(off, k, o, BE(e));
    }
  }

  lemma NothingIsZero()
    ensures BE([]) == 0
  {
  }

  lemma SmallBytes(off: nat, k: nat)
    requires k < 8 && off < 0x1_0000_0000
    ensures IntBytes(off, 8)[k..] == BigEndian(off, 8 - k)
  {
    assert off % TWO64 == off;
    BigEndianSuffix(off, 8, k);
  }

  lemma Overlap(last: seq<byte>, off: nat, k: nat)
    requires 0 < k < 8 && |last| == 26 + k && last[18..26] == IntBytes(off, 8) && last[26..] == Zeros(k)
    ensures last[|last| - 8..] == IntBytes(off, 8)[k..] + Zeros(k)
  {
    hide IntBytes;
    assert last[18..26][k..] == last[18 + k..26];
    assert last[18 + k..] == last[18 + k..26] + last[26..];
  }

  lemma Shifted(off: nat, k: nat, o: seq<byte>, v: nat)
    requires 0 < k < 8 && 9 <= off < 0x1_0000_0000 && o == BigEndian(off, 8 - k) && v == BE(o) * Pow256(k) && v < TWO64
    ensures var at := Signed(v); at < 8 || at >= 0x1_0000_0000 || (k <= 3 && at >= 256 * off)
  {
    hide BE, BigEndian, Pow256;
    Pow256Values();
    if k <= 3 {
      Grows256(4, 8 - k);
      BigEndianDecodes(off, 8 - k);
      Grows256(1, k);
      Product(off, Pow256(k), 0x100);
      Grows256(k, 3);
      Pow256Add(1, 2);
      Product(Pow256(k), off, 0x1_0000_0000);
      assert v < TWO63;
    } else if BE(o) > 0 {
      Grows256(4, k);
      Product(BE(o), Pow256(k), 0x1_0000_0000);
    }
  }

  lemma {:induction false} Grows256(m: nat, n: nat)
    requires m <= n
    ensures Pow256(m) <= Pow256(n)
  {
    if m < n {
      Grows256(m, n - 1);
    }
  }

  lemma Product(x: nat, y: nat, z: nat)
    ensures x >= 1 && y >= z ==> x * y >= x * z >= z
    ensures y <= z ==> x * y <= x * z
  {
  }

  // ---- Exactly when the tree comes back ----

  /** The lengths that take as many bytes as their doubles. */
  ghost predicate AgreedLength(n: nat)
  {
    !(0x80 <= n < 0x100) && !(0x8000 <= n < 0x1_0000) && !(0x8000_0000 <= n < 0x1_0000_0000)
  }

  /** Every dictionary has such a length. */
  ghost predicate WellSized(t: Plist)
  {
    match t
    case Array(items) => forall i | 0 <= i < |items| :: WellSized(items[i])
    case Dict(entries) =>
      && AgreedLength(|entries|)
      && forall i | 0 <= i < |entries| :: WellSized(entries[i].value)
    case _ => true
  }

  lemma {:induction false} NoExcess(t: Plist)
    ensures Excess(t) == 0 <==> WellSized(t)
    decreases t
  {
    match t {
      case Array(items) => NoExcessItems(items);
      case Dict(entries) => NoExcessEntries(entries);
      case _ =>
    }
  }

  lemma {:induction false} NoExcessItems(items: seq<Plist>)
    ensures ExcessItems(items) == 0 <==> forall i | 0 <= i < |items| :: WellSized(items[i])
    decreases items
  {
    if items != [] {
      var n := |items| - 1;
      NoExcessItems(items[..n]);
      NoExcess(items[n]);
      assert forall i | 0 <= i < n :: items[..n][i] == items[i];
    }
  }

  lemma {:induction false} NoExcessEntries(entries: seq<Entry>)
    ensures ExcessEntries(entries) == 0 <==> forall i | 0 <= i < |entries| :: WellSized(entries[i].value)
    decreases entries
  {
    if entries != [] {
      var n := |entries| - 1;
      NoExcessEntries(entries[..n]);
      NoExcess(entries[n].value);
      assert forall i | 0 <= i < n :: entries[..n][i] == entries[i];
    }
  }

  /** No null child, and no double that reversing its bytes changes. */
  ghost predicate Faithful(t: Plist)
  {
    match t
    case Null => false
    case Real(bits) => Reversed(bits) == bits
    case Array(items) => forall i | 0 <= i < |items| :: Faithful(items[i])
    case Dict(entries) => forall i | 0 <= i < |entries| :: Faithful(entries[i].value)
    case _ => true
  }

  lemma {:induction false} ImageIsSame(t: Plist)
    ensures Image(t) == t <==> Faithful(t)
    decreases t
  {
    match t {
      case Array(items) => ImageIsSameItems(items);
      case Dict(entries) => ImageIsSameEntries(entries);
      case _ =>
    }
  }

  lemma {:induction false} ImageIsSameItems(items: seq<Plist>)
    ensures ImageItems(items) == items <==> forall i | 0 <= i < |items| :: Faithful(items[i])
    decreases items
  {
    if items != [] {
      var rest := items[1..];
      ImageIsSame(items[0]);
      ImageIsSameItems(rest);
      assert items == [items[0]] + rest;
      assert ImageItems(items)[0] == Image(items[0]) && ImageItems(items)[1..] == ImageItems(rest);
      assert forall i | 0 <= i < |rest| :: rest[i] == items[i + 1];
    }
  }

  lemma {:induction false} ImageIsSameEntries(entries: seq<Entry>)
    ensures ImageEntries(entries) == entries <==> forall i | 0 <= i < |entries| :: Faithful(entries[i].value)
    decreases entries
  {
    if entries != [] {
      var rest := entries[1..];
      ImageIsSame(entries[0].value);
      ImageIsSameEntries(rest);
      assert entries == [entries[0]] + rest;
      assert ImageEntries(entries)[0] == Entry(entries[0].key, Image(entries[0].value));
      assert ImageEntries(entries)[1..] == ImageEntries(rest);
      assert forall i | 0 <= i < |rest| :: rest[i] == entries[i + 1];
    }
  }

  /** Reading back what was written gives the same tree if and only if every dictionary has a
      length at which the two passes agree, no child is null and every double is symmetric.
      Otherwise it gives the image of the tree, or no tree at all. */
  lemma RoundTrip(t: Plist, fuel: nat)
    requires Scope(t) && |Encoded(t)| < 0x1_0000_0000 && fuel >= Count(t)
    ensures FromBplist(Encoded(t), fuel) == Parsed(t) <==> WellSized(t) && Faithful(t)
    ensures WellSized(t) ==> FromBplist(Encoded(t), fuel) == Parsed(Image(t))
    ensures !WellSized(t) ==> FromBplist(Encoded(t), fuel) == Failed || FromBplist(Encoded(t), fuel) == Undefined
  {
    hide Encoded, FromBplist, Image, Faithful, WellSized, Excess, Scope, Count;
    NoExcess(t);
    ImageIsSame(t);
    if Excess(t) == 0 {
      WellSizedComesBack(t, fuel);
    } else {
      MisSizedFails(t, fuel);
    }
  }

  // ---- Trees that do not come back ----

  /** A tree within the bounds of `RoundTrip` that does not come back. */
  ghost predicate Lost(t: Plist, fuel: nat)
  {
    Scope(t) && |Encoded(t)| < 0x1_0000_0000 && fuel >= Count(t) && FromBplist(Encoded(t), fuel) != Parsed(t)
  }

  /** n entries with empty keys. */
  ghost function EmptyKeys(n: nat): (e: seq<Entry>)
    ensures |e| == n
  {
    if n == 0 then [] else EmptyKeys(n - 1) + [Entry([], Primitive(0))]
  }

  lemma {:induction false} SizeOfEmptyKeys(n: nat)
    ensures var e := EmptyKeys(n);
      BytesEntries(e) == CountEntries(e) == 2 * n && RefsEntries(e) == 0 && ScopeEntries(e)
  {
    if n > 0 {
      SizeOfEmptyKeys(n - 1);
      assert EmptyKeys(n)[..n - 1] == EmptyKeys(n - 1);
    }
  }

  /** A dictionary of 128 entries. */
  lemma BigDictionaryIsLost(n: nat, fuel: nat)
    requires n == 128 && fuel >= 257
    ensures Lost(Dict(EmptyKeys(n)), fuel)
  {
    hide EmptyKeys, Encoded, FromBplist, Excess, BytesEntries, CountEntries, RefsEntries, ScopeEntries;
    var t := Dict(EmptyKeys(n));
    SizeOfEmptyKeys(n);
    ScopeDoubles(t);
    EncodedLength(t);
    assert !WellSized(t);
    RoundTrip(t, fuel);
  }

  /** An array with a null child. */
  lemma NullChildIsLost(fuel: nat)
    requires fuel >= 2
    ensures Lost(Array([Null]), fuel)
  {
    hide Encoded, FromBplist, Excess;
    var t := Array([Null]);
    assert [Null][..0] == [];
    ScopeDoubles(t);
    EncodedLength(t);
    assert !Faithful([Null][0]);
    RoundTrip(t, fuel);
  }

  /** The double 1.0. */
  lemma OneIsLost(fuel: nat)
    requires fuel >= 1
    ensures Lost(Real([0, 0, 0, 0, 0, 0, 0xf0, 0x3f]), fuel)
  {
    hide Encoded, FromBplist, Excess;
    var one: seq<byte> := [0, 0, 0, 0, 0, 0, 0xf0, 0x3f];
    ScopeDoubles(Real(one));
    EncodedLength(Real(one));
    LastComesFirst(one);
    RoundTrip(Real(one), fuel);
  }

  lemma LastComesFirst(s: seq<byte>)
    requires s != []
    ensures Reversed(s) != [] && Reversed(s)[0] == s[|s| - 1]
  {
    if |s| > 1 {
      LastComesFirst(s[1..]);
    }
  }

  /** What the writer returns is a file of the format in which the tree stands, under the same condition. */
  lemma EncodedStands(t: Plist)
    requires Scope(t) && !t.Null? && |Encoded(t)| < 0x1_0000_0000
    ensures PlistFormat.FileStands(Encoded(t), t) <==> WellSized(t) && Faithful(t)
  {
    hide Encoded, FromBplist, Faithful, WellSized, Scope, Count, PlistFormat.FileStands;
    RoundTrip(t, Count(t));
    PlistExact.FileExact(Encoded(t), Count(t));
  }

  /** The two routines in a row. */
  method WriteThenRead(t: Plist, fuel: nat) returns (o: Outcome)
    requires Scope(t) && !t.Null? && |Encoded(t)| < 0x1_0000_0000 && fuel >= Count(t)
    ensures o == Parsed(t) <==> WellSized(t) && Faithful(t)
  {
    hide Encoded, FromBplist, Faithful, WellSized, Scope, Count;
    ScopeDoubles(t);
    var ret, data := PlistWriter.ToBplist(t);
    o := PlistReader.ReadBplist(data[..], fuel);
    RoundTrip(t, fuel);
  }
}
