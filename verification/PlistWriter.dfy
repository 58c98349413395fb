/** The plist writer (src/utils/plist.cpp): the sizing pass and the serializer with its two
    cursors and reserved reference slots, against the layout. */
module PlistWriter {
  import opened BigEndianBytes
  import opened MachineInts
  import opened PlistLayout

  // ---- Overwriting part of a sequence ----

  ghost function Splice<T>(s: seq<T>, at: nat, b: seq<T>): (r: seq<T>)
    requires at + |b| <= |s|
    ensures |r| == |s|
  {
    seq(|s|, i requires 0 <= i < |s| => if at <= i < at + |b| then b[i - at] else s[i])
  }

  lemma SpliceNothing<T>(s: seq<T>, at: nat)
    requires at <= |s|
    ensures Splice(s, at, []) == s
  {
  }

  lemma SpliceAppend<T>(s: seq<T>, at: nat, a: seq<T>, b: seq<T>)
    requires at + |a| + |b| <= |s|
    ensures Splice(Splice(s, at, a), at + |a|, b) == Splice(s, at, a + b)
  {
  }

  lemma SplicePrepend<T>(s: seq<T>, at: nat, a: seq<T>, b: seq<T>)
    requires at + |a| + |b| <= |s|
    ensures Splice(Splice(s, at + |a|, b), at, a) == Splice(s, at, a + b)
  {
  }

  lemma SpliceSwap<T>(s: seq<T>, i: nat, a: seq<T>, j: nat, b: seq<T>)
    requires i + |a| <= j && j + |b| <= |s|
    ensures Splice(Splice(s, i, a), j, b) == Splice(Splice(s, j, b), i, a)
  {
  }

  /** One more child: its bytes go to the end, its reference to the next slot. */
  lemma SpliceSlot<T>(d: seq<T>, first: nat, body: seq<T>, slot: nat, refs: seq<T>, b: seq<T>, r: seq<T>)
    requires slot + |refs| + |r| <= first && first + |body| + |b| <= |d|
    ensures Splice(Splice(Splice(Splice(d, first, body), slot, refs), first + |body|, b), slot + |refs|, r)
            == Splice(Splice(d, first, body + b), slot, refs + r)
  {
    var d1 := Splice(d, first, body);
    SpliceSwap(d1, slot, refs, first + |body|, b);
    SpliceAppend(d, first, body, b);
    SpliceAppend(Splice(d, first, body + b), slot, refs, r);
  }

  /** The same with two rows of slots, the first before the second. */
  lemma SpliceTwoSlots<T>(d: seq<T>, first: nat, body: seq<T>, kslot: nat, keys: seq<T>, vslot: nat, values: seq<T>,
                          b: seq<T>, k: seq<T>, v: seq<T>)
    requires kslot + |keys| + |k| <= vslot && vslot + |values| + |v| <= first && first + |body| + |b| <= |d|
    ensures var d3 := Splice(Splice(Splice(d, first, body), vslot, values), kslot, keys);
      Splice(Splice(Splice(d3, first + |body|, b), kslot + |keys|, k), vslot + |values|, v)
      == Splice(Splice(Splice(d, first, body + b), vslot, values + v), kslot, keys + k)
  {
    var d2 := Splice(Splice(d, first, body), vslot, values);
    SpliceSwap(d2, kslot, keys, first + |body|, b);
    var e2 := Splice(d2, first + |body|, b);
    SpliceAppend(e2, kslot, keys, k);
    SpliceSwap(e2, kslot, keys + k, vslot + |values|, v);
    SpliceSlot(d, first, body, vslot, values, b, v);
  }

  // ---- Sizing ----

  /** The three counters of `bplist_analyze`. */
  class Sizes {
    var objects: nat
    var bytes: nat
    var refs: nat

    constructor ()
      ensures objects == bytes == refs == 0
    {
      objects, bytes, refs := 0, 0, 0;
    }

    /** `bplist_analyze`. */
    method Analyze(t: Plist)
      modifies this
      ensures objects == old(objects) + Count(t)
      ensures bytes == old(bytes) + Bytes(t)
      ensures refs == old(refs) + Refs(t)
      decreases t, 1
    {
      objects := objects + 1;
      match t {
        case Null => bytes := bytes + 1;
        case Primitive(_) => bytes := bytes + 1;
        case Integer(n) => bytes := bytes + 1 + IntLen(n as int);
        case Real(_) => bytes := bytes + 1 + 8;
        case Data(b) => bytes := bytes + (if |b| < 15 then 1 + |b| else 1 + 1 + IntLen(|b|) + |b|);
        case Str(s) => bytes := bytes + (if |s| < 15 then 1 + |s| else 1 + 1 + IntLen(|s|) + |s|);
        case Date(_) =>
        case Unicode(_) =>
        case Array(items) =>
          bytes := bytes + (if |items| < 15 then 1 else 1 + 1 + IntLen(|items|));
          refs := refs + |items|;
          AnalyzeItems(t, items);
        case Dict(entries) =>
          bytes := bytes + (if |entries| < 15 then 1 else 1 + 1 + IntLen(2 * |entries|));
          refs := refs + 2 * |entries|;
          AnalyzeEntries(t, entries);
      }
    }

    method AnalyzeItems(ghost t: Plist, items: seq<Plist>)
      requires t == Array(items)
      modifies this
      ensures objects == old(objects) + CountItems(items)
      ensures bytes == old(bytes) + BytesItems(items)
      ensures refs == old(refs) + RefsItems(items)
      decreases t, 0
    {
      for i := 0 to |items|
        invariant objects == old(objects) + CountItems(items[..i])
        invariant bytes == old(bytes) + BytesItems(items[..i])
        invariant refs == old(refs) + RefsItems(items[..i])
      {
        assert items[..i + 1][..i] == items[..i];
        Analyze(items[i]);
      }
      assert items[..|items|] == items;
    }

    method AnalyzeEntries(ghost t: Plist, entries: seq<Entry>)
      requires t == Dict(entries)
      modifies this
      ensures objects == old(objects) + CountEntries(entries)
      ensures bytes == old(bytes) + BytesEntries(entries)
      ensures refs == old(refs) + RefsEntries(entries)
      decreases t, 0
    {
      for i := 0 to |entries|
        invariant objects == old(objects) + CountEntries(entries[..i])
        invariant bytes == old(bytes) + BytesEntries(entries[..i])
        invariant refs == old(refs) + RefsEntries(entries[..i])
      {
        assert entries[..i + 1][..i] == entries[..i];
        var key := entries[i].key;
        objects := objects + 1;
        bytes := bytes + (if |key| < 15 then 1 + |key| else 1 + 1 + IntLen(|key|) + |key|);
        Analyze(entries[i].value);
      }
      assert entries[..|entries|] == entries;
    }
  }

  // ---- Writing ----

  class Writer {
    const data: array<byte>
    const reftab: array<nat>
    const reflen: nat
    var dataidx: nat
    var reftabidx: nat

    constructor (data: array<byte>, reftab: array<nat>, reflen: nat, at: nat)
      ensures this.data == data && this.reftab == reftab && this.reflen == reflen
      ensures dataidx == at && reftabidx == 0
    {
      this.data, this.reftab, this.reflen := data, reftab, reflen;
      dataidx, reftabidx := at, 0;
    }

    /** Room for a string of n bytes at the cursor. */
    ghost predicate Room(n: nat)
      reads this
    {
      dataidx + n <= data.Length
    }

    /** Copies bytes to the cursor and moves it. */
    method Put(b: seq<byte>)
      requires Room(|b|)
      modifies this`dataidx, data
      ensures dataidx == old(dataidx) + |b| && data[..] == Splice(old(data[..]), old(dataidx), b)
    {
      PutAt(dataidx, b);
      dataidx := dataidx + |b|;
    }

    /** Copies bytes to a place of their own. */
    method PutAt(at: nat, b: seq<byte>)
      requires at + |b| <= data.Length
      modifies data
      ensures data[..] == Splice(old(data[..]), at, b)
    {
      for i := 0 to |b|
        invariant forall j | 0 <= j < i :: data[at + j] == b[j]
        invariant forall j | 0 <= j < data.Length && !(at <= j < at + i) :: data[j] == old(data[j])
      {
        data[at + i] := b[i];
      }
    }

    /** `reftab[(*reftabidx)++] = *dataidx` */
    method NewObject() returns (objectid: nat)
      requires reftabidx < reftab.Length
      modifies this`reftabidx, reftab
      ensures objectid == old(reftabidx) && reftabidx == objectid + 1
      ensures reftab[..] == Splice<nat>(old(reftab[..]), objectid, [dataidx])
    {
      objectid := reftabidx;
      reftab[reftabidx] := dataidx;
      reftabidx := reftabidx + 1;
    }

    /** `bplist_serialize_string`. */
    method SerializeString(s: seq<byte>) returns (objectid: nat)
      requires reftabidx < reftab.Length && Room(HeadLen(|s|) + |s|)
      modifies this`dataidx, this`reftabidx, data, reftab
      ensures objectid == old(reftabidx) && reftabidx == objectid + 1
      ensures dataidx == old(dataidx) + HeadLen(|s|) + |s|
      ensures data[..] == Splice(old(data[..]), old(dataidx), StrBody(s))
      ensures reftab[..] == Splice<nat>(old(reftab[..]), objectid, [old(dataidx)])
    {
      objectid := NewObject();
      PutWithHead(0x50, s);
    }

    /** A head and the bytes it announces. */
    method PutWithHead(kind: byte, b: seq<byte>)
      requires kind <= 0xf0 && Room(HeadLen(|b|) + |b|)
      modifies this`dataidx, data
      ensures dataidx == old(dataidx) + HeadLen(|b|) + |b|
      ensures data[..] == Splice(old(data[..]), old(dataidx), Head(kind, |b|) + b)
    {
      PutHead(kind, |b|);
      SpliceAppend(old(data[..]), old(dataidx), Head(kind, |b|), b);
      Put(b);
    }

    /** The type byte and the length. */
    method PutHead(kind: byte, n: nat)
      requires kind <= 0xf0 && Room(HeadLen(n))
      modifies this`dataidx, data
      ensures dataidx == old(dataidx) + HeadLen(n)
      ensures data[..] == Splice(old(data[..]), old(dataidx), Head(kind, n))
    {
      if n < 15 {
        Put([kind + n as byte]);
      } else {
        Put([kind + 15, 0x10 + IntTag(n)]);
        SpliceAppend(old(data[..]), old(dataidx), [kind + 15, 0x10 + IntTag(n)], IntBytes(n, IntLen(n)));
        Put(IntBytes(n, IntLen(n)));
      }
    }

    /** The tree t fits into both arrays. */
    ghost predicate Fits(t: Plist)
      reads this
    {
      Room(BodyLen(t, reflen)) && reftabidx + Count(t) <= reftab.Length
    }

    /** `bplist_serialize_object`. */
    method SerializeObject(t: Plist) returns (objectid: nat)
      requires Fits(t)
      modifies this`dataidx, this`reftabidx, data, reftab
      ensures objectid == old(reftabidx) && reftabidx == objectid + Count(t)
      ensures dataidx == old(dataidx) + BodyLen(t, reflen)
      ensures data[..] == Splice(old(data[..]), old(dataidx), Body(t, reflen, objectid))
      ensures reftab[..] == Splice<nat>(old(reftab[..]), objectid, Offsets(t, reflen, old(dataidx)))
      decreases t, 2, 0
    {
      hide Items, Entries, ItemRefs, KeyRefs, ValueRefs, ItemOffsets, EntryOffsets, Splice, IntBytes;
      objectid := NewObject();
      match t {
        case Null => Put([0]);
        case Primitive(v) => Put([v]);
        case Integer(n) => Put([0x10 + IntTag(n as int)] + IntBytes(n as int, IntLen(n as int)));
        case Real(bits) => Put([0x23] + bits);
        case Data(b) => PutWithHead(0x40, b);
        case Str(s) => PutWithHead(0x50, s);
        case Date(_) => Put([]);
        case Unicode(_) => Put([]);
        case Array(items) => SerializeArray(t, objectid);
        case Dict(entries) => SerializeDict(t, objectid);
      }
      SpliceAppend<nat>(old(reftab[..]), objectid, [old(dataidx)], Offsets(t, reflen, old(dataidx))[1..]);
    }

    method SerializeArray(t: Plist, objectid: nat)
      requires t.Array? && Room(BodyLen(t, reflen)) && reftabidx == objectid + 1
      requires reftabidx + CountItems(t.items) <= reftab.Length
      modifies this`dataidx, this`reftabidx, data, reftab
      ensures reftabidx == objectid + Count(t) && dataidx == old(dataidx) + BodyLen(t, reflen)
      ensures data[..] == Splice(old(data[..]), old(dataidx), Body(t, reflen, objectid))
      ensures reftab[..] == Splice<nat>(old(reftab[..]), old(reftabidx), Offsets(t, reflen, old(dataidx))[1..])
      decreases t, 1, 0
    {
      hide ItemRefs, Items, ItemOffsets, ItemsLen, CountItems, Head, HeadLen, Splice, IntBytes;
      var items := t.items;
      PutHead(0xa0, |items|);
      ghost var p, id := dataidx, reftabidx;
      SerializeItems(t, items);
      ghost var tail := ItemRefs(items, reflen, id) + Items(items, reflen, id);
      SpliceAppend(old(data[..]), old(dataidx), Head(0xa0, |items|), tail);
      assert Head(0xa0, |items|) + tail == Body(t, reflen, objectid);
      assert Offsets(t, reflen, old(dataidx))[1..] == ItemOffsets(items, reflen, p + |items| * reflen);
    }

    method SerializeDict(t: Plist, objectid: nat)
      requires t.Dict? && Room(BodyLen(t, reflen)) && reftabidx == objectid + 1
      requires reftabidx + CountEntries(t.entries) <= reftab.Length
      modifies this`dataidx, this`reftabidx, data, reftab
      ensures reftabidx == objectid + Count(t) && dataidx == old(dataidx) + BodyLen(t, reflen)
      ensures data[..] == Splice(old(data[..]), old(dataidx), Body(t, reflen, objectid))
      ensures reftab[..] == Splice<nat>(old(reftab[..]), old(reftabidx), Offsets(t, reflen, old(dataidx))[1..])
      decreases t, 1, 0
    {
      hide KeyRefs, ValueRefs, Entries, EntryOffsets, EntriesLen, CountEntries, Head, HeadLen, Splice, IntBytes;
      var entries := t.entries;
      PutHead(0xd0, |entries|);
      ghost var p, id := dataidx, reftabidx;
      SerializeEntries(t, entries);
      ghost var tail := KeyRefs(entries, reflen, id) + ValueRefs(entries, reflen, id) + Entries(entries, reflen, id);
      SpliceAppend(old(data[..]), old(dataidx), Head(0xd0, |entries|), tail);
      assert Head(0xd0, |entries|) + tail == Body(t, reflen, objectid);
      assert Offsets(t, reflen, old(dataidx))[1..]
          == EntryOffsets(entries, reflen, p + |entries| * reflen + |entries| * reflen);
    }

    /** The children of an array: references go to the reserved slots. */
    method SerializeItems(ghost t: Plist, items: seq<Plist>)
      requires t == Array(items)
      requires Room(|items| * reflen + ItemsLen(items, reflen))
      requires reftabidx + CountItems(items) <= reftab.Length
      modifies this`dataidx, this`reftabidx, data, reftab
      ensures reftabidx == old(reftabidx) + CountItems(items)
      ensures dataidx == old(dataidx) + |items| * reflen + ItemsLen(items, reflen)
      ensures data[..] == Splice(old(data[..]), old(dataidx),
                                 ItemRefs(items, reflen, old(reftabidx)) + Items(items, reflen, old(reftabidx)))
      ensures reftab[..] == Splice<nat>(old(reftab[..]), old(reftabidx),
                                   ItemOffsets(items, reflen, old(dataidx) + |items| * reflen))
      decreases t, 0, 2
    {
      hide Body, Offsets, BodyLen, Count, IntBytes, Splice, Items, ItemRefs, ItemOffsets, ItemsLen, CountItems,
          Filled, Appended;
      var valueidx := dataidx;
      dataidx := dataidx + |items| * reflen;
      ghost var d0, o0, slot, first, id := data[..], reftab[..], valueidx, dataidx, reftabidx;
      ItemsNone(reflen, id, first);
      SlotsFit(0, |items| + 1, reflen);
      FillStart(d0, first, slot);
      AppendStart(o0, id);
      for i := 0 to |items|
        invariant reftabidx == id + CountItems(items[..i])
        invariant dataidx == first + ItemsLen(items[..i], reflen)
        invariant valueidx == slot + i * reflen
        invariant Filled(d0, data[..], first, Items(items[..i], reflen, id), slot, ItemRefs(items[..i], reflen, id))
        invariant Appended(o0, reftab[..], id, ItemOffsets(items[..i], reflen, first))
      {
        ItemsStep(items, i, reflen);
        ItemsAppend(items[..i], items[i], reflen, id, first);
        assert items[..i + 1] == items[..i] + [items[i]];
        valueidx := SerializeItem(t, items, i, valueidx, d0, o0, id, slot, first);
      }
      assert items[..|items|] == items;
      FillEnd(d0, data[..], first, Items(items, reflen, id), slot, ItemRefs(items, reflen, id));
      AppendEnd(o0, reftab[..], id, ItemOffsets(items, reflen, first));
    }

    /** One iteration: the child is written at the cursor and its id into its slot. */
    method SerializeItem(ghost t: Plist, items: seq<Plist>, i: nat, slotidx: nat, ghost d0: seq<byte>, ghost o0: seq<nat>,
                         ghost id: nat, ghost slot: nat, ghost first: nat) returns (valueidx: nat)
      requires t == Array(items) && i < |items| && slotidx == slot + i * reflen && slotidx + reflen <= first
      requires reftabidx == id + CountItems(items[..i]) && reftabidx + Count(items[i]) <= reftab.Length
      requires dataidx == first + ItemsLen(items[..i], reflen) && Room(BodyLen(items[i], reflen))
      requires Filled(d0, data[..], first, Items(items[..i], reflen, id), slot, ItemRefs(items[..i], reflen, id))
      requires Appended(o0, reftab[..], id, ItemOffsets(items[..i], reflen, first))
      modifies this`dataidx, this`reftabidx, data, reftab
      ensures valueidx == slotidx + reflen
      ensures reftabidx == old(reftabidx) + Count(items[i]) && dataidx == old(dataidx) + BodyLen(items[i], reflen)
      ensures Filled(d0, data[..], first, Items(items[..i], reflen, id) + Body(items[i], reflen, old(reftabidx)),
                     slot, ItemRefs(items[..i], reflen, id) + IntBytes(old(reftabidx), reflen))
      ensures Appended(o0, reftab[..], id, ItemOffsets(items[..i], reflen, first) + Offsets(items[i], reflen,
          old(dataidx)))
      decreases t, 0, 0
    {
      hide Body, Offsets, BodyLen, Count, IntBytes, Splice, Items, ItemRefs, ItemOffsets, ItemsLen, CountItems;
      ghost var d, init := data[..], items[..i];
      var valueid := SerializeObject(items[i]);
      PutAt(slotidx, IntBytes(valueid, reflen));
      valueidx := slotidx + reflen;
      FillNext(d0, d, first, Items(init, reflen, id), slot, ItemRefs(init, reflen, id),
               Body(items[i], reflen, valueid), IntBytes(valueid, reflen));
      SpliceAppend<nat>(o0, id, ItemOffsets(init, reflen, first), Offsets(items[i], reflen, old(dataidx)));
    }

    /** The entries of a dictionary: keys and values in turn, references to two rows of slots. */
    method SerializeEntries(ghost t: Plist, entries: seq<Entry>)
      requires t == Dict(entries)
      requires Room(|entries| * reflen + |entries| * reflen + EntriesLen(entries, reflen))
      requires reftabidx + CountEntries(entries) <= reftab.Length
      modifies this`dataidx, this`reftabidx, data, reftab
      ensures reftabidx == old(reftabidx) + CountEntries(entries)
      ensures dataidx == old(dataidx) + |entries| * reflen + |entries| * reflen + EntriesLen(entries, reflen)
      ensures data[..] == Splice(old(data[..]), old(dataidx),
                                 KeyRefs(entries, reflen, old(reftabidx)) + ValueRefs(entries, reflen, old(reftabidx))
                                 + Entries(entries, reflen, old(reftabidx)))
      ensures reftab[..] == Splice<nat>(old(reftab[..]), old(reftabidx),
                                   EntryOffsets(entries, reflen, old(dataidx) + |entries| * reflen + |entries| * reflen))
      decreases t, 0, 2
    {
      hide EntryBody, OffsetsOfEntry, EntryLen, Count, IntBytes, Splice, Entries, KeyRefs, ValueRefs, EntryOffsets;
      hide EntriesLen, CountEntries, FilledTwice, Appended;
      var keyidx := dataidx;
      dataidx := dataidx + |entries| * reflen;
      var valueidx := dataidx;
      dataidx := dataidx + |entries| * reflen;
      ghost var d0, o0, kslot, vslot, first, id := data[..], reftab[..], keyidx, valueidx, dataidx, reftabidx;
      EntriesNone(reflen, id, first);
      FillStartTwice(d0, first, kslot, vslot);
      AppendStart(o0, id);
      for i := 0 to |entries|
        invariant reftabidx == id + CountEntries(entries[..i])
        invariant dataidx == first + EntriesLen(entries[..i], reflen)
        invariant keyidx == kslot + i * reflen && valueidx == vslot + i * reflen
        invariant FilledTwice(d0, data[..], first, Entries(entries[..i], reflen, id), kslot, KeyRefs(entries[..i],
            reflen, id),
                              vslot, ValueRefs(entries[..i], reflen, id))
        invariant Appended(o0, reftab[..], id, EntryOffsets(entries[..i], reflen, first))
      {
        EntriesStep(entries, i, reflen);
        EntriesAppend(entries[..i], entries[i], reflen, id, first);
        EntryRefsAppend(entries[..i], entries[i], reflen, id);
        assert entries[..i + 1] == entries[..i] + [entries[i]];
        keyidx, valueidx := SerializePair(t, entries, i, keyidx, valueidx, d0, o0, id, kslot, vslot, first);
      }
      assert entries[..|entries|] == entries;
      FillEndTwice(d0, data[..], first, Entries(entries, reflen, id), kslot, KeyRefs(entries, reflen, id),
                   vslot, ValueRefs(entries, reflen, id));
      AppendEnd(o0, reftab[..], id, EntryOffsets(entries, reflen, first));
    }

    /** One iteration: key and value are written at the cursor and their ids into their slots. */
    method SerializePair(ghost t: Plist, entries: seq<Entry>, i: nat, kidx: nat, vidx: nat, ghost d0: seq<byte>,
        ghost o0: seq<nat>,
                         ghost id: nat, ghost kslot: nat, ghost vslot: nat, ghost first: nat) returns (keyidx: nat,
                             valueidx: nat)
      requires t == Dict(entries) && i < |entries|
      requires kidx == kslot + i * reflen && kidx + reflen <= vslot && vidx == vslot + i * reflen && vidx
          + reflen <= first
      requires reftabidx == id + CountEntries(entries[..i]) && reftabidx + 1 + Count(entries[i].value) <= reftab.Length
      requires dataidx == first + EntriesLen(entries[..i], reflen) && Room(EntryLen(entries[i], reflen))
      requires FilledTwice(d0, data[..], first, Entries(entries[..i], reflen, id), kslot, KeyRefs(entries[..i],
          reflen, id),
                           vslot, ValueRefs(entries[..i], reflen, id))
      requires Appended(o0, reftab[..], id, EntryOffsets(entries[..i], reflen, first))
      modifies this`dataidx, this`reftabidx, data, reftab
      ensures keyidx == kidx + reflen && valueidx == vidx + reflen
      ensures reftabidx == old(reftabidx) + 1 + Count(entries[i].value) && dataidx == old(dataidx)
          + EntryLen(entries[i], reflen)
      ensures FilledTwice(d0, data[..], first, Entries(entries[..i], reflen, id) + EntryBody(entries[i], reflen,
          old(reftabidx)),
                          kslot, KeyRefs(entries[..i], reflen, id) + IntBytes(old(reftabidx), reflen),
                          vslot, ValueRefs(entries[..i], reflen, id) + IntBytes(old(reftabidx) + 1, reflen))
      ensures Appended(o0, reftab[..], id, EntryOffsets(entries[..i], reflen, first) + OffsetsOfEntry(entries[i],
          reflen, old(dataidx)))
      decreases t, 0, 1
    {
      hide EntryBody, OffsetsOfEntry, EntryLen, Count, IntBytes, Splice, Entries, KeyRefs, ValueRefs, EntryOffsets;
      hide EntriesLen, CountEntries;
      ghost var d, init := data[..], entries[..i];
      var keyid, valueid := SerializeEntry(t, entries, i);
      PutAt(kidx, IntBytes(keyid, reflen));
      keyidx := kidx + reflen;
      PutAt(vidx, IntBytes(valueid, reflen));
      valueidx := vidx + reflen;
      FillNextTwice(d0, d, first, Entries(init, reflen, id), kslot, KeyRefs(init, reflen, id), vslot,
          ValueRefs(init, reflen, id),
                    EntryBody(entries[i], reflen, keyid), IntBytes(keyid, reflen), IntBytes(valueid, reflen));
      SpliceAppend<nat>(o0, id, EntryOffsets(init, reflen, first), OffsetsOfEntry(entries[i], reflen, old(dataidx)));
    }

    /** Key and value of one entry. */
    method SerializeEntry(ghost t: Plist, entries: seq<Entry>, i: nat) returns (keyid: nat, valueid: nat)
      requires t == Dict(entries) && i < |entries| && reftabidx + 1 + Count(entries[i].value) <= reftab.Length
      requires Room(EntryLen(entries[i], reflen))
      modifies this`dataidx, this`reftabidx, data, reftab
      ensures keyid == old(reftabidx) && valueid == keyid + 1 && reftabidx == valueid + Count(entries[i].value)
      ensures dataidx == old(dataidx) + EntryLen(entries[i], reflen)
      ensures data[..] == Splice(old(data[..]), old(dataidx), EntryBody(entries[i], reflen, keyid))
      ensures reftab[..] == Splice<nat>(old(reftab[..]), keyid, OffsetsOfEntry(entries[i], reflen, old(dataidx)))
      decreases t, 0, 0
    {
      hide Body, Offsets, BodyLen, Count, Splice;
      var key, value := entries[i].key, entries[i].value;
      ghost var d, o, at := data[..], reftab[..], dataidx;
      keyid := SerializeString(key);
      valueid := SerializeObject(value);
      SpliceAppend(d, at, StrBody(key), Body(value, reflen, valueid));
      SpliceAppend<nat>(o, keyid, [at], Offsets(value, reflen, at + HeadLen(|key|) + |key|));
    }
  }

  /** One more child at the end. */
  lemma ItemsAppend(init: seq<Plist>, t: Plist, w: nat, id: nat, base: nat)
    ensures CountItems(init + [t]) == CountItems(init) + Count(t)
    ensures ItemsLen(init + [t], w) == ItemsLen(init, w) + BodyLen(t, w)
    ensures Items(init + [t], w, id) == Items(init, w, id) + Body(t, w, id + CountItems(init))
    ensures ItemRefs(init + [t], w, id) == ItemRefs(init, w, id) + IntBytes(id + CountItems(init), w)
    ensures ItemOffsets(init + [t], w, base) == ItemOffsets(init, w, base) + Offsets(t, w, base + ItemsLen(init, w))
  {
    hide Body, Offsets, BodyLen, Count, IntBytes;
    assert (init + [t])[..|init|] == init;
  }

  lemma EntriesAppend(init: seq<Entry>, e: Entry, w: nat, id: nat, base: nat)
    ensures CountEntries(init + [e]) == CountEntries(init) + 1 + Count(e.value)
    ensures EntriesLen(init + [e], w) == EntriesLen(init, w) + EntryLen(e, w)
    ensures Entries(init + [e], w, id) == Entries(init, w, id) + EntryBody(e, w, id + CountEntries(init))
    ensures EntryOffsets(init + [e], w, base) == EntryOffsets(init, w, base) + OffsetsOfEntry(e, w, base
        + EntriesLen(init, w))
  {
    hide EntryBody, OffsetsOfEntry, EntryLen, IntBytes, Count;
    assert (init + [e])[..|init|] == init;
  }

  lemma EntryRefsAppend(init: seq<Entry>, e: Entry, w: nat, id: nat)
    ensures KeyRefs(init + [e], w, id) == KeyRefs(init, w, id) + IntBytes(id + CountEntries(init), w)
    ensures ValueRefs(init + [e], w, id) == ValueRefs(init, w, id) + IntBytes(id + CountEntries(init) + 1, w)
  {
    hide IntBytes, Count, CountEntries;
    assert (init + [e])[..|init|] == init;
  }

  /** o is o0 with `offs` written from `id` on. */
  ghost predicate Appended(o0: seq<nat>, o: seq<nat>, id: nat, offs: seq<nat>)
  {
    id + |offs| <= |o0| && o == Splice<nat>(o0, id, offs)
  }

  lemma AppendStart(o0: seq<nat>, id: nat)
    requires id <= |o0|
    ensures Appended(o0, o0, id, [])
  {
    SpliceNothing<nat>(o0, id);
  }

  lemma AppendEnd(o0: seq<nat>, o: seq<nat>, id: nat, offs: seq<nat>)
    requires Appended(o0, o, id, offs)
    ensures id + |offs| <= |o0| && o == Splice<nat>(o0, id, offs)
  {
  }

  lemma ItemsNone(w: nat, id: nat, base: nat)
    ensures CountItems([]) == 0 && ItemsLen([], w) == 0
    ensures Items([], w, id) == [] && ItemRefs([], w, id) == [] && ItemOffsets([], w, base) == []
  {
  }

  lemma EntriesNone(w: nat, id: nat, base: nat)
    ensures CountEntries([]) == 0 && EntriesLen([], w) == 0
    ensures Entries([], w, id) == [] && KeyRefs([], w, id) == [] && ValueRefs([], w, id) == [] && EntryOffsets([],
        w, base) == []
  {
  }

  /** d is d0 with `body` written from `first` on and `refs` from `slot` on. */
  ghost predicate Filled(d0: seq<byte>, d: seq<byte>, first: nat, body: seq<byte>, slot: nat, refs: seq<byte>)
  {
    first + |body| <= |d0| && slot + |refs| <= first && d == Splice(Splice(d0, first, body), slot, refs)
  }

  lemma FillNext(d0: seq<byte>, d: seq<byte>, first: nat, body: seq<byte>, slot: nat, refs: seq<byte>,
      b: seq<byte>, r: seq<byte>)
    requires Filled(d0, d, first, body, slot, refs)
    requires first + |body| + |b| <= |d0| && slot + |refs| + |r| <= first
    ensures |d| == |d0|
    ensures Filled(d0, Splice(Splice(d, first + |body|, b), slot + |refs|, r), first, body + b, slot, refs + r)
  {
    SpliceSlot(d0, first, body, slot, refs, b, r);
  }

  lemma FillStart(d0: seq<byte>, first: nat, slot: nat)
    requires slot <= first <= |d0|
    ensures Filled(d0, d0, first, [], slot, [])
  {
    SpliceNothing(d0, first);
    SpliceNothing(d0, slot);
  }

  lemma FillEnd(d0: seq<byte>, d: seq<byte>, first: nat, body: seq<byte>, slot: nat, refs: seq<byte>)
    requires Filled(d0, d, first, body, slot, refs) && slot + |refs| == first
    ensures first + |body| <= |d0| && d == Splice(d0, slot, refs + body)
  {
    SplicePrepend(d0, slot, refs, body);
  }

  /** The same with two rows of slots. */
  ghost predicate FilledTwice(d0: seq<byte>, d: seq<byte>, first: nat, body: seq<byte>, kslot: nat, keys: seq<byte>,
                              vslot: nat, values: seq<byte>)
  {
    && first + |body| <= |d0| && kslot + |keys| <= vslot && vslot + |values| <= first
    && d == Splice(Splice(Splice(d0, first, body), vslot, values), kslot, keys)
  }

  lemma FillNextTwice(d0: seq<byte>, d: seq<byte>, first: nat, body: seq<byte>, kslot: nat, keys: seq<byte>,
                      vslot: nat, values: seq<byte>, b: seq<byte>, k: seq<byte>, v: seq<byte>)
    requires FilledTwice(d0, d, first, body, kslot, keys, vslot, values)
    requires first + |body| + |b| <= |d0| && kslot + |keys| + |k| <= vslot && vslot + |values| + |v| <= first
    ensures |d| == |d0|
    ensures FilledTwice(d0, Splice(Splice(Splice(d, first + |body|, b), kslot + |keys|, k), vslot + |values|, v),
                        first, body + b, kslot, keys + k, vslot, values + v)
  {
    SpliceTwoSlots(d0, first, body, kslot, keys, vslot, values, b, k, v);
  }

  lemma FillStartTwice(d0: seq<byte>, first: nat, kslot: nat, vslot: nat)
    requires kslot <= vslot <= first <= |d0|
    ensures FilledTwice(d0, d0, first, [], kslot, [], vslot, [])
  {
    SpliceNothing(d0, first);
    SpliceNothing(d0, vslot);
    SpliceNothing(d0, kslot);
  }

  lemma FillEndTwice(d0: seq<byte>, d: seq<byte>, first: nat, body: seq<byte>, kslot: nat, keys: seq<byte>,
                     vslot: nat, values: seq<byte>)
    requires FilledTwice(d0, d, first, body, kslot, keys, vslot, values)
    requires kslot + |keys| == vslot && vslot + |values| == first
    ensures first + |body| <= |d0| && d == Splice(d0, kslot, keys + values + body)
  {
    SplicePrepend(d0, vslot, values, body);
    SplicePrepend(d0, kslot, keys, values + body);
    assert keys + values + body == keys + (values + body);
  }

  /** What comes before and with child i fits into the whole. */
  lemma {:induction false} ItemsPrefix(items: seq<Plist>, i: nat, w: nat)
    requires i <= |items|
    ensures CountItems(items[..i]) <= CountItems(items) && ItemsLen(items[..i], w) <= ItemsLen(items, w)
  {
    if i == |items| {
      assert items[..i] == items;
    } else {
      var init := items[..|items| - 1];
      ItemsPrefix(init, i, w);
      assert init[..i] == items[..i];
    }
  }

  lemma ItemsStep(items: seq<Plist>, i: nat, w: nat)
    requires i < |items|
    ensures CountItems(items[..i + 1]) == CountItems(items[..i]) + Count(items[i]) <= CountItems(items)
    ensures ItemsLen(items[..i + 1], w) == ItemsLen(items[..i], w) + BodyLen(items[i], w) <= ItemsLen(items, w)
    ensures i * w + w <= |items| * w
  {
    ItemsPrefix(items, i + 1, w);
    assert items[..i + 1][..i] == items[..i];
    SlotsFit(i, |items|, w);
  }

  lemma {:induction false} EntriesPrefix(entries: seq<Entry>, i: nat, w: nat)
    requires i <= |entries|
    ensures CountEntries(entries[..i]) <= CountEntries(entries) && EntriesLen(entries[..i], w) <= EntriesLen(entries, w)
  {
    if i == |entries| {
      assert entries[..i] == entries;
    } else {
      var init := entries[..|entries| - 1];
      EntriesPrefix(init, i, w);
      assert init[..i] == entries[..i];
    }
  }

  lemma EntriesStep(entries: seq<Entry>, i: nat, w: nat)
    requires i < |entries|
    ensures CountEntries(entries[..i + 1]) == CountEntries(entries[..i]) + 1
        + Count(entries[i].value) <= CountEntries(entries)
    ensures EntriesLen(entries[..i + 1], w) == EntriesLen(entries[..i], w) + EntryLen(entries[i],
        w) <= EntriesLen(entries, w)
    ensures i * w + w == (i + 1) * w <= |entries| * w
  {
    EntriesPrefix(entries, i + 1, w);
    assert entries[..i + 1][..i] == entries[..i];
    SlotsFit(i, |entries|, w);
  }

  // ---- The whole file ----

  lemma SpliceGap(n: nat, a: seq<byte>, gap: nat, b: seq<byte>)
    requires |a| + gap + |b| <= n
    ensures Splice(Splice(Zeros(n), 0, a), |a| + gap, b) == Splice(Zeros(n), 0, a + Zeros(gap) + b)
  {
  }

  lemma SpliceRest(n: nat, a: seq<byte>)
    requires |a| <= n
    ensures Splice(Zeros(n), 0, a) == a + Zeros(n - |a|)
  {
  }

  lemma SpliceAll(s: seq<nat>, b: seq<nat>)
    requires |s| == |b|
    ensures Splice<nat>(s, 0, b) == b
  {
  }

  /** The header, the objects and the offset table. */
  method WriteContents(w: Writer, t: Plist, offlen: nat) returns (reftaboffset: nat)
    requires w.dataidx == 0 && w.reftabidx == 0 && w.reflen == RefLen(t) && offlen == OffLen(t)
    requires w.reftab.Length == Count(t) && |Contents(t)| <= w.data.Length
    modifies w`dataidx, w`reftabidx, w.data, w.reftab
    ensures reftaboffset == 8 + BodyLen(t, RefLen(t)) && w.dataidx == |Contents(t)|
    ensures w.data[..] == Splice(old(w.data[..]), 0, Contents(t))
  {
    hide Body, Offsets, BodyLen, Refs, Table, Count, IntBytes, Splice, RefLen, OffLen;
    ghost var d0, body, offs := w.data[..], Body(t, RefLen(t), 0), Offsets(t, RefLen(t), 8);
    w.Put(MAGIC);
    var root := w.SerializeObject(t);
    SpliceAppend(d0, 0, MAGIC, body);
    SpliceAll(old(w.reftab[..]), offs);
    reftaboffset := w.dataidx;
    WriteTable(w, offlen, offs);
    SpliceAppend(d0, 0, MAGIC + body, Table(offs, offlen));
  }

  /** The loop over the offset table. */
  method WriteTable(w: Writer, offlen: nat, ghost offs: seq<nat>)
    requires w.reftab[..] == offs && w.dataidx + |offs| * offlen <= w.data.Length
    modifies w`dataidx, w.data
    ensures w.dataidx == old(w.dataidx) + |offs| * offlen
    ensures w.data[..] == Splice(old(w.data[..]), old(w.dataidx), Table(offs, offlen))
  {
    hide IntBytes, Splice;
    ghost var d, at := w.data[..], w.dataidx;
    SpliceNothing(d, at);
    for i := 0 to w.reftab.Length
      invariant w.reftab[..] == offs
      invariant w.dataidx == at + i * offlen && w.dataidx == at + |Table(offs[..i], offlen)| <= w.data.Length
      invariant w.data[..] == Splice(d, at, Table(offs[..i], offlen))
    {
      SlotsFit(i, |offs|, offlen);
      assert offs[..i + 1][..i] == offs[..i];
      SpliceAppend(d, at, Table(offs[..i], offlen), IntBytes(offs[i], offlen));
      w.Put(IntBytes(w.reftab[i], offlen));
    }
    assert offs[..|offs|] == offs;
  }

  /** The used bytes of the trailer. */
  method WriteTrailer(w: Writer, t: Plist, offlen: nat, reflen: nat, objects: nat, reftaboffset: nat)
    requires offlen == OffLen(t) && reflen == RefLen(t) && objects == Count(t)
    requires reftaboffset == 8 + BodyLen(t, RefLen(t)) && w.Room(26)
    modifies w`dataidx, w.data
    ensures w.data[..] == Splice(old(w.data[..]), old(w.dataidx), Trailer(t))
  {
    hide BodyLen, Refs, Count, Splice, IntBytes, RefLen, OffLen;
    ghost var d, at, b := w.data[..], w.dataidx, IntBytes(offlen, 1);
    w.Put(IntBytes(offlen, 1));
    SpliceAppend(d, at, b, IntBytes(reflen, 1));
    b := b + IntBytes(reflen, 1);
    w.Put(IntBytes(reflen, 1));
    SpliceAppend(d, at, b, IntBytes(objects, 8));
    b := b + IntBytes(objects, 8);
    w.Put(IntBytes(objects, 8));
    SpliceAppend(d, at, b, IntBytes(0, 8));
    b := b + IntBytes(0, 8);
    w.Put(IntBytes(0, 8));
    SpliceAppend(d, at, b, IntBytes(reftaboffset, 8));
    w.Put(IntBytes(reftaboffset, 8));
  }

  /** `plist_object_to_bplist`: -1 for a null pointer, otherwise 0 and the encoding. */
  method ToBplist(t: Plist) returns (ret: int, data: array<byte>)
    requires Doubles(t)
    ensures t.Null? ==> ret == -1
    ensures !t.Null? ==> ret == 0 && data[..] == Encoded(t)
  {
    hide Body, Offsets, BodyLen, Excess, Bytes, Table, Count, IntBytes, Splice, Doubles, Trailer, Contents;
    if t.Null? {
      data := new byte[0];
      return -1, data;
    }
    var sizes := new Sizes();
    sizes.Analyze(t);
    var objects, reflen := sizes.objects, IntLen(sizes.refs);
    var buflen := 8 + sizes.bytes + sizes.refs * reflen;
    var offlen := IntLen(buflen);
    buflen := buflen + objects * offlen + 32;
    EncodedLength(t);
    data := new byte[buflen](_ => 0);
    assert data[..] == Zeros(buflen);
    var reftab := new nat[objects](_ => 0);
    var w := new Writer(data, reftab, reflen, 0);
    var reftaboffset := WriteContents(w, t, offlen);
    w.dataidx := w.dataidx + 6;
    WriteTrailer(w, t, offlen, reflen, objects, reftaboffset);
    SpliceGap(buflen, Contents(t), 6, Trailer(t));
    SpliceRest(buflen, Contents(t) + Zeros(6) + Trailer(t));
    ret := 0;
  }
}
