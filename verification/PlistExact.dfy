/** The reader returns a tree exactly where one stands. */
module PlistExact {
  import opened BigEndianBytes
  import opened Bitwise
  import opened LittleEndian
  import opened MachineInts
  import opened PlistFormat
  import opened PlistLayout
  import opened PlistParse
  import opened Wrappers

  // ---- Heads ----

  lemma WidthIs(code: byte)
    ensures code <= 3 ==> Pow2(code as nat) % 0x100 == Width(code) && Pow2(code as nat) == Width(code)
    ensures 4 <= code < 16 ==> Pow2(code as nat) % 0x100 !in {1, 2, 4, 8}
  {
    assert Pow2(3) == 8 && Pow2(2) == 4 && Pow2(1) == 2;
    if 4 <= code < 8 {
      assert Pow2(4) == 16 && Pow2(5) == 32 && Pow2(6) == 64 && Pow2(7) == 128;
    } else if 8 <= code < 16 {
      assert Pow2(8) == 256 by { PowerEight(); }
      Multiples(code as nat);
    }
  }

  lemma {:induction false} Multiples(n: nat)
    requires n >= 8
    ensures Pow2(n) % 0x100 == 0
  {
    if n == 8 {
      PowerEight();
    } else {
      Multiples(n - 1);
    }
  }

  lemma BEBelow(b: seq<byte>)
    requires |b| == 1 || |b| == 2 || |b| == 4 || |b| == 8
    ensures BE(b) < (if |b| == 8 then TWO64 else 0x1_0000_0000)
  {
    BEBounded(b);
    assert Pow256(2) == 0x1_0000 && Pow256(4) == 0x1_0000 * Pow256(2);
    assert Pow256(6) == 0x1_0000 * Pow256(4);
    assert Pow256(8) == 0x1_0000 * Pow256(6);
  }

  /** Where `ReadHead` finds a length, that length stands, and only there. */
  lemma HeadIs(data: seq<byte>, at: nat, n: nat, next: nat)
    ensures LengthIs(data, at, n, next)
      <==> ReadHead(data, at).Some? && ReadHead(data, at).value.length == n && ReadHead(data, at).value.next == next
  {
    hide Pow2, BE;
    if at + 1 < |data| && data[at] % 16 == 15 && data[at + 1] / 16 == 1 {
      WidthIs(data[at + 1] % 16);
      var k := Width(data[at + 1] % 16);
      if data[at + 1] % 16 <= 3 && at + 2 + k <= |data| {
        BEBelow(data[at + 2..at + 2 + k]);
      }
    }
  }

  lemma Heading(data: seq<byte>, at: nat, h: Opening)
    requires ReadHead(data, at) == Some(h)
    ensures at < |data| && h.kind == 16 * (data[at] / 16) && h.low == data[at] % 16
  {
    hide Pow2, BE, ParseInteger;
  }

  // ---- Leaves ----

  lemma IntExact(data: seq<byte>, h: Opening, v: int64)
    requires h.next <= |data|
    ensures ParseInt(data, h) == Parsed(Integer(v)) <==> IntegerIs(data, h.length, h.next, v)
  {
    hide Pow2, BE;
    if h.length < 16 {
      WidthIs(h.length as byte);
    } else if h.length < 31 {
      Multiples(h.length);
    }
    var k := Width(if h.length <= 3 then h.length as byte else 3);
    if h.next + k <= |data| {
      BEBelow(data[h.next..h.next + k]);
    }
  }

  lemma {:induction false} ReversedAt(s: seq<byte>, i: nat)
    requires i < |s|
    ensures Reversed(s)[i] == s[|s| - 1 - i]
  {
    if i < |s| - 1 {
      ReversedAt(s[1..], i);
    }
  }

  lemma RealExact(data: seq<byte>, h: Opening, bits: seq<byte>)
    requires h.next <= |data|
    ensures ParseReal(data, h) == Parsed(Real(bits)) <==> RealIs(data, h.length, h.next, bits)
  {
    hide Pow2, Reversed;
    PowerTwo(h.length);
    if h.next + 8 <= |data| {
      var s := data[h.next..h.next + 8];
      forall i | 0 <= i < 8
        ensures Reversed(s)[i] == data[h.next + 7 - i]
      {
        ReversedAt(s, i);
      }
      assert RealIs(data, h.length, h.next, bits) ==> bits == Reversed(s);
    }
  }

  /** 2^n is 4 for n == 2 alone. */
  lemma {:induction false} PowerTwo(n: nat)
    ensures Pow2(n) == 4 <==> n == 2
    ensures n > 2 ==> Pow2(n) > 4
  {
    if n > 2 {
      PowerTwo(n - 1);
    }
  }

  lemma {:induction false} CStringExact(s: seq<byte>, c: seq<byte>)
    ensures CString(s) == c <==> |c| <= |s| && c == s[..|c|] && 0 !in c && (|c| < |s| ==> s[|c|] == 0)
  {
    if s == [] || s[0] == 0 {
      if c != [] && |c| <= |s| && c == s[..|c|] {
        assert c[0] == s[0];
      }
    } else if c == [] {
    } else {
      CStringExact(s[1..], c[1..]);
      assert c == [c[0]] + c[1..];
      if |c| <= |s| {
        assert s[..|c|] == [s[0]] + s[1..][..|c| - 1];
      }
    }
  }

  lemma CharsExact(data: seq<byte>, n: nat, next: nat, c: seq<byte>)
    requires next + n <= |data|
    ensures CString(data[next..next + n]) == c <==> CharsAre(data, n, next, c)
  {
    var s := data[next..next + n];
    CStringExact(s, c);
    if |c| <= n {
      assert s[..|c|] == data[next..next + |c|];
    }
  }

  /** Objects without references. */
  lemma LeafExact(data: seq<byte>, table: seq<nat>, w: nat, at: nat, h: Opening, fuel: nat, t: Plist)
    requires ReadHead(data, at) == Some(h) && h.kind != 0xa0 && h.kind != 0xd0
    ensures ParseOpened(table, data, w, h, fuel) == Parsed(t) <==> StandsAt(data, table, w, at, h.length, h.next, t)
  {
    hide CString, ParseInteger, Reversed, IntegerIs, RealIs, CharsAre, Pow2, BE;
    assert h.kind == 16 * (data[at] / 16) && h.low == data[at] % 16;
    match t {
      case Integer(v) => IntExact(data, h, v);
      case Real(bits) => RealExact(data, h, bits);
      case Str(c) => KindsOfChars(data, h, c);
      case Unicode(c) => KindsOfChars(data, h, c);
      case _ =>
    }
  }

  lemma KindsOfChars(data: seq<byte>, h: Opening, c: seq<byte>)
    requires h.next <= |data|
    ensures CharsAre(data, h.length, h.next, c) ==> h.next + h.length <= |data|
    ensures h.next + h.length <= |data| ==>
              (CString(data[h.next..h.next + h.length]) == c <==> CharsAre(data, h.length, h.next, c))
  {
    if h.next + h.length <= |data| {
      CharsExact(data, h.length, h.next, c);
    }
  }

  /** What the reader takes for an integer or a real is nothing else, and its answer is null unless it is wild. */
  lemma LeafUndefined(data: seq<byte>, table: seq<nat>, w: nat, at: nat, h: Opening, fuel: nat)
    requires ReadHead(data, at) == Some(h) && h.kind != 0xa0 && h.kind != 0xd0
    ensures ParseOpened(table, data, w, h, fuel) == Undefined <==> WildAt(data, at, h.length, h.next)
    ensures ParseOpened(table, data, w, h, fuel) != OutOfFuel
  {
    hide Pow2, BE, CString, Reversed;
    PowerTwo(h.length);
    assert h.kind == 16 * (data[at] / 16);
  }

  // ---- References ----

  lemma Shifted(data: seq<byte>, w: nat, at: nat, i: nat, id: nat)
    requires i > 0
    ensures RefersTo(data, w, at, i, id) <==> RefersTo(data, w, at + w, i - 1, id)
  {
    hide BE;
    assert at + i * w == at + w + (i - 1) * w;
  }

  lemma ItemShifted(data: seq<byte>, table: seq<nat>, w: nat, at: nat, i: nat, t: Plist)
    requires i > 0
    ensures ItemStands(data, table, w, at, i, t) <==> ItemStands(data, table, w, at + w, i - 1, t)
  {
    hide Stands, RefersTo;
    forall id
      ensures RefersTo(data, w, at, i, id) <==> RefersTo(data, w, at + w, i - 1, id)
    {
      Shifted(data, w, at, i, id);
    }
  }

  /** The first reference, as the reader takes it. */
  lemma FirstReference(data: seq<byte>, w: nat, at: nat, id: nat)
    ensures RefersTo(data, w, at, 0, id) <==> at + w <= |data| && ParseInteger(data, at, w) == Some(id)
  {
    hide BE;
    assert at + 0 * w == at;
    if at + w <= |data| && (w == 1 || w == 2 || w == 4 || w == 8) {
      BEBelow(data[at..at + w]);
    }
  }

  lemma Item(data: seq<byte>, table: seq<nat>, w: nat, at: nat, i: nat, id: nat, t: Plist)
    requires RefersTo(data, w, at, i, id) && Stands(data, table, w, id, t)
    ensures ItemStands(data, table, w, at, i, t)
  {
    hide RefersTo, Stands;
  }

  lemma KeyIsItem(data: seq<byte>, table: seq<nat>, w: nat, at: nat, i: nat, key: seq<byte>)
    ensures KeyAt(data, table, w, at, i, key) <==> ItemStands(data, table, w, at, i, Str(key))
  {
    hide RefersTo, LengthIs, CharsAre;
    forall id
      ensures KeyStands(data, table, id, key) <==> Stands(data, table, w, id, Str(key))
    {
      assert forall at, n, next :: StandsAt(data, table, w, at, n, next, Str(key)) <==> StrIs(data, at, n, next, key);
    }
  }

  // ---- What the reader returns stands in the file ----

  lemma {:induction false} Sound(data: seq<byte>, table: seq<nat>, w: nat, id: nat, fuel: nat, t: Plist)
    requires Parse(table, id, data, w, fuel) == Parsed(t)
    ensures Stands(data, table, w, id, t)
    decreases fuel, 0, 0
  {
    hide LengthIs, StandsAt, ParseArray, ParseDict, ParseInt, ParseReal, ParseBytes, ReadHead;
    var h := ReadHead(data, table[id]).value;
    HeadIs(data, table[id], h.length, h.next);
    if h.kind == 0xa0 {
      ArraySound(data, table, w, table[id], h, fuel - 1, t);
    } else if h.kind == 0xd0 {
      DictSound(data, table, w, table[id], h, fuel - 1, t);
    } else {
      LeafExact(data, table, w, table[id], h, fuel - 1, t);
    }
  }

  lemma {:induction false} ArraySound(data: seq<byte>, table: seq<nat>, w: nat, at: nat, h: Opening, fuel: nat, t: Plist)
    requires ReadHead(data, at) == Some(h) && h.kind == 0xa0 && ParseArray(table, data, w, h, fuel) == Parsed(t)
    ensures StandsAt(data, table, w, at, h.length, h.next, t)
    decreases fuel, 1, h.length + 1
  {
    hide ItemStands, ParseChildren, ReadHead;
    Heading(data, at, h);
    ChildrenSound(data, table, w, h.next, h.length, false, fuel);
  }

  lemma {:induction false} DictSound(data: seq<byte>, table: seq<nat>, w: nat, at: nat, h: Opening, fuel: nat, t: Plist)
    requires ReadHead(data, at) == Some(h) && h.kind == 0xd0 && ParseDict(table, data, w, h, fuel) == Parsed(t)
    ensures StandsAt(data, table, w, at, h.length, h.next, t)
    decreases fuel, 1, h.length + 1
  {
    hide ItemStands, KeyAt, ParseChildren, Pairs, ReadHead;
    Heading(data, at, h);
    var n := h.length;
    ChildrenSound(data, table, w, h.next, n, true, fuel);
    ChildrenSound(data, table, w, h.next + n * w, n, false, fuel);
    var k := ParseChildren(table, data, w, h.next, n, true, fuel).done;
    var v := ParseChildren(table, data, w, h.next + n * w, n, false, fuel).done;
    PairsAre(k, v);
    forall i | 0 <= i < n
      ensures KeyAt(data, table, w, h.next, i, Pairs(k, v)[i].key)
    {
      KeyIsItem(data, table, w, h.next, i, k[i].chars);
    }
  }

  lemma {:induction false} PairsAre(k: seq<Plist>, v: seq<Plist>)
    requires |k| == |v| && forall i | 0 <= i < |k| :: k[i].Str?
    ensures |Pairs(k, v)| == |k|
    ensures forall i | 0 <= i < |k| :: Pairs(k, v)[i] == Entry(k[i].chars, v[i])
  {
    if k != [] {
      PairsAre(k[1..], v[1..]);
    }
  }

  lemma {:induction false} ChildrenSound(data: seq<byte>, table: seq<nat>, w: nat, at: nat, n: nat, keys: bool, fuel: nat)
    requires ParseChildren(table, data, w, at, n, keys, fuel).verdict.Complete?
    ensures var c := ParseChildren(table, data, w, at, n, keys, fuel);
      && |c.done| == n && c.at == at + n * w
      && (forall i | 0 <= i < n :: ItemStands(data, table, w, at, i, c.done[i]))
      && (keys ==> forall i | 0 <= i < n :: c.done[i].Str?)
    decreases fuel, 1, n
  {
    hide Parse, Stands, RefersTo, ItemStands, ParseInteger;
    if n > 0 {
      var id := ParseInteger(data, at, w).value;
      var t := Parse(table, id, data, w, fuel).t;
      Sound(data, table, w, id, fuel, t);
      FirstReference(data, w, at, id);
      assert ItemStands(data, table, w, at, 0, t) by { Item(data, table, w, at, 0, id, t); }
      ChildrenSound(data, table, w, at + w, n - 1, keys, fuel);
      assert at + w + (n - 1) * w == at + n * w;
      var c := ParseChildren(table, data, w, at, n, keys, fuel);
      forall i | 0 <= i < n
        ensures ItemStands(data, table, w, at, i, c.done[i])
      {
        if i > 0 {
          ItemShifted(data, table, w, at, i, c.done[i]);
        }
      }
    }
  }

  // ---- What stands in the file is returned ----

  lemma {:induction false} Found(data: seq<byte>, table: seq<nat>, w: nat, id: nat, t: Plist, fuel: nat)
    requires Stands(data, table, w, id, t) && fuel >= Count(t)
    ensures Parse(table, id, data, w, fuel) == Parsed(t)
    decreases fuel, 0, 0
  {
    hide LengthIs, StandsAt, ParseArray, ParseDict, ParseInt, ParseReal, ParseBytes, ReadHead, Count;
    var at := table[id];
    var n, next :| LengthIs(data, at, n, next) && StandsAt(data, table, w, at, n, next, t);
    HeadIs(data, at, n, next);
    var h := ReadHead(data, at).value;
    KindIs(data, table, w, at, h, t);
    if t.Array? {
      ArrayFound(data, table, w, at, h, t, fuel - 1);
    } else if t.Dict? {
      DictFound(data, table, w, at, h, t, fuel - 1);
    } else {
      LeafExact(data, table, w, at, h, fuel - 1, t);
    }
  }

  lemma KindIs(data: seq<byte>, table: seq<nat>, w: nat, at: nat, h: Opening, t: Plist)
    requires ReadHead(data, at) == Some(h) && StandsAt(data, table, w, at, h.length, h.next, t)
    ensures (h.kind == 0xa0 <==> t.Array?) && (h.kind == 0xd0 <==> t.Dict?)
  {
    hide IntegerIs, RealIs, BytesAre, CharsAre, ItemStands, KeyAt, ReadHead;
    Heading(data, at, h);
  }

  lemma {:induction false} ArrayFound(data: seq<byte>, table: seq<nat>, w: nat, at: nat, h: Opening, t: Plist, fuel: nat)
    requires ReadHead(data, at) == Some(h) && t.Array? && StandsAt(data, table, w, at, h.length, h.next, t)
    requires fuel + 1 >= Count(t)
    ensures ParseArray(table, data, w, h, fuel) == Parsed(t)
    decreases fuel, 1, h.length + 1
  {
    hide ItemStands, ParseChildren, ReadHead, CountItems;
    forall i | 0 <= i < |t.items|
      ensures Count(t.items[i]) <= fuel
    {
      CountOfItem(t.items, i);
    }
    ChildrenFound(data, table, w, h.next, t.items, false, fuel);
    ItemsFit(data, table, w, h.next, t.items);
  }

  lemma {:induction false} DictFound(data: seq<byte>, table: seq<nat>, w: nat, at: nat, h: Opening, t: Plist, fuel: nat)
    requires ReadHead(data, at) == Some(h) && t.Dict? && StandsAt(data, table, w, at, h.length, h.next, t)
    requires fuel + 1 >= Count(t)
    ensures ParseDict(table, data, w, h, fuel) == Parsed(t)
    decreases fuel, 1, h.length + 1
  {
    hide ItemStands, KeyAt, ParseChildren, ReadHead, Count, CountEntries, Pairs;
    Heading(data, at, h);
    CountOfDict(t);
    var n := |t.entries|;
    var k := seq(n, i requires 0 <= i < n => Str(t.entries[i].key));
    var v := seq(n, i requires 0 <= i < n => t.entries[i].value);
    forall i | 0 <= i < n
      ensures Count(k[i]) <= fuel && Count(v[i]) <= fuel && ItemStands(data, table, w, h.next, i, k[i])
    {
      CountOfEntry(t.entries, i);
      KeyIsItem(data, table, w, h.next, i, t.entries[i].key);
    }
    ChildrenFound(data, table, w, h.next, k, true, fuel);
    ChildrenFound(data, table, w, h.next + n * w, v, false, fuel);
    ItemsFit(data, table, w, h.next + n * w, v);
    Twice(n, w);
    EntriesAre(t.entries, k, v);
  }

  lemma CountOfDict(t: Plist)
    requires t.Dict?
    ensures Count(t) == 1 + CountEntries(t.entries) && forall key :: Count(Str(key)) == 1
  {
  }

  lemma Twice(n: nat, w: nat)
    ensures 2 * n * w == n * w + n * w
  {
  }

  lemma EntriesAre(entries: seq<Entry>, k: seq<Plist>, v: seq<Plist>)
    requires |k| == |v| == |entries|
    requires forall i | 0 <= i < |entries| :: k[i] == Str(entries[i].key) && v[i] == entries[i].value
    ensures Pairs(k, v) == entries
  {
    hide Pairs;
    PairsAre(k, v);
  }

  lemma ItemsFit(data: seq<byte>, table: seq<nat>, w: nat, at: nat, items: seq<Plist>)
    requires forall i | 0 <= i < |items| :: ItemStands(data, table, w, at, i, items[i])
    ensures items != [] ==> at + |items| * w <= |data|
  {
    hide Stands, BE;
    if items != [] {
      var i := |items| - 1;
      assert ItemStands(data, table, w, at, i, items[i]);
      assert |items| * w == i * w + w;
    }
  }

  lemma {:induction false} CountOfItem(items: seq<Plist>, i: nat)
    requires i < |items|
    ensures Count(items[i]) <= CountItems(items)
  {
    hide Count;
    if i < |items| - 1 {
      CountOfItem(items[..|items| - 1], i);
    }
  }

  lemma {:induction false} CountOfEntry(entries: seq<Entry>, i: nat)
    requires i < |entries|
    ensures 1 + Count(entries[i].value) <= CountEntries(entries)
  {
    hide Count;
    if i < |entries| - 1 {
      CountOfEntry(entries[..|entries| - 1], i);
    }
  }

  lemma {:induction false} ChildrenFound(data: seq<byte>, table: seq<nat>, w: nat, at: nat, items: seq<Plist>, keys: bool,
      fuel: nat)
    requires forall i | 0 <= i < |items| :: Count(items[i]) <= fuel && (keys ==> items[i].Str?)
    requires forall i | 0 <= i < |items| :: ItemStands(data, table, w, at, i, items[i])
    ensures ParseChildren(table, data, w, at, |items|, keys, fuel) == Children(items, at + |items| * w, Complete)
    decreases fuel, 1, |items|
  {
    hide Parse, Stands, RefersTo, ItemStands, ParseInteger, Count;
    if items != [] {
      var id := FirstItem(data, table, w, at, items[0]);
      Found(data, table, w, id, items[0], fuel);
      FirstReference(data, w, at, id);
      var rest := items[1..];
      forall i | 0 <= i < |rest|
        ensures ItemStands(data, table, w, at + w, i, rest[i])
      {
        ItemShifted(data, table, w, at, i + 1, rest[i]);
      }
      ChildrenFound(data, table, w, at + w, rest, keys, fuel);
      assert at + w + |rest| * w == at + |items| * w;
      assert items == [items[0]] + rest;
    }
  }

  lemma FirstItem(data: seq<byte>, table: seq<nat>, w: nat, at: nat, t: Plist) returns (id: nat)
    requires ItemStands(data, table, w, at, 0, t)
    ensures RefersTo(data, w, at, 0, id) && Stands(data, table, w, id, t)
  {
    hide RefersTo, Stands;
    id :| RefersTo(data, w, at, 0, id) && Stands(data, table, w, id, t);
  }

  // ---- Exactness ----

  /** At most one tree stands in a place. */
  lemma StandsUnique(data: seq<byte>, table: seq<nat>, w: nat, id: nat, t: Plist, u: Plist)
    requires Stands(data, table, w, id, t) && Stands(data, table, w, id, u)
    ensures t == u
  {
    hide Stands, Parse;
    Found(data, table, w, id, t, Count(t) + Count(u));
    Found(data, table, w, id, u, Count(t) + Count(u));
  }

  /** Whatever the bytes are: a tree comes back exactly where it stands, for any bound that its objects fit in,
      and where the answer is null, or undefined, none does. */
  lemma Exact(data: seq<byte>, table: seq<nat>, w: nat, id: nat, fuel: nat)
    ensures var o := Parse(table, id, data, w, fuel);
      && (forall t :: o == Parsed(t) ==> Stands(data, table, w, id, t))
      && (forall t :: Stands(data, table, w, id, t) ==> o == Parsed(t) || (o == OutOfFuel && fuel < Count(t)))
  {
    hide Stands, Parse, Count;
    var o := Parse(table, id, data, w, fuel);
    if o.Parsed? {
      Sound(data, table, w, id, fuel, o.t);
    }
    forall t | Stands(data, table, w, id, t)
      ensures o == Parsed(t) || (o == OutOfFuel && fuel < Count(t))
    {
      var g := fuel + Count(t);
      Found(data, table, w, id, t, g);
      if o != OutOfFuel {
        MoreFuel(table, id, data, w, fuel, g);
      } else if fuel >= Count(t) {
        Found(data, table, w, id, t, fuel);
      }
    }
  }

  /** The answer is undefined only when an object of the table is wild. */
  lemma {:induction false} DefinedUnlessWild(data: seq<byte>, table: seq<nat>, w: nat, id: nat, fuel: nat)
    requires forall i | 0 <= i < |table| :: !IsWild(data, table[i])
    ensures Parse(table, id, data, w, fuel) != Undefined
    decreases fuel, 0, 0
  {
    hide LengthIs, WildAt, ParseInt, ParseReal, ParseBytes, ReadHead, ParseChildren;
    if fuel > 0 && id < |table| && ReadHead(data, table[id]).Some? {
      var h := ReadHead(data, table[id]).value;
      HeadIs(data, table[id], h.length, h.next);
      if h.kind == 0xa0 {
        assert Parse(table, id, data, w, fuel) == ParseArray(table, data, w, h, fuel - 1);
        ChildrenDefined(data, table, w, h.next, h.length, false, fuel - 1);
      } else if h.kind == 0xd0 {
        assert Parse(table, id, data, w, fuel) == ParseDict(table, data, w, h, fuel - 1);
        ChildrenDefined(data, table, w, h.next, h.length, true, fuel - 1);
        var k := ParseChildren(table, data, w, h.next, h.length, true, fuel - 1);
        ChildrenDefined(data, table, w, k.at, h.length, false, fuel - 1);
      } else {
        LeafUndefined(data, table, w, table[id], h, fuel - 1);
      }
    }
  }

  lemma {:induction false} ChildrenDefined(data: seq<byte>, table: seq<nat>, w: nat, at: nat, n: nat, keys: bool,
      fuel: nat)
    requires forall i | 0 <= i < |table| :: !IsWild(data, table[i])
    ensures ParseChildren(table, data, w, at, n, keys, fuel).verdict != Fatal(Undefined)
    decreases fuel, 1, n
  {
    hide Parse, IsWild, ParseInteger;
    if n > 0 && at + w <= |data| && ParseInteger(data, at, w).Some? && ParseInteger(data, at, w).value >= 0 {
      DefinedUnlessWild(data, table, w, ParseInteger(data, at, w).value, fuel);
      ChildrenDefined(data, table, w, at + w, n - 1, keys, fuel);
    }
  }

  // ---- Files without cycles ----

  /** References that lead to objects of rank below r. */
  ghost predicate AllBelow(data: seq<byte>, w: nat, at: nat, n: nat, rank: seq<nat>, r: nat)
  {
    forall k, j: nat | 0 <= k < n && RefersTo(data, w, at, k, j) && j < |rank| :: rank[j] < r
  }

  lemma BelowShifted(data: seq<byte>, w: nat, at: nat, n: nat, rank: seq<nat>, r: nat, m: nat)
    requires m <= n && AllBelow(data, w, at, n, rank, r)
    ensures AllBelow(data, w, at + m * w, n - m, rank, r)
  {
    hide BE;
    var start := at + m * w;
    forall k, j: nat | 0 <= k < n - m && RefersTo(data, w, start, k, j) && j < |rank|
      ensures rank[j] < r
    {
      assert start + k * w == at + (m + k) * w;
      assert RefersTo(data, w, at, m + k, j);
    }
  }

  /** The recursion ends within the rank. */
  lemma {:induction false} Ends(data: seq<byte>, table: seq<nat>, w: nat, rank: seq<nat>, id: nat, fuel: nat)
    requires Ranked(data, table, w, rank) && fuel > 0 && (id < |table| ==> rank[id] + 1 < fuel)
    ensures Parse(table, id, data, w, fuel) != OutOfFuel
    decreases fuel, 0, 0
  {
    hide LengthIs, ParseInt, ParseReal, ParseBytes, ReadHead, ParseChildren, RefersTo, AllBelow;
    if id < |table| && ReadHead(data, table[id]).Some? {
      var h := ReadHead(data, table[id]).value;
      HeadIs(data, table[id], h.length, h.next);
      Heading(data, table[id], h);
      if h.kind == 0xa0 {
        assert Parse(table, id, data, w, fuel) == ParseArray(table, data, w, h, fuel - 1);
        ReferencesBelow(data, table, w, rank, id, h, h.length);
        ChildrenEnd(data, table, w, rank, h.next, h.length, h.length, false, fuel - 1, rank[id]);
      } else if h.kind == 0xd0 {
        assert Parse(table, id, data, w, fuel) == ParseDict(table, data, w, h, fuel - 1);
        ReferencesBelow(data, table, w, rank, id, h, 2 * h.length);
        ChildrenEnd(data, table, w, rank, h.next, h.length, 2 * h.length, true, fuel - 1, rank[id]);
        var k := ParseChildren(table, data, w, h.next, h.length, true, fuel - 1);
        var m := KeysRead(data, table, w, h.next, h.length, fuel - 1);
        BelowShifted(data, w, h.next, 2 * h.length, rank, rank[id], m);
        ChildrenEnd(data, table, w, rank, k.at, h.length, 2 * h.length - m, false, fuel - 1, rank[id]);
      } else {
        LeafUndefined(data, table, w, table[id], h, fuel - 1);
      }
    }
  }

  lemma ReferencesBelow(data: seq<byte>, table: seq<nat>, w: nat, rank: seq<nat>, id: nat, h: Opening, n: nat)
    requires Ranked(data, table, w, rank) && id < |table| && table[id] < |data|
    requires LengthIs(data, table[id], h.length, h.next)
    requires (data[table[id]] / 16 == 10 && n == h.length) || (data[table[id]] / 16 == 13 && n == 2 * h.length)
    ensures AllBelow(data, w, h.next, n, rank, rank[id])
  {
    hide LengthIs, RefersTo;
    forall k, j: nat | 0 <= k < n && RefersTo(data, w, h.next, k, j) && j < |rank|
      ensures rank[j] < rank[id]
    {
      assert Refers(data, table, w, id, j);
    }
  }

  /** The loop over the keys stops after at most n references. */
  lemma {:induction false} KeysRead(data: seq<byte>, table: seq<nat>, w: nat, at: nat, n: nat, fuel: nat) returns (m: nat)
    ensures m <= n && ParseChildren(table, data, w, at, n, true, fuel).at == at + m * w
    decreases n
  {
    hide Parse;
    m := 0;
    if n > 0 {
      var p := KeysRead(data, table, w, at + w, n - 1, fuel);
      assert at + w + p * w == at + (p + 1) * w;
      var c := ParseChildren(table, data, w, at, n, true, fuel);
      m := if c.at == at then 0 else if c.at == at + w then 1 else p + 1;
    }
  }

  /** A loop over n references, when those that lie there are below the rank r. */
  lemma {:induction false} ChildrenEnd(data: seq<byte>, table: seq<nat>, w: nat, rank: seq<nat>, at: nat, n: nat,
      there: nat, keys: bool, fuel: nat, r: nat)
    requires Ranked(data, table, w, rank) && n <= there && AllBelow(data, w, at, there, rank, r) && r < fuel
    ensures ParseChildren(table, data, w, at, n, keys, fuel).verdict != Fatal(OutOfFuel)
    decreases fuel, 1, n
  {
    hide Parse, Refers, ParseInteger, RefersTo;
    if n > 0 && at + w <= |data| && ParseInteger(data, at, w).Some? && ParseInteger(data, at, w).value >= 0 {
      var id := ParseInteger(data, at, w).value;
      FirstReference(data, w, at, id);
      BelowShifted(data, w, at, there, rank, r, 1);
      Ends(data, table, w, rank, id, fuel);
      ChildrenEnd(data, table, w, rank, at + w, n - 1, there - 1, keys, fuel, r);
    }
  }

  /** In a file without cycles and without wild numbers the answer is the tree that stands there, or null. */
  lemma ExactlyOne(data: seq<byte>, table: seq<nat>, w: nat, rank: seq<nat>, id: nat, fuel: nat)
    requires Ranked(data, table, w, rank) && fuel > 0 && (id < |table| ==> rank[id] + 1 < fuel)
    requires forall i | 0 <= i < |table| :: !IsWild(data, table[i])
    ensures var o := Parse(table, id, data, w, fuel);
      (o.Parsed? || o == Failed) && forall t :: o == Parsed(t) <==> Stands(data, table, w, id, t)
  {
    hide Ranked, IsWild, Parse, Stands, Count;
    Ends(data, table, w, rank, id, fuel);
    DefinedUnlessWild(data, table, w, id, fuel);
    Exact(data, table, w, id, fuel);
  }

  // ---- Files ----

  lemma {:induction false} TableExact(data: seq<byte>, at: nat, n: nat, k: nat)
    requires at + n * k <= |data|
    ensures IsTable(data, at, k, ReadTable(data, at, n, k))
  {
    if n > 0 {
      Room(n, k);
      TableExact(data, at, n - 1, k);
      hide BE;
      var o, p := ReadTable(data, at, n, k), ReadTable(data, at, n - 1, k);
      forall i | 0 <= i < n
        ensures o[i] == Offset(data, at + i * k, k)
      {
        if i < n - 1 {
          assert o[i] == p[i];
        }
      }
    }
  }

  lemma Room(n: nat, k: nat)
    requires n > 0
    ensures n * k == (n - 1) * k + k
  {
  }

  lemma TableUnique(data: seq<byte>, at: nat, k: nat, t: seq<nat>, u: seq<nat>)
    requires IsTable(data, at, k, t) && IsTable(data, at, k, u) && |t| == |u|
    ensures t == u
  {
    hide Offset;
  }

  /** The three numbers of the trailer. */
  lemma TrailerNumbers(data: seq<byte>)
    requires |data| >= 32
    ensures var trailer, n := data[|data| - 32..], |data|;
      && trailer[8..16] == data[n - 24..n - 16] && trailer[16..24] == data[n - 16..n - 8]
      && trailer[24..32] == data[n - 8..] && trailer[6] == data[n - 26] && trailer[7] == data[n - 25]
    ensures BE(data[|data| - 24..|data| - 16]) < TWO64 && BE(data[|data| - 16..|data| - 8]) < TWO64
    ensures BE(data[|data| - 8..]) < TWO64
  {
    hide BE;
    BEBelow(data[|data| - 24..|data| - 16]);
    BEBelow(data[|data| - 16..|data| - 8]);
    BEBelow(data[|data| - 8..]);
  }

  lemma FileParses(data: seq<byte>, table: seq<nat>, root: nat, fuel: nat)
    requires FileIs(data, table, root)
    ensures FromBplist(data, fuel) == Parse(table, root, data, data[|data| - 25] as nat, fuel)
  {
    hide BE, Parse, ReadTable, IsTable;
    TrailerNumbers(data);
    var at, k := BE(data[|data| - 8..]), data[|data| - 26] as nat;
    TableFits(data, at, k, table);
    TableExact(data, at, |table|, k);
    TableUnique(data, at, k, table, ReadTable(data, at, |table|, k));
  }

  lemma TableFits(data: seq<byte>, at: nat, k: nat, table: seq<nat>)
    requires IsTable(data, at, k, table)
    ensures at + |table| * k <= |data|
  {
  }

  lemma FileFound(data: seq<byte>, fuel: nat) returns (table: seq<nat>, root: nat)
    requires FromBplist(data, fuel).Parsed?
    ensures FileIs(data, table, root)
  {
    hide BE, Parse, ReadTable, IsTable;
    TrailerNumbers(data);
    var n := |data|;
    var at, objects, k := BE(data[n - 8..]), BE(data[n - 24..n - 16]), data[n - 26] as nat;
    assert Signed(at) == at && Signed(objects) == objects;
    table, root := ReadTable(data, at, objects, k), BE(data[n - 16..n - 8]);
    TableExact(data, at, objects, k);
  }

  /** The same for whole files. */
  lemma FileExact(data: seq<byte>, fuel: nat)
    ensures var o := FromBplist(data, fuel);
      && (forall t :: o == Parsed(t) ==> FileStands(data, t))
      && (forall t :: FileStands(data, t) ==> o == Parsed(t) || (o == OutOfFuel && fuel < Count(t)))
  {
    hide FromBplist, FileIs, Stands, Parse, Count;
    var o := FromBplist(data, fuel);
    if o.Parsed? {
      var table, root := FileFound(data, fuel);
      FileParses(data, table, root, fuel);
      FileLong(data, table, root);
      Exact(data, table, data[|data| - 25] as nat, root, fuel);
    }
    forall t | FileStands(data, t)
      ensures o == Parsed(t) || (o == OutOfFuel && fuel < Count(t))
    {
      var table, root :| FileIs(data, table, root) && |data| >= 32
                         && Stands(data, table, data[|data| - 25] as nat, root, t);
      FileParses(data, table, root, fuel);
      Exact(data, table, data[|data| - 25] as nat, root, fuel);
    }
  }

  lemma FileLong(data: seq<byte>, table: seq<nat>, root: nat)
    requires FileIs(data, table, root)
    ensures |data| >= 32
  {
    hide BE, IsTable;
  }
}
