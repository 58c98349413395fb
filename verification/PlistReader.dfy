/** The plist reader (src/utils/plist.cpp), as the source runs it. */
module PlistReader {
  import opened BigEndianBytes
  import opened MachineInts
  import opened PlistExact
  import opened PlistFormat
  import opened PlistLayout
  import opened PlistParse
  import opened Wrappers

  // ---- The loops, as the source runs them ----

  /** What a loop that has already collected `done` leaves. */
  ghost function After(done: seq<Plist>, c: Children): Children
  {
    Children(done + c.done, c.at, c.verdict)
  }

  /** One round of a loop over references; without a child the loop breaks off. `n` is the number
      of rounds that are left. */
  method ReadChild(reftab: seq<nat>, data: seq<byte>, reflen: nat, start: nat, keys: bool, fuel: nat, ghost n: nat)
    returns (child: Option<Plist>, at: nat, verdict: Verdict)
    requires n > 0
    ensures var c := ParseChildren(reftab, data, reflen, start, n, keys, fuel);
      if child.Some? then c == After([child.value], ParseChildren(reftab, data, reflen, at, n - 1, keys, fuel))
      else c == Children([], at, verdict)
    decreases fuel, 1
  {
    hide Parse;
    child, at := None, start;
    if at + reflen > |data| {
      return None, at, Broken;
    }
    var idx := ParseInteger(data, at, reflen);
    if idx.None? || (idx.value < 0 && !keys) {
      return None, at, Broken;
    }
    at := at + reflen;
    if idx.value < 0 {
      return None, at, Broken;
    }
    var o := ReadObject(reftab, idx.value, data, reflen, fuel);
    if o.Undefined? || o.OutOfFuel? {
      return None, at, Fatal(o);
    }
    if o.Failed? || (keys && !o.t.Str?) {
      return None, at, Broken;
    }
    return Some(o.t), at, Complete;
  }

  lemma AfterTwice(done: seq<Plist>, t: Plist, c: Children)
    ensures After(done, After([t], c)) == After(done + [t], c)
  {
    assert done + ([t] + c.done) == done + [t] + c.done;
  }

  lemma AfterNothing(done: seq<Plist>, at: nat, verdict: Verdict)
    ensures After(done, Children([], at, verdict)) == Children(done, at, verdict)
  {
    assert done + [] == done;
  }

  lemma NothingBefore(c: Children)
    ensures After([], c) == c
  {
    assert [] + c.done == c.done;
  }

  /** The loops over references in `bplist_parse_object`: an array's, a dictionary's keys and its
      values. */
  method ReadChildren(reftab: seq<nat>, data: seq<byte>, reflen: nat, start: nat, length: nat, keys: bool, fuel: nat)
    returns (done: seq<Plist>, at: nat, verdict: Verdict)
    ensures Children(done, at, verdict) == ParseChildren(reftab, data, reflen, start, length, keys, fuel)
    decreases fuel, 2
  {
    done, at, verdict := [], start, Complete;
    ghost var whole := ParseChildren(reftab, data, reflen, start, length, keys, fuel);
    NothingBefore(whole);
    for i := 0 to length
      invariant whole == After(done, ParseChildren(reftab, data, reflen, at, length - i, keys, fuel))
    {
      hide ParseChildren, After;
      var child;
      child, at, verdict := ReadChild(reftab, data, reflen, at, keys, fuel, length - i);
      if child.None? {
        AfterNothing(done, at, verdict);
        return;
      }
      AfterTwice(done, child.value, ParseChildren(reftab, data, reflen, at, length - i - 1, keys, fuel));
      done := done + [child.value];
    }
    verdict := Complete;
    AfterNothing(done, at, Complete);
  }

  /** `bplist_parse_object`: the tree that stands at the object, where one does. The recursion needs no more depth
      than the tree has objects. */
  method ReadObject(reftab: seq<nat>, idx: nat, data: seq<byte>, reflen: nat, fuel: nat) returns (o: Outcome)
    ensures o == Parse(reftab, idx, data, reflen, fuel)
    ensures o.Parsed? ==> Stands(data, reftab, reflen, idx, o.t)
    ensures forall t | Stands(data, reftab, reflen, idx, t) :: o == Parsed(t) || (o == OutOfFuel && fuel < Count(t))
    ensures o == Undefined ==> exists i :: 0 <= i < |reftab| && IsWild(data, reftab[i])
    decreases fuel, 0
  {
    hide Stands, IsWild, Count;
    Answer(reftab, idx, data, reflen, fuel);
    if fuel == 0 {
      return OutOfFuel;
    }
    if idx >= |reftab| {
      return Failed;
    }
    var head := ReadHead(data, reftab[idx]);
    if head.None? {
      return Failed;
    }
    var h := head.value;
    if h.kind == 0xa0 {
      o := ReadArray(reftab, data, reflen, h, fuel - 1);
    } else if h.kind == 0xd0 {
      o := ReadDict(reftab, data, reflen, h, fuel - 1);
    } else {
      o := ReadLeaf(reftab, data, reflen, h, fuel - 1);
    }
    assert o == ParseOpened(reftab, data, reflen, h, fuel - 1);
  }

  lemma Answer(reftab: seq<nat>, idx: nat, data: seq<byte>, reflen: nat, fuel: nat)
    ensures var o := Parse(reftab, idx, data, reflen, fuel);
      && (o.Parsed? ==> Stands(data, reftab, reflen, idx, o.t))
      && (forall t | Stands(data, reftab, reflen, idx, t) :: o == Parsed(t) || (o == OutOfFuel && fuel < Count(t)))
      && (o == Undefined ==> exists i :: 0 <= i < |reftab| && IsWild(data, reftab[i]))
  {
    hide Parse, Stands, IsWild, Count;
    Exact(data, reftab, reflen, idx, fuel);
    if forall i | 0 <= i < |reftab| :: !IsWild(data, reftab[i]) {
      DefinedUnlessWild(data, reftab, reflen, idx, fuel);
    }
  }

  method ReadLeaf(ghost reftab: seq<nat>, data: seq<byte>, ghost reflen: nat, h: Opening,
      ghost fuel: nat) returns (o: Outcome)
    requires h.next <= |data| && h.kind != 0xa0 && h.kind != 0xd0
    ensures o == ParseOpened(reftab, data, reflen, h, fuel)
  {
    match h.kind {
      case 0x00 => o := Parsed(Primitive(h.low));
      case 0x10 => o := ParseInt(data, h);
      case 0x20 => o := ParseReal(data, h);
      case 0x30 => o := ParseBytes(data, h);
      case 0x40 => o := ParseBytes(data, h);
      case 0x50 => o := ParseBytes(data, h);
      case 0x60 => o := ParseBytes(data, h);
      case _ => o := Failed;
    }
  }

  method ReadArray(reftab: seq<nat>, data: seq<byte>, reflen: nat, h: Opening, fuel: nat) returns (o: Outcome)
    requires h.next <= |data|
    ensures o == ParseArray(reftab, data, reflen, h, fuel)
    decreases fuel, 3
  {
    if (h.next + h.length * reflen) % TWO64 > |data| {
      return Failed;
    }
    var values, at, verdict := ReadChildren(reftab, data, reflen, h.next, h.length, false, fuel);
    match verdict {
      case Complete => o := Parsed(Array(values));
      case Broken => o := Failed;
      case Fatal(f) => o := f;
    }
  }

  method ReadDict(reftab: seq<nat>, data: seq<byte>, reflen: nat, h: Opening, fuel: nat) returns (o: Outcome)
    requires h.next <= |data|
    ensures o == ParseDict(reftab, data, reflen, h, fuel)
    decreases fuel, 3
  {
    if (h.next + 2 * h.length * reflen) % TWO64 > |data| {
      return Failed;
    }
    var keys, at, verdict := ReadChildren(reftab, data, reflen, h.next, h.length, true, fuel);
    if verdict.Fatal? {
      return verdict.o;
    }
    var values, end, valueVerdict := ReadChildren(reftab, data, reflen, at, h.length, false, fuel);
    if valueVerdict.Fatal? {
      return valueVerdict.o;
    }
    if verdict.Broken? || valueVerdict.Broken? {
      return Failed;
    }
    o := Parsed(Dict(Pairs(keys, values)));
  }

  /** `plist_object_from_bplist`: the offset table is filled in a loop. */
  method ReadBplist(data: seq<byte>, fuel: nat) returns (o: Outcome)
    ensures o == FromBplist(data, fuel)
    ensures o.Parsed? ==> FileStands(data, o.t)
    ensures forall t | FileStands(data, t) :: o == Parsed(t) || (o == OutOfFuel && fuel < Count(t))
  {
    hide FileStands, Count, Parse, Stands, IsWild;
    FileExact(data, fuel);
    if |data| < 32 {
      return Failed;
    }
    var trailer := data[|data| - 32..];
    var offlen, reflen := trailer[6] as nat, trailer[7] as nat;
    var objects, root, at := Signed(BE(trailer[8..16])), Signed(BE(trailer[16..24])), Signed(BE(trailer[24..32]));
    if objects <= 0 || root < 0 || root >= objects || at < 8 {
      return Failed;
    }
    if at + objects * offlen >= TWO63 {
      return Undefined;
    }
    if at + objects * offlen > |data| {
      return Failed;
    }
    if objects >= 0x8000_0000 {
      return Undefined;
    }
    var reftab := new nat[objects](_ => 0);
    FillTable(reftab, data, at, offlen);
    o := ReadObject(reftab[..], root, data, reflen, fuel);
  }

  /** The loop over the offset table. */
  method FillTable(reftab: array<nat>, data: seq<byte>, at: nat, offlen: nat)
    requires at + reftab.Length * offlen <= |data| && forall i | 0 <= i < reftab.Length :: reftab[i] == 0
    modifies reftab
    ensures reftab[..] == ReadTable(data, at, reftab.Length, offlen)
  {
    for i := 0 to reftab.Length
      invariant at + i * offlen <= |data| && reftab[..i] == ReadTable(data, at, i, offlen)
      invariant forall j | i <= j < reftab.Length :: reftab[j] == 0
    {
      SlotsFit(i, reftab.Length, offlen);
      if offlen == 1 || offlen == 2 || offlen == 4 || offlen == 8 {
        reftab[i] := BE(data[at + i * offlen..at + i * offlen + offlen]);
      }
      assert reftab[..i + 1] == reftab[..i] + [reftab[i]];
    }
    assert reftab[..reftab.Length] == reftab[..];
  }
}
