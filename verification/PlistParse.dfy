/** What the plist reader (src/utils/plist.cpp) answers: every branch on every input, well formed or not. */
module PlistParse {
  import opened BigEndianBytes
  import opened Bitwise
  import opened MachineInts
  import opened PlistLayout
  import opened Wrappers

  /** A tree; the null pointer; behaviour that C++ leaves undefined, or that is not part of this
      model; or recursion deeper than the fuel, which stands for the call stack. */
  datatype Outcome = Parsed(t: Plist) | Failed | Undefined | OutOfFuel

  const TWO63: int := 0x8000_0000_0000_0000

  function Signed(n: nat): int
  {
    if n >= TWO63 then n - TWO64 else n
  }

  /** `parse_integer`: one, two and four bytes are unsigned. */
  function ParseInteger(data: seq<byte>, i: nat, k: nat): (r: Option<int>)
    requires i + k <= |data|
  {
    if k == 1 || k == 2 || k == 4 then Some(BE(data[i..i + k]))
    else if k == 8 then Some(Signed(BE(data[i..i + 8])))
    else None
  }

  // ---- Heads ----

  /** The two halves of the type byte, the length, and where the rest of the object starts. */
  datatype Opening = Opening(kind: byte, low: byte, length: nat, next: nat)

  function ReadHead(data: seq<byte>, at: nat): (r: Option<Opening>)
    ensures r.Some? ==> r.value.length < TWO63 && at < r.value.next <= |data|
  {
    if at >= |data| then None
    else
      var kind, low := data[at] - data[at] % 16, data[at] % 16;
      if low < 15 then Some(Opening(kind, low, low as nat, at + 1))
      else if at + 1 >= |data| then None
      else if data[at + 1] / 16 != 1 then None
      else
        var k := Pow2((data[at + 1] % 16) as nat) % 0x100;
        if at + 2 + k > |data| then None
        else
          var n := ParseInteger(data, at + 2, k);
          if n.None? || n.value < 0 || n.value >= TWO63 then None else Some(Opening(kind, low, n.value, at + 2 + k))
  }

  /** The bytes before the first NUL. */
  function CString(s: seq<byte>): (c: seq<byte>)
  {
    if s == [] || s[0] == 0 then [] else [s[0]] + CString(s[1..])
  }

  function Reversed(s: seq<byte>): (r: seq<byte>)
    ensures |r| == |s|
  {
    if s == [] then [] else Reversed(s[1..]) + [s[0]]
  }

  // ---- Leaves ----

  function ParseInt(data: seq<byte>, h: Opening): Outcome
    requires h.next <= |data|
  {
    if h.length >= 64 then Undefined // the shift count is too large
    else if h.next + Pow2(h.length) > |data| then Failed
    else if h.length >= 31 then Undefined // 1 << 31 in an int
    else
      var k := Pow2(h.length) % 0x100;
      if h.next + k > |data| then Failed
      else
        var v := ParseInteger(data, h.next, k);
        if v.None? || v.value >= TWO63 || v.value < -TWO63 then Failed else Parsed(Integer(v.value as int64))
  }

  /** Eight bytes come out in reverse on a little-endian machine. */
  function ParseReal(data: seq<byte>, h: Opening): Outcome
    requires h.next <= |data|
  {
    if h.length >= 64 then Undefined
    else if h.next + Pow2(h.length) > |data| then Failed
    else if Pow2(h.length) == 4 then Undefined // widening a float is not part of this model
    else if h.next + 8 > |data| then Undefined // reads past the end
    else Parsed(Real(Reversed(data[h.next..h.next + 8])))
  }

  function ParseBytes(data: seq<byte>, h: Opening): Outcome
    requires h.next <= |data|
  {
    if h.kind == 0x30 then
      if h.next + 8 > |data| then Failed else Parsed(Date(data[h.next..h.next + 8]))
    else if h.next + h.length > |data| then Failed
    else
      var b := data[h.next..h.next + h.length];
      if h.kind == 0x40 then Parsed(Data(b)) else if h.kind
          == 0x50 then Parsed(Str(CString(b))) else Parsed(Unicode(CString(b)))
  }

  // ---- Objects ----

  datatype Verdict = Complete | Broken | Fatal(o: Outcome)

  /** What a loop over references leaves: the children so far, and where it stands. */
  datatype Children = Children(done: seq<Plist>, at: nat, verdict: Verdict)

  /** `bplist_parse_object`. */
  function Parse(reftab: seq<nat>, idx: nat, data: seq<byte>, reflen: nat, fuel: nat): Outcome
    decreases fuel, 0, 0
  {
    if fuel == 0 then OutOfFuel
    else if idx >= |reftab| then Failed
    else
      var head := ReadHead(data, reftab[idx]);
      if head.None? then Failed else ParseOpened(reftab, data, reflen, head.value, fuel - 1)
  }

  function ParseOpened(reftab: seq<nat>, data: seq<byte>, reflen: nat, h: Opening, fuel: nat): Outcome
    requires h.next <= |data|
    decreases fuel, 2, 0
  {
    if h.kind == 0x00 then Parsed(Primitive(h.low))
    else if h.kind == 0x10 then ParseInt(data, h)
    else if h.kind == 0x20 then ParseReal(data, h)
    else if h.kind == 0x30 || h.kind == 0x40 || h.kind == 0x50 || h.kind == 0x60 then ParseBytes(data, h)
    else if h.kind == 0xa0 then ParseArray(reftab, data, reflen, h, fuel)
    else if h.kind == 0xd0 then ParseDict(reftab, data, reflen, h, fuel)
    else Failed
  }

  /** The size check is made in 64 bits. */
  function ParseArray(reftab: seq<nat>, data: seq<byte>, reflen: nat, h: Opening, fuel: nat): Outcome
    requires h.next <= |data|
    decreases fuel, 1, h.length + 1
  {
    if (h.next + h.length * reflen) % TWO64 > |data| then Failed
    else
      var c := ParseChildren(reftab, data, reflen, h.next, h.length, false, fuel);
      match c.verdict
      case Complete => Parsed(Array(c.done))
      case Broken => Failed
      case Fatal(o) => o
  }

  /** When the loop over the keys breaks off, the loop over the values runs all the same. */
  function ParseDict(reftab: seq<nat>, data: seq<byte>, reflen: nat, h: Opening, fuel: nat): Outcome
    requires h.next <= |data|
    decreases fuel, 1, h.length + 1
  {
    if (h.next + 2 * h.length * reflen) % TWO64 > |data| then Failed
    else
      var k := ParseChildren(reftab, data, reflen, h.next, h.length, true, fuel);
      if k.verdict.Fatal? then k.verdict.o
      else
        var v := ParseChildren(reftab, data, reflen, k.at, h.length, false, fuel);
        if v.verdict.Fatal? then v.verdict.o
        else if k.verdict.Broken? || v.verdict.Broken? then Failed
        else Parsed(Dict(Pairs(k.done, v.done)))
  }

  function Pairs(keys: seq<Plist>, values: seq<Plist>): (e: seq<Entry>)
  {
    if keys == [] || values == [] then []
    else [Entry(if keys[0].Str? then keys[0].chars else [], values[0])] + Pairs(keys[1..], values[1..])
  }

  /** A loop over n references from `at` on; keys have to be strings. */
  function ParseChildren(reftab: seq<nat>, data: seq<byte>, reflen: nat, at: nat, n: nat, keys: bool,
      fuel: nat): (c: Children)
    ensures c.verdict.Fatal? ==> c.verdict.o == Undefined || c.verdict.o == OutOfFuel
    decreases fuel, 1, n
  {
    if n == 0 then Children([], at, Complete)
    else if at + reflen > |data| then Children([], at, Broken)
    else
      var idx := ParseInteger(data, at, reflen);
      if idx.None? then Children([], at, Broken)
      else if idx.value < 0 then Children([], if keys then at + reflen else at, Broken)
      else
        var o := Parse(reftab, idx.value, data, reflen, fuel);
        match o
        case Failed => Children([], at + reflen, Broken)
        case Undefined => Children([], at + reflen, Fatal(o))
        case OutOfFuel => Children([], at + reflen, Fatal(o))
        case Parsed(t) =>
          if keys && !t.Str? then Children([], at + reflen, Broken)
          else
            var rest := ParseChildren(reftab, data, reflen, at + reflen, n - 1, keys, fuel);
            Children([t] + rest.done, rest.at, rest.verdict)
  }

  // ---- The whole file ----

  /** The offsets, as unsigned 64-bit numbers. Widths that no integer has leave zeros. */
  function ReadTable(data: seq<byte>, at: nat, n: nat, k: nat): (o: seq<nat>)
    requires at + n * k <= |data|
    ensures |o| == n
  {
    if n == 0 then []
    else
      assert n * k == (n - 1) * k + k;
      ReadTable(data, at, n - 1, k) + [TableEntry(data, at + (n - 1) * k, k)]
  }

  function TableEntry(data: seq<byte>, i: nat, k: nat): nat
    requires i + k <= |data|
  {
    if k == 1 || k == 2 || k == 4 || k == 8 then BE(data[i..i + k]) else 0
  }

  /** `plist_object_from_bplist`. */
  function FromBplist(data: seq<byte>, fuel: nat): Outcome
  {
    if |data| < 32 then Failed
    else
      var trailer := data[|data| - 32..];
      var offlen, reflen := trailer[6] as nat, trailer[7] as nat;
      var objects, root, at := Signed(BE(trailer[8..16])), Signed(BE(trailer[16..24])), Signed(BE(trailer[24..32]));
      if objects <= 0 then Failed
      else if root < 0 || root >= objects then Failed
      else if at < 8 then Failed
      else if at + objects * offlen >= TWO63 then Undefined // signed overflow
      else if at + objects * offlen > |data| then Failed
      else if objects >= 0x8000_0000 then Undefined // the int loop counter overflows
      else Parse(ReadTable(data, at, objects, offlen), root, data, reflen, fuel)
  }

  // ---- The bound on the depth ----

  /** An outcome that did not run out of fuel is the outcome for any larger bound: the bound only tells
      where the source would exhaust its stack. */
  lemma {:induction false} MoreFuel(reftab: seq<nat>, idx: nat, data: seq<byte>, reflen: nat, f: nat, g: nat)
    requires f <= g && Parse(reftab, idx, data, reflen, f) != OutOfFuel
    ensures Parse(reftab, idx, data, reflen, g) == Parse(reftab, idx, data, reflen, f)
    decreases f, 0, 0
  {
    if idx < |reftab| {
      var head := ReadHead(data, reftab[idx]);
      if head.Some? {
        OpenedMoreFuel(reftab, data, reflen, head.value, f - 1, g - 1);
      }
    }
  }

  lemma {:induction false} OpenedMoreFuel(reftab: seq<nat>, data: seq<byte>, reflen: nat, h: Opening, f: nat, g: nat)
    requires h.next <= |data| && f <= g && ParseOpened(reftab, data, reflen, h, f) != OutOfFuel
    ensures ParseOpened(reftab, data, reflen, h, g) == ParseOpened(reftab, data, reflen, h, f)
    decreases f, 2, 0
  {
    hide ParseChildren;
    if h.kind == 0xa0 && (h.next + h.length * reflen) % TWO64 <= |data| {
      ChildrenMoreFuel(reftab, data, reflen, h.next, h.length, false, f, g);
    } else if h.kind == 0xd0 && (h.next + 2 * h.length * reflen) % TWO64 <= |data| {
      ChildrenMoreFuel(reftab, data, reflen, h.next, h.length, true, f, g);
      var k := ParseChildren(reftab, data, reflen, h.next, h.length, true, f);
      if !k.verdict.Fatal? {
        ChildrenMoreFuel(reftab, data, reflen, k.at, h.length, false, f, g);
      }
    }
  }

  lemma {:induction false} ChildrenMoreFuel(reftab: seq<nat>, data: seq<byte>, reflen: nat, at: nat, n: nat,
      keys: bool, f: nat, g: nat)
    requires f <= g && ParseChildren(reftab, data, reflen, at, n, keys, f).verdict != Fatal(OutOfFuel)
    ensures ParseChildren(reftab, data, reflen, at, n, keys, g) == ParseChildren(reftab, data, reflen, at, n, keys, f)
    decreases f, 1, n
  {
    if n > 0 && at + reflen <= |data| {
      var idx := ParseInteger(data, at, reflen);
      if idx.Some? && idx.value >= 0 {
        hide Parse;
        MoreFuel(reftab, idx.value, data, reflen, f, g);
        var o := Parse(reftab, idx.value, data, reflen, f);
        if o.Parsed? && (!keys || o.t.Str?) {
          ChildrenMoreFuel(reftab, data, reflen, at + reflen, n - 1, keys, f, g);
        }
      }
    }
  }
}
