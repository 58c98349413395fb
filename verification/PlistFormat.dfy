/** The binary property list format, byte by byte: which tree stands where. Nothing here follows the order in
    which the reader goes through a file; objects may lie anywhere and may be shared. */
module PlistFormat {
  import opened BigEndianBytes
  import opened Bitwise
  import opened MachineInts
  import opened PlistLayout

  /** The object that starts at `at` says n, and its payload starts at `next`: n is the lower half of the type
      byte, or, when that is 15, an integer object behind it. */
  ghost predicate LengthIs(data: seq<byte>, at: nat, n: nat, next: nat)
  {
    at < |data| &&
    if data[at] % 16 < 15 then n == data[at] as nat % 16 && next == at + 1
    else
      && at + 1 < |data| && data[at + 1] in {0x10, 0x11, 0x12, 0x13}
      && next == at + 2 + Width(data[at + 1] - 0x10) <= |data|
      && n == BE(data[at + 2..next]) < 0x8000_0000_0000_0000
  }

  function Width(code: byte): (k: nat)
  {
    if code == 0 then 1 else if code == 1 then 2 else if code == 2 then 4 else 8
  }

  /** The integer object of 2^n bytes: one, two and four bytes are unsigned, eight are two's complement. */
  ghost predicate IntegerIs(data: seq<byte>, n: nat, next: nat, v: int64)
  {
    && n <= 3 && next + Width(n as byte) <= |data|
    && var u := BE(data[next..next + Width(n as byte)]);
      v as int == if n == 3 && u >= 0x8000_0000_0000_0000 then u - 0x1_0000_0000_0000_0000 else u
  }

  /** The double, which lies in the file with its most significant byte first. The source takes eight bytes for
      every width but four. */
  ghost predicate RealIs(data: seq<byte>, n: nat, next: nat, bits: seq<byte>)
  {
    && n < 64 && n != 2 && next + Pow2(n) <= |data| && next + 8 <= |data|
    && |bits| == 8 && forall i | 0 <= i < 8 :: bits[i] == data[next + 7 - i]
  }

  /** n bytes. */
  ghost predicate BytesAre(data: seq<byte>, n: nat, next: nat, b: seq<byte>)
  {
    next + n <= |data| && b == data[next..next + n]
  }

  /** n characters, of which those before the first NUL are the string. */
  ghost predicate CharsAre(data: seq<byte>, n: nat, next: nat, c: seq<byte>)
  {
    && next + n <= |data| && |c| <= n && c == data[next..next + |c|] && 0 !in c
    && (|c| < n ==> data[next + |c|] == 0)
  }

  /** Reference i of those that start at `next`: w bytes that name the object `id`. */
  ghost predicate RefersTo(data: seq<byte>, w: nat, next: nat, i: nat, id: nat)
  {
    && (w == 1 || w == 2 || w == 4 || w == 8) && next + i * w + w <= |data|
    && id == BE(data[next + i * w..next + i * w + w]) < 0x8000_0000_0000_0000
  }

  /** A string as a key: object `id` is an object of kind 5. */
  ghost predicate KeyStands(data: seq<byte>, table: seq<nat>, id: nat, key: seq<byte>)
  {
    id < |table| && exists n, next :: LengthIs(data, table[id], n, next) && StrIs(data, table[id], n, next, key)
  }

  ghost predicate StrIs(data: seq<byte>, at: nat, n: nat, next: nat, chars: seq<byte>)
  {
    at < |data| && data[at] / 16 == 5 && CharsAre(data, n, next, chars)
  }

  /** The tree t stands where entry `id` of the offset table points. References take w bytes. */
  ghost predicate Stands(data: seq<byte>, table: seq<nat>, w: nat, id: nat, t: Plist)
    decreases t, 1
  {
    id < |table| &&
    exists n, next :: LengthIs(data, table[id], n, next) && StandsAt(data, table, w, table[id], n, next, t)
  }

  ghost predicate StandsAt(data: seq<byte>, table: seq<nat>, w: nat, at: nat, n: nat, next: nat, t: Plist)
    decreases t, 0
  {
    at < |data| &&
    match t
    case Null => false
    case Primitive(v) => data[at] / 16 == 0 && v == data[at] % 16
    case Integer(v) => data[at] / 16 == 1 && IntegerIs(data, n, next, v)
    case Real(bits) => data[at] / 16 == 2 && RealIs(data, n, next, bits)
    case Date(b) => data[at] / 16 == 3 && BytesAre(data, 8, next, b)
    case Data(b) => data[at] / 16 == 4 && BytesAre(data, n, next, b)
    case Str(c) => StrIs(data, at, n, next, c)
    case Unicode(c) => data[at] / 16 == 6 && CharsAre(data, n, next, c)
    case Array(items) =>
      && data[at] / 16 == 10 && |items| == n
      && forall i | 0 <= i < n :: ItemStands(data, table, w, next, i, items[i])
    case Dict(entries) =>
      && data[at] / 16 == 13 && |entries| == n
      && (forall i | 0 <= i < n :: KeyAt(data, table, w, next, i, entries[i].key))
      && (forall i | 0 <= i < n :: ItemStands(data, table, w, next + n * w, i, entries[i].value))
  }

  /** Reference i names an object where t stands. */
  ghost predicate ItemStands(data: seq<byte>, table: seq<nat>, w: nat, next: nat, i: nat, t: Plist)
    decreases t, 2
  {
    exists id :: RefersTo(data, w, next, i, id) && Stands(data, table, w, id, t)
  }

  ghost predicate KeyAt(data: seq<byte>, table: seq<nat>, w: nat, next: nat, i: nat, key: seq<byte>)
  {
    exists id :: RefersTo(data, w, next, i, id) && KeyStands(data, table, id, key)
  }

  /** A number whose width the C++ code shifts or reads out of bounds for, or a four-byte real. */
  ghost predicate IsWild(data: seq<byte>, at: nat)
  {
    exists n, next :: LengthIs(data, at, n, next) && WildAt(data, at, n, next)
  }

  ghost predicate WildAt(data: seq<byte>, at: nat, n: nat, next: nat)
  {
    at < |data| && (
    || (data[at] / 16 == 1 && (n >= 64 || (n >= 31 && next + Pow2(n) <= |data|)))
    || (data[at] / 16 == 2 && (n >= 64 || (next + Pow2(n) <= |data| && (n == 2 || next + 8 > |data|)))))
  }

  /** Object i is an array or a dictionary with a reference to object j. */
  ghost predicate Refers(data: seq<byte>, table: seq<nat>, w: nat, i: nat, j: nat)
  {
    i < |table| && table[i] < |data| &&
    exists n: nat, next: nat, k: nat ::
      && LengthIs(data, table[i], n, next) && RefersTo(data, w, next, k, j)
      && ((data[table[i]] / 16 == 10 && k < n) || (data[table[i]] / 16 == 13 && k < 2 * n))
  }

  /** No object contains itself: every reference leads to an object of lower rank. */
  ghost predicate Ranked(data: seq<byte>, table: seq<nat>, w: nat, rank: seq<nat>)
  {
    && |rank| == |table|
    && forall i, j | 0 <= i < |table| && 0 <= j < |table| && Refers(data, table, w, i, j) :: rank[j] < rank[i]
  }

  // ---- Files ----

  /** The offset table: k bytes each. Widths that no integer has leave zeros. */
  ghost predicate IsTable(data: seq<byte>, at: nat, k: nat, table: seq<nat>)
  {
    at + |table| * k <= |data| &&
    forall i | 0 <= i < |table| :: table[i] == Offset(data, at + i * k, k)
  }

  ghost function Offset(data: seq<byte>, at: nat, k: nat): nat
  {
    if (k == 1 || k == 2 || k == 4 || k == 8) && at + k <= |data| then BE(data[at..at + k]) else 0
  }

  /** The last 32 bytes: the widths of offsets and references, the number of objects, the root, and where the
      offset table is. */
  ghost predicate FileStands(data: seq<byte>, t: Plist)
  {
    |data| >= 32 &&
    exists table, root :: FileIs(data, table, root) && Stands(data, table, data[|data| - 25] as nat, root, t)
  }

  ghost predicate FileIs(data: seq<byte>, table: seq<nat>, root: nat)
  {
    && |data| >= 32
    && |table| == BE(data[|data| - 24..|data| - 16])
    && root == BE(data[|data| - 16..|data| - 8]) < |table|
    && var at := BE(data[|data| - 8..]);
      && 8 <= at
      && at + |table| * data[|data| - 26] as nat < 0x8000_0000_0000_0000
      && |table| < 0x8000_0000
      && IsTable(data, at, data[|data| - 26] as nat, table)
  }
}
