/** Buffered SHA-512 (third-party/ed25519/sha512.c:145-277): hashing in pieces is hashing the
    concatenation, padded as in section 5.1.2 of FIPS 180-4. */
module Sha512Stream {
  import opened BigEndianBytes
  import opened LittleEndian
  import opened MachineInts
  import opened Sha512Block

  // ---- The standard ----

  /** The number of zero bytes between the one bit and the length. */
  ghost function ZeroCount(n: nat): (z: nat)
    ensures (n + 1 + z) % 128 == 112 && z < 128
  {
    (239 - n % 128) % 128
  }

  lemma WholeBlock(n: nat)
    requires n % 128 == 112
    ensures (n + 16) % 128 == 0
  {
  }

  /** The padded message of section 5.1.2. */
  ghost function Padded(m: seq<byte>): (r: seq<byte>)
    ensures |r| % 128 == 0
  {
    WholeBlock(|m| + 1 + ZeroCount(|m|));
    m + [0x80] + Zeros(ZeroCount(|m|)) + BigEndian(8 * |m|, 16)
  }

  /** What the source appends: it keeps the bit count in 64 bits. */
  ghost function PaddedMod64(m: seq<byte>): (r: seq<byte>)
    ensures |r| % 128 == 0
  {
    WholeBlock(|m| + 1 + ZeroCount(|m|));
    m + [0x80] + Zeros(ZeroCount(|m|) + 8) + BigEndian(8 * |m| % TWO64, 8)
  }

  const TWO64: int := 0x1_0000_0000_0000_0000

  /** Below 2^64 bits the source pads as the standard does. */
  lemma PaddingIsStandard(m: seq<byte>)
    requires 8 * |m| < TWO64
    ensures PaddedMod64(m) == Padded(m)
  {
    assert Pow256(8) == TWO64 by {
      assert Pow256(2) == 0x1_0000 && Pow256(4) == 0x1_0000 * Pow256(2);
      assert Pow256(6) == 0x1_0000 * Pow256(4);
    }
    BigEndianSmall(8 * |m|, 8, 8);
    assert 8 * |m| % TWO64 == 8 * |m|;
    assert Zeros(ZeroCount(|m|) + 8) == Zeros(ZeroCount(|m|)) + Zeros(8);
  }

  /** The hash value after absorbing the whole blocks of a string. */
  ghost function Absorb<W>(ops: Words<W>, iv: seq<W>, d: seq<byte>): (s: seq<W>)
    requires |iv| == 8
    ensures |s| == 8
  {
    if |d| < 128 then iv else ops.NextHash(Absorb(ops, iv, d[..|d| - 128]), d[|d| - 128..])
  }

  lemma AbsorbBlock<W>(ops: Words<W>, iv: seq<W>, d: seq<byte>, b: seq<byte>)
    requires |iv| == 8 && |b| == 128
    ensures Absorb(ops, iv, d + b) == ops.NextHash(Absorb(ops, iv, d), b)
  {
    assert (d + b)[..|d|] == d && (d + b)[|d|..] == b;
  }

  ghost function Output<W>(ops: Words<W>, s: seq<W>): seq<byte>
  {
    if s == [] then [] else Output(ops, s[..|s| - 1]) + ops.Store(s[|s| - 1])
  }

  /** Operations that agree absorb and write alike. */
  lemma {:induction false} SameAbsorb<W(!new)>(v: Words<W>, w: Words<W>, iv: seq<W>, d: seq<byte>)
    requires Agree(v, w) && |iv| == 8
    ensures Absorb(v, iv, d) == Absorb(w, iv, d)
  {
    hide Agree;
    if |d| >= 128 {
      SameAbsorb(v, w, iv, d[..|d| - 128]);
      SameHash(v, w, Absorb(v, iv, d[..|d| - 128]), d[|d| - 128..]);
    }
  }

  lemma {:induction false} SameOutput<W(!new)>(v: Words<W>, w: Words<W>, s: seq<W>)
    requires Agree(v, w)
    ensures Output(v, s) == Output(w, s)
  {
    if s != [] {
      SameOutput(v, w, s[..|s| - 1]);
      assert v.store(s[|s| - 1]) == w.store(s[|s| - 1]);
    }
  }

  /** The digest of a message. */
  ghost function Digest<W>(ops: Words<W>, iv: seq<W>, m: seq<byte>): seq<byte>
    requires |iv| == 8
  {
    Output(ops, Absorb(ops, iv, PaddedMod64(m)))
  }

  /** The last block: what is left, zeros, and the length. */
  ghost function Closing(left: seq<byte>, n: nat): seq<byte>
    requires |left| <= 120
  {
    left + Zeros(120 - |left|) + BigEndian(n, 8)
  }

  /** The padded message as the blocks the source compresses: one more, or two. */
  ghost function PaddedBlocks(w: seq<byte>, tail: seq<byte>, n: nat): seq<byte>
    requires |tail| < 128
  {
    var left := tail + [0x80];
    if |left| > 112 then (w + (left + Zeros(128 - |left|))) + Closing([], n) else w + Closing(left, n)
  }

  lemma PadShape(w: seq<byte>, tail: seq<byte>)
    requires |tail| < 128 && |w| % 128 == 0
    ensures PaddedMod64(w + tail) == PaddedBlocks(w, tail, 8 * |w + tail| % TWO64)
  {
    var m, l, one := w + tail, BigEndian(8 * |w + tail| % TWO64, 8), [0x80 as byte];
    ZeroCountOf(|m|, |tail|);
    var z := Zeros(ZeroCount(|m|) + 8);
    assert PaddedMod64(m) == m + one + z + l;
    if |tail| + 1 > 112 {
      var z0, z1 := Zeros(127 - |tail|), Zeros(120);
      assert z == z0 + z1;
      assert Closing([], 8 * |m| % TWO64) == z1 + l;
      Regroup2(w, tail, one, z0, z1, l);
    } else {
      Regroup1(w, tail, one, z, l);
    }
  }

  lemma ZeroCountOf(n: nat, c: nat)
    requires c < 128 && n >= c && (n - c) % 128 == 0
    ensures ZeroCount(n) == if c + 1 > 112 then 239 - c else 111 - c
  {
    assert n % 128 == c;
  }

  lemma Regroup1(a: seq<byte>, b: seq<byte>, c: seq<byte>, d: seq<byte>, e: seq<byte>)
    ensures (a + b) + c + d + e == a + (b + c + d + e)
  {}

  lemma Regroup2(a: seq<byte>, b: seq<byte>, c: seq<byte>, d: seq<byte>, e: seq<byte>, f: seq<byte>)
    ensures (a + b) + c + (d + e) + f == a + (b + c + d) + (e + f)
  {}

  lemma LastCount(n: nat, l: nat, k: nat)
    requires l < TWO64 && n == l + k * TWO64
    ensures l == n % TWO64
  {}

  lemma WholeBlocks(n: nat, k: nat)
    requires n == 128 * k
    ensures n % 128 == 0
  {}

  lemma Split(d: seq<byte>, input: seq<byte>, n: nat)
    requires n <= |input|
    ensures (d + input[..n]) + input[n..] == d + input
  {}

  // ---- The implementation ----

  class Context<W> {
    const ops: Words<W>
    const iv: seq<W>
    var length: nat
    var curlen: nat
    var state: array<W>
    var buf: array<byte>
    /** The input compressed so far, and how many blocks that was. */
    ghost var whole: seq<byte>
    ghost var blocks: nat
    /** How often the 64-bit count has wrapped around. */
    ghost var wraps: nat

    ghost predicate Valid()
      reads this, state, buf
    {
      Filled() && curlen < 128
    }

    /** `Valid`, but the buffer may be full. */
    ghost predicate Filled()
      reads this, state, buf
    {
      && state.Length == 8 && buf.Length == 128 && curlen <= 128
      && Absorbed()
    }

    /** The state and the count are those of `whole`. */
    ghost predicate Absorbed()
      reads this, state
    {
      && |iv| == 8 && |whole| == 128 * blocks
      && state[..] == Absorb(ops, iv, whole)
      && length < TWO64 && 8 * |whole| == length + wraps * TWO64
    }

    /** Everything hashed so far. */
    ghost function Data(): seq<byte>
      requires Filled()
      reads this, state, buf
    {
      whole + buf[..curlen]
    }

    /** `sha512_init`. */
    constructor (ops: Words<W>, iv: seq<W>)
      requires |iv| == 8
      ensures Valid() && fresh(state) && fresh(buf)
      ensures this.ops == ops && this.iv == iv && Data() == []
    {
      this.ops, this.iv := ops, iv;
      length, curlen, wraps, blocks := 0, 0, 0, 0;
      state := new W[8](i requires 0 <= i < 8 => iv[i]);
      buf := new byte[128](_ => 0);
      whole := [];
      new;
      assert state[..] == iv;
    }

    /** Compress a block, counting its bits. */
    method Block(b: seq<byte>)
      requires state.Length == 8 && |b| == 128 && Absorbed()
      modifies this`length, this`wraps, this`whole, this`blocks, state
      ensures Absorbed() && whole == old(whole) + b
    {
      hide Absorb;
      AbsorbBlock(ops, iv, whole, b);
      ops.Compress(state, b);
      Count(1024);
      whole, blocks := whole + b, blocks + 1;
    }

    /** `md->length += n` in 64 bits. */
    method Count(n: nat)
      requires length < TWO64
      modifies this`length, this`wraps
      ensures length < TWO64 && length + wraps * TWO64 == old(length + wraps * TWO64) + n
    {
      wraps := wraps + (length + n) / TWO64;
      length := (length + n) % TWO64;
    }

    /** `sha512_update`. */
    method Update(input: seq<byte>)
      requires Valid()
      modifies this, state, buf
      ensures Valid() && state == old(state) && buf == old(buf)
      ensures Data() == old(Data()) + input
    {
      hide Absorb;
      var rest := input;
      while |rest| > 0
        invariant Valid() && state == old(state) && buf == old(buf)
        invariant Data() + rest == old(Data()) + input
        decreases |rest|
      {
        rest := Take(rest);
      }
    }

    /** One iteration of `sha512_update`: a prefix of the input is consumed. */
    method Take(input: seq<byte>) returns (rest: seq<byte>)
      requires Valid() && |input| > 0
      modifies this, state, buf
      ensures Valid() && state == old(state) && buf == old(buf)
      ensures |rest| < |input| && Data() + rest == old(Data()) + input
    {
      hide Absorb;
      var n := if |input| < 128 - curlen then |input| else 128 - curlen;
      Split(Data(), input, n);
      rest := input[n..];
      if curlen == 0 && |input| >= 128 {
        Whole(input[..128]);
      } else {
        Fill(input[..n]);
      }
    }

    /** The whole-block branch. */
    method Whole(piece: seq<byte>)
      requires Valid() && curlen == 0 && |piece| == 128
      modifies this, state, buf
      ensures Valid() && state == old(state) && buf == old(buf)
      ensures Data() == old(Data()) + piece
    {
      hide Absorb;
      Block(piece);
    }

    /** The partial-block branch. */
    method Fill(piece: seq<byte>)
      requires Valid() && curlen + |piece| <= 128
      modifies this, state, buf
      ensures Valid() && state == old(state) && buf == old(buf)
      ensures Data() == old(Data()) + piece
    {
      hide Absorb;
      CopyIn(piece);
      assert Data() == old(Data()) + piece;
      if curlen == 128 {
        assert buf[..128] == buf[..];
        Block(buf[..]);
        curlen := 0;
      }
    }

    /** The copy loop of `sha512_update`. */
    method CopyIn(piece: seq<byte>)
      requires Filled() && curlen + |piece| <= 128
      modifies this`curlen, buf
      ensures Filled() && curlen == old(curlen) + |piece|
      ensures buf[..curlen] == old(buf[..curlen]) + piece
    {
      for i := 0 to |piece|
        modifies buf
        invariant buf[..curlen + i] == old(buf[..curlen]) + piece[..i]
      {
        buf[curlen + i] := piece[i];
        assert buf[..curlen + i + 1] == buf[..curlen + i] + [piece[i]];
        assert piece[..i + 1] == piece[..i] + [piece[i]];
      }
      assert piece[..|piece|] == piece;
      curlen := curlen + |piece|;
    }

    /** `while (curlen < to) buf[curlen++] = 0`. */
    method ZeroFill(to: nat)
      requires buf.Length == 128 && curlen <= to <= 128
      modifies this`curlen, buf
      ensures curlen == to && buf[..to] == old(buf[..curlen]) + Zeros(to - old(curlen))
    {
      while curlen < to
        invariant old(curlen) <= curlen <= to
        invariant buf[..curlen] == old(buf[..curlen]) + Zeros(curlen - old(curlen))
      {
        buf[curlen] := 0;
        curlen := curlen + 1;
        assert buf[..curlen] == buf[..curlen - 1] + [0];
      }
    }

    /** Compress the buffer after the absorbed string w. */
    method CompressBuffer(ghost w: seq<byte>)
      requires state.Length == 8 && buf.Length == 128 && |iv| == 8 && state[..] == Absorb(ops, iv, w)
      modifies state
      ensures state[..] == Absorb(ops, iv, w + buf[..])
    {
      hide Absorb;
      AbsorbBlock(ops, iv, w, buf[..]);
      ops.Compress(state, buf[..]);
    }

    /** Write the one bit and the padding, compressing once or twice. */
    method Pad(ghost w: seq<byte>, ghost tail: seq<byte>)
      requires state.Length == 8 && buf.Length == 128 && |iv| == 8 && state[..] == Absorb(ops, iv, w)
      requires curlen < 128 && buf[..curlen] == tail
      modifies this`curlen, state, buf
      ensures state[..] == Absorb(ops, iv, PaddedBlocks(w, tail, length))
    {
      if curlen + 1 > 112 {
        PadTwice(w, tail);
      } else {
        PadOnce(w, tail);
      }
    }

    method PadOnce(ghost w: seq<byte>, ghost tail: seq<byte>)
      requires state.Length == 8 && buf.Length == 128 && |iv| == 8 && state[..] == Absorb(ops, iv, w)
      requires curlen < 128 && buf[..curlen] == tail
      requires curlen + 1 <= 112
      modifies this`curlen, state, buf
      ensures state[..] == Absorb(ops, iv, PaddedBlocks(w, tail, length))
    {
      hide Absorb, Closing;
      OneBit();
      LastBlock(w, tail + [0x80]);
    }

    method PadTwice(ghost w: seq<byte>, ghost tail: seq<byte>)
      requires state.Length == 8 && buf.Length == 128 && |iv| == 8 && state[..] == Absorb(ops, iv, w)
      requires curlen < 128 && buf[..curlen] == tail
      requires curlen + 1 > 112
      modifies this`curlen, state, buf
      ensures state[..] == Absorb(ops, iv, PaddedBlocks(w, tail, length))
    {
      hide Absorb, Closing, Zeros;
      OneBit();
      FullBlock(w, tail + [0x80]);
      LastBlock(w + (tail + [0x80] + Zeros(128 - |tail + [0x80]|)), []);
    }

    /** `buf[curlen++] = 0x80` */
    method OneBit()
      requires buf.Length == 128 && curlen < 128
      modifies this`curlen, buf
      ensures curlen == old(curlen) + 1 && buf[..curlen] == old(buf[..curlen]) + [0x80]
    {
      buf[curlen] := 0x80;
      curlen := curlen + 1;
      assert buf[..curlen] == buf[..curlen - 1] + [0x80];
    }

    /** No room for the length: zeros to the end of the block. */
    method FullBlock(ghost w: seq<byte>, ghost left: seq<byte>)
      requires state.Length == 8 && buf.Length == 128 && |iv| == 8 && state[..] == Absorb(ops, iv, w)
      requires curlen <= 128 && buf[..curlen] == left
      modifies this`curlen, state, buf
      ensures curlen == 0 && state[..] == Absorb(ops, iv, w + (left + Zeros(128 - |left|)))
    {
      hide Absorb, Zeros;
      ZeroFill(128);
      assert buf[..] == buf[..128];
      CompressBuffer(w);
      curlen := 0;
    }

    /** Fill the buffer up with zeros and the length, and compress it. */
    method LastBlock(ghost w: seq<byte>, ghost left: seq<byte>)
      requires state.Length == 8 && buf.Length == 128 && |iv| == 8 && state[..] == Absorb(ops, iv, w)
      requires curlen <= 112 && buf[..curlen] == left
      modifies this`curlen, state, buf
      ensures state[..] == Absorb(ops, iv, w + Closing(left, length))
    {
      hide Absorb, BigEndian, Zeros;
      ZeroFill(120);
      StoreLength(length);
      CompressBuffer(w);
    }

    /** STORE64H into the last eight bytes. */
    method StoreLength(n: nat)
      requires buf.Length == 128
      modifies buf
      ensures buf[..] == old(buf[..120]) + BigEndian(n, 8)
    {
      var b := BigEndian(n, 8);
      buf[120], buf[121], buf[122], buf[123] := b[0], b[1], b[2], b[3];
      buf[124], buf[125], buf[126], buf[127] := b[4], b[5], b[6], b[7];
    }

    /** `sha512_final`. */
    method Final() returns (out: seq<byte>)
      requires Valid()
      modifies this, state, buf
      ensures out == Digest(ops, iv, old(Data()))
    {
      ghost var w, tail := whole, buf[..curlen];
      AddTail(|w + tail|);
      WholeBlocks(|w|, blocks);
      PadShape(w, tail);
      Pad(w, tail);
      out := Collect(state[..]);
    }

    /** The count of a message that ends in the buffer. */
    method AddTail(ghost n: nat)
      requires Valid() && n == |whole| + curlen
      modifies this`length, this`wraps
      ensures length == 8 * n % TWO64
    {
      Count(8 * curlen);
      LastCount(8 * n, length, wraps);
    }

    /** The output loop. */
    method Collect(s: seq<W>) returns (out: seq<byte>)
      ensures out == Output(ops, s)
    {
      out := [];
      for i := 0 to |s|
        invariant out == Output(ops, s[..i])
      {
        out := out + ops.Store(s[i]);
        assert s[..i + 1][..i] == s[..i];
      }
      assert s[..|s|] == s;
    }
  }
}
