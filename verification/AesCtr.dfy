/** AES in counter mode (third-party/opensslaes/aes_ctr.c), over any block cipher; the
    definition is section 6.5 of NIST SP 800-38A. */
module AesCtr {
  import opened BigEndianBytes
  import opened Bitwise
  import opened LittleEndian
  import opened MachineInts

  /** A block cipher under one key. */
  datatype Cipher = Cipher(encrypt: seq<byte> -> seq<byte>, decrypt: seq<byte> -> seq<byte>)
  {
    /** On blocks of 16 bytes, decryption undoes encryption. */
    ghost predicate Valid()
    {
      forall b: seq<byte> :: Undoes(b)
    }

    ghost predicate Undoes(b: seq<byte>)
    {
      |b| == 16 ==> |encrypt(b)| == 16 && |decrypt(b)| == 16 && decrypt(encrypt(b)) == b
    }

    function Encrypt(b: seq<byte>): (r: seq<byte>)
      requires Valid() && |b| == 16
      ensures |r| == 16
    {
      assert Undoes(b);
      encrypt(b)
    }

    function Decrypt(b: seq<byte>): (r: seq<byte>)
      requires Valid() && |b| == 16
      ensures |r| == 16
    {
      assert Undoes(b);
      decrypt(b)
    }
  }

  const TWO32: int := 0x1_0000_0000
  const TWO128: int := 0x1_0000_0000_0000_0000_0000_0000_0000_0000

  // ---- The definition ----

  /** Counter block j after the initial counter iv. */
  ghost function CounterBlock(iv: nat, j: nat): (b: seq<byte>)
    ensures |b| == 16
  {
    BigEndian((iv + j) % TWO128, 16)
  }

  /** Byte i of the key stream. */
  ghost function KeyStream(c: Cipher, iv: nat, i: nat): byte
    requires c.Valid()
  {
    c.Encrypt(CounterBlock(iv, i / 16))[i % 16]
  }

  lemma KeyByte(c: Cipher, iv: nat, n: nat)
    requires c.Valid()
    ensures KeyStream(c, iv, n) == c.Encrypt(BigEndian((iv + n / 16) % TWO128, 16))[n % 16]
  {
    hide Cipher.Valid, Cipher.Encrypt, BigEndian;
  }

  /** The bytes d at position `pos` of the stream, encrypted or decrypted. */
  ghost function Xcrypted(c: Cipher, iv: nat, pos: nat, d: seq<byte>): (r: seq<byte>)
    requires c.Valid()
    ensures |r| == |d|
  {
    seq(|d|, i requires 0 <= i < |d| => Xor(d[i], KeyStream(c, iv, pos + i)))
  }

  /** A buffer may be processed in pieces. */
  lemma AnySplit(c: Cipher, iv: nat, pos: nat, a: seq<byte>, b: seq<byte>)
    requires c.Valid()
    ensures Xcrypted(c, iv, pos, a + b) == Xcrypted(c, iv, pos, a) + Xcrypted(c, iv, pos + |a|, b)
  {
    hide KeyStream, Xor;
  }

  /** Encrypting twice at the same position gives the data back. */
  lemma SelfInverse(c: Cipher, iv: nat, pos: nat, d: seq<byte>)
    requires c.Valid()
    ensures Xcrypted(c, iv, pos, Xcrypted(c, iv, pos, d)) == d
  {
    hide KeyStream, Xor;
    var e := Xcrypted(c, iv, pos, d);
    forall i | 0 <= i < |d|
      ensures Xcrypted(c, iv, pos, e)[i] == d[i]
    {
      XorTwice(d[i], KeyStream(c, iv, pos + i));
    }
  }

  // ---- The counter ----

  /** GETU32 */
  function GetU32(b: seq<byte>, i: nat): (v: nat)
    requires i + 4 <= |b|
  {
    BE(b[i..i + 4])
  }

  /** PUTU32 */
  method PutU32(b: array<byte>, i: nat, v: nat)
    requires i + 4 <= b.Length && v < TWO32
    modifies b
    ensures b[..i] == old(b[..i]) && b[i + 4..] == old(b[i + 4..]) && GetU32(b[..], i) == v
  {
    var q := BigEndian(v, 4);
    b[i], b[i + 1], b[i + 2], b[i + 3] := q[0], q[1], q[2], q[3];
    assert b[..][i..i + 4] == q;
    Pow256At4();
    BigEndianDecodes(v, 4);
  }

  lemma Pow256At4()
    ensures Pow256(4) == TWO32
  {
    assert Pow256(1) == 0x100;
    hide Pow256;
    Pow256Add(1, 1);
    Pow256Add(2, 2);
  }

  /** The number in a counter, by its four words. */
  ghost function Words(b: seq<byte>): int
    requires |b| == 16
  {
    GetU32(b, 0) * 0x1_0000_0000_0000_0000_0000_0000 + GetU32(b, 4) * 0x1_0000_0000_0000_0000
    + GetU32(b, 8) * 0x1_0000_0000 + GetU32(b, 12)
  }

  lemma FourWords(b: seq<byte>)
    requires |b| == 16
    ensures BE(b) == Words(b)
    ensures GetU32(b, 0) < TWO32 && GetU32(b, 4) < TWO32 && GetU32(b, 8) < TWO32 && GetU32(b, 12) < TWO32
  {
    hide BE, Pow256;
    var w0, w1, w2, w3 := b[0..4], b[4..8], b[8..12], b[12..16];
    assert b == w0 + w1 + w2 + w3;
    BEAppend(w0 + w1 + w2, w3);
    BEAppend(w0 + w1, w2);
    BEAppend(w0, w1);
    Pow256At4();
    BEBounded(w0);
    BEBounded(w1);
    BEBounded(w2);
    BEBounded(w3);
  }

  /** One word of the increment; `carry` says whether to go on to the next. */
  method IncrementWord(b: array<byte>, i: nat) returns (carry: bool)
    requires b.Length == 16 && (i == 0 || i == 4 || i == 8 || i == 12)
    modifies b
    ensures b[..i] == old(b[..i]) && b[i + 4..] == old(b[i + 4..])
    ensures GetU32(b[..], i) == old(GetU32(b[..], i)) + 1 - (if carry then TWO32 else 0)
    ensures carry ==> GetU32(b[..], i) == 0
  {
    hide BE, BigEndian, Words;
    FourWords(b[..]);
    var c := GetU32(b[..], i);
    c := (c + 1) % TWO32;
    PutU32(b, i, c);
    carry := c == 0;
  }

  /** `AES_ctr128_inc` adds one modulo 2^128. */
  method Increment(b: array<byte>)
    requires b.Length == 16
    modifies b
    ensures BE(b[..]) == (old(BE(b[..])) + 1) % TWO128
  {
    hide BE, BigEndian, GetU32;
    ghost var b0 := b[..];
    var carry := IncrementWord(b, 12);
    SameWords(b0, b[..], 12);
    if carry {
      ghost var b1 := b[..];
      carry := IncrementWord(b, 8);
      SameWords(b1, b[..], 8);
      if carry {
        ghost var b2 := b[..];
        carry := IncrementWord(b, 4);
        SameWords(b2, b[..], 4);
        if carry {
          ghost var b3 := b[..];
          carry := IncrementWord(b, 0);
          SameWords(b3, b[..], 0);
        }
      }
    }
    FourWords(b0);
    FourWords(b[..]);
  }

  /** The words outside i..i + 4 stay. */
  lemma SameWords(a: seq<byte>, b: seq<byte>, i: nat)
    requires |a| == |b| == 16 && (i == 0 || i == 4 || i == 8 || i == 12)
    requires a[..i] == b[..i] && a[i + 4..] == b[i + 4..]
    ensures i != 0 ==> GetU32(a, 0) == GetU32(b, 0)
    ensures i != 4 ==> GetU32(a, 4) == GetU32(b, 4)
    ensures i != 8 ==> GetU32(a, 8) == GetU32(b, 8)
    ensures i != 12 ==> GetU32(a, 12) == GetU32(b, 12)
  {
    hide BE;
    SameWord(a, b, i, 0);
    SameWord(a, b, i, 4);
    SameWord(a, b, i, 8);
    SameWord(a, b, i, 12);
  }

  lemma SameWord(a: seq<byte>, b: seq<byte>, i: nat, k: nat)
    requires |a| == |b| == 16 && i + 4 <= 16 && a[..i] == b[..i] && a[i + 4..] == b[i + 4..] && k + 4 <= 16
    ensures k + 4 <= i || i + 4 <= k ==> a[k..k + 4] == b[k..k + 4]
  {
    if k + 4 <= i || i + 4 <= k {
      forall j | k <= j < k + 4
        ensures a[j] == b[j]
      {
        if j < i {
          assert a[..i][j] == b[..i][j];
        } else {
          assert a[i + 4..][j - i - 4] == b[i + 4..][j - i - 4];
        }
      }
    }
  }

  // ---- The streaming state ----

  /** The counter, the encrypted counter and how much of it is used up, as `AES_ctr128_encrypt`
      keeps them between calls. */
  class Stream {
    const cipher: Cipher
    const ivec: array<byte>
    const ecount: array<byte>
    var num: nat
    /** The initial counter, and the position in the stream. */
    ghost const iv: nat
    ghost var pos: nat

    ghost predicate Valid()
      reads this, ivec, ecount
    {
      && cipher.Valid() && ivec.Length == ecount.Length == 16 && ivec != ecount
      && num == pos % 16 && CounterAt(ivec[..], iv, pos) && (num > 0 ==> ecount[..] == BlockAt(cipher, iv, pos))
    }

    /** `set_key_iv`: all zeros, then the key and the initial counter. */
    constructor (cipher: Cipher, start: seq<byte>)
      requires cipher.Valid() && |start| == 16
      ensures Valid() && fresh(ivec) && fresh(ecount)
      ensures this.cipher == cipher && iv == BE(start) && pos == 0
    {
      hide BE, CounterAt, BlockAt;
      this.cipher, num, iv, pos := cipher, 0, BE(start), 0;
      ivec := new byte[16](i requires 0 <= i < 16 => start[i]);
      ecount := new byte[16](_ => 0);
      new;
      assert ivec[..] == start;
      StartCounter(start);
    }

    /** At the start of a block, the counter is encrypted and incremented. */
    method Refill()
      requires Valid() && num == 0
      modifies ivec, ecount
      ensures CounterAt(ivec[..], iv, pos + 1) && ecount[..] == BlockAt(cipher, iv, pos)
    {
      hide BE, BigEndian, CounterBlock, Cipher.Valid, Cipher.Encrypt;
      ghost var v := BE(ivec[..]);
      NewBlock(iv, pos, ivec[..]);
      var e := cipher.Encrypt(ivec[..]);
      ghost var block := ivec[..];
      for i := 0 to 16
        modifies ecount
        invariant ivec[..] == block && ecount[..i] == e[..i]
      {
        ecount[i] := e[i];
      }
      assert ecount[..] == e;
      Increment(ivec);
      CounterStep(iv, pos, v);
    }

    /** The next byte of the key stream. */
    method NextByte() returns (k: byte)
      requires Valid()
      modifies this`num, this`pos, ivec, ecount
      ensures Valid() && pos == old(pos) + 1 && k == KeyStream(cipher, iv, old(pos))
    {
      hide CounterAt, CounterBlock, Cipher.Valid, Cipher.Encrypt, BE;
      if num == 0 {
        Refill();
      } else {
        CounterStays(ivec[..], iv, pos);
      }
      k := ecount[num];
      num := (num + 1) % 16;
      pos := pos + 1;
      SameBlock(old(pos));
    }

    /** `AES_ctr128_encrypt`; `out` may be `input`. */
    method Xcrypt(input: array<byte>, out: array<byte>, length: nat)
      requires Valid() && length <= input.Length && length <= out.Length
      requires input != ivec && input != ecount && out != ivec && out != ecount
      modifies this`num, this`pos, ivec, ecount, out
      ensures Valid() && pos == old(pos) + length
      ensures out[..length] == Xcrypted(cipher, iv, old(pos), old(input[..length]))
      ensures out[length..] == old(out[length..])
      // byte n of the stream is byte n % 16 of the encryption of the initial counter plus n / 16
      ensures forall i | 0 <= i < length ::
        var n := old(pos) + i;
        out[i] == Xor(old(input[i]), cipher.Encrypt(BigEndian((iv + n / 16) % TWO128, 16))[n % 16])
    {
      hide KeyStream, BE, CounterAt, BlockAt, Xor, Cipher.Valid, Cipher.Encrypt, BigEndian;
      for l := 0 to length
        invariant Valid() && pos == old(pos) + l
        invariant forall i | 0 <= i < l :: out[i] == Xor(old(input[i]), KeyStream(cipher, iv, old(pos) + i))
        invariant forall i | l <= i < out.Length :: out[i] == old(out[i])
        invariant forall i | l <= i < input.Length :: input[i] == old(input[i])
      {
        var k := NextByte();
        out[l] := Xor(input[l], k);
      }
      forall i | 0 <= i < length
        ensures var n := old(pos) + i;
          out[i] == Xor(old(input[i]), cipher.Encrypt(BigEndian((iv + n / 16) % TWO128, 16))[n % 16])
      {
        KeyByte(cipher, iv, old(pos) + i);
      }
    }
  }

  /** The counter after `pos` bytes: one increment for each block that was started. */
  ghost predicate CounterAt(ivec: seq<byte>, iv: nat, pos: nat)
  {
    |ivec| == 16 && BE(ivec) == (iv + (pos + 15) / 16) % TWO128
  }

  /** The block that byte `pos` of the key stream belongs to. */
  ghost function BlockAt(c: Cipher, iv: nat, pos: nat): seq<byte>
    requires c.Valid()
  {
    c.Encrypt(CounterBlock(iv, pos / 16))
  }

  lemma StartCounter(start: seq<byte>)
    requires |start| == 16
    ensures CounterAt(start, BE(start), 0)
  {
    hide BE, GetU32;
    FourWords(start);
  }

  /** A fresh block is the encryption of the counter. */
  lemma NewBlock(iv: nat, pos: nat, ivec: seq<byte>)
    requires pos % 16 == 0 && CounterAt(ivec, iv, pos)
    ensures ivec == CounterBlock(iv, pos / 16)
  {
    hide BE, BigEndian;
    BEEncodes(ivec);
  }

  lemma CounterStep(iv: nat, pos: nat, v: nat)
    requires pos % 16 == 0 && v == (iv + (pos + 15) / 16) % TWO128
    ensures (v + 1) % TWO128 == (iv + (pos + 1 + 15) / 16) % TWO128
  {
  }

  lemma CounterStays(ivec: seq<byte>, iv: nat, pos: nat)
    requires pos % 16 > 0 && CounterAt(ivec, iv, pos)
    ensures CounterAt(ivec, iv, pos + 1)
  {
    hide BE;
  }

  lemma SameBlock(pos: nat)
    ensures (pos % 16 + 1) % 16 == (pos + 1) % 16
    ensures (pos + 1) % 16 > 0 ==> (pos + 1) / 16 == pos / 16
  {
  }
}
