/** AES in cipher block chaining mode (third-party/opensslaes/aes_cbc.c), over any block cipher; the
    definition is section 6.2 of NIST SP 800-38A, with a last short block padded by zeros. */
module AesCbc {
  import opened AesCtr
  import opened BigEndianBytes
  import opened Bitwise
  import opened MachineInts

  // ---- The definition ----

  ghost function XorBlocks(a: seq<byte>, b: seq<byte>): (r: seq<byte>)
    requires |a| == |b|
    ensures |r| == |a|
  {
    seq(|a|, i requires 0 <= i < |a| => Xor(a[i], b[i]))
  }

  /** The ciphertext of p, a whole number of blocks. */
  ghost function Encrypted(c: Cipher, iv: seq<byte>, p: seq<byte>): (r: seq<byte>)
    requires c.Valid() && |iv| == 16
    ensures |r| == RoundUp(|p|)
    decreases |p|
  {
    if p == [] then []
    else if |p| < 16 then c.Encrypt(XorBlocks(p + Zeros(16 - |p|), iv))
    else
      var block := c.Encrypt(XorBlocks(p[..16], iv));
      block + Encrypted(c, block, p[16..])
  }

  /** The first n bytes of the plaintext of s. */
  ghost function Decrypted(c: Cipher, iv: seq<byte>, s: seq<byte>, n: nat): (r: seq<byte>)
    requires c.Valid() && |iv| == 16 && |s| >= RoundUp(n)
    ensures |r| == n
    decreases n
  {
    if n == 0 then []
    else if n < 16 then XorBlocks(c.Decrypt(s[..16]), iv)[..n]
    else XorBlocks(c.Decrypt(s[..16]), iv) + Decrypted(c, s[..16], s[16..], n - 16)
  }

  function RoundUp(n: nat): (r: nat)
    ensures r >= n && r % 16 == 0
  {
    if n == 0 then 0 else if n < 16 then 16 else 16 + RoundUp(n - 16)
  }

  /** What the vector is after the call: the last block of ciphertext. */
  ghost function LastBlock(iv: seq<byte>, s: seq<byte>): (r: seq<byte>)
    requires |iv| == 16 && |s| % 16 == 0
    ensures |r| == 16
  {
    if s == [] then iv else s[|s| - 16..]
  }

  // ---- Byte by byte ----

  /** Byte j of the input padded by zeros. */
  ghost function PaddedByte(p: seq<byte>, j: nat): byte
  {
    if j < |p| then p[j] else 0
  }

  /** Block b of ciphertext is the encryption of the input, each byte combined with the one sixteen places before
      it in the ciphertext, or with the vector. */
  lemma {:induction false} EncryptedBlock(c: Cipher, iv: seq<byte>, p: seq<byte>, b: nat) returns (x: seq<byte>)
    requires c.Valid() && |iv| == 16 && 16 * b < |p|
    ensures |x| == 16 && 16 * b + 16 <= |Encrypted(c, iv, p)| && Encrypted(c, iv, p)[16 * b..16 * b + 16] == c.Encrypt(x)
    ensures forall k | 0 <= k < 16 ::
      x[k] == Xor(PaddedByte(p, 16 * b + k), if b == 0 then iv[k] else Encrypted(c, iv, p)[16 * b - 16 + k])
    decreases b
  {
    hide Cipher.Encrypt, Cipher.Valid, Xor, Encrypted, RoundUp;
    x := FirstInput(c, iv, p);
    if b > 0 {
      var block, rest := c.Encrypt(x), Encrypted(c, c.Encrypt(x), p[16..]);
      x := EncryptedBlock(c, block, p[16..], b - 1);
      BlockBehind(block, rest, b);
      PaddedBehind(p);
    }
  }

  lemma FirstInput(c: Cipher, iv: seq<byte>, p: seq<byte>) returns (x: seq<byte>)
    requires c.Valid() && |iv| == 16 && p != []
    ensures |x| == 16 && forall k | 0 <= k < 16 :: x[k] == Xor(PaddedByte(p, k), iv[k])
    ensures |Encrypted(c, iv, p)| >= 16 && Encrypted(c, iv, p)[..16] == Encrypted(c, iv, p)[0..16] == c.Encrypt(x)
    ensures |p| > 16 ==> Encrypted(c, iv, p) == c.Encrypt(x) + Encrypted(c, c.Encrypt(x), p[16..])
  {
    hide Cipher.Encrypt, Cipher.Valid, Xor;
    var front := if |p| < 16 then p + Zeros(16 - |p|) else p[..16];
    x := XorBlocks(front, iv);
    forall k | 0 <= k < 16
      ensures front[k] == PaddedByte(p, k)
    {
    }
    var e := Encrypted(c, iv, p);
    if |p| >= 16 {
      assert e[..16] == c.Encrypt(x);
    } else {
      assert e[..16] == e;
    }
    assert e[0..16] == e[..16];
  }

  lemma BlockBehind(block: seq<byte>, rest: seq<byte>, b: nat)
    requires |block| == 16 && b >= 1 && 16 * b <= |rest|
    ensures var e := block + rest;
      && e[16 * b..16 * b + 16] == rest[16 * b - 16..16 * b]
      && forall k | 0 <= k < 16 :: e[16 * b - 16 + k] == if b == 1 then block[k] else rest[16 * b - 32 + k]
  {
    var e := block + rest;
    assert e[16..] == rest;
    assert e[16 * b..16 * b + 16] == e[16..][16 * b - 16..16 * b];
  }

  lemma PaddedBehind(p: seq<byte>)
    requires |p| >= 16
    ensures forall j | j >= 16 :: PaddedByte(p, j) == PaddedByte(p[16..], j - 16)
  {
  }

  /** Byte j of the plaintext is that of the decrypted block, combined in the same way. */
  lemma {:induction false} DecryptedByte(c: Cipher, iv: seq<byte>, s: seq<byte>, n: nat, j: nat)
    requires c.Valid() && |iv| == 16 && |s| >= RoundUp(n) && j < n
    ensures j / 16 * 16 + 16 <= |s|
    ensures Decrypted(c, iv, s, n)[j]
            == Xor(c.Decrypt(s[j / 16 * 16..j / 16 * 16 + 16])[j % 16], if j < 16 then iv[j] else s[j - 16])
    decreases j
  {
    hide Cipher.Decrypt, Cipher.Valid, Xor;
    if j < 16 {
      assert s[0..16] == s[..16];
    } else {
      DecryptedByte(c, s[..16], s[16..], n - 16, j - 16);
      assert s[16..][(j - 16) / 16 * 16..(j - 16) / 16 * 16 + 16] == s[j / 16 * 16..j / 16 * 16 + 16];
    }
  }

  lemma XorBlocksTwice(a: seq<byte>, b: seq<byte>)
    requires |a| == |b|
    ensures XorBlocks(XorBlocks(a, b), b) == a
  {
    hide Xor;
    forall i | 0 <= i < |a|
      ensures Xor(Xor(a[i], b[i]), b[i]) == a[i]
    {
      XorTwice(a[i], b[i]);
    }
  }

  /** Decryption undoes encryption, at every length. */
  lemma {:induction false} RoundTrip(c: Cipher, iv: seq<byte>, p: seq<byte>)
    requires c.Valid() && |iv| == 16
    ensures Decrypted(c, iv, Encrypted(c, iv, p), |p|) == p
    decreases |p|
  {
    hide Cipher.Encrypt, Cipher.Decrypt, XorBlocks;
    if |p| > 0 {
      var x := if |p| < 16 then p + Zeros(16 - |p|) else p[..16];
      var block := c.Encrypt(XorBlocks(x, iv));
      var rest := if |p| < 16 then [] else Encrypted(c, block, p[16..]);
      Undone(c, XorBlocks(x, iv));
      XorBlocksTwice(x, iv);
      assert (block + rest)[..16] == block && (block + rest)[16..] == rest;
      if |p| < 16 {
        assert block[..16] == block;
        assert x[..|p|] == p;
      } else {
        RoundTrip(c, block, p[16..]);
        assert p == p[..16] + p[16..];
      }
    }
  }

  lemma Undone(c: Cipher, b: seq<byte>)
    requires c.Valid() && |b| == 16
    ensures c.Decrypt(c.Encrypt(b)) == b
  {
    assert c.Undoes(b);
  }

  // ---- Chaining ----

  lemma {:induction false} RoundUpAdd(m: nat, n: nat)
    requires m % 16 == 0
    ensures RoundUp(m + n) == m + RoundUp(n)
  {
    if m > 0 {
      RoundUpAdd(m - 16, n);
      assert m >= 16 && RoundUp(m + n) == 16 + RoundUp(m + n - 16);
    }
  }

  /** Encryption can stop and go on at a block boundary. */
  lemma {:induction false} EncryptedSplit(c: Cipher, iv: seq<byte>, a: seq<byte>, b: seq<byte>)
    requires c.Valid() && |iv| == 16 && |a| % 16 == 0
    ensures |Encrypted(c, iv, a)| == |a|
    ensures Encrypted(c, iv, a + b) == Encrypted(c, iv, a) + Encrypted(c, LastBlock(iv, Encrypted(c, iv, a)), b)
    decreases |a|
  {
    hide Encrypted, Cipher.Encrypt, Cipher.Valid, XorBlocks, RoundUp, LastBlock;
    if a == [] {
      assert a + b == b && [] + Encrypted(c, iv, b) == Encrypted(c, iv, b);
      NoBlock(c, iv);
    } else {
      var block, rest := FirstBlock(c, iv, a);
      var block1, rest1 := FirstBlock(c, iv, a + b);
      assert (a + b)[..16] == a[..16] && (a + b)[16..] == a[16..] + b;
      EncryptedSplit(c, block, a[16..], b);
      LastOfRest(iv, block, rest);
      assert block + (rest + Encrypted(c, LastBlock(block, rest), b)) == block + rest + Encrypted(c,
          LastBlock(block, rest), b);
    }
  }

  lemma NoBlock(c: Cipher, iv: seq<byte>)
    requires c.Valid() && |iv| == 16
    ensures Encrypted(c, iv, []) == [] && LastBlock(iv, []) == iv
  {
  }

  lemma FirstBlock(c: Cipher, iv: seq<byte>, p: seq<byte>) returns (block: seq<byte>, rest: seq<byte>)
    requires c.Valid() && |iv| == 16 && |p| >= 16
    ensures |block| == 16 && block == c.Encrypt(XorBlocks(p[..16], iv)) && rest == Encrypted(c, block, p[16..])
    ensures Encrypted(c, iv, p) == block + rest
  {
    hide Cipher.Encrypt, Cipher.Valid, XorBlocks;
    block := c.Encrypt(XorBlocks(p[..16], iv));
    rest := Encrypted(c, block, p[16..]);
  }

  lemma LastOfRest(iv: seq<byte>, block: seq<byte>, rest: seq<byte>)
    requires |iv| == |block| == 16 && |rest| % 16 == 0
    ensures LastBlock(iv, block + rest) == LastBlock(block, rest)
  {
  }

  lemma {:induction false} DecryptedSplit(c: Cipher, iv: seq<byte>, s: seq<byte>, t: seq<byte>, n: nat)
    requires c.Valid() && |iv| == 16 && |s| % 16 == 0 && |t| >= RoundUp(n)
    requires RoundUp(|s|) == |s| && RoundUp(|s| + n) == |s| + RoundUp(n)
    ensures Decrypted(c, iv, s + t, |s| + n) == Decrypted(c, iv, s, |s|) + Decrypted(c, LastBlock(iv, s), t, n)
    decreases |s|
  {
    hide Cipher.Decrypt, Cipher.Valid, XorBlocks;
    if s == [] {
      assert s + t == t;
    } else {
      RoundUpAdd(|s| - 16, n);
      RoundUpAdd(|s| - 16, 0);
      DecryptedSplit(c, s[..16], s[16..], t, n);
      assert (s + t)[..16] == s[..16] && (s + t)[16..] == s[16..] + t;
      assert LastBlock(s[..16], s[16..]) == LastBlock(iv, s);
    }
  }

  // ---- The routine ----

  /** One block at offset o: the loop `out[n] = in[n] ^ iv[n]`, where n bytes of input are left; the
      rest of the block takes the vector as it is. */
  method XorInto(out: array<byte>, o: nat, input: seq<byte>, iv: seq<byte>)
    requires o + 16 <= out.Length && |input| <= 16 && |iv| == 16
    modifies out
    ensures out[o..o + 16] == XorBlocks(input + Zeros(16 - |input|), iv)
    ensures out[..o] == old(out[..o]) && out[o + 16..] == old(out[o + 16..])
  {
    hide Xor;
    for n := 0 to 16
      invariant forall j | 0 <= j < n :: out[o + j] == Xor((input + Zeros(16 - |input|))[j], iv[j])
      invariant out[..o] == old(out[..o]) && out[o + 16..] == old(out[o + 16..])
    {
      if n < |input| {
        out[o + n] := Xor(input[n], iv[n]);
      } else {
        ZeroXor(iv[n]);
        out[o + n] := iv[n];
      }
    }
  }

  lemma ZeroXor(x: byte)
    ensures Xor(0, x) == x
  {
    PowerEight();
    XorNothing(x as int, 8);
  }

  /** Sixteen bytes written at offset o. */
  method PutBlock(out: array<byte>, o: nat, b: seq<byte>)
    requires o + |b| <= out.Length
    modifies out
    ensures out[o..o + |b|] == b && out[..o] == old(out[..o]) && out[o + |b|..] == old(out[o + |b|..])
  {
    for n := 0 to |b|
      invariant forall j | 0 <= j < n :: out[o + j] == b[j]
      invariant out[..o] == old(out[..o]) && out[o + |b|..] == old(out[o + |b|..])
    {
      out[o + n] := b[n];
    }
  }

  /** The body of the encryption loop: XOR with the vector, encrypt in place. */
  method EncryptBlock(c: Cipher, out: array<byte>, o: nat, input: seq<byte>, iv: seq<byte>) returns (block: seq<byte>)
    requires c.Valid() && o + 16 <= out.Length && 0 < |input| <= 16 && |iv| == 16
    modifies out
    ensures |block| == 16 && block == Encrypted(c, iv, input)
    ensures out[o..o + 16] == block && out[..o] == old(out[..o]) && out[o + 16..] == old(out[o + 16..])
  {
    hide Cipher.Encrypt, XorBlocks;
    XorInto(out, o, input, iv);
    block := c.Encrypt(out[o..o + 16]);
    PutBlock(out, o, block);
    assert |input| == 16 ==> input + Zeros(0) == input[..16] && input[16..] == [];
    assert block + [] == block;
  }

  /** `AES_cbc_encrypt` with AES_ENCRYPT; `out` may be `input`. The last block of output is whole even
      when the input ends inside it. */
  method CbcEncrypt(c: Cipher, input: array<byte>, out: array<byte>, length: nat, ivec: array<byte>)
    requires c.Valid() && ivec.Length == 16 && ivec != input && ivec != out
    requires length <= input.Length && RoundUp(length) <= out.Length
    modifies out, ivec
    ensures out[..RoundUp(length)] == Encrypted(c, old(ivec[..]), old(input[..length]))
    ensures forall j | RoundUp(length) <= j < out.Length :: out[j] == old(out[j])
    ensures ivec[..] == LastBlock(old(ivec[..]), Encrypted(c, old(ivec[..]), old(input[..length])))
  {
    hide EncryptedTo, Encrypted, Cipher.Valid, LastBlock, RoundUp;
    ghost var in0, iv0 := input[..], ivec[..];
    var iv := ivec[..];
    var o := 0;
    NothingEncrypted(c, iv0, in0, out[..]);
    while length - o >= 16
      invariant o % 16 == 0 && o <= length && |iv| == 16 && ivec[..] == iv0
      invariant EncryptedTo(c, iv0, in0, out[..], o, iv)
      invariant forall j | o <= j < out.Length :: out[j] == old(out[j])
      invariant forall j | o <= j < input.Length :: input[j] == in0[j]
      decreases length - o
    {
      RoomFor(o, length);
      var x := input[o..o + 16];
      SameSlice(input[..], in0, o, o + 16);
      assert x == input[..][o..o + 16];
      iv := NextBlock(c, x, out, o, iv0, in0, iv);
      o := o + 16;
    }
    RoomFor(o, length);
    if length > o {
      var x := input[o..length];
      SameSlice(input[..], in0, o, length);
      assert x == input[..][o..length];
      iv := NextBlock(c, x, out, o, iv0, in0, iv);
    }
    AllEncrypted(c, iv0, in0, out[..], length, iv);
    CopyBlock(ivec, iv);
    assert in0[..length] == old(input[..length]);
  }

  /** Another block starts before the end, so it ends before the rounded end. */
  lemma RoomFor(o: nat, n: nat)
    requires o % 16 == 0 && o <= n
    ensures n > o ==> o + 16 <= RoundUp(n)
    ensures n == o ==> RoundUp(n) == n
  {
    RoundUpAdd(o, n - o);
  }

  lemma SameSlice(a: seq<byte>, b: seq<byte>, i: nat, j: nat)
    requires i <= j <= |a| == |b| && forall k | i <= k < j :: a[k] == b[k]
    ensures a[i..j] == b[i..j]
  {
  }

  /** `memcpy(to, from, AES_BLOCK_SIZE)` */
  method CopyBlock(to: array<byte>, from: seq<byte>)
    requires to.Length == |from| == 16
    modifies to
    ensures to[..] == from
  {
    for n := 0 to 16
      invariant to[..n] == from[..n]
    {
      to[n] := from[n];
    }
  }

  /** The first n bytes are done, and iv is the vector to go on with. */
  ghost predicate EncryptedTo(c: Cipher, iv0: seq<byte>, in0: seq<byte>, out: seq<byte>, n: nat, iv: seq<byte>)
    requires c.Valid() && |iv0| == 16
  {
    && n <= |in0| && RoundUp(n) <= |out|
    && out[..RoundUp(n)] == Encrypted(c, iv0, in0[..n]) && iv == LastBlock(iv0, Encrypted(c, iv0, in0[..n]))
  }

  lemma NothingEncrypted(c: Cipher, iv0: seq<byte>, in0: seq<byte>, out: seq<byte>)
    requires c.Valid() && |iv0| == 16
    ensures EncryptedTo(c, iv0, in0, out, 0, iv0)
  {
  }

  lemma AllEncrypted(c: Cipher, iv0: seq<byte>, in0: seq<byte>, out: seq<byte>, n: nat, iv: seq<byte>)
    requires c.Valid() && |iv0| == 16 && EncryptedTo(c, iv0, in0, out, n, iv)
    ensures n <= |in0| && RoundUp(n) <= |out| && out[..RoundUp(n)] == Encrypted(c, iv0, in0[..n])
    ensures iv == LastBlock(iv0, Encrypted(c, iv0, in0[..n]))
  {
  }

  /** The next block, x, of the input, whole or short. */
  method NextBlock(c: Cipher, x: seq<byte>, out: array<byte>, o: nat, ghost iv0: seq<byte>, ghost in0: seq<byte>,
      iv: seq<byte>)
    returns (next: seq<byte>)
    requires c.Valid() && |iv0| == |iv| == 16 && o % 16 == 0 && 0 < |x| <= 16 && o + 16 <= out.Length
    requires o + |x| <= |in0| && x == in0[o..o + |x|] && EncryptedTo(c, iv0, in0, out[..], o, iv)
    modifies out
    ensures |next| == 16 && EncryptedTo(c, iv0, in0, out[..], o + |x|, next)
    ensures forall j | o + 16 <= j < out.Length :: out[j] == old(out[j])
  {
    hide Encrypted, Cipher.Valid;
    RoundUpAdd(o, 0);
    RoundUpAdd(o, |x|);
    ghost var done := out[..o];
    next := EncryptBlock(c, out, o, x, iv);
    EncryptedSplit(c, iv0, in0[..o], x);
    assert in0[..o + |x|] == in0[..o] + x;
    assert out[..o + 16] == done + next;
    assert forall j | o + 16 <= j < out.Length :: out[j] == out[o + 16..][j - o - 16];
  }

  // ---- Decryption ----

  /** The first n bytes of plaintext are done, from ciphertext s, and iv is the vector to go on with. */
  ghost predicate DecryptedTo(c: Cipher, iv0: seq<byte>, s: seq<byte>, out: seq<byte>, n: nat, iv: seq<byte>)
    requires c.Valid() && |iv0| == 16
  {
    && RoundUp(n) <= |s| && n <= |out| && RoundUp(n) % 16 == 0
    && out[..n] == Decrypted(c, iv0, s[..RoundUp(n)], n) && iv == LastBlock(iv0, s[..RoundUp(n)])
  }

  lemma NothingDecrypted(c: Cipher, iv0: seq<byte>, s: seq<byte>, out: seq<byte>)
    requires c.Valid() && |iv0| == 16
    ensures DecryptedTo(c, iv0, s, out, 0, iv0)
  {
  }

  lemma AllDecrypted(c: Cipher, iv0: seq<byte>, s: seq<byte>, out: seq<byte>, n: nat, iv: seq<byte>)
    requires c.Valid() && |iv0| == 16 && DecryptedTo(c, iv0, s, out, n, iv)
    ensures RoundUp(n) <= |s| && n <= |out| && out[..n] == Decrypted(c, iv0, s[..RoundUp(n)], n)
    ensures iv == LastBlock(iv0, s[..RoundUp(n)])
  {
  }

  /** One more block x of ciphertext, of which n bytes of plaintext are wanted. */
  lemma DecryptMore(c: Cipher, iv0: seq<byte>, s: seq<byte>, before: seq<byte>, after: seq<byte>, o: nat, iv: seq<byte>,
                    x: seq<byte>, n: nat)
    requires c.Valid() && |iv0| == |iv| == |x| == 16 && o % 16 == 0 && 0 < n <= 16
    requires o + 16 <= |s| && x == s[o..o + 16] && DecryptedTo(c, iv0, s, before, o, iv)
    requires o + n <= |after| && after[..o] == before[..o] && after[o..o + n] == XorBlocks(c.Decrypt(x), iv)[..n]
    ensures DecryptedTo(c, iv0, s, after, o + n, x)
  {
    hide Cipher.Valid, Cipher.Decrypt, XorBlocks;
    RoundUpAdd(o, 0);
    RoundUpAdd(o, n);
    DecryptedSplit(c, iv0, s[..o], x, n);
    assert s[..o + 16] == s[..o] + x;
    assert x[..16] == x;
    assert Decrypted(c, iv, x, n) == XorBlocks(c.Decrypt(x), iv)[..n] by {
      OneBlock(c, iv, x, n);
    }
    assert after[..o + n] == after[..o] + after[o..o + n];
  }

  lemma OneBlock(c: Cipher, iv: seq<byte>, x: seq<byte>, n: nat)
    requires c.Valid() && |iv| == |x| == 16 && 0 < n <= 16
    ensures Decrypted(c, iv, x, n) == XorBlocks(c.Decrypt(x), iv)[..n]
  {
    hide Cipher.Valid, Cipher.Decrypt, XorBlocks;
    assert x[..16] == x;
    var y := XorBlocks(c.Decrypt(x), iv);
    assert y[..16] == y && y + [] == y;
  }

  /** `AES_decrypt` of x into a buffer, then XOR of the first n bytes with the vector. */
  method DecryptBlock(c: Cipher, out: array<byte>, o: nat, x: seq<byte>, iv: seq<byte>, n: nat)
    requires c.Valid() && |x| == |iv| == 16 && n <= 16 && o + n <= out.Length
    modifies out
    ensures out[o..o + n] == XorBlocks(c.Decrypt(x), iv)[..n]
    ensures forall j | 0 <= j < out.Length && !(o <= j < o + n) :: out[j] == old(out[j])
  {
    hide Cipher.Valid, Cipher.Decrypt, Xor;
    var tmp := c.Decrypt(x);
    for i := 0 to n
      invariant forall j | 0 <= j < i :: out[o + j] == XorBlocks(tmp, iv)[j]
      invariant forall j | 0 <= j < out.Length && !(o <= j < o + n) :: out[j] == old(out[j])
    {
      out[o + i] := Xor(tmp[i], iv[i]);
    }
  }

  /** `AES_cbc_encrypt` with AES_DECRYPT and two buffers. */
  method CbcDecryptApart(c: Cipher, input: array<byte>, out: array<byte>, length: nat, ivec: array<byte>)
    requires c.Valid() && ivec.Length == 16 && ivec != input && ivec != out && input != out
    requires RoundUp(length) <= input.Length && length <= out.Length
    modifies out, ivec
    ensures out[..length] == Decrypted(c, old(ivec[..]), input[..RoundUp(length)], length)
    ensures out[length..] == old(out[length..])
    ensures ivec[..] == LastBlock(old(ivec[..]), input[..RoundUp(length)])
  {
    hide DecryptedTo, Decrypted, Cipher.Valid, Cipher.Decrypt, XorBlocks, LastBlock, RoundUp;
    ghost var s, iv0 := input[..], ivec[..];
    var iv := ivec[..];
    var o := 0;
    NothingDecrypted(c, iv0, s, out[..]);
    while length - o >= 16
      invariant o % 16 == 0 && o <= length && |iv| == 16 && ivec[..] == iv0
      invariant DecryptedTo(c, iv0, s, out[..], o, iv)
      invariant forall j | o <= j < out.Length :: out[j] == old(out[j])
      decreases length - o
    {
      RoomFor(o, length);
      var x := input[o..o + 16];
      ghost var before := out[..];
      DecryptBlock(c, out, o, x, iv, 16);
      DecryptMore(c, iv0, s, before, out[..], o, iv, x, 16);
      iv := x;
      o := o + 16;
    }
    RoomFor(o, length);
    if length > o {
      var x := input[o..o + 16];
      ghost var before := out[..];
      DecryptBlock(c, out, o, x, iv, length - o);
      DecryptMore(c, iv0, s, before, out[..], o, iv, x, length - o);
      iv := x;
    }
    AllDecrypted(c, iv0, s, out[..], length, iv);
    CopyBlock(ivec, iv);
    assert s[..RoundUp(length)] == input[..RoundUp(length)];
  }

  /** The state of the in-place loop: plaintext before o, ciphertext from o on. */
  ghost predicate HalfDone(c: Cipher, iv0: seq<byte>, s: seq<byte>, buffer: seq<byte>, o: nat, iv: seq<byte>)
    requires c.Valid() && |iv0| == 16
  {
    |buffer| == |s| && DecryptedTo(c, iv0, s, buffer, o, iv) && forall j | o <= j < |s| :: buffer[j] == s[j]
  }

  /** A whole block in place. */
  method WholeInPlace(c: Cipher, buffer: array<byte>, o: nat, ivec: array<byte>, ghost iv0: seq<byte>, ghost s: seq<byte>)
    requires c.Valid() && |iv0| == ivec.Length == 16 && ivec != buffer && o % 16 == 0 && o + 16 <= buffer.Length
    requires HalfDone(c, iv0, s, buffer[..], o, ivec[..])
    modifies buffer, ivec
    ensures HalfDone(c, iv0, s, buffer[..], o + 16, ivec[..])
  {
    hide DecryptedTo, Cipher.Valid, Cipher.Decrypt, XorBlocks;
    ghost var before, iv := buffer[..], ivec[..];
    var tmp := buffer[o..o + 16];
    SameSlice(buffer[..], s, o, o + 16);
    assert tmp == buffer[..][o..o + 16];
    DecryptBlock(c, buffer, o, tmp, ivec[..], 16);
    DecryptMore(c, iv0, s, before, buffer[..], o, iv, tmp, 16);
    CopyBlock(ivec, tmp);
  }

  /** A last block of n bytes in place: what follows them is put back. */
  method ShortInPlace(c: Cipher, buffer: array<byte>, o: nat, n: nat, ivec: array<byte>, ghost iv0: seq<byte>,
      ghost s: seq<byte>)
    requires c.Valid() && |iv0| == ivec.Length == 16 && ivec != buffer && o % 16 == 0 && o + 16 <= buffer.Length
    requires 0 < n < 16 && HalfDone(c, iv0, s, buffer[..], o, ivec[..])
    modifies buffer, ivec
    ensures HalfDone(c, iv0, s, buffer[..], o + n, ivec[..])
  {
    hide DecryptedTo, Cipher.Valid, Cipher.Decrypt, XorBlocks;
    ghost var before, iv := buffer[..], ivec[..];
    var tmp := buffer[o..o + 16];
    SameSlice(buffer[..], s, o, o + 16);
    assert tmp == buffer[..][o..o + 16];
    DecryptBlock(c, buffer, o, tmp, ivec[..], n);
    PutBack(buffer, o + n, o + 16, tmp, o, s);
    DecryptMore(c, iv0, s, before, buffer[..], o, iv, tmp, n);
    CopyBlock(ivec, tmp);
  }

  lemma AllDone(c: Cipher, iv0: seq<byte>, s: seq<byte>, buffer: seq<byte>, n: nat, iv: seq<byte>)
    requires c.Valid() && |iv0| == 16 && HalfDone(c, iv0, s, buffer, n, iv)
    ensures RoundUp(n) <= |s| == |buffer| && n <= |s| && buffer[..n] == Decrypted(c, iv0, s[..RoundUp(n)], n)
    ensures iv == LastBlock(iv0, s[..RoundUp(n)]) && buffer[n..] == s[n..]
  {
  }

  /** `AES_cbc_encrypt` with AES_DECRYPT in one buffer: each block is saved before it is overwritten. */
  method CbcDecryptInPlace(c: Cipher, buffer: array<byte>, length: nat, ivec: array<byte>)
    requires c.Valid() && ivec.Length == 16 && ivec != buffer && RoundUp(length) <= buffer.Length
    modifies buffer, ivec
    ensures buffer[..length] == Decrypted(c, old(ivec[..]), old(buffer[..RoundUp(length)]), length)
    ensures buffer[length..] == old(buffer[length..])
    ensures ivec[..] == LastBlock(old(ivec[..]), old(buffer[..RoundUp(length)]))
  {
    hide HalfDone, Decrypted, Cipher.Valid, LastBlock, RoundUp;
    ghost var s, iv0 := buffer[..], ivec[..];
    var o := 0;
    NothingDone(c, iv0, s);
    while length - o >= 16
      invariant o % 16 == 0 && o <= length
      invariant HalfDone(c, iv0, s, buffer[..], o, ivec[..])
      decreases length - o
    {
      RoomFor(o, length);
      WholeInPlace(c, buffer, o, ivec, iv0, s);
      o := o + 16;
    }
    RoomFor(o, length);
    if length > o {
      ShortInPlace(c, buffer, o, length - o, ivec, iv0, s);
    }
    AllDone(c, iv0, s, buffer[..], length, ivec[..]);
    assert s[..RoundUp(length)] == old(buffer[..RoundUp(length)]);
  }

  lemma NothingDone(c: Cipher, iv0: seq<byte>, s: seq<byte>)
    requires c.Valid() && |iv0| == 16
    ensures HalfDone(c, iv0, s, s, 0, iv0)
  {
  }

  /** `out[n] = tmp[n]` for the bytes of the block that carry no plaintext. */
  method PutBack(buffer: array<byte>, from: nat, to: nat, tmp: seq<byte>, o: nat, ghost s: seq<byte>)
    requires o <= from <= to == o + 16 <= buffer.Length == |s| && tmp == s[o..to]
    modifies buffer
    ensures forall j | from <= j < to :: buffer[j] == s[j]
    ensures forall j | 0 <= j < buffer.Length && !(from <= j < to) :: buffer[j] == old(buffer[j])
  {
    for n := from to to
      invariant forall j | from <= j < n :: buffer[j] == s[j]
      invariant forall j | 0 <= j < buffer.Length && !(from <= j < n) :: buffer[j] == old(buffer[j])
    {
      buffer[n] := tmp[n - o];
    }
  }
}
