/** The 64-bit words of SHA-512: the macros of third-party/ed25519/sha512.c are the functions
    of FIPS 180-4, section 4.1.3. */
module Sha512Words {
  import opened MachineInts
  import opened Sha512Block
  import opened Sha512Stream

  type word = bv64

  // ---- Section 4.1.3 ----

  /** Addition modulo 2^64 (section 2.2.2 writes +). */
  function Plus(x: word, y: word): word { x + y }

  function Choice(x: word, y: word, z: word): word { (x & y) ^ (!x & z) }
  function Majority(x: word, y: word, z: word): word { (x & y) ^ (x & z) ^ (y & z) }
  function Xor3(x: word, y: word, z: word): word { x ^ y ^ z }
  function BigSigma0(x: word): word { Xor3(x.RotateRight(28), x.RotateRight(34), x.RotateRight(39)) }
  function BigSigma1(x: word): word { Xor3(x.RotateRight(14), x.RotateRight(18), x.RotateRight(41)) }
  function SmallSigma0(x: word): word { Xor3(x.RotateRight(1), x.RotateRight(8), x >> 7) }
  function SmallSigma1(x: word): word { Xor3(x.RotateRight(19), x.RotateRight(61), x >> 6) }

  /** The word that big-endian bytes spell. */
  function FromBytes(b: seq<byte>): word
  {
    if b == [] then 0 else Append(FromBytes(b[..|b| - 1]), Wide(b[|b| - 1]))
  }

  function Wide(b: byte): word { b as word }

  function Append(x: word, y: word): word
  {
    (x << 8) | y
  }

  /** The last n bytes of a word, the first one the most significant. */
  function ToBytes(x: word, n: nat): (b: seq<byte>)
    ensures |b| == n
  {
    if n == 0 then [] else ToBytes(x >> 8, n - 1) + [Byte(x)]
  }

  // ---- The macros ----

  function Add(x: word, y: word): word { x + y }
  function Ch(x: word, y: word, z: word): word { z ^ (x & (y ^ z)) }
  function Maj(x: word, y: word, z: word): word { ((x | y) & z) | (x & y) }

  /** ROR64c */
  function Ror(x: word, n: nat): word
    requires 0 < n < 64
  {
    (x >> n) | (x << (64 - n))
  }

  function Sigma0(x: word): word { Xor3(Ror(x, 28), Ror(x, 34), Ror(x, 39)) }
  function Sigma1(x: word): word { Xor3(Ror(x, 14), Ror(x, 18), Ror(x, 41)) }
  function Gamma0(x: word): word { Xor3(Ror(x, 1), Ror(x, 8), x >> 7) }
  function Gamma1(x: word): word { Xor3(Ror(x, 19), Ror(x, 61), x >> 6) }

  lemma ChIsChoice(x: word, y: word, z: word)
    ensures Ch(x, y, z) == Choice(x, y, z)
  {
    BitwiseChoice(x, y, z);
  }

  lemma BitwiseChoice(x: word, y: word, z: word)
    ensures z ^ (x & (y ^ z)) == (x & y) ^ (!x & z)
  {}

  lemma MajIsMajority(x: word, y: word, z: word)
    ensures Maj(x, y, z) == Majority(x, y, z)
  {
    BitwiseMajority(x, y, z);
  }

  lemma BitwiseMajority(x: word, y: word, z: word)
    ensures ((x | y) & z) | (x & y) == (x & y) ^ (x & z) ^ (y & z)
  {}

  /** ROR64c rotates. */
  lemma RorRotates(x: word)
    ensures Ror(x, 28) == x.RotateRight(28) && Ror(x, 34) == x.RotateRight(34) && Ror(x, 39) == x.RotateRight(39)
    ensures Ror(x, 14) == x.RotateRight(14) && Ror(x, 18) == x.RotateRight(18) && Ror(x, 41) == x.RotateRight(41)
    ensures Ror(x, 1) == x.RotateRight(1) && Ror(x, 8) == x.RotateRight(8)
    ensures Ror(x, 19) == x.RotateRight(19) && Ror(x, 61) == x.RotateRight(61)
  {}

  /** LOAD64H */
  function Load64(b: seq<byte>): word
  {
    if |b| == 8 then
      Loaded(Wide(b[0]), Wide(b[1]), Wide(b[2]), Wide(b[3]),
             Wide(b[4]), Wide(b[5]), Wide(b[6]), Wide(b[7]))
    else 0
  }

  function Loaded(b0: word, b1: word, b2: word, b3: word, b4: word, b5: word, b6: word, b7: word): word
  {
    (b0 << 56) | (b1 << 48) | (b2 << 40) | (b3 << 32) | (b4 << 24) | (b5 << 16) | (b6 << 8) | b7
  }

  function Byte(x: word): byte
  {
    ((x & 255) as int) as byte
  }

  /** STORE64H */
  function Store64(x: word): (b: seq<byte>)
    ensures |b| == 8
  {
    [Byte(x >> 56), Byte(x >> 48), Byte(x >> 40), Byte(x >> 32), Byte(x >> 24), Byte(x >> 16), Byte(x >> 8), Byte(x)]
  }

  const CONSTANTS: seq<word> := [
    0x428a2f98d728ae22, 0x7137449123ef65cd, 0xb5c0fbcfec4d3b2f, 0xe9b5dba58189dbbc,
    0x3956c25bf348b538, 0x59f111f1b605d019, 0x923f82a4af194f9b, 0xab1c5ed5da6d8118,
    0xd807aa98a3030242, 0x12835b0145706fbe, 0x243185be4ee4b28c, 0x550c7dc3d5ffb4e2,
    0x72be5d74f27b896f, 0x80deb1fe3b1696b1, 0x9bdc06a725c71235, 0xc19bf174cf692694
  ] + [
    0xe49b69c19ef14ad2, 0xefbe4786384f25e3, 0x0fc19dc68b8cd5b5, 0x240ca1cc77ac9c65,
    0x2de92c6f592b0275, 0x4a7484aa6ea6e483, 0x5cb0a9dcbd41fbd4, 0x76f988da831153b5,
    0x983e5152ee66dfab, 0xa831c66d2db43210, 0xb00327c898fb213f, 0xbf597fc7beef0ee4,
    0xc6e00bf33da88fc2, 0xd5a79147930aa725, 0x06ca6351e003826f, 0x142929670a0e6e70
  ] + [
    0x27b70a8546d22ffc, 0x2e1b21385c26c926, 0x4d2c6dfc5ac42aed, 0x53380d139d95b3df,
    0x650a73548baf63de, 0x766a0abb3c77b2a8, 0x81c2c92e47edaee6, 0x92722c851482353b,
    0xa2bfe8a14cf10364, 0xa81a664bbc423001, 0xc24b8b70d0f89791, 0xc76c51a30654be30,
    0xd192e819d6ef5218, 0xd69906245565a910, 0xf40e35855771202a, 0x106aa07032bbd1b8
  ] + [
    0x19a4c116b8d2d0c8, 0x1e376c085141ab53, 0x2748774cdf8eeb99, 0x34b0bcb5e19b48a8,
    0x391c0cb3c5c95a63, 0x4ed8aa4ae3418acb, 0x5b9cca4f7763e373, 0x682e6ff3d6b2b8a3,
    0x748f82ee5defb2fc, 0x78a5636f43172f60, 0x84c87814a1f0ab72, 0x8cc702081a6439ec,
    0x90befffa23631e28, 0xa4506cebde82bde9, 0xbef9a3f7b2c67915, 0xc67178f2e372532b
  ] + [
    0xca273eceea26619c, 0xd186b8c721c0c207, 0xeada7dd6cde0eb1e, 0xf57d4f7fee6ed178,
    0x06f067aa72176fba, 0x0a637dc5a2c898a6, 0x113f9804bef90dae, 0x1b710b35131c471b,
    0x28db77f523047d84, 0x32caab7b40c72493, 0x3c9ebe0a15c9bebc, 0x431d67c49c100d4c,
    0x4cc5d4becb3e42b6, 0x597f299cfc657e2a, 0x5fcb6fab3ad6faec, 0x6c44198c4a475817
  ]

  const INITIAL: seq<word> := [
    0x6a09e667f3bcc908, 0xbb67ae8584caa73b, 0x3c6ef372fe94f82b, 0xa54ff53a5f1d36f1,
    0x510e527fade682d1, 0x9b05688c2b3e6c1f, 0x1f83d9abfb41bd6b, 0x5be0cd19137e2179
  ]

  const WORDS: Words<word> := Words(
    (x: word, y: word) => Add(x, y),
    (x: word) => Sigma0(x), (x: word) => Sigma1(x), (x: word) => Gamma0(x), (x: word) => Gamma1(x),
    (x: word, y: word, z: word) => Ch(x, y, z), (x: word, y: word, z: word) => Maj(x, y, z),
    (t: nat) => if t < 80 then CONSTANTS[t] else 0,
    (b: seq<byte>) => Load64(b), (x: word) => Store64(x))

  /** The operations as section 4.1.3 writes them. */
  const FIPS: Words<word> := Words(
    (x: word, y: word) => Plus(x, y),
    (x: word) => BigSigma0(x), (x: word) => BigSigma1(x), (x: word) => SmallSigma0(x), (x: word) => SmallSigma1(x),
    (x: word, y: word, z: word) => Choice(x, y, z), (x: word, y: word, z: word) => Majority(x, y, z),
    (t: nat) => if t < 80 then CONSTANTS[t] else 0,
    (b: seq<byte>) => FromBytes(b), (x: word) => ToBytes(x, 8))

  /** Four more bytes behind x. */
  function Four(x: word, b0: word, b1: word, b2: word, b3: word): word
  {
    (x << 32) | (b0 << 24) | (b1 << 16) | (b2 << 8) | b3
  }

  lemma AppendFour(x: word, b0: word, b1: word, b2: word, b3: word)
    ensures Append(Append(Append(Append(x, b0), b1), b2), b3) == Four(x, b0, b1, b2, b3)
  {
    ShiftFour(x, b0, b1, b2, b3);
  }

  lemma ShiftFour(x: word, b0: word, b1: word, b2: word, b3: word)
    ensures Append(Append(Append(Append(x, b0), b1), b2), b3) == (x << 32) | (b0 << 24) | (b1 << 16) | (b2 << 8) | b3
  {
  }

  lemma JoinFours(b0: word, b1: word, b2: word, b3: word, b4: word, b5: word, b6: word, b7: word)
    ensures Four(Four(0, b0, b1, b2, b3), b4, b5, b6, b7) == Loaded(b0, b1, b2, b3, b4, b5, b6, b7)
  {
  }

  lemma Horner(b0: word, b1: word, b2: word, b3: word, b4: word, b5: word, b6: word, b7: word)
    ensures Append(Append(Append(Append(Append(Append(Append(Append(0, b0), b1), b2), b3), b4), b5), b6), b7)
         == Loaded(b0, b1, b2, b3, b4, b5, b6, b7)
  {
    hide Append, Four, Loaded;
    AppendFour(0, b0, b1, b2, b3);
    AppendFour(Four(0, b0, b1, b2, b3), b4, b5, b6, b7);
    JoinFours(b0, b1, b2, b3, b4, b5, b6, b7);
  }

  lemma LoadsBigEndian(b: seq<byte>)
    requires |b| == 8
    ensures Load64(b) == FromBytes(b)
  {
    hide Loaded, Append, FromBytes, Wide;
    NoBytes(b[..0]);
    FromPrefix(b, 0);
    FromPrefix(b, 1);
    FromPrefix(b, 2);
    FromPrefix(b, 3);
    FromPrefix(b, 4);
    FromPrefix(b, 5);
    FromPrefix(b, 6);
    FromPrefix(b, 7);
    Horner(Wide(b[0]), Wide(b[1]), Wide(b[2]), Wide(b[3]),
           Wide(b[4]), Wide(b[5]), Wide(b[6]), Wide(b[7]));
    assert b[..8] == b;
  }

  lemma NoBytes(b: seq<byte>)
    requires b == []
    ensures FromBytes(b) == 0
  {
  }

  lemma FromPrefix(b: seq<byte>, n: nat)
    requires n < |b|
    ensures FromBytes(b[..n + 1]) == Append(FromBytes(b[..n]), Wide(b[n]))
  {
    hide Append, Wide;
    assert b[..n + 1][..n] == b[..n];
  }

  lemma StoresBigEndian(x: word)
    ensures Store64(x) == ToBytes(x, 8)
  {
    hide Byte;
    Shifts(x);
    var x1, x2, x3, x4 := x >> 8, x >> 16, x >> 24, x >> 32;
    var x5, x6, x7 := x >> 40, x >> 48, x >> 56;
    assert ToBytes(x7, 1) == [] + [Byte(x7)] == [Byte(x7)];
    assert ToBytes(x6, 2) == ToBytes(x7, 1) + [Byte(x6)];
    assert ToBytes(x5, 3) == ToBytes(x6, 2) + [Byte(x5)];
    assert ToBytes(x4, 4) == ToBytes(x5, 3) + [Byte(x4)];
    assert ToBytes(x3, 5) == ToBytes(x4, 4) + [Byte(x3)];
    assert ToBytes(x2, 6) == ToBytes(x3, 5) + [Byte(x2)];
    assert ToBytes(x1, 7) == ToBytes(x2, 6) + [Byte(x1)];
  }

  lemma Shifts(x: word)
    ensures (x >> 8) >> 8 == x >> 16 && (x >> 16) >> 8 == x >> 24 && (x >> 24) >> 8 == x >> 32
    ensures (x >> 32) >> 8 == x >> 40 && (x >> 40) >> 8 == x >> 48 && (x >> 48) >> 8 == x >> 56
  {}

  /** The macros of the source are the functions of the standard. */
  lemma WordsAgree()
    ensures Agree(WORDS, FIPS)
  {
    hide Add, Plus, Ch, Choice, Maj, Majority, Load64, FromBytes, Store64, ToBytes, BigSigma0, Sigma0, BigSigma1, Sigma1,
      SmallSigma0, Gamma0, SmallSigma1, Gamma1, CONSTANTS;
    forall x
      ensures Sigma0(x) == BigSigma0(x) && Sigma1(x) == BigSigma1(x)
      ensures Gamma0(x) == SmallSigma0(x) && Gamma1(x) == SmallSigma1(x)
    {
      SigmasAgree(x);
    }
    forall x, y
      ensures Add(x, y) == Plus(x, y)
    {
      AddsAgree(x, y);
    }
    forall x, y, z
      ensures Ch(x, y, z) == Choice(x, y, z) && Maj(x, y, z) == Majority(x, y, z)
    {
      ChIsChoice(x, y, z);
      MajIsMajority(x, y, z);
    }
    forall b: seq<byte> | |b| == 8
      ensures Load64(b) == FromBytes(b)
    {
      LoadsBigEndian(b);
    }
    forall x
      ensures Store64(x) == ToBytes(x, 8)
    {
      StoresBigEndian(x);
    }
  }

  lemma AddsAgree(x: word, y: word)
    ensures Add(x, y) == Plus(x, y)
  {
  }

  lemma SigmasAgree(x: word)
    ensures Sigma0(x) == BigSigma0(x) && Sigma1(x) == BigSigma1(x)
    ensures Gamma0(x) == SmallSigma0(x) && Gamma1(x) == SmallSigma1(x)
  {
    hide Xor3, Ror;
    RorRotates(x);
  }

  // ---- SHA-512 ----

  /** `sha512_compress` is the hash step of the standard. */
  method Compress(state: array<word>, b: seq<byte>)
    requires state.Length == 8 && |b| == 128
    modifies state
    ensures state[..] == FIPS.NextHash(old(state[..]), b)
  {
    WordsAgree();
    hide Agree;
    SameHash(WORDS, FIPS, state[..], b);
    WORDS.Compress(state, b);
  }

  /** The digest that the source computes, of messages of any length. */
  ghost function Sha512(m: seq<byte>): (h: seq<byte>)
    ensures |h| == 64
  {
    OutputLength(Absorb(WORDS, INITIAL, PaddedMod64(m)));
    Digest(WORDS, INITIAL, m)
  }

  lemma {:induction false} OutputLength(s: seq<word>)
    ensures |Output(WORDS, s)| == 8 * |s|
  {
    if s != [] {
      OutputLength(s[..|s| - 1]);
    }
  }

  /** It is the one of section 6.4 on every message that the 64-bit count can hold. */
  lemma Sha512IsStandard(m: seq<byte>)
    requires 8 * |m| < TWO64
    ensures Sha512(m) == Output(FIPS, Absorb(FIPS, INITIAL, Padded(m)))
  {
    WordsAgree();
    hide Agree;
    PaddingIsStandard(m);
    SameAbsorb(WORDS, FIPS, INITIAL, Padded(m));
    SameOutput(WORDS, FIPS, Absorb(FIPS, INITIAL, Padded(m)));
  }

  /** `sha512`: one update. */
  method Hash(m: seq<byte>) returns (h: seq<byte>)
    ensures h == Sha512(m)
  {
    hide Digest;
    var ctx := new Context(WORDS, INITIAL);
    ctx.Update(m);
    assert ctx.Data() == [] + m == m;
    h := ctx.Final();
  }

  /** `sha512_init`, two updates and `sha512_final`. */
  method HashTwo(a: seq<byte>, b: seq<byte>) returns (h: seq<byte>)
    ensures h == Sha512(a + b)
  {
    hide Digest;
    var ctx := new Context(WORDS, INITIAL);
    ctx.Update(a);
    assert ctx.Data() == [] + a == a;
    ctx.Update(b);
    assert ctx.Data() == a + b;
    h := ctx.Final();
  }

  /** The same with three updates. */
  method HashThree(a: seq<byte>, b: seq<byte>, c: seq<byte>) returns (h: seq<byte>)
    ensures h == Sha512(a + b + c)
  {
    hide Digest;
    var ctx := new Context(WORDS, INITIAL);
    ctx.Update(a);
    assert ctx.Data() == [] + a == a;
    ctx.Update(b);
    assert ctx.Data() == a + b;
    ctx.Update(c);
    assert ctx.Data() == a + b + c;
    h := ctx.Final();
  }
}
