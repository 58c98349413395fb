/** The fixed-width integers of the C sources. Arithmetic on a `newtype` is checked: the
    verifier proves at every operation that the mathematical result fits the width, so a
    method written over `int64` has no overflow on any input its precondition admits. */
module MachineInts {
  newtype byte = x: int | 0 <= x < 0x100
  newtype int8 = x: int | -0x80 <= x < 0x80
  newtype int32 = x: int | -0x8000_0000 <= x < 0x8000_0000
  newtype int64 = x: int | -0x8000_0000_0000_0000 <= x < 0x8000_0000_0000_0000
}

/** Exclusive or and inclusive or of bytes, bit by bit. */
module Bitwise {
  import opened MachineInts

  function Pow2(n: nat): (r: int)
    ensures r > 0
  {
    if n == 0 then 1 else 2 * Pow2(n - 1)
  }

  function XorBits(a: nat, b: nat, n: nat): (r: nat)
    ensures r < Pow2(n)
  {
    if n == 0 then 0 else (if a % 2 == b % 2 then 0 else 1) + 2 * XorBits(a / 2, b / 2, n - 1)
  }

  function OrBits(a: nat, b: nat, n: nat): (r: nat)
    ensures r < Pow2(n)
  {
    if n == 0 then 0 else (if a % 2 == 1 || b % 2 == 1 then 1 else 0) + 2 * OrBits(a / 2, b / 2, n - 1)
  }

  function AndBits(a: nat, b: nat, n: nat): (r: nat)
    ensures r < Pow2(n)
  {
    if n == 0 then 0 else (if a % 2 == 1 && b % 2 == 1 then 1 else 0) + 2 * AndBits(a / 2, b / 2, n - 1)
  }

  lemma PowerEight()
    ensures Pow2(8) == 0x100 && Pow2(7) == 0x80
  {
    assert Pow2(4) == 4 * Pow2(2);
    assert Pow2(6) == 4 * Pow2(4);
  }

  function Xor(x: byte, y: byte): byte
  {
    PowerEight();
    XorBits(x as int, y as int, 8) as byte
  }

  function Or(x: byte, y: byte): byte
  {
    PowerEight();
    OrBits(x as int, y as int, 8) as byte
  }

  lemma {:induction false} XorBitsZero(a: nat, b: nat, n: nat)
    requires a < Pow2(n) && b < Pow2(n)
    ensures XorBits(a, b, n) == 0 <==> a == b
  {
    if n > 0 {
      XorBitsZero(a / 2, b / 2, n - 1);
    }
  }

  lemma XorZero(x: byte, y: byte)
    ensures Xor(x, y) == 0 <==> x == y
  {
    PowerEight();
    XorBitsZero(x as int, y as int, 8);
  }

  lemma {:induction false} XorBitsTwice(a: nat, b: nat, n: nat)
    requires a < Pow2(n) && b < Pow2(n)
    ensures XorBits(XorBits(a, b, n), b, n) == a
  {
    if n > 0 {
      var bit, h := if a % 2 == b % 2 then 0 else 1, XorBits(a / 2, b / 2, n - 1);
      XorBitsTwice(a / 2, b / 2, n - 1);
      LastBit(bit, h);
      assert XorBits(a, b, n) == bit + 2 * h;
      assert a == a % 2 + 2 * (a / 2);
    }
  }

  lemma LastBit(bit: nat, h: nat)
    requires bit < 2
    ensures (bit + 2 * h) / 2 == h && (bit + 2 * h) % 2 == bit
  {
  }

  lemma XorTwice(x: byte, y: byte)
    ensures Xor(Xor(x, y), y) == x
  {
    PowerEight();
    XorBitsTwice(x as int, y as int, 8);
  }

  lemma {:induction false} XorSymmetric(a: nat, b: nat, n: nat)
    ensures XorBits(a, b, n) == XorBits(b, a, n)
  {
    if n > 0 {
      XorSymmetric(a / 2, b / 2, n - 1);
    }
  }

  lemma {:induction false} XorNothing(a: nat, n: nat)
    requires a < Pow2(n)
    ensures XorBits(a, 0, n) == XorBits(0, a, n) == a
  {
    if n > 0 {
      XorNothing(a / 2, n - 1);
    }
  }

  lemma {:induction false} AndNothing(a: nat, n: nat)
    ensures AndBits(a, 0, n) == AndBits(0, a, n) == 0
  {
    if n > 0 {
      AndNothing(a / 2, n - 1);
    }
  }

  lemma {:induction false} AndOnes(a: nat, n: nat)
    requires a < Pow2(n)
    ensures AndBits(a, Pow2(n) - 1, n) == AndBits(Pow2(n) - 1, a, n) == a
  {
    if n > 0 {
      var ones := Pow2(n) - 1;
      assert ones % 2 == 1 && ones / 2 == Pow2(n - 1) - 1;
      AndOnes(a / 2, n - 1);
    }
  }

  lemma {:induction false} OrBitsZero(a: nat, b: nat, n: nat)
    requires a < Pow2(n) && b < Pow2(n)
    ensures OrBits(a, b, n) == 0 <==> a == 0 && b == 0
  {
    if n > 0 {
      OrBitsZero(a / 2, b / 2, n - 1);
    }
  }

  /** Setting the top bit of a byte below 128. */
  lemma XorTop(x: byte, b: byte)
    requires x < 0x80 && b <= 1
    ensures Xor(x, 0x80 * b) == x + 0x80 * b
  {
    PowerEight();
    XorHigh(x as int, 0x80 * b as int, 7);
  }

  lemma {:induction false} XorHigh(x: nat, y: nat, n: nat)
    requires x < Pow2(n) && (y == 0 || y == Pow2(n))
    ensures XorBits(x, y, n + 1) == x + y
  {
    if n == 0 {
      assert XorBits(x / 2, y / 2, 0) == 0;
    } else {
      XorHigh(x / 2, y / 2, n - 1);
    }
  }

  /** Where no bit is set in both, the inclusive or is the sum. */
  lemma {:induction false} OrDisjoint(a: nat, b: nat, c: nat, m: nat, n: nat)
    requires m <= n && a < Pow2(m) && b == Pow2(m) * c && b < Pow2(n)
    ensures OrBits(a, b, n) == a + b
  {
    if n > 0 {
      if m > 0 {
        HalfShifted(b, c, m);
        OrDisjoint(a / 2, b / 2, c, m - 1, n - 1);
      } else {
        OrDisjoint(0, b / 2, b / 2, 0, n - 1);
      }
    }
  }

  lemma HalfShifted(b: nat, c: nat, m: nat)
    requires m > 0 && b == Pow2(m) * c
    ensures b % 2 == 0 && b / 2 == Pow2(m - 1) * c
  {
    var w := Pow2(m - 1) * c;
    assert b == 2 * w;
  }

  lemma OrZero(x: byte, y: byte)
    ensures Or(x, y) == 0 <==> x == 0 && y == 0
  {
    PowerEight();
    OrBitsZero(x as int, y as int, 8);
  }

  // ---- Single bits ----

  /** Bit t of n. */
  function Bit(n: nat, t: nat): int
  {
    if t == 0 then n % 2 else Bit(n / 2, t - 1)
  }

  lemma {:induction false} BitLow(x: nat, y: nat, t: nat, m: nat)
    requires t < m
    ensures Bit(x + Pow2(m) * y, t) == Bit(x, t)
  {
    var w := Pow2(m - 1) * y;
    assert Pow2(m) * y == 2 * w;
    assert (x + 2 * w) / 2 == x / 2 + w && (x + 2 * w) % 2 == x % 2;
    if t > 0 {
      BitLow(x / 2, y, t - 1, m - 1);
    }
  }

  lemma {:induction false} BitHigh(x: nat, y: nat, t: nat, m: nat)
    requires x < Pow2(m)
    ensures Bit(x + Pow2(m) * y, m + t) == Bit(y, t)
  {
    if m > 0 {
      var w := Pow2(m - 1) * y;
      assert Pow2(m) * y == 2 * w;
      assert (x + 2 * w) / 2 == x / 2 + w;
      BitHigh(x / 2, y, t, m - 1);
    }
  }

  lemma BitRange(n: nat, t: nat)
    ensures Bit(n, t) == 0 || Bit(n, t) == 1
  {
  }

  lemma {:induction false} BitXor(a: nat, b: nat, t: nat, n: nat)
    requires t < n
    ensures Bit(XorBits(a, b, n), t) == (Bit(a, t) + Bit(b, t)) % 2
  {
    var bit, h := if a % 2 == b % 2 then 0 else 1, XorBits(a / 2, b / 2, n - 1);
    LastBit(bit, h);
    if t > 0 {
      BitXor(a / 2, b / 2, t - 1, n - 1);
    }
  }

  lemma {:induction false} BitAnd(a: nat, b: nat, t: nat, n: nat)
    requires t < n
    ensures Bit(AndBits(a, b, n), t) == 1 <==> Bit(a, t) == 1 && Bit(b, t) == 1
  {
    if t > 0 {
      BitAnd(a / 2, b / 2, t - 1, n - 1);
    }
  }

  ghost predicate IsSet(n: nat, t: nat)
  {
    Bit(n, t) == 1
  }

  ghost predicate AllSet(a: nat, n: nat)
  {
    forall t | 0 <= t < n :: IsSet(a, t)
  }

  /** The number whose bits are all ones. */
  lemma {:induction false} AllSetIs(a: nat, n: nat)
    requires a < Pow2(n)
    ensures AllSet(a, n) <==> a == Pow2(n) - 1
  {
    if n > 0 {
      AllSetIs(a / 2, n - 1);
      LastBit(1, Pow2(n - 1) - 1);
      forall t | 0 <= t < n
        ensures IsSet(a, t) <==> if t == 0 then a % 2 == 1 else IsSet(a / 2, t - 1)
      {
      }
      hide IsSet;
      if AllSet(a, n) {
        assert IsSet(a, 0);
        assert forall t | 0 <= t < n - 1 :: IsSet(a / 2, t) <==> IsSet(a, t + 1);
      }
    }
  }
}

/** The little-endian value of a byte string. */
module LittleEndian {
  import opened Bitwise
  import opened MachineInts

  ghost function LE(b: seq<byte>): (n: nat)
  {
    if b == [] then 0 else b[0] as int + 256 * LE(b[1..])
  }

  ghost function Pow256(n: nat): (r: nat)
    ensures r > 0
  {
    if n == 0 then 1 else 256 * Pow256(n - 1)
  }

  lemma {:induction false} Bounded(b: seq<byte>)
    ensures LE(b) < Pow256(|b|)
  {
    if b != [] {
      Bounded(b[1..]);
    }
  }

  lemma LEStep(b: seq<byte>, i: nat)
    requires i < |b|
    ensures LE(b[i..]) == b[i] as int + 0x100 * LE(b[i + 1..])
  {
    assert b[i..][1..] == b[i + 1..];
  }

  /** `load_3` */
  function Load3(b: seq<byte>, i: nat): (r: int64)
    requires i + 3 <= |b|
    ensures r as int == b[i] as int + 0x100 * b[i + 1] as int + 0x1_0000 * b[i + 2] as int
  {
    b[i] as int64 + b[i + 1] as int64 * 0x100 + b[i + 2] as int64 * 0x1_0000
  }

  /** `load_4` */
  function Load4(b: seq<byte>, i: nat): (r: int64)
    requires i + 4 <= |b|
    ensures r as int == b[i] as int + 0x100 * b[i + 1] as int + 0x1_0000 * b[i + 2] as int + 0x100_0000 * b[i + 3] as int
  {
    Load3(b, i) + b[i + 3] as int64 * 0x100_0000
  }

  /** The last byte is the most significant one. */
  lemma {:induction false} TopByte(b: seq<byte>)
    requires |b| > 0
    ensures b[|b| - 1] as int * Pow256(|b| - 1) <= LE(b) < (b[|b| - 1] as int + 1) * Pow256(|b| - 1)
  {
    if |b| == 1 {
      assert LE(b[1..]) == 0;
    } else {
      var t, w := b[|b| - 1] as int, Pow256(|b| - 2);
      TopByte(b[1..]);
      Scale(t, w);
    }
  }

  lemma Scale(t: int, w: int)
    ensures t * (256 * w) == 256 * (t * w) && (t + 1) * (256 * w) == 256 * ((t + 1) * w)
  {
  }

  lemma {:induction false} Pow256Add(m: nat, n: nat)
    ensures Pow256(m + n) == Pow256(m) * Pow256(n)
  {
    if m > 0 {
      Pow256Add(m - 1, n);
      assert 256 * (Pow256(m - 1) * Pow256(n)) == 256 * Pow256(m - 1) * Pow256(n);
    }
  }

  lemma Pow256At31()
    ensures Pow256(31) == 0x100000000000000000000000000000000000000000000000000000000000000
  {
    assert Pow256(1) == 0x100;
    hide Pow256;
    Pow256Add(1, 1);
    Pow256Add(2, 1);
    Pow256Add(2, 2);
    Pow256Add(4, 3);
    Pow256Add(4, 4);
    Pow256Add(8, 8);
    Pow256Add(16, 8);
    Pow256Add(24, 7);
  }

  // ---- Bits ----

  /** `e[t / 8] >> (t & 7) & 1` is bit t of the number in e. */
  lemma {:induction false} BitOfBytes(e: seq<byte>, t: nat)
    requires t / 8 < |e|
    ensures Bit(LE(e), t) == Bit(e[t / 8] as int, t % 8)
  {
    PowerEight();
    if t < 8 {
      BitLow(e[0] as int, LE(e[1..]), t, 8);
    } else {
      BitHigh(e[0] as int, LE(e[1..]), t - 8, 8);
      BitOfBytes(e[1..], t - 8);
    }
  }

  lemma {:induction false} PowersAgree(n: nat)
    ensures Pow256(n) == Pow2(8 * n)
  {
    if n > 0 {
      PowersAgree(n - 1);
      PowerEight();
      var m := 8 * n;
      assert Pow2(m) == 2 * Pow2(m - 1) == 4 * Pow2(m - 2) == 8 * Pow2(m - 3) == 16 * Pow2(m - 4);
      assert Pow2(m - 4) == 2 * Pow2(m - 5) == 4 * Pow2(m - 6) == 8 * Pow2(m - 7) == 16 * Pow2(m - 8);
    }
  }
}

/** Big-endian byte strings. */
module BigEndianBytes {
  import opened MachineInts
  import opened LittleEndian

  /** The k-byte big-endian string of n, cut to k bytes. */
  function BigEndian(n: nat, k: nat): (b: seq<byte>)
    ensures |b| == k
  {
    if k == 0 then [] else BigEndian(n / 0x100, k - 1) + [(n % 0x100) as byte]
  }

  function BE(b: seq<byte>): (n: nat)
  {
    if b == [] then 0 else 0x100 * BE(b[..|b| - 1]) + b[|b| - 1] as int
  }

  ghost function Zeros(n: nat): (z: seq<byte>)
    ensures |z| == n && forall i | 0 <= i < n :: z[i] == 0
  {
    seq(n, _ => 0)
  }

  lemma {:induction false} BEBounded(b: seq<byte>)
    ensures BE(b) < Pow256(|b|)
  {
    if b != [] {
      BEBounded(b[..|b| - 1]);
    }
  }

  /** Decoding undoes encoding when nothing was cut. */
  lemma {:induction false} BigEndianDecodes(n: nat, k: nat)
    requires n < Pow256(k)
    ensures BE(BigEndian(n, k)) == n
  {
    if k > 0 {
      BigEndianDecodes(n / 0x100, k - 1);
      assert BigEndian(n, k)[..k - 1] == BigEndian(n / 0x100, k - 1);
    }
  }

  /** Dropping leading bytes. */
  lemma {:induction false} BigEndianSuffix(n: nat, k: nat, j: nat)
    requires j <= k
    ensures BigEndian(n, k)[j..] == BigEndian(n, k - j)
  {
    if j < k {
      BigEndianSuffix(n / 0x100, k - 1, j);
      assert BigEndian(n, k)[j..] == BigEndian(n / 0x100, k - 1)[j..] + [(n % 0x100) as byte];
    }
  }

  lemma {:induction false} TrailingZeros(b: seq<byte>, k: nat)
    ensures BE(b + Zeros(k)) == BE(b) * Pow256(k)
  {
    if k == 0 {
      assert b + Zeros(0) == b;
    } else {
      var x := b + Zeros(k);
      TrailingZeros(b, k - 1);
      assert x[..|x| - 1] == b + Zeros(k - 1);
      assert 0x100 * (BE(b) * Pow256(k - 1)) == BE(b) * Pow256(k);
    }
  }

  /** Encoding undoes decoding. */
  lemma {:induction false} BEEncodes(b: seq<byte>)
    ensures BigEndian(BE(b), |b|) == b
  {
    if b != [] {
      BEEncodes(b[..|b| - 1]);
      assert b == b[..|b| - 1] + [b[|b| - 1]];
    }
  }

  lemma {:induction false} BEAppend(a: seq<byte>, b: seq<byte>)
    ensures BE(a + b) == BE(a) * Pow256(|b|) + BE(b)
  {
    if b == [] {
      assert a + b == a;
    } else {
      var n := |b| - 1;
      BEAppend(a, b[..n]);
      assert (a + b)[..|a + b| - 1] == a + b[..n];
      assert 0x100 * (BE(a) * Pow256(n)) == BE(a) * Pow256(|b|);
    }
  }

  /** Small numbers start with zeros. */
  lemma {:induction false} BigEndianSmall(n: nat, k: nat, j: nat)
    requires n < Pow256(k)
    ensures BigEndian(n, k + j) == Zeros(j) + BigEndian(n, k)
  {
    if k > 0 {
      BigEndianSmall(n / 0x100, k - 1, j);
    } else if j > 0 {
      BigEndianSmall(0, 0, j - 1);
    }
  }
}

/** The scalar clamping that key generation and key exchange share. */
module Clamping {
  import opened MachineInts
  import opened Bitwise
  import opened LittleEndian

  /** Bits 0, 1, 2 and 255 cleared, bit 254 set. */
  ghost function Clamped(h: seq<byte>): (e: seq<byte>)
    requires |h| >= 32
    ensures |e| == |h|
  {
    h[0 := h[0] - h[0] % 8][31 := h[31] % 64 + 64]
  }

  /** The three masks `&= 248`, `&= 63` and `|= 64`. */
  method Clamp(e: array<byte>)
    requires e.Length >= 32
    modifies e
    ensures e[..] == Clamped(old(e[..])) && e[31] <= 127
    ensures LE(e[..32]) == Scalar(old(LE(e[..32]))) && e[32..] == old(e[32..])
  {
    ClampedScalar(e[..]);
    assert e[..][..32] == e[..32];
    e[0] := e[0] - e[0] % 8;
    e[31] := e[31] % 64;
    e[31] := e[31] + 64;
    assert e[..][..32] == e[..32];
  }

  // ---- What that makes of the number ----

  const TWO245: int := 0x20000000000000000000000000000000000000000000000000000000000000
  const TWO251: int := 0x800000000000000000000000000000000000000000000000000000000000000
  const TWO254: int := 0x4000000000000000000000000000000000000000000000000000000000000000

  /** The multiple of 8 from 2^254 on, below 2^255, that agrees with n in between. */
  ghost function Scalar(n: nat): (e: nat)
    ensures e % 8 == 0 && TWO254 <= e < 2 * TWO254
  {
    TWO254 + 8 * (n / 8 % TWO251)
  }

  lemma ClampedScalar(h: seq<byte>)
    requires |h| >= 32
    ensures LE(Clamped(h)[..32]) == Scalar(LE(h[..32]))
    ensures forall i | 0 <= i < |h| && i != 0 && i != 31 :: Clamped(h)[i] == h[i]
  {
    var s, e := h[..32], Clamped(h)[..32];
    assert e[1..31] == s[1..31];
    Parts(s);
    Parts(e);
    Bounded(s[1..31]);
    PowersOf256();
    hide LE, Pow256;
    MiddleBits(s[0] as int, LE(s[1..31]), s[31] as int);
  }

  /** First byte, middle and last byte of a 32-byte number. */
  lemma Parts(s: seq<byte>)
    requires |s| == 32
    ensures LE(s) == s[0] as int + 0x100 * LE(s[1..31]) + 8 * TWO245 * s[31] as int
  {
    hide LE, Pow256;
    LEStep(s, 0);
    assert s[0..] == s;
    LastByte(s[1..]);
    assert s[1..][..30] == s[1..31];
    assert s[1..][30] == s[31];
    PowersOf256();
  }

  lemma {:induction false} LastByte(s: seq<byte>)
    requires |s| > 0
    ensures LE(s) == LE(s[..|s| - 1]) + Pow256(|s| - 1) * s[|s| - 1] as int
  {
    if |s| > 1 {
      LastByte(s[1..]);
      assert s[1..][..|s| - 2] == s[..|s| - 1][1..];
    }
  }

  lemma PowersOf256()
    ensures 0x100 * Pow256(30) == Pow256(31) == 8 * TWO245
  {
    Pow256At31();
  }

  lemma MiddleBits(lo: nat, mid: nat, hi: nat)
    requires lo < 0x100 && 0x100 * mid + 0x100 <= 8 * TWO245 && hi < 0x100
    ensures (lo + 0x100 * mid + 8 * TWO245 * hi) / 8 % TWO251 == lo / 8 + 0x20 * mid + TWO245 * (hi % 64)
  {
    var x := lo / 8 + 0x20 * mid + TWO245 * (hi % 64);
    assert (lo + 0x100 * mid + 8 * TWO245 * hi) / 8 == x + TWO251 * (hi / 64);
  }

  /** Bit by bit. */
  lemma ScalarBits(h: seq<byte>, t: nat)
    requires |h| == 32 && t < 256
    ensures Bit(LE(Clamped(h)), t) == if t < 3 || t == 255 then 0 else if t == 254 then 1 else Bit(LE(h), t)
  {
    BitOfBytes(h, t);
    BitOfBytes(Clamped(h), t);
    hide LE;
    if t < 8 {
      LowBits(h[0] as int, t);
    } else if t >= 248 {
      HighBits(h[31] as int, t % 8);
    }
  }

  lemma LowBits(x: nat, t: nat)
    requires x < 0x100
    ensures Bit(x - x % 8, t) == if t < 3 then 0 else Bit(x, t)
  {
    var q := x / 8;
    assert Pow2(3) == 8 by { PowerEight(); }
    assert x == x % 8 + Pow2(3) * q && x - x % 8 == 0 + Pow2(3) * q;
    if t < 3 {
      BitLow(0, q, t, 3);
      NoBits(t);
    } else {
      BitHigh(0, q, t - 3, 3);
      BitHigh(x % 8, q, t - 3, 3);
    }
  }

  lemma {:induction false} NoBits(t: nat)
    ensures Bit(0, t) == 0
  {
    if t > 0 {
      NoBits(t - 1);
    }
  }

  lemma HighBits(x: nat, t: nat)
    requires x < 0x100 && t < 8
    ensures Bit(x % 64 + 64, t) == if t < 6 then Bit(x, t) else if t == 6 then 1 else 0
  {
    assert Pow2(6) == 64 by { assert Pow2(6) == 64 * Pow2(0); }
    if t < 6 {
      BitLow(x % 64, 1, t, 6);
      BitLow(x % 64, x / 64, t, 6);
      assert x == x % 64 + Pow2(6) * (x / 64);
    } else {
      BitHigh(x % 64, 1, t - 6, 6);
      assert Bit(1, 1) == Bit(0, 0);
    }
  }
}
