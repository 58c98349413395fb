/** Byte strings and field elements: `fe_frombytes`, `fe_tobytes`, `fe_mul121666`, and the
    additive operations (third-party/ed25519/fe.c). */
module FieldBytes {
  import opened MachineInts
  import Bitwise
  import opened LittleEndian
  import opened FieldElement
  import opened FieldMul

  /** The odd half of the ten parallel carries of `fe_frombytes` and `fe_mul121666`. */
  method CarryOdd(x0: int64, x1: int64, x2: int64, x3: int64, x4: int64, x5: int64, x6: int64, x7: int64,
      x8: int64, x9: int64)
    returns (h0: int64, h1: int64, h2: int64, h3: int64, h4: int64, h5: int64, h6: int64, h7: int64, h8: int64,
        h9: int64, ghost q: int64)
    requires -10000000000000 <= x0 <= 10000000000000 && -10000000000000 <= x1 <= 10000000000000
        && -10000000000000 <= x2 <= 10000000000000
    requires -10000000000000 <= x3 <= 10000000000000 && -10000000000000 <= x4 <= 10000000000000
        && -10000000000000 <= x5 <= 10000000000000
    requires -10000000000000 <= x6 <= 10000000000000 && -10000000000000 <= x7 <= 10000000000000
        && -10000000000000 <= x8 <= 10000000000000
    requires -10000000000000 <= x9 <= 10000000000000
    ensures -0x1000000 <= h1 <= 0x1000000 && -0x1000000 <= h3 <= 0x1000000 && -0x1000000 <= h5 <= 0x1000000
    ensures -0x1000000 <= h7 <= 0x1000000 && -0x1000000 <= h9 <= 0x1000000
    ensures -10000010000000 <= h0 <= 10000010000000 && -10000010000000 <= h2 <= 10000010000000
    ensures -10000010000000 <= h4 <= 10000010000000 && -10000010000000 <= h6 <= 10000010000000
    ensures -10000010000000 <= h8 <= 10000010000000
    ensures Weigh(h0 as int, h1 as int, h2 as int, h3 as int, h4 as int, h5 as int, h6 as int, h7 as int,
        h8 as int, h9 as int)
            == Weigh(x0 as int, x1 as int, x2 as int, x3 as int, x4 as int, x5 as int, x6 as int, x7 as int,
                x8 as int, x9 as int) - q as int * P
  {
    h0, h1, h2, h3, h4 := x0, x1, x2, x3, x4;
    h5, h6, h7, h8, h9 := x5, x6, x7, x8, x9;
    var c: int64;
    c := Round25(h9);
    h0, h9, q := h0 + c * 19, h9 - 0x2000000 * c, c;
    c := Round25(h1);
    h2, h1 := h2 + c, h1 - 0x2000000 * c;
    c := Round25(h3);
    h4, h3 := h4 + c, h3 - 0x2000000 * c;
    c := Round25(h5);
    h6, h5 := h6 + c, h5 - 0x2000000 * c;
    c := Round25(h7);
    h8, h7 := h8 + c, h7 - 0x2000000 * c;
  }

  /** The even half. */
  method CarryEven(x0: int64, x1: int64, x2: int64, x3: int64, x4: int64, x5: int64, x6: int64, x7: int64,
      x8: int64, x9: int64)
    returns (h0: int64, h1: int64, h2: int64, h3: int64, h4: int64, h5: int64, h6: int64, h7: int64, h8: int64, h9: int64)
    requires -0x1000000 <= x1 <= 0x1000000 && -0x1000000 <= x3 <= 0x1000000 && -0x1000000 <= x5 <= 0x1000000
    requires -0x1000000 <= x7 <= 0x1000000 && -0x1000000 <= x9 <= 0x1000000
    requires -10000010000000 <= x0 <= 10000010000000 && -10000010000000 <= x2 <= 10000010000000
    requires -10000010000000 <= x4 <= 10000010000000 && -10000010000000 <= x6 <= 10000010000000
    requires -10000010000000 <= x8 <= 10000010000000
    ensures -0x2000000 <= h0 <= 0x2000000 && -16944988 <= h1 <= 16944988 && -0x2000000 <= h2 <= 0x2000000
    ensures -16944988 <= h3 <= 16944988 && -0x2000000 <= h4 <= 0x2000000 && -16944988 <= h5 <= 16944988
    ensures -0x2000000 <= h6 <= 0x2000000 && -16944988 <= h7 <= 16944988 && -0x2000000 <= h8 <= 0x2000000
    ensures -16944988 <= h9 <= 16944988
    ensures Weigh(h0 as int, h1 as int, h2 as int, h3 as int, h4 as int, h5 as int, h6 as int, h7 as int,
        h8 as int, h9 as int)
            == Weigh(x0 as int, x1 as int, x2 as int, x3 as int, x4 as int, x5 as int, x6 as int, x7 as int,
                x8 as int, x9 as int)
  {
    h0, h1, h2, h3, h4 := x0, x1, x2, x3, x4;
    h5, h6, h7, h8, h9 := x5, x6, x7, x8, x9;
    var c: int64;
    c := Round26(h0);
    h1, h0 := h1 + c, h0 - 0x4000000 * c;
    c := Round26(h2);
    h3, h2 := h3 + c, h2 - 0x4000000 * c;
    c := Round26(h4);
    h5, h4 := h5 + c, h4 - 0x4000000 * c;
    c := Round26(h6);
    h7, h6 := h7 + c, h6 - 0x4000000 * c;
    c := Round26(h8);
    h9, h8 := h9 + c, h8 - 0x4000000 * c;
  }

  method CarryTen(c: seq<int64>) returns (r: seq<int32>)
    requires Below(c, 10000000000000)
    ensures Tight(r) && Cong(Val(r), Weighted64(c))
  {
    var h0, h1, h2, h3, h4, h5, h6, h7, h8, h9;
    ghost var q;
    h0, h1, h2, h3, h4, h5, h6, h7, h8, h9, q := CarryOdd(c[0], c[1], c[2], c[3], c[4], c[5], c[6], c[7], c[8], c[9]);
    h0, h1, h2, h3, h4, h5, h6, h7, h8, h9 := CarryEven(h0, h1, h2, h3, h4, h5, h6, h7, h8, h9);
    r := [h0 as int32, h1 as int32, h2 as int32, h3 as int32, h4 as int32,
          h5 as int32, h6 as int32, h7 as int32, h8 as int32, h9 as int32];
    ValIsWeighted(r);
    Congruent(Val(r), Weighted64(c), -(q as int));
  }

  /** `fe_mul121666`. h may be f. */
  method Mul121666(h: array<int32>, f: array<int32>)
    requires h.Length == f.Length == 10 && Medium(f[..])
    modifies h
    ensures Tight(h[..]) && Cong(Val(h[..]), old(121666 * Val(f[..])))
  {
    var x := f[..];
    var c := [x[0] as int64 * 121666, x[1] as int64 * 121666, x[2] as int64 * 121666, x[3] as int64 * 121666,
        x[4] as int64 * 121666,
              x[5] as int64 * 121666, x[6] as int64 * 121666, x[7] as int64 * 121666, x[8] as int64 * 121666,
                  x[9] as int64 * 121666];
    ValIsWeighted(x);
    assert Weighted64(c) == 121666 * Val(x);
    var r := CarryTen(c);
    Store(h, r);
  }

  // ---- Reading ----

  /** The number in the low 255 bits. */
  ghost function Low255(b: seq<byte>): int
    requires |b| == 32
  {
    LE(b[31 := b[31] % 128])
  }

  lemma LE8(b: seq<byte>, i: nat)
    requires i + 8 <= |b|
    ensures LE(b[i..]) == b[i] as int + 0x100 * b[i + 1] as int + 0x10000 * b[i + 2] as int + 0x1000000 * b[i
        + 3] as int + 0x100000000 * b[i + 4] as int + 0x10000000000 * b[i + 5] as int + 0x1000000000000 * b[i
        + 6] as int + 0x100000000000000 * b[i + 7] as int
                          + 0x10000000000000000 * LE(b[i + 8..])
  {
    LEStep(b, i); LEStep(b, i + 1); LEStep(b, i + 2); LEStep(b, i + 3); LEStep(b, i + 4); LEStep(b, i
        + 5); LEStep(b, i + 6); LEStep(b, i + 7);
  }

  lemma EightLE(b: seq<byte>, i: nat)
    requires i + 8 <= |b|
    ensures LE(b[i..]) == Eight(b, i) + 0x10000000000000000 * LE(b[i + 8..])
  {
    hide LE;
    LE8(b, i);
  }

  lemma LE32(b: seq<byte>)
    requires |b| == 32
    ensures LE(b) == Eight(b, 0) + 0x10000000000000000 * Eight(b, 8) + 0x100000000000000000000000000000000 * Eight(b, 16)
        + 0x1000000000000000000000000000000000000000000000000 * Eight(b, 24)
  {
    assert b[0..] == b && b[32..] == [] && LE(b[32..]) == 0;
    hide LE, Eight;
    EightLE(b, 0);
    EightLE(b, 8);
    EightLE(b, 16);
    EightLE(b, 24);
  }

  ghost function Eight(b: seq<byte>, i: nat): int
    requires i + 8 <= |b|
  {
    b[i] as int + 0x100 * b[i + 1] as int + 0x10000 * b[i + 2] as int + 0x1000000 * b[i + 3] as int
        + 0x100000000 * b[i + 4] as int + 0x10000000000 * b[i + 5] as int + 0x1000000000000 * b[i + 6] as int
        + 0x100000000000000 * b[i + 7] as int
  }

  lemma Low255Is(b: seq<byte>)
    requires |b| == 32
    ensures LE(b) == Low255(b) + 0x8000000000000000000000000000000000000000000000000000000000000000 * (b[31] as int / 128)
  {
    hide LE, Eight;
    var c := b[31 := b[31] % 128];
    LE32(b);
    LE32(c);
    SameEight(b, c, 0);
    SameEight(b, c, 8);
    SameEight(b, c, 16);
    TopEight(b, c);
  }

  lemma SameEight(b: seq<byte>, c: seq<byte>, i: nat)
    requires |b| == |c| == 32 && i + 8 < 32 && forall j | 0 <= j < 31 :: b[j] == c[j]
    ensures Eight(b, i) == Eight(c, i)
  {
  }

  lemma TopEight(b: seq<byte>, c: seq<byte>)
    requires |b| == 32 && c == b[31 := b[31] % 128]
    ensures Eight(b, 24) == Eight(c, 24) + 0x8000000000000000 * (b[31] as int / 128)
  {
    assert b[31] as int == b[31] as int % 128 + 128 * (b[31] as int / 128);
  }

  /** `fe_frombytes`. */
  method FromBytes(h: array<int32>, s: seq<byte>)
    requires h.Length == 10 && |s| == 32
    modifies h
    ensures Tight(h[..]) && Cong(Val(h[..]), Low255(s))
  {
    var c := [Load4(s, 0), Load3(s, 4) * 0x40, Load3(s, 7) * 0x20, Load3(s, 10) * 0x8, Load3(s, 13) * 0x4,
              Load4(s, 16), Load3(s, 20) * 0x80, Load3(s, 23) * 0x20, Load3(s, 26) * 0x10,
              Load3(s, 29) % 0x800000 * 0x4];
    Windows(s, c);
    var r := CarryTen(c);
    Store(h, r);
  }

  lemma Windows(s: seq<byte>, c: seq<int64>)
    requires |s| == 32 && |c| == 10
    requires c[0] == Load4(s, 0) && c[1] == Load3(s, 4) * 0x40 && c[2] == Load3(s, 7) * 0x20
    requires c[3] == Load3(s, 10) * 0x8 && c[4] == Load3(s, 13) * 0x4 && c[5] == Load4(s, 16)
    requires c[6] == Load3(s, 20) * 0x80 && c[7] == Load3(s, 23) * 0x20 && c[8] == Load3(s, 26) * 0x10
    requires c[9] == Load3(s, 29) % 0x800000 * 0x4
    ensures Weighted64(c) == Low255(s)
  {
    hide Load3, Load4, LE, Eight;
    var t := s[31 := s[31] % 128];
    LE32(t);
    TopBit(s[29] as int, s[30] as int, s[31] as int);
    LowHalf(t, c[0] as int, c[1] as int, c[2] as int, c[3] as int, c[4] as int);
    HighHalf(t, c[5] as int, c[6] as int, c[7] as int, c[8] as int, c[9] as int);
  }

  lemma LowHalf(t: seq<byte>, c0: int, c1: int, c2: int, c3: int, c4: int)
    requires |t| == 32 && c0 == Load4(t, 0) as int && c1 == Load3(t, 4) as int * 0x40
    requires c2 == Load3(t, 7) as int * 0x20 && c3 == Load3(t, 10) as int * 0x8 && c4 == Load3(t, 13) as int * 0x4
    ensures c0 + 0x4000000 * c1 + 0x8000000000000 * c2 + 0x20000000000000000000 * c3
            + 0x40000000000000000000000000 * c4 == Eight(t, 0) + 0x10000000000000000 * Eight(t, 8)
  {
    hide Load3, Load4;
  }

  lemma HighHalf(t: seq<byte>, c5: int, c6: int, c7: int, c8: int, c9: int)
    requires |t| == 32 && c5 == Load4(t, 16) as int && c6 == Load3(t, 20) as int * 0x80
    requires c7 == Load3(t, 23) as int * 0x20 && c8 == Load3(t, 26) as int * 0x10 && c9 == Load3(t, 29) as int * 0x4
    ensures c5 + 0x2000000 * c6 + 0x8000000000000 * c7 + 0x10000000000000000000 * c8
            + 0x40000000000000000000000000 * c9 == Eight(t, 16) + 0x10000000000000000 * Eight(t, 24)
  {
    hide Load3, Load4;
  }

  lemma TopBit(x: int, y: int, z: int)
    requires 0 <= x < 0x100 && 0 <= y < 0x100 && 0 <= z < 0x100
    ensures (x + 0x100 * y + 0x10000 * z) % 0x800000 == x + 0x100 * y + 0x10000 * (z % 128)
  {
  }

  // ---- Writing ----

  /** `x >> 26` and `x >> 25` on int32, rounding down. */
  function Floor26(x: int32): (c: int32)
    ensures 0 <= x as int - 0x4000000 * c as int < 0x4000000
  {
    x / 0x4000000
  }

  function Floor25(x: int32): (c: int32)
    ensures 0 <= x as int - 0x2000000 * c as int < 0x2000000
  {
    x / 0x2000000
  }

  /** Carries from limb 0 to limb 4, rounding down. */
  method CarryUpLow(x0: int32, x1: int32, x2: int32, x3: int32, x4: int32, c: int32) returns (d0: int32, d1: int32,
      d2: int32, d3: int32, d4: int32, carry: int32)
    requires -73820000 <= x0 <= 73820000 && -36910000 <= x1 <= 36910000 && -73820000 <= x2 <= 73820000
        && -36910000 <= x3 <= 36910000 && -73820000 <= x4 <= 73820000
    requires -1000 <= c <= 1000
    ensures 0 <= d0 < 0x4000000 && 0 <= d1 < 0x2000000 && 0 <= d2 < 0x4000000 && 0 <= d3 < 0x2000000
        && 0 <= d4 < 0x4000000
    ensures -4 <= carry <= 4
    ensures x0 as int + 0x4000000 * x1 as int + 0x8000000000000 * x2 as int + 0x20000000000000000000 * x3 as int
        + 0x40000000000000000000000000 * x4 as int + c as int
            == d0 as int + 0x4000000 * d1 as int + 0x8000000000000 * d2 as int + 0x20000000000000000000 * d3 as int
                + 0x40000000000000000000000000 * d4 as int + 0x100000000000000000000000000000000 * carry as int
  {
    var h0 := x0 + c;
    var c0 := Floor26(h0);
    d0 := h0 - 0x4000000 * c0;
    var h1 := x1 + c0;
    var c1 := Floor25(h1);
    d1 := h1 - 0x2000000 * c1;
    var h2 := x2 + c1;
    var c2 := Floor26(h2);
    d2 := h2 - 0x4000000 * c2;
    var h3 := x3 + c2;
    var c3 := Floor25(h3);
    d3 := h3 - 0x2000000 * c3;
    var h4 := x4 + c3;
    var c4 := Floor26(h4);
    d4 := h4 - 0x4000000 * c4;
    carry := c4;
  }

  /** Carries from limb 5 to limb 9. */
  method CarryUpHigh(x5: int32, x6: int32, x7: int32, x8: int32, x9: int32, c: int32) returns (d5: int32,
      d6: int32, d7: int32, d8: int32, d9: int32, carry: int32)
    requires -36910000 <= x5 <= 36910000 && -73820000 <= x6 <= 73820000 && -36910000 <= x7 <= 36910000
        && -73820000 <= x8 <= 73820000 && -36910000 <= x9 <= 36910000
    requires -1000 <= c <= 1000
    ensures 0 <= d5 < 0x2000000 && 0 <= d6 < 0x4000000 && 0 <= d7 < 0x2000000 && 0 <= d8 < 0x4000000
        && 0 <= d9 < 0x2000000
    ensures -4 <= carry <= 4 && -4 <= d9 as int - x9 as int + 0x2000000 * carry as int <= 4
    ensures x5 as int + 0x2000000 * x6 as int + 0x8000000000000 * x7 as int + 0x10000000000000000000 * x8 as int
        + 0x40000000000000000000000000 * x9 as int + c as int
            == d5 as int + 0x2000000 * d6 as int + 0x8000000000000 * d7 as int + 0x10000000000000000000 * d8 as int
                + 0x40000000000000000000000000 * d9 as int + 0x80000000000000000000000000000000 * carry as int
  {
    var h5 := x5 + c;
    var c5 := Floor25(h5);
    d5 := h5 - 0x2000000 * c5;
    var h6 := x6 + c5;
    var c6 := Floor26(h6);
    d6 := h6 - 0x4000000 * c6;
    var h7 := x7 + c6;
    var c7 := Floor25(h7);
    d7 := h7 - 0x2000000 * c7;
    var h8 := x8 + c7;
    var c8 := Floor26(h8);
    d8 := h8 - 0x4000000 * c8;
    var h9 := x9 + c8;
    var c9 := Floor25(h9);
    d9 := h9 - 0x2000000 * c9;
    carry := c9;
  }

  /** All ten carries, after adding c to limb 0. */
  method CarryUp(h: seq<int32>, c: int32) returns (d: seq<int32>, carry: int32)
    requires Medium(h) && -1000 <= c <= 1000
    ensures Reduced(d) && -4 <= carry <= 4
    ensures -4 <= d[9] as int - h[9] as int + 0x2000000 * carry as int <= 4
    ensures Weighted(h) + c as int == Weighted(d)
        + 0x8000000000000000000000000000000000000000000000000000000000000000 * carry as int
  {
    var d0, d1, d2, d3, d4, middle := CarryUpLow(h[0], h[1], h[2], h[3], h[4], c);
    var d5, d6, d7, d8, d9, last := CarryUpHigh(h[5], h[6], h[7], h[8], h[9], middle);
    d, carry := [d0, d1, d2, d3, d4, d5, d6, d7, d8, d9], last;
  }

  /** Unsigned digits of 26 and 25 bits. */
  ghost predicate Reduced(d: seq<int32>)
  {
    && |d| == 10
    && 0 <= d[0] < 0x4000000 && 0 <= d[1] < 0x2000000 && 0 <= d[2] < 0x4000000 && 0 <= d[3] < 0x2000000
    && 0 <= d[4] < 0x4000000 && 0 <= d[5] < 0x2000000 && 0 <= d[6] < 0x4000000 && 0 <= d[7] < 0x2000000
    && 0 <= d[8] < 0x4000000 && 0 <= d[9] < 0x2000000
  }

  /** `(unsigned char) (x >> n)`, with w == 2^n. */
  function Byte(x: int32, w: int32): byte
    requires 0 <= x && w > 0
  {
    (x / w % 0x100) as byte
  }

  /** `(unsigned char) (x | (y << n))`, with m == 2^n and x below m. */
  function Shared(x: int32, m: int32, y: int32, k: int32): (r: byte)
    requires 0 <= x < m && m <= 0x100 && 0 <= y && 0 < k <= 0x100 && m as int * k as int == 0x100
    ensures r as int == x as int + m as int * (y % k) as int
  {
    LeftPart(x as int, m as int, (y % k) as int, k as int);
    (x as int + m as int * (y % k) as int) as byte
  }

  lemma LeftPart(x: int, m: int, z: int, k: int)
    requires 0 <= x < m && 0 <= z < k
    ensures 0 <= x + m * z < m * k
  {
    MulMonotone(m, m, z, k - 1);
    assert m * (k - 1) == m * k - m;
  }

  /** The first sixteen bytes hold limbs 0 to 4. */
  ghost predicate PackedLow(b: seq<byte>, d: seq<int32>)
    requires |b| == 32 && Reduced(d)
  {
    && b[0] == Byte(d[0], 0x1)
    && b[1] == Byte(d[0], 0x100)
    && b[2] == Byte(d[0], 0x10000)
    && b[3] == Shared(d[0] / 0x1000000, 0x4, d[1], 0x40)
    && b[4] == Byte(d[1], 0x40)
    && b[5] == Byte(d[1], 0x4000)
    && b[6] == Shared(d[1] / 0x400000, 0x8, d[2], 0x20)
    && b[7] == Byte(d[2], 0x20)
    && b[8] == Byte(d[2], 0x2000)
    && b[9] == Shared(d[2] / 0x200000, 0x20, d[3], 0x8)
    && b[10] == Byte(d[3], 0x8)
    && b[11] == Byte(d[3], 0x800)
    && b[12] == Shared(d[3] / 0x80000, 0x40, d[4], 0x4)
    && b[13] == Byte(d[4], 0x4)
    && b[14] == Byte(d[4], 0x400)
    && b[15] == Byte(d[4], 0x40000)
  }

  /** The other sixteen hold limbs 5 to 9. */
  ghost predicate PackedHigh(b: seq<byte>, d: seq<int32>)
    requires |b| == 32 && Reduced(d)
  {
    && b[16] == Byte(d[5], 0x1)
    && b[17] == Byte(d[5], 0x100)
    && b[18] == Byte(d[5], 0x10000)
    && b[19] == Shared(d[5] / 0x1000000, 0x2, d[6], 0x80)
    && b[20] == Byte(d[6], 0x80)
    && b[21] == Byte(d[6], 0x8000)
    && b[22] == Shared(d[6] / 0x800000, 0x8, d[7], 0x20)
    && b[23] == Byte(d[7], 0x20)
    && b[24] == Byte(d[7], 0x2000)
    && b[25] == Shared(d[7] / 0x200000, 0x10, d[8], 0x10)
    && b[26] == Byte(d[8], 0x10)
    && b[27] == Byte(d[8], 0x1000)
    && b[28] == Shared(d[8] / 0x100000, 0x40, d[9], 0x4)
    && b[29] == Byte(d[9], 0x4)
    && b[30] == Byte(d[9], 0x400)
    && b[31] == Byte(d[9], 0x40000)
  }

  lemma Pieces4(x: int)
    requires 0 <= x
    ensures x == x % 0x4 + 0x4 * (x / 0x4 % 0x100) + 0x400 * (x / 0x400 % 0x100) + 0x40000 * (x / 0x40000)
  {
    assert x / 0x400 == x / 0x4 / 0x100;
    assert x / 0x40000 == x / 0x400 / 0x100;
  }

  lemma Pieces8(x: int)
    requires 0 <= x
    ensures x == x % 0x8 + 0x8 * (x / 0x8 % 0x100) + 0x800 * (x / 0x800 % 0x100) + 0x80000 * (x / 0x80000)
  {
    assert x / 0x800 == x / 0x8 / 0x100;
    assert x / 0x80000 == x / 0x800 / 0x100;
  }

  lemma Pieces16(x: int)
    requires 0 <= x
    ensures x == x % 0x10 + 0x10 * (x / 0x10 % 0x100) + 0x1000 * (x / 0x1000 % 0x100) + 0x100000 * (x / 0x100000)
  {
    assert x / 0x1000 == x / 0x10 / 0x100;
    assert x / 0x100000 == x / 0x1000 / 0x100;
  }

  lemma Pieces32(x: int)
    requires 0 <= x
    ensures x == x % 0x20 + 0x20 * (x / 0x20 % 0x100) + 0x2000 * (x / 0x2000 % 0x100) + 0x200000 * (x / 0x200000)
  {
    assert x / 0x2000 == x / 0x20 / 0x100;
    assert x / 0x200000 == x / 0x2000 / 0x100;
  }

  lemma Pieces64(x: int)
    requires 0 <= x
    ensures x == x % 0x40 + 0x40 * (x / 0x40 % 0x100) + 0x4000 * (x / 0x4000 % 0x100) + 0x400000 * (x / 0x400000)
  {
    assert x / 0x4000 == x / 0x40 / 0x100;
    assert x / 0x400000 == x / 0x4000 / 0x100;
  }

  lemma Pieces128(x: int)
    requires 0 <= x
    ensures x == x % 0x80 + 0x80 * (x / 0x80 % 0x100) + 0x8000 * (x / 0x8000 % 0x100) + 0x800000 * (x / 0x800000)
  {
    assert x / 0x8000 == x / 0x80 / 0x100;
    assert x / 0x800000 == x / 0x8000 / 0x100;
  }

  lemma Pieces256(x: int)
    requires 0 <= x
    ensures x == x % 0x100 + 0x100 * (x / 0x100 % 0x100) + 0x10000 * (x / 0x10000 % 0x100) + 0x1000000 * (x / 0x1000000)
  {
    assert x / 0x10000 == x / 0x100 / 0x100;
    assert x / 0x1000000 == x / 0x10000 / 0x100;
  }

  /** Regrouping the pieces of five limbs into sixteen bytes. */
  lemma RegroupLow(x0: int, x0_0: int, x0_1: int, x0_2: int, x0_3: int, x1: int, x1_0: int, x1_1: int, x1_2: int,
      x1_3: int, x2: int, x2_0: int, x2_1: int, x2_2: int, x2_3: int, x3: int, x3_0: int, x3_1: int, x3_2: int,
      x3_3: int, x4: int, x4_0: int, x4_1: int, x4_2: int, x4_3: int, b0: int, b1: int, b2: int, b3: int, b4: int,
      b5: int, b6: int, b7: int, b8: int, b9: int, b10: int, b11: int, b12: int, b13: int, b14: int, b15: int)
    requires x0 == x0_0 + 0x100 * x0_1 + 0x10000 * x0_2 + 0x1000000 * x0_3
    requires x1 == x1_0 + 0x40 * x1_1 + 0x4000 * x1_2 + 0x400000 * x1_3
    requires x2 == x2_0 + 0x20 * x2_1 + 0x2000 * x2_2 + 0x200000 * x2_3
    requires x3 == x3_0 + 0x8 * x3_1 + 0x800 * x3_2 + 0x80000 * x3_3
    requires x4 == x4_0 + 0x4 * x4_1 + 0x400 * x4_2 + 0x40000 * x4_3
    requires b0 == x0_0 && b1 == x0_1 && b2 == x0_2 && b3 == x0_3 + 0x4 * x1_0
    requires b4 == x1_1 && b5 == x1_2 && b6 == x1_3 + 0x8 * x2_0 && b7 == x2_1
    requires b8 == x2_2 && b9 == x2_3 + 0x20 * x3_0 && b10 == x3_1 && b11 == x3_2
    requires b12 == x3_3 + 0x40 * x4_0 && b13 == x4_1 && b14 == x4_2 && b15 == x4_3
    ensures b0 + 0x100 * b1 + 0x10000 * b2 + 0x1000000 * b3 + 0x100000000 * b4 + 0x10000000000 * b5
        + 0x1000000000000 * b6 + 0x100000000000000 * b7 + 0x10000000000000000 * b8 + 0x1000000000000000000 * b9
        + 0x100000000000000000000 * b10 + 0x10000000000000000000000 * b11 + 0x1000000000000000000000000 * b12
        + 0x100000000000000000000000000 * b13 + 0x10000000000000000000000000000 * b14
        + 0x1000000000000000000000000000000 * b15
            == x0 + 0x4000000 * x1 + 0x8000000000000 * x2 + 0x20000000000000000000 * x3
                + 0x40000000000000000000000000 * x4
  {
  }

  lemma PackedLowValue(b: seq<byte>, d: seq<int32>)
    requires |b| == 32 && Reduced(d) && PackedLow(b, d)
    ensures Eight(b, 0) + 0x10000000000000000 * Eight(b, 8) == d[0] as int + 0x4000000 * d[1] as int
        + 0x8000000000000 * d[2] as int + 0x20000000000000000000 * d[3] as int
        + 0x40000000000000000000000000 * d[4] as int
  {
    Pieces256(d[0] as int);
    Pieces64(d[1] as int);
    Pieces32(d[2] as int);
    Pieces8(d[3] as int);
    Pieces4(d[4] as int);
    RegroupLow(d[0] as int, d[0] as int % 0x100, d[0] as int / 0x100 % 0x100, d[0] as int / 0x10000 % 0x100,
        d[0] as int / 0x1000000, d[1] as int, d[1] as int % 0x40, d[1] as int / 0x40 % 0x100,
        d[1] as int / 0x4000 % 0x100, d[1] as int / 0x400000, d[2] as int, d[2] as int % 0x20,
        d[2] as int / 0x20 % 0x100, d[2] as int / 0x2000 % 0x100, d[2] as int / 0x200000, d[3] as int,
        d[3] as int % 0x8, d[3] as int / 0x8 % 0x100, d[3] as int / 0x800 % 0x100, d[3] as int / 0x80000,
        d[4] as int, d[4] as int % 0x4, d[4] as int / 0x4 % 0x100, d[4] as int / 0x400 % 0x100, d[4] as int / 0x40000,
      b[0] as int, b[1] as int, b[2] as int, b[3] as int, b[4] as int, b[5] as int, b[6] as int, b[7] as int,
          b[8] as int, b[9] as int, b[10] as int, b[11] as int, b[12] as int, b[13] as int, b[14] as int, b[15] as int);
  }

  /** Regrouping the pieces of five limbs into sixteen bytes. */
  lemma RegroupHigh(x5: int, x5_0: int, x5_1: int, x5_2: int, x5_3: int, x6: int, x6_0: int, x6_1: int, x6_2: int,
      x6_3: int, x7: int, x7_0: int, x7_1: int, x7_2: int, x7_3: int, x8: int, x8_0: int, x8_1: int, x8_2: int,
      x8_3: int, x9: int, x9_0: int, x9_1: int, x9_2: int, x9_3: int, b0: int, b1: int, b2: int, b3: int, b4: int,
      b5: int, b6: int, b7: int, b8: int, b9: int, b10: int, b11: int, b12: int, b13: int, b14: int, b15: int)
    requires x5 == x5_0 + 0x100 * x5_1 + 0x10000 * x5_2 + 0x1000000 * x5_3
    requires x6 == x6_0 + 0x80 * x6_1 + 0x8000 * x6_2 + 0x800000 * x6_3
    requires x7 == x7_0 + 0x20 * x7_1 + 0x2000 * x7_2 + 0x200000 * x7_3
    requires x8 == x8_0 + 0x10 * x8_1 + 0x1000 * x8_2 + 0x100000 * x8_3
    requires x9 == x9_0 + 0x4 * x9_1 + 0x400 * x9_2 + 0x40000 * x9_3
    requires b0 == x5_0 && b1 == x5_1 && b2 == x5_2 && b3 == x5_3 + 0x2 * x6_0
    requires b4 == x6_1 && b5 == x6_2 && b6 == x6_3 + 0x8 * x7_0 && b7 == x7_1
    requires b8 == x7_2 && b9 == x7_3 + 0x10 * x8_0 && b10 == x8_1 && b11 == x8_2
    requires b12 == x8_3 + 0x40 * x9_0 && b13 == x9_1 && b14 == x9_2 && b15 == x9_3
    ensures b0 + 0x100 * b1 + 0x10000 * b2 + 0x1000000 * b3 + 0x100000000 * b4 + 0x10000000000 * b5
        + 0x1000000000000 * b6 + 0x100000000000000 * b7 + 0x10000000000000000 * b8 + 0x1000000000000000000 * b9
        + 0x100000000000000000000 * b10 + 0x10000000000000000000000 * b11 + 0x1000000000000000000000000 * b12
        + 0x100000000000000000000000000 * b13 + 0x10000000000000000000000000000 * b14
        + 0x1000000000000000000000000000000 * b15
            == x5 + 0x2000000 * x6 + 0x8000000000000 * x7 + 0x10000000000000000000 * x8
                + 0x40000000000000000000000000 * x9
  {
  }

  lemma PackedHighValue(b: seq<byte>, d: seq<int32>)
    requires |b| == 32 && Reduced(d) && PackedHigh(b, d)
    ensures Eight(b, 16) + 0x10000000000000000 * Eight(b, 24) == d[5] as int + 0x2000000 * d[6] as int
        + 0x8000000000000 * d[7] as int + 0x10000000000000000000 * d[8] as int
        + 0x40000000000000000000000000 * d[9] as int
  {
    Pieces256(d[5] as int);
    Pieces128(d[6] as int);
    Pieces32(d[7] as int);
    Pieces16(d[8] as int);
    Pieces4(d[9] as int);
    RegroupHigh(d[5] as int, d[5] as int % 0x100, d[5] as int / 0x100 % 0x100, d[5] as int / 0x10000 % 0x100,
        d[5] as int / 0x1000000, d[6] as int, d[6] as int % 0x80, d[6] as int / 0x80 % 0x100,
        d[6] as int / 0x8000 % 0x100, d[6] as int / 0x800000, d[7] as int, d[7] as int % 0x20,
        d[7] as int / 0x20 % 0x100, d[7] as int / 0x2000 % 0x100, d[7] as int / 0x200000, d[8] as int,
        d[8] as int % 0x10, d[8] as int / 0x10 % 0x100, d[8] as int / 0x1000 % 0x100, d[8] as int / 0x100000,
        d[9] as int, d[9] as int % 0x4, d[9] as int / 0x4 % 0x100, d[9] as int / 0x400 % 0x100, d[9] as int / 0x40000,
      b[16] as int, b[17] as int, b[18] as int, b[19] as int, b[20] as int, b[21] as int, b[22] as int,
          b[23] as int, b[24] as int, b[25] as int, b[26] as int, b[27] as int, b[28] as int, b[29] as int,
          b[30] as int, b[31] as int);
  }

  /** The two halves make up the number. */
  lemma JoinHalves(b: seq<byte>, d: seq<int32>)
    requires |b| == 32 && Reduced(d)
    requires Eight(b, 0) + 0x10000000000000000 * Eight(b, 8) == d[0] as int + 0x4000000 * d[1] as int
        + 0x8000000000000 * d[2] as int + 0x20000000000000000000 * d[3] as int
        + 0x40000000000000000000000000 * d[4] as int
    requires Eight(b, 16) + 0x10000000000000000 * Eight(b, 24) == d[5] as int + 0x2000000 * d[6] as int
        + 0x8000000000000 * d[7] as int + 0x10000000000000000000 * d[8] as int
        + 0x40000000000000000000000000 * d[9] as int
    ensures LE(b) == Weighted(d)
  {
    LE32(b);
  }

  /** The byte assignments of `fe_tobytes`. */
  method PackLow(s: array<byte>, d: seq<int32>)
    requires s.Length == 32 && Reduced(d)
    modifies s
    ensures PackedLow(s[..], d)
  {
    s[0] := Byte(d[0], 0x1);
    s[1] := Byte(d[0], 0x100);
    s[2] := Byte(d[0], 0x10000);
    s[3] := Shared(d[0] / 0x1000000, 0x4, d[1], 0x40);
    s[4] := Byte(d[1], 0x40);
    s[5] := Byte(d[1], 0x4000);
    s[6] := Shared(d[1] / 0x400000, 0x8, d[2], 0x20);
    s[7] := Byte(d[2], 0x20);
    s[8] := Byte(d[2], 0x2000);
    s[9] := Shared(d[2] / 0x200000, 0x20, d[3], 0x8);
    s[10] := Byte(d[3], 0x8);
    s[11] := Byte(d[3], 0x800);
    s[12] := Shared(d[3] / 0x80000, 0x40, d[4], 0x4);
    s[13] := Byte(d[4], 0x4);
    s[14] := Byte(d[4], 0x400);
    s[15] := Byte(d[4], 0x40000);
  }

  method PackHigh(s: array<byte>, d: seq<int32>)
    requires s.Length == 32 && Reduced(d)
    modifies s
    ensures PackedHigh(s[..], d) && s[..16] == old(s[..16])
  {
    s[16] := Byte(d[5], 0x1);
    s[17] := Byte(d[5], 0x100);
    s[18] := Byte(d[5], 0x10000);
    s[19] := Shared(d[5] / 0x1000000, 0x2, d[6], 0x80);
    s[20] := Byte(d[6], 0x80);
    s[21] := Byte(d[6], 0x8000);
    s[22] := Shared(d[6] / 0x800000, 0x8, d[7], 0x20);
    s[23] := Byte(d[7], 0x20);
    s[24] := Byte(d[7], 0x2000);
    s[25] := Shared(d[7] / 0x200000, 0x10, d[8], 0x10);
    s[26] := Byte(d[8], 0x10);
    s[27] := Byte(d[8], 0x1000);
    s[28] := Shared(d[8] / 0x100000, 0x40, d[9], 0x4);
    s[29] := Byte(d[9], 0x4);
    s[30] := Byte(d[9], 0x400);
    s[31] := Byte(d[9], 0x40000);
  }

  lemma PackedLowFrame(b: seq<byte>, c: seq<byte>, d: seq<int32>)
    requires |b| == |c| == 32 && Reduced(d) && PackedLow(b, d) && b[..16] == c[..16]
    ensures PackedLow(c, d)
  {
    assert forall i | 0 <= i < 16 :: c[i] == c[..16][i] == b[..16][i] == b[i];
  }

  method Pack(s: array<byte>, d: seq<int32>)
    requires s.Length == 32 && Reduced(d)
    modifies s
    ensures LE(s[..]) == Weighted(d)
  {
    PackLow(s, d);
    ghost var b := s[..];
    PackHigh(s, d);
    assert b[..16] == s[..16] == s[..][..16];
    PackedLowFrame(b, s[..], d);
    PackedLowValue(s[..], d);
    PackedHighValue(s[..], d);
    JoinHalves(s[..], d);
  }

  /** The estimate q0 of 19q, made from limb 9 alone, is good enough: the number below 2^255
      that is left, less the estimate, plus 19q, is the residue. */
  lemma QuotientFits(h9: int, q0: int, q: int, rest: int, top: int)
    requires -36909875 <= h9 <= 36909875 && 0 <= 19 * h9 + 0x1000000 - 0x2000000 * q0 < 0x2000000
    requires -4 <= top - h9 + 0x2000000 * q <= 4 && 0 <= top < 0x2000000
    requires 0 <= rest < 0x4000000000000000000000000000000000000000000000000000000000
    ensures 0 <= rest + 0x4000000000000000000000000000000000000000000000000000000000 * top - q0 + 19 * q < P
  {
    if top == 0 {
      assert q0 == 19 * q;
    } else if top == 0x1ffffff {
      assert q0 == 19 * q + 19;
    }
  }

  /** The eleven chained shifts of `fe_tobytes` find the quotient by p. */
  method QuotientByP(h: seq<int32>) returns (q: int32)
    requires Medium(h)
    ensures -4 <= q <= 4 && 0 <= Weighted(h) - q as int * P < P
  {
    var q0 := Floor25(19 * h[9] + 0x1000000);
    var d;
    d, q := CarryUp(h, q0);
    ghost var top := d[9] as int;
    QuotientFits(h[9] as int, q0 as int, q as int,
        Weighted(d) - 0x4000000000000000000000000000000000000000000000000000000000 * top, top);
  }

  /** The digits of the residue. */
  method Canonical(h: seq<int32>) returns (d: seq<int32>)
    requires Medium(h)
    ensures Reduced(d) && Weighted(d) == Val(h) % P
  {
    var q := QuotientByP(h);
    var carry;
    d, carry := CarryUp(h, 19 * q);
    SecondPass(Weighted(h), Weighted(d), q as int, carry as int);
    ValIsWeighted(h);
  }

  /** The second carry out is the quotient again. */
  lemma SecondPass(v: int, d: int, q: int, carry: int)
    requires 0 <= v - q * P < P && 0 <= d < 0x8000000000000000000000000000000000000000000000000000000000000000 && v
        + 19 * q == d + 0x8000000000000000000000000000000000000000000000000000000000000000 * carry
    ensures d == v % P
  {
    assert d == v - q * P;
    Remainder(q, d);
  }

  /** `fe_tobytes`: the residue modulo p of the number in h. */
  method ToBytes(s: array<byte>, h: array<int32>)
    requires s.Length == 32 && h.Length == 10 && Medium(h[..])
    modifies s
    ensures LE(s[..]) == Val(h[..]) % P
  {
    var d := Canonical(h[..]);
    Pack(s, d);
  }

  /** `fe_isnegative`: the last bit of the residue. */
  method IsNegative(f: array<int32>) returns (b: byte)
    requires f.Length == 10 && Medium(f[..])
    ensures b as int == Val(f[..]) % P % 2
  {
    var s := new byte[32];
    ToBytes(s, f);
    b := s[0] % 2;
    LEStep(s[..], 0);
    assert s[..][0..] == s[..];
  }

  /** `fe_isnonzero`: is any byte of the residue not 0? */
  method IsNonzero(f: array<int32>) returns (r: bool)
    requires f.Length == 10 && Medium(f[..])
    ensures r <==> !Cong(Val(f[..]), 0)
  {
    var s := new byte[32];
    ToBytes(s, f);
    var t := s[..];
    var or := t[0];
    for i := 1 to 32
      invariant or == 0 <==> forall k | 0 <= k < i :: t[k] == 0
    {
      Bitwise.OrZero(or, t[i]);
      or := Bitwise.Or(or, t[i]);
    }
    r := or != 0;
    ZeroBytes(t);
    CongIsMod(Val(f[..]), 0);
    Remainder(0, 0);
  }

  lemma {:induction false} ZeroBytes(s: seq<byte>)
    ensures LE(s) == 0 <==> forall k | 0 <= k < |s| :: s[k] == 0
  {
    if s != [] {
      ZeroBytes(s[1..]);
      assert forall k | 1 <= k < |s| :: s[k] == s[1..][k - 1];
    }
  }

  // ---- Round trips ----

  lemma {:induction false} LEInjective(a: seq<byte>, b: seq<byte>)
    requires |a| == |b| && LE(a) == LE(b)
    ensures a == b
  {
    if a != [] {
      LEInjective(a[1..], b[1..]);
      assert a == [a[0]] + a[1..] && b == [b[0]] + b[1..];
    }
  }

  lemma CanonicalTop(s: seq<byte>)
    requires |s| == 32 && LE(s) < P
    ensures Low255(s) == LE(s)
  {
    TopByte(s);
    Pow256At31();
    assert s[31 := s[31] % 128] == s;
  }

  /** Reading bytes and writing them back gives the same bytes exactly when they were the
      canonical encoding of their element. */
  method Reencode(s: seq<byte>) returns (t: array<byte>)
    requires |s| == 32
    ensures t.Length == 32 && LE(t[..]) == Low255(s) % P
    ensures t[..] == s <==> LE(s) < P
  {
    var h := new int32[10];
    FromBytes(h, s);
    t := new byte[32];
    ToBytes(t, h);
    CongIsMod(Val(h[..]), Low255(s));
    if LE(s) < P {
      CanonicalTop(s);
      Remainder(0, LE(s));
      LEInjective(t[..], s);
    }
  }

  /** Writing an element and reading it back keeps its value modulo p. */
  method Rereduce(h: array<int32>)
    requires h.Length == 10 && Medium(h[..])
    modifies h
    ensures Tight(h[..]) && Cong(Val(h[..]), old(Val(h[..])))
  {
    ghost var v := Val(h[..]);
    var s := new byte[32];
    ToBytes(s, h);
    CanonicalTop(s[..]);
    FromBytes(h, s[..]);
    CongIsMod(v % P, v);
    Remainder(0, v % P);
    CongTrans(Val(h[..]), v % P, v);
  }
}
