/** curve25519-donna: X25519 on Montgomery u coordinates. Its ladder swaps eagerly and also takes
    bit 255, and still computes the function of section 5 of RFC 7748. */
module DonnaLadder {
  import opened MachineInts
  import opened Bitwise
  import opened Clamping
  import opened LittleEndian
  import opened FieldElement
  import opened FieldOps
  import FieldBytes
  import opened Words32
  import opened X25519
  import opened DonnaReduce
  import DonnaBytes

  // ---- One step ----

  /** Four limb buffers: the coordinates of the two points. */
  class Pairs {
    const x: array<int64>
    const z: array<int64>
    const xprime: array<int64>
    const zprime: array<int64>

    constructor ()
      ensures Valid() && fresh(x) && fresh(z) && fresh(xprime) && fresh(zprime)
      ensures forall k | 0 <= k < 19 :: x[k] == 0 && z[k] == 0 && xprime[k] == 0 && zprime[k] == 0
    {
      x, z := new int64[19](i => 0), new int64[19](i => 0);
      xprime, zprime := new int64[19](i => 0), new int64[19](i => 0);
    }

    ghost predicate Valid()
    {
      && x.Length == z.Length == xprime.Length == zprime.Length == 19
      && x != z && x != xprime && x != zprime && z != xprime && z != zprime && xprime != zprime
    }

    ghost predicate Apart(a: array<int64>)
    {
      a != x && a != z && a != xprime && a != zprime
    }

    ghost predicate Holds(s: State)
      reads x, z, xprime, zprime
    {
      Is(x, s.x2) && Is(z, s.z2) && Is(xprime, s.x3) && Is(zprime, s.z3)
    }

    /** The sums and differences that `fmonty` starts with. */
    method Terms(ghost s: State)
      requires Valid() && Holds(s)
      modifies x, z, xprime, zprime
      ensures IsWide(x, s.x2 + s.z2) && IsWide(z, s.x2 - s.z2)
      ensures IsWide(xprime, s.x3 + s.z3) && IsWide(zprime, s.x3 - s.z3)
    {
      hide Is, IsWide;
      var origx, origxprime := new int64[10], new int64[10];
      CopyIs(origx, x, s.x2);
      Sum(x, z, s.x2, s.z2);
      Difference(z, origx, s.z2, s.x2);
      CopyIs(origxprime, xprime, s.x3);
      Sum(xprime, zprime, s.x3, s.z3);
      Difference(zprime, origxprime, s.z3, s.x3);
    }

    /** The half of `fmonty` that adds: it fills the outputs x3 and z3. */
    method AddHalf(next: Pairs, qmqp: array<int64>, ghost s: State, ghost q: int, ghost cb: int, ghost da: int)
      requires Valid() && next.Valid() && next.Disjoint(this) && Apart(qmqp) && next.Apart(qmqp) && Is(qmqp, q)
      requires IsWide(x, s.x2 + s.z2) && IsWide(z, s.x2 - s.z2)
      requires IsWide(xprime, s.x3 + s.z3) && IsWide(zprime, s.x3 - s.z3)
      requires cb == (s.x3 + s.z3) * (s.x2 - s.z2) && da == (s.x2 + s.z2) * (s.x3 - s.z3)
      modifies next.xprime, next.zprime
      ensures Is(next.xprime, (cb + da) * (cb + da)) && Is(next.zprime, (cb - da) * (cb - da) * q)
    {
      hide Is, IsWide;
      var xxprime, zzprime := new int64[19], new int64[19];
      ProductIs(xxprime, xprime, z, s.x3 + s.z3, s.x2 - s.z2);
      ProductIs(zzprime, x, zprime, s.x2 + s.z2, s.x3 - s.z3);
      AddTail(next, qmqp, q, xxprime, zzprime, cb, da);
    }

    static method AddTail(next: Pairs, qmqp: array<int64>, ghost q: int, xxprime: array<int64>, zzprime: array<int64>,
                          ghost cb: int, ghost da: int)
      requires next.Valid() && next.Apart(qmqp) && Is(qmqp, q) && xxprime != zzprime
      requires next.Apart(xxprime) && next.Apart(zzprime) && xxprime != qmqp && zzprime != qmqp
      requires xxprime.Length == zzprime.Length == 19 && Is(xxprime, cb) && Is(zzprime, da)
      modifies next.xprime, next.zprime, xxprime, zzprime
      ensures Is(next.xprime, (cb + da) * (cb + da)) && Is(next.zprime, (cb - da) * (cb - da) * q)
    {
      hide Is, IsWide;
      var origxprime, xxxprime, zzzprime := new int64[10], new int64[19], new int64[19];
      CopyIs(origxprime, xxprime, cb);
      Sum(xxprime, zzprime, cb, da);
      Difference(zzprime, origxprime, da, cb);
      Square(xxxprime, xxprime, cb + da);
      Square(zzzprime, zzprime, cb - da);
      Widen(zzzprime, (cb - da) * (cb - da));
      Widen(qmqp, q);
      ProductIs(zzprime, zzzprime, qmqp, (cb - da) * (cb - da), q);
      CopyIs(next.xprime, xxxprime, (cb + da) * (cb + da));
      CopyIs(next.zprime, zzprime, (cb - da) * (cb - da) * q);
    }

    /** The half that doubles: it fills the outputs x2 and z2. */
    method DoubleHalf(next: Pairs, ghost s: State, ghost aa: int, ghost bb: int)
      requires Valid() && next.Valid() && next.Disjoint(this)
      requires IsWide(x, s.x2 + s.z2) && IsWide(z, s.x2 - s.z2)
      requires aa == (s.x2 + s.z2) * (s.x2 + s.z2) && bb == (s.x2 - s.z2) * (s.x2 - s.z2)
      modifies next.x, next.z
      ensures Is(next.x, aa * bb) && Is(next.z, (aa - bb) * (121665 * (aa - bb) + aa))
    {
      hide Is, IsWide;
      var xx, zz := new int64[19], new int64[19];
      Square(xx, x, s.x2 + s.z2);
      Square(zz, z, s.x2 - s.z2);
      DoubleTail(next, xx, zz, aa, bb);
    }

    static method DoubleTail(next: Pairs, xx: array<int64>, zz: array<int64>, ghost aa: int, ghost bb: int)
      requires next.Valid() && next.Apart(xx) && next.Apart(zz) && xx != zz
      requires xx.Length == zz.Length == 19 && Is(xx, aa) && Is(zz, bb)
      modifies next.x, next.z, xx, zz
      ensures Is(next.x, aa * bb) && Is(next.z, (aa - bb) * (121665 * (aa - bb) + aa))
    {
      hide Is, IsWide;
      var zzz := new int64[19];
      Widen(xx, aa);
      Widen(zz, bb);
      ProductIs(next.x, xx, zz, aa, bb);
      Difference(zz, xx, bb, aa);
      Scaled(zzz, zz, aa - bb);
      Sum(zzz, xx, 121665 * (aa - bb), aa);
      ProductIs(next.z, zz, zzz, aa - bb, 121665 * (aa - bb) + aa);
    }

    ghost predicate Disjoint(other: Pairs)
    {
      Apart(other.x) && Apart(other.z) && Apart(other.xprime) && Apart(other.zprime)
    }

    /** `fmonty`: one step of the RFC's ladder, from these buffers (destroyed) to the next. */
    method Step(next: Pairs, qmqp: array<int64>, ghost s: State, ghost q: int)
      requires Valid() && next.Valid() && next.Disjoint(this) && Apart(qmqp) && next.Apart(qmqp)
      requires Holds(s) && Is(qmqp, q)
      modifies x, z, xprime, zprime, next.x, next.z, next.xprime, next.zprime
      ensures next.Holds(X25519.Step(s, q))
    {
      hide Is, IsWide, X25519.Step;
      ghost var cb, da, aa, bb := StepProducts(s, q);
      Terms(s);
      AddHalf(next, qmqp, s, q, cb, da);
      DoubleHalf(next, s, aa, bb);
    }

    /** `swap_conditional` on both coordinates. */
    method Swap(bit: int, ghost s: State)
      requires Valid() && Holds(s) && (bit == 0 || bit == 1)
      modifies x, z, xprime, zprime
      ensures Holds(Swapped(s, bit))
    {
      SwapConditional(x, xprime, bit, s.x2, s.x3);
      SwapConditional(z, zprime, bit, s.z2, s.z3);
    }
  }

  /** What the products in `fmonty` make of a state. */
  lemma StepProducts(s: State, q: int) returns (cb: int, da: int, aa: int, bb: int)
    ensures cb == (s.x3 + s.z3) * (s.x2 - s.z2) && da == (s.x2 + s.z2) * (s.x3 - s.z3)
    ensures aa == (s.x2 + s.z2) * (s.x2 + s.z2) && bb == (s.x2 - s.z2) * (s.x2 - s.z2)
    ensures X25519.Step(s, q) == State(aa * bb, (aa - bb) * (121665 * (aa - bb) + aa), (cb + da) * (cb + da),
        (cb - da) * (cb - da) * q)
  {
    cb, da := (s.x3 + s.z3) * (s.x2 - s.z2), (s.x2 + s.z2) * (s.x3 - s.z3);
    aa, bb := (s.x2 + s.z2) * (s.x2 + s.z2), (s.x2 - s.z2) * (s.x2 - s.z2);
    assert da == (s.x3 - s.z3) * (s.x2 + s.z2);
    assert (cb - da) * (cb - da) == (da - cb) * (da - cb);
  }

  /** `swap_conditional`, by a mask of all ones or all zeros. */
  method SwapConditional(a: array<int64>, b: array<int64>, iswap: int, ghost u: int, ghost v: int)
    requires a != b && (iswap == 0 || iswap == 1) && Is(a, u) && Is(b, v)
    modifies a, b
    ensures Is(a, if iswap == 1 then v else u) && Is(b, if iswap == 1 then u else v)
  {
    hide Cong, Xor32, And32;
    ghost var s, t := a[..10], b[..10];
    var swap := -(iswap as int32);
    for i := 0 to 10
      invariant forall k | i <= k < 10 :: a[k] == s[k] && b[k] == t[k]
      invariant forall k | 0 <= k < i :: a[k] == (if iswap == 1 then t else s)[k]
      invariant forall k | 0 <= k < i :: b[k] == (if iswap == 1 then s else t)[k]
    {
      MaskSelects(a[i] as int32, b[i] as int32, iswap as int32);
      var x := And32(swap, Xor32(a[i] as int32, b[i] as int32));
      a[i] := Xor32(a[i] as int32, x) as int64;
      b[i] := Xor32(b[i] as int32, x) as int64;
    }
  }

  // ---- The ladder ----

  /** `byte >> 7` */
  lemma TopBit(x: nat)
    requires x < 0x100
    ensures Bit(x, 7) == x / 128 && x / 128 < 2
  {
    PowerEight();
    BitHigh(x % 128, x / 128, 0, 7);
  }

  /** `byte <<= 1` moves every bit but the last up. */
  lemma ShiftedBit(x: nat, k: nat)
    requires x < 0x100 && k < 7
    ensures Bit(x * 2 % 0x100, k + 1) == Bit(x, k)
  {
    assert x * 2 % 0x100 / 2 == x % 128 && x == x % 128 + 128 * (x / 128);
    assert Pow2(7) == 128 by {
      PowerEight();
    }
    BitLow(x % 128, x / 128, k, 7);
  }

  /** The byte still holds the bits of `whole` that are to come, the next one on top. */
  ghost predicate Shifted(byte: nat, whole: nat, j: nat)
  {
    byte < 0x100 && forall k | j <= k < 8 :: Bit(byte, k) == Bit(whole, k - j)
  }

  lemma NextByte(byte: nat, whole: nat, j: nat)
    requires Shifted(byte, whole, j) && j < 8
    ensures Shifted(byte * 2 % 0x100, whole, j + 1) && byte / 128 == Bit(whole, 7 - j) && byte / 128 < 2
  {
    hide Bit;
    TopBit(byte);
    forall k | j + 1 <= k < 8
      ensures Bit(byte * 2 % 0x100, k) == Bit(whole, k - (j + 1))
    {
      ShiftedBit(byte, k - 1);
    }
  }

  /** Bits t to t + 7 of n are the byte b. */
  ghost predicate BitsAre(n: nat, t: nat, b: nat)
  {
    forall k | 0 <= k < 8 :: Bit(n, t + k) == Bit(b, k)
  }

  const ALL_BITS: nat := 256

  /** One round of the inner loop of `cmult`. */
  method LadderBit(cur: Pairs, next: Pairs, q: array<int64>, bit: int, ghost x: int, ghost n: nat, ghost t: nat)
    requires cur.Valid() && next.Valid() && next.Disjoint(cur) && cur.Apart(q) && next.Apart(q) && Is(q, x)
    requires t < ALL_BITS && bit == Bit(n, t) && (bit == 0 || bit == 1)
    requires cur.Holds(Ladder(x, n, t + 1, ALL_BITS))
    modifies cur.x, cur.z, cur.xprime, cur.zprime, next.x, next.z, next.xprime, next.zprime
    ensures next.Holds(Ladder(x, n, t, ALL_BITS))
  {
    hide Is, Bit, X25519.Step;
    ghost var s := Ladder(x, n, t + 1, ALL_BITS);
    cur.Swap(bit, s);
    cur.Step(next, q, Swapped(s, bit), x);
    next.Swap(bit, X25519.Step(Swapped(s, bit), x));
  }

  /** The inner loop of `cmult`. After eight exchanges of the buffers the result is back where the
      loop began. */
  method LadderByte(cur: Pairs, next: Pairs, q: array<int64>, whole: byte, ghost x: int, ghost n: nat, ghost t: nat)
    requires cur.Valid() && next.Valid() && next.Disjoint(cur) && cur.Disjoint(next) && cur.Apart(q) && next.Apart(q)
    requires Is(q, x) && t + 8 <= ALL_BITS && BitsAre(n, t, whole as int)
    requires cur.Holds(Ladder(x, n, t + 8, ALL_BITS))
    modifies cur.x, cur.z, cur.xprime, cur.zprime, next.x, next.z, next.xprime, next.zprime
    ensures cur.Holds(Ladder(x, n, t, ALL_BITS))
  {
    hide Is, Bit, Ladder;
    var from, to := cur, next;
    var byte: nat := whole as int;
    for j := 0 to 8
      invariant from == (if j % 2 == 0 then cur else next) && to == (if j % 2 == 0 then next else cur)
      invariant Shifted(byte, whole as int, j) && from.Holds(Ladder(x, n, t + 8 - j, ALL_BITS))
    {
      NextByte(byte, whole as int, j);
      LadderBit(from, to, q, byte / 128, x, n, t + 7 - j);
      from, to := to, from;
      byte := byte * 2 % 0x100;
    }
  }

  /** 0 or 1 in limb 0. */
  lemma SmallIs(a: array<int64>)
    requires a.Length >= 10 && 0 <= a[0] <= 1 && forall k | 1 <= k < 10 :: a[k] == 0
    ensures Is(a, a[0] as int)
  {
    CongSelf(a[0] as int);
  }

  /** The buffers as `cmult` initializes them: (1 : 0) and (q : 1). */
  method Start(q: array<int64>, ghost x: int, ghost n: nat) returns (cur: Pairs)
    requires Is(q, x)
    ensures cur.Valid() && fresh(cur.x) && fresh(cur.z) && fresh(cur.xprime) && fresh(cur.zprime)
    ensures cur.Holds(Ladder(x, n, ALL_BITS, ALL_BITS))
  {
    hide Is;
    cur := new Pairs();
    cur.x[0] := 1;
    cur.zprime[0] := 1;
    SmallIs(cur.x);
    SmallIs(cur.z);
    SmallIs(cur.zprime);
    CopyIs(cur.xprime, q, x);
  }

  /** `cmult`: the eager ladder on all 256 bits of n. */
  method Multiply(resultx: array<int64>, resultz: array<int64>, n: seq<byte>, q: array<int64>, ghost x: int)
    requires resultx.Length >= 10 && resultz.Length >= 10 && resultx != resultz && |n| == 32 && Is(q, x)
    modifies resultx, resultz
    ensures Is(resultx, Ladder(x, LE(n), 0, ALL_BITS).x2) && Is(resultz, Ladder(x, LE(n), 0, ALL_BITS).z2)
  {
    hide Is, Ladder, LE, BitsAre;
    var cur := Start(q, x, LE(n));
    var next := new Pairs();
    for i := 0 to 32
      invariant cur.Holds(Ladder(x, LE(n), ALL_BITS - 8 * i, ALL_BITS)) && Is(q, x)
    {
      BitsOfByte(n, 31 - i);
      LadderByte(cur, next, q, n[31 - i], x, LE(n), 8 * (31 - i));
    }
    ghost var s := Ladder(x, LE(n), 0, ALL_BITS);
    CopyIs(resultx, cur.x, s.x2);
    CopyIs(resultz, cur.z, s.z2);
  }

  lemma BitsOfByte(n: seq<byte>, i: nat)
    requires i < |n|
    ensures BitsAre(LE(n), 8 * i, n[i] as int)
  {
    var b: nat := n[i] as int;
    forall k | 0 <= k < 8
      ensures Bit(LE(n), 8 * i + k) == Bit(b, k)
    {
      BitOfBytes(n, 8 * i + k);
    }
  }

  // ---- Inversion ----

  method SquarePower(out: array<int64>, input: array<int64>, ghost v: int, ghost e: nat)
    requires out.Length >= 10 && out != input && Is(input, Power(v, e))
    modifies out
    ensures Is(out, Power(v, 2 * e))
  {
    hide Power, Cong;
    Square(out, input, Power(v, e));
    PowerAdd(v, e, e);
  }

  method MulPower(out: array<int64>, a: array<int64>, b: array<int64>, ghost v: int, ghost d: nat, ghost e: nat)
    requires out.Length >= 10 && out != a && out != b && Is(a, Power(v, d)) && Is(b, Power(v, e))
    modifies out
    ensures Is(out, Power(v, d + e))
  {
    hide Power, Cong;
    Mul(out, a, b, Power(v, d), Power(v, e));
    PowerAdd(v, d, e);
  }

  /** `fsquare(t0, input); fsquare(t1, t0); for (i = 2; i < n; i += 2) { fsquare(t0, t1); fsquare(t1, t0); }` */
  method SquareMany(t0: array<int64>, t1: array<int64>, input: array<int64>, n: nat, ghost v: int, ghost e: nat)
    requires t0.Length == t1.Length == 10 && t0 != t1 && t0 != input && Is(input, Power(v, e))
    requires n >= 2 && n % 2 == 0
    modifies t0, t1
    ensures Is(t1, Power(v, Double(e, n)))
  {
    hide Is, Power;
    SquarePower(t0, input, v, e);
    SquarePower(t1, t0, v, 2 * e);
    assert Double(e, 2) == 2 * Double(e, 1) && Double(e, 1) == 2 * Double(e, 0);
    for i := 1 to n / 2
      invariant Is(t1, Power(v, Double(e, 2 * i)))
    {
      SquarePower(t0, t1, v, Double(e, 2 * i));
      SquarePower(t1, t0, v, Double(e, 2 * i + 1));
    }
  }

  method SquareRun(t0: array<int64>, t1: array<int64>, input: array<int64>, n: nat, ghost v: int, ghost e: nat)
    requires t0.Length == t1.Length == 10 && t0 != t1 && t0 != input && Is(input, Power(v, e))
    requires n == 10 || n == 20 || n == 50 || n == 100
    modifies t0, t1
    ensures Is(t1, Power(v, Run(n) * e))
  {
    hide Is, Power, Double;
    SquareMany(t0, t1, input, n, v, e);
    if n == 10 {
      DoubleTen(e, n);
    } else if n == 20 {
      DoubleTwenty(e, n);
    } else if n == 50 {
      DoubleFifty(e, n);
    } else {
      DoubleHundred(e, n);
    }
  }

  /** Five squarings that end in t0. */
  method SquareFive(t0: array<int64>, t1: array<int64>, input: array<int64>, ghost v: int, ghost e: nat)
    requires t0.Length == t1.Length == 10 && t0 != t1 && t0 != input && Is(input, Power(v, e))
    modifies t0, t1
    ensures Is(t0, Power(v, 0x20 * e))
  {
    hide Is, Power;
    SquarePower(t0, input, v, e);
    SquarePower(t1, t0, v, 2 * e);
    SquarePower(t0, t1, v, 4 * e);
    SquarePower(t1, t0, v, 8 * e);
    SquarePower(t0, t1, v, 16 * e);
  }

  /** The start of `crecip`: z^11 and z^31. */
  method RecipStart(z: array<int64>, ghost v: int) returns (z11: array<int64>, z2_5_0: array<int64>)
    requires Is(z, Power(v, 1))
    ensures fresh(z11) && fresh(z2_5_0) && z11.Length == z2_5_0.Length == 10
    ensures Is(z11, Power(v, 11)) && Is(z2_5_0, Power(v, 31))
  {
    hide Is, Power;
    var z2, z9, t0, t1 := new int64[10], new int64[10], new int64[10], new int64[10];
    SquarePower(z2, z, v, 1);
    SquarePower(t1, z2, v, 2);
    SquarePower(t0, t1, v, 4);
    MulPower(z9, t0, z, v, 8, 1);
    z11 := new int64[10];
    MulPower(z11, z9, z2, v, 9, 2);
    SquarePower(t0, z11, v, 11);
    z2_5_0 := new int64[10];
    MulPower(z2_5_0, t0, z9, v, 22, 9);
  }

  /** From z^31 to z^(2^50 - 1). */
  method RecipMiddle(z2_5_0: array<int64>, ghost v: int) returns (z2_50_0: array<int64>)
    requires Is(z2_5_0, Power(v, 31))
    ensures fresh(z2_50_0) && z2_50_0.Length == 10 && Is(z2_50_0, Power(v, 0x3ffffffffffff))
  {
    hide Is, Power;
    var z2_10_0, z2_20_0, t0, t1 := new int64[10], new int64[10], new int64[10], new int64[10];
    SquareFive(t0, t1, z2_5_0, v, 31);
    MulPower(z2_10_0, t0, z2_5_0, v, 0x3e0, 31);
    SquareRun(t0, t1, z2_10_0, 10, v, 0x3ff);
    MulPower(z2_20_0, t1, z2_10_0, v, 0xffc00, 0x3ff);
    SquareRun(t0, t1, z2_20_0, 20, v, 0xfffff);
    MulPower(t0, t1, z2_20_0, v, 0xfffff00000, 0xfffff);
    SquareRun(t1, t0, t0, 10, v, 0xffffffffff);
    z2_50_0 := new int64[10];
    MulPower(z2_50_0, t0, z2_10_0, v, 0x3fffffffffc00, 0x3ff);
  }

  /** From z^(2^50 - 1) to z^(2^250 - 1). */
  method RecipEnd(z2_50_0: array<int64>, ghost v: int) returns (t: array<int64>)
    requires Is(z2_50_0, Power(v, 0x3ffffffffffff))
    ensures fresh(t) && t.Length == 10
    ensures Is(t, Power(v, 0x3ffffffffffffffffffffffffffffffffffffffffffffffffffffffffffffff))
  {
    hide Is, Power;
    var z2_100_0, t0, t1 := new int64[10], new int64[10], new int64[10];
    SquareRun(t0, t1, z2_50_0, 50, v, 0x3ffffffffffff);
    MulPower(z2_100_0, t1, z2_50_0, v, 0xffffffffffffc000000000000, 0x3ffffffffffff);
    SquareRun(t1, t0, z2_100_0, 100, v, 0xfffffffffffffffffffffffff);
    MulPower(t1, t0, z2_100_0, v, 0xfffffffffffffffffffffffff0000000000000000000000000, 0xfffffffffffffffffffffffff);
    SquareRun(t0, t1, t1, 50, v, 0xffffffffffffffffffffffffffffffffffffffffffffffffff);
    MulPower(t0, t1, z2_50_0, v, 0x3fffffffffffffffffffffffffffffffffffffffffffffffffc000000000000, 0x3ffffffffffff);
    t := t0;
  }

  /** `crecip`: the power z^(2^255 - 21). */
  method Recip(out: array<int64>, z: array<int64>, ghost v: int)
    requires out.Length >= 10 && Is(z, v)
    modifies out
    ensures Is(out, Power(v, P_MINUS_2))
  {
    hide Is;
    assert Power(v, 1) == v * Power(v, 0) == v;
    hide Power;
    var z11, z2_5_0 := RecipStart(z, v);
    var z2_50_0 := RecipMiddle(z2_5_0, v);
    var t0 := RecipEnd(z2_50_0, v);
    var t1 := new int64[10];
    SquareFive(t1, t0, t0, v, 0x3ffffffffffffffffffffffffffffffffffffffffffffffffffffffffffffff);
    MulPower(out, t1, z11, v, 0x7fffffffffffffffffffffffffffffffffffffffffffffffffffffffffffffe0, 11);
  }

  // ---- The whole function ----

  /** The argument `basepoint` of `curve25519_donna`: NULL stands for the point with u == 9. */
  datatype Basepoint = Default | Given(bytes: seq<byte>)

  function PointBytes(b: Basepoint): (r: seq<byte>)
    requires b.Given? ==> |b.bytes| == 32
    ensures |r| == 32
  {
    if b.Given? then b.bytes else [9] + seq(31, i => 0)
  }

  /** `curve25519_donna` */
  method Donna(mypublic: array<byte>, secret: seq<byte>, basepoint: Basepoint)
    requires mypublic.Length == |secret| == 32 && (basepoint.Given? ==> |basepoint.bytes| == 32)
    modifies mypublic
    ensures LE(mypublic[..])
            == Ratio(Ladder(FieldBytes.Low255(PointBytes(basepoint)), LE(Clamped(secret)), 0, ALL_BITS)) % P
    ensures LE(mypublic[..])
            == Ratio(Ladder(FieldBytes.Low255(PointBytes(basepoint)), Scalar(LE(secret)), 0, ALL_BITS)) % P
  {
    hide Scalar, Clamped, LE, Ladder, Ratio, FieldBytes.Low255;
    var e := Masked(secret);
    Divide(mypublic, e, PointBytes(basepoint));
  }

  /** `e[0] &= 248; e[31] &= 127; e[31] |= 64`, on a copy. */
  method Masked(secret: seq<byte>) returns (r: seq<byte>)
    requires |secret| == 32
    ensures |r| == 32 && r == Clamped(secret) && LE(r) == Scalar(LE(secret))
  {
    hide Scalar, LE;
    ClampedScalar(secret);
    assert Clamped(secret)[..32] == Clamped(secret) && secret[..32] == secret;
    var e := new byte[32](i requires 0 <= i < 32 => secret[i]);
    assert e[..] == secret;
    e[0] := e[0] - e[0] % 8;
    e[31] := e[31] % 128;
    e[31] := if e[31] < 64 then e[31] + 64 else e[31];
    r := e[..];
    assert r == Clamped(secret);
  }

  method Divide(mypublic: array<byte>, e: seq<byte>, point: seq<byte>)
    requires mypublic.Length == |e| == |point| == 32
    modifies mypublic
    ensures LE(mypublic[..]) == Ratio(Ladder(FieldBytes.Low255(point), LE(e), 0, ALL_BITS)) % P
  {
    ghost var u := FieldBytes.Low255(point);
    var bp, x, z, zmone := new int64[10], new int64[10], new int64[11], new int64[10];
    DonnaBytes.Expand(bp, point);
    CongSelf(u);
    assert Is(bp, u);
    Multiply(x, z, e, bp, u);
    ghost var s := Ladder(u, LE(e), 0, ALL_BITS);
    Recip(zmone, z, s.z2);
    Mul(z, x, zmone, s.x2, Power(s.z2, P_MINUS_2));
    DonnaBytes.Contract(mypublic, z);
    CongIsMod(Value(z), Ratio(s));
  }
}
