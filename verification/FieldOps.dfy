/** The remaining field operations: addition, subtraction, negation, conditional swap and
    inversion (third-party/ed25519/fe.c). */
module FieldOps {
  import opened MachineInts
  import opened Words32
  import opened FieldElement
  import opened FieldMul

  // ---- Limbwise operations ----

  /** `fe_add`, for any limb bounds whose sums fit an int32. h may be f or g. */
  method Add(h: array<int32>, f: array<int32>, g: array<int32>, ghost e1: int, ghost o1: int, ghost e2: int,
      ghost o2: int)
    requires h.Length == f.Length == g.Length == 10 && Within(f[..], e1, o1) && Within(g[..], e2, o2)
    requires e1 + e2 < 0x8000_0000 && o1 + o2 < 0x8000_0000
    modifies h
    ensures Within(h[..], e1 + e2, o1 + o2) && Val(h[..]) == old(Val(f[..]) + Val(g[..]))
  {
    ghost var x, y := f[..], g[..];
    var r := [f[0] + g[0], f[1] + g[1], f[2] + g[2], f[3] + g[3], f[4] + g[4],
              f[5] + g[5], f[6] + g[6], f[7] + g[7], f[8] + g[8], f[9] + g[9]];
    Store(h, r);
    ValIsWeighted(x);
    ValIsWeighted(y);
    ValIsWeighted(r);
  }

  /** `fe_sub`. h may be f or g. */
  method Sub(h: array<int32>, f: array<int32>, g: array<int32>, ghost e1: int, ghost o1: int, ghost e2: int,
      ghost o2: int)
    requires h.Length == f.Length == g.Length == 10 && Within(f[..], e1, o1) && Within(g[..], e2, o2)
    requires e1 + e2 < 0x8000_0000 && o1 + o2 < 0x8000_0000
    modifies h
    ensures Within(h[..], e1 + e2, o1 + o2) && Val(h[..]) == old(Val(f[..]) - Val(g[..]))
  {
    ghost var x, y := f[..], g[..];
    var r := [f[0] - g[0], f[1] - g[1], f[2] - g[2], f[3] - g[3], f[4] - g[4],
              f[5] - g[5], f[6] - g[6], f[7] - g[7], f[8] - g[8], f[9] - g[9]];
    Store(h, r);
    ValIsWeighted(x);
    ValIsWeighted(y);
    ValIsWeighted(r);
  }

  /** `fe_0` and `fe_1`. */
  method Small(h: array<int32>, c: int32)
    requires h.Length == 10 && 0 <= c <= 1
    modifies h
    ensures Tight(h[..]) && Val(h[..]) == c as int && Within(h[..], 1, 0)
  {
    var r := [c, 0, 0, 0, 0, 0, 0, 0, 0, 0];
    Store(h, r);
    ValIsWeighted(r);
  }

  /** `fe_copy`. */
  method Copy(h: array<int32>, f: array<int32>)
    requires h.Length == f.Length == 10
    modifies h
    ensures h[..] == old(f[..])
  {
    Store(h, f[..]);
  }

  /** `x0 = f0 ^ g0; x0 &= b` and so on. */
  function Masked(x: seq<int32>, y: seq<int32>, mask: int32): (m: seq<int32>)
    requires |x| == |y|
    ensures |m| == |x|
  {
    seq(|x|, i requires 0 <= i < |x| => And32(Xor32(x[i], y[i]), mask))
  }

  function XorEach(x: seq<int32>, m: seq<int32>): (r: seq<int32>)
    requires |x| == |m|
    ensures |r| == |x|
  {
    seq(|x|, i requires 0 <= i < |x| => Xor32(x[i], m[i]))
  }

  lemma MaskedSelects(x: seq<int32>, y: seq<int32>, b: int32)
    requires |x| == |y| && (b == 0 || b == 1)
    ensures XorEach(x, Masked(x, y, -b)) == if b == 1 then y else x
    ensures XorEach(y, Masked(x, y, -b)) == if b == 1 then x else y
  {
    hide Xor32, And32;
    var m := Masked(x, y, -b);
    var r, s := XorEach(x, m), XorEach(y, m);
    forall i | 0 <= i < |x|
      ensures r[i] == (if b == 1 then y else x)[i]
      ensures s[i] == (if b == 1 then x else y)[i]
    {
      MaskSelects(x[i], y[i], b);
    }
  }

  /** `fe_cswap`, by a mask of all ones or all zeros. */
  method Cswap(f: array<int32>, g: array<int32>, b: int)
    requires f.Length == g.Length == 10 && f != g && (b == 0 || b == 1)
    modifies f, g
    ensures f[..] == old(if b == 1 then g[..] else f[..])
    ensures g[..] == old(if b == 1 then f[..] else g[..])
  {
    hide Masked, XorEach;
    var x, y := f[..], g[..];
    var m := Masked(x, y, -(b as int32));
    MaskedSelects(x, y, b as int32);
    Store(f, XorEach(x, m));
    Store(g, XorEach(y, m));
  }

  /** `fe_cmov`. */
  method Cmov(f: array<int32>, g: array<int32>, b: byte)
    requires f.Length == g.Length == 10 && b <= 1
    modifies f
    ensures f[..] == old(if b == 1 then g[..] else f[..])
  {
    hide Masked, XorEach;
    var x, y := f[..], g[..];
    MaskedSelects(x, y, b as int32);
    Store(f, XorEach(x, Masked(x, y, -(b as int32))));
  }

  /** `fe_neg`. h may be f. */
  method Neg(h: array<int32>, f: array<int32>, ghost e: int, ghost o: int)
    requires h.Length == f.Length == 10 && Within(f[..], e, o) && e < 0x8000_0000 && o < 0x8000_0000
    modifies h
    ensures Within(h[..], e, o) && Val(h[..]) == -old(Val(f[..]))
  {
    ghost var x := f[..];
    var r := [-f[0], -f[1], -f[2], -f[3], -f[4], -f[5], -f[6], -f[7], -f[8], -f[9]];
    Store(h, r);
    ValIsWeighted(x);
    ValIsWeighted(r);
  }

  // ---- Powers ----

  ghost function Power(z: int, e: nat): int
  {
    if e == 0 then 1 else z * Power(z, e - 1)
  }

  lemma {:induction false} PowerAdd(z: int, d: nat, e: nat)
    ensures Power(z, d + e) == Power(z, d) * Power(z, e)
  {
    if d > 0 {
      PowerAdd(z, d - 1, e);
      Regroup(z, Power(z, d - 1), Power(z, e));
    }
  }

  /** f holds the e-th power of z, fit to be multiplied. */
  ghost predicate HoldsPower(f: seq<int32>, z: int, e: nat)
  {
    Loose(f) && Cong(Val(f), Power(z, e))
  }

  lemma HoldsFirst(f: seq<int32>)
    requires Loose(f)
    ensures HoldsPower(f, Val(f), 1)
  {
    var z := Val(f);
    assert Power(z, 1) == z * Power(z, 0);
    CongSelf(z);
  }

  method MulPowers(h: array<int32>, f: array<int32>, g: array<int32>, ghost z: int, ghost d: nat, ghost e: nat)
    requires h.Length == f.Length == g.Length == 10 && HoldsPower(f[..], z, d) && HoldsPower(g[..], z, e)
    modifies h
    ensures HoldsPower(h[..], z, d + e) && Tight(h[..])
  {
    ghost var x, y := Val(f[..]), Val(g[..]);
    Mul(h, f, g);
    CongMul(x, Power(z, d), y, Power(z, e));
    PowerAdd(z, d, e);
    CongTrans(Val(h[..]), x * y, Power(z, d + e));
  }

  method SqPower(h: array<int32>, f: array<int32>, ghost z: int, ghost e: nat)
    requires h.Length == f.Length == 10 && HoldsPower(f[..], z, e)
    modifies h
    ensures HoldsPower(h[..], z, 2 * e) && Tight(h[..])
  {
    ghost var x := Val(f[..]);
    Sq(h, f);
    CongMul(x, Power(z, e), x, Power(z, e));
    PowerAdd(z, e, e);
    CongTrans(Val(h[..]), x * x, Power(z, 2 * e));
  }

  /** e times 2^n. */
  ghost function Double(e: nat, n: nat): nat
  {
    if n == 0 then e else 2 * Double(e, n - 1)
  }

  /** `fe_sq(h, f); for (i = 1; i < n; ++i) fe_sq(h, h);` */
  method SqMany(h: array<int32>, f: array<int32>, n: nat, ghost z: int, ghost e: nat)
    requires h.Length == f.Length == 10 && HoldsPower(f[..], z, e) && n >= 1
    modifies h
    ensures HoldsPower(h[..], z, Double(e, n)) && Tight(h[..])
  {
    SqPower(h, f, z, e);
    assert Double(e, 1) == 2 * Double(e, 0);
    for i := 1 to n
      invariant HoldsPower(h[..], z, Double(e, i)) && Tight(h[..])
    {
      SqPower(h, h, z, Double(e, i));
    }
  }

  lemma {:induction false} DoubleAdd(e: nat, m: nat, n: nat)
    ensures Double(e, m + n) == Double(Double(e, m), n)
  {
    if n > 0 {
      DoubleAdd(e, m, n - 1);
    }
  }

  lemma DoubleFive(e: nat, n: nat)
    requires n == 5
    ensures Double(e, n) == 0x20 * e
  {
    assert Double(e, 2) == 2 * Double(e, 1) && Double(e, 4) == 2 * Double(e, 3);
  }

  lemma DoubleTen(e: nat, n: nat)
    requires n == 10
    ensures Double(e, n) == 0x400 * e
  {
    DoubleFive(e, n - 5);
    DoubleFive(0x20 * e, n - 5);
    DoubleAdd(e, n - 5, n - 5);
  }

  lemma DoubleTwenty(e: nat, n: nat)
    requires n == 20
    ensures Double(e, n) == 0x100000 * e
  {
    DoubleTen(e, n - 10);
    DoubleTen(0x400 * e, n - 10);
    DoubleAdd(e, n - 10, n - 10);
  }

  lemma DoubleFifty(e: nat, n: nat)
    requires n == 50
    ensures Double(e, n) == 0x4000000000000 * e
  {
    DoubleTwenty(e, n - 30);
    DoubleTwenty(0x100000 * e, n - 30);
    DoubleAdd(e, n - 30, n - 30);
    DoubleTen(0x10000000000 * e, n - 40);
    DoubleAdd(e, n - 10, n - 40);
  }

  lemma DoubleHundred(e: nat, n: nat)
    requires n == 100
    ensures Double(e, n) == 0x10000000000000000000000000 * e
  {
    DoubleFifty(e, n - 50);
    DoubleFifty(0x4000000000000 * e, n - 50);
    DoubleAdd(e, n - 50, n - 50);
  }

  /** p - 2, the exponent of inversion by Fermat's theorem. */
  const P_MINUS_2: nat := 0x7fffffffffffffffffffffffffffffffffffffffffffffffffffffffffffffeb

  /** 2^n, for the run lengths of the chain. */
  ghost function Run(n: nat): nat
    requires n == 5 || n == 10 || n == 20 || n == 50 || n == 100
  {
    if n == 5 then 0x20 else if n == 10 then 0x400 else if n == 20 then 0x100000
    else if n == 50 then 0x4000000000000 else 0x10000000000000000000000000
  }

  method SqRun(h: array<int32>, f: array<int32>, n: nat, ghost z: int, ghost e: nat)
    requires h.Length == f.Length == 10 && HoldsPower(f[..], z, e)
    requires n == 5 || n == 10 || n == 20 || n == 50 || n == 100
    modifies h
    ensures HoldsPower(h[..], z, Run(n) * e) && Tight(h[..])
  {
    SqMany(h, f, n, z, e);
    if n == 5 {
      DoubleFive(e, n);
    } else if n == 10 {
      DoubleTen(e, n);
    } else if n == 20 {
      DoubleTwenty(e, n);
    } else if n == 50 {
      DoubleFifty(e, n);
    } else {
      DoubleHundred(e, n);
    }
  }

  /** The chain up to z^11 and z^31. */
  method ChainStart(t0: array<int32>, t1: array<int32>, t2: array<int32>, z: array<int32>, ghost v: int)
    requires t0.Length == t1.Length == t2.Length == z.Length == 10 && HoldsPower(z[..], v, 1)
    requires t0 != t1 && t0 != t2 && t1 != t2 && z != t0 && z != t1 && z != t2
    modifies t0, t1, t2
    ensures HoldsPower(t0[..], v, 11) && HoldsPower(t1[..], v, 0x1f)
  {
    SqPower(t0, z, v, 1);
    SqPower(t1, t0, v, 2);
    SqPower(t1, t1, v, 4);
    MulPowers(t1, z, t1, v, 1, 8);
    MulPowers(t0, t0, t1, v, 2, 9);
    SqPower(t2, t0, v, 11);
    MulPowers(t1, t1, t2, v, 9, 22);
  }

  /** From z^31 to z^(2^50 - 1). */
  method ChainMiddle(t1: array<int32>, t2: array<int32>, t3: array<int32>, ghost v: int)
    requires t1.Length == t2.Length == t3.Length == 10 && HoldsPower(t1[..], v, 0x1f)
    requires t1 != t2 && t1 != t3 && t2 != t3
    modifies t1, t2, t3
    ensures HoldsPower(t1[..], v, 0x3ffffffffffff)
  {
    SqRun(t2, t1, 5, v, 0x1f);
    MulPowers(t1, t2, t1, v, 0x3e0, 0x1f);
    SqRun(t2, t1, 10, v, 0x3ff);
    MulPowers(t2, t2, t1, v, 0xffc00, 0x3ff);
    SqRun(t3, t2, 20, v, 0xfffff);
    MulPowers(t2, t3, t2, v, 0xfffff00000, 0xfffff);
    SqRun(t2, t2, 10, v, 0xffffffffff);
    MulPowers(t1, t2, t1, v, 0x3fffffffffc00, 0x3ff);
  }

  /** From z^(2^50 - 1) to z^(2^250 - 1). */
  method ChainEnd(t1: array<int32>, t2: array<int32>, t3: array<int32>, ghost v: int)
    requires t1.Length == t2.Length == t3.Length == 10 && HoldsPower(t1[..], v, 0x3ffffffffffff)
    requires t1 != t2 && t1 != t3 && t2 != t3
    modifies t1, t2, t3
    ensures HoldsPower(t1[..], v, 0x3ffffffffffffffffffffffffffffffffffffffffffffffffffffffffffffff)
  {
    SqRun(t2, t1, 50, v, 0x3ffffffffffff);
    MulPowers(t2, t2, t1, v, 0xffffffffffffc000000000000, 0x3ffffffffffff);
    SqRun(t3, t2, 100, v, 0xfffffffffffffffffffffffff);
    MulPowers(t2, t3, t2, v, 0xfffffffffffffffffffffffff0000000000000000000000000, 0xfffffffffffffffffffffffff);
    SqRun(t2, t2, 50, v, 0xffffffffffffffffffffffffffffffffffffffffffffffffff);
    MulPowers(t1, t2, t1, v, 0x3fffffffffffffffffffffffffffffffffffffffffffffffffc000000000000, 0x3ffffffffffff);
  }

  /** `fe_invert`: the power z^(p-2). */
  method Invert(out: array<int32>, z: array<int32>)
    requires out.Length == z.Length == 10 && Loose(z[..])
    modifies out
    ensures Tight(out[..]) && Cong(Val(out[..]), Power(old(Val(z[..])), P_MINUS_2))
  {
    var t0, t1, t2, t3 := new int32[10], new int32[10], new int32[10], new int32[10];
    ghost var v := Val(z[..]);
    HoldsFirst(z[..]);
    ChainStart(t0, t1, t2, z, v);
    ChainMiddle(t1, t2, t3, v);
    ChainEnd(t1, t2, t3, v);
    SqRun(t1, t1, 5, v, 0x3ffffffffffffffffffffffffffffffffffffffffffffffffffffffffffffff);
    MulPowers(out, t1, t0, v, 0x7fffffffffffffffffffffffffffffffffffffffffffffffffffffffffffffe0, 11);
  }

  /** The chain of `fe_pow22523` up to z^31. */
  method RootChainStart(t0: array<int32>, t1: array<int32>, z: array<int32>, ghost v: int)
    requires t0.Length == t1.Length == z.Length == 10 && HoldsPower(z[..], v, 1)
    requires t0 != t1 && z != t0 && z != t1
    modifies t0, t1
    ensures HoldsPower(t0[..], v, 0x1f)
  {
    hide HoldsPower, Tight;
    SqPower(t0, z, v, 1);
    SqPower(t1, t0, v, 2);
    SqPower(t1, t1, v, 4);
    MulPowers(t1, z, t1, v, 1, 8);
    MulPowers(t0, t0, t1, v, 2, 9);
    SqPower(t0, t0, v, 11);
    MulPowers(t0, t1, t0, v, 9, 22);
  }

  /** From there to z^(2^50 - 1). */
  method RootChainMiddle(t0: array<int32>, t1: array<int32>, t2: array<int32>, ghost v: int)
    requires t0.Length == t1.Length == t2.Length == 10 && HoldsPower(t0[..], v, 0x1f)
    requires t0 != t1 && t0 != t2 && t1 != t2
    modifies t0, t1, t2
    ensures HoldsPower(t0[..], v, 0x3ffffffffffff)
  {
    hide HoldsPower, Tight;
    SqRun(t1, t0, 5, v, 0x1f);
    MulPowers(t0, t1, t0, v, 0x3e0, 0x1f);
    SqRun(t1, t0, 10, v, 0x3ff);
    MulPowers(t1, t1, t0, v, 0xffc00, 0x3ff);
    SqRun(t2, t1, 20, v, 0xfffff);
    MulPowers(t1, t2, t1, v, 0xfffff00000, 0xfffff);
    SqRun(t1, t1, 10, v, 0xffffffffff);
    MulPowers(t0, t1, t0, v, 0x3fffffffffc00, 0x3ff);
  }

  /** From there to z^(2^250 - 1). */
  method RootChainEnd(t0: array<int32>, t1: array<int32>, t2: array<int32>, ghost v: int)
    requires t0.Length == t1.Length == t2.Length == 10 && HoldsPower(t0[..], v, 0x3ffffffffffff)
    requires t0 != t1 && t0 != t2 && t1 != t2
    modifies t0, t1, t2
    ensures HoldsPower(t0[..], v, 0x3ffffffffffffffffffffffffffffffffffffffffffffffffffffffffffffff)
  {
    SqRun(t1, t0, 50, v, 0x3ffffffffffff);
    MulPowers(t1, t1, t0, v, 0xffffffffffffc000000000000, 0x3ffffffffffff);
    SqRun(t2, t1, 100, v, 0xfffffffffffffffffffffffff);
    MulPowers(t1, t2, t1, v, 0xfffffffffffffffffffffffff0000000000000000000000000, 0xfffffffffffffffffffffffff);
    SqRun(t1, t1, 50, v, 0xffffffffffffffffffffffffffffffffffffffffffffffffff);
    MulPowers(t0, t1, t0, v, 0x3fffffffffffffffffffffffffffffffffffffffffffffffffc000000000000, 0x3ffffffffffff);
  }

  /** (p - 5) / 8, the exponent of `fe_pow22523`. */
  const EIGHTH: nat := 0xffffffffffffffffffffffffffffffffffffffffffffffffffffffffffffffd

  /** `fe_pow22523`: the power z^((p-5)/8). out may be z. */
  method Pow22523(out: array<int32>, z: array<int32>)
    requires out.Length == z.Length == 10 && Loose(z[..])
    modifies out
    ensures Tight(out[..]) && Cong(Val(out[..]), Power(old(Val(z[..])), EIGHTH))
  {
    var t0, t1, t2 := new int32[10], new int32[10], new int32[10];
    ghost var v := Val(z[..]);
    HoldsFirst(z[..]);
    RootChainStart(t0, t1, z, v);
    RootChainMiddle(t0, t1, t2, v);
    RootChainEnd(t0, t1, t2, v);
    SqPower(t0, t0, v, 0x3ffffffffffffffffffffffffffffffffffffffffffffffffffffffffffffff);
    SqPower(t0, t0, v, 0x7fffffffffffffffffffffffffffffffffffffffffffffffffffffffffffffe);
    MulPowers(out, t0, z, v, 0xffffffffffffffffffffffffffffffffffffffffffffffffffffffffffffffc, 1);
  }
}
