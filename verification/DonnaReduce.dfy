/** Reduction of field elements in curve25519-donna: the routines that add, multiply, square and
    bring limbs back below 2^26 in magnitude. */
module DonnaReduce {
  import opened MachineInts
  import opened FieldElement
  import opened FieldMul
  import opened DonnaProduct

  // ---- Elements ----

  /** Every limb of the short form is below `bound` in magnitude. */
  ghost predicate Fits(a: array<int64>, bound: int)
    reads a
  {
    a.Length >= 10 && forall i | 0 <= i < 10 :: -bound < a[i] as int < bound
  }

  /** The number that the short form stands for. */
  ghost function Value(a: array<int64>): int
    requires a.Length >= 10
    reads a
  {
    Weigh(a[0] as int, a[1] as int, a[2] as int, a[3] as int, a[4] as int,
          a[5] as int, a[6] as int, a[7] as int, a[8] as int, a[9] as int)
  }

  /** The array holds v modulo p, in limbs below 2^26. */
  ghost predicate Is(a: array<int64>, v: int)
    reads a
  {
    Fits(a, 0x4000000) && Cong(Value(a), v)
  }

  /** The array holds v modulo p, in limbs below 2^27: a sum or difference, fit to be multiplied. */
  ghost predicate IsWide(a: array<int64>, v: int)
    reads a
  {
    Fits(a, 0x8000000) && Cong(Value(a), v)
  }

  lemma Widen(a: array<int64>, v: int)
    requires Is(a, v)
    ensures IsWide(a, v)
  {
  }

  /** The casts to s32 in `fproduct` and `fsquare_inner`, which lose nothing. */
  function Narrow(a: array<int64>): (f: seq<int32>)
    requires Fits(a, 0x8000000)
    reads a
    ensures Small(f) && Val(f) == Value(a)
  {
    ghost var g := [a[0] as int32, a[1] as int32, a[2] as int32, a[3] as int32, a[4] as int32,
                    a[5] as int32, a[6] as int32, a[7] as int32, a[8] as int32, a[9] as int32];
    ValIsWeighted(g);
    [a[0] as int32, a[1] as int32, a[2] as int32, a[3] as int32, a[4] as int32,
     a[5] as int32, a[6] as int32, a[7] as int32, a[8] as int32, a[9] as int32]
  }

  lemma ValueOfSlice(a: array<int64>)
    requires a.Length >= 10
    ensures Value(a) == Weighted64(a[..10]) && (a.Length >= 11 ==> a[..11][..10] == a[..10])
  {
  }

  // ---- Limbwise operations ----

  lemma SumWeighs(z: seq<int64>, x: seq<int64>, y: seq<int64>)
    requires |x| == |y| == |z| == 10
    requires forall k | 0 <= k < 10 :: z[k] as int == x[k] as int + y[k] as int
    ensures Weighted64(z) == Weighted64(x) + Weighted64(y)
  {
    assert z[0] as int == x[0] as int + y[0] as int && z[1] as int == x[1] as int + y[1] as int;
    assert z[2] as int == x[2] as int + y[2] as int && z[3] as int == x[3] as int + y[3] as int;
    assert z[4] as int == x[4] as int + y[4] as int && z[5] as int == x[5] as int + y[5] as int;
    assert z[6] as int == x[6] as int + y[6] as int && z[7] as int == x[7] as int + y[7] as int;
    assert z[8] as int == x[8] as int + y[8] as int && z[9] as int == x[9] as int + y[9] as int;
  }

  /** The loop of `fsum`, two limbs at a time. */
  method AddPairs(output: array<int64>, input: array<int64>)
    requires output != input && Fits(output, 0x4000000) && Fits(input, 0x4000000)
    modifies output
    ensures forall k | 0 <= k < 10 :: output[k] as int == old(output[k]) as int + input[k] as int
  {
    ghost var x := output[..10];
    for i := 0 to 5
      invariant forall k | 0 <= k < 2 * i :: output[k] as int == x[k] as int + input[k] as int
      invariant forall k | 2 * i <= k < 10 :: output[k] == x[k]
    {
      var j := 2 * i + 1;
      output[j - 1] := output[j - 1] + input[j - 1];
      output[j] := output[j] + input[j];
    }
    assert forall k | 0 <= k < 10 :: x[k] == old(output[k]);
  }

  /** `fsum`: output += in */
  method Sum(output: array<int64>, input: array<int64>, ghost u: int, ghost v: int)
    requires output != input && Is(output, u) && Is(input, v)
    modifies output
    ensures IsWide(output, u + v)
  {
    hide Cong, Weigh, Weighted64;
    ghost var x, y := output[..10], input[..10];
    ValueOfSlice(output);
    ValueOfSlice(input);
    AddPairs(output, input);
    SumWeighs(output[..10], x, y);
    ValueOfSlice(output);
    CongAdd(Weighted64(x), u, Weighted64(y), v);
  }

  /** `fdifference`: output = in - output */
  method Difference(output: array<int64>, input: array<int64>, ghost u: int, ghost v: int)
    requires output != input && Is(output, u) && Is(input, v)
    modifies output
    ensures IsWide(output, v - u)
  {
    hide Cong, Weigh, Weighted64;
    ghost var x, y := output[..10], input[..10];
    ValueOfSlice(output);
    ValueOfSlice(input);
    for i := 0 to 10
      invariant forall k | 0 <= k < i :: output[k] as int == y[k] as int - x[k] as int
      invariant forall k | i <= k < 10 :: output[k] == x[k]
    {
      output[i] := input[i] - output[i];
    }
    SumWeighs(y, output[..10], x);
    ValueOfSlice(output);
    CongAdd(Weighted64(y), v, Weighted64(x), u);
  }

  // ---- Multiplication ----

  method Store(output: array<int64>, t: seq<int64>)
    requires output.Length >= |t|
    modifies output
    ensures output[..|t|] == t
    ensures forall k | |t| <= k < output.Length :: output[k] == old(output[k])
  {
    for k := 0 to |t|
      invariant forall j | 0 <= j < k :: output[j] == t[j]
      invariant forall j | |t| <= j < output.Length :: output[j] == old(output[j])
    {
      output[k] := t[k];
    }
  }

  /** `fproduct` */
  method Product(output: array<int64>, in2: array<int64>, input: array<int64>)
    requires output.Length >= 19 && output != in2 && output != input
    requires Fits(in2, 0x8000000) && Fits(input, 0x8000000)
    modifies output
    ensures IsLong(output[..], Narrow(in2), Narrow(input))
  {
    Store(output, LongProduct(Narrow(in2), Narrow(input)));
  }

  /** `fsquare_inner` */
  method SquareInner(output: array<int64>, input: array<int64>)
    requires output.Length >= 19 && output != input && Fits(input, 0x8000000)
    modifies output
    ensures IsLong(output[..], Narrow(input), Narrow(input))
  {
    Store(output, LongSquare(Narrow(input)));
  }

  /** `output[k] += x << 4; output[k] += x << 1; output[k] += x`, for x = output[k + 10]. */
  method AddNineteenfold(output: array<int64>, k: nat)
    requires k < 9 && output.Length > k + 10
    requires -BOUND <= output[k] <= BOUND && -BOUND <= output[k + 10] <= BOUND
    modifies output
    ensures output[k] as int == old(output[k]) as int + 19 * old(output[k + 10]) as int
    ensures forall j | 0 <= j < output.Length && j != k :: output[j] == old(output[j])
  {
    output[k] := output[k] + 16 * output[k + 10];
    output[k] := output[k] + 2 * output[k + 10];
    output[k] := output[k] + output[k + 10];
  }

  /** `freduce_degree` */
  method ReduceDegree(output: array<int64>)
    requires output.Length >= 19 && forall k | 0 <= k < 19 :: -BOUND <= output[k] <= BOUND
    modifies output
    ensures forall k | 0 <= k < 9 :: output[k] as int == old(output[k]) as int + 19 * old(output[k + 10]) as int
    ensures forall k | 9 <= k < output.Length :: output[k] == old(output[k])
  {
    for k := 9 downto 0
      invariant forall j | 0 <= j < k :: output[j] == old(output[j])
      invariant forall j | k <= j < 9 :: output[j] as int == old(output[j]) as int + 19 * old(output[j + 10]) as int
      invariant forall j | 9 <= j < output.Length :: output[j] == old(output[j])
    {
      AddNineteenfold(output, k);
    }
  }

  // ---- Carrying ----

  /** The high half of v, read as unsigned: `(uint32_t) (((uint64_t) v) >> 32)`. */
  function HighWord(v: int64): (r: int)
    ensures 0 <= r < 0x1_0000_0000 && (r >= 0x8000_0000 <==> v < 0)
  {
    (if v < 0 then v as int + 0x1_0000_0000_0000_0000 else v as int) / 0x1_0000_0000
  }

  /** `((int32_t) highword) >> 31`, read as unsigned: all ones or all zeros. */
  function Sign(highword: int): (r: int)
    requires 0 <= highword < 0x1_0000_0000
    ensures r == (if highword >= 0x8000_0000 then 0xffff_ffff else 0)
  {
    ((if highword >= 0x8000_0000 then highword - 0x1_0000_0000 else highword) / 0x8000_0000) % 0x1_0000_0000
  }

  /** `div_by_2_26`: division that truncates toward zero, for every v. */
  function DivBy26(v: int64): (r: int64)
    ensures r as int == if v >= 0 then v as int / 0x4000000 else -(-(v as int) / 0x4000000)
  {
    var roundoff := (Sign(HighWord(v)) / 64) as int64;
    (v + roundoff) / 0x4000000
  }

  /** `div_by_2_25` */
  function DivBy25(v: int64): (r: int64)
    ensures r as int == if v >= 0 then v as int / 0x2000000 else -(-(v as int) / 0x2000000)
  {
    var roundoff := (Sign(HighWord(v)) / 128) as int64;
    (v + roundoff) / 0x2000000
  }

  /** The number that eleven limbs stand for; the eleventh weighs 2^255. */
  ghost function Eleven(t: seq<int64>): int
    requires |t| == 11
  {
    Weighted64(t[..10]) + 0x8000000000000000000000000000000000000000000000000000000000000000 * t[10] as int
  }

  /** Even limbs are 26 bits wide, odd limbs 25. */
  function Radix(i: nat): (r: int64)
    ensures r == 0x4000000 || r == 0x2000000
  {
    if i % 2 == 0 then 0x4000000 else 0x2000000
  }

  /** t is s with c carried out of limb i. */
  ghost predicate Carried(s: seq<int64>, t: seq<int64>, i: nat, c: int)
  {
    && |s| == |t| == 11 && i < 10
    && t[i] as int == s[i] as int - Radix(i) as int * c && t[i + 1] as int == s[i + 1] as int + c
    && forall k | 0 <= k < 11 && k != i && k != i + 1 :: t[k] == s[k]
  }

  /** What carrying c out of limb i adds to limb k. */
  ghost function Change(i: nat, c: int, k: nat): int
  {
    if k == i then -(Radix(i) as int * c) else if k == i + 1 then c else 0
  }

  lemma ChangesCancel(i: nat, c: int)
    requires i < 10
    ensures Weigh(Change(i, c, 0), Change(i, c, 1), Change(i, c, 2), Change(i, c, 3), Change(i, c, 4), Change(i, c, 5),
                  Change(i, c, 6), Change(i, c, 7), Change(i, c, 8), Change(i, c, 9))
            + 0x8000000000000000000000000000000000000000000000000000000000000000 * Change(i, c, 10) == 0
  {
  }

  lemma CarriedWeighs(s: seq<int64>, t: seq<int64>, i: nat, c: int)
    requires Carried(s, t, i, c)
    ensures Eleven(t) == Eleven(s)
  {
    ChangesCancel(i, c);
    CarriedChange(s, t, i, c, 0);
    CarriedChange(s, t, i, c, 1);
    CarriedChange(s, t, i, c, 2);
    CarriedChange(s, t, i, c, 3);
    CarriedChange(s, t, i, c, 4);
    CarriedChange(s, t, i, c, 5);
    CarriedChange(s, t, i, c, 6);
    CarriedChange(s, t, i, c, 7);
    CarriedChange(s, t, i, c, 8);
    CarriedChange(s, t, i, c, 9);
    CarriedChange(s, t, i, c, 10);
    hide Change, Carried;
  }

  lemma CarriedChange(s: seq<int64>, t: seq<int64>, i: nat, c: int, k: nat)
    requires Carried(s, t, i, c) && k < 11
    ensures t[k] as int == s[k] as int + Change(i, c, k)
  {
  }

  /** 281 * 2^54, of which `freduce_coefficients` says that no limb gets beyond it. */
  const LIMIT: int64 := 5062046123521409024

  /** `over = div_by_2_26(output[i]); output[i] -= over << 26; output[i + 1] += over`, and the
      same with 25 for odd i. */
  method CarryLimb(output: array<int64>, i: nat) returns (over: int64)
    requires output.Length >= 11 && i < 10
    requires -LIMIT <= output[i] <= LIMIT && -20 * BOUND <= output[i + 1] <= 20 * BOUND
    modifies output
    ensures Carried(old(output[..11]), output[..11], i, over as int)
    ensures -Radix(i) < output[i] < Radix(i)
    ensures -(LIMIT as int) <= old(output[i]) as int - output[i] as int == over as int * Radix(i) as int <= LIMIT as int
  {
    over := if i % 2 == 0 then DivBy26(output[i]) else DivBy25(output[i]);
    output[i] := output[i] - over * Radix(i);
    output[i + 1] := output[i + 1] + over;
  }

  /** What the loop of `freduce_coefficients` knows before it carries out of limb i. */
  ghost predicate CarriedUpTo(t: seq<int64>, i: nat)
  {
    && |t| == 11 && i <= 10
    && (forall k | 0 <= k < i :: -Radix(k) < t[k] < Radix(k))
    && (forall k | i < k < 10 :: -20 * BOUND <= t[k] <= 20 * BOUND)
    && (if i == 10 then -0x4000000000 <= t[10] <= 0x4000000000 else t[10] == 0 && -LIMIT <= t[i] <= LIMIT)
  }

  method CarryNext(output: array<int64>, i: nat)
    requires output.Length >= 11 && i < 10 && CarriedUpTo(output[..11], i)
    modifies output
    ensures CarriedUpTo(output[..11], i + 1) && Eleven(output[..11]) == old(Eleven(output[..11]))
  {
    hide Eleven;
    ghost var s := output[..11];
    var over := CarryLimb(output, i);
    CarriedWeighs(s, output[..11], i, over as int);
  }

  lemma NoEleventh(t: seq<int64>)
    requires |t| == 11 && t[10] == 0
    ensures Eleven(t) == Weighted64(t[..10])
  {
  }

  method CarryAll(output: array<int64>)
    requires output.Length >= 11 && CarriedUpTo(output[..11], 0)
    modifies output
    ensures CarriedUpTo(output[..11], 10) && Eleven(output[..11]) == old(Eleven(output[..11]))
  {
    hide Eleven, CarriedUpTo;
    for i := 0 to 5
      invariant CarriedUpTo(output[..11], 2 * i) && Eleven(output[..11]) == old(Eleven(output[..11]))
    {
      CarryNext(output, 2 * i);
      CarryNext(output, 2 * i + 1);
    }
  }

  /** The carry out of limb 9 comes back into limb 0, 19-fold. */
  method FoldTop(output: array<int64>)
    requires output.Length >= 11 && CarriedUpTo(output[..11], 10)
    modifies output
    ensures forall k | 1 <= k < 10 :: -Radix(k) < output[k] < Radix(k)
    ensures output[10] == 0 && -0x140000000000 <= output[0] <= 0x140000000000
    ensures Eleven(output[..11]) == old(Eleven(output[..11]) - output[10] as int * P)
  {
    ghost var s := output[..11];
    AddNineteenfold(output, 0);
    output[10] := 0;
    FoldedWeighs(s, output[..11]);
  }

  lemma FoldedWeighs(s: seq<int64>, t: seq<int64>)
    requires |s| == |t| == 11 && t[0] as int == s[0] as int + 19 * s[10] as int && t[10] == 0
    requires forall k | 1 <= k < 10 :: t[k] == s[k]
    ensures Eleven(t) == Eleven(s) - s[10] as int * P
  {
    assert t[1] == s[1] && t[2] == s[2] && t[3] == s[3] && t[4] == s[4] && t[5] == s[5];
    assert t[6] == s[6] && t[7] == s[7] && t[8] == s[8] && t[9] == s[9];
  }

  /** `freduce_coefficients` */
  method ReduceCoefficients(output: array<int64>)
    requires output.Length >= 11 && forall k | 0 <= k < 10 :: -20 * BOUND <= output[k] <= 20 * BOUND
    modifies output
    ensures Fits(output, 0x4000000) && Cong(Value(output), old(Value(output)))
  {
    hide Cong, Eleven, Weighted64, Weigh;
    ValueOfSlice(output);
    ghost var v := Value(output);
    output[10] := 0;
    ValueOfSlice(output);
    NoEleventh(output[..11]);
    CarryAll(output);
    ghost var q := output[10] as int;
    FoldTop(output);
    ghost var s := output[..11];
    var over := CarryLimb(output, 0);
    CarriedWeighs(s, output[..11], 0, over as int);
    NoEleventh(output[..11]);
    ValueOfSlice(output);
    Congruent(Value(output), v, -q);
  }

  // ---- Modulo p ----

  /** `freduce_degree` on a long product leaves the columns of the product modulo p. */
  lemma DegreeReduced(s: seq<int64>, t: seq<int64>, f: seq<int32>, g: seq<int32>)
    requires |f| == |g| == 10 && IsLong(s, f, g) && |t| == 10
    requires forall k | 0 <= k < 9 :: t[k] as int == s[k] as int + 19 * s[k + 10] as int
    requires t[9] == s[9]
    ensures Cong(Weighted64(t), Val(f) * Val(g))
  {
    hide Diagonal, Column, Weighted64, Cong, Val;
    forall k | 0 <= k < 10
      ensures t[k] as int == Column(f, g, k, 10)
    {
      DiagonalFolds(f, g, k, 10);
      if k == 9 {
        NoTopDiagonal(f, g);
      }
    }
    ColumnsOf(f, g, t);
  }

  lemma NoTopDiagonal(f: seq<int32>, g: seq<int32>)
    requires |f| == |g| == 10
    ensures Diagonal(f, g, 19) == 0
  {
  }

  /** `freduce_degree; freduce_coefficients` on a long product. */
  method ReduceLong(t: array<int64>, ghost f: seq<int32>, ghost g: seq<int32>)
    requires t.Length >= 19 && |f| == |g| == 10 && IsLong(t[..], f, g)
    modifies t
    ensures Is(t, Val(f) * Val(g))
  {
    hide Diagonal, Weighted64, Cong, Val;
    ghost var s := t[..];
    ReduceDegree(t);
    ValueOfSlice(t);
    DegreeReduced(s, t[..10], f, g);
    ghost var v := Value(t);
    ReduceCoefficients(t);
    CongTrans(Value(t), v, Val(f) * Val(g));
  }

  /** `fproduct; freduce_degree; freduce_coefficients` */
  method ProductIs(output: array<int64>, in2: array<int64>, input: array<int64>, ghost u: int, ghost v: int)
    requires output.Length >= 19 && output != in2 && output != input && IsWide(in2, u) && IsWide(input, v)
    modifies output
    ensures Is(output, u * v)
  {
    hide Cong, Val, Diagonal;
    ghost var f, g := Narrow(in2), Narrow(input);
    Product(output, in2, input);
    ReduceLong(output, f, g);
    CongMul(Val(f), u, Val(g), v);
    CongTrans(Value(output), Val(f) * Val(g), u * v);
  }

  /** `memcpy(output, t, sizeof(limb) * 10)` */
  method CopyTen(output: array<int64>, t: array<int64>)
    requires output.Length >= 10 && t.Length >= 10
    modifies output
    ensures output[..10] == old(t[..10])
    ensures Value(output) == old(Value(t)) && forall bound :: old(Fits(t, bound)) ==> Fits(output, bound)
  {
    Store(output, t[..10]);
    assert forall k | 0 <= k < 10 :: output[..10][k] == output[k];
  }

  method CopyIs(output: array<int64>, t: array<int64>, ghost v: int)
    requires output.Length >= 10 && Is(t, v)
    modifies output
    ensures Is(output, v)
  {
    hide Cong;
    CopyTen(output, t);
  }

  /** `fmul` */
  method Mul(output: array<int64>, input: array<int64>, in2: array<int64>, ghost u: int, ghost v: int)
    requires output.Length >= 10 && output != input && output != in2 && IsWide(input, u) && IsWide(in2, v)
    modifies output
    ensures Is(output, u * v)
  {
    var t := new int64[19];
    ProductIs(t, input, in2, u, v);
    CopyTen(output, t);
  }

  /** `fsquare` */
  method Square(output: array<int64>, input: array<int64>, ghost u: int)
    requires output.Length >= 10 && output != input && IsWide(input, u)
    modifies output
    ensures Is(output, u * u)
  {
    hide Cong, Val, Diagonal;
    var t := new int64[19];
    ghost var f := Narrow(input);
    SquareInner(t, input);
    ReduceLong(t, f, f);
    CongMul(Val(f), u, Val(f), u);
    CongTrans(Value(t), Val(f) * Val(f), u * u);
    CopyTen(output, t);
  }

  /** `fscalar_product(output, in, 121665)`, then `freduce_coefficients(output)`. */
  method Scaled(output: array<int64>, input: array<int64>, ghost u: int)
    requires output.Length >= 11 && output != input && IsWide(input, u)
    modifies output
    ensures Is(output, 121665 * u)
  {
    hide Cong;
    ghost var x := Value(input);
    for i := 0 to 10
      invariant forall k | 0 <= k < i :: output[k] as int == 121665 * input[k] as int
    {
      output[i] := input[i] * 121665;
    }
    ScaledWeighs(output, input);
    ReduceCoefficients(output);
    CongSelf(121665);
    CongMul(121665, 121665, x, u);
    CongTrans(Value(output), 121665 * x, 121665 * u);
  }

  lemma ScaledWeighs(z: array<int64>, x: array<int64>)
    requires z.Length >= 10 && x.Length >= 10 && forall k | 0 <= k < 10 :: z[k] as int == 121665 * x[k] as int
    ensures Value(z) == 121665 * Value(x)
  {
    assert z[0] as int == 121665 * x[0] as int && z[1] as int == 121665 * x[1] as int;
    assert z[2] as int == 121665 * x[2] as int && z[3] as int == 121665 * x[3] as int;
    assert z[4] as int == 121665 * x[4] as int && z[5] as int == 121665 * x[5] as int;
    assert z[6] as int == 121665 * x[6] as int && z[7] as int == 121665 * x[7] as int;
    assert z[8] as int == 121665 * x[8] as int && z[9] as int == 121665 * x[9] as int;
  }
}
