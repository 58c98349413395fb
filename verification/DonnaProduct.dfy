/** Products of field elements in curve25519-donna (third-party/curve25519/curve25519-donna.c):
    nineteen signed 64-bit limbs, of which the upper nine fold back as 19 times the lower. */
module DonnaProduct {
  import opened MachineInts
  import opened FieldElement
  import opened FieldMul

  /** 14 * 2^54, the bound on a sum of at most fourteen products of limbs below 2^27. */
  const BOUND: int64 := 252201579132747776

  /** Ten limbs below 2^27 in magnitude: what `fproduct` and `fsquare_inner` accept. */
  ghost predicate Small(f: seq<int32>)
  {
    Within(f, 0x7ffffff, 0x7ffffff)
  }

  /** The product of limb i of f and limb d - i of g at its place in the long form: two odd limbs
      are each half a bit short. */
  ghost function Pair(f: seq<int32>, g: seq<int32>, i: nat, d: nat): int
    requires |f| == |g| == 10 && i < 10
  {
    if i <= d < i + 10 then
      (if i % 2 == 1 && d % 2 == 0 then 2 else 1) * (f[i] as int * g[d - i] as int)
    else 0
  }

  /** Limb d of the long product. */
  ghost function Diagonal(f: seq<int32>, g: seq<int32>, d: nat): int
    requires |f| == |g| == 10
  {
    Pair(f, g, 0, d) + Pair(f, g, 1, d) + Pair(f, g, 2, d) + Pair(f, g, 3, d) + Pair(f, g, 4, d)
    + Pair(f, g, 5, d) + Pair(f, g, 6, d) + Pair(f, g, 7, d) + Pair(f, g, 8, d) + Pair(f, g, 9, d)
  }

  lemma PairFolds(f: seq<int32>, g: seq<int32>, i: nat, k: nat)
    requires |f| == |g| == 10 && i < 10 && k < 10
    ensures f[i] as int * Rotated(g, i, k) == Pair(f, g, i, k) + 19 * Pair(f, g, i, k + 10)
  {
  }

  /** Folding the upper limbs back turns the long product into the columns of a product
      modulo p. */
  lemma DiagonalFolds(f: seq<int32>, g: seq<int32>, k: nat, n: nat)
    requires |f| == |g| == n == 10 && k < 10
    ensures Column(f, g, k, n) == Diagonal(f, g, k) + 19 * Diagonal(f, g, k + 10)
  {
    hide Rotated, Pair;
    PairFolds(f, g, 0, k);
    PairFolds(f, g, 1, k);
    PairFolds(f, g, 2, k);
    PairFolds(f, g, 3, k);
    PairFolds(f, g, 4, k);
    PairFolds(f, g, 5, k);
    PairFolds(f, g, 6, k);
    PairFolds(f, g, 7, k);
    PairFolds(f, g, 8, k);
    PairFolds(f, g, 9, k);
    var c0, c1 := Column(f, g, k, 0), f[0] as int * Rotated(g, 0, k);
    assert Column(f, g, k, 2) == c0 + c1 + f[1] as int * Rotated(g, 1, k);
    assert Column(f, g, k, 4) == Column(f, g, k, 2) + f[2] as int * Rotated(g, 2, k) + f[3] as int * Rotated(g, 3, k);
    assert Column(f, g, k, 6) == Column(f, g, k, 4) + f[4] as int * Rotated(g, 4, k) + f[5] as int * Rotated(g, 5, k);
    assert Column(f, g, k, 8) == Column(f, g, k, 6) + f[6] as int * Rotated(g, 6, k) + f[7] as int * Rotated(g, 7, k);
  }

  /** A product of two limbs below 2^27, in 64 bits. */
  function Times(x: int32, y: int32): (r: int64)
    requires -0x7ffffff <= x <= 0x7ffffff && -0x7ffffff <= y <= 0x7ffffff
    ensures r as int == x as int * y as int
    ensures -0x40000000000000 <= r <= 0x40000000000000
  {
    TimesBound(x as int, y as int);
    x as int64 * y as int64
  }

  lemma TimesBound(x: int, y: int)
    requires -0x7ffffff <= x <= 0x7ffffff && -0x7ffffff <= y <= 0x7ffffff
    ensures -0x40000000000000 <= x * y <= 0x40000000000000
  {
    MulMonotone(if x < 0 then -x else x, 0x7ffffff, if y < 0 then -y else y, 0x7ffffff);
  }

  function Product0(f: seq<int32>, g: seq<int32>): (h: int64)
    requires Small(f) && Small(g)
    ensures h as int == Diagonal(f, g, 0) && -BOUND <= h <= BOUND
  {
    Times(f[0], g[0])
  }

  function Product1(f: seq<int32>, g: seq<int32>): (h: int64)
    requires Small(f) && Small(g)
    ensures h as int == Diagonal(f, g, 1) && -BOUND <= h <= BOUND
  {
    Times(f[0], g[1]) + Times(f[1], g[0])
  }

  function Product2(f: seq<int32>, g: seq<int32>): (h: int64)
    requires Small(f) && Small(g)
    ensures h as int == Diagonal(f, g, 2) && -BOUND <= h <= BOUND
  {
    2 * Times(f[1], g[1]) + Times(f[0], g[2]) + Times(f[2], g[0])
  }

  function Product3(f: seq<int32>, g: seq<int32>): (h: int64)
    requires Small(f) && Small(g)
    ensures h as int == Diagonal(f, g, 3) && -BOUND <= h <= BOUND
  {
    Times(f[1], g[2]) + Times(f[2], g[1]) + Times(f[0], g[3]) + Times(f[3], g[0])
  }

  function Product4(f: seq<int32>, g: seq<int32>): (h: int64)
    requires Small(f) && Small(g)
    ensures h as int == Diagonal(f, g, 4) && -BOUND <= h <= BOUND
  {
    Times(f[2], g[2]) + 2 * (Times(f[1], g[3]) + Times(f[3], g[1])) + Times(f[0], g[4]) + Times(f[4], g[0])
  }

  function Product5(f: seq<int32>, g: seq<int32>): (h: int64)
    requires Small(f) && Small(g)
    ensures h as int == Diagonal(f, g, 5) && -BOUND <= h <= BOUND
  {
    Times(f[2], g[3]) + Times(f[3], g[2]) + Times(f[1], g[4]) + Times(f[4], g[1]) + Times(f[0], g[5])
    + Times(f[5], g[0])
  }

  function Product6(f: seq<int32>, g: seq<int32>): (h: int64)
    requires Small(f) && Small(g)
    ensures h as int == Diagonal(f, g, 6) && -BOUND <= h <= BOUND
  {
    2 * (Times(f[3], g[3]) + Times(f[1], g[5]) + Times(f[5], g[1])) + Times(f[2], g[4]) + Times(f[4], g[2])
    + Times(f[0], g[6]) + Times(f[6], g[0])
  }

  function Product7(f: seq<int32>, g: seq<int32>): (h: int64)
    requires Small(f) && Small(g)
    ensures h as int == Diagonal(f, g, 7) && -BOUND <= h <= BOUND
  {
    Times(f[3], g[4]) + Times(f[4], g[3]) + Times(f[2], g[5]) + Times(f[5], g[2]) + Times(f[1], g[6])
    + Times(f[6], g[1]) + Times(f[0], g[7]) + Times(f[7], g[0])
  }

  function Product8(f: seq<int32>, g: seq<int32>): (h: int64)
    requires Small(f) && Small(g)
    ensures h as int == Diagonal(f, g, 8) && -BOUND <= h <= BOUND
  {
    Times(f[4], g[4]) + 2 * (Times(f[3], g[5]) + Times(f[5], g[3]) + Times(f[1], g[7]) + Times(f[7], g[1]))
    + Times(f[2], g[6]) + Times(f[6], g[2]) + Times(f[0], g[8]) + Times(f[8], g[0])
  }

  function Product9(f: seq<int32>, g: seq<int32>): (h: int64)
    requires Small(f) && Small(g)
    ensures h as int == Diagonal(f, g, 9) && -BOUND <= h <= BOUND
  {
    Times(f[4], g[5]) + Times(f[5], g[4]) + Times(f[3], g[6]) + Times(f[6], g[3]) + Times(f[2], g[7])
    + Times(f[7], g[2]) + Times(f[1], g[8]) + Times(f[8], g[1]) + Times(f[0], g[9]) + Times(f[9], g[0])
  }

  function Product10(f: seq<int32>, g: seq<int32>): (h: int64)
    requires Small(f) && Small(g)
    ensures h as int == Diagonal(f, g, 10) && -BOUND <= h <= BOUND
  {
    2 * (Times(f[5], g[5]) + Times(f[3], g[7]) + Times(f[7], g[3]) + Times(f[1], g[9]) + Times(f[9], g[1]))
    + Times(f[4], g[6]) + Times(f[6], g[4]) + Times(f[2], g[8]) + Times(f[8], g[2])
  }

  function Product11(f: seq<int32>, g: seq<int32>): (h: int64)
    requires Small(f) && Small(g)
    ensures h as int == Diagonal(f, g, 11) && -BOUND <= h <= BOUND
  {
    Times(f[5], g[6]) + Times(f[6], g[5]) + Times(f[4], g[7]) + Times(f[7], g[4]) + Times(f[3], g[8])
    + Times(f[8], g[3]) + Times(f[2], g[9]) + Times(f[9], g[2])
  }

  function Product12(f: seq<int32>, g: seq<int32>): (h: int64)
    requires Small(f) && Small(g)
    ensures h as int == Diagonal(f, g, 12) && -BOUND <= h <= BOUND
  {
    Times(f[6], g[6]) + 2 * (Times(f[5], g[7]) + Times(f[7], g[5]) + Times(f[3], g[9]) + Times(f[9], g[3]))
    + Times(f[4], g[8]) + Times(f[8], g[4])
  }

  function Product13(f: seq<int32>, g: seq<int32>): (h: int64)
    requires Small(f) && Small(g)
    ensures h as int == Diagonal(f, g, 13) && -BOUND <= h <= BOUND
  {
    Times(f[6], g[7]) + Times(f[7], g[6]) + Times(f[5], g[8]) + Times(f[8], g[5]) + Times(f[4], g[9])
    + Times(f[9], g[4])
  }

  function Product14(f: seq<int32>, g: seq<int32>): (h: int64)
    requires Small(f) && Small(g)
    ensures h as int == Diagonal(f, g, 14) && -BOUND <= h <= BOUND
  {
    2 * (Times(f[7], g[7]) + Times(f[5], g[9]) + Times(f[9], g[5])) + Times(f[6], g[8]) + Times(f[8], g[6])
  }

  function Product15(f: seq<int32>, g: seq<int32>): (h: int64)
    requires Small(f) && Small(g)
    ensures h as int == Diagonal(f, g, 15) && -BOUND <= h <= BOUND
  {
    Times(f[7], g[8]) + Times(f[8], g[7]) + Times(f[6], g[9]) + Times(f[9], g[6])
  }

  function Product16(f: seq<int32>, g: seq<int32>): (h: int64)
    requires Small(f) && Small(g)
    ensures h as int == Diagonal(f, g, 16) && -BOUND <= h <= BOUND
  {
    Times(f[8], g[8]) + 2 * (Times(f[7], g[9]) + Times(f[9], g[7]))
  }

  function Product17(f: seq<int32>, g: seq<int32>): (h: int64)
    requires Small(f) && Small(g)
    ensures h as int == Diagonal(f, g, 17) && -BOUND <= h <= BOUND
  {
    Times(f[8], g[9]) + Times(f[9], g[8])
  }

  function Product18(f: seq<int32>, g: seq<int32>): (h: int64)
    requires Small(f) && Small(g)
    ensures h as int == Diagonal(f, g, 18) && -BOUND <= h <= BOUND
  {
    2 * Times(f[9], g[9])
  }

  function Square0(f: seq<int32>): (h: int64)
    requires Small(f)
    ensures h as int == Diagonal(f, f, 0) && -BOUND <= h <= BOUND
  {
    Times(f[0], f[0])
  }

  function Square1(f: seq<int32>): (h: int64)
    requires Small(f)
    ensures h as int == Diagonal(f, f, 1) && -BOUND <= h <= BOUND
  {
    2 * Times(f[0], f[1])
  }

  function Square2(f: seq<int32>): (h: int64)
    requires Small(f)
    ensures h as int == Diagonal(f, f, 2) && -BOUND <= h <= BOUND
  {
    2 * (Times(f[1], f[1]) + Times(f[0], f[2]))
  }

  function Square3(f: seq<int32>): (h: int64)
    requires Small(f)
    ensures h as int == Diagonal(f, f, 3) && -BOUND <= h <= BOUND
  {
    2 * (Times(f[1], f[2]) + Times(f[0], f[3]))
  }

  function Square4(f: seq<int32>): (h: int64)
    requires Small(f)
    ensures h as int == Diagonal(f, f, 4) && -BOUND <= h <= BOUND
  {
    Times(f[2], f[2]) + 4 * Times(f[1], f[3]) + 2 * Times(f[0], f[4])
  }

  function Square5(f: seq<int32>): (h: int64)
    requires Small(f)
    ensures h as int == Diagonal(f, f, 5) && -BOUND <= h <= BOUND
  {
    2 * (Times(f[2], f[3]) + Times(f[1], f[4]) + Times(f[0], f[5]))
  }

  function Square6(f: seq<int32>): (h: int64)
    requires Small(f)
    ensures h as int == Diagonal(f, f, 6) && -BOUND <= h <= BOUND
  {
    2 * (Times(f[3], f[3]) + Times(f[2], f[4]) + Times(f[0], f[6]) + 2 * Times(f[1], f[5]))
  }

  function Square7(f: seq<int32>): (h: int64)
    requires Small(f)
    ensures h as int == Diagonal(f, f, 7) && -BOUND <= h <= BOUND
  {
    2 * (Times(f[3], f[4]) + Times(f[2], f[5]) + Times(f[1], f[6]) + Times(f[0], f[7]))
  }

  function Square8(f: seq<int32>): (h: int64)
    requires Small(f)
    ensures h as int == Diagonal(f, f, 8) && -BOUND <= h <= BOUND
  {
    Times(f[4], f[4]) + 2 * (Times(f[2], f[6]) + Times(f[0], f[8]) + 2 * (Times(f[1], f[7])
    + Times(f[3], f[5])))
  }

  function Square9(f: seq<int32>): (h: int64)
    requires Small(f)
    ensures h as int == Diagonal(f, f, 9) && -BOUND <= h <= BOUND
  {
    2 * (Times(f[4], f[5]) + Times(f[3], f[6]) + Times(f[2], f[7]) + Times(f[1], f[8]) + Times(f[0], f[9]))
  }

  function Square10(f: seq<int32>): (h: int64)
    requires Small(f)
    ensures h as int == Diagonal(f, f, 10) && -BOUND <= h <= BOUND
  {
    2 * (Times(f[5], f[5]) + Times(f[4], f[6]) + Times(f[2], f[8]) + 2 * (Times(f[3], f[7])
    + Times(f[1], f[9])))
  }

  function Square11(f: seq<int32>): (h: int64)
    requires Small(f)
    ensures h as int == Diagonal(f, f, 11) && -BOUND <= h <= BOUND
  {
    2 * (Times(f[5], f[6]) + Times(f[4], f[7]) + Times(f[3], f[8]) + Times(f[2], f[9]))
  }

  function Square12(f: seq<int32>): (h: int64)
    requires Small(f)
    ensures h as int == Diagonal(f, f, 12) && -BOUND <= h <= BOUND
  {
    Times(f[6], f[6]) + 2 * (Times(f[4], f[8]) + 2 * (Times(f[5], f[7]) + Times(f[3], f[9])))
  }

  function Square13(f: seq<int32>): (h: int64)
    requires Small(f)
    ensures h as int == Diagonal(f, f, 13) && -BOUND <= h <= BOUND
  {
    2 * (Times(f[6], f[7]) + Times(f[5], f[8]) + Times(f[4], f[9]))
  }

  function Square14(f: seq<int32>): (h: int64)
    requires Small(f)
    ensures h as int == Diagonal(f, f, 14) && -BOUND <= h <= BOUND
  {
    2 * (Times(f[7], f[7]) + Times(f[6], f[8]) + 2 * Times(f[5], f[9]))
  }

  function Square15(f: seq<int32>): (h: int64)
    requires Small(f)
    ensures h as int == Diagonal(f, f, 15) && -BOUND <= h <= BOUND
  {
    2 * (Times(f[7], f[8]) + Times(f[6], f[9]))
  }

  function Square16(f: seq<int32>): (h: int64)
    requires Small(f)
    ensures h as int == Diagonal(f, f, 16) && -BOUND <= h <= BOUND
  {
    Times(f[8], f[8]) + 4 * Times(f[7], f[9])
  }

  function Square17(f: seq<int32>): (h: int64)
    requires Small(f)
    ensures h as int == Diagonal(f, f, 17) && -BOUND <= h <= BOUND
  {
    2 * Times(f[8], f[9])
  }

  function Square18(f: seq<int32>): (h: int64)
    requires Small(f)
    ensures h as int == Diagonal(f, f, 18) && -BOUND <= h <= BOUND
  {
    2 * Times(f[9], f[9])
  }

  /** The long form: limbs 10 and up weigh 2^255 times limbs 0 and up. */
  ghost predicate IsLong(t: seq<int64>, f: seq<int32>, g: seq<int32>)
    requires |f| == |g| == 10
  {
    |t| >= 19 && forall k | 0 <= k < 19 :: t[k] as int == Diagonal(f, g, k) && -BOUND <= t[k] <= BOUND
  }

  function LongProduct(f: seq<int32>, g: seq<int32>): (t: seq<int64>)
    requires Small(f) && Small(g)
    ensures |t| == 19 && IsLong(t, f, g)
  {
    [Product0(f, g), Product1(f, g), Product2(f, g), Product3(f, g), Product4(f, g), Product5(f, g), Product6(f, g),
     Product7(f, g), Product8(f, g), Product9(f, g), Product10(f, g), Product11(f, g), Product12(f, g), Product13(f, g),
     Product14(f, g), Product15(f, g), Product16(f, g), Product17(f, g), Product18(f, g)]
  }

  function LongSquare(f: seq<int32>): (t: seq<int64>)
    requires Small(f)
    ensures |t| == 19 && IsLong(t, f, f)
  {
    [Square0(f), Square1(f), Square2(f), Square3(f), Square4(f), Square5(f), Square6(f), Square7(f), Square8(f),
     Square9(f), Square10(f), Square11(f), Square12(f), Square13(f), Square14(f), Square15(f), Square16(f),
     Square17(f), Square18(f)]
  }
}
