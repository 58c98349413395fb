/** Scalar arithmetic modulo the order of the Ed25519 base point, on 24 signed limbs of
    21 bits (third-party/ed25519/sc.c). */
module ScalarModL {
  import opened MachineInts
  import opened LittleEndian

  /** 2^252 + 27742317777372353535851937790883648493 */
  const L: int := 0x1000000000000000000000000000000014def9dea2f79cd65812631a5cf5d3ed

  const RADIX: int := 0x20_0000

  /** `d` shifted left by `i` limbs. */
  ghost function Shl(d: int, i: nat): int
  {
    if i == 0 then d else RADIX * Shl(d, i - 1)
  }

  /** The number a limb vector stands for. */
  ghost function Value(s: seq<int64>): int
  {
    if s == [] then 0 else Value(s[..|s| - 1]) + Shl(s[|s| - 1] as int, |s| - 1)
  }

  ghost predicate Within(s: seq<int64>, lo: nat, hi: nat, m: int)
  {
    forall j | lo <= j < hi && j < |s| :: -m <= s[j] as int <= m
  }

  lemma {:induction false} ShlLinear(c: int, d: int, e: int, i: nat)
    ensures Shl(c * d + e, i) == c * Shl(d, i) + Shl(e, i)
  {
    if i > 0 {
      ShlLinear(c, d, e, i - 1);
      assert RADIX * (c * Shl(d, i - 1) + Shl(e, i - 1)) == c * (RADIX * Shl(d, i - 1)) + RADIX * Shl(e, i - 1);
    }
  }

  lemma {:induction false} ValueUpdate(s: seq<int64>, i: nat, x: int64)
    requires i < |s|
    ensures Value(s[i := x]) == Value(s) + Shl(x as int - s[i] as int, i)
  {
    var n := |s| - 1;
    if i == n {
      assert s[i := x][..n] == s[..n];
      ShlLinear(1, s[i] as int, x as int - s[i] as int, i);
    } else {
      ValueUpdate(s[..n], i, x);
      assert s[i := x][..n] == s[..n][i := x];
    }
  }

  /** One `s_i += t * m` of the source. */
  method AddMul(s: array<int64>, i: nat, t: int64, m: int64)
    requires i < s.Length && -0x4000_0000_0000_0000 <= s[i] <= 0x4000_0000_0000_0000
    requires -0x100_0000_0000 <= t <= 0x100_0000_0000 && -0x10_0000 <= m <= 0x10_0000
    modifies s
    ensures s[i] as int == old(s[i]) as int + t as int * m as int
    ensures forall j | 0 <= j < s.Length && j != i :: s[j] == old(s[j])
    ensures Value(s[..]) == old(Value(s[..])) + m as int * Shl(t as int, i)
  {
    MulBound(t as int, m as int, 0x100_0000_0000, 0x10_0000);
    ValueUpdate(s[..], i, s[i] + t * m);
    ShlLinear(m as int, t as int, 0, i);
    ShlZero(i);
    s[i] := s[i] + t * m;
    assert s[..] == old(s[..])[i := s[i]];
  }

  lemma ShlZero(i: nat)
    ensures Shl(0, i) == 0
  {}

  lemma MulBound(x: int, y: int, a: int, b: int)
    requires -a <= x <= a && -b <= y <= b
    ensures -(a * b) <= x * y <= a * b
  {
    assert (a - x) * (b + y) >= 0 && (a + x) * (b - y) >= 0;
    assert (a - x) * (b - y) >= 0 && (a + x) * (b + y) >= 0;
  }

  /** Replace limb `k` by its residue: 2^252 is congruent to the six limbs below, so the
      value moves by a multiple of L. */
  method FoldLimb(s: array<int64>, k: nat, ghost n: int)
    requires s.Length == 24 && 12 <= k < 24
    requires 0 <= n <= 0x40_0000_0000 && -n <= s[k] as int <= n
    requires Within(s[..], k - 12, k - 6, 0x2000_0000_0000_0000)
    modifies s
    ensures s[k] == 0
    ensures forall j | 0 <= j < 24 && j != k && !(k - 12 <= j < k - 6) :: s[j] == old(s[j])
    ensures s[k - 12] as int == old(s[k - 12]) as int + 666643 * old(s[k]) as int
    ensures s[k - 11] as int == old(s[k - 11]) as int + 470296 * old(s[k]) as int
    ensures s[k - 10] as int == old(s[k - 10]) as int + 654183 * old(s[k]) as int
    ensures s[k - 9] as int == old(s[k - 9]) as int - 997805 * old(s[k]) as int
    ensures s[k - 8] as int == old(s[k - 8]) as int + 136657 * old(s[k]) as int
    ensures s[k - 7] as int == old(s[k - 7]) as int - 683901 * old(s[k]) as int
    ensures Value(s[..]) == old(Value(s[..])) - Shl(old(s[k]) as int, k - 12) * L
  {
    hide Value, Shl;
    var t := s[k];
    AddMul(s, k - 12, t, 666643);
    AddMul(s, k - 11, t, 470296);
    AddMul(s, k - 10, t, 654183);
    AddMul(s, k - 9, t, -997805);
    AddMul(s, k - 8, t, 136657);
    AddMul(s, k - 7, t, -683901);
    AddMul(s, k, t, -1);
    assert Value(s[..]) == old(Value(s[..])) - Shl(t as int, k - 12) * L by { ShlUp(t as int, k - 12); }
  }

  lemma ShlUp(t: int, i: nat)
    ensures 666643 * Shl(t, i) + 470296 * Shl(t, i + 1) + 654183 * Shl(t, i + 2) - 997805 * Shl(t, i + 3)
            + 136657 * Shl(t, i + 4) - 683901 * Shl(t, i + 5) - Shl(t, i + 12)
         == - L * Shl(t, i)
  {
    var b := Shl(t, i);
    assert Shl(t, i + 3) == RADIX * Shl(t, i + 2);
    assert Shl(t, i + 6) == RADIX * Shl(t, i + 5) == RADIX * (RADIX * Shl(t, i + 4));
    assert Shl(t, i + 9) == RADIX * Shl(t, i + 8) == RADIX * (RADIX * Shl(t, i + 7));
    assert Shl(t, i + 12) == RADIX * Shl(t, i + 11) == RADIX * (RADIX * Shl(t, i + 10));
  }

  /** Move the rounded quotient of limb `i` by 2^21 into limb `i + 1`. */
  method CarryRounded(s: array<int64>, i: nat, ghost m: int)
    requires i + 1 < s.Length && -m <= s[i] as int <= m <= 0x2000_0000_0000_0000
    requires -0x4000_0000_0000_0000 <= s[i + 1] <= 0x4000_0000_0000_0000
    modifies s
    ensures forall j | 0 <= j < s.Length && j != i && j != i + 1 :: s[j] == old(s[j])
    ensures -0x10_0000 <= s[i] < 0x10_0000
    ensures -(m / RADIX + 1) <= s[i + 1] as int - old(s[i + 1]) as int <= m / RADIX + 1
    ensures Value(s[..]) == old(Value(s[..]))
  {
    var carry := (s[i] + 0x10_0000) / 0x20_0000;
    MoveUp(s, i, carry);
  }

  /** Rounded carries out of limbs i, i + 2 and i + 4. */
  method CarryThree(s: array<int64>, i: nat, ghost m: int)
    requires i + 5 < s.Length && 0 <= m <= 0x1000_0000_0000_0000
    requires -m <= s[i] as int <= m && -m <= s[i + 2] as int <= m && -m <= s[i + 4] as int <= m
    requires -0x4000_0000_0000_0000 <= s[i + 1] <= 0x4000_0000_0000_0000
    requires -0x4000_0000_0000_0000 <= s[i + 3] <= 0x4000_0000_0000_0000
    requires -0x4000_0000_0000_0000 <= s[i + 5] <= 0x4000_0000_0000_0000
    modifies s
    ensures forall j | 0 <= j < s.Length && !(i <= j <= i + 5) :: s[j] == old(s[j])
    ensures -0x10_0000 <= s[i] < 0x10_0000 && -0x10_0000 <= s[i + 2] < 0x10_0000 && -0x10_0000 <= s[i + 4] < 0x10_0000
    ensures -(m / RADIX + 1) <= s[i + 1] as int - old(s[i + 1]) as int <= m / RADIX + 1
    ensures -(m / RADIX + 1) <= s[i + 3] as int - old(s[i + 3]) as int <= m / RADIX + 1
    ensures -(m / RADIX + 1) <= s[i + 5] as int - old(s[i + 5]) as int <= m / RADIX + 1
    ensures Value(s[..]) == old(Value(s[..]))
  {
    hide Value, Shl;
    CarryRounded(s, i, m);
    CarryRounded(s, i + 2, m);
    CarryRounded(s, i + 4, m);
  }

  /** Move the floor of limb `i` by 2^21 into limb `i + 1`. */
  method CarryFloor(s: array<int64>, i: nat, ghost m: int)
    requires i + 1 < s.Length && -m <= s[i] as int <= m <= 0x2000_0000_0000_0000
    requires -0x4000_0000_0000_0000 <= s[i + 1] <= 0x4000_0000_0000_0000
    modifies s
    ensures forall j | 0 <= j < s.Length && j != i && j != i + 1 :: s[j] == old(s[j])
    ensures 0 <= s[i] < 0x20_0000
    ensures -(m / RADIX + 1) <= s[i + 1] as int - old(s[i + 1]) as int <= m / RADIX + 1
    ensures Value(s[..]) == old(Value(s[..]))
  {
    var carry := s[i] / 0x20_0000;
    MoveUp(s, i, carry);
  }

  /** `s_{i+1} += carry; s_i -= carry << 21`, which is value-preserving for every carry. */
  method MoveUp(s: array<int64>, i: nat, carry: int64)
    requires i + 1 < s.Length
    requires -0x200_0000_0000 <= carry <= 0x200_0000_0000
    requires -0x2000_0000_0000_0000 <= s[i] <= 0x2000_0000_0000_0000
    requires -0x4000_0000_0000_0000 <= s[i + 1] <= 0x4000_0000_0000_0000
    modifies s
    ensures forall j | 0 <= j < s.Length && j != i && j != i + 1 :: s[j] == old(s[j])
    ensures s[i] == old(s[i]) - carry * 0x20_0000
    ensures s[i + 1] == old(s[i + 1]) + carry
    ensures Value(s[..]) == old(Value(s[..]))
  {
    ghost var v0, c := s[..], carry as int;
    s[i + 1] := s[i + 1] + carry;
    ghost var v1 := s[..];
    assert v1 == v0[i + 1 := v1[i + 1]];
    ValueUpdate(v0, i + 1, v1[i + 1]);
    s[i] := s[i] - carry * 0x20_0000;
    assert s[..] == v1[i := s[i]];
    ValueUpdate(v1, i, s[i]);
    ShlLinear(-RADIX, c, 0, i);
    ShlZero(i);
  }

  /** A fold, as a bound on the limbs below `top` sees it. */
  method FoldBelow(s: array<int64>, k: nat, ghost top: nat, ghost n: int, ghost m: int)
    requires s.Length == 24 && 12 <= k < 24 && k - 6 <= top <= k
    requires 0 <= n <= 0x40_0000_0000 && -n <= s[k] as int <= n
    requires 0 <= m <= 0x2000_0000_0000_0000 && Within(s[..], 0, top, m)
    modifies s
    ensures s[k] == 0
    ensures forall j | top <= j < 24 && j != k :: s[j] == old(s[j])
    ensures Within(s[..], 0, top, m + 997805 * n)
    ensures Value(s[..]) == old(Value(s[..])) - Shl(old(s[k]) as int, k - 12) * L
  {
    FoldLimb(s, k, n);
  }

  /** The six folds of limbs 23 down to 18. */
  method FoldHigh(s: array<int64>) returns (ghost q: int)
    requires s.Length == 24 && Within(s[..], 0, 24, 0x8000_0000)
    modifies s
    ensures Within(s[..], 0, 17, 0x40_0000_0000_0000)
    ensures Within(s[..], 17, 18, 0x8000_0000) && Within(s[..], 18, 24, 0)
    ensures Value(s[..]) == old(Value(s[..])) - q * L
  {
    ghost var n, m := 0x8000_0000, 0x8000_0000;
    ghost var d := 997805 * n;
    FoldBelow(s, 23, 17, n, m);
    FoldBelow(s, 22, 17, n, m + d);
    FoldBelow(s, 21, 17, n, m + 2 * d);
    FoldBelow(s, 20, 17, n, m + 3 * d);
    FoldBelow(s, 19, 17, n, m + 4 * d);
    FoldBelow(s, 18, 17, n, m + 5 * d);
    q := Shl(old(s[23]) as int, 11) + Shl(old(s[22]) as int, 10) + Shl(old(s[21]) as int, 9)
      + Shl(old(s[20]) as int, 8) + Shl(old(s[19]) as int, 7) + Shl(old(s[18]) as int, 6);
  }

  /** Rounded carries out of limbs 6, 8, .., 16 and then 7, 9, .., 15. */
  method CarryMiddle(s: array<int64>)
    requires s.Length == 24
    requires Within(s[..], 0, 17, 0x40_0000_0000_0000)
    requires Within(s[..], 17, 18, 0x8000_0000) && Within(s[..], 18, 24, 0)
    modifies s
    ensures Within(s[..], 0, 12, 0x40_0000_0000_0000) && Within(s[..], 12, 18, 0x8_0000_0000)
    ensures Within(s[..], 18, 24, 0)
    ensures Value(s[..]) == old(Value(s[..]))
  {
    hide Value;
    ghost var n, m := 0x40_0000_0000_0000, 0x41_0000_0000_0000;
    CarryThree(s, 6, n);
    CarryThree(s, 12, n);
    CarryThree(s, 7, m);
    CarryRounded(s, 13, m);
    CarryRounded(s, 15, m);
  }

  /** The six folds of limbs 17 down to 12. */
  method FoldMiddle(s: array<int64>) returns (ghost q: int)
    requires s.Length == 24 && Within(s[..], 0, 12, 0x40_0000_0000_0000)
    requires Within(s[..], 12, 18, 0x8_0000_0000) && Within(s[..], 18, 24, 0)
    modifies s
    ensures Within(s[..], 0, 12, 0x400_0000_0000_0000) && Within(s[..], 12, 24, 0)
    ensures Value(s[..]) == old(Value(s[..])) - q * L
  {
    ghost var n, m := 0x8_0000_0000, 0x40_0000_0000_0000;
    ghost var d := 997805 * n;
    FoldBelow(s, 17, 12, n, m);
    FoldBelow(s, 16, 12, n, m + d);
    FoldBelow(s, 15, 12, n, m + 2 * d);
    FoldBelow(s, 14, 12, n, m + 3 * d);
    FoldBelow(s, 13, 12, n, m + 4 * d);
    FoldBelow(s, 12, 12, n, m + 5 * d);
    q := Shl(old(s[17]) as int, 5) + Shl(old(s[16]) as int, 4) + Shl(old(s[15]) as int, 3)
      + Shl(old(s[14]) as int, 2) + Shl(old(s[13]) as int, 1) + Shl(old(s[12]) as int, 0);
  }

  /** Rounded carries out of limbs 0, 2, .., 10 and then 1, 3, .., 11. */
  method CarryLow(s: array<int64>)
    requires s.Length == 24 && Within(s[..], 0, 12, 0x400_0000_0000_0000) && Within(s[..], 12, 24, 0)
    modifies s
    ensures Within(s[..], 0, 11, 0x80_0000_0000) && Within(s[..], 11, 12, 0x10_0000)
    ensures Within(s[..], 12, 13, 0x40_0000_0000) && Within(s[..], 13, 24, 0)
    ensures Value(s[..]) == old(Value(s[..]))
  {
    ghost var n, m := 0x400_0000_0000_0000, 0x401_0000_0000_0000;
    CarryThree(s, 0, n);
    CarryThree(s, 6, n);
    CarryThree(s, 1, m);
    CarryThree(s, 7, m);
  }

  /** Floor carries out of limbs 0, 1, .., 10. */
  method CarryChain(s: array<int64>)
    requires s.Length == 24 && Within(s[..], 0, 12, 0x800_0000_0000_0000)
    modifies s
    ensures forall i | 0 <= i < 11 :: 0 <= s[i] < 0x20_0000
    ensures Within(s[..], 11, 12, 0x1000_0000_0000_0000)
    ensures forall i | 12 <= i < 24 :: s[i] == old(s[i])
    ensures Value(s[..]) == old(Value(s[..]))
  {
    ghost var n := 0x900_0000_0000_0000;
    CarryFour(s, 0, n);
    CarryFour(s, 4, n);
    CarryFloor(s, 8, n);
    CarryFloor(s, 9, n);
    CarryFloor(s, 10, n);
  }

  /** Four consecutive floor carries. */
  method CarryFour(s: array<int64>, i: nat, ghost n: int)
    requires i + 4 < s.Length && n == 0x900_0000_0000_0000
    requires Within(s[..], i, i + 5, 0x880_0000_0000_0000)
    modifies s
    ensures forall j | 0 <= j < s.Length && !(i <= j <= i + 4) :: s[j] == old(s[j])
    ensures forall j | i <= j < i + 4 :: 0 <= s[j] < 0x20_0000
    ensures -(n / RADIX + 1) <= s[i + 4] as int - old(s[i + 4]) as int <= n / RADIX + 1
    ensures Value(s[..]) == old(Value(s[..]))
  {
    CarryFloor(s, i, n);
    CarryFloor(s, i + 1, n);
    CarryFloor(s, i + 2, n);
    CarryFloor(s, i + 3, n);
  }

  lemma {:induction false} ValueBound(s: seq<int64>, n: nat, m: int)
    requires 0 < n <= |s| && m > 0 && Within(s, 0, n, m)
    ensures -Shl(2 * m, n - 1) <= Value(s[..n]) <= Shl(2 * m, n - 1)
  {
    var x := s[n - 1] as int;
    assert s[..n][..n - 1] == s[..n - 1];
    ShlLinear(-1, m, 0, n - 1);
    ShlMonotone(-m, x, n - 1);
    ShlMonotone(x, m, n - 1);
    ShlLinear(2, m, 0, n - 1);
    ShlZero(n - 1);
    if n > 1 {
      ValueBound(s, n - 1, m);
      ShlLinear(2, m, 0, n - 2);
      ShlZero(n - 2);
      ShlMonotone(0, m, n - 2);
    }
  }

  lemma {:induction false} ShlMonotone(x: int, y: int, i: nat)
    requires x <= y
    ensures Shl(x, i) <= Shl(y, i)
  {
    if i > 0 {
      ShlMonotone(x, y, i - 1);
    }
  }

  lemma {:induction false} ReducedRange(s: seq<int64>, n: nat)
    requires n <= |s| && forall i | 0 <= i < n :: 0 <= s[i] < 0x20_0000
    ensures 0 <= Value(s[..n]) <= Shl(1, n) - 1
  {
    if n > 0 {
      var x := s[n - 1] as int;
      assert s[..n][..n - 1] == s[..n - 1];
      ReducedRange(s, n - 1);
      ShlLinear(RADIX - 1, 1, 0, n - 1);
      ShlZero(n - 1);
      ShlMonotone(0, x, n - 1);
      ShlMonotone(x, RADIX - 1, n - 1);
    }
  }

  lemma {:induction false} ValueZeros(s: seq<int64>, n: nat)
    requires n <= |s| && forall i | n <= i < |s| :: s[i] == 0
    ensures Value(s) == Value(s[..n])
    decreases |s|
  {
    if n < |s| {
      ValueZeros(s[..|s| - 1], n);
      assert s[..|s| - 1][..n] == s[..n];
      ShlZero(|s| - 1);
    } else {
      assert s[..n] == s;
    }
  }

  lemma ShlTwelve(x: int)
    ensures Shl(x, 12) == 0x1000000000000000000000000000000000000000000000000000000000000000 * x
    ensures Shl(x, 11) == 0x8000000000000000000000000000000000000000000000000000000000 * x
    ensures Shl(x, 10) == 0x40000000000000000000000000000000000000000000000000000 * x
  {
    assert Shl(x, 1) == RADIX * x;
    assert Shl(x, 3) == RADIX * Shl(x, 2) == RADIX * (RADIX * Shl(x, 1));
    assert Shl(x, 5) == RADIX * Shl(x, 4) == RADIX * (RADIX * Shl(x, 3));
    assert Shl(x, 7) == RADIX * Shl(x, 6) == RADIX * (RADIX * Shl(x, 5));
    assert Shl(x, 9) == RADIX * Shl(x, 8) == RADIX * (RADIX * Shl(x, 7));
    assert Shl(x, 11) == RADIX * Shl(x, 10) == RADIX * (RADIX * Shl(x, 9));
    assert Shl(x, 12) == RADIX * Shl(x, 11);
  }

  /** The limbs of a number split as 21-bit digits, with no bound on the twelfth. */
  ghost predicate Split(s: seq<int64>)
  {
    && |s| == 24
    && (forall i | 0 <= i < 11 :: 0 <= s[i] < 0x20_0000)
    && 0 <= s[11] <= 0x20_0000
    && forall i | 12 <= i < 24 :: s[i] == 0
  }

  const TWO252: int := 0x1000000000000000000000000000000000000000000000000000000000000000
  const BALANCED: int := 0xc00000000000000000000000000000000000000000000000000000000000000

  /** The tail of both routines: two folds of limb 12, each followed by floor carries. After
      the rounded carries the value is within 3/4 of 2^252 of zero, so the second fold can
      only be "add L if negative". */
  method FoldLast(s: array<int64>) returns (ghost q: int)
    requires s.Length == 24
    requires Within(s[..], 0, 11, 0x80_0000_0000) && Within(s[..], 11, 12, 0x10_0000)
    requires Within(s[..], 12, 13, 0x40_0000_0000) && Within(s[..], 13, 24, 0)
    modifies s
    ensures Split(s[..])
    ensures 0 <= Value(s[..]) < L && Value(s[..]) == old(Value(s[..])) - q * L
  {
    ghost var v := s[..];
    FoldLimb(s, 12, 0x40_0000_0000);
    FoldedRange(v, s[..]);
    CarryChain(s);
    CarryFloor(s, 11, 0x1000_0000_0000_0000);
    q := v[12] as int;
    ghost var r := AddIfNegative(s);
    q := q + r;
  }

  method AddIfNegative(s: array<int64>) returns (ghost q: int)
    requires s.Length == 24 && -TWO252 <= Value(s[..]) <= BALANCED + TWO252 / 16
    requires (forall i | 0 <= i < 12 :: 0 <= s[i] < 0x20_0000) && Within(s[..], 13, 24, 0)
    modifies s
    ensures Split(s[..])
    ensures q == (if old(Value(s[..])) < 0 then -1 else 0)
    ensures Value(s[..]) == old(Value(s[..])) - q * L
  {
    TwelfthLimb(s[..]);
    q := s[12] as int;
    FoldLimb(s, 12, 1);
    CarryChain(s);
    EleventhLimb(s[..]);
  }

  lemma FoldedRange(v: seq<int64>, w: seq<int64>)
    requires |v| == |w| == 24
    requires Within(v, 0, 11, 0x80_0000_0000) && Within(v, 11, 12, 0x10_0000)
    requires Within(v, 12, 13, 0x40_0000_0000) && Within(v, 13, 24, 0)
    requires Value(w) == Value(v) - v[12] as int * L
    ensures -BALANCED - TWO252 / 16 <= Value(w) <= BALANCED + TWO252 / 16
  {
    ValueZeros(v, 13);
    assert v[..13][..12] == v[..12] && v[..12][..11] == v[..11];
    ValueBound(v, 11, 0x80_0000_0000);
    ShlTwelve(v[11] as int);
    ShlTwelve(v[12] as int);
    ShlTwelve(2 * 0x80_0000_0000);
  }

  /** The carry out of a split number is the floor of the whole by 2^252. */
  lemma TwelfthLimb(s: seq<int64>)
    requires |s| == 24 && -TWO252 <= Value(s) < TWO252
    requires (forall i | 0 <= i < 12 :: 0 <= s[i] < 0x20_0000) && Within(s, 13, 24, 0)
    ensures s[12] == if Value(s) < 0 then -1 else 0
  {
    ValueZeros(s, 13);
    assert s[..13][..12] == s[..12];
    ReducedRange(s, 12);
    ShlTwelve(s[12] as int);
    ShlTwelve(1);
  }

  lemma EleventhLimb(s: seq<int64>)
    requires |s| == 24 && 0 <= Value(s) < L
    requires (forall i | 0 <= i < 11 :: 0 <= s[i] < 0x20_0000) && Within(s, 12, 24, 0)
    ensures 0 <= s[11] <= 0x20_0000
  {
    ValueZeros(s, 12);
    assert s[..12][..11] == s[..11];
    ReducedRange(s, 11);
    ShlTwelve(s[11] as int);
    ShlTwelve(1);
  }

  // ---- Bytes to limbs and back ----

  lemma {:induction false} ValueFront(s: seq<int64>)
    requires s != []
    ensures Value(s) == s[0] as int + RADIX * Value(s[1..])
  {
    var n := |s| - 1;
    if n == 0 {
      assert s[..0] == s[1..] == [];
    } else {
      ValueFront(s[..n]);
      assert s[..n][1..] == s[1..][..n - 1];
    }
  }

  lemma ValueStep(s: seq<int64>, i: nat)
    requires i < |s|
    ensures Value(s[i..]) == s[i] as int + RADIX * Value(s[i + 1..])
  {
    ValueFront(s[i..]);
    assert s[i..][1..] == s[i + 1..];
  }

  // Reading the bits of a byte string upwards, 21 at a time. `Rest(b, i, w)` is what remains
  // of the number once the bytes below `i` and the bits of byte `i` below `w` are gone.

  ghost function Rest(b: seq<byte>, i: nat, w: int): int
    requires i < |b| && 0 < w
  {
    b[i] as int / w + (0x100 / w) * LE(b[i + 1..])
  }

  lemma RestStart(b: seq<byte>, i: nat)
    requires i < |b|
    ensures Rest(b, i, 1) == LE(b[i..])
  {
    LEStep(b, i);
  }

  lemma Take0(b: seq<byte>, i: nat)
    requires i + 3 <= |b|
    ensures Rest(b, i, 0x1) == (Load3(b, i) / 0x1 % 0x20_0000) as int + RADIX * Rest(b, i + 2, 0x20)
  {
    LEStep(b, i + 1);
    LEStep(b, i + 2);
  }

  lemma Take1(b: seq<byte>, i: nat)
    requires i + 4 <= |b|
    ensures Rest(b, i, 0x20) == (Load4(b, i) / 0x20 % 0x20_0000) as int + RADIX * Rest(b, i + 3, 0x4)
  {
    LEStep(b, i + 1);
    LEStep(b, i + 2);
    LEStep(b, i + 3);
  }

  lemma Take2(b: seq<byte>, i: nat)
    requires i + 3 <= |b|
    ensures Rest(b, i, 0x4) == (Load3(b, i) / 0x4 % 0x20_0000) as int + RADIX * Rest(b, i + 2, 0x80)
  {
    LEStep(b, i + 1);
    LEStep(b, i + 2);
    Cut2(b[i] as int, b[i + 1] as int, b[i + 2] as int);
  }

  lemma Cut2(l: int, m: int, h: int)
    requires 0 <= l < 0x100 && 0 <= m < 0x100 && 0 <= h < 0x100
    ensures (l + 0x100 * m + 0x1_0000 * h) / 0x4 % 0x20_0000 == l / 0x4 + 0x40 * m + 0x4000 * (h % 0x80)
  {}

  lemma Take3(b: seq<byte>, i: nat)
    requires i + 4 <= |b|
    ensures Rest(b, i, 0x80) == (Load4(b, i) / 0x80 % 0x20_0000) as int + RADIX * Rest(b, i + 3, 0x10)
  {
    LEStep(b, i + 1);
    LEStep(b, i + 2);
    LEStep(b, i + 3);
  }

  lemma Take4(b: seq<byte>, i: nat)
    requires i + 4 <= |b|
    ensures Rest(b, i, 0x10) == (Load4(b, i) / 0x10 % 0x20_0000) as int + RADIX * Rest(b, i + 3, 0x2)
  {
    LEStep(b, i + 1);
    LEStep(b, i + 2);
    LEStep(b, i + 3);
    Cut4(b[i] as int, b[i + 1] as int + 0x100 * b[i + 2] as int, b[i + 3] as int);
  }

  lemma Cut4(l: int, m: int, h: int)
    requires 0 <= l < 0x100 && 0 <= m < 0x1_0000 && 0 <= h < 0x100
    ensures (l + 0x100 * m + 0x100_0000 * h) / 0x10 % 0x20_0000 == l / 0x10 + 0x10 * m + 0x10_0000 * (h % 0x2)
  {}

  lemma Take5(b: seq<byte>, i: nat)
    requires i + 3 <= |b|
    ensures Rest(b, i, 0x2) == (Load3(b, i) / 0x2 % 0x20_0000) as int + RADIX * Rest(b, i + 2, 0x40)
  {
    LEStep(b, i + 1);
    LEStep(b, i + 2);
  }

  lemma Take6(b: seq<byte>, i: nat)
    requires i + 4 <= |b|
    ensures Rest(b, i, 0x40) == (Load4(b, i) / 0x40 % 0x20_0000) as int + RADIX * Rest(b, i + 3, 0x8)
  {
    LEStep(b, i + 1);
    LEStep(b, i + 2);
    LEStep(b, i + 3);
  }

  lemma Take7(b: seq<byte>, i: nat)
    requires i + 3 <= |b|
    ensures Rest(b, i, 0x8) == (Load3(b, i) / 0x8 % 0x20_0000) as int + RADIX * LE(b[i + 3..])
  {
    LEStep(b, i + 1);
    LEStep(b, i + 2);
  }

  /** Limbs j..j+8 are the eight windows of the 21 bytes from `o`. */
  ghost predicate Windows(b: seq<byte>, o: nat, l: seq<int64>, j: nat)
    requires o + 21 <= |b| && j + 8 <= |l|
  {
    SevenWindows(b, o, l, j) && l[j + 7] == Load3(b, o + 18) / 0x8 % 0x20_0000
  }

  ghost predicate SevenWindows(b: seq<byte>, o: nat, l: seq<int64>, j: nat)
    requires o + 21 <= |b| && j + 7 <= |l|
  {
    && l[j + 0] == Load3(b, o) % 0x20_0000
    && l[j + 1] == Load4(b, o + 2) / 0x20 % 0x20_0000
    && l[j + 2] == Load3(b, o + 5) / 0x4 % 0x20_0000
    && l[j + 3] == Load4(b, o + 7) / 0x80 % 0x20_0000
    && l[j + 4] == Load4(b, o + 10) / 0x10 % 0x20_0000
    && l[j + 5] == Load3(b, o + 13) / 0x2 % 0x20_0000
    && l[j + 6] == Load4(b, o + 15) / 0x40 % 0x20_0000
  }

  lemma WindowsValue(b: seq<byte>, o: nat, l: seq<int64>, j: nat)
    requires o + 21 <= |b| && j + 8 <= |l| && Windows(b, o, l, j)
    requires LE(b[o + 21..]) == Value(l[j + 8..])
    ensures LE(b[o..]) == Value(l[j..])
  {
    assert Value(l[j + 7..]) == Rest(b, o + 18, 0x8) by { Take7(b, o + 18); ValueStep(l, j + 7); }
    SevenWindowsValue(b, o, l, j);
  }

  lemma SevenWindowsValue(b: seq<byte>, o: nat, l: seq<int64>, j: nat)
    requires o + 21 <= |b| && j + 7 <= |l| && SevenWindows(b, o, l, j)
    requires Value(l[j + 7..]) == Rest(b, o + 18, 0x8)
    ensures LE(b[o..]) == Value(l[j..])
  {
    assert Value(l[j + 6..]) == Rest(b, o + 15, 0x40) by { Take6(b, o + 15); ValueStep(l, j + 6); }
    assert Value(l[j + 5..]) == Rest(b, o + 13, 0x2) by { Take5(b, o + 13); ValueStep(l, j + 5); }
    assert Value(l[j + 4..]) == Rest(b, o + 10, 0x10) by { Take4(b, o + 10); ValueStep(l, j + 4); }
    assert Value(l[j + 3..]) == Rest(b, o + 7, 0x80) by { Take3(b, o + 7); ValueStep(l, j + 3); }
    assert Value(l[j + 2..]) == Rest(b, o + 5, 0x4) by { Take2(b, o + 5); ValueStep(l, j + 2); }
    assert Value(l[j + 1..]) == Rest(b, o + 2, 0x20) by { Take1(b, o + 2); ValueStep(l, j + 1); }
    assert Value(l[j..]) == Rest(b, o, 0x1) by { Take0(b, o); ValueStep(l, j); }
    RestStart(b, o);
  }

  // ---- Packing limbs into bytes ----

  /** The cast to `unsigned char`. */
  function Low(x: int64): (r: byte)
    ensures r as int == x as int % 0x100
  {
    (x % 0x100) as byte
  }

  /** `(unsigned char) (lo | (hi << k))` with w = 2^k: the operands share no bit. */
  function Or(lo: int64, hi: int64, w: int64): (r: byte)
    requires 0 <= lo <= w <= 0x80 && 0 <= hi <= 0x20_0000 && (lo == w ==> hi == 0)
    ensures r as int == (lo as int + w as int * hi as int) % 0x100
  {
    MulBound(w as int, hi as int, 0x80, 0x20_0000);
    Low(lo + w * hi)
  }

  /** A byte wholly inside the limb x. */
  lemma PureByte(b: seq<byte>, i: nat, x: int, w: int, h: int)
    requires i < |b| && w > 0 && 0 <= x && b[i] as int == x / w % 0x100
    requires LE(b[i + 1..]) == x / (0x100 * w) + h
    ensures LE(b[i..]) == x / w + 0x100 * h
  {
    LEStep(b, i);
    DivDiv(x, w);
  }

  lemma DivDiv(x: int, w: int)
    requires w > 0 && 0 <= x
    ensures x / w / 0x100 == x / (0x100 * w)
  {
    var q, r := x / w, x % w;
    var q', r' := q / 0x100, q % 0x100;
    assert x == (0x100 * w) * q' + (r' * w + r);
    assert 0 <= r' * w + r < 0x100 * w by {
      assert 0 <= r' * w <= 0xff * w;
    }
    Quotient(x, 0x100 * w, q', r' * w + r);
  }

  lemma Quotient(x: int, m: int, q: int, r: int)
    requires m > 0 && x == m * q + r && 0 <= r < m
    ensures x / m == q
  {
    var q' := x / m;
    assert m * (q - q') == x % m - r;
    if q > q' {
      MulAtLeast(m, q - q');
    } else if q < q' {
      MulAtLeast(m, q' - q);
    }
  }

  lemma MulAtLeast(m: int, k: int)
    requires m > 0 && k >= 1
    ensures m * k >= m
  {}

  /** A byte holding the top `lo` of one limb and the bottom of the next one, y. */
  lemma SharedByte(b: seq<byte>, i: nat, lo: int, y: int, w: int, h: int)
    requires i < |b| && 0 <= lo <= w && 0 <= y && (lo == w ==> y == 0)
    requires w == 0x2 || w == 0x4 || w == 0x8 || w == 0x10 || w == 0x20 || w == 0x40 || w == 0x80
    requires b[i] as int == (lo + w * y) % 0x100
    requires LE(b[i + 1..]) == y / (0x100 / w) + h
    ensures LE(b[i..]) == lo + w * y + 0x100 * h
  {
    hide LE;
    LEStep(b, i);
    var k := 0x100 / w;
    assert w * k == 0x100;
    SharedShift(lo, w, y, k);
  }

  lemma SharedShift(lo: int, w: int, y: int, k: int)
    requires 0 <= lo <= w && 0 <= y && (lo == w ==> y == 0) && 1 < k && w * k == 0x100
    ensures (lo + w * y) / 0x100 == y / k
  {
    var q, r := y / k, y % k;
    SharedParts(w, y, k, q, r);
    assert lo + w * r < 0x100 by {
      SharedBound(w, k, r);
    }
  }

  lemma SharedParts(w: int, y: int, k: int, q: int, r: int)
    requires y == k * q + r && w * k == 0x100
    ensures w * y == 0x100 * q + w * r
  {
    assert w * (k * q) == w * k * q;
  }

  lemma SharedBound(w: int, k: int, r: int)
    requires 0 <= r <= k - 1 && w * k == 0x100 && w > 0
    ensures 0 <= w * r <= 0x100 - w
  {
    assert w * (k - 1) == 0x100 - w;
    assert w * r <= w * (k - 1);
  }

  /** Limbs j..j+5 that can be stored: digits, the last of which may be absent. */
  ghost predicate Digits(l: seq<int64>, j: nat, n: nat)
  {
    j + n <= |l| && forall i | j <= i < j + n :: 0 <= l[i] < 0x20_0000
  }

  /** Consecutive byte assignments from s[o] on. */
  method PutBytes(s: array<byte>, o: nat, q: seq<byte>)
    requires o + |q| <= s.Length
    modifies s
    ensures forall i | 0 <= i < |q| :: s[o + i] == q[i]
    ensures s[..o] == old(s[..o]) && s[o + |q|..] == old(s[o + |q|..])
  {
    for i := 0 to |q|
      invariant forall k | 0 <= k < i :: s[o + k] == q[k]
      invariant s[..o] == old(s[..o]) && s[o + |q|..] == old(s[o + |q|..])
    {
      s[o + i] := q[i];
    }
  }

  lemma PackedLowMoved(q: seq<byte>, b: seq<byte>, o: nat, l: seq<int64>, j: nat)
    requires |q| == 11 && o + 11 <= |b| && Fits(l, j) && PackedLow(q, 0, l, j)
    requires forall i | 0 <= i < 11 :: b[o + i] == q[i]
    ensures PackedLow(b, o, l, j)
  {
  }

  lemma PackedHighMoved(q: seq<byte>, b: seq<byte>, o: nat, l: seq<int64>, j: nat)
    requires |q| == 10 && o + 10 <= |b| && Digits(l, j, 4) && PackedHigh(q, 0, l, j)
    requires forall i | 0 <= i < 10 :: b[o + i] == q[i]
    ensures PackedHigh(b, o, l, j)
  {
  }

  /** Write limbs j..j+3, and the low four bits of limb j+4, into the 11 bytes from `o`. */
  method StoreLow(s: array<byte>, o: nat, l: seq<int64>, j: nat)
    requires o + 11 <= s.Length && Fits(l, j)
    modifies s
    ensures PackedLow(s[..], o, l, j)
    ensures s[..o] == old(s[..o]) && s[o + 11..] == old(s[o + 11..])
  {
    hide Or, Low;
    var q := [Low(l[j]), Low(l[j] / 0x100), Or(l[j] / 0x10000, l[j + 1], 0x20), Low(l[j + 1] / 0x8), Low(l[j
        + 1] / 0x800),
              Or(l[j + 1] / 0x80000, l[j + 2], 0x4), Low(l[j + 2] / 0x40), Or(l[j + 2] / 0x4000, l[j + 3], 0x80),
                  Low(l[j + 3] / 0x2), Low(l[j + 3] / 0x200), Or(l[j + 3] / 0x20000, l[j + 4], 0x10)];
    assert PackedLow(q, 0, l, j);
    PutBytes(s, o, q);
    PackedLowMoved(q, s[..], o, l, j);
  }

  /** Write the high bits of limb j and limbs j+1..j+3 into the 10 bytes from `o`. */
  method StoreHigh(s: array<byte>, o: nat, l: seq<int64>, j: nat)
    requires o + 10 <= s.Length && Digits(l, j, 4)
    modifies s
    ensures PackedHigh(s[..], o, l, j)
    ensures s[..o] == old(s[..o]) && s[o + 10..] == old(s[o + 10..])
  {
    hide Or, Low;
    var q := [Low(l[j] / 0x10), Low(l[j] / 0x1000), Or(l[j] / 0x100000, l[j + 1], 0x2), Low(l[j + 1] / 0x80),
        Or(l[j + 1] / 0x8000, l[j + 2], 0x40),
              Low(l[j + 2] / 0x4), Low(l[j + 2] / 0x400), Or(l[j + 2] / 0x40000, l[j + 3], 0x8), Low(l[j
                  + 3] / 0x20), Low(l[j + 3] / 0x2000)];
    assert PackedHigh(q, 0, l, j);
    PutBytes(s, o, q);
    PackedHighMoved(q, s[..], o, l, j);
  }

  /** Four limbs below a fifth; the fourth may overflow by one unit when the fifth is zero. */
  ghost predicate Fits(l: seq<int64>, j: nat)
  {
    && Digits(l, j, 3) && j + 5 <= |l|
    && 0 <= l[j + 3] <= 0x20_0000 && 0 <= l[j + 4] < 0x20_0000
    && (l[j + 3] == 0x20_0000 ==> l[j + 4] == 0)
  }

  ghost predicate PackedLow(b: seq<byte>, o: nat, l: seq<int64>, j: nat)
    requires o + 11 <= |b| && Fits(l, j)
  {
    && Held0(b, o, l[j] as int, l[j + 1] as int)
    && Held1(b, o + 3, l[j + 1] as int, l[j + 2] as int)
    && Held2(b, o + 6, l[j + 2] as int, l[j + 3] as int)
    && Held3(b, o + 8, l[j + 3] as int, l[j + 4] as int)
  }

  ghost predicate PackedHigh(b: seq<byte>, o: nat, l: seq<int64>, j: nat)
    requires o + 10 <= |b| && Digits(l, j, 4)
  {
    && Held4(b, o, l[j] as int, l[j + 1] as int)
    && Held5(b, o + 3, l[j + 1] as int, l[j + 2] as int)
    && Held6(b, o + 5, l[j + 2] as int, l[j + 3] as int)
    && Held7(b, o + 8, l[j + 3] as int)
  }

  // `HeldN`: the bytes from the first one wholly owned by a limb x at position N, the last
  // of them shared with the next limb y.

  ghost predicate Held0(b: seq<byte>, i: nat, x: int, y: int)
    requires i + 3 <= |b|
  {
    && b[i] as int == x % 0x100
    && b[i + 1] as int == x / 0x100 % 0x100
    && b[i + 2] as int == (x / 0x10000 + 0x20 * y) % 0x100
  }

  ghost predicate Held1(b: seq<byte>, i: nat, x: int, y: int)
    requires i + 3 <= |b|
  {
    && b[i] as int == x / 0x8 % 0x100
    && b[i + 1] as int == x / 0x800 % 0x100
    && b[i + 2] as int == (x / 0x80000 + 0x4 * y) % 0x100
  }

  ghost predicate Held2(b: seq<byte>, i: nat, x: int, y: int)
    requires i + 2 <= |b|
  {
    && b[i] as int == x / 0x40 % 0x100
    && b[i + 1] as int == (x / 0x4000 + 0x80 * y) % 0x100
  }

  ghost predicate Held3(b: seq<byte>, i: nat, x: int, y: int)
    requires i + 3 <= |b|
  {
    && b[i] as int == x / 0x2 % 0x100
    && b[i + 1] as int == x / 0x200 % 0x100
    && b[i + 2] as int == (x / 0x20000 + 0x10 * y) % 0x100
  }

  ghost predicate Held4(b: seq<byte>, i: nat, x: int, y: int)
    requires i + 3 <= |b|
  {
    && b[i] as int == x / 0x10 % 0x100
    && b[i + 1] as int == x / 0x1000 % 0x100
    && b[i + 2] as int == (x / 0x100000 + 0x2 * y) % 0x100
  }

  ghost predicate Held5(b: seq<byte>, i: nat, x: int, y: int)
    requires i + 2 <= |b|
  {
    && b[i] as int == x / 0x80 % 0x100
    && b[i + 1] as int == (x / 0x8000 + 0x40 * y) % 0x100
  }

  ghost predicate Held6(b: seq<byte>, i: nat, x: int, y: int)
    requires i + 3 <= |b|
  {
    && b[i] as int == x / 0x4 % 0x100
    && b[i + 1] as int == x / 0x400 % 0x100
    && b[i + 2] as int == (x / 0x40000 + 0x8 * y) % 0x100
  }

  ghost predicate Held7(b: seq<byte>, i: nat, x: int)
    requires i + 2 <= |b|
  {
    && b[i] as int == x / 0x20 % 0x100
    && b[i + 1] as int == x / 0x2000 % 0x100
  }

  // `PutN`: the bytes from the first one wholly owned by a limb at position N.

  lemma Put0(b: seq<byte>, i: nat, x: int, y: int, h: int)
    requires i + 3 <= |b| && 0 <= x <= 0x20_0000 && 0 <= y && (x == 0x20_0000 ==> y == 0)
    requires Held0(b, i, x, y)
    requires LE(b[i + 3..]) == y / 0x8 + h
    ensures LE(b[i..]) == x + 0x200000 * y + 0x1000000 * h
  {
    SharedByte(b, i + 2, x / 0x10000, y, 0x20, h);
    PureByte(b, i + 1, x, 0x100, 0x20 * y + 0x100 * h);
    PureByte(b, i, x, 0x1, 0x2000 * y + 0x10000 * h);
  }

  lemma Put1(b: seq<byte>, i: nat, x: int, y: int, h: int)
    requires i + 3 <= |b| && 0 <= x <= 0x20_0000 && 0 <= y && (x == 0x20_0000 ==> y == 0)
    requires Held1(b, i, x, y)
    requires LE(b[i + 3..]) == y / 0x40 + h
    ensures LE(b[i..]) == x / 0x8 + 0x40000 * y + 0x1000000 * h
  {
    SharedByte(b, i + 2, x / 0x80000, y, 0x4, h);
    PureByte(b, i + 1, x, 0x800, 0x4 * y + 0x100 * h);
    PureByte(b, i, x, 0x8, 0x400 * y + 0x10000 * h);
  }

  lemma Put2(b: seq<byte>, i: nat, x: int, y: int, h: int)
    requires i + 2 <= |b| && 0 <= x <= 0x20_0000 && 0 <= y && (x == 0x20_0000 ==> y == 0)
    requires Held2(b, i, x, y)
    requires LE(b[i + 2..]) == y / 0x2 + h
    ensures LE(b[i..]) == x / 0x40 + 0x8000 * y + 0x10000 * h
  {
    SharedByte(b, i + 1, x / 0x4000, y, 0x80, h);
    PureByte(b, i, x, 0x40, 0x80 * y + 0x100 * h);
  }

  lemma Put3(b: seq<byte>, i: nat, x: int, y: int, h: int)
    requires i + 3 <= |b| && 0 <= x <= 0x20_0000 && 0 <= y && (x == 0x20_0000 ==> y == 0)
    requires Held3(b, i, x, y)
    requires LE(b[i + 3..]) == y / 0x10 + h
    ensures LE(b[i..]) == x / 0x2 + 0x100000 * y + 0x1000000 * h
  {
    SharedByte(b, i + 2, x / 0x20000, y, 0x10, h);
    PureByte(b, i + 1, x, 0x200, 0x10 * y + 0x100 * h);
    PureByte(b, i, x, 0x2, 0x1000 * y + 0x10000 * h);
  }

  lemma Put4(b: seq<byte>, i: nat, x: int, y: int, h: int)
    requires i + 3 <= |b| && 0 <= x <= 0x20_0000 && 0 <= y && (x == 0x20_0000 ==> y == 0)
    requires Held4(b, i, x, y)
    requires LE(b[i + 3..]) == y / 0x80 + h
    ensures LE(b[i..]) == x / 0x10 + 0x20000 * y + 0x1000000 * h
  {
    SharedByte(b, i + 2, x / 0x100000, y, 0x2, h);
    PureByte(b, i + 1, x, 0x1000, 0x2 * y + 0x100 * h);
    PureByte(b, i, x, 0x10, 0x200 * y + 0x10000 * h);
  }

  lemma Put5(b: seq<byte>, i: nat, x: int, y: int, h: int)
    requires i + 2 <= |b| && 0 <= x <= 0x20_0000 && 0 <= y && (x == 0x20_0000 ==> y == 0)
    requires Held5(b, i, x, y)
    requires LE(b[i + 2..]) == y / 0x4 + h
    ensures LE(b[i..]) == x / 0x80 + 0x4000 * y + 0x10000 * h
  {
    SharedByte(b, i + 1, x / 0x8000, y, 0x40, h);
    PureByte(b, i, x, 0x80, 0x40 * y + 0x100 * h);
  }

  lemma Put6(b: seq<byte>, i: nat, x: int, y: int, h: int)
    requires i + 3 <= |b| && 0 <= x <= 0x20_0000 && 0 <= y && (x == 0x20_0000 ==> y == 0)
    requires Held6(b, i, x, y)
    requires LE(b[i + 3..]) == y / 0x20 + h
    ensures LE(b[i..]) == x / 0x4 + 0x80000 * y + 0x1000000 * h
  {
    SharedByte(b, i + 2, x / 0x40000, y, 0x8, h);
    PureByte(b, i + 1, x, 0x400, 0x8 * y + 0x100 * h);
    PureByte(b, i, x, 0x4, 0x800 * y + 0x10000 * h);
  }

  lemma Put7(b: seq<byte>, i: nat, x: int, h: int)
    requires i + 2 <= |b| && 0 <= x <= 0x20_0000
    requires Held7(b, i, x)
    requires x < 0x20_0000 && LE(b[i + 2..]) == h
    ensures LE(b[i..]) == x / 0x20 + 0x10000 * h
  {
    PureByte(b, i + 1, x, 0x2000, h);
    PureByte(b, i, x, 0x20, 0x100 * h);
  }

  lemma PackedLowValue(b: seq<byte>, o: nat, l: seq<int64>, j: nat)
    requires o + 11 <= |b| && Fits(l, j) && PackedLow(b, o, l, j)
    requires LE(b[o + 11..]) == l[j + 4] as int / 0x10 + 0x2_0000 * Value(l[j + 5..])
    ensures LE(b[o..]) == Value(l[j..])
  {
    assert LE(b[o + 8..]) == l[j + 3] as int / 0x2 + 0x100000 * Value(l[j + 4..]) by {
      Put3(b, o + 8, l[j + 3] as int, l[j + 4] as int, 0x20000 * Value(l[j + 5..]));
      ValueStep(l, j + 4);
    }
    assert LE(b[o + 6..]) == l[j + 2] as int / 0x40 + 0x8000 * Value(l[j + 3..]) by {
      Put2(b, o + 6, l[j + 2] as int, l[j + 3] as int, 0x100000 * Value(l[j + 4..]));
      ValueStep(l, j + 3);
    }
    assert LE(b[o + 3..]) == l[j + 1] as int / 0x8 + 0x40000 * Value(l[j + 2..]) by {
      Put1(b, o + 3, l[j + 1] as int, l[j + 2] as int, 0x8000 * Value(l[j + 3..]));
      ValueStep(l, j + 2);
    }
    assert LE(b[o..]) == l[j] as int + 0x200000 * Value(l[j + 1..]) by {
      Put0(b, o, l[j] as int, l[j + 1] as int, 0x40000 * Value(l[j + 2..]));
      ValueStep(l, j + 1);
    }
    ValueStep(l, j);
  }

  lemma PackedHighValue(b: seq<byte>, o: nat, l: seq<int64>, j: nat)
    requires o + 10 <= |b| && Digits(l, j, 4) && PackedHigh(b, o, l, j)
    requires LE(b[o + 10..]) == Value(l[j + 4..])
    ensures LE(b[o..]) == l[j] as int / 0x10 + 0x2_0000 * Value(l[j + 1..])
  {
    assert LE(b[o + 8..]) == l[j + 3] as int / 0x20 + 0x10000 * Value(l[j + 4..]) by {
      Put7(b, o + 8, l[j + 3] as int, Value(l[j + 4..]));
    }
    assert LE(b[o + 5..]) == l[j + 2] as int / 0x4 + 0x80000 * Value(l[j + 3..]) by {
      Put6(b, o + 5, l[j + 2] as int, l[j + 3] as int, 0x10000 * Value(l[j + 4..]));
      ValueStep(l, j + 3);
    }
    assert LE(b[o + 3..]) == l[j + 1] as int / 0x80 + 0x4000 * Value(l[j + 2..]) by {
      Put5(b, o + 3, l[j + 1] as int, l[j + 2] as int, 0x80000 * Value(l[j + 3..]));
      ValueStep(l, j + 2);
    }
    assert LE(b[o..]) == l[j] as int / 0x10 + 0x20000 * Value(l[j + 1..]) by {
      Put4(b, o, l[j] as int, l[j + 1] as int, 0x4000 * Value(l[j + 2..]));
      ValueStep(l, j + 1);
    }
  }

  // ---- The two routines ----

  method LoadSeven(l: array<int64>, j: nat, b: seq<byte>, o: nat)
    requires j + 7 <= l.Length && o + 21 <= |b|
    modifies l
    ensures SevenWindows(b, o, l[..], j)
    ensures forall i | j <= i < j + 7 :: 0 <= l[i] < 0x20_0000
    ensures forall i | 0 <= i < l.Length && !(j <= i < j + 7) :: l[i] == old(l[i])
  {
    l[j] := Load3(b, o) % 0x20_0000;
    l[j + 1] := Load4(b, o + 2) / 0x20 % 0x20_0000;
    l[j + 2] := Load3(b, o + 5) / 0x4 % 0x20_0000;
    l[j + 3] := Load4(b, o + 7) / 0x80 % 0x20_0000;
    l[j + 4] := Load4(b, o + 10) / 0x10 % 0x20_0000;
    l[j + 5] := Load3(b, o + 13) / 0x2 % 0x20_0000;
    l[j + 6] := Load4(b, o + 15) / 0x40 % 0x20_0000;
  }

  method LoadEight(l: array<int64>, j: nat, b: seq<byte>, o: nat)
    requires j + 8 <= l.Length && o + 21 <= |b|
    modifies l
    ensures Windows(b, o, l[..], j)
    ensures forall i | j <= i < j + 8 :: 0 <= l[i] < 0x20_0000
    ensures forall i | 0 <= i < l.Length && !(j <= i < j + 8) :: l[i] == old(l[i])
  {
    hide SevenWindows;
    LoadSeven(l, j, b, o);
    ghost var l0 := l[..];
    l[j + 7] := Load3(b, o + 18) / 0x8 % 0x20_0000;
    SevenFrame(b, o, l0, l[..], j);
  }

  method LoadWide(b: seq<byte>) returns (l: array<int64>)
    requires |b| == 64
    ensures fresh(l) && l.Length == 24
    ensures (forall i | 0 <= i < 23 :: 0 <= l[i] < 0x20_0000) && 0 <= l[23] < 0x2000_0000
    ensures Value(l[..]) == LE(b)
  {
    hide Value, LE, Windows, SevenWindows;
    l := new int64[24];
    LoadEight(l, 0, b, 0);
    ghost var l0 := l[..];
    LoadEight(l, 8, b, 21);
    ghost var l1 := l[..];
    LoadSeven(l, 16, b, 42);
    ghost var l2 := l[..];
    l[23] := Load4(b, 60) / 0x8;
    WindowsFrame(b, 0, l0, l[..], 0);
    WindowsFrame(b, 21, l1, l[..], 8);
    SevenFrame(b, 42, l2, l[..], 16);
    WideValue(b, l[..]);
  }

  lemma SevenFrame(b: seq<byte>, o: nat, l: seq<int64>, m: seq<int64>, j: nat)
    requires o + 21 <= |b| && j + 7 <= |l| == |m|
    requires SevenWindows(b, o, l, j) && forall i | j <= i < j + 7 :: m[i] == l[i]
    ensures SevenWindows(b, o, m, j)
  {}

  lemma WindowsFrame(b: seq<byte>, o: nat, l: seq<int64>, m: seq<int64>, j: nat)
    requires o + 21 <= |b| && j + 8 <= |l| == |m|
    requires Windows(b, o, l, j) && forall i | j <= i < j + 8 :: m[i] == l[i]
    ensures Windows(b, o, m, j)
  {}

  lemma WideValue(b: seq<byte>, l: seq<int64>)
    requires |b| == 64 && |l| == 24
    requires Windows(b, 0, l, 0) && Windows(b, 21, l, 8) && SevenWindows(b, 42, l, 16)
    requires l[23] == Load4(b, 60) / 0x8
    ensures Value(l) == LE(b)
  {
    assert Value(l[23..]) == Rest(b, 60, 0x8) by {
      assert l[23..][..0] == [] && Value([]) == 0;
      ValueStep(l, 23);
      assert l[24..] == [] && b[64..] == [];
      LEStep(b, 61);
      LEStep(b, 62);
      LEStep(b, 63);
    }
    SevenWindowsValue(b, 42, l, 16);
    WindowsValue(b, 21, l, 8);
    WindowsValue(b, 0, l, 0);
    assert l[0..] == l && b[0..] == b;
  }

  method LoadNarrow(b: seq<byte>) returns (l: array<int64>)
    requires |b| == 32
    ensures fresh(l) && l.Length == 12 && Scalar(l[..])
    ensures Value(l[..]) == LE(b)
  {
    l := new int64[12];
    LoadSeven(l, 0, b, 0);
    l[7] := Load3(b, 18) / 0x8 % 0x20_0000;
    l[8] := Load3(b, 21) % 0x20_0000;
    l[9] := Load4(b, 23) / 0x20 % 0x20_0000;
    l[10] := Load3(b, 26) / 0x4 % 0x20_0000;
    l[11] := Load4(b, 28) / 0x80;
    NarrowValue(b, l[..]);
  }

  lemma NarrowValue(b: seq<byte>, l: seq<int64>)
    requires |b| == 32 && |l| == 12
    requires Windows(b, 0, l, 0)
    requires l[8] == Load3(b, 21) % 0x20_0000 && l[9] == Load4(b, 23) / 0x20 % 0x20_0000
    requires l[10] == Load3(b, 26) / 0x4 % 0x20_0000 && l[11] == Load4(b, 28) / 0x80
    ensures Value(l) == LE(b)
  {
    assert Value(l[11..]) == Rest(b, 28, 0x80) by {
      ValueStep(l, 11);
      assert l[12..] == [] && b[32..] == [];
      LEStep(b, 29);
      LEStep(b, 30);
      LEStep(b, 31);
    }
    assert Value(l[10..]) == Rest(b, 26, 0x4) by { Take2(b, 26); ValueStep(l, 10); }
    assert Value(l[9..]) == Rest(b, 23, 0x20) by { Take1(b, 23); ValueStep(l, 9); }
    assert Value(l[8..]) == Rest(b, 21, 0x1) by { Take0(b, 21); ValueStep(l, 8); }
    RestStart(b, 21);
    WindowsValue(b, 0, l, 0);
    assert l[0..] == l && b[0..] == b;
  }

  /** Twelve digits; the top one holds the 25 bits left of 256. */
  ghost predicate Scalar(l: seq<int64>)
  {
    |l| == 12 && (forall i | 0 <= i < 11 :: 0 <= l[i] < 0x20_0000) && 0 <= l[11] < 0x200_0000
  }

  /** Limbs 0..12 written to the first 32 bytes. */
  method Store(s: array<byte>, l: seq<int64>)
    requires s.Length >= 32 && Split(l)
    modifies s
    ensures LE(s[..32]) == Value(l)
    ensures s[32..] == old(s[32..])
  {
    StoreLow(s, 0, l, 0);
    ghost var b0 := s[..];
    StoreHigh(s, 11, l, 4);
    ghost var b1 := s[..];
    StoreLow(s, 21, l, 8);
    ghost var b := s[..32];
    assert PackedLow(b, 0, l, 0) by { PackedLowFrame(b0, b, 0, l, 0); }
    assert PackedHigh(b, 11, l, 4) by { PackedHighFrame(b1, b, 11, l, 4); }
    assert PackedLow(b, 21, l, 8) by { PackedLowFrame(s[..], b, 21, l, 8); }
    PackedValue(b, l);
  }

  lemma PackedLowFrame(b: seq<byte>, c: seq<byte>, o: nat, l: seq<int64>, j: nat)
    requires o + 11 <= |b| && o + 11 <= |c| && Fits(l, j) && PackedLow(b, o, l, j)
    requires forall i | o <= i < o + 11 :: b[i] == c[i]
    ensures PackedLow(c, o, l, j)
  {}

  lemma PackedHighFrame(b: seq<byte>, c: seq<byte>, o: nat, l: seq<int64>, j: nat)
    requires o + 10 <= |b| && o + 10 <= |c| && Digits(l, j, 4) && PackedHigh(b, o, l, j)
    requires forall i | o <= i < o + 10 :: b[i] == c[i]
    ensures PackedHigh(c, o, l, j)
  {}

  lemma PackedValue(b: seq<byte>, l: seq<int64>)
    requires |b| == 32 && Split(l)
    requires PackedLow(b, 0, l, 0) && PackedHigh(b, 11, l, 4) && PackedLow(b, 21, l, 8)
    ensures LE(b) == Value(l)
  {
    ZeroValue(l, 13);
    assert b[32..] == [];
    PackedLowValue(b, 21, l, 8);
    PackedHighValue(b, 11, l, 4);
    PackedLowValue(b, 0, l, 0);
    assert b[0..] == b && l[0..] == l;
  }

  lemma ZeroValue(l: seq<int64>, n: nat)
    requires n <= |l| && forall i | n <= i < |l| :: l[i] == 0
    ensures Value(l[n..]) == 0
  {
    ValueZeros(l[n..], 0);
  }

  /** The 24-limb reduction both routines share. */
  method ReduceLimbs(s: array<int64>)
    requires s.Length == 24 && Within(s[..], 0, 24, 0x8000_0000)
    modifies s
    ensures Split(s[..])
    ensures Value(s[..]) == old(Value(s[..])) % L
  {
    ghost var q0 := FoldHigh(s);
    CarryMiddle(s);
    ghost var q1 := FoldMiddle(s);
    CarryLow(s);
    ghost var q2 := FoldLast(s);
    Quotient(old(Value(s[..])), L, q0 + q1 + q2, Value(s[..]));
  }

  /** `sc_reduce`: the 64-byte number in `s` is replaced by its residue modulo L. */
  method Reduce(s: array<byte>)
    requires s.Length == 64
    modifies s
    ensures LE(s[..32]) == old(LE(s[..])) % L
    ensures s[32..] == old(s[32..])
  {
    var l := LoadWide(s[..]);
    ReduceLimbs(l);
    Store(s, l[..]);
  }

  // ---- Products ----

  /** The sum of a_i * b_(k-i) over i < n. */
  function Dot(a: seq<int64>, b: seq<int64>, k: nat, n: nat): (r: int64)
    requires Scalar(a) && Scalar(b) && n <= 12 && k <= 22
    ensures r as int == DotSum(a, b, k, n)
    ensures 0 <= r as int <= (if k == 22 && n < 12 then 0 else DotBound(k, n))
  {
    if n == 0 then 0
    else
      if n - 1 <= k && k < n + 11 then DotTerm(a, b, k, n); Dot(a, b, k, n - 1)
          + a[n - 1] * b[k - (n - 1)] else Dot(a, b, k, n - 1)
  }

  ghost function DotSum(a: seq<int64>, b: seq<int64>, k: nat, n: nat): int
    requires n <= |a|
  {
    if n == 0 then 0 else DotSum(a, b, k, n - 1) + Term(a, b, k, n - 1)
  }

  ghost function Term(a: seq<int64>, b: seq<int64>, k: nat, i: nat): int
    requires i < |a|
  {
    if i <= k < i + |b| then a[i] as int * b[k - i] as int else 0
  }

  /** Only the top limbs exceed 21 bits, and a sum holds at most two products with one. */
  ghost function DotBound(k: nat, n: nat): int
  {
    if k == 22 then 0x4_0000_0000_0000
    else n * 0x400_0000_0000 + (if k >= 11 && n > k - 11 then 0x4000_0000_0000 else 0)
         + (if n == 12 then 0x4000_0000_0000 else 0)
  }

  lemma DotTerm(a: seq<int64>, b: seq<int64>, k: nat, n: nat)
    requires Scalar(a) && Scalar(b) && 0 < n <= 12 && k <= 22
    requires n - 1 <= k < n + 11
    ensures 0 <= a[n - 1] as int * b[k - (n - 1)] as int
    ensures a[n - 1] as int * b[k - (n - 1)] as int <=
      (if n == 12 then 0x200_0000 else 0x20_0000) * (if k - (n - 1) == 11 then 0x200_0000 else 0x20_0000)
  {
    var t := if n == 12 then 0x200_0000 else 0x20_0000;
    var u := if k - (n - 1) == 11 then 0x200_0000 else 0x20_0000;
    ProductRange(a[n - 1] as int, b[k - (n - 1)] as int, t, u);
  }

  lemma ProductRange(x: int, y: int, t: int, u: int)
    requires 0 <= x <= t && 0 <= y <= u
    ensures 0 <= x * y <= t * u
  {
    assert x * y <= x * u <= t * u;
  }

  // The product of two digit strings, one row of the schoolbook table at a time.

  /** The value of the first m columns once the rows below n are added in. */
  ghost function Columns(a: seq<int64>, b: seq<int64>, n: nat, m: nat): int
    requires n <= |a|
  {
    if m == 0 then 0 else Columns(a, b, n, m - 1) + Shl(DotSum(a, b, m - 1, n), m - 1)
  }

  lemma {:induction false} NoRows(a: seq<int64>, b: seq<int64>, m: nat)
    ensures Columns(a, b, 0, m) == 0
  {
    if m > 0 {
      NoRows(a, b, m - 1);
      ShlZero(m - 1);
    }
  }

  /** Row n contributes a_n times the part of b it has reached, shifted by n. */
  lemma {:induction false} AddRow(a: seq<int64>, b: seq<int64>, n: nat, m: nat)
    requires n < |a|
    ensures Columns(a, b, n + 1, m) == Columns(a, b, n, m)
      + a[n] as int * Shl(Value(if m <= n then [] else if m - n <= |b| then b[..m - n] else b), n)
  {
    if m == 0 {
      ShlZero(n);
    } else {
      AddRow(a, b, n, m - 1);
      var k := m - 1;
      var x := a[n] as int;
      ShlLinear(1, DotSum(a, b, k, n), Term(a, b, k, n), k);
      if n <= k < n + |b| {
        var y := b[k - n] as int;
        assert b[..m - n][..k - n] == b[..k - n];
        ShlLinear(x, y, 0, k);
        ShlZero(k);
        ShlShl(y, k - n, n);
        ShlLinear(1, Value(b[..k - n]), Shl(y, k - n), n);
        assert b[..|b|] == b;
        Distribute(x, Shl(Value(b[..k - n]), n), Shl(y, k));
      } else {
        ShlZero(k);
        assert b[..|b|] == b;
      }
    }
  }

  lemma Distribute(x: int, y: int, z: int)
    ensures x * (y + z) == x * y + x * z
  {}

  lemma {:induction false} ShlShl(x: int, i: nat, j: nat)
    ensures Shl(Shl(x, i), j) == Shl(x, i + j)
  {
    if j > 0 {
      ShlShl(x, i, j - 1);
    }
  }

  /** Rows 0..n make up the first n digits of a, times b. */
  lemma {:induction false} Rows(a: seq<int64>, b: seq<int64>, n: nat, m: nat)
    requires n <= |a| && m >= |a| + |b|
    ensures Columns(a, b, n, m) == Value(a[..n]) * Value(b)
  {
    hide Columns, Shl;
    if n == 0 {
      NoRows(a, b, m);
    } else {
      Rows(a, b, n - 1, m);
      AddRow(a, b, n - 1, m);
      var x := a[n - 1] as int;
      assert a[..n][..n - 1] == a[..n - 1];
      assert b[..|b|] == b;
      ShlLinear(x, Value(b), 0, n - 1);
      ShlLinear(Value(b), x, 0, n - 1);
      ShlZero(n - 1);
      assert (Value(a[..n - 1]) + Shl(x, n - 1)) * Value(b)
          == Value(a[..n - 1]) * Value(b) + Value(b) * Shl(x, n - 1) by {
        Distribute(Value(b), Value(a[..n - 1]), Shl(x, n - 1));
      }
    }
  }

  /** The columns computed by `sc_muladd` hold ab + c. */
  lemma {:induction false} ColumnsValue(s: seq<int64>, a: seq<int64>, b: seq<int64>, c: seq<int64>, m: nat)
    requires m <= |s| && |a| == |b| == |c| == 12
    requires forall k | 0 <= k < m :: s[k] as int == ColumnSum(a, b, c, k)
    ensures Value(s[..m]) == Columns(a, b, 12, m) + Value(if m <= 12 then c[..m] else c)
  {
    if m > 0 {
      var k := m - 1;
      ColumnsValue(s, a, b, c, k);
      assert s[..m][..k] == s[..k];
      if m <= 12 {
        assert c[..m][..k] == c[..k];
        ShlLinear(1, c[k] as int, DotSum(a, b, k, 12), k);
      }
      assert c[..12] == c;
    }
  }

  /** Column 23 is empty. */
  lemma NoColumn(a: seq<int64>, b: seq<int64>, k: nat, n: nat)
    requires |a| == |b| == 12 && n <= 12 && k >= 23
    ensures DotSum(a, b, k, n) == 0
  {}

  /** Column k of ab + c. */
  function Column(a: seq<int64>, b: seq<int64>, c: seq<int64>, k: nat): (r: int64)
    requires Scalar(a) && Scalar(b) && Scalar(c) && k <= 22
    ensures r as int == ColumnSum(a, b, c, k)
    ensures 0 <= r as int <= if k == 22 then 0x4_0000_0000_0000 else 0x1_0000_0000_0000
  {
    if k < 12 then c[k] + Dot(a, b, k, 12) else Dot(a, b, k, 12)
  }

  ghost function ColumnSum(a: seq<int64>, b: seq<int64>, c: seq<int64>, k: nat): int
    requires |a| == |b| == |c| == 12
  {
    (if k < 12 then c[k] as int else 0) + DotSum(a, b, k, 12)
  }

  /** The columns of ab + c, as `sc_muladd` lists them. */
  method Multiply(a: seq<int64>, b: seq<int64>, c: seq<int64>) returns (s: array<int64>)
    requires Scalar(a) && Scalar(b) && Scalar(c)
    ensures fresh(s) && s.Length == 24
    ensures Within(s[..], 0, 22, 0x1_0000_0000_0000) && Within(s[..], 22, 23, 0x4_0000_0000_0000)
    ensures s[23] == 0
    ensures Value(s[..]) == Value(a) * Value(b) + Value(c)
  {
    s := new int64[24](k requires 0 <= k < 24 => if k < 23 then Column(a, b, c, k) else 0);
    MultiplyValue(s[..], a, b, c);
  }

  lemma MultiplyValue(s: seq<int64>, a: seq<int64>, b: seq<int64>, c: seq<int64>)
    requires |s| == 24 && |a| == |b| == |c| == 12 && s[23] == 0
    requires forall k | 0 <= k < 23 :: s[k] as int == ColumnSum(a, b, c, k)
    ensures Value(s) == Value(a) * Value(b) + Value(c)
  {
    hide Columns, Value, DotSum;
    NoColumn(a, b, 23, 12);
    ColumnsValue(s, a, b, c, 24);
    Rows(a, b, 12, 24);
    assert a[..12] == a && s[..24] == s;
  }

  ghost predicate Rounded(x: int64)
  {
    -0x10_0000 <= x < 0x10_0000
  }

  ghost predicate EvenRounded(s: seq<int64>)
    requires |s| == 24
  {
    && Rounded(s[0]) && Rounded(s[2]) && Rounded(s[4]) && Rounded(s[6]) && Rounded(s[8]) && Rounded(s[10])
    && Rounded(s[12]) && Rounded(s[14]) && Rounded(s[16]) && Rounded(s[18]) && Rounded(s[20]) && Rounded(s[22])
  }

  /** Rounded carries out of limbs 0, 2, .., 22. */
  method CarryEven(s: array<int64>)
    requires s.Length == 24 && s[23] == 0
    requires Within(s[..], 0, 22, 0x1_0000_0000_0000) && Within(s[..], 22, 23, 0x4_0000_0000_0000)
    modifies s
    ensures EvenRounded(s[..])
    ensures Within(s[..], 0, 23, 0x1_0001_0000_0000) && Within(s[..], 23, 24, 0x7000_0000)
    ensures Value(s[..]) == old(Value(s[..]))
  {
    hide Value, Shl;
    ghost var n, m := 0x1_0000_0000_0000, 0x4_0000_0000_0000;
    CarryThree(s, 0, n);
    CarryThree(s, 6, n);
    CarryThree(s, 12, n);
    CarryThree(s, 18, m);
  }

  /** Rounded carries out of limbs 1, 3, .., 21, over even limbs already carried. */
  method CarryOdd(s: array<int64>)
    requires s.Length == 24
    requires EvenRounded(s[..])
    requires Within(s[..], 0, 23, 0x1_0001_0000_0000) && Within(s[..], 23, 24, 0x7000_0000)
    modifies s
    ensures Within(s[..], 0, 24, 0x8000_0000)
    ensures Value(s[..]) == old(Value(s[..]))
  {
    hide Value, Shl;
    ghost var t := 0x1_0001_0000_0000;
    CarryThree(s, 1, t);
    CarryThree(s, 7, t);
    CarryThree(s, 13, t);
    CarryRounded(s, 19, t);
    CarryRounded(s, 21, t);
  }

  /** `sc_muladd`: the residue of ab + c modulo L. The output may overlap an input. */
  method MulAdd(s: array<byte>, a: array<byte>, b: array<byte>, c: array<byte>)
    requires s.Length == a.Length == b.Length == c.Length == 32
    modifies s
    ensures LE(s[..]) == old((LE(a[..]) * LE(b[..]) + LE(c[..])) % L)
  {
    var x := LoadNarrow(a[..]);
    var y := LoadNarrow(b[..]);
    var z := LoadNarrow(c[..]);
    var l := Multiply(x[..], y[..], z[..]);
    CarryEven(l);
    CarryOdd(l);
    ReduceLimbs(l);
    Store(s, l[..]);
    assert s[..32] == s[..];
  }
}
