/** Products of field elements: `fe_mul`, `fe_sq` and `fe_sq2` (third-party/ed25519/fe.c). */
module FieldMul {
  import opened MachineInts
  import opened FieldElement

  // ---- Schoolbook multiplication, as a specification ----

  /** Limb k of g times the weight of limb i: limbs of odd index are half a bit short, and
      2^255 is 19. */
  ghost function Rotated(g: seq<int32>, i: nat, k: nat): int
    requires |g| == 10 && i < 10 && k < 10
  {
    var x := g[if k >= i then k - i else k + 10 - i] as int;
    if i % 2 == 1 && k % 2 == 0 then (if k >= i then 2 * x else 38 * x) else (if k >= i then x else 19 * x)
  }

  /** What the first n limbs of f contribute to limb k of the product. */
  ghost function Column(f: seq<int32>, g: seq<int32>, k: nat, n: nat): int
    requires |f| == 10 && |g| == 10 && k < 10 && n <= 10
    decreases n
  {
    if n == 0 then 0 else Column(f, g, k, n - 1) + f[n - 1] as int * Rotated(g, n - 1, k)
  }

  /** The value of g rotated by i limbs. */
  ghost function RotatedSum(g: seq<int32>, i: nat): int
    requires |g| == 10 && i < 10
  {
    Weigh(Rotated(g, i, 0), Rotated(g, i, 1), Rotated(g, i, 2), Rotated(g, i, 3), Rotated(g, i, 4),
          Rotated(g, i, 5), Rotated(g, i, 6), Rotated(g, i, 7), Rotated(g, i, 8), Rotated(g, i, 9))
  }

  ghost function Columns(f: seq<int32>, g: seq<int32>, n: nat): int
    requires |f| == 10 && |g| == 10 && n <= 10
  {
    Weigh(Column(f, g, 0, n), Column(f, g, 1, n), Column(f, g, 2, n), Column(f, g, 3, n), Column(f, g, 4, n),
        Column(f, g, 5, n), Column(f, g, 6, n), Column(f, g, 7, n), Column(f, g, 8, n), Column(f, g, 9, n))
  }

  lemma Shift0(g0: int, g1: int, g2: int, g3: int, g4: int, g5: int, g6: int, g7: int, g8: int, g9: int) returns (q: int)
    ensures Weigh(g0, g1, g2, g3, g4, g5, g6, g7, g8, g9)
            == 0x1 * Weigh(g0, g1, g2, g3, g4, g5, g6, g7, g8, g9) + q * P
  {
    q := 0;
  }

  lemma Rotated0(g: seq<int32>) returns (q: int)
    requires |g| == 10
    ensures RotatedSum(g, 0) == 0x1 * Weighted(g) + q * P
  {
    q := Shift0(g[0] as int, g[1] as int, g[2] as int, g[3] as int, g[4] as int, g[5] as int, g[6] as int,
        g[7] as int, g[8] as int, g[9] as int);
  }

  lemma Shift1(g0: int, g1: int, g2: int, g3: int, g4: int, g5: int, g6: int, g7: int, g8: int, g9: int) returns (q: int)
    ensures Weigh(38 * g9, g0, 2 * g1, g2, 2 * g3, g4, 2 * g5, g6, 2 * g7, g8)
            == 0x4000000 * Weigh(g0, g1, g2, g3, g4, g5, g6, g7, g8, g9) + q * P
  {
    q := -(0x2 * g9);
  }

  lemma Rotated1(g: seq<int32>) returns (q: int)
    requires |g| == 10
    ensures RotatedSum(g, 1) == 0x4000000 * Weighted(g) + q * P
  {
    q := Shift1(g[0] as int, g[1] as int, g[2] as int, g[3] as int, g[4] as int, g[5] as int, g[6] as int,
        g[7] as int, g[8] as int, g[9] as int);
  }

  lemma Shift2(g0: int, g1: int, g2: int, g3: int, g4: int, g5: int, g6: int, g7: int, g8: int, g9: int) returns (q: int)
    ensures Weigh(19 * g8, 19 * g9, g0, g1, g2, g3, g4, g5, g6, g7)
            == 0x8000000000000 * Weigh(g0, g1, g2, g3, g4, g5, g6, g7, g8, g9) + q * P
  {
    q := -(0x1 * g8 + 0x4000000 * g9);
  }

  lemma Rotated2(g: seq<int32>) returns (q: int)
    requires |g| == 10
    ensures RotatedSum(g, 2) == 0x8000000000000 * Weighted(g) + q * P
  {
    q := Shift2(g[0] as int, g[1] as int, g[2] as int, g[3] as int, g[4] as int, g[5] as int, g[6] as int,
        g[7] as int, g[8] as int, g[9] as int);
  }

  lemma Shift3(g0: int, g1: int, g2: int, g3: int, g4: int, g5: int, g6: int, g7: int, g8: int, g9: int) returns (q: int)
    ensures Weigh(38 * g7, 19 * g8, 38 * g9, g0, 2 * g1, g2, 2 * g3, g4, 2 * g5, g6)
            == 0x20000000000000000000 * Weigh(g0, g1, g2, g3, g4, g5, g6, g7, g8, g9) + q * P
  {
    q := -(0x2 * g7 + 0x4000000 * g8 + 0x10000000000000 * g9);
  }

  lemma Rotated3(g: seq<int32>) returns (q: int)
    requires |g| == 10
    ensures RotatedSum(g, 3) == 0x20000000000000000000 * Weighted(g) + q * P
  {
    q := Shift3(g[0] as int, g[1] as int, g[2] as int, g[3] as int, g[4] as int, g[5] as int, g[6] as int,
        g[7] as int, g[8] as int, g[9] as int);
  }

  lemma Shift4(g0: int, g1: int, g2: int, g3: int, g4: int, g5: int, g6: int, g7: int, g8: int, g9: int) returns (q: int)
    ensures Weigh(19 * g6, 19 * g7, 19 * g8, 19 * g9, g0, g1, g2, g3, g4, g5)
            == 0x40000000000000000000000000 * Weigh(g0, g1, g2, g3, g4, g5, g6, g7, g8, g9) + q * P
  {
    q := -(0x1 * g6 + 0x4000000 * g7 + 0x8000000000000 * g8 + 0x20000000000000000000 * g9);
  }

  lemma Rotated4(g: seq<int32>) returns (q: int)
    requires |g| == 10
    ensures RotatedSum(g, 4) == 0x40000000000000000000000000 * Weighted(g) + q * P
  {
    q := Shift4(g[0] as int, g[1] as int, g[2] as int, g[3] as int, g[4] as int, g[5] as int, g[6] as int,
        g[7] as int, g[8] as int, g[9] as int);
  }

  lemma Shift5(g0: int, g1: int, g2: int, g3: int, g4: int, g5: int, g6: int, g7: int, g8: int, g9: int) returns (q: int)
    ensures Weigh(38 * g5, 19 * g6, 38 * g7, 19 * g8, 38 * g9, g0, 2 * g1, g2, 2 * g3, g4)
            == 0x100000000000000000000000000000000 * Weigh(g0, g1, g2, g3, g4, g5, g6, g7, g8, g9) + q * P
  {
    q := -(0x2 * g5 + 0x4000000 * g6 + 0x10000000000000 * g7 + 0x20000000000000000000 * g8
        + 0x80000000000000000000000000 * g9);
  }

  lemma Rotated5(g: seq<int32>) returns (q: int)
    requires |g| == 10
    ensures RotatedSum(g, 5) == 0x100000000000000000000000000000000 * Weighted(g) + q * P
  {
    q := Shift5(g[0] as int, g[1] as int, g[2] as int, g[3] as int, g[4] as int, g[5] as int, g[6] as int,
        g[7] as int, g[8] as int, g[9] as int);
  }

  lemma Shift6(g0: int, g1: int, g2: int, g3: int, g4: int, g5: int, g6: int, g7: int, g8: int, g9: int) returns (q: int)
    ensures Weigh(19 * g4, 19 * g5, 19 * g6, 19 * g7, 19 * g8, 19 * g9, g0, g1, g2, g3)
            == 0x200000000000000000000000000000000000000 * Weigh(g0, g1, g2, g3, g4, g5, g6, g7, g8, g9) + q * P
  {
    q := -(0x1 * g4 + 0x4000000 * g5 + 0x8000000000000 * g6 + 0x20000000000000000000 * g7
        + 0x40000000000000000000000000 * g8 + 0x100000000000000000000000000000000 * g9);
  }

  lemma Rotated6(g: seq<int32>) returns (q: int)
    requires |g| == 10
    ensures RotatedSum(g, 6) == 0x200000000000000000000000000000000000000 * Weighted(g) + q * P
  {
    q := Shift6(g[0] as int, g[1] as int, g[2] as int, g[3] as int, g[4] as int, g[5] as int, g[6] as int,
        g[7] as int, g[8] as int, g[9] as int);
  }

  lemma Shift7(g0: int, g1: int, g2: int, g3: int, g4: int, g5: int, g6: int, g7: int, g8: int, g9: int) returns (q: int)
    ensures Weigh(38 * g3, 19 * g4, 38 * g5, 19 * g6, 38 * g7, 19 * g8, 38 * g9, g0, 2 * g1, g2)
            == 0x800000000000000000000000000000000000000000000 * Weigh(g0, g1, g2, g3, g4, g5, g6, g7, g8, g9) + q * P
  {
    q := -(0x2 * g3 + 0x4000000 * g4 + 0x10000000000000 * g5 + 0x20000000000000000000 * g6
        + 0x80000000000000000000000000 * g7 + 0x100000000000000000000000000000000 * g8
        + 0x400000000000000000000000000000000000000 * g9);
  }

  lemma Rotated7(g: seq<int32>) returns (q: int)
    requires |g| == 10
    ensures RotatedSum(g, 7) == 0x800000000000000000000000000000000000000000000 * Weighted(g) + q * P
  {
    q := Shift7(g[0] as int, g[1] as int, g[2] as int, g[3] as int, g[4] as int, g[5] as int, g[6] as int,
        g[7] as int, g[8] as int, g[9] as int);
  }

  lemma Shift8(g0: int, g1: int, g2: int, g3: int, g4: int, g5: int, g6: int, g7: int, g8: int, g9: int) returns (q: int)
    ensures Weigh(19 * g2, 19 * g3, 19 * g4, 19 * g5, 19 * g6, 19 * g7, 19 * g8, 19 * g9, g0, g1)
            == 0x1000000000000000000000000000000000000000000000000000 * Weigh(g0, g1, g2, g3, g4, g5, g6, g7, g8,
                g9) + q * P
  {
    q := -(0x1 * g2 + 0x4000000 * g3 + 0x8000000000000 * g4 + 0x20000000000000000000 * g5
        + 0x40000000000000000000000000 * g6 + 0x100000000000000000000000000000000 * g7
        + 0x200000000000000000000000000000000000000 * g8 + 0x800000000000000000000000000000000000000000000 * g9);
  }

  lemma Rotated8(g: seq<int32>) returns (q: int)
    requires |g| == 10
    ensures RotatedSum(g, 8) == 0x1000000000000000000000000000000000000000000000000000 * Weighted(g) + q * P
  {
    q := Shift8(g[0] as int, g[1] as int, g[2] as int, g[3] as int, g[4] as int, g[5] as int, g[6] as int,
        g[7] as int, g[8] as int, g[9] as int);
  }

  lemma Shift9(g0: int, g1: int, g2: int, g3: int, g4: int, g5: int, g6: int, g7: int, g8: int, g9: int) returns (q: int)
    ensures Weigh(38 * g1, 19 * g2, 38 * g3, 19 * g4, 38 * g5, 19 * g6, 38 * g7, 19 * g8, 38 * g9, g0)
            == 0x4000000000000000000000000000000000000000000000000000000000 * Weigh(g0, g1, g2, g3, g4, g5, g6, g7,
                g8, g9) + q * P
  {
    q := -(0x2 * g1 + 0x4000000 * g2 + 0x10000000000000 * g3 + 0x20000000000000000000 * g4
        + 0x80000000000000000000000000 * g5 + 0x100000000000000000000000000000000 * g6
        + 0x400000000000000000000000000000000000000 * g7 + 0x800000000000000000000000000000000000000000000 * g8
        + 0x2000000000000000000000000000000000000000000000000000 * g9);
  }

  lemma Rotated9(g: seq<int32>) returns (q: int)
    requires |g| == 10
    ensures RotatedSum(g, 9) == 0x4000000000000000000000000000000000000000000000000000000000 * Weighted(g) + q * P
  {
    q := Shift9(g[0] as int, g[1] as int, g[2] as int, g[3] as int, g[4] as int, g[5] as int, g[6] as int,
        g[7] as int, g[8] as int, g[9] as int);
  }

  /** Rotating is multiplying by a limb weight, modulo p. */
  lemma RotatedValue(g: seq<int32>, i: nat) returns (q: int)
    requires |g| == 10 && i < 10
    ensures RotatedSum(g, i) == AtLimb(i, Weighted(g)) + q * P
  {
    match i {
      case 0 => q := Rotated0(g);
      case 1 => q := Rotated1(g);
      case 2 => q := Rotated2(g);
      case 3 => q := Rotated3(g);
      case 4 => q := Rotated4(g);
      case 5 => q := Rotated5(g);
      case 6 => q := Rotated6(g);
      case 7 => q := Rotated7(g);
      case 8 => q := Rotated8(g);
      case _ => q := Rotated9(g);
    }
  }

  /** Adding c times one row to another. */
  lemma AddScaled(c: int, a0: int, a1: int, a2: int, a3: int, a4: int, a5: int, a6: int, a7: int, a8: int, a9: int,
                  b0: int, b1: int, b2: int, b3: int, b4: int, b5: int, b6: int, b7: int, b8: int, b9: int)
    ensures Weigh(a0 + c * b0, a1 + c * b1, a2 + c * b2, a3 + c * b3, a4 + c * b4,
                  a5 + c * b5, a6 + c * b6, a7 + c * b7, a8 + c * b8, a9 + c * b9)
            == Weigh(a0, a1, a2, a3, a4, a5, a6, a7, a8, a9) + c * Weigh(b0, b1, b2, b3, b4, b5, b6, b7, b8, b9)
  {
  }

  lemma NextRow(f: seq<int32>, g: seq<int32>, n: nat)
    requires |f| == 10 && |g| == 10 && n < 10
    ensures Columns(f, g, n + 1) == Columns(f, g, n) + f[n] as int * RotatedSum(g, n)
  {
    AddScaled(f[n] as int,
      Column(f, g, 0, n), Column(f, g, 1, n), Column(f, g, 2, n), Column(f, g, 3, n), Column(f, g, 4, n), Column(f,
          g, 5, n), Column(f, g, 6, n), Column(f, g, 7, n), Column(f, g, 8, n), Column(f, g, 9, n),
      Rotated(g, n, 0), Rotated(g, n, 1), Rotated(g, n, 2), Rotated(g, n, 3), Rotated(g, n, 4), Rotated(g, n, 5),
          Rotated(g, n, 6), Rotated(g, n, 7), Rotated(g, n, 8), Rotated(g, n, 9));
  }

  lemma Accumulate(sum: int, row: int, x: int, c: int, wc: int, wv: int, v: int, q0: int, q1: int) returns (q: int)
    requires sum == x * v + q0 * P && row == wv + q1 * P && c * wv == wc * v
    ensures sum + c * row == (x + wc) * v + q * P
  {
    q := q0 + c * q1;
    assert c * row == c * wv + c * q1 * P;
  }

  /** Limb weight i times v, modulo p. */
  ghost predicate IsRow(v: int, i: nat, row: int, q: int)
    requires i < 10
  {
    row == AtLimb(i, v) + q * P
  }

  lemma Row(g: seq<int32>, v: int, i: nat) returns (row: int, q: int)
    requires |g| == 10 && v == Weighted(g) && i < 10
    ensures row == RotatedSum(g, i) && IsRow(v, i, row, q)
  {
    q := RotatedValue(g, i);
    row := RotatedSum(g, i);
  }

  lemma NoColumns(f: seq<int32>, g: seq<int32>)
    requires |f| == |g| == 10
    ensures Columns(f, g, 0) == 0
  {
  }

  /** The first n limbs of f times v, modulo p. */
  ghost predicate IsSum(f: seq<int32>, v: int, n: nat, sum: int, q: int)
    requires |f| == 10 && n <= 10
  {
    sum == Prefix(f, n) * v + q * P
  }

  lemma NextSum(f: seq<int32>, v: int, m: nat, sum: int, q: int, row: int, q1: int) returns (q2: int)
    requires |f| == 10 && m < 10 && IsSum(f, v, m, sum, q) && IsRow(v, m, row, q1)
    ensures IsSum(f, v, m + 1, sum + f[m] as int * row, q2)
  {
    var c, x := f[m] as int, Prefix(f, m);
    LimbTimes(m, c, v);
    q2 := Accumulate(sum, row, x, c, AtLimb(m, c), AtLimb(m, v), v, q, q1);
  }

  lemma LimbTimes(m: nat, c: int, v: int)
    requires m < 10
    ensures c * AtLimb(m, v) == AtLimb(m, c) * v
  {
  }

  /** The sum after row i. */
  ghost predicate Adds(f: seq<int32>, i: nat, before: int, row: int, after: int)
    requires |f| == 10 && i < 10
  {
    after == before + f[i] as int * row
  }

  lemma {:induction false} RowsValue(f: seq<int32>, v: int, sums: seq<int>, rows: seq<int>, qs: seq<int>,
      n: nat) returns (q: int)
    requires |f| == |rows| == |qs| == 10 && |sums| == 11 && n <= 10
    requires sums[0] == 0 && forall i | 0 <= i < 10 :: Adds(f, i, sums[i], rows[i], sums[i + 1])
    requires forall i | 0 <= i < 10 :: IsRow(v, i, rows[i], qs[i])
    ensures IsSum(f, v, n, sums[n], q)
  {
    if n == 0 {
      q := 0;
    } else {
      var m := n - 1;
      var q0 := RowsValue(f, v, sums, rows, qs, m);
      assert Adds(f, m, sums[m], rows[m], sums[m + 1]);
      q := NextSum(f, v, m, sums[m], q0, rows[m], qs[m]);
    }
  }

  lemma Rows(g: seq<int32>) returns (v: int, rows: seq<int>, qs: seq<int>)
    requires |g| == 10
    ensures v == Weighted(g) && |rows| == |qs| == 10
    ensures forall i | 0 <= i < 10 :: rows[i] == RotatedSum(g, i) && IsRow(v, i, rows[i], qs[i])
  {
    v, rows, qs := Weighted(g), [], [];
    for i := 0 to 10
      invariant |rows| == |qs| == i
      invariant forall j | 0 <= j < i :: rows[j] == RotatedSum(g, j) && IsRow(v, j, rows[j], qs[j])
    {
      var row, q := Row(g, v, i);
      rows, qs := rows + [row], qs + [q];
    }
  }

  /** Names an index at which `AreColumns` is meant to be used. */
  ghost predicate At(i: int) { true }

  ghost predicate AreColumns(f: seq<int32>, g: seq<int32>, sums: seq<int>)
    requires |f| == |g| == 10
  {
    |sums| == 11 && forall i {:trigger At(i)} | At(i) && 0 <= i < 11 :: sums[i] == Columns(f, g, i)
  }

  lemma Sums(f: seq<int32>, g: seq<int32>, rows: seq<int>) returns (sums: seq<int>)
    requires |f| == |g| == |rows| == 10 && forall i | 0 <= i < 10 :: rows[i] == RotatedSum(g, i)
    ensures AreColumns(f, g, sums)
    ensures forall i | 0 <= i < 10 :: Adds(f, i, sums[i], rows[i], sums[i + 1])
  {
    sums := seq(11, i requires 0 <= i < 11 => Columns(f, g, i));
    forall i | 0 <= i < 10
      ensures Adds(f, i, sums[i], rows[i], sums[i + 1])
    {
      var next := AddColumns(f, g, i, sums[i], rows[i]);
    }
  }

  lemma Ends(f: seq<int32>, g: seq<int32>, sums: seq<int>, n: nat)
    requires |f| == |g| == n == 10 && AreColumns(f, g, sums)
    ensures sums[0] == 0 && sums[n] == Columns(f, g, n)
  {
    assert At(0) && At(n);
    NoColumns(f, g);
  }

  lemma AddColumns(f: seq<int32>, g: seq<int32>, m: nat, before: int, row: int) returns (after: int)
    requires |f| == |g| == 10 && m < 10 && before == Columns(f, g, m) && row == RotatedSum(g, m)
    ensures after == Columns(f, g, m + 1) && Adds(f, m, before, row, after)
  {
    NextRow(f, g, m);
    after := Columns(f, g, m + 1);
  }

  lemma SumsAndRows(f: seq<int32>, g: seq<int32>, n: nat) returns (v: int, sums: seq<int>, rows: seq<int>, qs: seq<int>)
    requires |f| == |g| == n == 10
    ensures v == Weighted(g) && |sums| == 11 && |rows| == |qs| == 10
    ensures sums[0] == 0 && sums[n] == Columns(f, g, n)
    ensures forall i | 0 <= i < 10 :: Adds(f, i, sums[i], rows[i], sums[i + 1])
    ensures forall i | 0 <= i < 10 :: IsRow(v, i, rows[i], qs[i])
  {
    v, rows, qs := Rows(g);
    sums := Sums(f, g, rows);
    Ends(f, g, sums, n);
  }

  lemma TableValue(f: seq<int32>, g: seq<int32>, n: nat) returns (u: int, v: int, q: int)
    requires |f| == |g| == n == 10
    ensures u == Weighted(f) && v == Weighted(g) && Columns(f, g, n) == u * v + q * P
  {
    var sums, rows, qs;
    v, sums, rows, qs := SumsAndRows(f, g, n);
    q := RowsValue(f, v, sums, rows, qs, n);
    u := Prefix(f, n);
    ValIsWeighted(f);
  }

  /** Schoolbook multiplication is multiplication modulo p. */
  lemma ProductValue(f: seq<int32>, g: seq<int32>)
    requires |f| == 10 && |g| == 10
    ensures Cong(Columns(f, g, 10), Val(f) * Val(g))
  {
    var u, v, q := TableValue(f, g, 10);
    Congruent(Columns(f, g, 10), u * v, q);
    ValIsWeighted(f);
    ValIsWeighted(g);
  }

  // ---- The columns as fe.c adds them up ----

  /** A product of two int32 values, one of them premultiplied, in 64 bits. */
  function Term(x: int32, y: int32): (r: int64)
    requires -221459252 <= x <= 221459252 && -2103862894 <= y <= 2103862894
    ensures r as int == x as int * y as int
    ensures -465920000000000000 <= r <= 465920000000000000
  {
    TermBound(x as int, y as int);
    x as int64 * y as int64
  }

  lemma TermBound(x: int, y: int)
    requires -221459252 <= x <= 221459252 && -2103862894 <= y <= 2103862894
    ensures -465920000000000000 <= x * y <= 465920000000000000
  {
    MulMonotone(if x < 0 then -x else x, 221459252, if y < 0 then -y else y, 2103862894);
  }

  lemma MulMonotone(a: nat, b: nat, x: nat, y: nat)
    requires a <= b && x <= y
    ensures a * x <= b * y
  {
    assert b * y - a * x == b * (y - x) + (b - a) * x;
  }

  function MulColumn0(f: seq<int32>, g: seq<int32>): (h: int64)
    requires Loose(f) && Loose(g)
    ensures h as int == Column(f, g, 0, 10) && -4659200000000000000 <= h <= 4659200000000000000
  {
    Term(f[0], g[0]) + Term(2 * f[1], 19 * g[9]) + Term(f[2], 19 * g[8]) + Term(2 * f[3], 19 * g[7]) + Term(f[4],
        19 * g[6])
    + Term(2 * f[5], 19 * g[5]) + Term(f[6], 19 * g[4]) + Term(2 * f[7], 19 * g[3]) + Term(f[8], 19 * g[2])
        + Term(2 * f[9], 19 * g[1])
  }

  function MulColumn1(f: seq<int32>, g: seq<int32>): (h: int64)
    requires Loose(f) && Loose(g)
    ensures h as int == Column(f, g, 1, 10) && -4659200000000000000 <= h <= 4659200000000000000
  {
    Term(f[0], g[1]) + Term(f[1], g[0]) + Term(f[2], 19 * g[9]) + Term(f[3], 19 * g[8]) + Term(f[4], 19 * g[7])
    + Term(f[5], 19 * g[6]) + Term(f[6], 19 * g[5]) + Term(f[7], 19 * g[4]) + Term(f[8], 19 * g[3]) + Term(f[9],
        19 * g[2])
  }

  function MulColumn2(f: seq<int32>, g: seq<int32>): (h: int64)
    requires Loose(f) && Loose(g)
    ensures h as int == Column(f, g, 2, 10) && -4659200000000000000 <= h <= 4659200000000000000
  {
    Term(f[0], g[2]) + Term(2 * f[1], g[1]) + Term(f[2], g[0]) + Term(2 * f[3], 19 * g[9]) + Term(f[4], 19 * g[8])
    + Term(2 * f[5], 19 * g[7]) + Term(f[6], 19 * g[6]) + Term(2 * f[7], 19 * g[5]) + Term(f[8], 19 * g[4])
        + Term(2 * f[9], 19 * g[3])
  }

  function MulColumn3(f: seq<int32>, g: seq<int32>): (h: int64)
    requires Loose(f) && Loose(g)
    ensures h as int == Column(f, g, 3, 10) && -4659200000000000000 <= h <= 4659200000000000000
  {
    Term(f[0], g[3]) + Term(f[1], g[2]) + Term(f[2], g[1]) + Term(f[3], g[0]) + Term(f[4], 19 * g[9])
    + Term(f[5], 19 * g[8]) + Term(f[6], 19 * g[7]) + Term(f[7], 19 * g[6]) + Term(f[8], 19 * g[5]) + Term(f[9],
        19 * g[4])
  }

  function MulColumn4(f: seq<int32>, g: seq<int32>): (h: int64)
    requires Loose(f) && Loose(g)
    ensures h as int == Column(f, g, 4, 10) && -4659200000000000000 <= h <= 4659200000000000000
  {
    Term(f[0], g[4]) + Term(2 * f[1], g[3]) + Term(f[2], g[2]) + Term(2 * f[3], g[1]) + Term(f[4], g[0])
    + Term(2 * f[5], 19 * g[9]) + Term(f[6], 19 * g[8]) + Term(2 * f[7], 19 * g[7]) + Term(f[8], 19 * g[6])
        + Term(2 * f[9], 19 * g[5])
  }

  function MulColumn5(f: seq<int32>, g: seq<int32>): (h: int64)
    requires Loose(f) && Loose(g)
    ensures h as int == Column(f, g, 5, 10) && -4659200000000000000 <= h <= 4659200000000000000
  {
    Term(f[0], g[5]) + Term(f[1], g[4]) + Term(f[2], g[3]) + Term(f[3], g[2]) + Term(f[4], g[1])
    + Term(f[5], g[0]) + Term(f[6], 19 * g[9]) + Term(f[7], 19 * g[8]) + Term(f[8], 19 * g[7]) + Term(f[9], 19 * g[6])
  }

  function MulColumn6(f: seq<int32>, g: seq<int32>): (h: int64)
    requires Loose(f) && Loose(g)
    ensures h as int == Column(f, g, 6, 10) && -4659200000000000000 <= h <= 4659200000000000000
  {
    Term(f[0], g[6]) + Term(2 * f[1], g[5]) + Term(f[2], g[4]) + Term(2 * f[3], g[3]) + Term(f[4], g[2])
    + Term(2 * f[5], g[1]) + Term(f[6], g[0]) + Term(2 * f[7], 19 * g[9]) + Term(f[8], 19 * g[8]) + Term(2 * f[9],
        19 * g[7])
  }

  function MulColumn7(f: seq<int32>, g: seq<int32>): (h: int64)
    requires Loose(f) && Loose(g)
    ensures h as int == Column(f, g, 7, 10) && -4659200000000000000 <= h <= 4659200000000000000
  {
    Term(f[0], g[7]) + Term(f[1], g[6]) + Term(f[2], g[5]) + Term(f[3], g[4]) + Term(f[4], g[3])
    + Term(f[5], g[2]) + Term(f[6], g[1]) + Term(f[7], g[0]) + Term(f[8], 19 * g[9]) + Term(f[9], 19 * g[8])
  }

  function MulColumn8(f: seq<int32>, g: seq<int32>): (h: int64)
    requires Loose(f) && Loose(g)
    ensures h as int == Column(f, g, 8, 10) && -4659200000000000000 <= h <= 4659200000000000000
  {
    Term(f[0], g[8]) + Term(2 * f[1], g[7]) + Term(f[2], g[6]) + Term(2 * f[3], g[5]) + Term(f[4], g[4])
    + Term(2 * f[5], g[3]) + Term(f[6], g[2]) + Term(2 * f[7], g[1]) + Term(f[8], g[0]) + Term(2 * f[9], 19 * g[9])
  }

  function MulColumn9(f: seq<int32>, g: seq<int32>): (h: int64)
    requires Loose(f) && Loose(g)
    ensures h as int == Column(f, g, 9, 10) && -4659200000000000000 <= h <= 4659200000000000000
  {
    Term(f[0], g[9]) + Term(f[1], g[8]) + Term(f[2], g[7]) + Term(f[3], g[6]) + Term(f[4], g[5])
    + Term(f[5], g[4]) + Term(f[6], g[3]) + Term(f[7], g[2]) + Term(f[8], g[1]) + Term(f[9], g[0])
  }

  function SqColumn0(f: seq<int32>): (h: int64)
    requires Loose(f)
    ensures h as int == Column(f, f, 0, 10) && -2795520000000000000 <= h <= 2795520000000000000
  {
    Term(f[0], f[0]) + Term(2 * f[1], 38 * f[9]) + Term(2 * f[2], 19 * f[8]) + Term(2 * f[3], 38 * f[7])
        + Term(2 * f[4], 19 * f[6]) + Term(f[5], 38 * f[5])
  }

  function SqColumn1(f: seq<int32>): (h: int64)
    requires Loose(f)
    ensures h as int == Column(f, f, 1, 10) && -2795520000000000000 <= h <= 2795520000000000000
  {
    Term(2 * f[0], f[1]) + Term(f[2], 38 * f[9]) + Term(2 * f[3], 19 * f[8]) + Term(f[4], 38 * f[7])
        + Term(2 * f[5], 19 * f[6])
  }

  function SqColumn2(f: seq<int32>): (h: int64)
    requires Loose(f)
    ensures h as int == Column(f, f, 2, 10) && -2795520000000000000 <= h <= 2795520000000000000
  {
    Term(2 * f[0], f[2]) + Term(2 * f[1], f[1]) + Term(2 * f[3], 38 * f[9]) + Term(2 * f[4], 19 * f[8])
        + Term(2 * f[5], 38 * f[7]) + Term(f[6], 19 * f[6])
  }

  function SqColumn3(f: seq<int32>): (h: int64)
    requires Loose(f)
    ensures h as int == Column(f, f, 3, 10) && -2795520000000000000 <= h <= 2795520000000000000
  {
    Term(2 * f[0], f[3]) + Term(2 * f[1], f[2]) + Term(f[4], 38 * f[9]) + Term(2 * f[5], 19 * f[8]) + Term(f[6],
        38 * f[7])
  }

  function SqColumn4(f: seq<int32>): (h: int64)
    requires Loose(f)
    ensures h as int == Column(f, f, 4, 10) && -2795520000000000000 <= h <= 2795520000000000000
  {
    Term(2 * f[0], f[4]) + Term(2 * f[1], 2 * f[3]) + Term(f[2], f[2]) + Term(2 * f[5], 38 * f[9]) + Term(2 * f[6],
        19 * f[8]) + Term(f[7], 38 * f[7])
  }

  function SqColumn5(f: seq<int32>): (h: int64)
    requires Loose(f)
    ensures h as int == Column(f, f, 5, 10) && -2795520000000000000 <= h <= 2795520000000000000
  {
    Term(2 * f[0], f[5]) + Term(2 * f[1], f[4]) + Term(2 * f[2], f[3]) + Term(f[6], 38 * f[9]) + Term(2 * f[7], 19 * f[8])
  }

  function SqColumn6(f: seq<int32>): (h: int64)
    requires Loose(f)
    ensures h as int == Column(f, f, 6, 10) && -2795520000000000000 <= h <= 2795520000000000000
  {
    Term(2 * f[0], f[6]) + Term(2 * f[1], 2 * f[5]) + Term(2 * f[2], f[4]) + Term(2 * f[3], f[3]) + Term(2 * f[7],
        38 * f[9]) + Term(f[8], 19 * f[8])
  }

  function SqColumn7(f: seq<int32>): (h: int64)
    requires Loose(f)
    ensures h as int == Column(f, f, 7, 10) && -2795520000000000000 <= h <= 2795520000000000000
  {
    Term(2 * f[0], f[7]) + Term(2 * f[1], f[6]) + Term(2 * f[2], f[5]) + Term(2 * f[3], f[4]) + Term(f[8], 38 * f[9])
  }

  function SqColumn8(f: seq<int32>): (h: int64)
    requires Loose(f)
    ensures h as int == Column(f, f, 8, 10) && -2795520000000000000 <= h <= 2795520000000000000
  {
    Term(2 * f[0], f[8]) + Term(2 * f[1], 2 * f[7]) + Term(2 * f[2], f[6]) + Term(2 * f[3], 2 * f[5]) + Term(f[4],
        f[4]) + Term(f[9], 38 * f[9])
  }

  function SqColumn9(f: seq<int32>): (h: int64)
    requires Loose(f)
    ensures h as int == Column(f, f, 9, 10) && -2795520000000000000 <= h <= 2795520000000000000
  {
    Term(2 * f[0], f[9]) + Term(2 * f[1], f[8]) + Term(2 * f[2], f[7]) + Term(2 * f[3], f[6]) + Term(2 * f[4], f[5])
  }

  /** Squaring by 55 products gives the columns of multiplying by oneself. */
  lemma SquareColumns(f: seq<int32>)
    requires Loose(f)
    ensures MulColumn0(f, f) == SqColumn0(f) && MulColumn1(f, f) == SqColumn1(f) && MulColumn2(f, f) == SqColumn2(f)
    ensures MulColumn3(f, f) == SqColumn3(f) && MulColumn4(f, f) == SqColumn4(f) && MulColumn5(f, f) == SqColumn5(f)
    ensures MulColumn6(f, f) == SqColumn6(f) && MulColumn7(f, f) == SqColumn7(f) && MulColumn8(f, f) == SqColumn8(f)
    ensures MulColumn9(f, f) == SqColumn9(f)
  {
  }

  // ---- Carrying ----

  ghost predicate Below(c: seq<int64>, bound: int)
  {
    |c| == 10 && forall i | 0 <= i < 10 :: -bound <= c[i] as int <= bound
  }

  ghost function Weighted64(c: seq<int64>): int
    requires |c| == 10
  {
    Weigh(c[0] as int, c[1] as int, c[2] as int, c[3] as int, c[4] as int,
          c[5] as int, c[6] as int, c[7] as int, c[8] as int, c[9] as int)
  }

  /** `(x + (1 << 25)) >> 26`, rounding to nearest. */
  function Round26(x: int64): (c: int64)
    requires -0x7fffffffffffffff <= x <= 0x7ffffffff0000000
    ensures -0x2000000 <= x as int - 0x4000000 * c as int < 0x2000000
  {
    (x + 0x2000000) / 0x4000000
  }

  /** `(x + (1 << 24)) >> 25` */
  function Round25(x: int64): (c: int64)
    requires -0x7fffffffffffffff <= x <= 0x7ffffffff0000000
    ensures -0x1000000 <= x as int - 0x2000000 * c as int < 0x1000000
  {
    (x + 0x1000000) / 0x2000000
  }

  /** The first six of the twelve carries that end `fe_mul`, `fe_sq` and `fe_sq2`. */
  method CarryFirst(x0: int64, x1: int64, x2: int64, x3: int64, x4: int64, x5: int64, x6: int64, x7: int64,
      x8: int64, x9: int64)
    returns (h0: int64, h1: int64, h2: int64, h3: int64, h4: int64, h5: int64, h6: int64, h7: int64, h8: int64, h9: int64)
    requires -5600000000000000000 <= x0 <= 5600000000000000000 && -5600000000000000000 <= x1 <= 5600000000000000000
        && -5600000000000000000 <= x2 <= 5600000000000000000
    requires -5600000000000000000 <= x3 <= 5600000000000000000 && -5600000000000000000 <= x4 <= 5600000000000000000
        && -5600000000000000000 <= x5 <= 5600000000000000000
    requires -5600000000000000000 <= x6 <= 5600000000000000000 && -5600000000000000000 <= x7 <= 5600000000000000000
        && -5600000000000000000 <= x8 <= 5600000000000000000
    requires -5600000000000000000 <= x9 <= 5600000000000000000
    ensures -0x2000000 <= h0 <= 0x2000000 && -0x1000000 <= h1 <= 0x1000000 && -0x2000000 <= h2 <= 0x2000000
    ensures -0x2000000 <= h4 <= 0x2000000 && -0x1000000 <= h5 <= 0x1000000 && -0x2000000 <= h6 <= 0x2000000
    ensures -5610000000000000000 <= h3 <= 5610000000000000000 && -5610000000000000000 <= h7 <= 5610000000000000000
    ensures h8 == x8 && h9 == x9
    ensures Weigh(h0 as int, h1 as int, h2 as int, h3 as int, h4 as int, h5 as int, h6 as int, h7 as int,
        h8 as int, h9 as int)
            == Weigh(x0 as int, x1 as int, x2 as int, x3 as int, x4 as int, x5 as int, x6 as int, x7 as int,
                x8 as int, x9 as int)
  {
    h0, h1, h2, h3, h4 := x0, x1, x2, x3, x4;
    h5, h6, h7, h8, h9 := x5, x6, x7, x8, x9;
    var c: int64;
    c := Round26(h0);
    h1, h0 := h1 + c, h0 - 0x4000000 * c;
    c := Round26(h4);
    h5, h4 := h5 + c, h4 - 0x4000000 * c;
    c := Round25(h1);
    h2, h1 := h2 + c, h1 - 0x2000000 * c;
    c := Round25(h5);
    h6, h5 := h6 + c, h5 - 0x2000000 * c;
    c := Round26(h2);
    h3, h2 := h3 + c, h2 - 0x4000000 * c;
    c := Round26(h6);
    h7, h6 := h7 + c, h6 - 0x4000000 * c;
  }

  /** The last six. The carry out of limb 9 comes back into limb 0, 19-fold. */
  method CarryLast(x0: int64, x1: int64, x2: int64, x3: int64, x4: int64, x5: int64, x6: int64, x7: int64,
      x8: int64, x9: int64)
    returns (h0: int64, h1: int64, h2: int64, h3: int64, h4: int64, h5: int64, h6: int64, h7: int64, h8: int64,
        h9: int64, ghost q: int64)
    requires -0x2000000 <= x0 <= 0x2000000 && -0x1000000 <= x1 <= 0x1000000 && -0x2000000 <= x2 <= 0x2000000
    requires -0x2000000 <= x4 <= 0x2000000 && -0x1000000 <= x5 <= 0x1000000 && -0x2000000 <= x6 <= 0x2000000
    requires -5610000000000000000 <= x3 <= 5610000000000000000 && -5610000000000000000 <= x7 <= 5610000000000000000
    requires -5600000000000000000 <= x8 <= 5600000000000000000 && -5600000000000000000 <= x9 <= 5600000000000000000
    ensures -0x2000000 <= h0 <= 0x2000000 && -16944988 <= h1 <= 16944988 && -0x2000000 <= h2 <= 0x2000000
    ensures -0x1000000 <= h3 <= 0x1000000 && -0x2000000 <= h4 <= 0x2000000 && -16944988 <= h5 <= 16944988
    ensures -0x2000000 <= h6 <= 0x2000000 && -0x1000000 <= h7 <= 0x1000000 && -0x2000000 <= h8 <= 0x2000000
    ensures -0x1000000 <= h9 <= 0x1000000
    ensures Weigh(h0 as int, h1 as int, h2 as int, h3 as int, h4 as int, h5 as int, h6 as int, h7 as int,
        h8 as int, h9 as int)
            == Weigh(x0 as int, x1 as int, x2 as int, x3 as int, x4 as int, x5 as int, x6 as int, x7 as int,
                x8 as int, x9 as int) - q as int * P
  {
    h0, h1, h2, h3, h4 := x0, x1, x2, x3, x4;
    h5, h6, h7, h8, h9 := x5, x6, x7, x8, x9;
    var c: int64;
    c := Round25(h3);
    h4, h3 := h4 + c, h3 - 0x2000000 * c;
    c := Round25(h7);
    h8, h7 := h8 + c, h7 - 0x2000000 * c;
    c := Round26(h4);
    h5, h4 := h5 + c, h4 - 0x4000000 * c;
    c := Round26(h8);
    h9, h8 := h9 + c, h8 - 0x4000000 * c;
    c := Round25(h9);
    h0, h9, q := h0 + c * 19, h9 - 0x2000000 * c, c;
    c := Round26(h0);
    h1, h0 := h1 + c, h0 - 0x4000000 * c;
  }

  method CarryTwelve(c: seq<int64>) returns (r: seq<int32>)
    requires Below(c, 5600000000000000000)
    ensures Tight(r) && Cong(Val(r), Weighted64(c))
  {
    var h0, h1, h2, h3, h4, h5, h6, h7, h8, h9 :=
      CarryFirst(c[0], c[1], c[2], c[3], c[4], c[5], c[6], c[7], c[8], c[9]);
    ghost var q;
    h0, h1, h2, h3, h4, h5, h6, h7, h8, h9, q := CarryLast(h0, h1, h2, h3, h4, h5, h6, h7, h8, h9);
    r := [h0 as int32, h1 as int32, h2 as int32, h3 as int32, h4 as int32,
          h5 as int32, h6 as int32, h7 as int32, h8 as int32, h9 as int32];
    ValIsWeighted(r);
    Congruent(Val(r), Weighted64(c), -(q as int));
  }

  /** `h[0] = ...; h[9] = ...` */
  method Store(h: array<int32>, r: seq<int32>)
    requires h.Length == |r| == 10
    modifies h
    ensures h[..] == r
  {
    h[0], h[1], h[2], h[3], h[4] := r[0], r[1], r[2], r[3], r[4];
    h[5], h[6], h[7], h[8], h[9] := r[5], r[6], r[7], r[8], r[9];
  }

  // ---- The three routines ----

  method MulLimbs(x: seq<int32>, y: seq<int32>) returns (r: seq<int32>)
    requires Loose(x) && Loose(y)
    ensures Tight(r) && Cong(Val(r), Val(x) * Val(y))
  {
    var c := [MulColumn0(x, y), MulColumn1(x, y), MulColumn2(x, y), MulColumn3(x, y), MulColumn4(x, y),
              MulColumn5(x, y), MulColumn6(x, y), MulColumn7(x, y), MulColumn8(x, y), MulColumn9(x, y)];
    ColumnsOf(x, y, c);
    r := CarryTwelve(c);
    CongTrans(Val(r), Weighted64(c), Val(x) * Val(y));
  }

  /** What the ten columns stand for. */
  lemma ColumnsOf(x: seq<int32>, y: seq<int32>, c: seq<int64>)
    requires |x| == |y| == |c| == 10
    requires forall k | 0 <= k < 10 :: c[k] as int == Column(x, y, k, 10)
    ensures Cong(Weighted64(c), Val(x) * Val(y))
  {
    ProductValue(x, y);
    assert Weighted64(c) == Columns(x, y, 10);
  }

  method SqLimbs(x: seq<int32>) returns (r: seq<int32>)
    requires Loose(x)
    ensures Tight(r) && Cong(Val(r), Val(x) * Val(x))
  {
    var c := [SqColumn0(x), SqColumn1(x), SqColumn2(x), SqColumn3(x), SqColumn4(x),
              SqColumn5(x), SqColumn6(x), SqColumn7(x), SqColumn8(x), SqColumn9(x)];
    ColumnsOf(x, x, c);
    r := CarryTwelve(c);
    CongTrans(Val(r), Weighted64(c), Val(x) * Val(x));
  }

  method Sq2Limbs(x: seq<int32>) returns (r: seq<int32>)
    requires Loose(x)
    ensures Tight(r) && Cong(Val(r), 2 * (Val(x) * Val(x)))
  {
    var c := [SqColumn0(x), SqColumn1(x), SqColumn2(x), SqColumn3(x), SqColumn4(x),
              SqColumn5(x), SqColumn6(x), SqColumn7(x), SqColumn8(x), SqColumn9(x)];
    ColumnsOf(x, x, c);
    var d := [c[0] + c[0], c[1] + c[1], c[2] + c[2], c[3] + c[3], c[4] + c[4],
              c[5] + c[5], c[6] + c[6], c[7] + c[7], c[8] + c[8], c[9] + c[9]];
    assert Weighted64(d) == Weighted64(c) + Weighted64(c);
    r := CarryTwelve(d);
    CongAdd(Weighted64(c), Val(x) * Val(x), Weighted64(c), Val(x) * Val(x));
    CongTrans(Val(r), Weighted64(d), 2 * (Val(x) * Val(x)));
  }

  /** `fe_mul`. h may be f or g. */
  method Mul(h: array<int32>, f: array<int32>, g: array<int32>)
    requires h.Length == f.Length == g.Length == 10 && Loose(f[..]) && Loose(g[..])
    modifies h
    ensures Tight(h[..]) && Cong(Val(h[..]), old(Val(f[..]) * Val(g[..])))
  {
    var r := MulLimbs(f[..], g[..]);
    Store(h, r);
  }

  /** `fe_sq`. h may be f. */
  method Sq(h: array<int32>, f: array<int32>)
    requires h.Length == f.Length == 10 && Loose(f[..])
    modifies h
    ensures Tight(h[..]) && Cong(Val(h[..]), old(Val(f[..]) * Val(f[..])))
  {
    var r := SqLimbs(f[..]);
    Store(h, r);
  }

  /** `fe_sq2`. h may be f. */
  method Sq2(h: array<int32>, f: array<int32>)
    requires h.Length == f.Length == 10 && Loose(f[..])
    modifies h
    ensures Tight(h[..]) && Cong(Val(h[..]), old(2 * (Val(f[..]) * Val(f[..]))))
  {
    var r := Sq2Limbs(f[..]);
    Store(h, r);
  }
}
