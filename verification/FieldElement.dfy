/** Field elements modulo p = 2^255 - 19 as ten signed limbs (third-party/ed25519/fe.c): their
    values, congruence, and the bounds the comments in fe.c speak of. */
module FieldElement {
  import opened MachineInts

  const P: int := 0x7fffffffffffffffffffffffffffffffffffffffffffffffffffffffffffffed

  // ---- Congruence ----

  /** q times p, by repeated addition. */
  ghost function Multiple(q: int): int
    decreases if q < 0 then -q else q
  {
    if q == 0 then 0 else if q > 0 then Multiple(q - 1) + P else Multiple(q + 1) - P
  }

  lemma {:induction false} MultipleIsProduct(q: int)
    ensures Multiple(q) == q * P
    decreases if q < 0 then -q else q
  {
    if q > 0 {
      MultipleIsProduct(q - 1);
    } else if q < 0 {
      MultipleIsProduct(q + 1);
    }
  }

  /** x and y are the same element of the field. */
  ghost predicate Cong(x: int, y: int)
  {
    exists q :: x == y + Multiple(q)
  }

  lemma Congruent(x: int, y: int, q: int)
    requires x == y + q * P
    ensures Cong(x, y)
  {
    MultipleIsProduct(q);
    assert x == y + Multiple(q);
  }

  /** The witness of a congruence. */
  lemma Quotient(x: int, y: int) returns (q: int)
    requires Cong(x, y)
    ensures x == y + q * P
  {
    var q0 :| x == y + Multiple(q0);
    MultipleIsProduct(q0);
    q := q0;
  }

  /** The predicate means what it should. */
  lemma CongIsMod(x: int, y: int)
    ensures Cong(x, y) <==> x % P == y % P
  {
    if x % P == y % P {
      assert x == x / P * P + x % P && y == y / P * P + y % P;
      Congruent(x, y, x / P - y / P);
    }
    if Cong(x, y) {
      var q := Quotient(x, y);
      SameRemainder(y / P + q, y / P, y % P);
    }
  }

  lemma SameRemainder(a: int, b: int, r: int)
    requires 0 <= r < P
    ensures (a * P + r) % P == (b * P + r) % P == r
  {
    Remainder(a, r);
    Remainder(b, r);
  }

  lemma Remainder(a: int, r: int)
    requires 0 <= r < P
    ensures (a * P + r) % P == r
  {
    var x := a * P + r;
    assert x == x / P * P + x % P;
    assert (x / P - a) * P == r - x % P;
  }

  lemma CongSelf(x: int)
    ensures Cong(x, x)
  {
    Congruent(x, x, 0);
  }

  lemma CongSym(x: int, y: int)
    requires Cong(x, y)
    ensures Cong(y, x)
  {
    var q := Quotient(x, y);
    Congruent(y, x, -q);
  }

  lemma CongTrans(x: int, y: int, z: int)
    requires Cong(x, y) && Cong(y, z)
    ensures Cong(x, z)
  {
    var q := Quotient(x, y);
    var r := Quotient(y, z);
    Congruent(x, z, q + r);
  }

  lemma CongAdd(a: int, b: int, x: int, y: int)
    requires Cong(a, b) && Cong(x, y)
    ensures Cong(a + x, b + y) && Cong(a - x, b - y)
  {
    var q := Quotient(a, b);
    var r := Quotient(x, y);
    Congruent(a + x, b + y, q + r);
    Congruent(a - x, b - y, q - r);
  }

  lemma CongMul(a: int, b: int, x: int, y: int)
    requires Cong(a, b) && Cong(x, y)
    ensures Cong(a * x, b * y)
  {
    var q := Quotient(a, b);
    var r := Quotient(x, y);
    var u, v := q * P, r * P;
    assert (b + u) * (y + v) == b * y + b * v + u * y + u * v;
    assert b * v == (b * r) * P && u * y == (q * y) * P && u * v == (q * v) * P;
    Congruent(a * x, b * y, b * r + q * y + q * v);
  }

  lemma CongScale(c: int, x: int, y: int)
    requires Cong(x, y)
    ensures Cong(c * x, c * y) && Cong(x * c, y * c)
  {
    CongSelf(c);
    CongMul(c, c, x, y);
    CongMul(x, y, c, c);
  }

  // ---- Products ----

  lemma Regroup(x: int, y: int, z: int)
    ensures x * (y * z) == x * y * z
  {
  }

  lemma Interchange(a: int, b: int, x: int, y: int)
    ensures a * b * (x * y) == a * x * (b * y)
  {
    Regroup(a * b, x, y);
    Regroup(a * x, b, y);
    Regroup(a, b, x);
    Regroup(a, x, b);
  }

  lemma SwapFactors(x: int, y: int, z: int)
    ensures x * y * z == y * (x * z)
  {
  }

  lemma Binomial(u: int, v: int)
    ensures (u + v) * (u + v) == u * u + 2 * (u * v) + v * v
  {
  }

  // ---- Limbs ----

  /** Limb i has weight 2^ceil(25.5 i). */
  ghost function Weigh(h0: int, h1: int, h2: int, h3: int, h4: int, h5: int, h6: int, h7: int, h8: int, h9: int): int
  {
    h0 + 0x4000000 * h1 + 0x8000000000000 * h2 + 0x20000000000000000000 * h3
    + 0x40000000000000000000000000 * h4 + 0x100000000000000000000000000000000 * h5
    + 0x200000000000000000000000000000000000000 * h6 + 0x800000000000000000000000000000000000000000000 * h7
    + 0x1000000000000000000000000000000000000000000000000000 * h8
    + 0x4000000000000000000000000000000000000000000000000000000000 * h9
  }

  /** x times the weight of limb i. */
  ghost function AtLimb(i: nat, x: int): int
    requires i < 10
  {
    if i == 0 then 0x1 * x
    else if i == 1 then 0x4000000 * x
    else if i == 2 then 0x8000000000000 * x
    else if i == 3 then 0x20000000000000000000 * x
    else if i == 4 then 0x40000000000000000000000000 * x
    else if i == 5 then 0x100000000000000000000000000000000 * x
    else if i == 6 then 0x200000000000000000000000000000000000000 * x
    else if i == 7 then 0x800000000000000000000000000000000000000000000 * x
    else if i == 8 then 0x1000000000000000000000000000000000000000000000000000 * x
    else 0x4000000000000000000000000000000000000000000000000000000000 * x
  }

  /** The value of the first n limbs of f. */
  ghost function Prefix(f: seq<int32>, n: nat): int
    requires |f| == 10 && n <= 10
  {
    if n == 0 then 0 else Prefix(f, n - 1) + AtLimb(n - 1, f[n - 1] as int)
  }

  /** The number that ten limbs stand for. */
  ghost function Val(f: seq<int32>): int
    requires |f| == 10
  {
    Prefix(f, |f|)
  }

  /** The same, in one formula. */
  ghost function Weighted(f: seq<int32>): int
    requires |f| == 10
  {
    Weigh(f[0] as int, f[1] as int, f[2] as int, f[3] as int, f[4] as int,
          f[5] as int, f[6] as int, f[7] as int, f[8] as int, f[9] as int)
  }

  lemma ValIsWeighted(f: seq<int32>)
    requires |f| == 10
    ensures Val(f) == Prefix(f, 10) == Weighted(f)
  {
    assert Prefix(f, 1) == Prefix(f, 0) + AtLimb(0, f[0] as int);
    assert Prefix(f, 2) == Prefix(f, 1) + AtLimb(1, f[1] as int);
    assert Prefix(f, 4) == Prefix(f, 2) + AtLimb(2, f[2] as int) + AtLimb(3, f[3] as int);
    assert Prefix(f, 6) == Prefix(f, 4) + AtLimb(4, f[4] as int) + AtLimb(5, f[5] as int);
    assert Prefix(f, 8) == Prefix(f, 6) + AtLimb(6, f[6] as int) + AtLimb(7, f[7] as int);
  }

  /** Even limbs are at most `even` in magnitude, odd limbs at most `odd`. */
  ghost predicate Within(f: seq<int32>, even: int, odd: int)
  {
    && |f| == 10
    && -even <= f[0] as int <= even && -odd <= f[1] as int <= odd && -even <= f[2] as int <= even
    && -odd <= f[3] as int <= odd && -even <= f[4] as int <= even && -odd <= f[5] as int <= odd
    && -even <= f[6] as int <= even && -odd <= f[7] as int <= odd && -even <= f[8] as int <= even
    && -odd <= f[9] as int <= odd
  }

  /** Ten limbs bounded by 1.01 * 2^25 and 1.01 * 2^24: what `fe_mul` and its kin return. */
  ghost predicate Tight(f: seq<int32>) { Within(f, 33889976, 16944988) }

  /** Ten limbs bounded by 1.65 * 2^26 and 1.65 * 2^25: what `fe_mul` and its kin accept. */
  ghost predicate Loose(f: seq<int32>) { Within(f, 110729625, 55364812) }

  /** Ten limbs bounded by 1.1 * 2^26 and 1.1 * 2^25: what `fe_tobytes` and `fe_mul121666` accept. */
  ghost predicate Medium(f: seq<int32>) { Within(f, 73819750, 36909875) }
}
