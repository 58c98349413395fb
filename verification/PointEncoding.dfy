/** Encoding and decoding of points (third-party/ed25519/ge.c): `ge_tobytes`, `ge_p3_tobytes` and
    `ge_frombytes_negate_vartime`, with `fe_pow22523`, `fe_isnegative` and `fe_isnonzero`. */
module PointEncoding {
  import opened MachineInts
  import opened LittleEndian
  import opened FieldElement
  import opened FieldMul
  import opened FieldOps
  import opened FieldPrime
  import opened Points
  import Bitwise
  import FieldBytes
  import X25519

  // ---- Square roots ----

  lemma {:induction false} PowerPower(z: int, a: nat, b: nat)
    ensures Power(Power(z, a), b) == Power(z, a * b)
  {
    if b > 0 {
      PowerPower(z, a, b - 1);
      PowerAdd(z, a, a * (b - 1));
      assert a + a * (b - 1) == a * b;
    }
  }

  /** The root that decoding tries: u v^3 (u v^7)^((p-5)/8). */
  ghost function Candidate(u: int, v: int): int
  {
    Power(u * Power(v, 7), EIGHTH) * Power(v, 3) * u
  }

  lemma Split(v: int, x: int, n: nat, k: nat)
    requires k == n + 1
    ensures v * (x * x) * Power(v, n) == Power(v, k) * (x * x)
  {
    SwapFactors(v, x * x, Power(v, n));
  }

  /** If v x^2 == u, the candidate is v^(p-1) x^((p+3)/4). */
  lemma CandidatePowers(u: int, v: int, x: int)
    requires Cong(u, v * (x * x))
    ensures Cong(Candidate(u, v), Power(v, P_MINUS_2 + 1) * Power(x, 2 + 2 * EIGHTH))
  {
    hide Cong, Power;
    var s, v3, v7 := x * x, Power(v, 3), Power(v, 7);
    CongSelf(v7);
    CongMul(u, v * s, v7, v7);
    Split(v, x, 7, 8);
    X25519.CongPower(u * v7, Power(v, 8) * s, EIGHTH);
    CongSelf(v3);
    var k, k' := Power(u * v7, EIGHTH), Power(Power(v, 8) * s, EIGHTH);
    CongMul(k, k', v3, v3);
    CongMul(k * v3, k' * v3, u, v * s);
    CandidateIs(v, x);
  }

  lemma CandidateIs(v: int, x: int)
    ensures Power(Power(v, 8) * (x * x), EIGHTH) * Power(v, 3) * (v * (x * x))
            == Power(v, P_MINUS_2 + 1) * Power(x, 2 + 2 * EIGHTH)
  {
    SquareIs(x);
    hide Power;
    var s, v3 := x * x, Power(v, 3);
    PowerTimes(Power(v, 8), s, EIGHTH);
    PowerPower(v, 8, EIGHTH);
    PowerPower(x, 2, EIGHTH);
    var a, b := Power(v, 8 * EIGHTH), Power(x, 2 * EIGHTH);
    assert Power(Power(v, 8) * s, EIGHTH) == a * b;
    Split(v, x, 3, 4);
    assert a * b * v3 * (v * s) == a * b * (v * s * v3) by {
      Regroup(a * b, v3, v * s);
      assert v3 * (v * s) == v * s * v3;
    }
    Interchange(a, b, Power(v, 4), s);
    PowerAdd(v, 8 * EIGHTH, 4);
    PowerAdd(x, 2 * EIGHTH, 2);
    assert 8 * EIGHTH + 4 == P_MINUS_2 + 1;
  }

  lemma SquareIs(x: int)
    ensures Power(x, 2) == x * x
  {
    assert Power(x, 2) == x * Power(x, 1) && Power(x, 1) == x * Power(x, 0);
  }

  /** The candidate is a root of x^2 or of -x^2. */
  lemma CandidateSquared(u: int, v: int, x: int)
    requires Fermat() && !Cong(v, 0) && Cong(u, v * (x * x))
    ensures var k := Candidate(u, v); Cong(k * k, x * x) || Cong(k * k, -(x * x))
  {
    hide Cong, Candidate;
    var k := Candidate(u, v);
    if Cong(x, 0) {
      TimesZero(x, x);
      CandidateZero(u, v, x);
      CongSym(x * x, 0);
      CongTrans(k * k, 0, x * x);
    } else {
      CandidatePowers(u, v, x);
      var a, b := Power(v, P_MINUS_2 + 1), Power(x, 2 + 2 * EIGHTH);
      assert a == v * Power(v, P_MINUS_2);
      hide Power;
      CongSelf(b);
      CongMul(a, 1, b, b);
      CongTrans(k, a * b, b);
      CongMul(k, b, k, b);
      RootPower(x);
      Euler(x);
      var h := Power(x, HALF);
      CongSelf(x * x);
      CongMul(x * x, x * x, h, if Cong(h, 1) then 1 else -1);
      CongTrans(k * k, b * b, x * x * if Cong(h, 1) then 1 else -1);
    }
  }

  lemma RootPower(x: int)
    ensures Power(x, 2 + 2 * EIGHTH) * Power(x, 2 + 2 * EIGHTH) == x * x * Power(x, HALF)
  {
    SquareIs(x);
    hide Power;
    PowerAdd(x, 2 + 2 * EIGHTH, 2 + 2 * EIGHTH);
    PowerAdd(x, 2, HALF);
    assert 2 + 2 * EIGHTH + (2 + 2 * EIGHTH) == 2 + HALF;
  }

  lemma CandidateZero(u: int, v: int, x: int)
    requires Cong(x * x, 0) && Cong(u, v * (x * x))
    ensures var k := Candidate(u, v); Cong(k * k, 0)
  {
    hide Cong, Power;
    TimesZero(x * x, v);
    CongTrans(u, v * (x * x), 0);
    TimesZero(u, Power(u * Power(v, 7), EIGHTH) * Power(v, 3));
    var k := Candidate(u, v);
    TimesZero(k, k);
  }

  /** A square root of -1. */
  const SQRTM1: int := 0x2b8324804fc1df0b2b4d00993dfbd7a72f431806ad2fe478c4ee1b274a0ea0b0

  const SQRTM1_LIMBS: seq<int32> := [-32595792, -7943725, 9377950, 3500415, 12389472, -272473, -25146209, -2005654,
      326686, 11406482]

  lemma RootOfMinusOne()
    ensures Cong(SQRTM1 * SQRTM1, -1) && Cong(Val(SQRTM1_LIMBS), SQRTM1) && Tight(SQRTM1_LIMBS)
  {
    Congruent(SQRTM1 * SQRTM1, -1, 0xecaa2e2f6a2302ccedb31ac05720688238ced2078f3eb0ec9f22e8f621972e5);
    ValIsWeighted(SQRTM1_LIMBS);
    Congruent(Val(SQRTM1_LIMBS), SQRTM1, 0);
  }

  /** What decoding takes for x: the candidate, or its product with the root of -1. */
  ghost function Tried(u: int, v: int): int
  {
    var k := Candidate(u, v);
    if Cong(v * (k * k), u) then k else k * SQRTM1
  }

  lemma SameSquare(v: int, k: int, x: int, u: int)
    requires Fermat() && !Cong(v, 0) && Cong(v * (k * k), u) && Cong(u, v * (x * x))
    ensures Cong(k, x) || Cong(k, -x)
  {
    hide Cong;
    CongTrans(v * (k * k), u, v * (x * x));
    CongSelf(v * (x * x));
    CongAdd(v * (k * k), v * (x * x), v * (x * x), v * (x * x));
    assert v * (k * k) - v * (x * x) == v * (k * k - x * x);
    NoZeroDivisors(v, k * k - x * x);
    CongSelf(x * x);
    CongAdd(k * k - x * x, 0, x * x, x * x);
    SquareRoots(k, x);
  }

  /** If u / v has a root x, then k, which squares to x^2 or -x^2, or its product with the root i of -1
      is x, up to sign; and the test of the source tells which. */
  lemma TrialFinds(u: int, v: int, x: int, k: int, i: int)
    requires Fermat() && !Cong(v, 0) && Cong(u, v * (x * x)) && Cong(i * i, -1)
    requires Cong(k * k, x * x) || Cong(k * k, -(x * x))
    ensures Cong(v * (k * k), u) || Cong(v * (k * k), -u)
    ensures var w := if Cong(v * (k * k), u) then k else k * i; Cong(w, x) || Cong(w, -x)
  {
    hide Cong;
    CongSelf(v);
    CongSym(u, v * (x * x));
    if Cong(k * k, x * x) {
      CongMul(v, v, k * k, x * x);
      CongTrans(v * (k * k), v * (x * x), u);
      SameSquare(v, k, x, u);
    } else {
      MinusSquare(u, v, k, x);
      if Cong(v * (k * k), u) {
        SameSquare(v, k, x, u);
      } else {
        TurnedRoot(k, x, i);
      }
    }
  }

  /** The same, of the candidate that decoding tries. */
  lemma CandidateFinds(y: int, x: int)
    requires Fermat() && Affine(x, y)
    ensures Decodable(y) && (Cong(Tried(U(y), V(y)), x) || Cong(Tried(U(y), V(y)), -x))
  {
    hide Cong, Candidate, U, V, SQRTM1;
    VNonzero(x, y);
    AffineIs(x, y);
    CandidateSquared(U(y), V(y), x);
    RootOfMinusOne();
    TrialFinds(U(y), V(y), x, Candidate(U(y), V(y)), SQRTM1);
  }

  lemma MinusSquare(u: int, v: int, k: int, x: int)
    requires Cong(k * k, -(x * x)) && Cong(v * (x * x), u)
    ensures Cong(v * (k * k), -u)
  {
    hide Cong;
    CongSelf(v);
    CongMul(v, v, k * k, -(x * x));
    CongSelf(0);
    CongAdd(0, 0, v * (x * x), u);
    assert v * -(x * x) == 0 - v * (x * x);
    CongTrans(v * (k * k), v * -(x * x), -u);
  }

  lemma TurnedRoot(k: int, x: int, i: int)
    requires Fermat() && Cong(k * k, -(x * x)) && Cong(i * i, -1)
    ensures Cong(k * i, x) || Cong(k * i, -x)
  {
    hide Cong;
    CongMul(k * k, -(x * x), i * i, -1);
    Interchange(k, i, k, i);
    assert -(x * x) * -1 == x * x;
    SquareRoots(k * i, x);
  }

  // ---- Encoding ----

  /** The 32 bytes of the affine point (x, y): y below p, and the last bit of x on top. */
  ghost predicate Encodes(s: seq<byte>, x: int, y: int)
  {
    |s| == 32 && FieldBytes.Low255(s) == y % P && s[31] as int / 128 == x % P % 2
  }

  /** x / z */
  ghost function Over(x: int, z: int): int
  {
    x * Power(z, P_MINUS_2)
  }

  /** `ge_p3_tobytes` and `ge_tobytes`, which do not look at T. */
  method ToBytes(s: array<byte>, h: Quad)
    requires s.Length == 32 && h.Valid() && Tight(h.X[..]) && Tight(h.Y[..]) && Tight(h.Z[..])
    modifies s
    ensures Encodes(s[..], Over(Val(h.X[..]), Val(h.Z[..])), Over(Val(h.Y[..]), Val(h.Z[..])))
  {
    hide Cong, Val, LE, Power, Bitwise.Xor;
    var recip, x, y := new int32[10], new int32[10], new int32[10];
    ghost var vx, vy, vz := Val(h.X[..]), Val(h.Y[..]), Val(h.Z[..]);
    CongSelf(vx);
    CongSelf(vy);
    Invert(recip, h.Z);
    MulIs(x, h.X, recip, vx, Power(vz, P_MINUS_2));
    MulIs(y, h.Y, recip, vy, Power(vz, P_MINUS_2));
    FieldBytes.ToBytes(s, y);
    CongIsMod(Val(y[..]), Over(vy, vz));
    var b := FieldBytes.IsNegative(x);
    CongIsMod(Val(x[..]), Over(vx, vz));
    SmallTop(s[..]);
    Bitwise.XorTop(s[31], b);
    SignedTop(s[..], s[31] + 0x80 * b, b);
    s[31] := Bitwise.Xor(s[31], 0x80 * b);
  }

  /** The top bit of a residue is free for the sign. */
  lemma SignedTop(s: seq<byte>, top: byte, b: byte)
    requires |s| == 32 && s[31] < 0x80 && b <= 1 && top == s[31] + 0x80 * b
    ensures FieldBytes.Low255(s[31 := top]) == LE(s) && top as int / 128 == b as int
  {
    hide LE;
    assert top % 128 == s[31];
    assert s[31 := top][31 := top % 128] == s;
  }

  lemma SmallTop(s: seq<byte>)
    requires |s| == 32 && LE(s) < P
    ensures s[31] < 0x80
  {
    TopByte(s);
    Pow256At31();
  }

  // ---- Decoding ----

  /** y^2 - 1 */
  ghost function U(y: int): int { y * y - 1 }

  /** d y^2 + 1 */
  ghost function V(y: int): int { y * y * D + 1 }

  /** y and 1, and both sides of v x^2 == u. */
  method Equation(h: Quad, u: array<int32>, v: array<int32>, s: seq<byte>)
    requires h.Valid() && u.Length == v.Length == 10 && u != v && |s| == 32
    requires u !in {h.X, h.Y, h.Z, h.T} && v !in {h.X, h.Y, h.Z, h.T}
    modifies h.Y, h.Z, u, v
    ensures Is(h.Y, FieldBytes.Low255(s), 1) && Tight(h.Z[..]) && Val(h.Z[..]) == 1
    ensures var y := FieldBytes.Low255(s);
      Within(u[..], 33889977, 16944988) && Cong(Val(u[..]), U(y)) && Loose(v[..]) && Cong(Val(v[..]), V(y))
  {
    hide Cong, Val, FieldBytes.Low255;
    ghost var y := FieldBytes.Low255(s);
    var d := new int32[10];
    Store(d, D_LIMBS);
    CurveConstants();
    FieldBytes.FromBytes(h.Y, s);
    Small(h.Z, 1);
    SqIs(u, h.Y, y);
    MulIs(v, u, d, y * y, D);
    ghost var a, b := Val(u[..]), Val(v[..]);
    CongSelf(1);
    Sub(u, u, h.Z, 33889976, 16944988, 1, 0);
    Add(v, v, h.Z, 33889976, 16944988, 1, 0);
    CongAdd(a, y * y, 1, 1);
    CongAdd(b, y * y * D, 1, 1);
  }

  lemma Powers(v: int, u: int)
    ensures v * v * v == Power(v, 3) && v * v * v * (v * v * v) * v * u == u * Power(v, 7)
  {
    assert Power(v, 1) == v * Power(v, 0) && Power(v, 2) == v * Power(v, 1) && Power(v, 3) == v * Power(v, 2);
    assert v * v * v == v * (v * v);
    var c := v * v * v;
    assert Power(v, 3) == c;
    PowerAdd(v, 3, 3);
    PowerAdd(v, 6, 1);
    assert Power(v, 7) == c * c * v;
    assert c * c * v * u == u * (c * c * v);
  }

  /** X = u v^3 (u v^7)^((p-5)/8) */
  method Try(x: array<int32>, u: array<int32>, v: array<int32>, ghost u0: int, ghost v0: int)
    requires x.Length == u.Length == v.Length == 10 && x != u && x != v
    requires Loose(u[..]) && Cong(Val(u[..]), u0) && Loose(v[..]) && Cong(Val(v[..]), v0)
    modifies x
    ensures Is(x, Candidate(u0, v0), 1)
  {
    hide Cong, Val;
    Powers(v0, u0);
    hide Power;
    var v3 := new int32[10];
    SqIs(v3, v, v0);
    MulIs(v3, v3, v, v0 * v0, v0);
    ghost var c := v0 * v0 * v0;
    SqIs(x, v3, c);
    MulIs(x, x, v, c * c, v0);
    MulIs(x, x, u, c * c * v0, u0);
    ghost var b := Val(x[..]);
    Pow22523(x, x);
    ghost var r := u0 * Power(v0, 7);
    X25519.CongPower(b, r, EIGHTH);
    CongTrans(Val(x[..]), Power(b, EIGHTH), Power(r, EIGHTH));
    MulIs(x, x, v3, Power(r, EIGHTH), c);
    MulIs(x, x, u, Power(r, EIGHTH) * c, u0);
  }

  // ---- The whole decoding ----

  /** What decoding makes of the trial w: the x with the sign opposite to the one encoded, and y. */
  ghost function Turned(s: seq<byte>, w: int): Point
    requires |s| == 32
  {
    var x, y := if w % P % 2 == s[31] as int / 128 then -w else w, FieldBytes.Low255(s);
    Point(x, y, 1, x * y)
  }

  ghost function Decoded(s: seq<byte>): Point
    requires |s| == 32
  {
    var y := FieldBytes.Low255(s);
    Turned(s, Tried(U(y), V(y)))
  }

  /** Decoding gives up unless v k^2 is u or -u, for the candidate k. */
  ghost predicate Decodable(y: int)
  {
    var k := Candidate(U(y), V(y));
    Cong(V(y) * (k * k), U(y)) || Cong(V(y) * (k * k), -U(y))
  }

  /** `fe_sq; fe_mul; fe_sub; fe_isnonzero` and so on: is the candidate a root? If not, is its
      product with the root of -1? */
  method Settle(x: array<int32>, u: array<int32>, v: array<int32>, ghost k: int, ghost u0: int, ghost v0: int)
    returns (ok: bool)
    requires x.Length == u.Length == v.Length == 10 && x != u && x != v && Is(x, k, 1)
    requires Within(u[..], 33889977, 16944988) && Cong(Val(u[..]), u0) && Loose(v[..]) && Cong(Val(v[..]), v0)
    modifies x
    ensures ok <==> Cong(v0 * (k * k), u0) || Cong(v0 * (k * k), -u0)
    ensures ok ==> Is(x, if Cong(v0 * (k * k), u0) then k else k * SQRTM1, 1)
  {
    hide Cong, Val;
    var vxx, check := new int32[10], new int32[10];
    SqIs(vxx, x, k);
    MulIs(vxx, vxx, v, k * k, v0);
    ghost var a, b, c := Val(vxx[..]), Val(u[..]), v0 * (k * k);
    assert k * k * v0 == c;
    Sub(check, vxx, u, 33889976, 16944988, 33889977, 16944988);
    Difference(a, c, b, u0);
    var nonzero := FieldBytes.IsNonzero(check);
    ok := true;
    if nonzero {
      Add(check, vxx, u, 33889976, 16944988, 33889977, 16944988);
      nonzero := FieldBytes.IsNonzero(check);
      if nonzero {
        ok := false;
      } else {
        var sqrtm1 := new int32[10];
        Store(sqrtm1, SQRTM1_LIMBS);
        RootOfMinusOne();
        MulIs(x, x, sqrtm1, k, SQRTM1);
      }
    }
  }

  lemma Difference(a: int, c: int, b: int, u: int)
    requires Cong(a, c) && Cong(b, u)
    ensures Cong(a - b, 0) <==> Cong(c, u)
    ensures Cong(a + b, 0) <==> Cong(c, -u)
  {
    hide Cong;
    CongAdd(a, c, b, u);
    ZeroDifference(a - b, c, u);
    ZeroDifference(a + b, c, -u);
  }

  lemma ZeroDifference(x: int, c: int, u: int)
    requires Cong(x, c - u)
    ensures Cong(x, 0) <==> Cong(c, u)
  {
    hide Cong;
    CongSelf(u);
    if Cong(x, 0) {
      CongSym(x, c - u);
      CongTrans(c - u, x, 0);
      CongAdd(c - u, 0, u, u);
    }
    if Cong(c, u) {
      CongAdd(c, u, u, u);
      CongTrans(x, c - u, 0);
    }
  }

  /** `if (fe_isnegative(h->X) == (s[31] >> 7)) fe_neg(h->X, h->X); fe_mul(h->T, h->X, h->Y)` */
  method Sign(h: Quad, top: byte, ghost w: int, ghost y: int)
    requires h.Valid() && Is(h.X, w, 1) && Is(h.Y, y, 1)
    modifies h.X, h.T
    ensures var x := if w % P % 2 == top as int / 128 then -w else w;
      Is(h.X, x, 1) && Is(h.T, x * y, 1)
  {
    hide Cong, Val;
    var b := FieldBytes.IsNegative(h.X);
    ghost var v := Val(h.X[..]);
    CongIsMod(v, w);
    if b == top / 128 {
      Neg(h.X, h.X, 33889976, 16944988);
      CongSelf(0);
      CongAdd(0, 0, v, w);
      MulIs(h.T, h.X, h.Y, -w, y);
    } else {
      MulIs(h.T, h.X, h.Y, w, y);
    }
  }

  /** `ge_frombytes_negate_vartime` */
  method FromBytesNegate(h: Quad, s: seq<byte>) returns (ret: int)
    requires h.Valid() && |s| == 32
    modifies h.X, h.Y, h.Z, h.T
    ensures ret == if Decodable(FieldBytes.Low255(s)) then 0 else -1
    ensures ret == 0 ==> h.AllTight() && Same(h.Coordinates(), Decoded(s))
  {
    hide Cong, Val, Candidate, U, V, FieldBytes.Low255;
    var u, v := new int32[10], new int32[10];
    ghost var y := FieldBytes.Low255(s);
    Equation(h, u, v, s);
    Try(h.X, u, v, U(y), V(y));
    var ok := Settle(h.X, u, v, Candidate(U(y), V(y)), U(y), V(y));
    if !ok {
      return -1;
    }
    Sign(h, s[31], Tried(U(y), V(y)), y);
    CongSelf(1);
    ret := 0;
  }

  // ---- What can be decoded ----

  /** -x^2 + y^2 = 1 + d x^2 y^2, solved for x^2. */
  ghost predicate Plane(x: int, y: int, d: int)
  {
    Cong(y * y - 1, (y * y * d + 1) * (x * x))
  }

  ghost predicate Affine(x: int, y: int)
  {
    Plane(x, y, D)
  }

  lemma AffineIs(x: int, y: int)
    ensures Affine(x, y) <==> Cong(U(y), V(y) * (x * x))
  {
  }

  /** On the curve d y^2 + 1 is not 0, or y^2 == 1 would make it d + 1. */
  lemma VNonzero(x: int, y: int)
    requires Affine(x, y)
    ensures !Cong(V(y), 0)
  {
    if Cong(V(y), 0) {
      VZero(x, y);
      NotMinusOne();
    }
  }

  lemma VZero(x: int, y: int)
    requires Affine(x, y) && Cong(V(y), 0)
    ensures Cong(D + 1, 0)
  {
    hide Cong, D;
    TimesZero(V(y), x * x);
    CongTrans(U(y), V(y) * (x * x), 0);
    TimesZero(U(y), D);
    CongAdd(V(y), 0, U(y) * D, 0);
    assert V(y) - U(y) * D == D + 1;
  }

  /** Decoding succeeds exactly for the y of a point. */
  lemma DecodableIff(y: int)
    requires Fermat()
    ensures Decodable(y) <==> exists x :: Affine(x, y)
  {
    if x :| Affine(x, y) {
      CandidateFinds(y, x);
    }
    if Decodable(y) {
      var x := TriedIsRoot(y);
    }
  }

  lemma TriedIsRoot(y: int) returns (x: int)
    requires Decodable(y)
    ensures x == Tried(U(y), V(y)) && Affine(x, y)
  {
    hide Cong, Candidate, U, V, SQRTM1;
    var k, u, v := Candidate(U(y), V(y)), U(y), V(y);
    x := Tried(u, v);
    AffineIs(x, y);
    if Cong(v * (k * k), u) {
      CongSym(v * (k * k), u);
    } else {
      RootOfMinusOne();
      var i := SQRTM1;
      CongMul(v * (k * k), -u, i * i, -1);
      Interchange(k, i, k, i);
      Regroup(v, k * k, i * i);
      assert -u * -1 == u;
      CongSym(v * (k * i * (k * i)), u);
    }
  }

  lemma OppositeParity(x: int)
    requires !Cong(x, 0)
    ensures -x % P % 2 != x % P % 2
  {
    var r := x % P;
    assert x == x / P * P + r;
    CongIsMod(x, 0);
    Remainder(0, 0);
    Remainder(-(x / P) - 1, P - r);
    assert -x == (-(x / P) - 1) * P + (P - r);
  }
}
