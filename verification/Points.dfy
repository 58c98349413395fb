/** Point arithmetic in extended coordinates (third-party/ed25519/ge.c), against the formulas of
    section 5.1.4 of RFC 8032. */
module Points {
  import opened MachineInts
  import opened FieldElement
  import opened FieldMul
  import opened FieldOps

  // ---- RFC 8032, section 5.1.4 ----

  /** X, Y, Z and T with x = X/Z, y = Y/Z and xy = T/Z. */
  datatype Point = Point(x: int, y: int, z: int, t: int)

  /** The values E, F, G and H that both formulas end with. */
  datatype Parts = Parts(e: int, f: int, g: int, h: int)

  ghost function Combine(s: Parts): Point
  {
    Point(s.e * s.f, s.g * s.h, s.f * s.g, s.e * s.h)
  }

  ghost function AddParts(p: Point, q: Point, d: int): Parts
  {
    var a := (p.y - p.x) * (q.y - q.x);
    var b := (p.y + p.x) * (q.y + q.x);
    var c := p.t * (2 * d * q.t);
    var z := p.z * (2 * q.z);
    Parts(b - a, z - c, z + c, b + a)
  }

  ghost function DoubleParts(p: Point): Parts
  {
    var a, b, c := p.x * p.x, p.y * p.y, 2 * (p.z * p.z);
    var h := a + b;
    var g := a - b;
    Parts(h - (p.x + p.y) * (p.x + p.y), c + g, g, h)
  }

  ghost function Negated(p: Point): Point
  {
    Point(-p.x, p.y, p.z, -p.t)
  }

  /** Equal coordinates in the field. */
  ghost predicate Same(p: Point, q: Point)
  {
    Cong(p.x, q.x) && Cong(p.y, q.y) && Cong(p.z, q.z) && Cong(p.t, q.t)
  }

  /** The fourth coordinate is what it should be. */
  ghost predicate Extended(p: Point)
  {
    Cong(p.x * p.y, p.z * p.t)
  }

  // ---- Structures of four field elements ----

  /** `ge_p3` and `ge_p1p1`; also `ge_cached`, as Y+X, Y-X, Z and 2dT in this order. */
  class Quad {
    const X: array<int32>
    const Y: array<int32>
    const Z: array<int32>
    const T: array<int32>

    constructor ()
      ensures Valid() && fresh(X) && fresh(Y) && fresh(Z) && fresh(T)
    {
      X, Y, Z, T := new int32[10], new int32[10], new int32[10], new int32[10];
    }

    ghost predicate Valid()
    {
      && X.Length == Y.Length == Z.Length == T.Length == 10
      && X != Y && X != Z && X != T && Y != Z && Y != T && Z != T
    }

    ghost predicate Apart(q: Quad)
    {
      && X != q.X && X != q.Y && X != q.Z && X != q.T
      && Y != q.X && Y != q.Y && Y != q.Z && Y != q.T
      && Z != q.X && Z != q.Y && Z != q.Z && Z != q.T
      && T != q.X && T != q.Y && T != q.Z && T != q.T
    }

    ghost predicate AllTight()
      requires Valid()
      reads X, Y, Z, T
    {
      Tight(X[..]) && Tight(Y[..]) && Tight(Z[..]) && Tight(T[..])
    }

    ghost predicate AllLoose()
      requires Valid()
      reads X, Y, Z, T
    {
      Loose(X[..]) && Loose(Y[..]) && Loose(Z[..]) && Loose(T[..])
    }

    /** As a `ge_p3`. */
    ghost function Coordinates(): Point
      requires Valid()
      reads X, Y, Z, T
    {
      Point(Val(X[..]), Val(Y[..]), Val(Z[..]), Val(T[..]))
    }

    /** As a `ge_p1p1`: X is E, Y is H, Z is G and T is F. */
    ghost predicate Completes(s: Parts)
      requires Valid()
      reads X, Y, Z, T
    {
      Cong(Val(X[..]), s.e) && Cong(Val(T[..]), s.f) && Cong(Val(Z[..]), s.g) && Cong(Val(Y[..]), s.h)
    }

    /** As a `ge_cached` of the point q; a `ge_precomp` is the same with Z == 1. */
    ghost predicate Caches(q: Point, d: int)
      requires Valid()
      reads X, Y, Z, T
    {
      && Cong(Val(X[..]), q.y + q.x) && Cong(Val(Y[..]), q.y - q.x)
      && Cong(Val(Z[..]), q.z) && Cong(Val(T[..]), 2 * d * q.t)
    }
  }

  // ---- Contracts of the field operations, on values ----

  /** a holds the element v, with even and odd limbs within n times the tight bounds. */
  ghost predicate Is(a: array<int32>, v: int, n: int)
    reads a
  {
    Within(a[..], n * 33889976, n * 16944988) && Cong(Val(a[..]), v)
  }

  method MulIs(h: array<int32>, f: array<int32>, g: array<int32>, ghost v: int, ghost w: int)
    requires h.Length == f.Length == g.Length == 10
    requires Loose(f[..]) && Cong(Val(f[..]), v) && Loose(g[..]) && Cong(Val(g[..]), w)
    modifies h
    ensures Is(h, v * w, 1)
  {
    ghost var x, y := Val(f[..]), Val(g[..]);
    Mul(h, f, g);
    CongMul(x, v, y, w);
    CongTrans(Val(h[..]), x * y, v * w);
  }

  method SqIs(h: array<int32>, f: array<int32>, ghost v: int)
    requires h.Length == f.Length == 10 && Loose(f[..]) && Cong(Val(f[..]), v)
    modifies h
    ensures Is(h, v * v, 1)
  {
    ghost var x := Val(f[..]);
    Sq(h, f);
    CongMul(x, v, x, v);
    CongTrans(Val(h[..]), x * x, v * v);
  }

  method Sq2Is(h: array<int32>, f: array<int32>, ghost v: int)
    requires h.Length == f.Length == 10 && Loose(f[..]) && Cong(Val(f[..]), v)
    modifies h
    ensures Is(h, 2 * (v * v), 1)
  {
    ghost var x := Val(f[..]);
    Sq2(h, f);
    CongMul(x, v, x, v);
    CongAdd(x * x, v * v, x * x, v * v);
    CongTrans(Val(h[..]), 2 * (x * x), 2 * (v * v));
  }

  method AddIs(h: array<int32>, f: array<int32>, g: array<int32>, ghost v: int, ghost m: int, ghost w: int, ghost n: int)
    requires h.Length == f.Length == g.Length == 10 && Is(f, v, m) && Is(g, w, n) && 1 <= m && 1 <= n && m + n <= 3
    modifies h
    ensures Is(h, v + w, m + n)
  {
    ghost var x, y := Val(f[..]), Val(g[..]);
    Add(h, f, g, m * 33889976, m * 16944988, n * 33889976, n * 16944988);
    CongAdd(x, v, y, w);
  }

  method SubIs(h: array<int32>, f: array<int32>, g: array<int32>, ghost v: int, ghost m: int, ghost w: int, ghost n: int)
    requires h.Length == f.Length == g.Length == 10 && Is(f, v, m) && Is(g, w, n) && 1 <= m && 1 <= n && m + n <= 3
    modifies h
    ensures Is(h, v - w, m + n)
  {
    ghost var x, y := Val(f[..]), Val(g[..]);
    Sub(h, f, g, m * 33889976, m * 16944988, n * 33889976, n * 16944988);
    CongAdd(x, v, y, w);
  }

  // ---- Addition ----

  /** The sums and differences that end the four additions: E, H, and D + C and D - C in either order. */
  method Finish(r: Quad, t0: array<int32>, ghost a: int, ghost b: int, ghost c: int, ghost z: int, plus: bool)
    requires r.Valid() && t0.Length == 10 && t0 != r.X && t0 != r.Y && t0 != r.Z && t0 != r.T
    requires Is(r.Z, b, 1) && Is(r.Y, a, 1) && Is(r.T, c, 1) && Is(t0, z, 2)
    modifies r.X, r.Y, r.Z, r.T
    ensures r.AllLoose() && r.Completes(if plus then Parts(b - a, z - c, z + c, b + a) else Parts(b - a, z + c,
        z - c, b + a))
  {
    SubIs(r.X, r.Z, r.Y, b, 1, a, 1);
    AddIs(r.Y, r.Z, r.Y, b, 1, a, 1);
    if plus {
      AddIs(r.Z, t0, r.T, z, 2, c, 1);
      SubIs(r.T, t0, r.T, z, 2, c, 1);
    } else {
      SubIs(r.Z, t0, r.T, z, 2, c, 1);
      AddIs(r.T, t0, r.T, z, 2, c, 1);
    }
  }

  /** The products of (Y+X) and (Y-X) with u and v, and of T with w. */
  method Products(r: Quad, p: Quad, u: array<int32>, v: array<int32>, w: array<int32>,
                  ghost u0: int, ghost v0: int, ghost w0: int)
    requires r.Valid() && p.Valid() && r.Apart(p) && p.AllTight()
    requires u.Length == v.Length == w.Length == 10 && Loose(u[..]) && Loose(v[..]) && Loose(w[..])
    requires Cong(Val(u[..]), u0) && Cong(Val(v[..]), v0) && Cong(Val(w[..]), w0)
    requires u !in {r.X, r.Y, r.Z, r.T} && v !in {r.X, r.Y, r.Z, r.T} && w !in {r.X, r.Y, r.Z, r.T}
    modifies r.X, r.Y, r.Z, r.T
    ensures var o := p.Coordinates();
      Is(r.Z, (o.y + o.x) * u0, 1) && Is(r.Y, (o.y - o.x) * v0, 1) && Is(r.T, w0 * o.t, 1)
  {
    ghost var o := p.Coordinates();
    CongSelf(o.x);
    CongSelf(o.y);
    CongSelf(o.t);
    AddIs(r.X, p.Y, p.X, o.y, 1, o.x, 1);
    SubIs(r.Y, p.Y, p.X, o.y, 1, o.x, 1);
    MulIs(r.Z, r.X, u, o.y + o.x, u0);
    MulIs(r.Y, r.Y, v, o.y - o.x, v0);
    MulIs(r.T, w, p.T, w0, o.t);
  }

  /** t0 = 2 * (Z times z). */
  method TwiceProduct(t0: array<int32>, r: Quad, p: Quad, z: array<int32>, ghost z0: int)
    requires r.Valid() && p.Valid() && r.Apart(p) && p.AllTight()
    requires z.Length == t0.Length == 10 && Loose(z[..]) && Cong(Val(z[..]), z0)
    requires t0 !in {r.X, r.Y, r.Z, r.T, p.X, p.Y, p.Z, p.T}
    modifies t0, r.X
    ensures Is(t0, 2 * (Val(p.Z[..]) * z0), 2)
  {
    ghost var o := Val(p.Z[..]);
    CongSelf(o);
    MulIs(r.X, p.Z, z, o, z0);
    AddIs(t0, r.X, r.X, o * z0, 1, o * z0, 1);
  }

  /** The four terms, named. */
  lemma Terms(o: Point, c: Point, d: int) returns (a: int, b: int, k: int, z: int)
    ensures a == (o.y - o.x) * (c.y - c.x) && b == (o.y + o.x) * (c.y + c.x)
    ensures k == 2 * d * c.t * o.t && z == 2 * (o.z * c.z)
    ensures AddParts(o, c, d) == Parts(b - a, z - k, z + k, b + a)
  {
    a, b, k, z := (o.y - o.x) * (c.y - c.x), (o.y + o.x) * (c.y + c.x), 2 * d * c.t * o.t, 2 * (o.z * c.z);
    assert k == o.t * (2 * d * c.t) && z == o.z * (2 * c.z);
  }

  lemma TermsOfNegated(o: Point, c: Point, d: int) returns (a: int, b: int, k: int, z: int)
    ensures a == (o.y - o.x) * (c.y + c.x) && b == (o.y + o.x) * (c.y - c.x)
    ensures k == 2 * d * c.t * o.t && z == 2 * (o.z * c.z)
    ensures AddParts(o, Negated(c), d) == Parts(b - a, z + k, z - k, b + a)
  {
    var k0;
    a, b, k0, z := Terms(o, Negated(c), d);
    k := 2 * d * c.t * o.t;
    assert 2 * d * -c.t == -(2 * d * c.t);
  }

  /** `ge_add`. */
  method GeAdd(r: Quad, p: Quad, q: Quad, ghost c: Point, ghost d: int)
    requires r.Valid() && p.Valid() && q.Valid() && r.Apart(p) && r.Apart(q)
    requires p.AllTight() && q.AllLoose() && q.Caches(c, d)
    modifies r.X, r.Y, r.Z, r.T
    ensures r.AllLoose() && r.Completes(AddParts(p.Coordinates(), c, d))
  {
    ghost var a, b, k, z := Terms(p.Coordinates(), c, d);
    Products(r, p, q.X, q.Y, q.T, c.y + c.x, c.y - c.x, 2 * d * c.t);
    var t0 := new int32[10];
    TwiceProduct(t0, r, p, q.Z, c.z);
    Finish(r, t0, a, b, k, z, true);
  }

  /** `ge_sub`. */
  method GeSub(r: Quad, p: Quad, q: Quad, ghost c: Point, ghost d: int)
    requires r.Valid() && p.Valid() && q.Valid() && r.Apart(p) && r.Apart(q)
    requires p.AllTight() && q.AllLoose() && q.Caches(c, d)
    modifies r.X, r.Y, r.Z, r.T
    ensures r.AllLoose() && r.Completes(AddParts(p.Coordinates(), Negated(c), d))
  {
    ghost var a, b, k, z := TermsOfNegated(p.Coordinates(), c, d);
    Products(r, p, q.Y, q.X, q.T, c.y - c.x, c.y + c.x, 2 * d * c.t);
    var t0 := new int32[10];
    TwiceProduct(t0, r, p, q.Z, c.z);
    Finish(r, t0, a, b, k, z, false);
  }

  /** `fe_add(t0, p->Z, p->Z)`, for a precomputed point with Z == 1. */
  method TwiceZ(t0: array<int32>, p: Quad)
    requires p.Valid() && p.AllTight() && t0.Length == 10 && t0 !in {p.X, p.Y, p.Z, p.T}
    modifies t0
    ensures Is(t0, 2 * (Val(p.Z[..]) * 1), 2)
  {
    ghost var o := Val(p.Z[..]);
    CongSelf(o);
    AddIs(t0, p.Z, p.Z, o, 1, o, 1);
  }

  /** `ge_madd`. */
  method GeMadd(r: Quad, p: Quad, q: Quad, ghost c: Point, ghost d: int)
    requires r.Valid() && p.Valid() && q.Valid() && r.Apart(p) && r.Apart(q)
    requires p.AllTight() && q.AllLoose() && q.Caches(c, d) && c.z == 1
    modifies r.X, r.Y, r.Z, r.T
    ensures r.AllLoose() && r.Completes(AddParts(p.Coordinates(), c, d))
  {
    ghost var a, b, k, z := Terms(p.Coordinates(), c, d);
    Products(r, p, q.X, q.Y, q.T, c.y + c.x, c.y - c.x, 2 * d * c.t);
    var t0 := new int32[10];
    TwiceZ(t0, p);
    Finish(r, t0, a, b, k, z, true);
  }

  /** `ge_msub`. */
  method GeMsub(r: Quad, p: Quad, q: Quad, ghost c: Point, ghost d: int)
    requires r.Valid() && p.Valid() && q.Valid() && r.Apart(p) && r.Apart(q)
    requires p.AllTight() && q.AllLoose() && q.Caches(c, d) && c.z == 1
    modifies r.X, r.Y, r.Z, r.T
    ensures r.AllLoose() && r.Completes(AddParts(p.Coordinates(), Negated(c), d))
  {
    ghost var a, b, k, z := TermsOfNegated(p.Coordinates(), c, d);
    Products(r, p, q.Y, q.X, q.T, c.y - c.x, c.y + c.x, 2 * d * c.t);
    var t0 := new int32[10];
    TwiceZ(t0, p);
    Finish(r, t0, a, b, k, z, false);
  }

  // ---- Doubling ----

  /** `ge_p2_dbl`. All of E, G and H come out with the sign of RFC 8032's formula for E and G
      flipped, which negates the four coordinates and leaves the point as it is. */
  method GeDouble(r: Quad, p: Quad)
    requires r.Valid() && p.Valid() && r.Apart(p) && p.AllTight()
    modifies r.X, r.Y, r.Z, r.T
    ensures r.AllLoose()
    ensures var s := DoubleParts(p.Coordinates()); r.Completes(Parts(-s.e, s.f, -s.g, s.h))
  {
    ghost var o := p.Coordinates();
    ghost var a, b, c, m := DoubleTerms(o);
    CongSelf(o.x);
    CongSelf(o.y);
    CongSelf(o.z);
    var t0 := new int32[10];
    SqIs(r.X, p.X, o.x);
    SqIs(r.Z, p.Y, o.y);
    Sq2Is(r.T, p.Z, o.z);
    AddIs(r.Y, p.X, p.Y, o.x, 1, o.y, 1);
    SqIs(t0, r.Y, o.x + o.y);
    FinishDouble(r, t0, a, b, c, m);
  }

  lemma DoubleTerms(o: Point) returns (a: int, b: int, c: int, m: int)
    ensures a == o.x * o.x && b == o.y * o.y && c == 2 * (o.z * o.z) && m == (o.x + o.y) * (o.x + o.y)
    ensures DoubleParts(o) == Parts(a + b - m, c + (a - b), a - b, a + b)
  {
    a, b, c, m := o.x * o.x, o.y * o.y, 2 * (o.z * o.z), (o.x + o.y) * (o.x + o.y);
  }

  method FinishDouble(r: Quad, t0: array<int32>, ghost a: int, ghost b: int, ghost c: int, ghost m: int)
    requires r.Valid() && t0.Length == 10 && t0 != r.X && t0 != r.Y && t0 != r.Z && t0 != r.T
    requires Is(r.X, a, 1) && Is(r.Z, b, 1) && Is(r.T, c, 1) && Is(t0, m, 1)
    modifies r.X, r.Y, r.Z, r.T
    ensures r.AllLoose() && r.Completes(Parts(m - (b + a), c - (b - a), b - a, b + a))
  {
    AddIs(r.Y, r.Z, r.X, b, 1, a, 1);
    SubIs(r.Z, r.Z, r.X, b, 1, a, 1);
    SubIs(r.X, t0, r.Y, m, 1, b + a, 2);
    SubIs(r.T, r.T, r.Z, c, 1, b - a, 2);
  }

  // ---- Conversions ----

  /** `ge_p1p1_to_p3`, and with T left out `ge_p1p1_to_p2`. */
  method ToP3(r: Quad, p: Quad, ghost s: Parts)
    requires r.Valid() && p.Valid() && r.Apart(p) && p.AllLoose() && p.Completes(s)
    modifies r.X, r.Y, r.Z, r.T
    ensures r.AllTight() && Same(r.Coordinates(), Combine(s)) && Extended(r.Coordinates())
  {
    MulIs(r.X, p.X, p.T, s.e, s.f);
    MulIs(r.Y, p.Y, p.Z, s.h, s.g);
    MulIs(r.Z, p.Z, p.T, s.g, s.f);
    MulIs(r.T, p.X, p.Y, s.e, s.h);
    Converted(r.Coordinates(), s);
  }

  lemma Converted(p: Point, s: Parts)
    requires Cong(p.x, s.e * s.f) && Cong(p.y, s.h * s.g) && Cong(p.z, s.g * s.f) && Cong(p.t, s.e * s.h)
    ensures Same(p, Combine(s)) && Extended(p)
  {
    assert s.h * s.g == s.g * s.h && s.g * s.f == s.f * s.g;
    CrossProducts(s.e, s.f, s.g, s.h);
    SameExtended(p, Combine(s));
  }

  lemma CrossProducts(e: int, f: int, g: int, h: int)
    ensures e * f * (g * h) == f * g * (e * h)
  {
    assert e * f * (g * h) == e * (f * (g * h)) == e * (f * g * h) == f * g * (e * h);
  }

  /** What `Combine` returns satisfies XY = ZT. */
  lemma SameExtended(p: Point, q: Point)
    requires Same(p, q) && q.x * q.y == q.z * q.t
    ensures Extended(p)
  {
    CongMul(p.x, q.x, p.y, q.y);
    CongMul(p.z, q.z, p.t, q.t);
    CongSym(p.z * p.t, q.z * q.t);
    CongTrans(p.x * p.y, q.x * q.y, p.z * p.t);
  }

  // ---- What the formulas compute ----

  /** r is the sum of p and q on the twisted Edwards curve: with x = X/Z and y = Y/Z,
      x = (x1 y2 + y1 x2) / (1 + d x1 x2 y1 y2) and y = (y1 y2 + x1 x2) / (1 - d x1 x2 y1 y2). */
  ghost predicate IsSum(r: Point, p: Point, q: Point, d: int)
  {
    var w, v := p.z * q.z, p.x * p.y * (q.x * q.y);
    && Cong(r.x * (w * w + d * v), r.z * ((p.x * q.y + p.y * q.x) * w))
    && Cong(r.y * (w * w - d * v), r.z * ((p.y * q.y + p.x * q.x) * w))
  }

  /** -x^2 + y^2 = 1 + d x^2 y^2 */
  ghost predicate OnCurve(p: Point, d: int)
  {
    var w := p.z * p.z;
    Cong((p.y * p.y - p.x * p.x) * w, w * w + d * (p.x * p.y * (p.x * p.y)))
  }

  /** e * f * (w^2 + dv) == f * g * mw, where e = 2m, g = 2w + 2du and wu == v. */
  lemma Fraction(e: int, f: int, g: int, m: int, w: int, u: int, v: int, d: int)
    requires e == 2 * m && g == 2 * w + 2 * (d * u) && Cong(w * u, v)
    ensures Cong(e * f * (w * w + d * v), f * g * (m * w))
  {
    hide Cong;
    var x, s := e * f, w + d * u;
    CongSelf(d);
    CongMul(d, d, w * u, v);
    CongSelf(w * w);
    CongAdd(w * w, w * w, d * (w * u), d * v);
    CongSelf(x);
    CongMul(x, x, w * w + d * (w * u), w * w + d * v);
    assert w * w + d * (w * u) == w * s by {
      assert d * (w * u) == w * (d * u);
    }
    TwoHalves(f, m, w, s);
    CongSym(x * (w * s), x * (w * w + d * v));
  }

  lemma TwoHalves(f: int, m: int, w: int, s: int)
    ensures 2 * m * f * (w * s) == f * (2 * s) * (m * w)
  {
    assert m * f * (w * s) == m * f * w * s == f * s * (m * w);
  }

  /** On extended points the formulas of section 5.1.4 add. */
  lemma AdditionLaw(p: Point, q: Point, d: int)
    requires Extended(p) && Extended(q)
    ensures IsSum(Combine(AddParts(p, q, d)), p, q, d)
  {
    var s := AddParts(p, q, d);
    var w, u, v := p.z * q.z, p.t * q.t, p.x * p.y * (q.x * q.y);
    var m, n := p.x * q.y + p.y * q.x, p.y * q.y + p.x * q.x;
    CongMul(p.x * p.y, p.z * p.t, q.x * q.y, q.z * q.t);
    Interchange(p.z, p.t, q.z, q.t);
    CongSym(v, w * u);
    Expand(p, q, d);
    Fraction(s.e, s.f, s.g, m, w, u, v, d);
    assert s.g == 2 * w + 2 * (d * u) && s.f == 2 * w + 2 * (-d * u) && -d * v == -(d * v);
    Fraction(s.h, s.g, s.f, n, w, u, v, -d);
    Commute(s.f, s.g, s.h, n * w);
  }

  lemma Commute(f: int, g: int, h: int, x: int)
    ensures h * g == g * h && g * f == f * g
  {
  }

  lemma Expand(p: Point, q: Point, d: int)
    ensures var s := AddParts(p, q, d);
      && s.e == 2 * (p.x * q.y + p.y * q.x) && s.h == 2 * (p.y * q.y + p.x * q.x)
      && s.g == 2 * (p.z * q.z) + 2 * (d * (p.t * q.t)) && s.f == 2 * (p.z * q.z) - 2 * (d * (p.t * q.t))
  {
    CrossTerms(p.x, p.y, q.x, q.y);
    assert p.t * (2 * d * q.t) == 2 * (d * (p.t * q.t));
  }

  lemma CrossTerms(x: int, y: int, u: int, v: int)
    ensures (y + x) * (v + u) - (y - x) * (v - u) == 2 * (x * v + y * u)
    ensures (y + x) * (v + u) + (y - x) * (v - u) == 2 * (y * v + x * u)
  {
    assert (y + x) * (v + u) == y * v + y * u + x * v + x * u;
    assert (y - x) * (v - u) == y * v - y * u - x * v + x * u;
  }

  /** On the curve the doubling formula adds a point to itself. */
  lemma DoublingLaw(p: Point, d: int)
    requires OnCurve(p, d)
    ensures IsSum(Combine(DoubleParts(p)), p, p, d)
  {
    hide Cong;
    var s := DoubleParts(p);
    var w, v := p.z * p.z, p.x * p.y * (p.x * p.y);
    var k := Quotient((p.y * p.y - p.x * p.x) * w, w * w + d * v);
    Square(p.x, p.y);
    var g, dv := s.g, d * v;
    assert -g * w == w * w + dv + k * P;
    assert p.x * p.y == p.y * p.x;
    // x: e * f * (-gw) == f * g * (-ew)
    var m := 2 * (p.x * p.y);
    assert s.e == -m;
    Rearrange(s.e, s.f, g, w, k);
    assert p.x * p.y + p.y * p.x == m;
    Congruent(s.e * s.f * (w * w + dv), s.f * g * (m * w), -(s.e * s.f * k));
    // y: g * h * (fw) == f * g * (hw)
    assert s.f == 2 * w + g;
    assert w * w - dv == s.f * w + k * P by {
      assert (2 * w + g) * w == 2 * (w * w) + g * w;
    }
    Rearrange2(s.f, g, s.h, w, k);
    Congruent(g * s.h * (w * w - dv), s.f * g * (s.h * w), g * s.h * k);
    assert p.y * p.y + p.x * p.x == s.h;
  }

  lemma Square(x: int, y: int)
    ensures x * x + y * y - (x + y) * (x + y) == -(2 * (x * y))
  {
  }

  lemma Rearrange(e: int, f: int, g: int, w: int, k: int)
    ensures e * f * (-g * w - k * P) == f * g * (-e * w) - e * f * k * P
  {
    var x := e * f;
    assert x * (-g * w - k * P) == x * (-g * w) - x * (k * P);
    assert x * (k * P) == x * k * P;
    assert e * f * (-g * w) == -(e * f * (g * w)) && f * g * (-e * w) == -(f * g * (e * w));
    Interchange(f, e, g, w);
    assert e * f == f * e && f * g * (e * w) == f * e * (g * w) by { Interchange(f, g, e, w); }
  }

  lemma Rearrange2(f: int, g: int, h: int, w: int, k: int)
    ensures g * h * (f * w + k * P) == f * g * (h * w) + g * h * k * P
  {
    var x := g * h;
    assert x * (f * w + k * P) == x * (f * w) + x * (k * P);
    assert x * (k * P) == x * k * P;
    Interchange(g, h, f, w);
    assert g * f == f * g;
  }

  /** The sum does not depend on which representatives its coordinates are. */
  lemma SumOfSame(r: Point, s: Point, p: Point, q: Point, d: int)
    requires Same(r, s) && IsSum(s, p, q, d)
    ensures IsSum(r, p, q, d)
  {
    var w, v := p.z * q.z, p.x * p.y * (q.x * q.y);
    SameRatio(r.x, s.x, r.z, s.z, w * w + d * v, (p.x * q.y + p.y * q.x) * w);
    SameRatio(r.y, s.y, r.z, s.z, w * w - d * v, (p.y * q.y + p.x * q.x) * w);
  }

  lemma SameRatio(x: int, y: int, u: int, v: int, a: int, b: int)
    requires Cong(x, y) && Cong(u, v) && Cong(y * a, v * b)
    ensures Cong(x * a, u * b)
  {
    CongSelf(a);
    CongSelf(b);
    CongMul(x, y, a, a);
    CongMul(u, v, b, b);
    CongSym(u * b, v * b);
    CongTrans(x * a, y * a, v * b);
    CongTrans(x * a, v * b, u * b);
  }

  /** Negating all four coordinates leaves the point where it is. */
  lemma SumOfNegatives(s: Point, p: Point, q: Point, d: int)
    requires IsSum(s, p, q, d)
    ensures IsSum(Point(-s.x, -s.y, -s.z, -s.t), p, q, d)
  {
    var w, v := p.z * q.z, p.x * p.y * (q.x * q.y);
    NegativeRatio(s.x, s.z, w * w + d * v, (p.x * q.y + p.y * q.x) * w);
    NegativeRatio(s.y, s.z, w * w - d * v, (p.y * q.y + p.x * q.x) * w);
  }

  lemma NegativeRatio(x: int, z: int, a: int, b: int)
    requires Cong(x * a, z * b)
    ensures Cong(-x * a, -z * b)
  {
    CongSelf(0);
    CongAdd(0, 0, x * a, z * b);
    assert -x * a == 0 - x * a && -z * b == 0 - z * b;
  }

  lemma NegatedParts(s: Parts)
    ensures var r := Combine(s); Combine(Parts(-s.e, s.f, -s.g, s.h)) == Point(-r.x, -r.y, -r.z, -r.t)
  {
    assert -s.e * s.f == -(s.e * s.f) && -s.g * s.h == -(s.g * s.h);
    assert s.f * -s.g == -(s.f * s.g) && -s.e * s.h == -(s.e * s.h);
  }

  // ---- The curve, and the compositions the scalar multiplications are made of ----

  /** The limbs of d and of 2d in ge.c. */
  const D_LIMBS: seq<int32> := [-10913610, 13857413, -15372611, 6949391, 114729, -8787816, -6275908, -3247719,
      -18696448, -12055116]
  const D2_LIMBS: seq<int32> := [-21827239, -5839606, -30745221, 13898782, 229458, 15978800, -12551817, -6495438,
      29715968, 9444199]

  ghost const D: int := CurveParameter()

  const D_VALUE: int := 0x52036cee2b6ffe738cc740797779e89800700a4d4141d8ab75eb4dca135978a3

  /** The residue that 121666 times is -121665. */
  ghost function CurveParameter(): (d: int)
    ensures Cong(121666 * d, -121665)
  {
    ParameterExists();
    var d :| Cong(121666 * d, -121665);
    d
  }

  lemma ParameterExists()
    ensures Cong(121666 * D_VALUE, -121665)
  {
    Congruent(121666 * D_VALUE, -121665, 77955);
  }

  /** 1 / 121666 */
  const INVERSE: int := 0x52036cee2b6ffe738cc740797779e89800700a4d4141d8ab75eb4dca135978a4

  lemma ParameterIs()
    ensures Cong(D, D_VALUE)
  {
    ParameterExists();
    SameParameter(D, D_VALUE);
  }

  lemma SameParameter(d: int, e: int)
    requires Cong(121666 * d, -121665) && Cong(121666 * e, -121665)
    ensures Cong(d, e)
  {
    Congruent(121666 * INVERSE, 1, 77955);
    hide Cong, INVERSE;
    CongSym(121666 * e, -121665);
    CongTrans(121666 * d, -121665, 121666 * e);
    CancelUnit(121666, INVERSE, d, e);
  }

  lemma CancelUnit(c: int, i: int, d: int, e: int)
    requires Cong(c * i, 1) && Cong(c * d, c * e)
    ensures Cong(d, e)
  {
    hide Cong;
    CongSelf(i);
    CongMul(i, i, c * d, c * e);
    CongSelf(d);
    CongSelf(e);
    CongMul(c * i, 1, d, d);
    CongMul(c * i, 1, e, e);
    assert i * (c * d) == c * i * d && i * (c * e) == c * i * e;
    CongSym(c * i * d, d);
    CongTrans(d, i * (c * d), i * (c * e));
    CongTrans(d, i * (c * e), e);
  }

  lemma NotMinusOne()
    ensures !Cong(D + 1, 0)
  {
    if Cong(D + 1, 0) {
      ParameterIs();
      CongIsMod(D + 1, 0);
      CongIsMod(D, D_VALUE);
      CongSelf(1);
      CongAdd(D, D_VALUE, 1, 1);
      CongIsMod(D + 1, D_VALUE + 1);
    }
  }

  /** The constants are those of edwards25519: d = -121665/121666, and its double. */
  lemma CurveConstants()
    ensures Cong(Val(D_LIMBS), D) && Cong(121666 * D, -121665) && Cong(Val(D2_LIMBS), 2 * D)
    ensures Tight(D_LIMBS) && Tight(D2_LIMBS)
  {
    ParameterIs();
    LimbsOfD();
    CongSym(D, D_VALUE);
    CongTrans(Val(D_LIMBS), D_VALUE, D);
    CongAdd(D_VALUE, D, D_VALUE, D);
    CongTrans(Val(D2_LIMBS), 2 * D_VALUE, 2 * D);
  }

  lemma LimbsOfD()
    ensures Cong(Val(D_LIMBS), D_VALUE) && Cong(Val(D2_LIMBS), 2 * D_VALUE)
    ensures Tight(D_LIMBS) && Tight(D2_LIMBS)
  {
    ValIsWeighted(D_LIMBS);
    Congruent(Val(D_LIMBS), D_VALUE, -1);
    ValIsWeighted(D2_LIMBS);
    Congruent(Val(D2_LIMBS), 2 * D_VALUE, -1);
  }

  /** `ge_p3_to_cached`. */
  method ToCached(r: Quad, p: Quad)
    requires r.Valid() && p.Valid() && r.Apart(p) && p.AllTight()
    modifies r.X, r.Y, r.Z, r.T
    ensures r.AllLoose() && r.Caches(p.Coordinates(), D)
  {
    var d2 := new int32[10];
    Store(d2, D2_LIMBS);
    CurveConstants();
    ghost var o := p.Coordinates();
    CongSelf(o.x);
    CongSelf(o.y);
    CongSelf(o.z);
    CongSelf(o.t);
    AddIs(r.X, p.Y, p.X, o.y, 1, o.x, 1);
    SubIs(r.Y, p.Y, p.X, o.y, 1, o.x, 1);
    Copy(r.Z, p.Z);
    MulIs(r.T, p.T, d2, o.t, 2 * D);
    assert o.t * (2 * D) == 2 * D * o.t;
  }

  /** `ge_add` or `ge_madd`, then `ge_p1p1_to_p3`; r may be p. */
  method Add3(r: Quad, p: Quad, q: Quad, mixed: bool, ghost c: Point)
    requires r.Valid() && p.Valid() && q.Valid() && p.AllTight() && q.AllLoose() && q.Caches(c, D)
    requires Extended(p.Coordinates()) && Extended(c) && (mixed ==> c.z == 1)
    modifies r.X, r.Y, r.Z, r.T
    ensures r.AllTight() && Extended(r.Coordinates()) && IsSum(r.Coordinates(), old(p.Coordinates()), c, D)
  {
    var t := new Quad();
    ghost var o := p.Coordinates();
    if mixed {
      GeMadd(t, p, q, c, D);
    } else {
      GeAdd(t, p, q, c, D);
    }
    ghost var s := AddParts(o, c, D);
    AdditionLaw(o, c, D);
    ToP3(r, t, s);
    SumOfSame(r.Coordinates(), Combine(s), o, c, D);
  }

  /** `ge_sub` or `ge_msub`, then `ge_p1p1_to_p3`; r may be p. */
  method Sub3(r: Quad, p: Quad, q: Quad, mixed: bool, ghost c: Point)
    requires r.Valid() && p.Valid() && q.Valid() && p.AllTight() && q.AllLoose() && q.Caches(c, D)
    requires Extended(p.Coordinates()) && Extended(c) && (mixed ==> c.z == 1)
    modifies r.X, r.Y, r.Z, r.T
    ensures r.AllTight() && Extended(r.Coordinates()) && IsSum(r.Coordinates(), old(p.Coordinates()), Negated(c), D)
  {
    var t := new Quad();
    ghost var o := p.Coordinates();
    if mixed {
      GeMsub(t, p, q, c, D);
    } else {
      GeSub(t, p, q, c, D);
    }
    ghost var s := AddParts(o, Negated(c), D);
    NegatedExtended(c);
    AdditionLaw(o, Negated(c), D);
    ToP3(r, t, s);
    SumOfSame(r.Coordinates(), Combine(s), o, Negated(c), D);
  }

  lemma NegatedExtended(c: Point)
    requires Extended(c)
    ensures Extended(Negated(c))
  {
    CongSelf(0);
    CongAdd(0, 0, c.x * c.y, c.z * c.t);
    assert -c.x * c.y == 0 - c.x * c.y && c.z * -c.t == 0 - c.z * c.t;
  }

  /** `ge_p2_dbl`, then `ge_p1p1_to_p3`; r may be p. */
  method Double3(r: Quad, p: Quad)
    requires r.Valid() && p.Valid() && p.AllTight() && OnCurve(p.Coordinates(), D)
    modifies r.X, r.Y, r.Z, r.T
    ensures r.AllTight() && Extended(r.Coordinates())
    ensures IsSum(r.Coordinates(), old(p.Coordinates()), old(p.Coordinates()), D)
  {
    hide Cong, D, OnCurve, IsSum, DoubleParts;
    var t := new Quad();
    ghost var o := p.Coordinates();
    GeDouble(t, p);
    ghost var s := DoubleParts(o);
    ghost var n := Parts(-s.e, s.f, -s.g, s.h);
    ToP3(r, t, n);
    DoublingLaw(o, D);
    SumOfNegatives(Combine(s), o, o, D);
    NegatedParts(s);
    SumOfSame(r.Coordinates(), Combine(n), o, o, D);
  }
}
