/** The addition law of the twisted Edwards curve is complete: on points of the curve the divisions
    of section 5.1.4 of RFC 8032 never divide by zero, so that the formulas of
    third-party/ed25519/ge.c compute the sum of any two points. That rests on p being prime and on
    d not being a square, which `EdwardsGroup.ParameterNonSquare` shows. */
module EdwardsSum {
  import opened FieldElement
  import opened FieldOps
  import opened FieldPrime
  import opened PointCodes
  import opened PointEncoding
  import opened Points
  import EdwardsLaw

  ghost predicate NonSquare(d: int)
  {
    forall n :: !Cong(n * n, d)
  }

  /** d m^2 is a square only for m == 0. */
  lemma NoSquareMultiple(d: int, m: int, n: int)
    requires Fermat() && NonSquare(d) && Cong(d * (m * m), n * n)
    ensures Cong(m, 0)
  {
    hide Cong, Power;
    if !Cong(m, 0) {
      var w := Power(m, P_MINUS_2);
      CongMul(m * w, 1, m * w, 1);
      CongSelf(d);
      CongMul(d, d, m * w * (m * w), 1);
      CongSelf(w * w);
      CongMul(d * (m * m), n * n, w * w, w * w);
      Regroup(d, m * m, w * w);
      Interchange(m, m, w, w);
      Interchange(n, n, w, w);
      CongSym(d * (m * w * (m * w)), n * w * (n * w));
      CongTrans(n * w * (n * w), d * (m * w * (m * w)), d);
    }
  }

  /** If d a1 b1 == e z1^2 z2^2, with a for x y, then the equations of the curve combine. */
  lemma Eliminate(d: int, a: int, b: int, s: int, t: int, A: int, B: int, e: int)
    requires Cong(A * s, s * s + d * (a * a)) && Cong(B * t, t * t + d * (b * b))
    requires Cong(d * (a * b), e * (s * t)) && e * e == 1
    ensures Cong(d * (a * a) * (B * t), A * s * (t * t))
  {
    hide Cong;
    var x, y := d * (a * a), d * (b * b);
    CongSelf(x);
    CongSelf(t * t);
    CongSelf(x * (t * t));
    CongMul(x, x, B * t, t * t + y);
    CongMul(d * (a * b), e * (s * t), d * (a * b), e * (s * t));
    EdwardsLaw.SkewSquare(d, a, b);
    CrossTerm(e, s, t);
    CongAdd(x * (t * t), x * (t * t), x * y, s * s * (t * t));
    assert x * (t * t + y) == x * (t * t) + x * y;
    assert (s * s + x) * (t * t) == x * (t * t) + s * s * (t * t);
    CongMul(A * s, s * s + x, t * t, t * t);
    CongSym(A * s * (t * t), (s * s + x) * (t * t));
    CongTrans(x * (B * t), x * (t * t + y), (s * s + x) * (t * t));
    CongTrans(x * (B * t), (s * s + x) * (t * t), A * s * (t * t));
  }

  lemma CrossTerm(e: int, s: int, t: int)
    requires e * e == 1
    ensures e * (s * t) * (e * (s * t)) == s * s * (t * t)
  {
    Interchange(e, s * t, e, s * t);
    Interchange(s, t, s, t);
  }

  /** (ix + oy)^2 == y^2 - x^2 + 2oixy, for o == 1 or o == -1. */
  lemma RootSquare(i: int, x: int, y: int, o: int)
    requires Cong(i * i, -1) && o * o == 1
    ensures Cong((i * x + o * y) * (i * x + o * y), y * y - x * x + 2 * (o * (i * (x * y))))
  {
    hide Cong;
    var c := y * y + 2 * (o * (i * (x * y)));
    CongSelf(x * x);
    CongMul(i * i, -1, x * x, x * x);
    CongSelf(c);
    CongAdd(i * i * (x * x), -1 * (x * x), c, c);
    assert (i * x + o * y) * (i * x + o * y) == i * i * (x * x) + c by {
      Binomial(i * x, o * y);
      Interchange(i, x, i, x);
      Interchange(o, y, o, y);
      Interchange(i, x, o, y);
      Regroup(o, i, x * y);
      assert i * o == o * i;
    }
  }

  /** The combined equations make d m^2 a square, for two choices of m. */
  lemma Squares(d: int, i: int, p: Point, q: Point, e: int, o: int)
    requires Fermat() && Cong(i * i, -1) && OnCurve(p, d) && OnCurve(q, d) && !Cong(q.z, 0)
    requires Cong(d * (p.x * p.y * (q.x * q.y)), e * (p.z * p.z * (q.z * q.z))) && e * e == 1 && o * o == 1
    ensures var m, n := p.x * p.y * (i * q.x + o * e * q.y), (i * p.x + o * p.y) * (p.z * q.z);
      Cong(d * (m * m), n * n)
  {
    var a, b, s, t := p.x * p.y, q.x * q.y, p.z * p.z, q.z * q.z;
    var A, B := p.y * p.y - p.x * p.x, q.y * q.y - q.x * q.x;
    hide Cong;
    assert o * e * (o * e) == 1 by {
      Interchange(o, e, o, e);
    }
    Eliminate(d, a, b, s, t, A, B, e);
    ProductNonzero(q.z, q.z);
    Regroup(d * (a * a), B, t);
    Regroup(A * s, t, t);
    CancelFactor(d * (a * a) * B, A * s * t, t);
    RootSquare(i, p.x, p.y, o);
    RootSquare(i, q.x, q.y, o * e);
    SidesMeet(d, i, a, b, s, t, A, B, e, o);
    var f, g := i * p.x + o * p.y, i * q.x + o * e * q.y;
    CongSelf(s * t);
    CongSelf(d * (a * a));
    CongMul(f * f, A + 2 * (o * (i * a)), s * t, s * t);
    CongMul(d * (a * a), d * (a * a), g * g, B + 2 * (o * e * (i * b)));
    CongSym(f * f * (s * t), (A + 2 * (o * (i * a))) * (s * t));
    CongTrans(d * (a * a) * (g * g), d * (a * a) * (B + 2 * (o * e * (i * b))), (A + 2 * (o * (i * a))) * (s * t));
    CongTrans(d * (a * a) * (g * g), (A + 2 * (o * (i * a))) * (s * t), f * f * (s * t));
    Interchange(a, g, a, g);
    Regroup(d, a * a, g * g);
    Interchange(p.z, q.z, p.z, q.z);
    Interchange(f, p.z * q.z, f, p.z * q.z);
  }

  lemma SidesMeet(d: int, i: int, a: int, b: int, s: int, t: int, A: int, B: int, e: int, o: int)
    requires Cong(d * (a * a) * B, A * s * t) && Cong(d * (a * b), e * (s * t)) && e * e == 1
    ensures Cong(d * (a * a) * (B + 2 * (o * e * (i * b))), (A + 2 * (o * (i * a))) * (s * t))
  {
    hide Cong;
    var c := 2 * (o * (i * a));
    CongSelf(c * e);
    CongMul(c * e, c * e, d * (a * b), e * (s * t));
    CongAdd(d * (a * a) * B, A * s * t, c * e * (d * (a * b)), c * e * (e * (s * t)));
    assert d * (a * a) * (B + 2 * (o * e * (i * b))) == d * (a * a) * B + c * e * (d * (a * b)) by {
      MovedFactors(d, a, b, o, e, i);
    }
    assert (A + c) * (s * t) == A * s * t + c * e * (e * (s * t)) by {
      Regroup(A, s, t);
      Regroup(c, e, e * (s * t));
      Regroup(e, e, s * t);
    }
  }

  lemma MovedFactors(d: int, a: int, b: int, o: int, e: int, i: int)
    ensures d * (a * a) * (2 * (o * e * (i * b))) == 2 * (o * (i * a)) * e * (d * (a * b))
  {
    var u := o * e;
    assert d * (a * a) * (2 * (u * (i * b))) == 2 * (d * (a * a) * (u * (i * b)));
    Interchange(d, a * a, u, i * b);
    Interchange(a, a, i, b);
    assert 2 * (o * (i * a)) * e == 2 * (u * (i * a)) by {
      Regroup(o, e, i * a);
      assert o * (i * a) * e == o * e * (i * a);
    }
    Interchange(u, i * a, d, a * b);
    assert i * a == a * i && u * d == d * u;
  }

  /** So d x1 y1 x2 y2 is never z1^2 z2^2 or its negative. */
  lemma NeverMeet(d: int, p: Point, q: Point, e: int)
    requires Fermat() && NonSquare(d) && OnCurve(p, d) && OnCurve(q, d) && !Cong(p.z, 0) && !Cong(q.z, 0)
    requires e == 1 || e == -1
    ensures !Cong(d * (p.x * p.y * (q.x * q.y)), e * (p.z * p.z * (q.z * q.z)))
  {
    var a, b, s, t := p.x * p.y, q.x * q.y, p.z * p.z, q.z * q.z;
    if Cong(d * (a * b), e * (s * t)) {
      var i := SQRTM1;
      RootOfMinusOne();
      hide Cong, SQRTM1;
      var g, h := i * q.x + 1 * e * q.y, i * q.x + -1 * e * q.y;
      Squares(d, i, p, q, e, 1);
      NoSquareMultiple(d, a * g, (i * p.x + 1 * p.y) * (p.z * q.z));
      Squares(d, i, p, q, e, -1);
      NoSquareMultiple(d, a * h, (i * p.x + -1 * p.y) * (p.z * q.z));
      ProductVanishes(a, g, h, e, q.x, q.y);
      TimesZero(a * b, d);
      CongSym(d * (a * b), e * (s * t));
      CongTrans(e * (s * t), d * (a * b), 0);
      ProductNonzero(p.z, p.z);
      ProductNonzero(q.z, q.z);
      NotZero(e);
      NoZeroDivisors(e, s * t);
      NoZeroDivisors(s, t);
    }
  }

  lemma NotZero(e: int)
    requires e == 1 || e == -1
    ensures !Cong(e, 0) && !Cong(2 * e, 0)
  {
    CongIsMod(e, 0);
    CongIsMod(2 * e, 0);
  }

  lemma ProductVanishes(a: int, g: int, h: int, e: int, x: int, y: int)
    requires Fermat() && Cong(a * g, 0) && Cong(a * h, 0) && g - h == 2 * e * y && (e == 1 || e == -1)
    ensures Cong(a * (x * y), 0)
  {
    hide Cong;
    NoZeroDivisors(a, g);
    NoZeroDivisors(a, h);
    if Cong(a, 0) {
      TimesZero(a, x * y);
    } else {
      CongAdd(g, 0, h, 0);
      NotZero(e);
      NoZeroDivisors(2 * e, y);
      TimesZero(y, x);
      TimesZero(x * y, a);
    }
  }

  /** The denominators of the addition law are not zero. */
  ghost predicate Defined(p: Point, q: Point, d: int)
  {
    var w, v := p.z * q.z, p.x * p.y * (q.x * q.y);
    !Cong(w * w + d * v, 0) && !Cong(w * w - d * v, 0)
  }

  lemma Complete(d: int, p: Point, q: Point)
    requires Fermat() && NonSquare(d) && OnCurve(p, d) && OnCurve(q, d) && !Cong(p.z, 0) && !Cong(q.z, 0)
    ensures Defined(p, q, d)
  {
    hide Cong, OnCurve;
    var w, v := p.z * q.z, p.x * p.y * (q.x * q.y);
    NeverMeet(d, p, q, 1);
    NeverMeet(d, p, q, -1);
    Interchange(p.z, q.z, p.z, q.z);
    CongSelf(w * w);
    CongSelf(d * v);
    if Cong(w * w + d * v, 0) {
      CongAdd(w * w + d * v, 0, w * w, w * w);
    }
    if Cong(w * w - d * v, 0) {
      CongAdd(w * w - d * v, 0, d * v, d * v);
      CongSym(w * w, d * v);
    }
  }

  // ---- The laws as divisions ----

  /** r is the sum of p and q: x = (x1 y2 + y1 x2) / (1 + d x1 x2 y1 y2) and
      y = (y1 y2 + x1 x2) / (1 - d x1 x2 y1 y2) in projective coordinates, none of them over zero. */
  ghost predicate IsAffineSum(r: Point, p: Point, q: Point, d: int)
  {
    var w, v := p.z * q.z, p.x * p.y * (q.x * q.y);
    && !Cong(r.z, 0) && Defined(p, q, d)
    && Cong(Over(r.x, r.z), Over((p.x * q.y + p.y * q.x) * w, w * w + d * v))
    && Cong(Over(r.y, r.z), Over((p.y * q.y + p.x * q.x) * w, w * w - d * v))
  }

  lemma Divided(r: Point, p: Point, q: Point, d: int)
    requires Fermat() && Defined(p, q, d) && !Cong(r.z, 0) && IsSum(r, p, q, d)
    ensures IsAffineSum(r, p, q, d)
  {
    hide Cong, Power, Over, Unit;
    var w, v := p.z * q.z, p.x * p.y * (q.x * q.y);
    var m, n := (p.x * q.y + p.y * q.x) * w, (p.y * q.y + p.x * q.x) * w;
    assert Unit(r.z) && Unit(w * w + d * v) && Unit(w * w - d * v);
    assert r.z * m == m * r.z && r.z * n == n * r.z;
    SameQuotient(r.x, r.z, m, w * w + d * v);
    SameQuotient(r.y, r.z, n, w * w - d * v);
  }

  /** On the curve the formulas of section 5.1.4 add, whatever the two points are. */
  lemma AdditionLaw(p: Point, q: Point, d: int)
    requires Fermat() && NonSquare(d) && OnCurve(p, d) && OnCurve(q, d) && !Cong(p.z, 0) && !Cong(q.z, 0)
    requires Extended(p) && Extended(q)
    ensures IsAffineSum(Combine(AddParts(p, q, d)), p, q, d)
  {
    hide Cong, Power, OnCurve;
    Complete(d, p, q);
    Points.AdditionLaw(p, q, d);
    var s := AddParts(p, q, d);
    var w, u, v := p.z * q.z, p.t * q.t, p.x * p.y * (q.x * q.y);
    CongMul(p.x * p.y, p.z * p.t, q.x * q.y, q.z * q.t);
    Interchange(p.z, p.t, q.z, q.t);
    CongSym(v, w * u);
    Points.Expand(p, q, d);
    FactorNonzero(s.g, w, d, u, v);
    assert s.f == 2 * w + 2 * (-d * u) && w * w - d * v == w * w + -d * v;
    FactorNonzero(s.f, w, -d, u, v);
    ProductNonzero(s.f, s.g);
    Divided(Combine(s), p, q, d);
  }

  lemma FactorNonzero(g: int, w: int, d: int, u: int, v: int)
    requires Fermat() && g == 2 * w + 2 * (d * u) && Cong(w * u, v) && !Cong(w * w + d * v, 0)
    ensures !Cong(g, 0)
  {
    hide Cong;
    if Cong(g, 0) {
      TimesZero(g, w);
      CongSelf(2 * d);
      CongMul(2 * d, 2 * d, w * u, v);
      CongSym(2 * d * (w * u), 2 * d * v);
      CongSelf(2 * (w * w));
      CongAdd(2 * (w * w), 2 * (w * w), 2 * d * v, 2 * d * (w * u));
      assert w * g == 2 * (w * w) + 2 * d * (w * u) by {
        assert w * (d * u) == d * (w * u);
        assert w * g == w * (2 * w) + w * (2 * (d * u));
      }
      CongTrans(2 * (w * w) + 2 * d * v, w * g, 0);
      assert 2 * (w * w) + 2 * d * v == 2 * (w * w + d * v);
      NotZero(1);
      NoZeroDivisors(2, w * w + d * v);
    }
  }

  /** And the doubling formula adds a point to itself. */
  lemma DoublingLaw(p: Point, d: int)
    requires Fermat() && NonSquare(d) && OnCurve(p, d) && !Cong(p.z, 0)
    ensures IsAffineSum(Combine(DoubleParts(p)), p, p, d)
  {
    Complete(d, p, p);
    Points.DoublingLaw(p, d);
    hide Cong, Power;
    var s := DoubleParts(p);
    var w, v := p.z * p.z, p.x * p.y * (p.x * p.y);
    DoubleFactors(p, d);
    if Cong(s.g, 0) {
      TimesZero(s.g, -w);
      CongSym(-w * s.g, w * w + d * v);
      CongTrans(w * w + d * v, -w * s.g, 0);
    }
    if Cong(s.f, 0) {
      TimesZero(s.f, w);
      CongSym(w * s.f, w * w - d * v);
      CongTrans(w * w - d * v, w * s.f, 0);
    }
    ProductNonzero(s.f, s.g);
    Divided(Combine(s), p, p, d);
  }

  lemma DoubleFactors(p: Point, d: int)
    requires OnCurve(p, d)
    ensures var s, w, v := DoubleParts(p), p.z * p.z, p.x * p.y * (p.x * p.y);
      Cong(-w * s.g, w * w + d * v) && Cong(w * s.f, w * w - d * v)
  {
    hide Cong;
    var s, w, v := DoubleParts(p), p.z * p.z, p.x * p.y * (p.x * p.y);
    assert (p.y * p.y - p.x * p.x) * w == -w * s.g;
    CongSelf(2 * (w * w));
    CongAdd(2 * (w * w), 2 * (w * w), -w * s.g, w * w + d * v);
    assert w * s.f == 2 * (w * w) - -w * s.g;
  }
}
