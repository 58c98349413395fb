/** The ladder step of section 5 of RFC 7748 on the Edwards curve: with u = (1 + y) / (1 - y) it
    doubles one point and adds the other, by the addition law of section 5.1.4 of RFC 8032. */
module MontgomeryStep {
  import opened FieldElement
  import opened FieldPrime
  import opened Points

  /** x / z is (1 + y) / (1 - y), the Montgomery coordinate of p, where 1 / 0 is allowed. */
  ghost predicate Montgomery(p: Point, x: int, z: int)
  {
    Cong((x - z) * p.z, (x + z) * p.y) && !Cong(x + z, 0)
  }

  // ---- Congruences ----

  lemma CongMove(x: int, y: int, c: int)
    requires Cong(x, y)
    ensures Cong(x + c, y + c) && Cong(x - c, y - c)
  {
    CongSelf(c);
    CongAdd(x, y, c, c);
  }

  lemma TwoNonzero()
    ensures !Cong(2, 0)
  {
    CongIsMod(2, 0);
  }

  // ---- The curve in y alone ----

  /** With y = b / a, the equation of the curve gives x^2 (a^2 + d b^2) == b^2 - a^2. */
  lemma SolvedForX(X: int, Y: int, w: int, aa: int, bb: int, d: int)
    requires Fermat() && !Cong(w, 0)
    requires Cong(bb * w, aa * Y) && Cong((Y - X) * w, w * w + d * (X * Y))
    ensures Cong(X * (aa + d * bb), w * (bb - aa))
  {
    hide Cong;
    SubstitutedY(X, Y, w, aa, bb, d);
    var l, r := bb * w - aa * X, aa * w + d * X * bb;
    CancelFactor(l, r, w);
    CongSym(l, r);
    CongMove(r, l, aa * X - aa * w);
    assert r + (aa * X - aa * w) == X * (aa + d * bb) by {
      assert d * X * bb == X * (d * bb);
    }
  }

  lemma SubstitutedY(X: int, Y: int, w: int, aa: int, bb: int, d: int)
    requires Cong(bb * w, aa * Y) && Cong((Y - X) * w, w * w + d * (X * Y))
    ensures Cong((bb * w - aa * X) * w, (aa * w + d * X * bb) * w)
  {
    hide Cong;
    CongScale(aa, (Y - X) * w, w * w + d * (X * Y));
    CongScale(w, bb * w, aa * Y);
    CongMove(w * (bb * w), w * (aa * Y), -(w * (aa * X)));
    CongScale(d * X, bb * w, aa * Y);
    CongMove(d * X * (bb * w), d * X * (aa * Y), aa * (w * w));
    SidesOfX(X, Y, w, aa, bb, d);
    var m, n := aa * ((Y - X) * w), aa * (w * w + d * (X * Y));
    CongSym(d * X * (bb * w) + aa * (w * w), n);
    CongTrans((bb * w - aa * X) * w, m, n);
    CongTrans((bb * w - aa * X) * w, n, d * X * (bb * w) + aa * (w * w));
  }

  lemma SidesOfX(X: int, Y: int, w: int, aa: int, bb: int, d: int)
    ensures aa * ((Y - X) * w) == w * (aa * Y) - w * (aa * X)
    ensures aa * (w * w + d * (X * Y)) == d * X * (aa * Y) + aa * (w * w)
    ensures w * (bb * w) - w * (aa * X) == (bb * w - aa * X) * w
    ensures d * X * (bb * w) + aa * (w * w) == (aa * w + d * X * bb) * w
  {
    assert (Y - X) * w == Y * w - X * w;
    assert aa * (Y * w) == w * (aa * Y) && aa * (X * w) == w * (aa * X);
    assert aa * (d * (X * Y)) == d * X * (aa * Y) by {
      Regroup(d, X, Y);
      assert aa * (d * X * Y) == d * X * (aa * Y);
    }
    Regroup(d * X, bb, w);
    Regroup(aa, w, w);
  }

  /** a^2 + d b^2 is not 0, because d is not -1. */
  lemma DenominatorNonzero(X: int, w: int, aa: int, bb: int, d: int)
    requires Fermat() && !Cong(w, 0) && !Cong(aa, 0) && !Cong(d + 1, 0)
    requires Cong(X * (aa + d * bb), w * (bb - aa))
    ensures !Cong(aa + d * bb, 0)
  {
    hide Cong;
    var k := aa + d * bb;
    if Cong(k, 0) {
      TimesZero(k, X);
      CongSym(X * k, w * (bb - aa));
      CongTrans(w * (bb - aa), X * k, 0);
      NoZeroDivisors(w, bb - aa);
      CongScale(d, bb - aa, 0);
      CongAdd(k, 0, d * (bb - aa), 0);
      assert k - d * (bb - aa) == (d + 1) * aa;
      NoZeroDivisors(d + 1, aa);
    }
  }

  /** Both, for a point with y = b / a. */
  lemma Relation(p: Point, d: int, a: int, b: int)
    requires Fermat() && OnCurve(p, d) && !Cong(d + 1, 0) && !Cong(p.z, 0) && Cong(b * p.z, a * p.y) && !Cong(a, 0)
    ensures var k := a * a + d * (b * b);
      && Cong(b * b * (p.z * p.z), a * a * (p.y * p.y))
      && Cong(p.x * p.x * k, p.z * p.z * (b * b - a * a)) && !Cong(k, 0)
  {
    hide Cong;
    CongMul(b * p.z, a * p.y, b * p.z, a * p.y);
    Interchange(b, p.z, b, p.z);
    Interchange(a, p.y, a, p.y);
    Interchange(p.x, p.y, p.x, p.y);
    ProductNonzero(p.z, p.z);
    ProductNonzero(a, a);
    SolvedForX(p.x * p.x, p.y * p.y, p.z * p.z, a * a, b * b, d);
    DenominatorNonzero(p.x * p.x, p.z * p.z, a * a, b * b, d);
  }

  // ---- Doubling ----

  /** a^2 + d b^2, times a^2: what the factors H and F of the doubling formula are multiples of. */
  lemma DoubleTerms(X: int, Y: int, w: int, aa: int, bb: int, d: int)
    requires Cong(bb * w, aa * Y) && Cong(X * (aa + d * bb), w * (bb - aa))
    ensures var k := aa + d * bb;
      && Cong(k * aa * (Y + X), w * (aa * (bb - aa) + k * bb))
      && Cong(k * aa * (2 * w - (Y - X)), w * (2 * (k * aa) + aa * (bb - aa) - k * bb))
  {
    hide Cong;
    var k := aa + d * bb;
    CongScale(aa, X * k, w * (bb - aa));
    CongScale(k, bb * w, aa * Y);
    CongSym(k * (bb * w), k * (aa * Y));
    CongAdd(aa * (X * k), aa * (w * (bb - aa)), k * (aa * Y), k * (bb * w));
    CongMove(aa * (X * k) - k * (aa * Y), aa * (w * (bb - aa)) - k * (bb * w), 2 * (k * aa * w));
    Spread(k, aa, X, Y, w);
    Gathered(k, aa, bb, w);
  }

  lemma Spread(k: int, aa: int, X: int, Y: int, w: int)
    ensures k * aa * (Y + X) == aa * (X * k) + k * (aa * Y)
    ensures k * aa * (2 * w - (Y - X)) == aa * (X * k) - k * (aa * Y) + 2 * (k * aa * w)
  {
    var c := k * aa;
    assert c * (Y + X) == c * Y + c * X && c * (2 * w - (Y - X)) == 2 * (c * w) - c * Y + c * X;
    assert c * Y == k * (aa * Y) && c * X == aa * (X * k);
  }

  lemma Gathered(k: int, aa: int, bb: int, w: int)
    ensures aa * (w * (bb - aa)) + k * (bb * w) == w * (aa * (bb - aa) + k * bb)
    ensures aa * (w * (bb - aa)) - k * (bb * w) + 2 * (k * aa * w) == w * (2 * (k * aa) + aa * (bb - aa) - k * bb)
  {
    var m, n := aa * (bb - aa), k * bb;
    assert aa * (w * (bb - aa)) == w * m && k * (bb * w) == w * n && k * aa * w == w * (k * aa);
    assert w * (m + n) == w * m + w * n && w * (2 * (k * aa) + m - n) == 2 * (w * (k * aa)) + w * m - w * n;
  }

  /** The ladder's doubling, in the same terms, with 121666 d == -121665. */
  lemma LadderTerms(aa: int, bb: int, d: int)
    requires Cong(121666 * d, -121665)
    ensures var k, e := aa + d * bb, aa - bb;
      var x, z := aa * bb, e * (aa + 121665 * e);
      && Cong(121666 * (aa * (bb - aa) + k * bb), x - z)
      && Cong(121666 * (2 * (k * aa) + aa * (bb - aa) - k * bb), x + z)
  {
    hide Cong;
    var k, e := aa + d * bb, aa - bb;
    var x, z := aa * bb, e * (aa + 121665 * e);
    var p, q, r := aa * aa, aa * bb, bb * bb;
    Products(aa, bb, d);
    CongScale(r, 121666 * d, -121665);
    CongScale(q, 121666 * d, -121665);
    CongMove(121666 * d * r, -121665 * r, 121666 * (2 * q - p));
    CongScale(2, 121666 * d * q, -121665 * q);
    CongAdd(2 * (121666 * d * q), 2 * (-121665 * q), 121666 * d * r, -121665 * r);
    CongMove(2 * (121666 * d * q) - 121666 * d * r, 2 * (-121665 * q) - -121665 * r, 121666 * p);
    assert 121666 * d * r == 121666 * (d * r) && 121666 * d * q == 121666 * (d * q);
  }

  lemma Products(aa: int, bb: int, d: int)
    ensures var k, e, p, q, r := aa + d * bb, aa - bb, aa * aa, aa * bb, bb * bb;
      && aa * (bb - aa) + k * bb == 2 * q - p + d * r
      && 2 * (k * aa) + aa * (bb - aa) - k * bb == p + 2 * (d * q) - d * r
      && e * (aa + 121665 * e) == 121666 * p - 243331 * q + 121665 * r
  {
    var k, e, p, q, r := aa + d * bb, aa - bb, aa * aa, aa * bb, bb * bb;
    assert aa * (bb - aa) == q - p;
    assert k * bb == q + d * r && k * aa == p + d * q;
    assert e * aa == p - q && e * bb == q - r;
    assert e * (aa + 121665 * e) == e * aa + 121665 * (e * e) && e * e == e * aa - e * bb;
  }

  /** Two products with a common factor, and two other products of the same numbers. */
  lemma Balance(q: int, u: int, v: int, w: int, c: int, f: int, h: int, x: int, z: int)
    requires Fermat() && !Cong(q, 0) && Cong(q * u, w * f) && Cong(q * v, w * h)
    requires Cong(c * h, x) && Cong(c * f, z)
    ensures Cong(x * u, z * v)
  {
    hide Cong;
    CongMul(c * h, x, w * f, q * u) by {
      CongSym(q * u, w * f);
    }
    CongMul(c * f, z, w * h, q * v) by {
      CongSym(q * v, w * h);
    }
    assert c * h * (w * f) == c * f * (w * h) by {
      Interchange(c, h, w, f);
      Interchange(c, f, w, h);
      assert h * f == f * h;
    }
    CongSym(c * h * (w * f), x * (q * u));
    CongTrans(x * (q * u), c * h * (w * f), z * (q * v));
    assert x * (q * u) == x * u * q && z * (q * v) == z * v * q;
    CancelFactor(x * u, z * v, q);
  }

  /** From the quotient of the parts to the point: r.y / r.z == h / f, and x + z is not 0. */
  lemma FromFactors(r: Point, f: int, g: int, h: int, x: int, z: int)
    requires r.z == f * g && r.y == g * h && Cong((x - z) * f, (x + z) * h) && !Cong(x + z, 0)
    ensures Montgomery(r, x, z)
  {
    hide Cong;
    CongScale(g, (x - z) * f, (x + z) * h);
    assert g * ((x - z) * f) == (x - z) * (f * g) && g * ((x + z) * h) == (x + z) * (g * h);
  }

  /** The first half of the ladder step doubles, where a = x + z and b = x - z. */
  lemma StepDoubles(p: Point, r: Point, d: int, a: int, b: int, x: int, z: int)
    requires Fermat() && OnCurve(p, d) && !Cong(p.z, 0) && Cong(b * p.z, a * p.y) && !Cong(a, 0)
    requires !Cong(d + 1, 0) && Cong(121666 * d, -121665)
    requires Doubles(p, r) && !Cong(r.z, 0) && LadderDoubles(a * a, b * b, x, z)
    ensures Montgomery(r, x, z)
  {
    hide Cong, OnCurve, Doubles, LadderDoubles, Montgomery;
    Relation(p, d, a, b);
    ProductNonzero(a, a);
    DoubledPoint(p, r, a * a, b * b, d, x, z);
  }

  /** y / z of r is that of the doubled p. */
  ghost predicate Doubles(p: Point, r: Point)
  {
    exists f, g, h :: HasFactors(r, f, g, h)
      && h == p.x * p.x + p.y * p.y && f == 2 * (p.z * p.z) + (p.x * p.x - p.y * p.y)
  }

  ghost predicate HasFactors(r: Point, f: int, g: int, h: int)
  {
    r.z == f * g && r.y == g * h
  }

  /** x2 and z2 after a step. */
  ghost predicate LadderDoubles(aa: int, bb: int, x: int, z: int)
  {
    x == aa * bb && z == (aa - bb) * (aa + 121665 * (aa - bb))
  }

  lemma DoubledPoint(p: Point, r: Point, aa: int, bb: int, d: int, x: int, z: int)
    requires Fermat() && !Cong(aa, 0) && !Cong(aa + d * bb, 0) && Cong(121666 * d, -121665)
    requires Cong(bb * (p.z * p.z), aa * (p.y * p.y))
    requires Cong(p.x * p.x * (aa + d * bb), p.z * p.z * (bb - aa))
    requires Doubles(p, r) && !Cong(r.z, 0) && LadderDoubles(aa, bb, x, z)
    ensures Montgomery(r, x, z)
  {
    hide Cong;
    var f, g, h :| HasFactors(r, f, g, h)
      && h == p.x * p.x + p.y * p.y && f == 2 * (p.z * p.z) + (p.x * p.x - p.y * p.y);
    Doubled(p.x * p.x, p.y * p.y, p.z * p.z, aa, bb, d, f, h, x, z);
    if Cong(x + z, 0) {
      TimesZero(f, g);
    }
    FromFactors(r, f, g, h, x, z);
  }

  lemma FactorsOfDouble(p: Point)
    ensures Doubles(p, Combine(DoubleParts(p)))
  {
    var s := DoubleParts(p);
    assert HasFactors(Combine(s), s.f, s.g, s.h);
  }

  lemma Doubled(X: int, Y: int, w: int, aa: int, bb: int, d: int, f: int, h: int, x: int, z: int)
    requires Fermat() && !Cong(aa, 0) && !Cong(aa + d * bb, 0) && Cong(121666 * d, -121665)
    requires Cong(bb * w, aa * Y) && Cong(X * (aa + d * bb), w * (bb - aa))
    requires h == X + Y && f == 2 * w + (X - Y)
    requires x == aa * bb && z == (aa - bb) * (aa + 121665 * (aa - bb))
    ensures Cong((x - z) * f, (x + z) * h) && (Cong(x + z, 0) ==> Cong(f, 0))
  {
    hide Cong;
    var k := aa + d * bb;
    var h', f' := aa * (bb - aa) + k * bb, 2 * (k * aa) + aa * (bb - aa) - k * bb;
    DoubleTerms(X, Y, w, aa, bb, d);
    LadderTerms(aa, bb, d);
    ProductNonzero(k, aa);
    Balance(k * aa, f, h, w, 121666, f', h', x - z, x + z);
    if Cong(x + z, 0) {
      VanishingF(k * aa, f, w, f', x + z);
    }
  }

  lemma VanishingF(q: int, u: int, w: int, f: int, z: int)
    requires Fermat() && !Cong(q, 0) && Cong(q * u, w * f) && Cong(121666 * f, z) && Cong(z, 0)
    ensures Cong(u, 0)
  {
    CongIsMod(121666, 0);
    hide Cong;
    CongTrans(121666 * f, z, 0);
    NoZeroDivisors(121666, f);
    TimesZero(f, w);
    CongTrans(q * u, w * f, 0);
    NoZeroDivisors(q, u);
  }

  // ---- Addition ----

  /** Sums of products of squares, in A = a1 a2 and B = b1 b2. */
  lemma SumSquare(a1: int, b1: int, a2: int, b2: int, d: int)
    ensures var A, B, k1, k2 := a1 * a2, b1 * b2, a1 * a1 + d * (b1 * b1), a2 * a2 + d * (b2 * b2);
      var n1, n2, t := b1 * b1 - a1 * a1, b2 * b2 - a2 * a2, b2 * a1 + a2 * b1;
      (A + B) * (A + B) * (k1 * k2) - n1 * n2 * ((d * B - A) * (d * B - A))
          == (d + 1) * (A * A + d * (B * B)) * (t * t)
  {
    var A, B, s := a1 * a2, b1 * b2, a1 * a1 * (b2 * b2) + b1 * b1 * (a2 * a2);
    var p, q, r := A * A, A * B, B * B;
    FourProducts(a1 * a1, b1 * b1, a2 * a2, b2 * b2, d);
    Interchange(a1, a2, a1, a2);
    Interchange(b1, b2, b1, b2);
    PlusSquare(a1, b1, a2, b2);
    assert (A + B) * (A + B) == p + 2 * q + r by {
      Binomial(A, B);
    }
    assert (d * B - A) * (d * B - A) == d * (d * r) - 2 * (d * q) + p by {
      Binomial(d * B, -A);
      Interchange(d, B, d, B);
      Regroup(d, d, r);
      Regroup(d, B, -A);
    }
    Squared(p, q, r, s, d, d * d, A, B);
  }

  lemma FourProducts(aa1: int, bb1: int, aa2: int, bb2: int, d: int)
    ensures var s := aa1 * bb2 + bb1 * aa2;
      && (aa1 + d * bb1) * (aa2 + d * bb2) == aa1 * aa2 + d * s + d * (d * (bb1 * bb2))
      && (bb1 - aa1) * (bb2 - aa2) == bb1 * bb2 - s + aa1 * aa2
  {
    var u, v := d * bb1, d * bb2;
    assert (aa1 + u) * (aa2 + v) == aa1 * aa2 + aa1 * v + u * aa2 + u * v;
    assert aa1 * v == d * (aa1 * bb2) && u * aa2 == d * (bb1 * aa2);
    assert u * v == d * (d * (bb1 * bb2)) by {
      Interchange(d, bb1, d, bb2);
      Regroup(d, d, bb1 * bb2);
    }
  }

  lemma PlusSquare(a1: int, b1: int, a2: int, b2: int)
    ensures (b2 * a1 + a2 * b1) * (b2 * a1 + a2 * b1)
         == a1 * a1 * (b2 * b2) + b1 * b1 * (a2 * a2) + 2 * (a1 * a2 * (b1 * b2))
  {
    Binomial(b2 * a1, a2 * b1);
    Interchange(b2, a1, b2, a1);
    Interchange(a2, b1, a2, b1);
    Interchange(b2, a1, a2, b1);
    Interchange(a1, a2, b1, b2);
    assert b2 * a2 == a2 * b2 && b2 * a1 * (a2 * b1) == a1 * a2 * (b1 * b2) by {
      assert b2 * a1 * (a2 * b1) == a1 * b2 * (a2 * b1);
      Interchange(a1, b2, a2, b1);
      assert b2 * b1 == b1 * b2;
    }
  }

  lemma Squared(p: int, q: int, r: int, s: int, d: int, dd: int, A: int, B: int)
    requires p == A * A && q == A * B && r == B * B && dd == d * d
    ensures (p + 2 * q + r) * (p + d * s + d * (d * r)) - (r - s + p) * (d * (d * r) - 2 * (d * q) + p)
         == (d + 1) * (p + d * r) * (s + 2 * q)
  {
  }

  /** With y1 y2 == m / w, d t1 t2 == k and x1 x2 == n, what (w + m)^2 - (k - n)^2 is. */
  lemma TermsCombine(A: int, B: int, kk: int, nn: int, d: int, w: int, m: int, n: int, k: int, c: int, tt: int)
    requires Cong(A * m, B * w) && Cong(A * k, d * (B * n)) && Cong(kk * (n * n), w * w * nn)
    requires (A + B) * (A + B) * kk - nn * ((d * B - A) * (d * B - A)) == c * tt
    ensures Cong(kk * (A * A) * ((w + m) * (w + m) - (k - n) * (k - n)), w * w * c * tt)
  {
    hide Cong;
    var u, v, x, y := A * (w + m), A * (k - n), w * (A + B), n * (d * B - A);
    CongMove(A * m, B * w, A * w);
    CongMove(A * k, d * (B * n), -(A * n));
    assert u == A * m + A * w && x == B * w + A * w && v == A * k - A * n && y == d * (B * n) - A * n by {
      assert n * (d * B) == d * (B * n);
    }
    CongMul(u, x, u, x);
    CongMul(v, y, v, y);
    CongScale(kk, u * u, x * x);
    CongScale(kk, v * v, y * y);
    Interchange(w, A + B, w, A + B);
    Interchange(n, d * B - A, n, d * B - A);
    var f, g := (A + B) * (A + B), (d * B - A) * (d * B - A);
    CongScale(g, kk * (n * n), w * w * nn);
    Regroup(kk, n * n, g);
    CongTrans(kk * (v * v), kk * (n * n) * g, w * w * nn * g);
    CongAdd(kk * (u * u), kk * (x * x), kk * (v * v), w * w * nn * g);
    RightSide(kk, w, f, nn, g, c, tt);
    LeftSide(kk, A, w + m, k - n);
  }

  lemma RightSide(kk: int, w: int, f: int, nn: int, g: int, c: int, tt: int)
    requires f * kk - nn * g == c * tt
    ensures kk * (w * w * f) - w * w * nn * g == w * w * c * tt
  {
    var ww := w * w;
    Regroup(ww, nn, g);
    Regroup(ww, c, tt);
    assert kk * (ww * f) == ww * (f * kk);
    assert ww * (f * kk - nn * g) == ww * (f * kk) - ww * (nn * g);
  }

  lemma LeftSide(kk: int, A: int, u: int, v: int)
    ensures kk * (A * u * (A * u)) - kk * (A * v * (A * v)) == kk * (A * A) * (u * u - v * v)
  {
    Interchange(A, u, A, u);
    Interchange(A, v, A, v);
    Regroup(kk, A * A, u * u - v * v);
    var aa := A * A;
    assert aa * (u * u - v * v) == aa * (u * u) - aa * (v * v);
  }

  lemma FactoredTerms(A: int, B: int, kk: int, nn: int, d: int, w: int, m: int, n: int, k: int, c: int, tt: int,
      x: int, y: int)
    requires Cong(A * m, B * w) && Cong(A * k, d * (B * n)) && Cong(kk * (n * n), w * w * nn)
    requires (A + B) * (A + B) * kk - nn * ((d * B - A) * (d * B - A)) == c * tt
    requires x == w + m - (k - n) && y == w + m + (k - n)
    ensures Cong(kk * (A * A) * (x * y), w * w * c * tt)
  {
    hide Cong;
    TermsCombine(A, B, kk, nn, d, w, m, n, k, c, tt);
    SquareDifference(w + m, k - n);
  }

  /** The same with y2 negated: one factor for y1 + y2 and one for y1 - y2. */
  lemma BothTerms(A: int, B: int, kk: int, nn: int, d: int, w: int, m: int, n: int, k: int, c: int, tt: int, ss: int)
    requires Cong(A * m, B * w) && Cong(A * k, d * (B * n)) && Cong(kk * (n * n), w * w * nn)
    requires (A + B) * (A + B) * kk - nn * ((d * B - A) * (d * B - A)) == c * tt
    requires (A + -B) * (A + -B) * kk - nn * ((d * -B - A) * (d * -B - A)) == c * ss
    ensures Cong(kk * (A * A) * ((w - k + (m + n)) * (w + k + (m - n))), w * w * c * tt)
    ensures Cong(kk * (A * A) * ((w + k - (m - n)) * (w - k - (m + n))), w * w * c * ss)
  {
    hide Cong;
    FactoredTerms(A, B, kk, nn, d, w, m, n, k, c, tt, w - k + (m + n), w + k + (m - n));
    CongScale(-1, A * m, B * w);
    CongScale(-1, A * k, d * (B * n));
    Negations(A, B, d, w, m, n, k);
    FactoredTerms(A, -B, kk, nn, d, w, -m, n, -k, c, ss, w + k - (m - n), w - k - (m + n));
  }

  lemma Negations(A: int, B: int, d: int, w: int, m: int, n: int, k: int)
    ensures -1 * (A * m) == A * -m && -1 * (B * w) == -B * w
    ensures -1 * (A * k) == A * -k && -1 * (d * (B * n)) == d * (-B * n)
  {
    assert -B * n == -(B * n);
  }

  /** Both identities in A and B. */
  lemma BothSquares(a1: int, b1: int, a2: int, b2: int, d: int)
    ensures var A, B := a1 * a2, b1 * b2;
      var kk, nn := (a1 * a1 + d * (b1 * b1)) * (a2 * a2 + d * (b2 * b2)), (b1 * b1 - a1 * a1) * (b2 * b2 - a2 * a2);
      var c, t, s := (d + 1) * (A * A + d * (B * B)), b2 * a1 + a2 * b1, b2 * a1 - a2 * b1;
      && (A + B) * (A + B) * kk - nn * ((d * B - A) * (d * B - A)) == c * (t * t)
      && (A + -B) * (A + -B) * kk - nn * ((d * -B - A) * (d * -B - A)) == c * (s * s)
  {
    SumSquare(a1, b1, a2, b2, d);
    SumSquare(a1, b1, a2, -b2, d);
    var B, u, v := b1 * b2, b2 * a1, a2 * b1;
    assert b1 * -b2 == -B && -b2 * -b2 == b2 * b2 && -B * -B == B * B && -b2 * a1 == -u;
    SquareOfOpposite(u - v);
    assert -u + v == -(u - v);
  }

  lemma SquareOfOpposite(x: int)
    ensures -x * -x == x * x
  {
  }

  lemma SquareDifference(u: int, v: int)
    ensures u * u - v * v == (u - v) * (u + v)
  {
  }

  /** What the two factors give for the quotient of the sum: f and h are half of F and H for p + q,
      g and e are half of F and H for q - p, and x1 is the coordinate of the difference. */
  lemma Quotients(q: int, c: int, f: int, g: int, h: int, e: int, tt: int, ss: int, x1: int)
    requires Fermat() && !Cong(q, 0) && !Cong(f, 0) && !Cong(g, 0) && !Cong(x1, 0)
    requires Cong(q * ((f + h) * (g + e)), c * tt) && Cong(q * ((f - h) * (g - e)), c * ss)
    requires Cong(x1 * (g - e), g + e)
    ensures Cong((tt - x1 * ss) * f, (tt + x1 * ss) * h) && !Cong(tt + x1 * ss, 0)
  {
    hide Cong;
    DifferenceNonzero(g, e, x1);
    CrossMultiplied(q, c, f + h, f - h, g - e, g + e, tt, ss, x1);
    var z := x1 * ss;
    CongMove(tt * (f - h), z * (f + h), tt * h - z * f);
    SidesOfQuotient(tt, z, f, h);
    if Cong(tt + z, 0) {
      SumVanishes(tt, z, f, h);
      NoZeroDivisors(x1, ss);
      FactorVanishes(q, c, f + h, g + e, tt);
      FactorVanishes(q, c, f - h, g - e, ss);
      CongAdd(f + h, 0, f - h, 0);
      TwoNonzero();
      NoZeroDivisors(2, f);
    }
  }

  lemma SidesOfQuotient(t: int, z: int, f: int, h: int)
    ensures t * (f - h) + (t * h - z * f) == (t - z) * f && z * (f + h) + (t * h - z * f) == (t + z) * h
  {
  }

  lemma DifferenceNonzero(g: int, e: int, x1: int)
    requires Fermat() && !Cong(g, 0) && !Cong(x1, 0) && Cong(x1 * (g - e), g + e)
    ensures !Cong(g - e, 0) && !Cong(g + e, 0)
  {
    hide Cong;
    var u, v := g - e, g + e;
    CongSym(x1 * u, v);
    if Cong(u, 0) {
      TimesZero(u, x1);
      CongTrans(v, x1 * u, 0);
    }
    if Cong(v, 0) {
      CongTrans(x1 * u, v, 0);
      NoZeroDivisors(x1, u);
    }
    if Cong(u, 0) {
      CongAdd(u, 0, v, 0);
      TwoNonzero();
      NoZeroDivisors(2, g);
    }
  }

  lemma CrossMultiplied(q: int, c: int, a: int, b: int, u: int, v: int, tt: int, ss: int, x1: int)
    requires Fermat() && !Cong(q, 0) && !Cong(u, 0)
    requires Cong(q * (a * v), c * tt) && Cong(q * (b * u), c * ss) && Cong(x1 * u, v)
    ensures Cong(tt * b, x1 * ss * a)
  {
    hide Cong;
    ProductNonzero(q, u);
    CongScale(tt, q * (b * u), c * ss);
    CongScale(ss * (q * a), x1 * u, v);
    CongScale(ss, q * (a * v), c * tt);
    assert ss * (q * a) * v == ss * (q * (a * v)) by {
      Regroup(ss, q * a, v);
      Regroup(q, a, v);
    }
    assert tt * (c * ss) == ss * (c * tt);
    CongTrans(ss * (q * a) * (x1 * u), ss * (q * a) * v, ss * (c * tt));
    CongSym(ss * (q * a) * (x1 * u), ss * (c * tt));
    CongTrans(tt * (q * (b * u)), tt * (c * ss), ss * (q * a) * (x1 * u));
    assert tt * (q * (b * u)) == tt * b * (q * u) by {
      Interchange(tt, b, q, u);
      Interchange(tt, q, b, u);
      assert tt * q * (b * u) == tt * (q * (b * u)) by {
        Regroup(tt, q, b * u);
      }
    }
    assert ss * (q * a) * (x1 * u) == x1 * ss * a * (q * u) by {
      Interchange(ss, q * a, x1, u);
      Interchange(x1 * ss, a, q, u);
      Regroup(x1 * ss, q * a, u);
      assert ss * x1 == x1 * ss && q * a * u == a * (q * u);
      Regroup(x1 * ss, a, q * u);
    }
    CancelFactor(tt * b, x1 * ss * a, q * u);
  }

  lemma SumVanishes(t: int, z: int, f: int, h: int)
    requires Fermat() && !Cong(f, 0) && Cong(t + z, 0) && Cong((t - z) * f, (t + z) * h)
    ensures Cong(t, 0) && Cong(z, 0)
  {
    hide Cong;
    TimesZero(t + z, h);
    CongTrans((t - z) * f, (t + z) * h, 0);
    NoZeroDivisors(t - z, f);
    CongAdd(t + z, 0, t - z, 0);
    TwoNonzero();
    NoZeroDivisors(2, t);
    NoZeroDivisors(2, z);
  }

  lemma FactorVanishes(q: int, c: int, a: int, v: int, tt: int)
    requires Fermat() && !Cong(q, 0) && !Cong(v, 0) && Cong(q * (a * v), c * tt) && Cong(tt, 0)
    ensures Cong(a, 0)
  {
    hide Cong;
    TimesZero(tt, c);
    CongTrans(q * (a * v), c * tt, 0);
    NoZeroDivisors(q, a * v);
    NoZeroDivisors(a, v);
  }

  // ---- The addition of the step ----

  lemma FactorsOfSum(p: Point, q: Point, d: int)
    ensures var s, w, k := AddParts(p, q, d), p.z * q.z, d * (p.t * q.t);
      && s.f == 2 * (w - k) && s.g == 2 * (w + k) && s.h == 2 * (p.y * q.y + p.x * q.x)
      && Combine(s).z == s.f * s.g && Combine(s).y == s.g * s.h
  {
    Expand(p, q, d);
  }

  lemma FactorsOfDifference(p: Point, q: Point, d: int)
    ensures var s, w, k := AddParts(q, Negated(p), d), p.z * q.z, d * (p.t * q.t);
      && s.f == 2 * (w + k) && s.g == 2 * (w - k) && s.h == 2 * (p.y * q.y - p.x * q.x)
      && Combine(s).z == s.f * s.g && Combine(s).y == s.g * s.h
  {
    FactorsOfSum(q, Negated(p), d);
    assert q.t * -p.t == -(p.t * q.t) && d * -(p.t * q.t) == -(d * (p.t * q.t));
    assert q.z * p.z == p.z * q.z && q.y * p.y == p.y * q.y && q.x * -p.x == -(p.x * q.x);
  }

  /** x1 (g - e) == g + e when x1 is the coordinate of a point with y = e / g. */
  lemma CoordinateOfDifference(o: Point, f: int, g: int, e: int, x1: int)
    requires Fermat() && !Cong(f, 0) && Montgomery(o, x1, 1)
    requires o.z == 2 * g * (2 * f) && o.y == 2 * f * (2 * e)
    ensures Cong(x1 * (g - e), g + e)
  {
    hide Cong;
    CongIsMod(4, 0);
    ProductNonzero(4, f);
    assert (x1 - 1) * o.z == (x1 - 1) * g * (4 * f) && (x1 + 1) * o.y == (x1 + 1) * e * (4 * f);
    CancelFactor((x1 - 1) * g, (x1 + 1) * e, 4 * f);
    CongMove((x1 - 1) * g, (x1 + 1) * e, g - x1 * e);
    assert (x1 - 1) * g == x1 * g - g && (x1 + 1) * e == x1 * e + e;
    assert x1 * (g - e) == x1 * g - x1 * e;
  }

  /** The coordinates of two points, multiplied. */
  lemma ProductsOfPoints(p: Point, q: Point, a1: int, b1: int, a2: int, b2: int, d: int)
    requires Fermat() && Extended(p) && Extended(q) && !Cong(p.z * q.z, 0)
    requires Cong(b1 * p.z, a1 * p.y) && Cong(b2 * q.z, a2 * q.y)
    ensures var A, B, w, m, n, k := a1 * a2, b1 * b2, p.z * q.z, p.y * q.y, p.x * q.x, d * (p.t * q.t);
      Cong(A * m, B * w) && Cong(A * k, d * (B * n))
  {
    hide Cong;
    var A, B, w, m, n, k := a1 * a2, b1 * b2, p.z * q.z, p.y * q.y, p.x * q.x, d * (p.t * q.t);
    CongMul(b1 * p.z, a1 * p.y, b2 * q.z, a2 * q.y);
    Interchange(b1, p.z, b2, q.z);
    Interchange(a1, p.y, a2, q.y);
    CongSym(B * w, A * m);
    CongMul(p.x * p.y, p.z * p.t, q.x * q.y, q.z * q.t);
    Interchange(p.x, p.y, q.x, q.y);
    Interchange(p.z, p.t, q.z, q.t);
    CongSym(n * m, w * (p.t * q.t));
    CongScale(A * d, w * (p.t * q.t), n * m);
    CongScale(d * n, A * m, B * w);
    FourFactors(A, d, w, p.t * q.t, n, m, B);
    CongTrans(A * d * (w * (p.t * q.t)), d * n * (A * m), d * n * (B * w));
    CancelFactor(A * k, d * (B * n), w);
  }

  lemma FourFactors(A: int, d: int, w: int, t: int, n: int, m: int, B: int)
    ensures A * d * (w * t) == A * (d * t) * w && A * d * (n * m) == d * n * (A * m)
    ensures d * n * (B * w) == d * (B * n) * w
  {
    Interchange(A, d, w, t);
    LastTwo(A, w, d * t);
    Interchange(d, A, n, m);
    assert A * d == d * A;
    Interchange(d, n, B, w);
    Regroup(d, B, n);
    Regroup(d * B, n, w);
  }

  lemma LastTwo(x: int, y: int, z: int)
    ensures x * y * z == x * z * y
  {
  }

  lemma SquaresOfPoints(p: Point, q: Point, k1: int, k2: int, n1: int, n2: int)
    requires Cong(p.x * p.x * k1, p.z * p.z * n1) && Cong(q.x * q.x * k2, q.z * q.z * n2)
    ensures var w, n := p.z * q.z, p.x * q.x; Cong(k1 * k2 * (n * n), w * w * (n1 * n2))
  {
    hide Cong;
    CongMul(p.x * p.x * k1, p.z * p.z * n1, q.x * q.x * k2, q.z * q.z * n2);
    Interchange(p.x * p.x, k1, q.x * q.x, k2);
    Interchange(p.z * p.z, n1, q.z * q.z, n2);
    Interchange(p.x, p.x, q.x, q.x);
    Interchange(p.z, p.z, q.z, q.z);
    assert p.x * q.x * (p.x * q.x) * (k1 * k2) == k1 * k2 * (p.x * q.x * (p.x * q.x));
  }

  /** The second half of the ladder step adds p and q, when x1 is the coordinate of q - p. */
  lemma StepAdds(p: Point, q: Point, d: int, a1: int, b1: int, a2: int, b2: int, x1: int, t: int, s: int)
    requires Fermat() && OnCurve(p, d) && OnCurve(q, d) && !Cong(p.z, 0) && !Cong(q.z, 0) && !Cong(d + 1, 0)
    requires Extended(p) && Extended(q) && !Cong(a1, 0) && !Cong(a2, 0) && !Cong(x1, 0)
    requires Cong(b1 * p.z, a1 * p.y) && Cong(b2 * q.z, a2 * q.y)
    requires !Cong(Combine(AddParts(p, q, d)).z, 0) && Montgomery(Combine(AddParts(q, Negated(p), d)), x1, 1)
    requires t == b2 * a1 + a2 * b1 && s == b2 * a1 - a2 * b1
    ensures Montgomery(Combine(AddParts(p, q, d)), t * t, x1 * (s * s))
  {
    hide Cong, OnCurve, Extended, AddParts, Combine, Montgomery, Negated;
    Relation(p, d, a1, b1);
    Relation(q, d, a2, b2);
    AddedPoint(p, q, a1, b1, a2, b2, d, x1, t, s);
  }

  lemma AddedPoint(p: Point, q: Point, a1: int, b1: int, a2: int, b2: int, d: int, x1: int, t: int, s: int)
    requires Fermat() && !Cong(p.z, 0) && !Cong(q.z, 0) && !Cong(a1, 0) && !Cong(a2, 0) && !Cong(x1, 0)
    requires Extended(p) && Extended(q) && Cong(b1 * p.z, a1 * p.y) && Cong(b2 * q.z, a2 * q.y)
    requires !Cong(a1 * a1 + d * (b1 * b1), 0) && !Cong(a2 * a2 + d * (b2 * b2), 0)
    requires Cong(p.x * p.x * (a1 * a1 + d * (b1 * b1)), p.z * p.z * (b1 * b1 - a1 * a1))
    requires Cong(q.x * q.x * (a2 * a2 + d * (b2 * b2)), q.z * q.z * (b2 * b2 - a2 * a2))
    requires !Cong(Combine(AddParts(p, q, d)).z, 0) && Montgomery(Combine(AddParts(q, Negated(p), d)), x1, 1)
    requires t == b2 * a1 + a2 * b1 && s == b2 * a1 - a2 * b1
    ensures Montgomery(Combine(AddParts(p, q, d)), t * t, x1 * (s * s))
  {
    hide Cong, Extended, AddParts, Combine, Montgomery, Negated;
    var A, B, k1, k2 := a1 * a2, b1 * b2, a1 * a1 + d * (b1 * b1), a2 * a2 + d * (b2 * b2);
    var n1, n2 := b1 * b1 - a1 * a1, b2 * b2 - a2 * a2;
    ProductNonzero(p.z, q.z);
    ProductNonzero(k1, k2);
    ProductNonzero(a1, a2);
    ProductNonzero(A, A);
    ProductNonzero(k1 * k2, A * A);
    ProductsOfPoints(p, q, a1, b1, a2, b2, d);
    SquaresOfPoints(p, q, k1, k2, n1, n2);
    BothSquares(a1, b1, a2, b2, d);
    var c := (d + 1) * (A * A + d * (B * B));
    AddedTerms(p, q, A, B, k1 * k2, n1 * n2, d, c, t * t, s * s, x1);
  }

  lemma AddedTerms(p: Point, q: Point, A: int, B: int, kk: int, nn: int, d: int, c: int, tt: int, ss: int, x1: int)
    requires var w, m, n, k := p.z * q.z, p.y * q.y, p.x * q.x, d * (p.t * q.t);
      Cong(A * m, B * w) && Cong(A * k, d * (B * n)) && Cong(kk * (n * n), w * w * nn)
    requires (A + B) * (A + B) * kk - nn * ((d * B - A) * (d * B - A)) == c * tt
    requires (A + -B) * (A + -B) * kk - nn * ((d * -B - A) * (d * -B - A)) == c * ss
    requires Fermat() && !Cong(kk * (A * A), 0) && !Cong(x1, 0)
    requires !Cong(Combine(AddParts(p, q, d)).z, 0) && Montgomery(Combine(AddParts(q, Negated(p), d)), x1, 1)
    ensures Montgomery(Combine(AddParts(p, q, d)), tt, x1 * ss)
  {
    var r, o := Combine(AddParts(p, q, d)), Combine(AddParts(q, Negated(p), d));
    FactorsOfSum(p, q, d);
    FactorsOfDifference(p, q, d);
    hide Cong, AddParts, Combine, Montgomery, Negated;
    NumbersAdded(r, o, p.z * q.z, p.y * q.y, p.x * q.x, d * (p.t * q.t), A, B, kk, nn, d, c, tt, ss, x1);
  }

  lemma NumbersAdded(r: Point, o: Point, w: int, m: int, n: int, k: int, A: int, B: int, kk: int, nn: int, d: int,
      c: int, tt: int, ss: int, x1: int)
    requires Cong(A * m, B * w) && Cong(A * k, d * (B * n)) && Cong(kk * (n * n), w * w * nn)
    requires (A + B) * (A + B) * kk - nn * ((d * B - A) * (d * B - A)) == c * tt
    requires (A + -B) * (A + -B) * kk - nn * ((d * -B - A) * (d * -B - A)) == c * ss
    requires Fermat() && !Cong(kk * (A * A), 0) && !Cong(x1, 0)
    requires r.z == 2 * (w - k) * (2 * (w + k)) && r.y == 2 * (w + k) * (2 * (m + n)) && !Cong(r.z, 0)
    requires o.z == 2 * (w + k) * (2 * (w - k)) && o.y == 2 * (w - k) * (2 * (m - n)) && Montgomery(o, x1, 1)
    ensures Montgomery(r, tt, x1 * ss)
  {
    hide Cong, Montgomery;
    var f, g, h, e := w - k, w + k, m + n, m - n;
    FactorsNonzero(f, g, r.z);
    CoordinateOfDifference(o, f, g, e, x1);
    BothTerms(A, B, kk, nn, d, w, m, n, k, c, tt, ss);
    LinesAdded(r, kk * (A * A), w * w * c, f, g, h, e, tt, ss, x1);
  }

  lemma LinesAdded(r: Point, q: int, c: int, f: int, g: int, h: int, e: int, tt: int, ss: int, x1: int)
    requires Fermat() && !Cong(q, 0) && !Cong(f, 0) && !Cong(g, 0) && !Cong(x1, 0)
    requires Cong(q * ((f + h) * (g + e)), c * tt) && Cong(q * ((g - e) * (f - h)), c * ss)
    requires Cong(x1 * (g - e), g + e) && r.z == 2 * f * (2 * g) && r.y == 2 * g * (2 * h)
    ensures Montgomery(r, tt, x1 * ss)
  {
    hide Cong, Montgomery;
    assert (g - e) * (f - h) == (f - h) * (g - e);
    Quotients(q, c, f, g, h, e, tt, ss, x1);
    var x, z := tt - x1 * ss, tt + x1 * ss;
    CongScale(2, x * f, z * h);
    assert 2 * (x * f) == x * (2 * f) && 2 * (z * h) == z * (2 * h);
    FromFactors(r, 2 * f, 2 * g, 2 * h, tt, x1 * ss);
  }

  lemma FactorsNonzero(f: int, g: int, z: int)
    requires z == 2 * f * (2 * g) && !Cong(z, 0)
    ensures !Cong(f, 0) && !Cong(g, 0)
  {
    hide Cong;
    assert z == f * (4 * g) && z == g * (4 * f);
    if Cong(f, 0) {
      TimesZero(f, 4 * g);
    }
    if Cong(g, 0) {
      TimesZero(g, 4 * f);
    }
  }
}
