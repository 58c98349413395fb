/** The points of edwards25519 are a group, and the formulas of third-party/ed25519/ge.c compute in
    it: what `Curve.Laws` and `Curve.Bijective` ask for holds of this curve, given that p is prime. */
module EdwardsGroup {
  import opened AbelianGroup
  import opened CurveGroup
  import opened EdwardsLaw
  import opened FieldElement
  import opened FieldOps
  import opened FieldPrime
  import opened PointCodes
  import opened PointEncoding
  import opened Points
  import EdwardsSum
  import X25519

  // ---- d is not a square ----

  /** (p - 1) / 4 */
  const QUARTER: nat := 0x1ffffffffffffffffffffffffffffffffffffffffffffffffffffffffffffffb

  /** A square root of 2d. */
  const ROOT_OF_2D: int := 0x5531cdb02f53976ef34bf39cfb549482449c01e5e3ea252a3b885e46ebd673d

  lemma RootOf2D()
    ensures Cong(ROOT_OF_2D * ROOT_OF_2D, 2 * D)
  {
    Congruent(ROOT_OF_2D * ROOT_OF_2D, 2 * D_VALUE, 0x38b4388ec4468b39448293ebece4fa572f11178c4ac7aa22ed28a2a36bb9ef);
    ParameterIs();
    hide Cong, D;
    CongSym(D, D_VALUE);
    CongAdd(D_VALUE, D, D_VALUE, D);
    CongTrans(ROOT_OF_2D * ROOT_OF_2D, 2 * D_VALUE, 2 * D);
  }

  lemma {:induction false} PowerMinusOne(n: nat)
    ensures Power(-1, 2 * n) == 1 && Power(-1, 2 * n + 1) == -1
  {
    if n > 0 {
      PowerMinusOne(n - 1);
      assert Power(-1, 2 * n) == -1 * Power(-1, 2 * (n - 1) + 1);
    }
    assert Power(-1, 2 * n + 1) == -1 * Power(-1, 2 * n);
  }

  /** The (p-1)/2-th power of a root of -1 is -1, because (p - 1) / 4 is odd. */
  lemma RootPowers(i: int)
    requires Cong(i * i, -1)
    ensures Cong(Power(i, HALF), -1)
  {
    hide Cong;
    PowerPower(i, 2, QUARTER);
    SquareIs(i);
    X25519.CongPower(i * i, -1, QUARTER);
    PowerMinusOne(QUARTER / 2);
    assert 2 * QUARTER == HALF && 2 * (QUARTER / 2) + 1 == QUARTER;
  }

  lemma SquarePower(z: int)
    requires Fermat() && !Cong(z, 0)
    ensures Cong(Power(z * z, HALF), 1)
  {
    hide Cong;
    SquareIs(z);
    PowerPower(z, 2, HALF);
    assert 2 * HALF == P_MINUS_2 + 1;
    assert Power(z, P_MINUS_2 + 1) == z * Power(z, P_MINUS_2);
    assert Unit(z);
  }

  /** a^2 == i s^2 only for s == 0. */
  lemma RootIsNoSquare(i: int, a: int, s: int)
    requires Fermat() && Cong(i * i, -1) && Cong(a * a, i * (s * s)) && !Cong(a, 0)
    ensures Cong(s, 0)
  {
    hide Cong;
    if !Cong(s, 0) {
      SquarePower(a);
      SquarePower(s);
      RootPowers(i);
      X25519.CongPower(a * a, i * (s * s), HALF);
      PowerTimes(i, s * s, HALF);
      CongMul(Power(i, HALF), -1, Power(s * s, HALF), 1);
      CongSym(Power(a * a, HALF), 1);
      CongTrans(1, Power(a * a, HALF), Power(i * (s * s), HALF));
      CongTrans(1, Power(i * (s * s), HALF), -1);
      CongIsMod(1, -1);
      assert false;
    }
  }

  /** d is not a square: 2d is one, 2 is none. */
  lemma ParameterNonSquare()
    requires Fermat()
    ensures EdwardsSum.NonSquare(D)
  {
    RootOf2D();
    RootOfMinusOne();
    RootNonzero();
    forall n
      ensures !Cong(n * n, D)
    {
      NotRootOfD(n, ROOT_OF_2D, SQRTM1, D);
    }
  }

  lemma RootNonzero()
    ensures !Cong(ROOT_OF_2D, 0) && !Cong(SQRTM1 + 1, 0)
  {
    CongIsMod(ROOT_OF_2D, 0);
    CongIsMod(SQRTM1 + 1, 0);
  }

  /** (1 + i)^2 == 2i, so that n^2 == d makes ((1 + i) n)^2 == 2i d == i s^2. */
  lemma NotRootOfD(n: int, s: int, i: int, d: int)
    requires Fermat() && Cong(s * s, 2 * d) && Cong(i * i, -1) && !Cong(s, 0) && !Cong(i + 1, 0)
    ensures !Cong(n * n, d)
  {
    hide Cong;
    if Cong(n * n, d) {
      var a := (i + 1) * n;
      CongSelf(2 * i + 1);
      CongAdd(i * i, -1, 2 * i + 1, 2 * i + 1);
      CongMul(i * i + (2 * i + 1), 2 * i, n * n, d);
      assert a * a == (i * i + (2 * i + 1)) * (n * n) by {
        Interchange(i + 1, n, i + 1, n);
        Binomial(i, 1);
      }
      CongScale(i, s * s, 2 * d);
      assert i * (2 * d) == 2 * i * d;
      CongSym(i * (s * s), 2 * i * d);
      CongTrans(a * a, 2 * i * d, i * (s * s));
      NonzeroRoot(n, d, s);
      ProductNonzero(i + 1, n);
      RootIsNoSquare(i, a, s);
      assert false;
    }
  }

  lemma NonzeroRoot(n: int, d: int, s: int)
    requires Fermat() && Cong(s * s, 2 * d) && !Cong(s, 0) && Cong(n * n, d)
    ensures !Cong(n, 0)
  {
    hide Cong;
    if Cong(n, 0) {
      TimesZero(n, n);
      CongSym(n * n, d);
      CongTrans(d, n * n, 0);
      CongAdd(d, 0, d, 0);
      CongTrans(s * s, 2 * d, 0);
      NoZeroDivisors(s, s);
      assert false;
    }
  }

  // ---- The points, by their least coordinates ----

  /** The least of the numbers congruent to it. */
  ghost predicate Canonical(x: int)
  {
    x >= 0 && forall y | 0 <= y < x :: !Cong(x, y)
  }

  lemma CanonicalIs(x: int)
    ensures Canonical(x) <==> 0 <= x < P
  {
    if 0 <= x < P {
      Remainder(0, x);
      forall y | 0 <= y < x
        ensures !Cong(x, y)
      {
        CongIsMod(x, y);
        Remainder(0, y);
      }
    } else if x >= P {
      Congruent(x, x - P, 1);
    }
  }

  ghost predicate IsElement(e: Pair)
  {
    Canonical(e.x) && Canonical(e.y) && OnPlane(e, D)
  }

  /** The neutral element. */
  ghost function ZeroPoint(): (e: Pair)
    ensures IsElement(e)
  {
    hide OnPlane, Canonical;
    ZeroOnPlane(D);
    CanonicalIs(0);
    CanonicalIs(1);
    Pair(0, 1)
  }

  lemma ZeroOnPlane(d: int)
    ensures OnPlane(Pair(0, 1), d)
  {
    hide Cong;
    CongSelf(1);
  }

  type Element = e: Pair | IsElement(e) ghost witness ZeroPoint()

  /** The element with these coordinates. */
  lemma Reduced(p: Pair) returns (e: Element)
    requires OnPlane(p, D)
    ensures Cong(e.x, p.x) && Cong(e.y, p.y)
  {
    var r := Pair(p.x % P, p.y % P);
    Remainder(0, r.x);
    Remainder(0, r.y);
    CongIsMod(r.x, p.x);
    CongIsMod(r.y, p.y);
    CanonicalIs(r.x);
    CanonicalIs(r.y);
    hide Cong, D, Canonical;
    SamePlane(r, p, D);
    e := r;
  }

  lemma SamePlane(r: Pair, p: Pair, d: int)
    requires Cong(r.x, p.x) && Cong(r.y, p.y) && OnPlane(p, d)
    ensures OnPlane(r, d)
  {
    hide Cong;
    CongMul(r.x, p.x, r.x, p.x);
    CongMul(r.y, p.y, r.y, p.y);
    CongAdd(r.y * r.y, p.y * p.y, r.x * r.x, p.x * p.x);
    CongMul(r.x, p.x, r.y, p.y);
    CongMul(r.A(), p.A(), r.A(), p.A());
    CongScale(d, r.A() * r.A(), p.A() * p.A());
    CongSelf(1);
    CongAdd(1, 1, d * (r.A() * r.A()), d * (p.A() * p.A()));
    CongSym(1 + d * (r.A() * r.A()), 1 + d * (p.A() * p.A()));
    CongTrans(r.S(), p.S(), 1 + d * (p.A() * p.A()));
    CongTrans(r.S(), 1 + d * (p.A() * p.A()), 1 + d * (r.A() * r.A()));
  }

  lemma SameElement(e: Element, f: Element)
    requires Cong(e.x, f.x) && Cong(e.y, f.y)
    ensures e == f
  {
    hide Cong, OnPlane, D, Canonical;
    SameResidue(e.x, f.x);
    SameResidue(e.y, f.y);
  }

  lemma SameResidue(a: int, b: int)
    requires Canonical(a) && Canonical(b) && Cong(a, b)
    ensures a == b
  {
    hide Cong;
    CongSym(a, b);
  }

  // ---- The operations ----

  lemma NoDivisionByZero(g: Element, h: Element)
    requires Fermat()
    ensures Divides(g, h, D)
  {
    ParameterNonSquare();
    OnPlaneIsCurve(g, D);
    OnPlaneIsCurve(h, D);
    OneNonzero();
    hide Cong, D, OnCurve, OnPlane;
    EdwardsSum.Complete(D, Lift(g), Lift(h));
  }

  /** A pair in extended coordinates. */
  ghost function Lift(p: Pair): Point { Point(p.x, p.y, 1, p.x * p.y) }

  lemma OnPlaneIsCurve(p: Pair, d: int)
    ensures OnPlane(p, d) <==> OnCurve(Lift(p), d)
  {
    hide Cong;
  }

  /** The quotients that the sum consists of. */
  lemma Quotients(p: Pair, q: Pair, d: int) returns (r: Pair)
    requires Fermat() && Divides(p, q, d)
    ensures Sums(r, p, q, d)
  {
    hide Cong, Power, Over, Skew, NumX, NumY;
    var k, x, y := Skew(p, q, d), NumX(p, q), NumY(p, q);
    assert Unit(1 + k) && Unit(1 - k);
    OverTimes(x, 1 + k);
    OverTimes(y, 1 - k);
    r := Pair(Over(x, 1 + k), Over(y, 1 - k));
  }

  lemma SameSums(e: Pair, r: Pair, p: Pair, q: Pair, d: int)
    requires Cong(e.x, r.x) && Cong(e.y, r.y) && Sums(r, p, q, d)
    ensures Sums(e, p, q, d)
  {
    hide Cong, Skew, NumX, NumY;
    var k := Skew(p, q, d);
    CongScale(1 + k, e.x, r.x);
    CongScale(1 - k, e.y, r.y);
    CongTrans(e.x * (1 + k), r.x * (1 + k), NumX(p, q));
    CongTrans(e.y * (1 - k), r.y * (1 - k), NumY(p, q));
  }

  lemma SumExists(g: Element, h: Element)
    requires Fermat()
    ensures exists e: Element :: Sums(e, g, h, D)
  {
    hide Cong, D, OnPlane, Divides, Sums;
    NoDivisionByZero(g, h);
    var r := Quotients(g, h, D);
    Closed(r, g, h, D);
    var e := Reduced(r);
    SameSums(e, r, g, h, D);
  }

  /** The sum, or anything if p is not prime. */
  ghost function Sum(g: Element, h: Element): (e: Element)
    ensures Fermat() ==> Sums(e, g, h, D)
  {
    if Fermat() then
      SumExists(g, h);
      var e: Element :| Sums(e, g, h, D);
      e
    else ZeroPoint()
  }

  lemma SumIs(e: Element, g: Element, h: Element)
    requires Fermat() && Sums(e, g, h, D)
    ensures Sum(g, h) == e
  {
    hide Cong, D, OnPlane, NumX, NumY, Skew;
    var f, k := Sum(g, h), Skew(g, h, D);
    NoDivisionByZero(g, h);
    CongSym(f.x * (1 + k), NumX(g, h));
    CongSym(f.y * (1 - k), NumY(g, h));
    CongTrans(e.x * (1 + k), NumX(g, h), f.x * (1 + k));
    CongTrans(e.y * (1 - k), NumY(g, h), f.y * (1 - k));
    CancelFactor(e.x, f.x, 1 + k);
    CancelFactor(e.y, f.y, 1 - k);
    SameElement(e, f);
  }

  ghost predicate Opposes(e: Pair, g: Pair)
  {
    Cong(e.x, -g.x) && Cong(e.y, g.y)
  }

  lemma MinusExists(g: Element)
    ensures exists e: Element :: Opposes(e, g)
  {
    hide D, Cong;
    OppositeOnPlane(g, D);
    var e := Reduced(Pair(-g.x, g.y));
    assert Opposes(e, g);
  }

  lemma OppositeOnPlane(g: Pair, d: int)
    requires OnPlane(g, d)
    ensures OnPlane(Pair(-g.x, g.y), d)
  {
    hide Cong;
    var n := Pair(-g.x, g.y);
    assert n.A() == -g.A();
    assert n.A() * n.A() == g.A() * g.A();
  }

  /** The same point on the other side. */
  ghost function Minus(g: Element): (e: Element)
    ensures Opposes(e, g)
  {
    MinusExists(g);
    var e: Element :| Opposes(e, g);
    e
  }

  // ---- The group ----

  /** What is added to the neutral element stays. */
  lemma SumOfZero(g: Pair, d: int)
    ensures Sums(g, g, Pair(0, 1), d)
  {
    hide Cong;
    CongSelf(g.x);
    CongSelf(g.y);
    assert Skew(g, Pair(0, 1), d) == 0;
  }

  /** A point and its opposite give the neutral element. */
  lemma SumOfOpposites(g: Pair, e: Pair, d: int)
    requires OnPlane(g, d) && Opposes(e, g)
    ensures Sums(Pair(0, 1), g, e, d)
  {
    hide Cong;
    OppositeNumX(g, e);
    OppositeNumY(g, e);
    OppositeSkew(g, e, d);
    var k := d * (g.A() * g.A());
    assert 0 * (1 + Skew(g, e, d)) == 0;
    CongTrans(NumY(g, e), g.S(), 1 + k);
    CongSym(NumY(g, e), 1 + k);
    CongTrans(1 - Skew(g, e, d), 1 + k, NumY(g, e));
  }

  lemma OppositeNumX(g: Pair, e: Pair)
    requires Opposes(e, g)
    ensures Cong(0, NumX(g, e))
  {
    hide Cong;
    CongScale(g.x, e.y, g.y);
    CongScale(g.y, e.x, -g.x);
    CongAdd(g.x * e.y, g.x * g.y, g.y * e.x, g.y * -g.x);
    assert g.x * g.y + g.y * -g.x == 0;
    CongSym(NumX(g, e), 0);
  }

  lemma OppositeNumY(g: Pair, e: Pair)
    requires Opposes(e, g)
    ensures Cong(NumY(g, e), g.S())
  {
    hide Cong;
    CongScale(g.y, e.y, g.y);
    CongScale(g.x, e.x, -g.x);
    CongAdd(g.y * e.y, g.y * g.y, g.x * e.x, g.x * -g.x);
  }

  lemma OppositeSkew(g: Pair, e: Pair, d: int)
    requires Opposes(e, g)
    ensures Cong(1 - Skew(g, e, d), 1 + d * (g.A() * g.A()))
  {
    hide Cong;
    CongMul(e.x, -g.x, e.y, g.y);
    assert -g.x * g.y == -g.A();
    hide Pair.A;
    var a := g.A();
    CongScale(a, e.A(), -a);
    CongScale(d, a * e.A(), a * -a);
    CongSelf(1);
    CongAdd(1, 1, d * (a * e.A()), d * (a * -a));
    assert a * -a == -(a * a);
    assert d * -(a * a) == -(d * (a * a));
  }

  lemma SumAssociates(g: Element, h: Element, k: Element)
    requires Fermat()
    ensures Sum(Sum(g, h), k) == Sum(g, Sum(h, k))
  {
    hide Cong, D, OnPlane, Sums, Divides;
    var s, t := Sum(g, h), Sum(h, k);
    var u, v := Sum(s, k), Sum(g, t);
    NoDivisionByZero(g, h);
    NoDivisionByZero(s, k);
    NoDivisionByZero(h, k);
    NoDivisionByZero(g, t);
    Associative(g, h, k, s, t, u, v, D);
    SameElement(u, v);
  }

  lemma SumCommutes(g: Element, h: Element)
    requires Fermat()
    ensures Sum(g, h) == Sum(h, g)
  {
    hide D, Sums;
    SumsCommute(Sum(g, h), g, h, D);
    SumIs(Sum(g, h), h, g);
  }

  ghost function PointGroup(): Group<Element>
  {
    Group<Element>.Group((g: Element, h: Element) => Sum(g, h), (g: Element) => Minus(g), ZeroPoint())
  }

  lemma GroupOfPoints()
    requires Fermat()
    ensures PointGroup().Laws()
  {
    var c := PointGroup();
    hide D, OnPlane, Opposes, Sums;
    forall x: Element, y: Element
      ensures c.Commutes(x, y)
    {
      SumCommutes(x, y);
    }
    forall x: Element, y: Element, z: Element
      ensures c.Associates(x, y, z)
    {
      SumAssociates(x, y, z);
    }
    forall x: Element
      ensures c.Neutral(x)
    {
      SumOfZero(x, D);
      SumIs(x, x, ZeroPoint());
    }
    forall x: Element
      ensures c.Cancels(x)
    {
      SumOfOpposites(x, Minus(x), D);
      SumIs(ZeroPoint(), x, Minus(x));
    }
  }

  // ---- The curve ----

  /** p is e in extended coordinates. */
  ghost predicate StandsFor(p: Point, e: Element)
  {
    IsPoint(p) && Projects(p, e)
  }

  ghost predicate Projects(p: Point, e: Pair)
  {
    Cong(p.x, e.x * p.z) && Cong(p.y, e.y * p.z)
  }

  ghost function Edwards25519(): Curve<Element>
  {
    Curve<Element>.Curve(PointGroup(), (p: Point, e: Element) => StandsFor(p, e))
  }

  /** Coordinates in proportion to a point of the plane satisfy the projective equation. */
  lemma ProjectsOnCurve(p: Point, e: Pair, d: int)
    requires Projects(p, e) && OnPlane(e, d)
    ensures OnCurve(p, d)
  {
    hide Cong;
    var z, x, y := p.z, e.x * p.z, e.y * p.z;
    CongMul(p.x, x, p.x, x);
    CongMul(p.y, y, p.y, y);
    CongAdd(p.y * p.y, y * y, p.x * p.x, x * x);
    CongScale(z * z, p.y * p.y - p.x * p.x, y * y - x * x);
    CongMul(p.x, x, p.y, y);
    CongMul(p.x * p.y, x * y, p.x * p.y, x * y);
    CongScale(d, p.x * p.y * (p.x * p.y), x * y * (x * y));
    CongSelf(z * z * (z * z));
    CongAdd(z * z * (z * z), z * z * (z * z), d * (p.x * p.y * (p.x * p.y)), d * (x * y * (x * y)));
    CongSym(z * z * (z * z) + d * (p.x * p.y * (p.x * p.y)), z * z * (z * z) + d * (x * y * (x * y)));
    Homogeneous(e.x, e.y, z, d);
    CongScale(z * z * (z * z), e.S(), 1 + d * (e.A() * e.A()));
    CongTrans((p.y * p.y - p.x * p.x) * (z * z), (y * y - x * x) * (z * z), z * z * (z * z) + d * (x * y * (x * y)));
    CongTrans((p.y * p.y - p.x * p.x) * (z * z), z * z * (z * z) + d * (x * y * (x * y)),
              z * z * (z * z) + d * (p.x * p.y * (p.x * p.y)));
  }

  lemma Homogeneous(x: int, y: int, z: int, d: int)
    ensures (y * z * (y * z) - x * z * (x * z)) * (z * z) == (y * y - x * x) * (z * z * (z * z))
    ensures z * z * (z * z) + d * (x * z * (y * z) * (x * z * (y * z))) == (1 + d * (x * y * (x * y))) * (z * z * (z * z))
  {
    var w, a := z * z, x * y;
    Interchange(x, z, x, z);
    Interchange(y, z, y, z);
    Interchange(x, z, y, z);
    Interchange(a, w, a, w);
    EdwardsLaw.Spread(y * y, x * x, w);
    Regroup(y * y - x * x, w, w);
    Regroup(d, a * a, w * w);
    EdwardsLaw.Spread(1, d * (a * a), w * w);
  }

  /** Where p and q stand for g and h, what the formulas make of them stands for the sum. */
  lemma SumStands(r: Point, p: Point, q: Point, g: Element, h: Element)
    requires Fermat() && Projects(p, g) && Projects(q, h) && !Cong(p.z, 0) && !Cong(q.z, 0)
    requires IsSum(r, p, q, D) && !Cong(r.z, 0) && Extended(r)
    ensures StandsFor(r, Sum(g, h))
  {
    var e := Sum(g, h);
    NoDivisionByZero(g, h);
    hide Cong, D, OnPlane, OnCurve, Extended;
    SumProjects(r, p, q, g, h, e, D);
    ProjectsOnCurve(r, e, D);
  }

  lemma SumProjects(r: Point, p: Point, q: Point, g: Pair, h: Pair, e: Pair, d: int)
    requires Fermat() && Projects(p, g) && Projects(q, h) && !Cong(p.z, 0) && !Cong(q.z, 0)
    requires IsSum(r, p, q, d) && Sums(e, g, h, d) && Divides(g, h, d)
    ensures Projects(r, e)
  {
    var w, v, k := p.z * q.z, p.x * p.y * (q.x * q.y), Skew(g, h, d);
    var m, n := p.x * q.y + p.y * q.x, p.y * q.y + p.x * q.x;
    ProductNonzero(p.z, q.z);
    ProductNonzero(w, w);
    NumeratorsProject(p, q, g, h);
    SkewProjects(p, q, g, h, d);
    hide Cong, Skew, NumX, NumY, Projects;
    RatioProjects(r.x, r.z, w, w * w + d * v, m, 1 + k, NumX(g, h), e.x);
    RatioProjects(r.y, r.z, w, w * w - d * v, n, 1 - k, NumY(g, h), e.y);
    IsProjection(r, e);
  }

  lemma IsProjection(r: Point, e: Pair)
    requires Cong(r.x, e.x * r.z) && Cong(r.y, e.y * r.z)
    ensures Projects(r, e)
  {
  }

  lemma NumeratorsProject(p: Point, q: Point, g: Pair, h: Pair)
    requires Projects(p, g) && Projects(q, h)
    ensures var w := p.z * q.z;
      Cong(p.x * q.y + p.y * q.x, NumX(g, h) * w) && Cong(p.y * q.y + p.x * q.x, NumY(g, h) * w)
  {
    hide Cong;
    ProductsProject(p.x, g.x, q.y, h.y, p.y, g.y, q.x, h.x, p.z, q.z);
    ProductsProject(p.y, g.y, q.y, h.y, p.x, g.x, q.x, h.x, p.z, q.z);
  }

  lemma ProductsProject(a: int, a1: int, b: int, b1: int, c: int, c1: int, e: int, e1: int, z: int, w: int)
    requires Cong(a, a1 * z) && Cong(b, b1 * w) && Cong(c, c1 * z) && Cong(e, e1 * w)
    ensures Cong(a * b + c * e, (a1 * b1 + c1 * e1) * (z * w))
  {
    hide Cong;
    CongMul(a, a1 * z, b, b1 * w);
    CongMul(c, c1 * z, e, e1 * w);
    Interchange(a1, z, b1, w);
    Interchange(c1, z, e1, w);
    CongAdd(a * b, a1 * b1 * (z * w), c * e, c1 * e1 * (z * w));
    EdwardsLaw.Spread(a1 * b1, c1 * e1, z * w);
  }

  lemma SkewProjects(p: Point, q: Point, g: Pair, h: Pair, d: int)
    requires Projects(p, g) && Projects(q, h)
    ensures var w, v, k := p.z * q.z, p.x * p.y * (q.x * q.y), Skew(g, h, d);
      Cong(w * w + d * v, (1 + k) * (w * w)) && Cong(w * w - d * v, (1 - k) * (w * w))
  {
    hide Cong;
    var w, v := p.z * q.z, p.x * p.y * (q.x * q.y);
    CongMul(p.x, g.x * p.z, p.y, g.y * p.z);
    CongMul(q.x, h.x * q.z, q.y, h.y * q.z);
    CongMul(p.x * p.y, g.x * p.z * (g.y * p.z), q.x * q.y, h.x * q.z * (h.y * q.z));
    Interchange(g.x, p.z, g.y, p.z);
    Interchange(h.x, q.z, h.y, q.z);
    Interchange(p.z, p.z, q.z, q.z);
    hide Pair.A;
    var a, b := g.x * g.y, h.x * h.y;
    assert g.A() == a && h.A() == b by { AreaIs(g); AreaIs(h); }
    Interchange(a, p.z * p.z, b, q.z * q.z);
    CongScale(d, v, a * b * (w * w));
    Regroup(d, a * b, w * w);
    CongSelf(w * w);
    CongAdd(w * w, w * w, d * v, d * (a * b) * (w * w));
    EdwardsLaw.Spread(1, d * (a * b), w * w);
  }

  lemma AreaIs(g: Pair)
    ensures g.A() == g.x * g.y
  {
  }

  /** From x f == z (m w) with f == c w^2 and m == n w follows x c == z n, so x == e z where e c == n. */
  lemma RatioProjects(x: int, z: int, w: int, f: int, m: int, c: int, n: int, e: int)
    requires Fermat() && !Cong(w * w, 0) && !Cong(c, 0)
    requires Cong(x * f, z * (m * w)) && Cong(f, c * (w * w)) && Cong(m, n * w) && Cong(e * c, n)
    ensures Cong(x, e * z)
  {
    hide Cong;
    CongScale(x, f, c * (w * w));
    CongScale(w, m, n * w);
    CongScale(z, m * w, n * w * w);
    CongSym(x * f, x * (c * (w * w)));
    CongTrans(x * (c * (w * w)), x * f, z * (m * w));
    CongTrans(x * (c * (w * w)), z * (m * w), z * (n * w * w));
    Regroup(x, c, w * w);
    Regroup(n, w, w);
    Regroup(z, n, w * w);
    CancelFactor(x * c, z * n, w * w);
    CongScale(z, e * c, n);
    CongSym(z * (e * c), z * n);
    CongTrans(x * c, z * n, z * (e * c));
    assert z * (e * c) == e * z * c;
    CancelFactor(x, e * z, c);
  }

  lemma CombinedExtended(s: Parts)
    ensures Extended(Combine(s))
  {
    hide Cong;
    CrossProducts(s.e, s.f, s.g, s.h);
    CongSelf(s.e * s.f * (s.g * s.h));
  }

  lemma AddsPoints(p: Point, g: Element, q: Point, h: Element)
    requires Fermat() && StandsFor(p, g) && StandsFor(q, h)
    ensures StandsFor(Combine(AddParts(p, q, D)), Sum(g, h))
  {
    ParameterNonSquare();
    EdwardsSum.AdditionLaw(p, q, D);
    Points.AdditionLaw(p, q, D);
    CombinedExtended(AddParts(p, q, D));
    hide Cong, D, OnCurve, Extended, Projects, IsSum, Combine, AddParts;
    SumStands(Combine(AddParts(p, q, D)), p, q, g, h);
  }

  lemma DoublesPoints(p: Point, g: Element)
    requires Fermat() && StandsFor(p, g)
    ensures StandsFor(Combine(DoubleParts(p)), Sum(g, g))
  {
    ParameterNonSquare();
    EdwardsSum.DoublingLaw(p, D);
    Points.DoublingLaw(p, D);
    CombinedExtended(DoubleParts(p));
    hide Cong, D, OnCurve, Extended, Projects, IsSum, Combine, DoubleParts;
    SumStands(Combine(DoubleParts(p)), p, p, g, g);
  }

  lemma InvertsPoints(p: Point, g: Element)
    requires StandsFor(p, g)
    ensures StandsFor(Negated(p), Minus(g)) && StandsFor(Point(-p.x, -p.y, -p.z, -p.t), g)
  {
    hide Cong, D, OnPlane;
    var n, m := Negated(p), Point(-p.x, -p.y, -p.z, -p.t);
    OppositeProjects(p, g, Minus(g));
    NegativeNonzero(p.z);
    NegatedExtended(p);
    assert m.x * m.y == p.x * p.y && m.z * m.t == p.z * p.t;
    ProjectsOnCurve(n, Minus(g), D);
    ProjectsOnCurve(m, g, D);
  }

  lemma NegativeNonzero(z: int)
    requires !Cong(z, 0)
    ensures !Cong(-z, 0)
  {
    hide Cong;
    if Cong(-z, 0) {
      CongSelf(0);
      CongAdd(0, 0, -z, 0);
    }
  }

  lemma OppositeProjects(p: Point, g: Pair, e: Pair)
    requires Projects(p, g) && Opposes(e, g)
    ensures Projects(Negated(p), e) && Projects(Point(-p.x, -p.y, -p.z, -p.t), g)
  {
    hide Cong;
    CongSelf(0);
    CongAdd(0, 0, p.x, g.x * p.z);
    CongAdd(0, 0, p.y, g.y * p.z);
    assert g.x * -p.z == -(g.x * p.z) && g.y * -p.z == -(g.y * p.z);
    CongScale(p.z, e.x, -g.x);
    assert -g.x * p.z == -(g.x * p.z);
    CongSym(e.x * p.z, -(g.x * p.z));
    CongTrans(-p.x, -(g.x * p.z), e.x * p.z);
    CongScale(p.z, e.y, g.y);
    CongSym(e.y * p.z, g.y * p.z);
    CongTrans(p.y, g.y * p.z, e.y * p.z);
  }

  lemma AgreesWith(p: Point, q: Point, g: Element)
    requires StandsFor(p, g) && Same(q, p)
    ensures StandsFor(q, g)
  {
    hide Cong, D, OnPlane, OnCurve;
    CongScale(g.x, q.z, p.z);
    CongScale(g.y, q.z, p.z);
    CongSym(g.x * q.z, g.x * p.z);
    CongSym(g.y * q.z, g.y * p.z);
    CongTrans(q.x, p.x, g.x * p.z);
    CongTrans(q.y, p.y, g.y * p.z);
    CongTrans(q.x, g.x * p.z, g.x * q.z);
    CongTrans(q.y, g.y * p.z, g.y * q.z);
    ProjectsOnCurve(q, g, D);
    CongMul(q.x, p.x, q.y, p.y);
    CongMul(q.z, p.z, q.t, p.t);
    CongSym(q.z * q.t, p.z * p.t);
    CongTrans(q.x * q.y, p.x * p.y, p.z * p.t);
    CongTrans(q.x * q.y, p.z * p.t, q.z * q.t);
    CongSym(q.z, p.z);
    if Cong(q.z, 0) {
      CongTrans(p.z, q.z, 0);
    }
  }

  lemma ZeroStands()
    ensures StandsFor(Point(0, 1, 1, 0), ZeroPoint())
  {
    ZeroOnPlane(D);
    OneNonzero();
    hide Cong, D, OnPlane;
    CongSelf(0);
    CongSelf(1);
    ProjectsOnCurve(Point(0, 1, 1, 0), Pair(0, 1), D);
  }

  /** If p is prime, edwards25519 is a group in which the formulas compute. */
  lemma CurveLaws()
    requires Fermat()
    ensures Edwards25519().Laws()
  {
    var c := Edwards25519();
    hide StandsFor, D;
    GroupOfPoints();
    ZeroStands();
    forall p, g: Element, q, h: Element
      ensures c.Adds(p, g, q, h)
    {
      if c.Stands(p, g) && c.Stands(q, h) {
        AddsPoints(p, g, q, h);
      }
    }
    forall p, g: Element
      ensures c.Doubles(p, g)
    {
      if c.Stands(p, g) {
        DoublesPoints(p, g);
      }
    }
    forall p, g: Element
      ensures c.Inverts(p, g)
    {
      if c.Stands(p, g) {
        InvertsPoints(p, g);
      }
    }
    forall p, q, g: Element
      ensures c.Agrees(p, q, g)
    {
      if c.Stands(p, g) && Same(q, p) {
        AgreesWith(p, q, g);
      }
    }
  }

  // ---- One element for every point ----

  lemma HasElement(p: Point)
    requires Fermat() && IsPoint(p)
    ensures exists g: Element :: StandsFor(p, g)
  {
    var x, y := Over(p.x, p.z), Over(p.y, p.z);
    assert Unit(p.z);
    AffineOnCurve(p);
    OverTimes(p.x, p.z);
    OverTimes(p.y, p.z);
    OnPlaneIsPlane(x, y, D);
    hide Cong, D, OnPlane, Over, Unit, Power, IsPoint;
    var g := Reduced(Pair(x, y));
    CongScale(p.z, g.x, x);
    CongScale(p.z, g.y, y);
    CongTrans(g.x * p.z, x * p.z, p.x);
    CongTrans(g.y * p.z, y * p.z, p.y);
    CongSym(g.x * p.z, p.x);
    CongSym(g.y * p.z, p.y);
    assert StandsFor(p, g);
  }

  lemma OnPlaneIsPlane(x: int, y: int, d: int)
    requires Plane(x, y, d)
    ensures OnPlane(Pair(x, y), d)
  {
    OnePlane(x, y, d);
    OnPlaneIsCurve(Pair(x, y), d);
    hide Cong;
  }

  lemma HasPoint(g: Element)
    ensures StandsFor(Lift(g), g)
  {
    OnPlaneIsCurve(g, D);
    OneNonzero();
    hide D, OnPlane, OnCurve, Cong;
    CongSelf(g.x);
    CongSelf(g.y);
    CongSelf(g.x * g.y);
  }

  lemma SamePoint(p: Point, g: Element, q: Point, h: Element)
    requires Fermat() && StandsFor(p, g) && StandsFor(q, h)
    ensures Proportional(p, q) <==> g == h
  {
    hide Cong, D, OnPlane, OnCurve, Extended;
    SameRatios(p.x, g.x, p.z, q.x, h.x, q.z);
    SameRatios(p.y, g.y, p.z, q.y, h.y, q.z);
    if g == h {
      CongSelf(g.x);
      CongSelf(g.y);
    } else if Proportional(p, q) {
      SameElement(g, h);
    }
  }

  lemma SameRatios(x: int, g: int, z: int, y: int, h: int, w: int)
    requires Fermat() && Cong(x, g * z) && Cong(y, h * w) && !Cong(z, 0) && !Cong(w, 0)
    ensures Cong(x * w, y * z) <==> Cong(g, h)
  {
    hide Cong;
    var zw := z * w;
    CongScale(w, x, g * z);
    CongScale(z, y, h * w);
    assert g * z * w == g * zw && h * w * z == h * zw;
    CongSym(x * w, g * zw);
    CongSym(y * z, h * zw);
    ProductNonzero(z, w);
    if Cong(g, h) {
      CongScale(zw, g, h);
      CongTrans(x * w, g * zw, h * zw);
      CongTrans(x * w, h * zw, y * z);
    }
    if Cong(x * w, y * z) {
      CongTrans(g * zw, x * w, y * z);
      CongTrans(g * zw, y * z, h * zw);
      CancelFactor(g, h, zw);
    }
  }

  /** And its elements are the points of the curve. */
  lemma CurveBijective()
    requires Fermat()
    ensures Edwards25519().Bijective()
  {
    var c := Edwards25519();
    forall p, g: Element
      ensures c.Lies(p, g)
    {
    }
    hide D, IsPoint, Projects;
    forall p
      ensures c.Names(p)
    {
      if IsPoint(p) {
        HasElement(p);
        var g: Element :| StandsFor(p, g);
        assert c.Stands(p, g);
      }
    }
    forall g: Element
      ensures c.Covers(g)
    {
      HasPoint(g);
      assert c.Stands(Lift(g), g);
    }
    forall p, g: Element, q, h: Element
      ensures c.Distinguishes(p, g, q, h)
    {
      if c.Stands(p, g) && c.Stands(q, h) {
        SamePoint(p, g, q, h);
      }
    }
  }
}
