/** The ladder of section 5 of RFC 7748 multiplies points: on the coordinate of a curve point it
    computes the coordinate of a multiple, so that the X25519 function is a Diffie-Hellman
    function. All of it follows from the group law of the Edwards curve. */
module LadderPoints {
  import opened AbelianGroup
  import opened Bitwise
  import opened CurveGroup
  import opened FieldElement
  import opened FieldOps
  import opened FieldPrime
  import opened MontgomeryStep
  import opened Points
  import opened X25519
  import LadderAgreement
  import PointCodes
  import PointEncoding

  /** x / z is the Montgomery coordinate of g. */
  ghost predicate Reads<P(!new)>(c: Curve<P>, g: P, x: int, z: int)
  {
    exists p :: c.Stands(p, g) && Montgomery(p, x, z)
  }

  /** Whichever coordinates stand for g. */
  lemma ReadsAny<P(!new)>(c: Curve<P>, g: P, x: int, z: int, p: Point)
    requires Fermat() && c.Bijective() && Reads(c, g, x, z) && c.Stands(p, g)
    ensures Montgomery(p, x, z)
  {
    var q :| c.Stands(q, g) && Montgomery(q, x, z);
    assert c.Distinguishes(p, g, q, g) && c.Lies(p, g) && c.Lies(q, g);
    hide Cong, Curve.Stands;
    SameMontgomery(p, q, x, z);
  }

  lemma SameMontgomery(p: Point, q: Point, x: int, z: int)
    requires Fermat() && !Cong(q.z, 0) && Cong(p.y * q.z, q.y * p.z) && Montgomery(q, x, z)
    ensures Montgomery(p, x, z)
  {
    hide Cong;
    var a, b := x + z, x - z;
    CongScale(p.z, b * q.z, a * q.y);
    CongScale(a, p.y * q.z, q.y * p.z);
    CongSym(a * (p.y * q.z), a * (q.y * p.z));
    Regroup(a, q.y, p.z);
    CongTrans(b * q.z * p.z, a * q.y * p.z, a * (p.y * q.z));
    Regroup(a, p.y, q.z);
    LastTwo(b, q.z, p.z);
    CancelFactor(b * p.z, a * p.y, q.z);
  }

  // ---- One step ----

  /** One step doubles the first point and adds the two, if x1 is the coordinate of the difference. */
  lemma StepReads<P(!new)>(c: Curve<P>, g: P, h: P, s: State, x1: int)
    requires Fermat() && c.Laws() && c.Bijective() && Reads(c, g, s.x2, s.z2) && Reads(c, h, s.x3, s.z3)
    requires Reads(c, c.group.add(h, c.group.neg(g)), x1, 1) && !Cong(x1, 0)
    ensures var r := Step(s, x1); Reads(c, c.group.add(g, g), r.x2, r.z2) && Reads(c, c.group.add(g, h), r.x3, r.z3)
  {
    hide Cong, IsPoint, Montgomery, Step, Combine, AddParts, DoubleParts, Negated, D, Curve.Stands;
    var p :| c.Stands(p, g) && Montgomery(p, s.x2, s.z2);
    var q :| c.Stands(q, h) && Montgomery(q, s.x3, s.z3);
    assert c.Lies(p, g) && c.Lies(q, h) && c.Doubles(p, g) && c.Adds(p, g, q, h);
    assert c.Inverts(p, g) && c.Adds(q, h, Negated(p), c.group.neg(g));
    var d, r := Combine(DoubleParts(p)), Combine(AddParts(p, q, D));
    assert c.Lies(d, c.group.add(g, g)) && c.Lies(r, c.group.add(g, h));
    ReadsAny(c, c.group.add(h, c.group.neg(g)), x1, 1, Combine(AddParts(q, Negated(p), D)));
    StepPoints(p, q, s, x1);
  }

  lemma StepPoints(p: Point, q: Point, s: State, x1: int)
    requires Fermat() && !Cong(x1, 0) && IsPoint(p) && IsPoint(q)
    requires IsPoint(Combine(DoubleParts(p))) && IsPoint(Combine(AddParts(p, q, D)))
    requires Montgomery(p, s.x2, s.z2) && Montgomery(q, s.x3, s.z3)
    requires Montgomery(Combine(AddParts(q, Negated(p), D)), x1, 1)
    ensures Montgomery(Combine(DoubleParts(p)), Step(s, x1).x2, Step(s, x1).z2)
    ensures Montgomery(Combine(AddParts(p, q, D)), Step(s, x1).x3, Step(s, x1).z3)
  {
    hide Cong, OnCurve, Extended, Combine, AddParts, DoubleParts, Negated, D, Step, Doubles, LadderDoubles;
    var a1, b1, a2, b2 := s.x2 + s.z2, s.x2 - s.z2, s.x3 + s.z3, s.x3 - s.z3;
    StepOf(s, x1);
    FactorsOfDouble(p);
    CurveConstants();
    NotMinusOne();
    StepDoubles(p, Combine(DoubleParts(p)), D, a1, b1, Step(s, x1).x2, Step(s, x1).z2);
    StepAdds(p, q, D, a1, b1, a2, b2, x1, b2 * a1 + a2 * b1, b2 * a1 - a2 * b1);
  }

  lemma StepOf(s: State, x1: int)
    ensures var a1, b1, a2, b2 := s.x2 + s.z2, s.x2 - s.z2, s.x3 + s.z3, s.x3 - s.z3;
      var t, u, r := b2 * a1 + a2 * b1, b2 * a1 - a2 * b1, Step(s, x1);
      LadderDoubles(a1 * a1, b1 * b1, r.x2, r.z2) && r.x3 == t * t && r.z3 == x1 * (u * u)
  {
  }

  // ---- The ladder ----

  /** Bits t to bits - 1 of n, as a number. */
  ghost function Part(n: nat, t: nat, bits: nat): (m: nat)
    requires t <= bits
    decreases bits - t
  {
    if t == bits then 0 else 2 * Part(n, t + 1, bits) + if Bit(n, t) == 1 then 1 else 0
  }

  lemma {:induction false} PartOfHalf(n: nat, t: nat, bits: nat)
    requires t < bits
    ensures Part(n, t + 1, bits) == Part(n / 2, t, bits - 1)
    decreases bits - t
  {
    if t + 1 < bits {
      PartOfHalf(n, t + 1, bits);
    }
  }

  lemma {:induction false} PartIs(n: nat, bits: nat)
    requires n < Pow2(bits)
    ensures Part(n, 0, bits) == n
  {
    if bits > 0 {
      PartOfHalf(n, 0, bits);
      PartIs(n / 2, bits - 1);
    }
  }

  /** The points m B and (m + 1) B, where m are the bits of n that were looked at. */
  lemma {:induction false} LadderReads<P(!new)>(c: Curve<P>, B: P, x1: int, n: nat, t: nat, bits: nat)
    requires Fermat() && c.Laws() && c.Bijective() && Reads(c, B, x1, 1) && !Cong(x1, 0) && t <= bits
    ensures var s, m := Ladder(x1, n, t, bits), Part(n, t, bits);
      Reads(c, c.group.Times(m, B), s.x2, s.z2) && Reads(c, c.group.Times(m + 1, B), s.x3, s.z3)
    decreases bits - t
  {
    if t == bits {
      StartReads(c, B);
    } else {
      LadderReads(c, B, x1, n, t + 1, bits);
      var s, m := Ladder(x1, n, t + 1, bits), Part(n, t + 1, bits);
      hide Reads, Curve.Laws, Curve.Bijective, Cong, Step, Group.Times;
      if Bit(n, t) == 1 {
        SwappedStepReads(c, B, x1, s, m);
      } else {
        PlainStepReads(c, B, x1, s, m);
      }
    }
  }

  lemma StartReads<P(!new)>(c: Curve<P>, B: P)
    requires c.Laws()
    ensures Reads(c, c.group.Times(0, B), 1, 0) && c.group.Times(1, B) == B
  {
    assert c.group.Commutes(c.group.zero, B) && c.group.Neutral(B);
    assert c.group.Times(1, B) == c.group.add(c.group.Times(0, B), B);
    CongIsMod(1, 0);
    CongSelf(1);
    assert Montgomery(Point(0, 1, 1, 0), 1, 0);
  }

  lemma PlainStepReads<P(!new)>(c: Curve<P>, B: P, x1: int, s: State, m: nat)
    requires Fermat() && c.Laws() && c.Bijective() && Reads(c, B, x1, 1) && !Cong(x1, 0)
    requires Reads(c, c.group.Times(m, B), s.x2, s.z2) && Reads(c, c.group.Times(m + 1, B), s.x3, s.z3)
    ensures var r := Step(s, x1);
      Reads(c, c.group.Times(2 * m, B), r.x2, r.z2) && Reads(c, c.group.Times(2 * m + 1, B), r.x3, r.z3)
  {
    hide Reads, Curve.Laws, Curve.Bijective, Cong, Step, Group.Times;
    GroupLaws(c);
    c.group.TimesAdd(m, m, B);
    c.group.TimesAdd(m, m + 1, B);
    DifferenceOfTimes(c.group, m + 1, m, B);
    OneTimes(c.group, B);
    StepReads(c, c.group.Times(m, B), c.group.Times(m + 1, B), s, x1);
  }

  lemma SwappedStepReads<P(!new)>(c: Curve<P>, B: P, x1: int, s: State, m: nat)
    requires Fermat() && c.Laws() && c.Bijective() && Reads(c, B, x1, 1) && !Cong(x1, 0)
    requires Reads(c, c.group.Times(m, B), s.x2, s.z2) && Reads(c, c.group.Times(m + 1, B), s.x3, s.z3)
    ensures var r := Swapped(Step(Swapped(s, 1), x1), 1);
      Reads(c, c.group.Times(2 * m + 1, B), r.x2, r.z2) && Reads(c, c.group.Times(2 * m + 2, B), r.x3, r.z3)
  {
    NegationReads(c, B, x1, 1);
    hide Reads, Curve.Laws, Curve.Bijective, Cong, Step, Group.Times;
    GroupLaws(c);
    c.group.TimesAdd(m + 1, m + 1, B);
    c.group.TimesAdd(m + 1, m, B);
    DifferenceOfTimes(c.group, m, m + 1, B);
    c.group.TimesNeg(1, B);
    OneTimes(c.group, B);
    StepReads(c, c.group.Times(m + 1, B), c.group.Times(m, B), Swapped(s, 1), x1);
  }

  lemma OneTimes<P(!new)>(g: Group<P>, B: P)
    requires g.Laws()
    ensures g.Times(1, B) == B
  {
    assert g.Commutes(g.zero, B) && g.Neutral(B);
    assert g.Times(1, B) == g.add(g.Times(0, B), B);
  }

  lemma DifferenceOfTimes<P(!new)>(g: Group<P>, m: int, n: int, B: P)
    requires g.Laws()
    ensures g.add(g.Times(m, B), g.neg(g.Times(n, B))) == g.Times(m - n, B)
  {
    hide Group.Times;
    g.TimesNeg(n, B);
    g.TimesAdd(m, -n, B);
  }

  /** A point and its negative have the same coordinate. */
  lemma NegationReads<P(!new)>(c: Curve<P>, g: P, x: int, z: int)
    requires c.Laws() && Reads(c, g, x, z)
    ensures Reads(c, c.group.neg(g), x, z)
  {
    var p :| c.Stands(p, g) && Montgomery(p, x, z);
    assert c.Inverts(p, g);
    assert Montgomery(Negated(p), x, z);
  }

  // ---- Coordinates as field elements ----

  /** u is the coordinate of g, with 0 for the point at infinity as well, as section 5 of RFC 7748
      and the division by a power have it. */
  ghost predicate Coordinate<P(!new)>(c: Curve<P>, g: P, u: int)
  {
    exists x, z :: Reads(c, g, x, z) && Cong(u, PointEncoding.Over(x, z))
  }

  /** Two pairs for the same point are proportional. */
  lemma Proportion(p: Point, x: int, z: int, x': int, z': int)
    requires Fermat() && !Cong(p.z, 0) && Montgomery(p, x, z) && Montgomery(p, x', z')
    ensures Cong(x * z', x' * z)
  {
    hide Cong;
    var a, b, a', b' := x + z, x - z, x' + z', x' - z';
    CongScale(a', b * p.z, a * p.y);
    CongScale(a, b' * p.z, a' * p.y);
    CongSym(a * (b' * p.z), a * (a' * p.y));
    assert a' * (a * p.y) == a * (a' * p.y);
    CongTrans(a' * (b * p.z), a' * (a * p.y), a * (b' * p.z));
    Regroup(a', b, p.z);
    Regroup(a, b', p.z);
    CancelFactor(a' * b, a * b', p.z);
    Differences(x, z, x', z');
    CongMove(a' * b, a * b', 2 * (x' * z) - a * b');
    CongMove(2 * (x * z'), 2 * (x' * z), -(2 * (x' * z)));
    TwoNonzero();
    NoZeroDivisors(2, x * z' - x' * z);
    CongMove(x * z' - x' * z, 0, x' * z);
  }

  lemma Differences(x: int, z: int, x': int, z': int)
    ensures (x' + z') * (x - z) - (x + z) * (x' - z') == 2 * (x * z') - 2 * (x' * z)
  {
  }

  lemma QuotientOfZero(x: int, z: int)
    requires Cong(z, 0)
    ensures Cong(PointEncoding.Over(x, z), 0)
  {
    hide Cong, Power;
    LadderAgreement.ZeroRatio(State(x, z, 0, 0));
  }

  lemma SameQuotients(x: int, z: int, x': int, z': int)
    requires Fermat() && Cong(x * z', x' * z) && !Cong(x + z, 0) && !Cong(x' + z', 0)
    ensures Cong(PointEncoding.Over(x, z), PointEncoding.Over(x', z'))
  {
    hide Cong, Power, PointEncoding.Over, Unit;
    if Cong(z, 0) {
      Infinite(x, z, x', z');
      QuotientOfZero(x, z);
      QuotientOfZero(x', z');
      CongSym(PointEncoding.Over(x', z'), 0);
      CongTrans(PointEncoding.Over(x, z), 0, PointEncoding.Over(x', z'));
    } else if Cong(z', 0) {
      CongSym(x * z', x' * z);
      Infinite(x', z', x, z);
    } else {
      assert Unit(z) && Unit(z');
      PointCodes.SameQuotient(x, z, x', z');
    }
  }

  lemma Infinite(x: int, z: int, x': int, z': int)
    requires Fermat() && Cong(x * z', x' * z) && Cong(z, 0) && !Cong(x + z, 0)
    ensures Cong(z', 0)
  {
    hide Cong;
    TimesZero(z, x');
    CongTrans(x * z', x' * z, 0);
    NoZeroDivisors(x, z');
    if Cong(x, 0) {
      CongAdd(x, 0, z, 0);
    }
  }

  /** A point has one coordinate. */
  lemma CoordinateUnique<P(!new)>(c: Curve<P>, g: P, u: int, v: int)
    requires Fermat() && c.Bijective() && Coordinate(c, g, u) && Coordinate(c, g, v)
    ensures Cong(u, v)
  {
    var x, z :| Reads(c, g, x, z) && Cong(u, PointEncoding.Over(x, z));
    var x', z' :| Reads(c, g, x', z') && Cong(v, PointEncoding.Over(x', z'));
    assert c.Covers(g);
    var p :| c.Stands(p, g);
    assert c.Lies(p, g);
    ReadsAny(c, g, x, z, p);
    ReadsAny(c, g, x', z', p);
    hide Cong, PointEncoding.Over;
    Proportion(p, x, z, x', z');
    SameQuotients(x, z, x', z');
    var o, o' := PointEncoding.Over(x, z), PointEncoding.Over(x', z');
    CongTrans(u, o, o');
    CongSym(v, o');
    CongTrans(u, o', v);
  }

  // ---- The points with coordinate 0 ----

  /** The points (0, 1) and (0, -1). */
  ghost predicate Small<P(!new)>(c: Curve<P>, g: P)
  {
    exists p :: c.Stands(p, g) && Cong(p.x, 0)
  }

  /** On the curve x is 0 exactly where y^2 is 1. */
  lemma SmallPoint(p: Point, a: int, b: int)
    requires Fermat() && IsPoint(p) && Cong(b * p.z, a * p.y) && !Cong(a, 0)
    ensures Cong(p.x, 0) <==> Cong(b * b - a * a, 0)
  {
    hide Cong, OnCurve, Extended, D;
    NotMinusOne();
    Relation(p, D, a, b);
    var k, w, n, X := a * a + D * (b * b), p.z * p.z, b * b - a * a, p.x * p.x;
    ProductNonzero(p.z, p.z);
    if Cong(p.x, 0) {
      TimesZero(p.x, p.x);
      TimesZero(X, k);
      CongSym(X * k, w * n);
      CongTrans(w * n, X * k, 0);
      NoZeroDivisors(w, n);
    }
    if Cong(n, 0) {
      TimesZero(n, w);
      CongTrans(X * k, w * n, 0);
      NoZeroDivisors(X, k);
      NoZeroDivisors(p.x, p.x);
    }
  }

  lemma FourOf(x: int, z: int)
    ensures (x - z) * (x - z) - (x + z) * (x + z) == -4 * (x * z)
  {
  }

  /** Their coordinate, and no other, is 0. */
  lemma SmallCoordinate(p: Point, x: int, z: int)
    requires Fermat() && IsPoint(p) && Montgomery(p, x, z)
    ensures Cong(p.x, 0) <==> Cong(PointEncoding.Over(x, z), 0)
  {
    hide Cong, IsPoint, PointEncoding.Over;
    SmallPoint(p, x + z, x - z);
    FourOf(x, z);
    CongIsMod(-4, 0);
    if Cong(x * z, 0) {
      TimesZero(x * z, -4);
    } else if Cong(-4 * (x * z), 0) {
      NoZeroDivisors(-4, x * z);
    }
    QuotientVanishes(x, z);
  }

  lemma QuotientVanishes(x: int, z: int)
    requires Fermat()
    ensures Cong(PointEncoding.Over(x, z), 0) <==> Cong(x * z, 0)
  {
    hide Cong, Power;
    var i := Power(z, P_MINUS_2);
    if Cong(z, 0) {
      QuotientOfZero(x, z);
      TimesZero(z, x);
    } else {
      assert Unit(z);
      if Cong(x * z, 0) {
        NoZeroDivisors(x, z);
        TimesZero(x, i);
      }
      if Cong(x * i, 0) {
        PointCodes.OverTimes(x, z);
        TimesZero(x * i, z);
        CongSym(x * i * z, x);
        CongTrans(x, x * i * z, 0);
        TimesZero(x, z);
      }
    }
  }

  /** They are a subgroup. */
  lemma {:induction false} SmallTimes<P(!new)>(c: Curve<P>, g: P, n: nat)
    requires c.Laws() && Small(c, g)
    ensures Small(c, c.group.Times(n, g))
  {
    if n == 0 {
      CongSelf(0);
      assert c.Stands(Point(0, 1, 1, 0), c.group.zero);
    } else {
      SmallTimes(c, g, n - 1);
      var h := c.group.Times(n - 1, g);
      var p :| c.Stands(p, h) && Cong(p.x, 0);
      var q :| c.Stands(q, g) && Cong(q.x, 0);
      assert c.Adds(p, h, q, g);
      SmallSum(p, q);
      assert c.group.Times(n, g) == c.group.add(h, g);
    }
  }

  lemma SmallSum(p: Point, q: Point)
    requires Cong(p.x, 0) && Cong(q.x, 0)
    ensures Cong(Combine(AddParts(p, q, D)).x, 0)
  {
    Points.Expand(p, q, D);
    hide Cong, AddParts, D;
    var s := AddParts(p, q, D);
    TimesZero(p.x, q.y);
    TimesZero(q.x, p.y);
    CongAdd(p.x * q.y, 0, p.y * q.x, 0);
    TimesZero(p.x * q.y + p.y * q.x, 2);
    TimesZero(s.e, s.f);
  }

  // ---- The X25519 function ----

  /** A coordinate other than 0 is one over 1. */
  lemma AffineReads<P(!new)>(c: Curve<P>, g: P, u: int)
    requires Fermat() && Coordinate(c, g, u) && !Cong(u, 0)
    ensures Reads(c, g, u, 1)
  {
    var x, z :| Reads(c, g, x, z) && Cong(u, PointEncoding.Over(x, z));
    var p :| c.Stands(p, g) && Montgomery(p, x, z);
    hide Cong, Power, Unit, PointEncoding.Over;
    if Cong(z, 0) {
      QuotientOfZero(x, z);
      CongTrans(u, PointEncoding.Over(x, z), 0);
    }
    assert Unit(z);
    PointCodes.OverTimes(x, z);
    CongScale(z, u, PointEncoding.Over(x, z));
    CongTrans(u * z, PointEncoding.Over(x, z) * z, x);
    AffineMontgomery(p, x, z, u);
  }

  lemma AffineMontgomery(p: Point, x: int, z: int, u: int)
    requires Fermat() && Montgomery(p, x, z) && Cong(u * z, x) && !Cong(z, 0)
    ensures Montgomery(p, u, 1)
  {
    hide Cong;
    var a, b := u + 1, u - 1;
    CongMove(u * z, x, z);
    assert a * z == u * z + z && b * z == u * z - z;
    ScaledLine(p.y, p.z, a, b, x + z, x - z, z);
    if Cong(a, 0) {
      TimesZero(a, z);
      CongSym(a * z, x + z);
      CongTrans(x + z, a * z, 0);
    }
  }

  lemma ScaledLine(y: int, w: int, a: int, b: int, a': int, b': int, z: int)
    requires Fermat() && !Cong(z, 0) && Cong(a * z, a') && Cong(b * z, b') && Cong(b' * w, a' * y)
    ensures Cong(b * w, a * y)
  {
    hide Cong;
    CongScale(w, b * z, b');
    CongScale(y, a * z, a');
    CongSym(a * z * y, a' * y);
    CongTrans(b * z * w, b' * w, a' * y);
    CongTrans(b * z * w, a' * y, a * z * y);
    LastTwo(b, z, w);
    LastTwo(a, z, y);
    CancelFactor(b * w, a * y, z);
  }

  /** Every point has a coordinate: z + y over z - y. */
  lemma OwnCoordinate(p: Point)
    requires Fermat() && !Cong(p.z, 0)
    ensures Montgomery(p, p.z + p.y, p.z - p.y)
  {
    hide Cong;
    CongSelf(2 * p.y * p.z);
    TwoNonzero();
    ProductNonzero(2, p.z);
  }

  /** On the coordinate of a point the function computes the coordinate of its multiple by the low
      255 bits of the scalar. */
  lemma ResultIsMultiple<P(!new)>(c: Curve<P>, B: P, u: int, n: nat)
    requires Fermat() && c.Laws() && c.Bijective() && Coordinate(c, B, u)
    ensures Coordinate(c, c.group.Times(Part(n, 0, BITS), B), Result(u, n))
  {
    hide Cong, Power, Ladder, Part, Group.Times, Curve.Laws, Curve.Bijective, Reads;
    var s, m := Ladder(u, n, 0, BITS), Part(n, 0, BITS);
    if Cong(u, 0) {
      LadderAgreement.ZeroLadder(u, n, 0, BITS);
      LadderAgreement.ZeroRatio(s);
      ZeroIsSmall(c, B, u);
      SmallTimes(c, B, m);
      SmallIsZero(c, c.group.Times(m, B), Result(u, n));
    } else {
      AffineReads(c, B, u);
      LadderReads(c, B, u, n, 0, BITS);
      CongSelf(Ratio(s));
      assert Ratio(s) == PointEncoding.Over(s.x2, s.z2);
    }
  }

  lemma ZeroIsSmall<P(!new)>(c: Curve<P>, g: P, u: int)
    requires Fermat() && c.Bijective() && Coordinate(c, g, u) && Cong(u, 0)
    ensures Small(c, g)
  {
    var x, z :| Reads(c, g, x, z) && Cong(u, PointEncoding.Over(x, z));
    var p :| c.Stands(p, g) && Montgomery(p, x, z);
    assert c.Lies(p, g);
    hide Cong, PointEncoding.Over;
    CongSym(u, PointEncoding.Over(x, z));
    CongTrans(PointEncoding.Over(x, z), u, 0);
    SmallCoordinate(p, x, z);
  }

  lemma SmallIsZero<P(!new)>(c: Curve<P>, g: P, u: int)
    requires Fermat() && c.Bijective() && Small(c, g) && Cong(u, 0)
    ensures Coordinate(c, g, u)
  {
    var p :| c.Stands(p, g) && Cong(p.x, 0);
    assert c.Lies(p, g);
    hide Cong, PointEncoding.Over;
    OwnCoordinate(p);
    var x, z := p.z + p.y, p.z - p.y;
    SmallCoordinate(p, x, z);
    CongSym(PointEncoding.Over(x, z), 0);
    CongTrans(u, 0, PointEncoding.Over(x, z));
    assert Reads(c, g, x, z);
  }

  /** Diffie-Hellman: the two scalars can be applied in either order. */
  lemma Exchanged<P(!new)>(c: Curve<P>, B: P, u: int, m: nat, n: nat)
    requires Fermat() && c.Laws() && c.Bijective() && Coordinate(c, B, u)
    ensures Cong(Result(Result(u, m), n), Result(Result(u, n), m))
  {
    hide Cong, Result, Part, Group.Times, Coordinate, Curve.Bijective;
    GroupLaws(c);
    hide Curve.Laws;
    var g, a, b := c.group, Part(m, 0, BITS), Part(n, 0, BITS);
    ResultIsMultiple(c, B, u, m);
    ResultIsMultiple(c, B, u, n);
    ResultIsMultiple(c, g.Times(a, B), Result(u, m), n);
    ResultIsMultiple(c, g.Times(b, B), Result(u, n), m);
    g.TimesTimes(b, a, B);
    g.TimesTimes(a, b, B);
    assert a * b == b * a;
    CoordinateUnique(c, g.Times(a * b, B), Result(Result(u, m), n), Result(Result(u, n), m));
  }

  // ---- The base point ----

  const BASE_X: int := 0x216936d3cd6e53fec0a4e231fdd6dc5c692cc7609525a7b2c9562d608f25d51a
  const BASE_Y: int := 0x6666666666666666666666666666666666666666666666666666666666666658

  /** The multiple of p by which the two sides of its equation differ. */
  const BASE_QUOTIENT: int :=
    ((0x72705895b7fd68a9fa7924f5dbf66a83342931bfa505f5c01a65246a2283b5 * RADIX
      + 0xbdefac6a6f236898302e8ed7c7df683605c40a4c5bad89dcf0c8e913ecc5b282) * RADIX
      + 0xa35cfc55550db4be5e6bd6246e4a4ea2054904f5e4438fa42b0e56e116ea5951) * RADIX
      + 0xcfeb87ecfc5b550744d2c0fca4a89ec707de8b3c9a756eb80e7ec260dc2fda59

  const RADIX: int := 0x10000000000000000000000000000000000000000000000000000000000000000

  /** u == 9 is the coordinate of a point of the curve: y is 4 / 5. */
  lemma NineIsCoordinate<P(!new)>(c: Curve<P>) returns (B: P)
    requires Fermat() && c.Bijective()
    ensures Coordinate(c, B, 9)
  {
    var p := Point(BASE_X, BASE_Y, 1, BASE_X * BASE_Y);
    BaseIsPoint();
    assert c.Names(p);
    B :| c.Stands(p, B);
    NineOfBase();
    hide Cong;
    assert Reads(c, B, 9, 1);
    PowerOne(P_MINUS_2);
    CongSelf(9);
    assert PointEncoding.Over(9, 1) == 9;
  }

  lemma NineOfBase()
    ensures Montgomery(Point(BASE_X, BASE_Y, 1, BASE_X * BASE_Y), 9, 1)
  {
    CongIsMod((9 - 1) * 1, (9 + 1) * BASE_Y);
    CongIsMod(10, 0);
  }

  lemma BaseIsPoint()
    ensures IsPoint(Point(BASE_X, BASE_Y, 1, BASE_X * BASE_Y))
  {
    var u, xx, yy, d := PointEncoding.U(BASE_Y), BASE_X * BASE_X, BASE_Y * BASE_Y, D_VALUE;
    Congruent(u, (yy * d + 1) * xx, -BASE_QUOTIENT);
    ParameterIs();
    hide Cong, BASE_X, BASE_Y, D_VALUE;
    CongSym(D, d);
    CongScale(yy, d, D);
    CongMove(yy * d, yy * D, 1);
    CongScale(xx, yy * d + 1, yy * D + 1);
    CongTrans(u, (yy * d + 1) * xx, (yy * D + 1) * xx);
    PointCodes.CurveOfAffine(BASE_X, BASE_Y);
  }
}
