/** The bytes of group elements: encoding is a function of the element, whatever coordinates stand
    for it, and decoding gives its negative back. */
module PointCodes {
  import opened CurveGroup
  import opened FieldElement
  import opened FieldOps
  import opened FieldPrime
  import opened LittleEndian
  import opened MachineInts
  import opened PointEncoding
  import opened Points
  import opened Wrappers
  import FieldBytes

  // ---- From projective to affine ----

  lemma AffineIdentities(x: int, y: int, z: int, i: int, d: int)
    ensures (y * y - x * x) * (z * z) * (i * i * (i * i)) == (y * i * (y * i) - x * i * (x * i)) * (z * i * (z * i))
    ensures (z * z * (z * z) + d * (x * y * (x * y))) * (i * i * (i * i))
            == z * i * (z * i) * (z * i * (z * i)) + d * (x * i * (x * i) * (y * i * (y * i)))
  {
    Interchange(x, i, x, i);
    Interchange(y, i, y, i);
    Interchange(z, i, z, i);
    Expand(x * x, y * y, z * z, i * i, d);
    assert x * y * (x * y) == x * x * (y * y) by {
      Interchange(x, y, x, y);
    }
  }

  lemma Expand(xx: int, yy: int, zz: int, ii: int, d: int)
    ensures (yy - xx) * zz * (ii * ii) == (yy * ii - xx * ii) * (zz * ii)
    ensures (zz * zz + d * (xx * yy)) * (ii * ii) == zz * ii * (zz * ii) + d * (xx * ii * (yy * ii))
  {
    Interchange(yy - xx, zz, ii, ii);
    Interchange(zz, zz, ii, ii);
    Interchange(xx, yy, ii, ii);
    Regroup(d, xx * yy, ii * ii);
  }

  /** Dividing by z takes the equation of the curve from projective to affine coordinates. */
  lemma AffineOnCurve(p: Point)
    requires OnCurve(p, D) && Unit(p.z)
    ensures Affine(Over(p.x, p.z), Over(p.y, p.z))
  {
    hide Cong, Power, D;
    var i := Power(p.z, P_MINUS_2);
    var x, y, e := p.x * i, p.y * i, p.z * i;
    var f := i * i * (i * i);
    AffineIdentities(p.x, p.y, p.z, i, D);
    CongSelf(f);
    CongMul((p.y * p.y - p.x * p.x) * (p.z * p.z), p.z * p.z * (p.z * p.z) + D * (p.x * p.y * (p.x * p.y)), f, f);
    UnitSquares(x * x, y * y, e, D);
  }

  lemma UnitSquares(xx: int, yy: int, e: int, d: int)
    requires Cong(e, 1) && Cong((yy - xx) * (e * e), e * e * (e * e) + d * (xx * yy))
    ensures Cong(yy - 1, (yy * d + 1) * xx)
  {
    hide Cong;
    CongMul(e, 1, e, 1);
    CongMul(e * e, 1, e * e, 1);
    CongSelf(yy - xx);
    CongMul(yy - xx, yy - xx, e * e, 1);
    CongSym((yy - xx) * (e * e), yy - xx);
    CongSelf(d * (xx * yy));
    CongAdd(e * e * (e * e), 1, d * (xx * yy), d * (xx * yy));
    CongTrans(yy - xx, (yy - xx) * (e * e), e * e * (e * e) + d * (xx * yy));
    CongTrans(yy - xx, e * e * (e * e) + d * (xx * yy), 1 + d * (xx * yy));
    CongSelf(xx - 1);
    CongAdd(yy - xx, 1 + d * (xx * yy), xx - 1, xx - 1);
    assert 1 + d * (xx * yy) + (xx - 1) == (yy * d + 1) * xx by {
      Regroup(d, xx, yy);
      assert d * xx * yy == yy * d * xx;
    }
  }

  /** And back, with z == 1. */
  lemma CurveOfAffine(x: int, y: int)
    requires Affine(x, y)
    ensures IsPoint(Point(x, y, 1, x * y))
  {
    OneNonzero();
    hide Cong, D;
    CongSelf(x * y);
    OnePlane(x, y, D);
  }

  lemma OneNonzero()
    ensures !Cong(1, 0)
  {
    CongIsMod(1, 0);
  }

  lemma OnePlane(x: int, y: int, d: int)
    requires Plane(x, y, d)
    ensures OnCurve(Point(x, y, 1, x * y), d)
  {
    hide Cong;
    CongSelf(1 - x * x);
    CongAdd(y * y - 1, (y * y * d + 1) * (x * x), 1 - x * x, 1 - x * x);
    assert (y * y * d + 1) * (x * x) + (1 - x * x) == 1 + d * (x * y * (x * y)) by {
      Interchange(x, y, x, y);
      Regroup(d, x * x, y * y);
      assert d * (x * x) * (y * y) == y * y * d * (x * x);
    }
  }

  /** Proportional coordinates have the same quotients. */
  lemma SameQuotient(x: int, z: int, x': int, z': int)
    requires Unit(z) && Unit(z') && Cong(x * z', x' * z)
    ensures Cong(Over(x, z), Over(x', z'))
  {
    hide Cong, Power;
    var i, i' := Power(z, P_MINUS_2), Power(z', P_MINUS_2);
    CongSelf(i * i');
    CongMul(x * z', x' * z, i * i', i * i');
    Interchange(x, z', i, i');
    Interchange(x', z, i', i);
    assert x * z' * (i * i') == x * i * (z' * i') && x' * z * (i * i') == x' * i' * (z * i);
    CongSelf(x * i);
    CongSelf(x' * i');
    CongMul(x * i, x * i, z' * i', 1);
    CongMul(x' * i', x' * i', z * i, 1);
    CongSym(x * i * (z' * i'), x * i);
    CongTrans(x * i, x * i * (z' * i'), x' * i' * (z * i));
    CongTrans(x * i, x' * i' * (z * i), x' * i');
  }

  /** x / z times z is x. */
  lemma OverTimes(x: int, z: int)
    requires Unit(z)
    ensures Cong(Over(x, z) * z, x)
  {
    hide Cong, Power;
    var i := Power(z, P_MINUS_2);
    CongSelf(x);
    CongMul(x, x, z * i, 1);
    assert x * i * z == x * (z * i);
  }

  // ---- The code of an element ----

  /** s encodes coordinates of g. */
  ghost predicate IsCode<P(!new)>(c: Curve<P>, g: P, s: seq<byte>)
  {
    exists p :: c.Stands(p, g) && EncodesPoint(s, p)
  }

  ghost predicate EncodesPoint(s: seq<byte>, p: Point)
  {
    Encodes(s, Over(p.x, p.z), Over(p.y, p.z))
  }

  /** Two strings that encode congruent coordinates are the same. */
  lemma SameBytes(s: seq<byte>, t: seq<byte>, x: int, y: int, x': int, y': int)
    requires Encodes(s, x, y) && Encodes(t, x', y') && Cong(x, x') && Cong(y, y')
    ensures s == t
  {
    CongIsMod(x, x');
    CongIsMod(y, y');
    FieldBytes.Low255Is(s);
    FieldBytes.Low255Is(t);
    FieldBytes.LEInjective(s, t);
  }

  lemma CodeUnique<P(!new)>(c: Curve<P>, g: P, s: seq<byte>, t: seq<byte>)
    requires Fermat() && c.Bijective() && IsCode(c, g, s) && IsCode(c, g, t)
    ensures s == t
  {
    var p :| c.Stands(p, g) && EncodesPoint(s, p);
    var q :| c.Stands(q, g) && EncodesPoint(t, q);
    assert c.Distinguishes(p, g, q, g) && c.Lies(p, g) && c.Lies(q, g);
    hide Cong, Power, Unit, Curve.Stands;
    SameQuotient(p.x, p.z, q.x, q.z);
    SameQuotient(p.y, p.z, q.y, q.z);
    SameBytes(s, t, Over(p.x, p.z), Over(p.y, p.z), Over(q.x, q.z), Over(q.y, q.z));
  }

  /** n little-endian bytes of k. */
  ghost function LowBytes(k: nat, n: nat): (s: seq<byte>)
    ensures |s| == n
  {
    if n == 0 then [] else [(k % 0x100) as byte] + LowBytes(k / 0x100, n - 1)
  }

  lemma {:induction false} LowBytesSpell(k: nat, n: nat)
    requires k < Pow256(n)
    ensures LE(LowBytes(k, n)) == k
  {
    if n > 0 {
      LowBytesSpell(k / 0x100, n - 1);
      assert LowBytes(k, n)[1..] == LowBytes(k / 0x100, n - 1);
    }
  }

  /** Any coordinates can be encoded. */
  lemma BytesFor(x: int, y: int) returns (s: seq<byte>)
    ensures Encodes(s, x, y)
  {
    var r := y % P;
    Pow256At31();
    assert Pow256(32) == 0x100 * Pow256(31);
    var t := LowBytes(r, 32);
    LowBytesSpell(r, 32);
    SmallTop(t);
    var b := (x % P % 2) as byte;
    SignedTop(t, t[31] + 0x80 * b, b);
    s := t[31 := t[31] + 0x80 * b];
  }

  lemma CodeExists<P(!new)>(c: Curve<P>, g: P)
    requires c.Bijective()
    ensures exists s :: IsCode(c, g, s)
  {
    assert c.Covers(g);
    var p :| c.Stands(p, g);
    var s := BytesFor(Over(p.x, p.z), Over(p.y, p.z));
    assert EncodesPoint(s, p);
    assert IsCode(c, g, s);
  }

  /** The encoding of g. */
  ghost function Code<P(!new)>(c: Curve<P>, g: P): (s: seq<byte>)
    requires c.Bijective()
    ensures |s| == 32 && IsCode(c, g, s)
  {
    CodeExists(c, g);
    var s :| IsCode(c, g, s);
    s
  }

  /** s is the code of (-x, y), but for two liberties: y may be spelled by a number of p or more, and
      for x == 0 the sign does not matter. */
  ghost predicate Opposite(s: seq<byte>, x: int, y: int)
  {
    |s| == 32 && Cong(y, FieldBytes.Low255(s)) && (Cong(x, 0) || x % P % 2 != s[31] as int / 128)
  }

  /** s encodes the negative of g. */
  ghost predicate IsNegated<P(!new)>(c: Curve<P>, s: seq<byte>, g: P)
  {
    exists x, y :: c.Stands(Point(x, y, 1, x * y), g) && Opposite(s, x, y)
  }

  /** The element whose negative s encodes. */
  ghost function DecodeNegated<P(!new)>(c: Curve<P>, s: seq<byte>): (r: Option<P>)
    ensures r.Some? ==> IsNegated(c, s, r.value)
    ensures r.None? ==> forall g :: !IsNegated(c, s, g)
  {
    if exists g :: IsNegated(c, s, g) then
      var g :| IsNegated(c, s, g);
      Some(g)
    else None
  }

  lemma PlaneOfPoint(x: int, y: int, d: int)
    requires OnCurve(Point(x, y, 1, x * y), d)
    ensures Plane(x, y, d)
  {
    hide Cong;
    assert Cong(y * y - x * x, 1 + d * (x * y * (x * y)));
    CongSelf(x * x - 1);
    CongAdd(y * y - x * x, 1 + d * (x * y * (x * y)), x * x - 1, x * x - 1);
    assert 1 + d * (x * y * (x * y)) + (x * x - 1) == (y * y * d + 1) * (x * x) by {
      Interchange(x, y, x, y);
      Regroup(d, x * x, y * y);
      assert d * (x * x) * (y * y) == y * y * d * (x * x);
    }
  }

  lemma PlaneSame(xx: int, yy: int, zz: int, d: int)
    requires Cong(yy, zz) && Cong(zz - 1, (zz * d + 1) * xx)
    ensures Cong(yy - 1, (yy * d + 1) * xx)
  {
    hide Cong;
    CongSelf(1);
    CongSelf(d);
    CongSelf(xx);
    CongAdd(yy, zz, 1, 1);
    CongMul(yy, zz, d, d);
    CongAdd(yy * d, zz * d, 1, 1);
    CongMul(yy * d + 1, zz * d + 1, xx, xx);
    CongSym((yy * d + 1) * xx, (zz * d + 1) * xx);
    CongTrans(yy - 1, zz - 1, (zz * d + 1) * xx);
    CongTrans(yy - 1, (zz * d + 1) * xx, (yy * d + 1) * xx);
  }

  /** Points with the same y have the same x or opposite ones. */
  lemma SameOrOpposite(x: int, y: int, x': int, y': int, d: int)
    requires Fermat() && Plane(x, y, d) && Plane(x', y', d) && Cong(y, y') && !Cong(y * y * d + 1, 0)
    ensures Cong(x, x') || Cong(x, -x')
  {
    hide Cong;
    CongMul(y, y', y, y');
    PlaneSame(x' * x', y * y, y' * y', d);
    CongSym(y * y - 1, (y * y * d + 1) * (x * x));
    SameSquare(y * y * d + 1, x, x', y * y - 1);
  }

  /** The sign tells which. */
  lemma SameSign(s: seq<byte>, x: int, y: int, x': int, y': int)
    requires Opposite(s, x, y) && Opposite(s, x', y') && (Cong(x, x') || Cong(x, -x'))
    ensures Cong(x, x')
  {
    hide Cong, FieldBytes.Low255;
    if !Cong(x, x') {
      CongIsMod(x, -x');
      CongIsMod(x, 0);
      CongIsMod(x', 0);
      CongIsMod(-x', 0);
      CongSelf(0);
      if Cong(x', 0) {
        CongAdd(0, 0, x', 0);
        CongTrans(x, -x', 0);
        CongSym(x', 0);
        CongTrans(x, 0, x');
      } else if Cong(x, 0) {
        CongSym(x, -x');
        CongTrans(-x', x, 0);
        CongAdd(0, 0, -x', 0);
      } else {
        OppositeParity(x');
      }
    }
  }

  lemma NegatedUnique<P(!new)>(c: Curve<P>, s: seq<byte>, g: P, h: P)
    requires Fermat() && c.Bijective() && IsNegated(c, s, g) && IsNegated(c, s, h)
    ensures g == h
  {
    var x, y :| c.Stands(Point(x, y, 1, x * y), g) && Opposite(s, x, y);
    var x', y' :| c.Stands(Point(x', y', 1, x' * y'), h) && Opposite(s, x', y');
    var p, q := Point(x, y, 1, x * y), Point(x', y', 1, x' * y');
    assert c.Distinguishes(p, g, q, h) && c.Lies(p, g) && c.Lies(q, h);
    hide Cong, OnCurve, D, FieldBytes.Low255, Curve.Stands;
    SameCoordinates(s, x, y, x', y');
  }

  lemma SameCoordinates(s: seq<byte>, x: int, y: int, x': int, y': int)
    requires Fermat() && OnCurve(Point(x, y, 1, x * y), D) && OnCurve(Point(x', y', 1, x' * y'), D)
    requires Opposite(s, x, y) && Opposite(s, x', y')
    ensures Cong(x, x') && Cong(y, y')
  {
    var r := FieldBytes.Low255(s);
    hide Cong, OnCurve, FieldBytes.Low255;
    PlaneOfPoint(x, y, D);
    PlaneOfPoint(x', y', D);
    CongSym(y', r);
    CongTrans(y, r, y');
    VNonzero(x, y);
    SameOrOpposite(x, y, x', y', D);
    SameSign(s, x, y, x', y');
  }

  /** What decoding makes of any root w is such a point. */
  lemma DecodedIsNegated<P(!new)>(c: Curve<P>, s: seq<byte>, w: int, g: P)
    requires |s| == 32 && c.Stands(Turned(s, w), g)
    ensures IsNegated(c, s, g)
  {
    var y := FieldBytes.Low255(s);
    CongSelf(y);
    hide Cong, FieldBytes.Low255;
    CongIsMod(w, 0);
    CongIsMod(-w, 0);
    if !Cong(w, 0) {
      OppositeParity(w);
    } else {
      CongSelf(0);
      CongAdd(0, 0, w, 0);
    }
    assert Opposite(s, Turned(s, w).x, y);
  }

  lemma DecodedIsPoint(s: seq<byte>)
    requires |s| == 32 && Decodable(FieldBytes.Low255(s))
    ensures IsPoint(Decoded(s))
  {
    hide Cong, Candidate, Tried, D, FieldBytes.Low255, SQRTM1;
    var y := FieldBytes.Low255(s);
    var w := TriedIsRoot(y);
    assert w * w == -w * -w;
    CurveOfAffine(Decoded(s).x, y);
  }

  /** Decoding succeeds whenever there is one. */
  lemma NegatedIsDecodable<P(!new)>(c: Curve<P>, s: seq<byte>, g: P)
    requires Fermat() && c.Bijective() && IsNegated(c, s, g)
    ensures |s| == 32 && Decodable(FieldBytes.Low255(s))
  {
    var x, y :| c.Stands(Point(x, y, 1, x * y), g) && Opposite(s, x, y);
    assert c.Lies(Point(x, y, 1, x * y), g);
    var r := FieldBytes.Low255(s);
    hide Cong, OnCurve, D, FieldBytes.Low255, Candidate, Tried, Curve.Stands;
    PlaneOfPoint(x, y, D);
    CongMul(y, r, y, r);
    CongSym(y * y, r * r);
    PlaneSame(x * x, r * r, y * y, D);
    CandidateFinds(r, x);
  }

  /** Decoding gives the negative of what was encoded. */
  lemma CodeDecodes<P(!new)>(c: Curve<P>, g: P)
    requires Fermat() && c.Laws() && c.Bijective()
    ensures DecodeNegated(c, Code(c, g)) == Some(c.group.neg(g))
  {
    var s := Code(c, g);
    var p :| c.Stands(p, g) && EncodesPoint(s, p);
    assert c.Lies(p, g) && c.Inverts(p, g);
    var x, y := Over(p.x, p.z), Over(p.y, p.z);
    var n := Point(-x, y, 1, -x * y);
    hide Cong, Power, Unit, FieldBytes.Low255, OnCurve, Extended, Curve.Stands, D;
    AffineOnCurve(p);
    OverTimes(p.x, p.z);
    OverTimes(p.y, p.z);
    hide Over;
    EncodedOpposite(s, x, y);
    OppositePoint(p, n, x, y);
    assert c.Names(n);
    var h :| c.Stands(n, h);
    assert c.Distinguishes(n, h, Negated(p), c.group.neg(g));
    assert IsNegated(c, s, c.group.neg(g));
    NegatedUnique(c, s, DecodeNegated(c, s).value, c.group.neg(g));
  }

  lemma OppositePoint(p: Point, n: Point, x: int, y: int)
    requires Affine(x, y) && n == Point(-x, y, 1, -x * y) && Cong(x * p.z, p.x) && Cong(y * p.z, p.y)
    ensures IsPoint(n) && Proportional(n, Negated(p))
  {
    hide Cong, D, IsPoint;
    assert -x * -x == x * x;
    CurveOfAffine(-x, y);
    CongSelf(-x);
    CongSelf(y);
    CongSelf(1);
    CongSelf(-x * y);
    DecodedProportional(n, p, x, y);
  }

  lemma EncodedOpposite(s: seq<byte>, x: int, y: int)
    requires Encodes(s, x, y)
    ensures Opposite(s, -x, y)
  {
    hide Cong, FieldBytes.Low255;
    var r := FieldBytes.Low255(s);
    Remainder(0, r);
    CongIsMod(y, r);
    CongIsMod(x, 0);
    CongIsMod(-x, 0);
    if Cong(x, 0) {
      CongSelf(0);
      CongAdd(0, 0, x, 0);
    } else {
      OppositeParity(x);
    }
  }

  /** d is (-x, y) where x and y are the quotients of p. */
  lemma DecodedProportional(d: Point, p: Point, x: int, y: int)
    requires Cong(x * p.z, p.x) && Cong(y * p.z, p.y) && Same(d, Point(-x, y, 1, -x * y))
    ensures Proportional(d, Negated(p))
  {
    hide Cong;
    CongSelf(p.z);
    CongMul(d.x, -x, p.z, p.z);
    CongMul(d.y, y, p.z, p.z);
    CongSelf(0);
    CongAdd(0, 0, x * p.z, p.x);
    assert -x * p.z == 0 - x * p.z;
    CongTrans(d.x * p.z, -x * p.z, -p.x);
    CongTrans(d.y * p.z, y * p.z, p.y);
    CongSelf(-p.x);
    CongSelf(p.y);
    CongMul(-p.x, -p.x, d.z, 1);
    CongMul(p.y, p.y, d.z, 1);
    CongSym(-p.x * d.z, -p.x);
    CongSym(p.y * d.z, p.y);
    CongTrans(d.x * p.z, -p.x, -p.x * d.z);
    CongTrans(d.y * p.z, p.y, p.y * d.z);
  }

  // ---- The routines ----

  /** `ge_p3_tobytes` and `ge_tobytes`. */
  method Encode<P(!new)>(ghost c: Curve<P>, s: array<byte>, h: Quad, ghost g: P)
    requires Fermat() && c.Bijective() && s.Length == 32 && Holds(c, h, g)
    modifies s
    ensures s[..] == Code(c, g)
  {
    ToBytes(s, h);
    assert EncodesPoint(s[..], h.Coordinates());
    CodeUnique(c, g, s[..], Code(c, g));
  }

  lemma Decodes<P(!new)>(c: Curve<P>, s: seq<byte>) returns (g: P)
    requires Fermat() && c.Bijective() && |s| == 32 && Decodable(FieldBytes.Low255(s))
    ensures DecodeNegated(c, s) == Some(g) && c.Stands(Decoded(s), g)
  {
    hide Decodable, Turned, Tried, U, V, FieldBytes.Low255;
    DecodedIsPoint(s);
    assert c.Names(Decoded(s));
    g :| c.Stands(Decoded(s), g);
    var y := FieldBytes.Low255(s);
    DecodedIsNegated(c, s, Tried(U(y), V(y)), g);
    NegatedUnique(c, s, DecodeNegated(c, s).value, g);
  }

  /** `ge_frombytes_negate_vartime`. */
  method Decode<P(!new)>(ghost c: Curve<P>, h: Quad, s: seq<byte>) returns (ret: int)
    requires Fermat() && c.Laws() && c.Bijective() && h.Valid() && |s| == 32
    modifies h.X, h.Y, h.Z, h.T
    ensures ret == if DecodeNegated(c, s).Some? then 0 else -1
    ensures ret == 0 ==> Holds(c, h, DecodeNegated(c, s).value)
  {
    ret := FromBytesNegate(h, s);
    if ret == 0 {
      ghost var g := Decodes(c, s);
      assert c.Agrees(Decoded(s), h.Coordinates(), g);
    } else if DecodeNegated(c, s).Some? {
      NegatedIsDecodable(c, s, DecodeNegated(c, s).value);
    }
  }
}
