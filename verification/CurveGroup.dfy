/** The group of curve points, and the structures of third-party/ed25519/ge.c that hold its elements
    in limbs. The group is any in which the formulas of section 5.1.4 of RFC 8032 add and double;
    `EdwardsGroup` shows that the points of edwards25519 are one. */
module CurveGroup {
  import opened AbelianGroup
  import opened MachineInts
  import opened FieldElement
  import opened FieldMul
  import opened Points
  import FieldOps

  /** Extended coordinates of a point of the curve. */
  ghost predicate IsPoint(p: Point)
  {
    Extended(p) && OnCurve(p, D) && !Cong(p.z, 0)
  }

  /** The same point of the plane. */
  ghost predicate Proportional(p: Point, q: Point)
  {
    Cong(p.x * q.z, q.x * p.z) && Cong(p.y * q.z, q.y * p.z)
  }

  /** A group and the extended coordinates that stand for each of its elements. */
  datatype Curve<!P(!new)> = Curve(group: Group<P>, represents: (Point, P) -> bool)
  {
    ghost predicate Stands(p: Point, g: P) { represents(p, g) }

    /** The formulas for addition and doubling are complete and compute the group operation;
        proportional coordinates are the same point. */
    ghost predicate Laws()
    {
      && group.Laws()
      && Stands(Point(0, 1, 1, 0), group.zero)
      && (forall p, g, q, h :: Adds(p, g, q, h))
      && (forall p, g :: Doubles(p, g))
      && (forall p, g :: Inverts(p, g))
      && (forall p, q, g :: Agrees(p, q, g))
    }

    /** Every point of the curve is an element, and the other way around, up to proportional
        coordinates. */
    ghost predicate Bijective()
    {
      && (forall p, g :: Lies(p, g))
      && (forall p :: Names(p))
      && (forall g :: Covers(g))
      && (forall p, g, q, h :: Distinguishes(p, g, q, h))
    }

    ghost predicate Lies(p: Point, g: P)
    {
      Stands(p, g) ==> IsPoint(p)
    }

    ghost predicate Names(p: Point)
    {
      IsPoint(p) ==> exists g :: Stands(p, g)
    }

    ghost predicate Covers(g: P)
    {
      exists p :: Stands(p, g)
    }

    ghost predicate Distinguishes(p: Point, g: P, q: Point, h: P)
    {
      Stands(p, g) && Stands(q, h) ==> (Proportional(p, q) <==> g == h)
    }

    ghost predicate Adds(p: Point, g: P, q: Point, h: P)
    {
      Stands(p, g) && Stands(q, h) ==> Stands(Combine(AddParts(p, q, D)), group.add(g, h))
    }

    ghost predicate Doubles(p: Point, g: P)
    {
      Stands(p, g) ==> Stands(Combine(DoubleParts(p)), group.add(g, g))
    }

    ghost predicate Inverts(p: Point, g: P)
    {
      Stands(p, g) ==> Stands(Negated(p), group.neg(g)) && Stands(Point(-p.x, -p.y, -p.z, -p.t), g)
    }

    ghost predicate Agrees(p: Point, q: Point, g: P)
    {
      Stands(p, g) && Same(q, p) ==> Stands(q, g)
    }
  }

  lemma GroupLaws<P(!new)>(c: Curve<P>)
    requires c.Laws()
    ensures c.group.Laws()
  {
  }

  // ---- Structures that hold a group element ----

  /** A `ge_p3` or `ge_p2`. */
  ghost predicate Holds<P(!new)>(c: Curve<P>, q: Quad, g: P)
    reads q.X, q.Y, q.Z, q.T
  {
    q.Valid() && q.AllTight() && c.Stands(q.Coordinates(), g)
  }

  /** A `ge_p1p1`. */
  ghost predicate HoldsParts<P(!new)>(c: Curve<P>, q: Quad, g: P)
    reads q.X, q.Y, q.Z, q.T
  {
    q.Valid() && q.AllLoose() && exists s: Parts :: q.Completes(s) && c.Stands(Combine(s), g)
  }

  /** A `ge_cached` or, with Z == 1, a `ge_precomp`. */
  ghost predicate HoldsCached<P(!new)>(c: Curve<P>, q: Quad, g: P, mixed: bool)
    reads q.X, q.Y, q.Z, q.T
  {
    && q.Valid() && q.AllLoose()
    && exists o: Point :: q.Caches(o, D) && c.Stands(o, g) && (mixed ==> o.z == 1)
  }

  /** `ge_p2_dbl` */
  method Double<P(!new)>(ghost c: Curve<P>, t: Quad, r: Quad, ghost g: P)
    requires c.Laws() && t.Valid() && t.Apart(r) && Holds(c, r, g)
    modifies t.X, t.Y, t.Z, t.T
    ensures HoldsParts(c, t, c.group.add(g, g))
  {
    ghost var o := r.Coordinates();
    GeDouble(t, r);
    ghost var s := DoubleParts(o);
    NegatedParts(s);
    assert c.Doubles(o, g) && c.Inverts(Combine(s), c.group.add(g, g));
    assert t.Completes(Parts(-s.e, s.f, -s.g, s.h));
  }

  /** `ge_p1p1_to_p3`, and with T left out `ge_p1p1_to_p2` */
  method Convert<P(!new)>(ghost c: Curve<P>, u: Quad, t: Quad, ghost g: P)
    requires c.Laws() && u.Valid() && u.Apart(t) && HoldsParts(c, t, g)
    modifies u.X, u.Y, u.Z, u.T
    ensures Holds(c, u, g)
  {
    ghost var s: Parts :| t.Completes(s) && c.Stands(Combine(s), g);
    ToP3(u, t, s);
    assert c.Agrees(Combine(s), u.Coordinates(), g);
  }

  /** `ge_p3_to_cached` */
  method Cache<P(!new)>(ghost c: Curve<P>, q: Quad, u: Quad, ghost g: P)
    requires q.Valid() && q.Apart(u) && Holds(c, u, g)
    modifies q.X, q.Y, q.Z, q.T
    ensures HoldsCached(c, q, g, false)
  {
    ToCached(q, u);
  }

  /** `ge_add` or `ge_madd` */
  method AddCached<P(!new)>(ghost c: Curve<P>, t: Quad, u: Quad, q: Quad, mixed: bool, ghost g: P, ghost h: P)
    requires c.Laws() && t.Valid() && t.Apart(u) && t.Apart(q) && Holds(c, u, g) && HoldsCached(c, q, h, mixed)
    modifies t.X, t.Y, t.Z, t.T
    ensures HoldsParts(c, t, c.group.add(g, h))
  {
    ghost var o: Point :| q.Caches(o, D) && c.Stands(o, h) && (mixed ==> o.z == 1);
    ghost var p := u.Coordinates();
    if mixed {
      GeMadd(t, u, q, o, D);
    } else {
      GeAdd(t, u, q, o, D);
    }
    assert c.Adds(p, g, o, h);
  }

  /** `ge_sub` or `ge_msub` */
  method SubCached<P(!new)>(ghost c: Curve<P>, t: Quad, u: Quad, q: Quad, mixed: bool, ghost g: P, ghost h: P)
    requires c.Laws() && t.Valid() && t.Apart(u) && t.Apart(q) && Holds(c, u, g) && HoldsCached(c, q, h, mixed)
    modifies t.X, t.Y, t.Z, t.T
    ensures HoldsParts(c, t, c.group.add(g, c.group.neg(h)))
  {
    ghost var o: Point :| q.Caches(o, D) && c.Stands(o, h) && (mixed ==> o.z == 1);
    ghost var p := u.Coordinates();
    if mixed {
      GeMsub(t, u, q, o, D);
    } else {
      GeSub(t, u, q, o, D);
    }
    assert c.Inverts(o, h) && c.Adds(p, g, Negated(o), c.group.neg(h));
  }

  /** `ge_p2_0` */
  method Origin<P(!new)>(ghost c: Curve<P>, r: Quad)
    requires c.Laws() && r.Valid()
    modifies r.X, r.Y, r.Z, r.T
    ensures Holds(c, r, c.group.zero)
  {
    FieldOps.Small(r.X, 0);
    FieldOps.Small(r.Y, 1);
    FieldOps.Small(r.Z, 1);
    FieldOps.Small(r.T, 0);
  }

  // ---- The entries of precomp_data.h ----

  /** A `ge_precomp`: y + x, y - x and 2dxy of an affine point. */
  datatype Precomp = Precomp(yplusx: seq<int32>, yminusx: seq<int32>, xy2d: seq<int32>)

  ghost predicate Describes(e: Precomp, o: Point)
  {
    && Loose(e.yplusx) && Loose(e.yminusx) && Loose(e.xy2d) && o.z == 1
    && Cong(Val(e.yplusx), o.y + o.x) && Cong(Val(e.yminusx), o.y - o.x) && Cong(Val(e.xy2d), 2 * D * o.t)
  }

  ghost predicate IsEntry<P(!new)>(c: Curve<P>, e: Precomp, g: P)
  {
    exists o: Point :: Describes(e, o) && c.Stands(o, g)
  }

  /** An entry, where `ge_madd` can take it from. */
  method Load<P(!new)>(ghost c: Curve<P>, e: Precomp, ghost g: P) returns (q: Quad)
    requires IsEntry(c, e, g)
    ensures fresh(q.X) && fresh(q.Y) && fresh(q.Z) && fresh(q.T) && HoldsCached(c, q, g, true)
  {
    hide Cong, Val;
    ghost var o: Point :| Describes(e, o) && c.Stands(o, g);
    q := new Quad();
    Store(q.X, e.yplusx);
    Store(q.Y, e.yminusx);
    FieldOps.Small(q.Z, 1);
    Store(q.T, e.xy2d);
    CongSelf(1);
    assert q.Caches(o, D);
  }
}
