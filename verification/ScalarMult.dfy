/** `ge_double_scalarmult_vartime` (third-party/ed25519/ge.c) on limbs. */
module ScalarMult {
  import opened MachineInts
  import opened LittleEndian
  import opened AbelianGroup
  import opened CurveGroup
  import opened SlidingWindow
  import opened Points

  // ---- The group equation ----

  ghost function Combination<P(!new)>(g: Group<P>, x: int, p: P, y: int, q: P): P
  {
    g.add(g.Times(x, p), g.Times(y, q))
  }

  /** Doubling and adding a digit of each scalar is Horner's rule in both at once. */
  lemma HornerStep<P(!new)>(g: Group<P>, x: int, p: P, d: int, y: int, q: P, e: int)
    requires g.Laws()
    ensures var r := Combination(g, x, p, y, q);
      g.add(g.add(g.add(r, r), g.Times(d, p)), g.Times(e, q)) == Combination(g, d + 2 * x, p, e + 2 * y, q)
  {
    hide Group.Times;
    var xp, yq, dp, eq := g.Times(x, p), g.Times(y, q), g.Times(d, p), g.Times(e, q);
    g.Interchange(xp, yq, xp, yq);
    var xx, yy := g.add(xp, xp), g.add(yq, yq);
    assert g.Associates(g.add(xx, yy), dp, eq);
    g.Interchange(xx, yy, dp, eq);
    g.TimesAdd(x, x, p);
    g.TimesAdd(2 * x, d, p);
    g.TimesAdd(y, y, q);
    g.TimesAdd(2 * y, e, q);
  }

  lemma TimesOne<P(!new)>(g: Group<P>, p: P)
    requires g.Laws()
    ensures g.Times(1, p) == p
  {
    assert g.Neutral(p) && g.Commutes(p, g.zero);
    assert g.Times(1, p) == g.add(g.Times(0, p), p);
  }

  /** One more than the highest position where either recoding has a digit. */
  method Top(r: seq<int8>, s: seq<int8>) returns (top: nat)
    requires |r| == |s|
    ensures top <= |r|
    ensures forall j | top <= j < |r| :: r[j] == 0 && s[j] == 0
    ensures top > 0 ==> r[top - 1] != 0 || s[top - 1] != 0
  {
    top := |r|;
    while top > 0
      invariant 0 <= top <= |r|
      invariant forall j | top <= j < |r| :: r[j] == 0 && s[j] == 0
    {
      if r[top - 1] != 0 || s[top - 1] != 0 {
        break;
      }
      top := top - 1;
    }
  }

  lemma WholeString(r: seq<int8>)
    ensures r[0..] == r
  {}

  lemma NothingYet<P(!new)>(g: Group<P>, r: seq<int8>, p: P, s: seq<int8>, q: P, i: nat)
    requires g.Laws() && i <= |r| == |s|
    requires forall j | i <= j < |r| :: r[j] == 0 && s[j] == 0
    ensures g.zero == Combination(g, Digits(r[i..]), p, Digits(s[i..]), q)
  {
    DigitsZero(r[i..]);
    DigitsZero(s[i..]);
    assert g.Neutral(g.zero);
  }

  // ---- The table of odd multiples ----

  /** Eight structures hold the odd multiples of p. */
  ghost predicate HoldsTable<P(!new)>(c: Curve<P>, table: seq<Quad>, p: P)
    reads set q | q in table :: q.X, set q | q in table :: q.Y, set q | q in table :: q.Z, set q | q in table :: q.T
  {
    |table| == 8 && forall k | 0 <= k < 8 :: HoldsCached(c, table[k], c.group.Times(2 * k + 1, p), false)
  }

  /** The table Bi of precomp_data.h. */
  ghost predicate IsOddTable<P(!new)>(c: Curve<P>, table: seq<Precomp>, p: P)
  {
    |table| == 8 && forall k | 0 <= k < 8 :: IsEntry(c, table[k], c.group.Times(2 * k + 1, p))
  }

  /** t shares no array with an entry. */
  ghost predicate ApartFrom(t: Quad, table: seq<Quad>)
  {
    forall k | 0 <= k < |table| :: t.Apart(table[k])
  }

  /** `ge_add(&t, &A2, &Ai[k]); ge_p1p1_to_p3(&u, &t); ge_p3_to_cached(&Ai[k + 1], &u)` */
  method NextEntry<P(!new)>(ghost c: Curve<P>, a2: Quad, last: Quad, ghost g: P, ghost n: nat) returns (q: Quad)
    requires c.Laws() && n >= 1
    requires Holds(c, a2, c.group.Times(2, g)) && HoldsCached(c, last, c.group.Times(2 * n - 1, g), false)
    ensures fresh(q.X) && fresh(q.Y) && fresh(q.Z) && fresh(q.T)
    ensures HoldsCached(c, q, c.group.Times(2 * n + 1, g), false)
  {
    hide Curve.Laws, Holds, HoldsParts, HoldsCached, Group.Times;
    GroupLaws(c);
    var t := new Quad();
    var u := new Quad();
    q := new Quad();
    AddCached(c, t, a2, last, false, c.group.Times(2, g), c.group.Times(2 * n - 1, g));
    Convert(c, u, t, c.group.add(c.group.Times(2, g), c.group.Times(2 * n - 1, g)));
    c.group.TimesAdd(2, 2 * n - 1, g);
    Cache(c, q, u, c.group.Times(2 * n + 1, g));
  }

  /** Ai[0] and A2. */
  method FirstEntry<P(!new)>(ghost c: Curve<P>, A: Quad, ghost g: P) returns (q: Quad, a2: Quad)
    requires c.Laws() && Holds(c, A, g)
    ensures fresh(q.X) && fresh(q.Y) && fresh(q.Z) && fresh(q.T)
    ensures HoldsCached(c, q, c.group.Times(1, g), false) && Holds(c, a2, c.group.Times(2, g))
  {
    hide Curve.Laws, Holds, HoldsParts, HoldsCached, Group.Times, Group.Laws;
    GroupLaws(c);
    TimesOne(c.group, g);
    c.group.TimesAdd(1, 1, g);
    var t := new Quad();
    a2 := new Quad();
    q := new Quad();
    Cache(c, q, A, g);
    Double(c, t, A, g);
    Convert(c, a2, t, c.group.add(g, g));
  }

  /** The table of the source: A, 3A, .., 15A. */
  method MakeTable<P(!new)>(ghost c: Curve<P>, A: Quad, ghost g: P) returns (ai: seq<Quad>)
    requires c.Laws() && Holds(c, A, g)
    ensures HoldsTable(c, ai, g)
    ensures forall k | 0 <= k < |ai| :: fresh(ai[k].X) && fresh(ai[k].Y) && fresh(ai[k].Z) && fresh(ai[k].T)
  {
    hide Curve.Laws, Holds, HoldsParts, HoldsCached, Group.Times, Group.Laws;
    var q, a2 := FirstEntry(c, A, g);
    ai := [q];
    for n := 1 to 8
      invariant |ai| == n && Holds(c, a2, c.group.Times(2, g))
      invariant forall k | 0 <= k < n :: HoldsCached(c, ai[k], c.group.Times(2 * k + 1, g), false)
      invariant forall k | 0 <= k < n :: fresh(ai[k].X) && fresh(ai[k].Y) && fresh(ai[k].Z) && fresh(ai[k].T)
    {
      q := NextEntry(c, a2, ai[n - 1], g, n);
      ai := ai + [q];
    }
  }

  // ---- The main loop ----

  /** The table index of a digit, and the multiple that is found there. */
  lemma Entry<P(!new)>(c: Curve<P>, p: P, d: int8)
    requires c.Laws() && Window(d) && d != 0
    ensures var k := (if d > 0 then d else -d) / 2;
      0 <= k < 8 && 2 * k as int + 1 == if d > 0 then d as int else -d as int
    ensures c.group.neg(c.group.Times(-d as int, p)) == c.group.Times(d as int, p)
  {
    hide Curve.Laws;
    GroupLaws(c);
    c.group.TimesNeg(-d as int, p);
    if d < 0 {
      assert c.group.Times(d as int, p) == c.group.neg(c.group.Times(-d as int, p));
    } else {
      c.group.NegNeg(c.group.Times(d as int, p));
    }
  }

  /** `if (d > 0) { ge_p1p1_to_p3; ge_add } else if (d < 0) { ge_p1p1_to_p3; ge_sub }`, where q is
      the entry for d. */
  method AddDigit<P(!new)>(ghost c: Curve<P>, t: Quad, u: Quad, q: Quad, mixed: bool, d: int8, ghost g: P, ghost p: P)
    requires c.Laws() && HoldsParts(c, t, g) && u.Valid() && u.Apart(t) && t.Apart(u) && t.Apart(q) && u.Apart(q)
    requires Window(d) && d != 0 && HoldsCached(c, q, c.group.Times(if d > 0 then d as int else -d as int, p), mixed)
    modifies t.X, t.Y, t.Z, t.T, u.X, u.Y, u.Z, u.T
    ensures HoldsParts(c, t, c.group.add(g, c.group.Times(d as int, p)))
  {
    hide Curve.Laws, Holds, HoldsCached, Group.Times;
    Convert(c, u, t, g);
    Entry(c, p, d);
    if d > 0 {
      AddCached(c, t, u, q, mixed, g, c.group.Times(d as int, p));
    } else {
      SubCached(c, t, u, q, mixed, g, c.group.Times(-d as int, p));
    }
  }

  lemma NoDigit<P(!new)>(c: Curve<P>, g: P, p: P)
    requires c.Laws()
    ensures c.group.add(g, c.group.Times(0, p)) == g
  {
    assert c.group.Neutral(g);
  }

  /** The digit of a, if it is not 0. */
  method AddOwn<P(!new)>(ghost c: Curve<P>, t: Quad, u: Quad, ai: seq<Quad>, d: int8, ghost g: P, ghost p: P)
    requires c.Laws() && HoldsParts(c, t, g) && u.Valid() && u.Apart(t) && t.Apart(u)
    requires HoldsTable(c, ai, p) && ApartFrom(t, ai) && ApartFrom(u, ai) && Window(d)
    modifies t.X, t.Y, t.Z, t.T, u.X, u.Y, u.Z, u.T
    ensures HoldsParts(c, t, c.group.add(g, c.group.Times(d as int, p)))
  {
    hide Curve.Laws, Holds, HoldsParts, HoldsCached, Group.Times;
    if d != 0 {
      Entry(c, p, d);
      AddDigit(c, t, u, ai[(if d > 0 then d else -d) / 2], false, d, g, p);
    } else {
      NoDigit(c, g, p);
    }
  }

  /** The digit of b, if it is not 0. */
  method AddBase<P(!new)>(ghost c: Curve<P>, t: Quad, u: Quad, bi: seq<Precomp>, d: int8, ghost g: P, ghost p: P)
    requires c.Laws() && HoldsParts(c, t, g) && u.Valid() && u.Apart(t) && t.Apart(u)
    requires IsOddTable(c, bi, p) && Window(d)
    modifies t.X, t.Y, t.Z, t.T, u.X, u.Y, u.Z, u.T
    ensures HoldsParts(c, t, c.group.add(g, c.group.Times(d as int, p)))
  {
    hide Curve.Laws, Holds, HoldsParts, HoldsCached, IsEntry, Group.Times;
    if d != 0 {
      Entry(c, p, d);
      var q := Load(c, bi[(if d > 0 then d else -d) / 2], c.group.Times(if d > 0 then d as int else -d as int, p));
      AddDigit(c, t, u, q, true, d, g, p);
    } else {
      NoDigit(c, g, p);
    }
  }

  /** One round of the main loop. */
  method Round<P(!new)>(ghost c: Curve<P>, r: Quad, t: Quad, u: Quad, ai: seq<Quad>, bi: seq<Precomp>, x: int8, y: int8,
                        ghost g: P, ghost A: P, ghost B: P)
    requires c.Laws() && r.Valid() && Holds(c, r, g) && t.Valid() && t.Apart(r) && r.Apart(t)
    requires u.Valid() && u.Apart(t) && t.Apart(u) && u.Apart(r)
    requires HoldsTable(c, ai, A) && ApartFrom(t, ai) && ApartFrom(u, ai)
    requires IsOddTable(c, bi, B) && Window(x) && Window(y)
    modifies r.X, r.Y, r.Z, r.T, t.X, t.Y, t.Z, t.T, u.X, u.Y, u.Z, u.T
    ensures var digit := c.group.Times(x as int, A);
      Holds(c, r, c.group.add(c.group.add(c.group.add(g, g), digit), c.group.Times(y as int, B)))
  {
    hide Curve.Laws, Holds, HoldsParts, HoldsTable, IsOddTable, Group.Times;
    Double(c, t, r, g);
    ghost var g2 := c.group.add(g, g);
    AddOwn(c, t, u, ai, x, g2, A);
    ghost var g3 := c.group.add(g2, c.group.Times(x as int, A));
    AddBase(c, t, u, bi, y, g3, B);
    Convert(c, r, t, c.group.add(g3, c.group.Times(y as int, B)));
  }

  /** Both recodings. `x` and `y` are a and b, unless a carry fell off the end. */
  method Recodings(a: seq<byte>, b: seq<byte>) returns (aslide: seq<int8>, bslide: seq<int8>, ghost x: int, ghost y: int)
    requires |a| == |b| == 32
    ensures |aslide| == |bslide| == 256 && forall i | 0 <= i < 256 :: Window(aslide[i]) && Window(bslide[i])
    ensures Digits(aslide) == x && Digits(bslide) == y
    ensures x == LE(a) || (x == LE(a) - TWO256 && LE(a) >= TWO255)
    ensures y == LE(b) || (y == LE(b) - TWO256 && LE(b) >= TWO255)
  {
    hide Window, Digits, LE;
    var ra, rb := new int8[256], new int8[256];
    ghost var lost := Slide(ra, a);
    lost := Slide(rb, b);
    aslide, bslide := ra[..], rb[..];
    x, y := Digits(aslide), Digits(bslide);
  }

  /** `ge_double_scalarmult_vartime` on limbs: r = xA + yB. */
  method DoubleScalarMult<P(!new)>(ghost c: Curve<P>, r: Quad, a: seq<byte>, A: Quad, b: seq<byte>, bi: seq<Precomp>,
                                   ghost g: P, ghost B: P) returns (ghost x: int, ghost y: int)
    requires c.Laws() && r.Valid() && Holds(c, A, g) && |a| == |b| == 32
    requires IsOddTable(c, bi, B)
    modifies r.X, r.Y, r.Z, r.T
    ensures Holds(c, r, Combination(c.group, x, g, y, B))
    ensures LE(a) < TWO255 && LE(b) < TWO255 ==> Holds(c, r, Combination(c.group, LE(a), g, LE(b), B))
    ensures x == LE(a) || (x == LE(a) - TWO256 && LE(a) >= TWO255)
    ensures y == LE(b) || (y == LE(b) - TWO256 && LE(b) >= TWO255)
  {
    hide Curve.Laws, Holds, HoldsTable, IsOddTable, Group.Times, Group.Laws, Digits, LE, Window, Combination;
    GroupLaws(c);
    var aslide, bslide;
    aslide, bslide, x, y := Recodings(a, b);
    var ai := MakeTable(c, A, g);
    var top := Top(aslide, bslide);
    Origin(c, r);
    NothingYet(c.group, aslide, g, bslide, B, top);
    Loop(c, r, ai, bi, aslide, bslide, top, g, B);
    WholeString(aslide);
    WholeString(bslide);
  }

  /** The main loop. */
  method Loop<P(!new)>(ghost c: Curve<P>, r: Quad, ai: seq<Quad>, bi: seq<Precomp>, aslide: seq<int8>, bslide: seq<int8>,
                       top: nat, ghost A: P, ghost B: P)
    requires c.Laws() && r.Valid() && top <= |aslide| == |bslide|
    requires forall i | 0 <= i < |aslide| :: Window(aslide[i]) && Window(bslide[i])
    requires HoldsTable(c, ai, A) && ApartFrom(r, ai) && IsOddTable(c, bi, B)
    requires Holds(c, r, Combination(c.group, Digits(aslide[top..]), A, Digits(bslide[top..]), B))
    modifies r.X, r.Y, r.Z, r.T
    ensures Holds(c, r, Combination(c.group, Digits(aslide[0..]), A, Digits(bslide[0..]), B))
  {
    hide Curve.Laws, Holds, HoldsTable, IsOddTable, Group.Times, Group.Laws, Digits, Window, Combination;
    GroupLaws(c);
    var t := new Quad();
    var u := new Quad();
    for i := top downto 0
      invariant Holds(c, r, Combination(c.group, Digits(aslide[i..]), A, Digits(bslide[i..]), B))
      invariant HoldsTable(c, ai, A)
    {
      ghost var x, y := Digits(aslide[i + 1..]), Digits(bslide[i + 1..]);
      Round(c, r, t, u, ai, bi, aslide[i], bslide[i], Combination(c.group, x, A, y, B), A, B);
      HornerStep(c.group, x, A, aslide[i] as int, y, B, bslide[i] as int);
      DigitsStep(aslide, i);
      DigitsStep(bslide, i);
    }
  }
}
