/** The addition law of the twisted Edwards curve -x^2 + y^2 = 1 + d x^2 y^2 on affine coordinates:
    sums are points of the curve, and addition is associative. Everything is shown for any d, over
    congruences modulo p, from identities between polynomials with integer coefficients. */
module EdwardsLaw {
  import opened FieldElement
  import opened FieldPrime

  datatype Pair = Pair(x: int, y: int)
  {
    ghost function A(): int { x * y }

    ghost function S(): int { y * y - x * x }

    ghost function T(): int { y * y + x * x }
  }

  ghost predicate OnPlane(p: Pair, d: int)
  {
    Cong(p.S(), 1 + d * (p.A() * p.A()))
  }

  /** The numerators of the sum. */
  ghost function NumX(p: Pair, q: Pair): int { p.x * q.y + p.y * q.x }

  ghost function NumY(p: Pair, q: Pair): int { p.y * q.y + p.x * q.x }

  /** And of the difference, up to signs. */
  ghost function DiffX(p: Pair, q: Pair): int { p.x * q.y - p.y * q.x }

  ghost function DiffY(p: Pair, q: Pair): int { p.x * q.x - p.y * q.y }

  /** What the denominators differ from 1 by. */
  ghost function Skew(p: Pair, q: Pair, d: int): int { d * (p.A() * q.A()) }

  /** r is the sum of p and q. */
  ghost predicate Sums(r: Pair, p: Pair, q: Pair, d: int)
  {
    Cong(r.x * (1 + Skew(p, q, d)), NumX(p, q)) && Cong(r.y * (1 - Skew(p, q, d)), NumY(p, q))
  }

  ghost predicate Divides(p: Pair, q: Pair, d: int)
  {
    !Cong(1 + Skew(p, q, d), 0) && !Cong(1 - Skew(p, q, d), 0)
  }

  // ---- Identities ----

  lemma Products(p: Pair, q: Pair)
    ensures NumX(p, q) * NumY(p, q) == p.A() * q.T() + q.A() * p.T()
    ensures DiffX(p, q) * DiffY(p, q) == q.A() * p.T() - p.A() * q.T()
    ensures DiffX(p, q) * NumY(p, q) == p.A() * q.S() - q.A() * p.S()
    ensures DiffY(p, q) * NumX(p, q) == -(p.A() * q.S() + q.A() * p.S())
  {
    Quadratics(p.x, p.y, q.x, q.y);
  }

  lemma Quadratics(x: int, y: int, u: int, v: int)
    ensures (x * v + y * u) * (y * v + x * u) == x * y * (v * v + u * u) + u * v * (y * y + x * x)
    ensures (x * v - y * u) * (x * u - y * v) == u * v * (y * y + x * x) - x * y * (v * v + u * u)
    ensures (x * v - y * u) * (y * v + x * u) == x * y * (v * v - u * u) - u * v * (y * y - x * x)
    ensures (x * u - y * v) * (x * v + y * u) == -(x * y * (v * v - u * u) + u * v * (y * y - x * x))
  {
    CrossedPairs(x, y, u, v);
    Spread3(x * y, v * v, u * u);
    Spread3(u * v, y * y, x * x);
    FourProducts(x * v, y * u, y * v, x * u);
  }

  lemma FourProducts(a: int, b: int, m: int, n: int)
    ensures (a + b) * (m + n) == a * m + a * n + b * m + b * n
    ensures (a - b) * (n - m) == a * n - a * m - b * n + b * m
    ensures (a - b) * (m + n) == a * m + a * n - b * m - b * n
    ensures (n - m) * (a + b) == a * n + b * n - a * m - b * m
  {
    Distribute(a, b, m, n);
    Distribute(a, b, n, m);
    assert (n - m) * (a + b) == (a + b) * (n - m);
  }

  lemma CrossedPairs(x: int, y: int, u: int, v: int)
    ensures x * v * (y * v) == y * v * (x * v) == x * y * (v * v) && x * v * (x * u) == x * u * (x * v) == u * v * (x * x)
    ensures y * u * (y * v) == y * v * (y * u) == u * v * (y * y) && y * u * (x * u) == x * u * (y * u) == x * y * (u * u)
  {
    Interchange(x, v, y, v);
    Interchange(x, v, x, u);
    Interchange(y, u, y, v);
    Interchange(y, u, x, u);
    assert u * v == v * u && x * y == y * x;
    assert x * x * (v * u) == u * v * (x * x) && y * y * (u * v) == u * v * (y * y);
  }

  lemma NormProduct(p: Pair, q: Pair)
    ensures NumY(p, q) * NumY(p, q) - NumX(p, q) * NumX(p, q) == p.S() * q.S()
    ensures NumY(p, q) * NumY(p, q) + NumX(p, q) * NumX(p, q) == p.T() * q.T() + 4 * (p.A() * q.A())
  {
    Norms(p.x, p.y, q.x, q.y);
  }

  lemma Norms(x: int, y: int, u: int, v: int)
    ensures (y * v + x * u) * (y * v + x * u) - (x * v + y * u) * (x * v + y * u) == (y * y - x * x) * (v * v - u * u)
    ensures (y * v + x * u) * (y * v + x * u) + (x * v + y * u) * (x * v + y * u)
            == (y * y + x * x) * (v * v + u * u) + 4 * (x * y * (u * v))
  {
    Binomial(y * v, x * u);
    Binomial(x * v, y * u);
    Interchange(y, v, y, v);
    Interchange(x, u, x, u);
    Interchange(x, v, x, v);
    Interchange(y, u, y, u);
    Interchange(x, y, u, v);
    Interchange(x, y, v, u);
    Distribute(y * y, x * x, v * v, u * u);
    assert y * v * (x * u) == x * u * (y * v) && u * v == v * u;
  }

  lemma Distribute(a: int, b: int, x: int, y: int)
    ensures (a + b) * (x + y) == a * x + a * y + (b * x + b * y)
    ensures (a - b) * (x - y) == a * x - a * y - (b * x - b * y)
    ensures (a + b) * (x - y) == a * x - a * y + (b * x - b * y)
    ensures (a - b) * (x + y) == a * x + a * y - (b * x + b * y)
  {
  }

  // ---- Three points ----

  /** The numerators for three points. */
  ghost function TripleX(p: Pair, q: Pair, r: Pair): int { NumX(p, q) * r.y + NumY(p, q) * r.x }

  ghost function TripleY(p: Pair, q: Pair, r: Pair): int { NumY(p, q) * r.y + NumX(p, q) * r.x }

  /** What d turns up with in them. */
  ghost function TwistX(p: Pair, q: Pair, r: Pair): int { NumY(p, q) * r.x - NumX(p, q) * r.y }

  ghost function TwistY(p: Pair, q: Pair, r: Pair): int { NumY(p, q) * r.y - NumX(p, q) * r.x }

  ghost function Mixed(p: Pair, q: Pair): int { NumX(p, q) * NumY(p, q) }

  ghost function Wedge(p: Pair, q: Pair): int { p.A() * q.T() - q.A() * p.T() }

  lemma Trilinear(a: int, b: int, c: int, e: int, x: int, y: int)
    ensures (a * e + b * c) * y + (b * e + a * c) * x == c * (b * y + a * x) + e * (a * y + b * x)
    ensures (b * e + a * c) * x - (a * e + b * c) * y == c * (a * x - b * y) + e * (b * x - a * y)
    ensures (a * e + b * c) * x + (b * e + a * c) * y == c * (b * x + a * y) + e * (a * x + b * y)
    ensures (b * e + a * c) * y - (a * e + b * c) * x == c * (a * y - b * x) + e * (b * y - a * x)
  {
    Spread(a * e, b * c, x);
    Spread(a * e, b * c, y);
    Spread(b * e, a * c, x);
    Spread(b * e, a * c, y);
    SwapFactors(a, e, x);
    SwapFactors(a, e, y);
    SwapFactors(b, c, x);
    SwapFactors(b, c, y);
    SwapFactors(b, e, x);
    SwapFactors(b, e, y);
    SwapFactors(a, c, x);
    SwapFactors(a, c, y);
    Spread3(c, b * y, a * x);
    Spread3(e, a * y, b * x);
    Spread3(c, b * x, a * y);
    Spread3(e, a * x, b * y);
  }

  lemma Spread(a: int, b: int, x: int)
    ensures (a + b) * x == a * x + b * x && (a - b) * x == a * x - b * x
  {
  }

  lemma Spread3(c: int, a: int, b: int)
    ensures c * (a + b) == c * a + c * b && c * (a - b) == c * a - c * b && c * (b - a) == c * b - c * a
  {
  }

  /** The numerators in the coordinates of the middle point, and in those of the last. */
  lemma Expanded(p: Pair, q: Pair, r: Pair)
    ensures TripleX(p, q, r) == q.x * NumY(p, r) + q.y * NumX(p, r)
    ensures TripleY(p, q, r) == q.x * NumX(p, r) + q.y * NumY(p, r)
    ensures TwistX(p, q, r) == q.x * DiffY(p, r) - q.y * DiffX(p, r)
    ensures TwistY(p, q, r) == q.x * DiffX(p, r) - q.y * DiffY(p, r)
  {
    Trilinear(p.x, p.y, q.x, q.y, r.x, r.y);
    assert q.y * (p.y * r.x - p.x * r.y) == -(q.y * DiffX(p, r));
    assert q.y * (p.y * r.y - p.x * r.x) == -(q.y * DiffY(p, r));
  }

  lemma Reversed(p: Pair, q: Pair, r: Pair)
    ensures TripleX(r, q, p) == TripleX(p, q, r) && TripleY(r, q, p) == TripleY(p, q, r)
    ensures TwistX(r, q, p) == r.y * DiffX(p, q) + r.x * DiffY(p, q)
    ensures TwistY(r, q, p) == -(r.y * DiffY(p, q) + r.x * DiffX(p, q))
  {
    Expanded(p, q, r);
    Expanded(r, q, p);
    assert NumX(p, r) == NumX(r, p) && NumY(p, r) == NumY(r, p);
    Trilinear(r.x, r.y, q.x, q.y, p.x, p.y);
    Trilinear(q.x, q.y, r.x, r.y, p.x, p.y);
  }

  // ---- What makes the two ways of adding three points meet ----

  /** o is 1 for the x coordinate and -1 for the y coordinate. */
  ghost function Triple(o: int, p: Pair, q: Pair, r: Pair): int
  {
    if o == 1 then TripleX(p, q, r) else TripleY(p, q, r)
  }

  ghost function Twist(o: int, p: Pair, q: Pair, r: Pair): int
  {
    if o == 1 then TwistX(p, q, r) else TwistY(p, q, r)
  }

  lemma Pairwise(o: int, p: Pair, q: Pair, r: Pair)
    requires o == 1 || o == -1
    ensures q.A() * p.S() * Triple(o, p, q, r) + p.A() * q.S() * Twist(o, p, q, r)
            + o * (Twist(o, r, q, p) * Mixed(p, q)) == 0
  {
    Products(p, q);
    Reversed(p, q, r);
    var a, b, m, n, u, v := q.A() * p.S(), p.A() * q.S(), NumX(p, q), NumY(p, q), DiffX(p, q), DiffY(p, q);
    if o == 1 {
      PairwiseSum(a, b, m, n, u, v, r.x, r.y);
    } else {
      PairwiseSum(a, b, m, n, u, v, r.y, r.x);
    }
  }

  lemma PairwiseSum(a: int, b: int, m: int, n: int, u: int, v: int, x: int, y: int)
    requires u * n == b - a && v * m == -(b + a)
    ensures a * (m * y + n * x) + b * (n * x - m * y) + (y * u + x * v) * (m * n) == 0
  {
    Spread3(a, m * y, n * x);
    Spread3(b, n * x, m * y);
    Spread(y * u, x * v, m * n);
    assert y * u * (m * n) == y * m * (u * n) by { Interchange(y, u, m, n); }
    assert x * v * (m * n) == x * n * (v * m) by { Interchange(x, v, n, m); assert m * n == n * m; }
    assert y * m * (b - a) == y * m * b - y * m * a;
    assert x * n * -(b + a) == -(x * n * b) - x * n * a;
    assert a * (m * y) == y * m * a && b * (m * y) == y * m * b;
    assert a * (n * x) == x * n * a && b * (n * x) == x * n * b;
  }

  lemma Ends(o: int, p: Pair, q: Pair, r: Pair)
    requires o == 1 || o == -1
    ensures o * (Triple(o, p, q, r) * Wedge(p, r)) + p.A() * r.S() * Twist(o, p, q, r)
            - r.A() * p.S() * Twist(o, r, q, p) == 0
  {
    Products(p, r);
    Expanded(p, q, r);
    Expanded(r, q, p);
    var s, t, m, n, u, v := p.A() * r.S(), r.A() * p.S(), NumX(p, r), NumY(p, r), DiffX(p, r), DiffY(p, r);
    assert DiffX(r, p) == -u && DiffY(r, p) == v && Wedge(p, r) == -(u * v);
    if o == 1 {
      EndsSum(s, t, m, n, u, v, q.x, q.y);
      assert q.x * v - q.y * -u == q.x * v + q.y * u;
    } else {
      EndsSum(s, t, m, n, u, v, q.y, q.x);
      assert q.x * -u - q.y * v == -(q.y * v + q.x * u);
      Signs(TripleY(p, q, r), u * v, t, q.y * v + q.x * u, s, q.y * v - q.x * u);
    }
  }

  lemma EndsSum(s: int, t: int, m: int, n: int, u: int, v: int, x: int, y: int)
    requires u * n == s - t && v * m == -(s + t)
    ensures (x * n + y * m) * -(u * v) + s * (x * v - y * u) - t * (x * v + y * u) == 0
  {
    Spread(x * n, y * m, u * v);
    Spread3(s, x * v, y * u);
    Spread3(t, x * v, y * u);
    assert x * n * (u * v) == x * v * (u * n) by { assert u * v == v * u && u * n == n * u; Interchange(x, n, v, u); }
    assert y * m * (u * v) == y * u * (v * m) by { Interchange(y, m, u, v); assert v * m == m * v; }
    assert x * v * (s - t) == s * (x * v) - t * (x * v);
    assert y * u * -(s + t) == -(s * (y * u)) - t * (y * u);
  }

  lemma Signs(a: int, b: int, t: int, c: int, s: int, e: int)
    ensures a * -b == -(a * b) && t * -c == -(t * c) && s * -e == -(s * e)
  {
  }

  lemma Top(o: int, p: Pair, q: Pair, r: Pair)
    requires o == 1 || o == -1
    ensures r.S() * Mixed(p, q) - o * (r.A() * (p.S() * q.S())) == -o * (Triple(-o, p, q, r) * Twist(o, p, q, r))
  {
    NormProduct(p, q);
    var m, n, x, y := NumX(p, q), NumY(p, q), r.x, r.y;
    TopSum(m, n, x, y);
  }

  lemma TopSum(m: int, n: int, x: int, y: int)
    ensures (y * y - x * x) * (m * n) - x * y * (n * n - m * m) == -((n * y + m * x) * (n * x - m * y))
    ensures (y * y - x * x) * (m * n) + x * y * (n * n - m * m) == (m * y + n * x) * (n * y - m * x)
  {
    Spread(y * y, x * x, m * n);
    Spread3(x * y, n * n, m * m);
    Distribute(n * y, m * x, n * x, m * y);
    Distribute(m * y, n * x, n * y, m * x);
    Interchange(n, y, n, x);
    Interchange(n, y, m, y);
    Interchange(m, x, n, x);
    Interchange(m, x, m, y);
    Interchange(m, y, n, y);
    Interchange(n, x, n, y);
    Interchange(n, x, m, x);
    Interchange(m, y, m, x);
    assert x * y == y * x && m * n == n * m;
    assert (y * y) * (m * n) == m * n * (y * y) && (x * x) * (m * n) == m * n * (x * x);
    assert x * y * (n * n) == n * n * (x * y) && x * y * (m * m) == m * m * (x * y);
  }

  // ---- Associativity ----

  /** What is left of the difference of the two fractions, for u1, u2 and u3 in place of d a^2. */
  ghost function Bracket(o: int, p: Pair, q: Pair, r: Pair, u1: int, u2: int, u3: int): int
  {
    Rest(o, p.A(), q.A(), r.A(), u1, u2, u3, Triple(o, p, q, r), Twist(o, p, q, r), Twist(o, r, q, p),
         Mixed(p, q), Mixed(q, r), Wedge(p, r))
  }

  ghost function Rest(o: int, a1: int, a2: int, a3: int, u1: int, u2: int, u3: int, t: int, g: int, h: int,
                      m: int, n: int, w: int): int
  {
    a2 * t * (u1 - u3) + o * (t * w) + a1 * g * (1 - u2 * u3) - a3 * h * (1 - u1 * u2) + o * (u1 * (g * n) - u3 * (h * m))
  }

  /** On the curve d a^2 is S - 1, and then nothing is left. */
  lemma NothingLeft(o: int, p: Pair, q: Pair, r: Pair)
    requires o == 1 || o == -1
    ensures Bracket(o, p, q, r, p.S() - 1, q.S() - 1, r.S() - 1) == 0
  {
    hide Triple, Twist, Mixed, Wedge, Pair.A, Pair.S, Pair.T, Rest;
    Symmetric(o, p, q, r);
    Symmetric(-o, p, q, r);
    Pairwise(o, p, q, r);
    Pairwise(o, r, q, p);
    Ends(o, p, q, r);
    Top(o, p, q, r);
    Top(o, r, q, p);
    RestVanishes(o, p.A(), q.A(), r.A(), p.S(), q.S(), r.S(), Triple(o, p, q, r), Triple(-o, p, q, r),
                 Twist(o, p, q, r), Twist(o, r, q, p), Mixed(p, q), Mixed(q, r), Wedge(p, r));
  }

  lemma Symmetric(o: int, p: Pair, q: Pair, r: Pair)
    ensures Triple(o, r, q, p) == Triple(o, p, q, r) && Mixed(r, q) == Mixed(q, r)
  {
    hide Pair.A, Pair.S, Pair.T, TwistX, TwistY;
    Reversed(p, q, r);
    assert NumX(r, q) == NumX(q, r) && NumY(r, q) == NumY(q, r);
  }

  lemma RestVanishes(o: int, a1: int, a2: int, a3: int, s1: int, s2: int, s3: int, t: int, c: int, g: int, h: int,
                     m: int, n: int, w: int)
    requires o == 1 || o == -1
    requires a2 * s1 * t + a1 * s2 * g + o * (h * m) == 0 && a2 * s3 * t + a3 * s2 * h + o * (g * n) == 0
    requires o * (t * w) + a1 * s3 * g - a3 * s1 * h == 0
    requires s3 * m - o * (a3 * (s1 * s2)) == -o * (c * g) && s1 * n - o * (a1 * (s3 * s2)) == -o * (c * h)
    ensures Rest(o, a1, a2, a3, s1 - 1, s2 - 1, s3 - 1, t, g, h, m, n, w) == 0
  {
    hide Rest;
    var u := a1 * (s3 * s2) * g;
    var v := a3 * (s1 * s2) * h;
    TopTimes(o, s3 * m, a3 * (s1 * s2), c, g, h);
    TopTimes(o, s1 * n, a1 * (s3 * s2), c, h, g);
    assert c * g * h == c * h * g;
    assert a2 * t * (s1 - 1 - (s3 - 1)) == a2 * s1 * t - a2 * s3 * t by { LessOne(a2, t, s1, s3); }
    assert a1 * g * (1 - (s2 - 1) * (s3 - 1)) == a1 * s2 * g + a1 * s3 * g - u by { WithoutOnes(a1, g, s2, s3); }
    assert a3 * h * (1 - (s1 - 1) * (s2 - 1)) == a3 * s1 * h + a3 * s2 * h - v by {
      WithoutOnes(a3, h, s1, s2);
      assert s2 * s1 == s1 * s2;
    }
    OneLess(s1, g, n);
    OneLess(s3, h, m);
    SumOfTerms(o, a2 * s1 * t, a2 * s3 * t, t * w, a1 * s2 * g, a1 * s3 * g, a3 * s1 * h, a3 * s2 * h, u, v,
               s1 * n * g, s3 * m * h, g * n, h * m);
    RestIs(o, a1, a2, a3, s1 - 1, s2 - 1, s3 - 1, t, g, h, m, n, w);
  }

  lemma RestIs(o: int, a1: int, a2: int, a3: int, u1: int, u2: int, u3: int, t: int, g: int, h: int,
               m: int, n: int, w: int)
    ensures Rest(o, a1, a2, a3, u1, u2, u3, t, g, h, m, n, w)
            == a2 * t * (u1 - u3) + o * (t * w) + a1 * g * (1 - u2 * u3) - a3 * h * (1 - u1 * u2)
               + o * (u1 * (g * n) - u3 * (h * m))
  {
  }

  lemma TopTimes(o: int, x: int, y: int, c: int, g: int, h: int)
    requires (o == 1 || o == -1) && x - o * y == -o * (c * g)
    ensures o * (x * h) - y * h == -(c * g * h)
  {
    if o == 1 {
      assert (x - y) * h == x * h - y * h;
      assert -(c * g) * h == -(c * g * h);
    } else {
      assert (x + y) * h == x * h + y * h;
    }
  }

  lemma LessOne(a: int, t: int, s: int, r: int)
    ensures a * t * (s - 1 - (r - 1)) == a * s * t - a * r * t
  {
    assert a * t * (s - r) == a * t * s - a * t * r;
    assert a * t * s == a * s * t && a * t * r == a * r * t;
  }

  lemma WithoutOnes(a: int, g: int, s: int, t: int)
    ensures a * g * (1 - (s - 1) * (t - 1)) == a * s * g + a * t * g - a * (t * s) * g
  {
    var b, c := a * g, t * s;
    assert (s - 1) * (t - 1) == c - s - t + 1;
    assert b * (s + t - c) == b * s + b * t - b * c;
    assert b * s == a * s * g && b * t == a * t * g;
    assert b * c == a * c * g;
  }

  lemma OneLess(s: int, g: int, n: int)
    ensures (s - 1) * (g * n) == s * n * g - g * n
  {
    assert s * (g * n) == s * n * g;
  }

  lemma SumOfTerms(o: int, x1: int, x3: int, tw: int, y2: int, y3: int, z1: int, z2: int, u: int, v: int, sn: int,
                   sm: int, gn: int, hm: int)
    requires (o == 1 || o == -1) && x1 + y2 + o * hm == 0 && x3 + z2 + o * gn == 0 && o * tw + y3 - z1 == 0
    requires o * sm - v == o * sn - u
    ensures x1 - x3 + o * tw + (y2 + y3 - u) - (z1 + z2 - v) + o * (sn - gn - (sm - hm)) == 0
  {
  }

  /** (p + q) + r as a fraction: the numerator ... */
  ghost function Num(o: int, p: Pair, q: Pair, r: Pair, d: int): int
  {
    Triple(o, p, q, r) + Skew(p, q, d) * Twist(o, p, q, r)
  }

  /** ... and the denominator. */
  ghost function Den(o: int, p: Pair, q: Pair, r: Pair, d: int): int
  {
    1 - Skew(p, q, d) * Skew(p, q, d) + o * (d * (Mixed(p, q) * r.A()))
  }

  lemma Factored(o: int, p: Pair, q: Pair, r: Pair, d: int)
    requires o == 1 || o == -1
    ensures Num(o, p, q, r, d) * Den(o, r, q, p, d) - Num(o, r, q, p, d) * Den(o, p, q, r, d)
            == d * q.A() * Bracket(o, p, q, r, Skew(p, p, d), Skew(q, q, d), Skew(r, r, d))
  {
    Symmetric(o, p, q, r);
    MixedWedge(p, q, r);
    hide Triple, Twist, Mixed, Wedge, Pair.A, Rest;
    var a1, a2, a3 := p.A(), q.A(), r.A();
    var t, g, h := Triple(o, p, q, r), Twist(o, p, q, r), Twist(o, r, q, p);
    var m, n, w := Mixed(p, q), Mixed(q, r), Wedge(p, r);
    SkewSquare(d, a1, a2);
    SkewSquare(d, a3, a2);
    FactorTerms(o, d, a1, a2, a3, t, g, h, m, n, w);
    RestIs(o, a1, a2, a3, d * (a1 * a1), d * (a2 * a2), d * (a3 * a3), t, g, h, m, n, w);
  }

  lemma MixedWedge(p: Pair, q: Pair, r: Pair)
    ensures Mixed(q, r) * p.A() - Mixed(p, q) * r.A() == q.A() * Wedge(p, r)
  {
    Products(p, q);
    Products(q, r);
    WedgeTerms(p.A(), q.A(), r.A(), p.T(), q.T(), r.T());
  }

  lemma WedgeTerms(a: int, b: int, c: int, t: int, u: int, v: int)
    ensures (b * v + c * u) * a - (a * u + b * t) * c == b * (a * v - c * t)
  {
  }

  lemma SkewSquare(d: int, a: int, b: int)
    ensures d * (a * b) * (d * (a * b)) == d * (a * a) * (d * (b * b))
  {
    Interchange(d, a * b, d, a * b);
    Interchange(d, a * a, d, b * b);
    Interchange(a, b, a, b);
  }

  lemma FactorTerms(o: int, d: int, a1: int, a2: int, a3: int, t: int, g: int, h: int, m: int, n: int, w: int)
    requires (o == 1 || o == -1) && n * a1 - m * a3 == a2 * w
    ensures var u1, u2, u3 := d * (a1 * a1), d * (a2 * a2), d * (a3 * a3);
      (t + d * (a1 * a2) * g) * (1 - u3 * u2 + o * (d * (n * a1)))
      - (t + d * (a3 * a2) * h) * (1 - u1 * u2 + o * (d * (m * a3)))
      == d * a2 * (a2 * t * (u1 - u3) + o * (t * w) + a1 * g * (1 - u2 * u3) - a3 * h * (1 - u1 * u2)
                   + o * (u1 * (g * n) - u3 * (h * m)))
  {
    var u1, u2, u3, b := d * (a1 * a1), d * (a2 * a2), d * (a3 * a3), d * a2;
    var x, y := a1 * g, a3 * h;
    var e, f := o * (d * (n * a1)), o * (d * (m * a3));
    assert d * (a1 * a2) * g == b * x by { SkewFactor(d, a1, a2, g); }
    assert d * (a3 * a2) * h == b * y by { SkewFactor(d, a3, a2, h); }
    Distribute(t, b * x, 1 - u3 * u2, e);
    Distribute(t, b * y, 1 - u1 * u2, f);
    assert t * (1 - u3 * u2) - t * (1 - u1 * u2) == b * (a2 * t * (u1 - u3)) by { SquaresPart(d, a2, t, u1, u3); }
    assert t * e - t * f == b * (o * (t * w)) by { WedgePart(o, d, a2, t, w, n * a1, m * a3); }
    assert b * x * e == b * (o * (u1 * (g * n))) by { TwistPart(o, b, d, a1, g, n); }
    assert b * y * f == b * (o * (u3 * (h * m))) by { TwistPart(o, b, d, a3, h, m); }
    assert u3 * u2 == u2 * u3;
    Gathered(b, a2 * t * (u1 - u3), o * (t * w), x, y, 1 - u2 * u3, 1 - u1 * u2, o, u1 * (g * n), u3 * (h * m));
  }

  lemma SkewFactor(d: int, a: int, b: int, g: int)
    ensures d * (a * b) * g == d * b * (a * g)
  {
    assert d * (a * b) == d * b * a;
    Regroup(d * b, a, g);
  }

  lemma SquaresPart(d: int, a: int, t: int, u1: int, u3: int)
    ensures t * (1 - u3 * (d * (a * a))) - t * (1 - u1 * (d * (a * a))) == d * a * (a * t * (u1 - u3))
  {
    var u := d * (a * a);
    OneMinus(t, u, u1);
    OneMinus(t, u, u3);
    assert t * u == d * a * (a * t) by {
      Regroup(d, a, a);
      Regroup(d * a, a, t);
      assert t * (d * a * a) == d * a * a * t;
    }
    Regroup(d * a, a * t, u1 - u3);
  }

  lemma OneMinus(t: int, u: int, v: int)
    ensures t * (1 - v * u) == t - t * u * v
  {
    Regroup(t, u, v);
    assert v * u == u * v;
  }

  lemma WedgePart(o: int, d: int, a: int, t: int, w: int, x: int, y: int)
    requires (o == 1 || o == -1) && x - y == a * w
    ensures t * (o * (d * x)) - t * (o * (d * y)) == d * a * (o * (t * w))
  {
    assert d * x - d * y == d * (a * w) == d * a * w;
    assert t * (d * x) - t * (d * y) == t * (d * a * w) == d * a * (t * w);
  }

  lemma TwistPart(o: int, b: int, d: int, a: int, g: int, n: int)
    requires o == 1 || o == -1
    ensures b * (a * g) * (o * (d * (n * a))) == b * (o * (d * (a * a) * (g * n)))
  {
    assert a * g * (d * (n * a)) == d * (a * a) * (g * n) by {
      Interchange(a, g, d, n * a);
      assert g * (n * a) == a * (g * n);
      assert a * d * (a * (g * n)) == d * (a * a) * (g * n);
    }
    Regroup(b, a * g, d * (n * a));
  }

  lemma Gathered(b: int, r: int, s: int, x: int, y: int, v: int, w: int, o: int, k: int, l: int)
    requires o == 1 || o == -1
    ensures b * r + b * s + b * x * v - b * y * w + b * (o * k) - b * (o * l)
            == b * (r + s + x * v - y * w + o * (k - l))
  {
    Regroup(b, x, v);
    Regroup(b, y, w);
  }

  lemma RestCongruent(o: int, a1: int, a2: int, a3: int, u1: int, u2: int, u3: int, v1: int, v2: int, v3: int,
                      t: int, g: int, h: int, m: int, n: int, w: int)
    requires Cong(u1, v1) && Cong(u2, v2) && Cong(u3, v3)
    ensures Cong(Rest(o, a1, a2, a3, u1, u2, u3, t, g, h, m, n, w), Rest(o, a1, a2, a3, v1, v2, v3, t, g, h, m, n, w))
  {
    hide Cong;
    CongSelf(1);
    CongAdd(u1, v1, u3, v3);
    CongMul(u2, v2, u3, v3);
    CongMul(u1, v1, u2, v2);
    CongAdd(1, 1, u2 * u3, v2 * v3);
    CongAdd(1, 1, u1 * u2, v1 * v2);
    CongScale(a2 * t, u1 - u3, v1 - v3);
    CongScale(a1 * g, 1 - u2 * u3, 1 - v2 * v3);
    CongScale(a3 * h, 1 - u1 * u2, 1 - v1 * v2);
    CongScale(g * n, u1, v1);
    CongScale(h * m, u3, v3);
    CongAdd(u1 * (g * n), v1 * (g * n), u3 * (h * m), v3 * (h * m));
    CongScale(o, u1 * (g * n) - u3 * (h * m), v1 * (g * n) - v3 * (h * m));
    CongSelf(o * (t * w));
    CongAdd(a2 * t * (u1 - u3), a2 * t * (v1 - v3), o * (t * w), o * (t * w));
    CongAdd(a2 * t * (u1 - u3) + o * (t * w), a2 * t * (v1 - v3) + o * (t * w),
            a1 * g * (1 - u2 * u3), a1 * g * (1 - v2 * v3));
    CongAdd(a2 * t * (u1 - u3) + o * (t * w) + a1 * g * (1 - u2 * u3),
            a2 * t * (v1 - v3) + o * (t * w) + a1 * g * (1 - v2 * v3),
            a3 * h * (1 - u1 * u2), a3 * h * (1 - v1 * v2));
    CongAdd(a2 * t * (u1 - u3) + o * (t * w) + a1 * g * (1 - u2 * u3) - a3 * h * (1 - u1 * u2),
            a2 * t * (v1 - v3) + o * (t * w) + a1 * g * (1 - v2 * v3) - a3 * h * (1 - v1 * v2),
            o * (u1 * (g * n) - u3 * (h * m)), o * (v1 * (g * n) - v3 * (h * m)));
  }

  /** The two fractions are the same. */
  lemma FractionsMeet(o: int, p: Pair, q: Pair, r: Pair, d: int)
    requires (o == 1 || o == -1) && OnPlane(p, d) && OnPlane(q, d) && OnPlane(r, d)
    ensures Cong(Num(o, p, q, r, d) * Den(o, r, q, p, d), Num(o, r, q, p, d) * Den(o, p, q, r, d))
  {
    hide Num, Den, Triple, Twist, Mixed, Wedge, Rest;
    Factored(o, p, q, r, d);
    NothingLeft(o, p, q, r);
    SkewOnPlane(p, d);
    SkewOnPlane(q, d);
    SkewOnPlane(r, d);
    hide Cong, OnPlane, Skew, Pair.A, Pair.S;
    RestCongruent(o, p.A(), q.A(), r.A(), Skew(p, p, d), Skew(q, q, d), Skew(r, r, d), p.S() - 1, q.S() - 1, r.S() - 1,
                  Triple(o, p, q, r), Twist(o, p, q, r), Twist(o, r, q, p), Mixed(p, q), Mixed(q, r), Wedge(p, r));
    TimesZero(Bracket(o, p, q, r, Skew(p, p, d), Skew(q, q, d), Skew(r, r, d)), d * q.A());
    var x, y := Num(o, p, q, r, d) * Den(o, r, q, p, d), Num(o, r, q, p, d) * Den(o, p, q, r, d);
    CongSelf(y);
    CongAdd(x - y, 0, y, y);
  }

  lemma SkewOnPlane(p: Pair, d: int)
    requires OnPlane(p, d)
    ensures Cong(Skew(p, p, d), p.S() - 1)
  {
    var u := d * (p.A() * p.A());
    hide Cong, Pair.A, Pair.S;
    CongSelf(1);
    CongAdd(p.S(), 1 + u, 1, 1);
    CongSym(p.S() - 1, 1 + u - 1);
  }

  ghost function Coordinate(o: int, p: Pair): int { if o == 1 then p.x else p.y }

  /** (p + q) + r is the fraction, and there is no division by zero. */
  lemma IsFraction(o: int, p: Pair, q: Pair, r: Pair, s: Pair, t: Pair, d: int)
    requires Fermat() && (o == 1 || o == -1)
    requires Sums(s, p, q, d) && Sums(t, s, r, d) && Divides(p, q, d) && Divides(s, r, d)
    ensures Cong(Coordinate(o, t) * Den(o, p, q, r, d), Num(o, p, q, r, d)) && !Cong(Den(o, p, q, r, d), 0)
  {
    var k, x, y, c := Skew(p, q, d), NumX(p, q), NumY(p, q), o * (d * r.A());
    var m, n := First(o, r), First(-o, r);
    LastSum(o, s, r, t, d);
    DenIs(o, p, q, r, d);
    NumIs(o, p, q, r, d);
    hide Cong, Fermat, Skew, NumX, NumY, Pair.A, Num, Den, Coordinate, First;
    Scaled(s.x, s.y, x, y, k, c, Coordinate(o, t), m, n);
    ProductNonzero(1 + k, 1 - k);
    ProductNonzero((1 + k) * (1 - k), 1 + c * (s.x * s.y));
    if Cong(Den(o, p, q, r, d), 0) {
      CongTrans((1 + k) * (1 - k) * (1 + c * (s.x * s.y)), Den(o, p, q, r, d), 0);
    }
  }

  ghost function First(o: int, r: Pair): int { if o == 1 then r.y else r.x }

  lemma LastSum(o: int, s: Pair, r: Pair, t: Pair, d: int)
    requires (o == 1 || o == -1) && Sums(t, s, r, d) && Divides(s, r, d)
    ensures var b := 1 + o * (d * r.A()) * (s.x * s.y);
      Cong(Coordinate(o, t) * b, s.x * First(o, r) + s.y * First(-o, r)) && !Cong(b, 0)
  {
    SkewIs(s, r, d);
    NumsAre(s, r);
    hide Cong, Skew, NumX, NumY, Pair.A;
    var e := d * r.A();
    assert -1 * e * (s.x * s.y) == -(e * (s.x * s.y));
  }

  lemma DenIs(o: int, p: Pair, q: Pair, r: Pair, d: int)
    ensures var k := Skew(p, q, d);
      Den(o, p, q, r, d) == (1 + k) * (1 - k) + o * (d * r.A()) * (NumX(p, q) * NumY(p, q))
  {
    hide Skew, NumX, NumY, Pair.A;
    var k := Skew(p, q, d);
    Distribute(1, k, 1, -k);
    DenTerms(o, d, r.A(), NumX(p, q) * NumY(p, q));
  }

  lemma NumIs(o: int, p: Pair, q: Pair, r: Pair, d: int)
    requires o == 1 || o == -1
    ensures var k := Skew(p, q, d);
      Num(o, p, q, r, d) == NumX(p, q) * (1 - k) * First(o, r) + NumY(p, q) * (1 + k) * First(-o, r)
  {
    hide Skew, NumX, NumY;
    NumTerms(NumX(p, q), NumY(p, q), Skew(p, q, d), r.x, r.y);
  }

  lemma SkewIs(s: Pair, r: Pair, d: int)
    ensures Skew(s, r, d) == d * r.A() * (s.x * s.y)
  {
    assert s.x * s.y * r.A() == r.A() * (s.x * s.y);
    Regroup(d, r.A(), s.x * s.y);
  }

  lemma NumsAre(s: Pair, r: Pair)
    ensures NumX(s, r) == s.x * r.y + s.y * r.x && NumY(s, r) == s.x * r.x + s.y * r.y
  {
  }

  lemma DenTerms(o: int, d: int, a: int, m: int)
    ensures o * (d * (m * a)) == o * (d * a) * m
  {
    assert d * (m * a) == d * a * m;
    Regroup(o, d * a, m);
  }

  lemma NumTerms(x: int, y: int, k: int, u: int, v: int)
    ensures x * (1 - k) * v + y * (1 + k) * u == x * v + y * u + k * (y * u - x * v)
    ensures x * (1 - k) * u + y * (1 + k) * v == y * v + x * u + k * (y * v - x * u)
  {
    NumTerm(x, k, u);
    NumTerm(x, k, v);
    NumTerm(y, k, u);
    NumTerm(y, k, v);
    Spread3(k, y * u, x * v);
    Spread3(k, y * v, x * u);
  }

  lemma NumTerm(x: int, k: int, v: int)
    ensures x * (1 - k) * v == x * v - k * (x * v) && x * (1 + k) * v == x * v + k * (x * v)
  {
    assert x * k * v == k * (x * v);
    assert x * (1 - k) == x - x * k && x * (1 + k) == x + x * k;
    Spread(x, x * k, v);
  }

  /** Multiplying a sum by the denominators of one of its parts. */
  lemma Scaled(sx: int, sy: int, x: int, y: int, k: int, c: int, l: int, m: int, n: int)
    requires Cong(sx * (1 + k), x) && Cong(sy * (1 - k), y) && Cong(l * (1 + c * (sx * sy)), sx * m + sy * n)
    ensures Cong((1 + k) * (1 - k) * (1 + c * (sx * sy)), (1 + k) * (1 - k) + c * (x * y))
    ensures Cong(l * ((1 + k) * (1 - k) + c * (x * y)), x * (1 - k) * m + y * (1 + k) * n)
  {
    hide Cong;
    ScaledBottom(sx, sy, x, y, 1 + k, 1 - k, c);
    ScaledTop(sx, sy, x, y, 1 + k, 1 - k, m, n);
    ScaledBoth((1 + k) * (1 - k), 1 + c * (sx * sy), (1 + k) * (1 - k) + c * (x * y), l, sx * m + sy * n,
               x * (1 - k) * m + y * (1 + k) * n);
  }

  lemma ScaledBottom(sx: int, sy: int, x: int, y: int, u: int, v: int, c: int)
    requires Cong(sx * u, x) && Cong(sy * v, y)
    ensures Cong(u * v * (1 + c * (sx * sy)), u * v + c * (x * y))
  {
    hide Cong;
    CongMul(sx * u, x, sy * v, y);
    CongScale(c, sx * u * (sy * v), x * y);
    CongSelf(u * v);
    CongAdd(u * v, u * v, c * (sx * u * (sy * v)), c * (x * y));
    ScaledDen(sx, sy, u, v, c);
  }

  lemma ScaledTop(sx: int, sy: int, x: int, y: int, u: int, v: int, m: int, n: int)
    requires Cong(sx * u, x) && Cong(sy * v, y)
    ensures Cong(u * v * (sx * m + sy * n), x * v * m + y * u * n)
  {
    hide Cong;
    CongScale(v, sx * u, x);
    CongScale(m, sx * u * v, x * v);
    CongScale(u, sy * v, y);
    CongScale(n, sy * v * u, y * u);
    CongAdd(sx * u * v * m, x * v * m, sy * v * u * n, y * u * n);
    ScaledNum(sx, sy, u, v, m, n);
  }

  lemma ScaledBoth(z: int, b: int, w: int, l: int, s: int, t: int)
    requires Cong(z * b, w) && Cong(l * b, s) && Cong(z * s, t)
    ensures Cong(l * w, t)
  {
    hide Cong;
    CongScale(l, z * b, w);
    CongSym(l * (z * b), l * w);
    CongScale(z, l * b, s);
    assert z * (l * b) == l * (z * b);
    CongTrans(l * w, z * (l * b), z * s);
    CongTrans(l * w, z * s, t);
  }

  lemma ScaledDen(sx: int, sy: int, u: int, v: int, c: int)
    ensures u * v * (1 + c * (sx * sy)) == u * v + c * (sx * u * (sy * v))
  {
    Interchange(sx, u, sy, v);
    Regroup(c, sx * sy, u * v);
    assert u * v * (c * (sx * sy)) == c * (sx * sy) * (u * v);
    Spread3(u * v, 1, c * (sx * sy));
  }

  lemma ScaledNum(sx: int, sy: int, u: int, v: int, m: int, n: int)
    ensures u * v * (sx * m + sy * n) == sx * u * v * m + sy * v * u * n
  {
    Spread3(u * v, sx * m, sy * n);
    Regroup(u * v, sx, m);
    Regroup(u * v, sy, n);
    assert u * v * sx == sx * u * v && u * v * sy == sy * v * u;
  }

  /** The order does not matter. */
  lemma SumsCommute(r: Pair, p: Pair, q: Pair, d: int)
    ensures Sums(r, p, q, d) <==> Sums(r, q, p, d)
    ensures Divides(p, q, d) <==> Divides(q, p, d)
  {
    hide Cong;
    assert p.A() * q.A() == q.A() * p.A();
    assert NumX(p, q) == NumX(q, p) && NumY(p, q) == NumY(q, p);
  }

  /** Addition is associative: s + r and p + t are the same for s = p + q and t = q + r. */
  lemma Associative(p: Pair, q: Pair, r: Pair, s: Pair, t: Pair, u: Pair, v: Pair, d: int)
    requires Fermat() && OnPlane(p, d) && OnPlane(q, d) && OnPlane(r, d)
    requires Sums(s, p, q, d) && Sums(u, s, r, d) && Sums(t, q, r, d) && Sums(v, p, t, d)
    requires Divides(p, q, d) && Divides(s, r, d) && Divides(q, r, d) && Divides(p, t, d)
    ensures Cong(u.x, v.x) && Cong(u.y, v.y)
  {
    hide Cong, OnPlane, Sums, Divides, Num, Den;
    SumsCommute(t, q, r, d);
    SumsCommute(v, p, t, d);
    IsFraction(1, p, q, r, s, u, d);
    IsFraction(-1, p, q, r, s, u, d);
    IsFraction(1, r, q, p, t, v, d);
    IsFraction(-1, r, q, p, t, v, d);
    FractionsMeet(1, p, q, r, d);
    FractionsMeet(-1, p, q, r, d);
    SameFraction(u.x, Num(1, p, q, r, d), Den(1, p, q, r, d), v.x, Num(1, r, q, p, d), Den(1, r, q, p, d));
    SameFraction(u.y, Num(-1, p, q, r, d), Den(-1, p, q, r, d), v.y, Num(-1, r, q, p, d), Den(-1, r, q, p, d));
  }

  lemma SameFraction(x: int, m: int, e: int, y: int, n: int, f: int)
    requires Fermat() && Cong(x * e, m) && Cong(y * f, n) && Cong(m * f, n * e) && !Cong(e, 0) && !Cong(f, 0)
    ensures Cong(x, y)
  {
    hide Cong;
    CongScale(f, x * e, m);
    CongScale(e, y * f, n);
    CongSym(y * f * e, n * e);
    CongTrans(x * e * f, m * f, n * e);
    CongTrans(x * e * f, n * e, y * f * e);
    ProductNonzero(e, f);
    assert x * e * f == x * (e * f) && y * f * e == y * (e * f);
    CancelFactor(x, y, e * f);
  }

  // ---- Sums are points of the curve ----

  lemma Closed(r: Pair, p: Pair, q: Pair, d: int)
    requires Fermat() && OnPlane(p, d) && OnPlane(q, d) && Sums(r, p, q, d) && Divides(p, q, d)
    ensures OnPlane(r, d)
  {
    var k, x, y, z := Skew(p, q, d), NumX(p, q), NumY(p, q), (1 + Skew(p, q, d)) * (1 - Skew(p, q, d));
    var m := d * (x * y * (x * y));
    ProductNonzero(1 + k, 1 - k);
    ProductNonzero(z, z);
    CurveOfNumerators(p, q, d);
    hide Cong, Skew, NumX, NumY, OnPlane, Pair.T;
    Cleared(r.x, r.y, x, y, k, d);
    var left, right := r.S() * (z * z), (1 + d * (r.A() * r.A())) * (z * z);
    CongTrans(left, y * (1 + k) * (y * (1 + k)) - x * (1 - k) * (x * (1 - k)), z * z + m);
    CongSym(right, z * z + m);
    CongTrans(left, z * z + m, right);
    CancelFactor(r.S(), 1 + d * (r.A() * r.A()), z * z);
    IsOnPlane(r, d);
  }

  lemma IsOnPlane(r: Pair, d: int)
    requires Cong(r.S(), 1 + d * (r.A() * r.A()))
    ensures OnPlane(r, d)
  {
  }

  /** Multiplying the equation of the curve by the denominators. */
  lemma Cleared(rx: int, ry: int, x: int, y: int, k: int, d: int)
    requires Cong(rx * (1 + k), x) && Cong(ry * (1 - k), y)
    ensures var z := (1 + k) * (1 - k);
      && Cong((ry * ry - rx * rx) * (z * z), y * (1 + k) * (y * (1 + k)) - x * (1 - k) * (x * (1 - k)))
      && Cong((1 + d * (rx * ry * (rx * ry))) * (z * z), z * z + d * (x * y * (x * y)))
  {
    hide Cong;
    var u, v, e, f := 1 + k, 1 - k, rx * (1 + k), ry * (1 - k);
    var z := u * v;
    CongScale(u, f, y);
    CongScale(v, e, x);
    CongMul(f * u, y * u, f * u, y * u);
    CongMul(e * v, x * v, e * v, x * v);
    CongAdd(f * u * (f * u), y * u * (y * u), e * v * (e * v), x * v * (x * v));
    ClearedLeft(rx, ry, u, v);
    CongMul(e, x, f, y);
    CongMul(e * f, x * y, e * f, x * y);
    CongScale(d, e * f * (e * f), x * y * (x * y));
    CongSelf(z * z);
    CongAdd(z * z, z * z, d * (e * f * (e * f)), d * (x * y * (x * y)));
    ClearedRight(rx, ry, u, v, d);
  }

  lemma ClearedLeft(x: int, y: int, u: int, v: int)
    ensures (y * y - x * x) * (u * v * (u * v)) == y * v * u * (y * v * u) - x * u * v * (x * u * v)
  {
    var z := u * v;
    assert y * v * u == y * z && x * u * v == x * z;
    Interchange(y, z, y, z);
    Interchange(x, z, x, z);
    Spread(y * y, x * x, z * z);
  }

  lemma ClearedRight(x: int, y: int, u: int, v: int, d: int)
    ensures (1 + d * (x * y * (x * y))) * (u * v * (u * v)) == u * v * (u * v) + d * (x * u * (y * v) * (x * u * (y * v)))
  {
    var a, z := x * y, u * v;
    Interchange(x, u, y, v);
    Interchange(a, z, a, z);
    Regroup(d, a * a, z * z);
    Spread(1, d * (a * a), z * z);
  }

  /** The numerators satisfy the equation, as far as the denominators let them. */
  lemma CurveOfNumerators(p: Pair, q: Pair, d: int)
    requires OnPlane(p, d) && OnPlane(q, d)
    ensures var k, x, y := Skew(p, q, d), NumX(p, q), NumY(p, q);
      var z := (1 + k) * (1 - k);
      Cong(y * (1 + k) * (y * (1 + k)) - x * (1 - k) * (x * (1 - k)), z * z + d * (x * y * (x * y)))
  {
    var k, x, y, s, t, u, v := Skew(p, q, d), NumX(p, q), NumY(p, q), p.S(), q.S(), Skew(p, p, d), Skew(q, q, d);
    var z, c := (1 + k) * (1 - k), 2 * (k * (p.T() * q.T() + 4 * (p.A() * q.A())));
    SkewOnPlane(p, d);
    SkewOnPlane(q, d);
    Products(p, q);
    NormProduct(p, q);
    assert k * k == u * v by { SkewSquare(d, p.A(), q.A()); }
    assert d * (x * y * (x * y)) == u * (t * t) + v * (s * s) + c by { MixedSquare(p, q, d); }
    hide Cong, Skew, NumX, NumY, OnPlane, Pair.T, Pair.A, Pair.S;
    LeftSide(x, y, k, s * t, c);
    assert z == 1 - u * v by { Distribute(1, k, 1, -k); }
    CurveRelation(s, t, u, v);
    CongSelf(c);
    CongAdd(s * t * (1 + u * v), (1 - u * v) * (1 - u * v) + u * (t * t) + v * (s * s), c, c);
  }

  lemma LeftSide(x: int, y: int, k: int, st: int, c: int)
    requires y * y - x * x == st && c == 2 * (k * (y * y + x * x))
    ensures y * (1 + k) * (y * (1 + k)) - x * (1 - k) * (x * (1 - k)) == st * (1 + k * k) + c
  {
    var m, n := y * y, x * x;
    Interchange(y, 1 + k, y, 1 + k);
    Interchange(x, 1 - k, x, 1 - k);
    OneSide(m, k);
    OneSide(n, -k);
    assert -k * n == -(k * n) && -k * -k == k * k;
    Spread3(k, m, n);
    assert k * (m - n) == k * m - k * n && k * (m + n) == k * m + k * n;
    Spread(m, n, k * k);
    assert st * (1 + k * k) == st + st * (k * k);
  }

  lemma OneSide(m: int, k: int)
    ensures m * ((1 + k) * (1 + k)) == m + 2 * (k * m) + m * (k * k)
  {
    Binomial(1, k);
    Spread3(m, 1 + 2 * k, k * k);
    assert m * (1 + 2 * k) == m + 2 * (k * m);
  }

  lemma MixedSquare(p: Pair, q: Pair, d: int)
    requires NumX(p, q) * NumY(p, q) == p.A() * q.T() + q.A() * p.T()
    ensures var w := NumX(p, q) * NumY(p, q);
      d * (w * w) == Skew(p, p, d) * (q.S() * q.S()) + Skew(q, q, d) * (p.S() * p.S())
                     + 2 * (Skew(p, q, d) * (p.T() * q.T() + 4 * (p.A() * q.A())))
  {
    SquareOfT(p);
    SquareOfT(q);
    hide NumX, NumY, Pair.A, Pair.S, Pair.T;
    var a, b, s, t, m, n := p.A(), q.A(), p.S() * p.S(), q.S() * q.S(), p.T(), q.T();
    Binomial(a * n, b * m);
    Interchange(a, n, a, n);
    Interchange(b, m, b, m);
    Interchange(a, n, b, m);
    assert n * m == m * n;
    MixedTerms(a, b, s, t, m * n, d);
  }

  lemma SquareOfT(p: Pair)
    ensures p.T() * p.T() == p.S() * p.S() + 4 * (p.A() * p.A())
  {
    var m, n := p.y * p.y, p.x * p.x;
    Binomial(m, n);
    Binomial(m, -n);
    Interchange(p.x, p.y, p.x, p.y);
    assert n * m == m * n;
  }

  lemma MixedTerms(a: int, b: int, s: int, t: int, mn: int, d: int)
    ensures d * (a * a * (t + 4 * (b * b)) + 2 * (a * b * mn) + b * b * (s + 4 * (a * a)))
            == d * (a * a) * t + d * (b * b) * s + 2 * (d * (a * b) * (mn + 4 * (a * b)))
  {
    var aa, bb, ab := a * a, b * b, a * b;
    assert aa * bb == ab * ab by { Interchange(a, a, b, b); }
    assert bb * aa == aa * bb;
    assert aa * (t + 4 * bb) == aa * t + 4 * (aa * bb);
    assert bb * (s + 4 * aa) == bb * s + 4 * (bb * aa);
    Regroup(d, aa, t);
    Regroup(d, bb, s);
    Regroup(d, ab, mn);
    Regroup(d, ab, ab);
    assert d * ab * (mn + 4 * ab) == d * ab * mn + 4 * (d * ab * ab);
    SevenTerms(d, aa * t, ab * ab, ab * mn, bb * s);
  }

  lemma SevenTerms(d: int, x: int, y: int, z: int, w: int)
    ensures d * (x + 4 * y + 2 * z + (w + 4 * y)) == d * x + 8 * (d * y) + 2 * (d * z) + d * w
  {
  }

  /** (1 + u)(1 + v)(1 + uv) == (1 - uv)^2 + u (1 + v)^2 + v (1 + u)^2 */
  lemma CurveRelation(s: int, t: int, u: int, v: int)
    requires Cong(u, s - 1) && Cong(v, t - 1)
    ensures Cong(s * t * (1 + u * v), (1 - u * v) * (1 - u * v) + u * (t * t) + v * (s * s))
  {
    hide Cong;
    CongSelf(1);
    CongAdd(u, s - 1, 1, 1);
    CongAdd(v, t - 1, 1, 1);
    CongSym(u + 1, s);
    CongSym(v + 1, t);
    var a, b, w := u + 1, v + 1, u * v;
    CongMul(s, a, t, b);
    CongScale(1 + w, s * t, a * b);
    CongMul(s, a, s, a);
    CongMul(t, b, t, b);
    CongScale(v, s * s, a * a);
    CongScale(u, t * t, b * b);
    CongSelf((1 - w) * (1 - w));
    CongAdd((1 - w) * (1 - w), (1 - w) * (1 - w), u * (t * t), u * (b * b));
    CongAdd((1 - w) * (1 - w) + u * (t * t), (1 - w) * (1 - w) + u * (b * b), v * (s * s), v * (a * a));
    RelationTerms(u, v);
    CongSym((1 - w) * (1 - w) + u * (t * t) + v * (s * s), (1 - w) * (1 - w) + u * (b * b) + v * (a * a));
    CongTrans(s * t * (1 + w), a * b * (1 + w), (1 - w) * (1 - w) + u * (t * t) + v * (s * s));
  }

  lemma RelationTerms(u: int, v: int)
    ensures (u + 1) * (v + 1) * (1 + u * v)
            == (1 - u * v) * (1 - u * v) + u * ((v + 1) * (v + 1)) + v * ((u + 1) * (u + 1))
  {
    var w := u * v;
    Distribute(u, 1, v, 1);
    OneSide(u, v);
    OneSide(v, u);
    Binomial(1, -w);
    assert -w * -w == w * w;
    Regroup(u, v, v);
    assert u * (v * v) == w * v && v * (u * u) == w * u;
    Distribute(w, u + v + 1, 1, w);
    assert (u + v + 1) * w == w * u + w * v + w;
  }
}
