/** Key pairs, signing and verification (third-party/ed25519/keypair.c, sign.c, verify.c),
    after sections 5.1.5 to 5.1.7 of RFC 8032. */
module Ed25519 {
  import opened MachineInts
  import opened Bitwise
  import opened LittleEndian
  import opened AbelianGroup
  import opened Clamping
  import Sha512Words
  import ScalarModL
  import SlidingWindow
  import ScalarMult
  import CombMult
  import opened CurveGroup
  import opened EdwardsGroup
  import FieldPrime
  import PointCodes
  import Points
  import opened Wrappers

  /** What the three routines are built on: the base point, and the tables of precomp_data.h. */
  datatype Scheme = Scheme(B: Element, odd: seq<Precomp>, comb: seq<seq<Precomp>>)
  {
    ghost function Curve(): Curve<Element>
    {
      Edwards25519()
    }

    /** The trust base: p is prime, the order of the base point is l, and the tables mean what they say. */
    ghost predicate Trusted()
    {
      && FieldPrime.Fermat()
      && Curve().group.Times(ScalarModL.L, B) == Curve().group.zero
      && ScalarMult.IsOddTable(Curve(), odd, B) && CombMult.IsComb(Curve(), comb, B)
    }

    lemma OnTheCurve()
      requires Trusted()
      ensures Curve().Laws() && Curve().Bijective()
    {
      EdwardsGroup.CurveLaws();
      EdwardsGroup.CurveBijective();
    }

    /** The encoding of a point, as section 5.1.2 of RFC 8032 has it. */
    ghost function Encode(p: Element): (b: seq<byte>)
      requires Trusted()
      ensures |b| == 32
    {
      OnTheCurve();
      PointCodes.Code(Curve(), p)
    }

    /** The negative of the point that b encodes, if any. */
    ghost function DecodeNegated(b: seq<byte>): Option<Element>
      requires Trusted()
    {
      PointCodes.DecodeNegated(Curve(), b)
    }

    lemma DecodesBack(p: Element)
      requires Trusted()
      ensures DecodeNegated(Encode(p)) == Some(Curve().group.neg(p))
    {
      OnTheCurve();
      PointCodes.CodeDecodes(Curve(), p);
    }

    // ---- RFC 8032 ----

    /** Section 5.1.5, steps 1 to 4, on the expanded private key. */
    ghost predicate IsKeyPair(seed: seq<byte>, pub: seq<byte>, priv: seq<byte>)
      requires Trusted()
    {
      && |priv| == 64 && priv == Clamped(Sha512Words.Sha512(seed))
      && pub == Encode(Curve().group.Times(LE(priv[..32]), B))
    }

    /** Section 5.1.6. */
    ghost predicate IsSignature(m: seq<byte>, pub: seq<byte>, priv: seq<byte>, sig: seq<byte>)
      requires Trusted() && |priv| == 64
    {
      var r := LE(Sha512Words.Sha512(priv[32..] + m)) % ScalarModL.L;
      var k := LE(Sha512Words.Sha512(Encode(Curve().group.Times(r, B)) + pub + m)) % ScalarModL.L;
      && |sig| == 64
      && sig[..32] == Encode(Curve().group.Times(r, B))
      && LE(sig[32..]) == Response(k, LE(priv[..32]), r)
    }

    /** Section 5.1.7, with the group equation tested on encodings and without cofactors. */
    ghost predicate Accepts(m: seq<byte>, pub: seq<byte>, sig: seq<byte>)
      requires Trusted() && |sig| == 64
    {
      && sig[63] < 32
      && DecodeNegated(pub).Some?
      && var k := LE(Sha512Words.Sha512(sig[..32] + pub + m)) % ScalarModL.L;
         Encode(ScalarMult.Combination(Curve().group, k, DecodeNegated(pub).value, LE(sig[32..]), B)) == sig[..32]
    }

    /** sB == R + kA, where the key decodes to -A and k is the challenge. */
    ghost predicate Balances(m: seq<byte>, pub: seq<byte>, sig: seq<byte>, R: Element)
      requires Trusted() && |sig| == 64 && DecodeNegated(pub).Some?
    {
      var g := Curve().group;
      var A := g.neg(DecodeNegated(pub).value);
      var k := LE(Sha512Words.Sha512(sig[..32] + pub + m)) % ScalarModL.L;
      g.Times(LE(sig[32..]), B) == g.add(R, g.Times(k, A))
    }
  }

  // ---- What is accepted, and what is not ----

  /** Different elements have different codes. */
  lemma CodeInjective(s: Scheme, g: Element, h: Element)
    requires s.Trusted() && s.Encode(g) == s.Encode(h)
    ensures g == h
  {
    hide Scheme.Curve, Scheme.Encode, Scheme.DecodeNegated, Curve.Laws, Curve.Bijective, FieldPrime.Fermat;
    hide ScalarMult.IsOddTable, CombMult.IsComb;
    s.OnTheCurve();
    GroupLaws(s.Curve());
    s.DecodesBack(g);
    s.DecodesBack(h);
    s.Curve().group.NegNeg(g);
    s.Curve().group.NegNeg(h);
  }

  /** k(-A) + tB is R exactly if tB is R + kA. */
  lemma Solved<P(!new)>(g: Group<P>, B: P, k: int, n: P, t: int, R: P)
    requires g.Laws()
    ensures ScalarMult.Combination(g, k, n, t, B) == R <==> g.Times(t, B) == g.add(R, g.Times(k, g.neg(n)))
  {
    hide Group.Laws;
    var x, y := g.Times(k, n), g.Times(t, B);
    g.TimesTimes(k, -1, n);
    g.TimesTimes(-1, k, n);
    TimesMinusOne(g, n);
    TimesMinusOne(g, x);
    Moved(g, x, y, R);
  }

  lemma TimesMinusOne<P(!new)>(g: Group<P>, x: P)
    requires g.Laws()
    ensures g.Times(-1, x) == g.neg(x)
  {
    assert g.Times(1, x) == g.add(g.Times(0, x), x);
    assert g.Commutes(g.zero, x) && g.Neutral(x);
    g.TimesNeg(1, x);
  }

  lemma Moved<P(!new)>(g: Group<P>, x: P, y: P, R: P)
    requires g.Laws()
    ensures g.add(x, y) == R <==> y == g.add(R, g.neg(x))
  {
    assert g.Commutes(x, y) && g.Associates(y, x, g.neg(x)) && g.Cancels(x) && g.Neutral(y);
    assert g.Associates(R, g.neg(x), x) && g.Commutes(g.neg(x), x) && g.Neutral(R);
  }

  /** A signature whose first half encodes R is accepted exactly if its second half is below 2^253, the key
      decodes, to -A, and sB == R + kA for the challenge k. */
  lemma AcceptsPoint(s: Scheme, m: seq<byte>, pub: seq<byte>, sig: seq<byte>, R: Element)
    requires s.Trusted() && |sig| == 64 && s.Encode(R) == sig[..32]
    ensures s.Accepts(m, pub, sig)
            <==> sig[63] < 32 && s.DecodeNegated(pub).Some? && s.Balances(m, pub, sig, R)
  {
    hide Scheme.Curve, Scheme.Encode, Scheme.DecodeNegated, Curve.Laws, Curve.Bijective, FieldPrime.Fermat;
    hide ScalarMult.IsOddTable, CombMult.IsComb, ScalarMult.Combination, Group.Times, LE, Sha512Words.Sha512;
    s.OnTheCurve();
    GroupLaws(s.Curve());
    if s.DecodeNegated(pub).Some? {
      var g, n := s.Curve().group, s.DecodeNegated(pub).value;
      var k := LE(Sha512Words.Sha512(sig[..32] + pub + m)) % ScalarModL.L;
      var c := ScalarMult.Combination(g, k, n, LE(sig[32..]), s.B);
      Solved(g, s.B, k, n, LE(sig[32..]), R);
      if s.Encode(c) == sig[..32] {
        CodeInjective(s, c, R);
      }
    }
  }

  /** And one whose first half encodes nothing never. */
  lemma AcceptsSomePoint(s: Scheme, m: seq<byte>, pub: seq<byte>, sig: seq<byte>)
    requires s.Trusted() && |sig| == 64 && s.Accepts(m, pub, sig)
    ensures exists R :: s.Encode(R) == sig[..32]
  {
  }

  /** Of two accepted signatures with the same first half the second halves agree modulo the order of B. */
  lemma SecondHalf(s: Scheme, m: seq<byte>, pub: seq<byte>, sig: seq<byte>, other: seq<byte>)
    requires s.Trusted() && |sig| == |other| == 64 && sig[..32] == other[..32]
    requires s.Accepts(m, pub, sig) && s.Accepts(m, pub, other)
    ensures s.Curve().group.Times(LE(sig[32..]) - LE(other[32..]), s.B) == s.Curve().group.zero
  {
    hide Scheme.Curve, Scheme.Encode, Scheme.DecodeNegated, Scheme.Accepts, Curve.Laws, Curve.Bijective;
    hide FieldPrime.Fermat, ScalarMult.IsOddTable, CombMult.IsComb, Group.Times, LE, Sha512Words.Sha512;
    s.OnTheCurve();
    GroupLaws(s.Curve());
    AcceptsSomePoint(s, m, pub, sig);
    var R :| s.Encode(R) == sig[..32];
    AcceptsPoint(s, m, pub, sig, R);
    AcceptsPoint(s, m, pub, other, R);
    SameMultiple(s.Curve().group, LE(sig[32..]), LE(other[32..]), s.B);
  }

  lemma SameMultiple<P(!new)>(g: Group<P>, x: int, y: int, B: P)
    requires g.Laws() && g.Times(x, B) == g.Times(y, B)
    ensures g.Times(x - y, B) == g.zero
  {
    g.TimesAdd(x, -y, B);
    g.TimesNeg(y, B);
    assert g.Cancels(g.Times(y, B));
  }

  /** The scalar half of a signature, for challenge k, key a and nonce r. */
  ghost function Response(k: int, a: int, r: int): int
  {
    (k * a + r) % ScalarModL.L
  }

  // ---- The routines ----

  method ToArray(d: seq<byte>) returns (h: array<byte>)
    ensures fresh(h) && h[..] == d
  {
    h := new byte[|d|](i requires 0 <= i < |d| => d[i]);
  }

  /** `ed25519_create_keypair`. */
  method CreateKeypair(s: Scheme, seed: seq<byte>) returns (pub: seq<byte>, priv: array<byte>)
    requires s.Trusted() && |seed| == 32
    ensures fresh(priv) && priv.Length == 64
    ensures s.IsKeyPair(seed, pub, priv[..])
    ensures LE(priv[..32]) == Scalar(LE(Sha512Words.Sha512(seed)[..32])) && priv[32..] == Sha512Words.Sha512(seed)[32..]
    ensures pub == s.Encode(s.Curve().group.Times(LE(priv[..32]), s.B))
  {
    var h := Sha512Words.Hash(seed);
    priv := ToArray(h);
    Clamp(priv);
    pub := PublicKey(s, priv[..32]);
    assert priv[..][..32] == priv[..32];
  }

  /** `ge_scalarmult_base` and `ge_p3_tobytes`. */
  method PublicKey(s: Scheme, a: seq<byte>) returns (b: seq<byte>)
    requires s.Trusted() && |a| == 32 && a[31] <= 127
    ensures |b| == 32 && b == s.Encode(s.Curve().group.Times(LE(a), s.B))
  {
    hide Scheme.Curve, Curve.Laws, Curve.Bijective, Holds, LE, ScalarMult.IsOddTable, CombMult.IsComb, FieldPrime.Fermat;
    s.OnTheCurve();
    var A := new Points.Quad();
    CombMult.ScalarMultBase(s.Curve(), A, s.comb, a, s.B);
    var bytes := new byte[32];
    PointCodes.Encode(s.Curve(), bytes, A, s.Curve().group.Times(LE(a), s.B));
    b := bytes[..];
  }

  lemma TopBits(b: seq<byte>)
    requires |b| == 32
    ensures LE(b) < ScalarModL.L ==> b[31] < 32
    ensures b[31] < 32 ==> LE(b) < SlidingWindow.TWO255
  {
    Pow256At31();
    TopByte(b);
  }

  /** `memcpy(to + at, from, 32)` */
  method Place(to: array<byte>, at: nat, from: seq<byte>)
    requires |from| == 32 && at + 32 <= to.Length
    modifies to
    ensures to[..at] == old(to[..at]) && to[at..at + 32] == from && to[at + 32..] == old(to[at + 32..])
  {
    for i := 0 to 32
      invariant to[..at] == old(to[..at]) && to[at + 32..] == old(to[at + 32..])
      invariant forall j | 0 <= j < i :: to[at + j] == from[j]
    {
      to[at + i] := from[i];
    }
  }

  /** The first half of `ed25519_sign`: the nonce and its commitment. */
  method Commit(s: Scheme, m: seq<byte>, prefix: seq<byte>) returns (r: array<byte>, R: seq<byte>)
    requires s.Trusted()
    ensures fresh(r) && r.Length == 32 && LE(r[..]) == LE(Sha512Words.Sha512(prefix + m)) % ScalarModL.L
    ensures |R| == 32 && R == s.Encode(s.Curve().group.Times(LE(r[..]), s.B))
  {
    var h := Sha512Words.HashTwo(prefix, m);
    r := ReducedHash(h);
    TopBits(r[..]);
    R := PublicKey(s, r[..]);
  }

  /** The second half: the challenge and the response. */
  method Respond(s: Scheme, R: seq<byte>, pub: seq<byte>, m: seq<byte>,
                                   a: seq<byte>, r: array<byte>) returns (t: seq<byte>)
    requires s.Trusted() && |a| == 32 && r.Length == 32
    ensures |t| == 32
    ensures LE(t) == Response(LE(Sha512Words.Sha512(R + pub + m)) % ScalarModL.L, LE(a), LE(r[..]))
  {
    var hram := Sha512Words.HashThree(R, pub, m);
    var k := ReducedHash(hram);
    t := MulAdd(k, a, r);
  }

  method MulAdd(k: array<byte>, a: seq<byte>, r: array<byte>) returns (t: seq<byte>)
    requires |a| == k.Length == r.Length == 32
    ensures |t| == 32 && LE(t) == Response(LE(k[..]), LE(a), LE(r[..]))
  {
    var key := ToArray(a);
    var second := new byte[32];
    ScalarModL.MulAdd(second, k, key, r);
    t := second[..];
  }

  /** The signature predicate, unfolded for the pieces that signing computes. */
  lemma Assembled(s: Scheme, m: seq<byte>, pub: seq<byte>, priv: seq<byte>, sig: seq<byte>,
      r: int)
    requires s.Trusted() && |priv| == 64 && |sig| == 64
    requires r == LE(Sha512Words.Sha512(priv[32..] + m)) % ScalarModL.L
    requires sig[..32] == s.Encode(s.Curve().group.Times(r, s.B))
    requires LE(sig[32..]) == Response(LE(Sha512Words.Sha512(sig[..32] + pub + m)) % ScalarModL.L, LE(priv[..32]), r)
    ensures s.IsSignature(m, pub, priv, sig)
  {
  }

  lemma SignatureIs(s: Scheme, m: seq<byte>, pub: seq<byte>, priv: seq<byte>, sig: seq<byte>)
    requires s.Trusted() && |priv| == 64 && s.IsSignature(m, pub, priv, sig)
    ensures var r := LE(Sha512Words.Sha512(priv[32..] + m)) % ScalarModL.L;
      var k := LE(Sha512Words.Sha512(sig[..32] + pub + m)) % ScalarModL.L;
      && |sig| == 64 && sig[..32] == s.Encode(s.Curve().group.Times(r, s.B))
      && LE(sig[32..]) == (k * LE(priv[..32]) + r) % ScalarModL.L
  {
    hide Scheme.Trusted, Scheme.Curve, Scheme.Encode, LE, Sha512Words.Sha512, Group.Times;
  }

  /** `ed25519_sign`. The signature is the two halves of a 64-byte array. */
  method Sign(s: Scheme, signature: array<byte>, m: seq<byte>, pub: seq<byte>, priv: seq<byte>)
    requires s.Trusted() && signature.Length == 64 && |priv| == 64 && |pub| == 32
    modifies signature
    ensures s.IsSignature(m, pub, priv, signature[..])
    ensures var r := LE(Sha512Words.Sha512(priv[32..] + m)) % ScalarModL.L;
      var k := LE(Sha512Words.Sha512(signature[..32] + pub + m)) % ScalarModL.L;
      && signature[..32] == s.Encode(s.Curve().group.Times(r, s.B))
      && LE(signature[32..]) == (k * LE(priv[..32]) + r) % ScalarModL.L
  {
    hide Scheme.Trusted, Scheme.Curve, Scheme.Encode, Scheme.IsSignature, LE, Sha512Words.Sha512, Group.Times;
    var r, R := Commit(s, m, priv[32..]);
    Place(signature, 0, R);
    var t := Respond(s, signature[..32], pub, m, priv[..32], r);
    Place(signature, 32, t);
    ghost var sig := signature[..];
    assert sig[32..] == t && sig[..32] == R;
    Assembled(s, m, pub, priv, sig, LE(r[..]));
    SignatureIs(s, m, pub, priv, sig);
  }

  /** `sc_reduce` of a hash, of which only the low half is used afterwards. */
  method ReducedHash(d: seq<byte>) returns (k: array<byte>)
    requires |d| == 64
    ensures fresh(k) && k.Length == 32 && LE(k[..]) == LE(d) % ScalarModL.L
  {
    var h := ToArray(d);
    ScalarModL.Reduce(h);
    k := new byte[32](i requires 0 <= i < 32 reads h => h[i]);
    assert k[..] == h[..32];
  }

  /** `consttime_equal`. */
  method ConsttimeEqual(x: seq<byte>, y: seq<byte>) returns (same: bool)
    requires |x| == |y| == 32
    ensures same <==> x == y
  {
    var r := Xor(x[0], y[0]);
    XorZero(x[0], y[0]);
    for i := 1 to 32
      invariant r == 0 <==> x[..i] == y[..i]
    {
      XorZero(x[i], y[i]);
      OrZero(r, Xor(x[i], y[i]));
      r := Or(r, Xor(x[i], y[i]));
      assert x[..i + 1] == x[..i] + [x[i]] && y[..i + 1] == y[..i] + [y[i]];
    }
    assert x[..32] == x && y[..32] == y;
    same := r == 0;
  }

  /** `ge_double_scalarmult_vartime` and `ge_tobytes`. */
  method Checker(s: Scheme, k: seq<byte>, A: Points.Quad, t: seq<byte>, ghost g: Element)
    returns (b: seq<byte>)
    requires s.Trusted() && |k| == |t| == 32 && k[31] < 32 && t[31] < 32 && Holds(s.Curve(), A, g)
    ensures |b| == 32 && b == s.Encode(ScalarMult.Combination(s.Curve().group, LE(k), g, LE(t), s.B))
  {
    hide Scheme.Curve, Curve.Laws, Curve.Bijective, Holds, LE, ScalarMult.Combination;
    hide ScalarMult.IsOddTable, CombMult.IsComb, FieldPrime.Fermat;
    s.OnTheCurve();
    TopBits(k);
    TopBits(t);
    var R := new Points.Quad();
    ghost var x, y := ScalarMult.DoubleScalarMult(s.Curve(), R, k, A, t, s.odd, g, s.B);
    var bytes := new byte[32];
    PointCodes.Encode(s.Curve(), bytes, R, ScalarMult.Combination(s.Curve().group, LE(k), g, LE(t), s.B));
    b := bytes[..];
  }

  lemma AcceptsIff(s: Scheme, m: seq<byte>, pub: seq<byte>, sig: seq<byte>)
    requires s.Trusted() && |sig| == 64
    ensures s.Accepts(m, pub, sig)
            <==> sig[63] < 32 && s.DecodeNegated(pub).Some?
                 && exists R :: s.Encode(R) == sig[..32] && s.Balances(m, pub, sig, R)
  {
    hide Scheme.Curve, Scheme.Encode, Scheme.DecodeNegated, Scheme.Accepts, Scheme.Balances, Curve.Laws, Curve.Bijective;
    hide FieldPrime.Fermat, ScalarMult.IsOddTable, CombMult.IsComb, Group.Times, LE, Sha512Words.Sha512;
    if s.DecodeNegated(pub).Some? {
      forall R | s.Encode(R) == sig[..32]
        ensures s.Accepts(m, pub, sig) <==> sig[63] < 32 && s.Balances(m, pub, sig, R)
      {
        AcceptsPoint(s, m, pub, sig, R);
      }
    }
    if s.Accepts(m, pub, sig) {
      AcceptsSomePoint(s, m, pub, sig);
      var R :| s.Encode(R) == sig[..32];
      AcceptsPoint(s, m, pub, sig, R);
    }
  }

  /** `ge_frombytes_negate_vartime`. */
  method DecodeKey(s: Scheme, A: Points.Quad, pub: seq<byte>) returns (ret: int)
    requires s.Trusted() && A.Valid() && |pub| == 32
    modifies A.X, A.Y, A.Z, A.T
    ensures ret == if s.DecodeNegated(pub).Some? then 0 else -1
    ensures ret == 0 ==> Holds(s.Curve(), A, s.DecodeNegated(pub).value)
  {
    hide Scheme.Curve, Curve.Laws, Curve.Bijective, Holds, ScalarMult.IsOddTable, CombMult.IsComb, FieldPrime.Fermat;
    s.OnTheCurve();
    ret := PointCodes.Decode(s.Curve(), A, pub);
  }

  /** `ed25519_verify`. */
  method Verify(s: Scheme, signature: seq<byte>, m: seq<byte>, pub: seq<byte>) returns (ok: bool)
    requires s.Trusted() && |signature| == 64 && |pub| == 32
    ensures ok <==> s.Accepts(m, pub, signature)
    // yes exactly if sB == R + kA for the A and the R that the key and the first half encode
    ensures ok <==> signature[63] < 32 && s.DecodeNegated(pub).Some?
                    && var g := s.Curve().group;
                       var A := g.neg(s.DecodeNegated(pub).value);
                       var k := LE(Sha512Words.Sha512(signature[..32] + pub + m)) % ScalarModL.L;
                       exists R :: s.Encode(R) == signature[..32]
                                   && g.Times(LE(signature[32..]), s.B) == g.add(R, g.Times(k, A))
  {
    hide Scheme.Trusted, Scheme.Curve, Scheme.Encode, Scheme.DecodeNegated, Holds, LE, ScalarMult.Combination;
    AcceptsIff(s, m, pub, signature);
    if signature[63] >= 32 {
      return false;
    }
    var A := new Points.Quad();
    var ret := DecodeKey(s, A, pub);
    if ret != 0 {
      return false;
    }
    var h := Sha512Words.HashThree(signature[..32], pub, m);
    var k := ReducedHash(h);
    TopBits(k[..]);
    var checker := Checker(s, k[..], A, signature[32..], s.DecodeNegated(pub).value);
    ok := ConsttimeEqual(checker, signature[..32]);
  }

  // ---- What the scheme is for ----

  /** h(-A) + sB == rB whenever s == ha + r mod l and A == aB, although a is not reduced. */
  lemma GroupEquation<P(!new)>(g: Group<P>, B: P, h: int, a: int, r: int)
    requires g.Laws() && g.Times(ScalarModL.L, B) == g.zero
    ensures ScalarMult.Combination(g, h, g.neg(g.Times(a, B)), Response(h, a, r), B) == g.Times(r, B)
  {
    var s, q := (h * a + r) % ScalarModL.L, (h * a + r) / ScalarModL.L;
    g.TimesNeg(a, B);
    g.TimesTimes(h, -a, B);
    g.TimesAdd(h * -a, s, B);
    g.TimesTimes(-q, ScalarModL.L, B);
    TimesZero(g, -q);
    g.TimesAdd(r, -q * ScalarModL.L, B);
    assert g.Neutral(g.Times(r, B));
    assert h * -a + s == r + -q * ScalarModL.L by {
      assert h * a + r == q * ScalarModL.L + s;
      assert h * -a == -(h * a);
    }
  }

  lemma {:induction false} TimesZero<P(!new)>(g: Group<P>, n: int)
    requires g.Laws()
    ensures g.Times(n, g.zero) == g.zero
    decreases n < 0, if n < 0 then -n else n
  {
    assert g.Neutral(g.zero);
    if n > 0 {
      TimesZero(g, n - 1);
    } else if n < 0 {
      TimesZero(g, -n);
      g.NegZero();
    }
  }

  /** Verification accepts every signature made with a matching key pair. */
  lemma SignaturesAreAccepted(s: Scheme, seed: seq<byte>, m: seq<byte>, pub: seq<byte>,
                                                priv: seq<byte>, sig: seq<byte>)
    requires s.Trusted() && s.IsKeyPair(seed, pub, priv) && s.IsSignature(m, pub, priv, sig)
    ensures s.Accepts(m, pub, sig)
  {
    hide Scheme.Curve, Curve.Laws, Curve.Bijective, ScalarMult.IsOddTable, CombMult.IsComb, FieldPrime.Fermat;
    s.OnTheCurve();
    GroupLaws(s.Curve());
    var a := LE(priv[..32]);
    var r := LE(Sha512Words.Sha512(priv[32..] + m)) % ScalarModL.L;
    var k := LE(Sha512Words.Sha512(sig[..32] + pub + m)) % ScalarModL.L;
    TopBits(sig[32..]);
    s.DecodesBack(s.Curve().group.Times(a, s.B));
    GroupEquation(s.Curve().group, s.B, k, a, r);
  }

  /** The three routines in a row: the last answers yes for every seed and every message. */
  method RoundTrip(s: Scheme, seed: seq<byte>, m: seq<byte>) returns (ok: bool)
    requires s.Trusted() && |seed| == 32
    ensures ok
  {
    var pub, priv := CreateKeypair(s, seed);
    var signature := new byte[64];
    Sign(s, signature, m, pub, priv[..]);
    SignaturesAreAccepted(s, seed, m, pub, priv[..], signature[..]);
    ok := Verify(s, signature[..], m, pub);
  }
}
