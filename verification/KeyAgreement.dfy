/** Both X25519 implementations agree on a secret: curve25519-donna on public keys made from the base
    point 9 (src/crypto/ap_crypto.cpp:34-41, 81), and third-party/ed25519/key_exchange.c on the
    Edwards keys of third-party/ed25519/keypair.c. */
module KeyAgreement {
  import opened AbelianGroup
  import opened Bitwise
  import opened Clamping
  import opened CurveGroup
  import opened Ed25519
  import opened FieldBytes
  import opened FieldElement
  import opened FieldPrime
  import opened LadderPoints
  import opened LittleEndian
  import opened MachineInts
  import opened PointCodes
  import opened X25519
  import DonnaLadder
  import EdwardsGroup
  import FieldOps
  import LadderAgreement
  import MontgomeryStep
  import PointEncoding
  import Points
  import Sha512Words

  // ---- curve25519-donna ----

  /** What `curve25519_donna` makes of a private key and the other side's public key. */
  ghost function SharedSecret(priv: seq<byte>, other: seq<byte>): (s: seq<byte>)
    requires |priv| == |other| == 32
    ensures |s| == 32
  {
    LowBytes(Ratio(Ladder(Low255(other), LE(Clamped(priv)), 0, DonnaLadder.ALL_BITS)) % P, 32)
  }

  lemma IsSharedSecret(s: seq<byte>, priv: seq<byte>, other: seq<byte>)
    requires |s| == |priv| == |other| == 32
    requires LE(s) == Ratio(Ladder(Low255(other), LE(Clamped(priv)), 0, DonnaLadder.ALL_BITS)) % P
    ensures s == SharedSecret(priv, other)
  {
    Bounded(s);
    LowBytesSpell(LE(s), 32);
    LEInjective(s, SharedSecret(priv, other));
  }

  /** The public key of a private one: without a base point, it is 9. */
  ghost function PublicOf(priv: seq<byte>): (s: seq<byte>)
    requires |priv| == 32
    ensures |s| == 32
  {
    SharedSecret(priv, DonnaLadder.PointBytes(DonnaLadder.Default))
  }

  /** The bytes spell the function of RFC 7748, with the top bit clear. */
  lemma SecretIs(priv: seq<byte>, other: seq<byte>)
    requires Fermat() && |priv| == |other| == 32
    ensures var r := Result(Low255(other), LE(Clamped(priv))) % P;
      SharedSecret(priv, other) == LowBytes(r, 32) && Low255(SharedSecret(priv, other)) == r
  {
    hide LE, Ladder, Result, Ratio, Clamped, Low255, LowBytes;
    var u, n := Low255(other), LE(Clamped(priv));
    LadderAgreement.ClampedBit(priv);
    LadderAgreement.SameResult(u, n);
    CongIsMod(Ratio(Ladder(u, n, 0, DonnaLadder.ALL_BITS)), Result(u, n));
    LowBelowP(Result(u, n) % P);
  }

  lemma LowBelowP(r: nat)
    requires r < P
    ensures Low255(LowBytes(r, 32)) == r
  {
    Pow256At31();
    assert Pow256(32) == 0x100 * Pow256(31);
    LowBytesSpell(r, 32);
    var s := LowBytes(r, 32);
    PointEncoding.SmallTop(s);
    assert s[31 := s[31] % 128] == s;
  }

  lemma NineIsDefault()
    ensures Low255(DonnaLadder.PointBytes(DonnaLadder.Default)) == 9
  {
    var z := seq(31, i => 0 as byte);
    var b := [9] + z;
    assert b[31 := b[31] % 128] == b;
    assert b[1..] == z;
    ZerosSpell(z);
  }

  lemma {:induction false} ZerosSpell(z: seq<byte>)
    requires forall i | 0 <= i < |z| :: z[i] == 0
    ensures LE(z) == 0
  {
    if z != [] {
      ZerosSpell(z[1..]);
    }
  }

  /** Two sides that exchange the public keys of their private ones get the same secret. */
  lemma SecretsAgree(a: seq<byte>, b: seq<byte>)
    requires Fermat() && |a| == |b| == 32
    ensures SharedSecret(a, PublicOf(b)) == SharedSecret(b, PublicOf(a))
  {
    hide LE, Result, Clamped, Low255, LowBytes, SharedSecret, DonnaLadder.PointBytes, Cong, Fermat, Coordinate;
    hide EdwardsGroup.Edwards25519, Curve.Laws, Curve.Bijective;
    var c, m, n := EdwardsGroup.Edwards25519(), LE(Clamped(a)), LE(Clamped(b));
    EdwardsGroup.CurveLaws();
    EdwardsGroup.CurveBijective();
    NineIsDefault();
    SecretIs(a, DonnaLadder.PointBytes(DonnaLadder.Default));
    SecretIs(b, DonnaLadder.PointBytes(DonnaLadder.Default));
    SecretIs(a, PublicOf(b));
    SecretIs(b, PublicOf(a));
    ReducedCoordinate(Result(9, n), m);
    ReducedCoordinate(Result(9, m), n);
    var B := NineIsCoordinate(c);
    Exchanged(c, B, 9, n, m);
    CongIsMod(Result(Result(9, n), m), Result(Result(9, m), n));
  }

  lemma ReducedCoordinate(u: int, n: nat)
    ensures Result(u % P, n) % P == Result(u, n) % P
  {
    hide Result;
    Remainder(0, u % P);
    CongIsMod(u % P, u);
    LadderAgreement.ResultSame(u % P, u, n);
    CongIsMod(Result(u % P, n), Result(u, n));
  }

  /** The four calls of two sides. */
  method DonnaExchange(a: seq<byte>, b: seq<byte>) returns (x: array<byte>, y: array<byte>)
    requires Fermat() && |a| == |b| == 32
    ensures x.Length == y.Length == 32 && x[..] == y[..]
  {
    hide LE, Ladder, Ratio, Clamped, Low255, SharedSecret, DonnaLadder.PointBytes;
    var p, q := new byte[32], new byte[32];
    DonnaLadder.Donna(p, a, DonnaLadder.Default);
    DonnaLadder.Donna(q, b, DonnaLadder.Default);
    IsSharedSecret(p[..], a, DonnaLadder.PointBytes(DonnaLadder.Default));
    IsSharedSecret(q[..], b, DonnaLadder.PointBytes(DonnaLadder.Default));
    ghost var s, t := p[..], q[..];
    x, y := Both(a, b, p[..], q[..]);
    SecretsAgree(a, b);
  }

  method Both(a: seq<byte>, b: seq<byte>, p: seq<byte>, q: seq<byte>) returns (x: array<byte>, y: array<byte>)
    requires |a| == |b| == |p| == |q| == 32
    ensures x.Length == y.Length == 32 && x[..] == SharedSecret(a, q) && y[..] == SharedSecret(b, p)
  {
    hide LE, Ladder, Ratio, Clamped, Low255, SharedSecret;
    x, y := new byte[32], new byte[32];
    DonnaLadder.Donna(x, a, DonnaLadder.Given(q));
    DonnaLadder.Donna(y, b, DonnaLadder.Given(p));
    assert DonnaLadder.PointBytes(DonnaLadder.Given(q)) == q && DonnaLadder.PointBytes(DonnaLadder.Given(p)) == p;
    IsSharedSecret(x[..], a, q);
    IsSharedSecret(y[..], b, p);
  }

  // ---- key_exchange.c on Edwards keys ----

  /** The conversion of a public key gives the coordinate of the point that it encodes. */
  lemma EncodedCoordinate<Q(!new)>(c: Curve<Q>, g: Q)
    requires Fermat() && c.Bijective()
    ensures Coordinate(c, g, FromEdwards(Low255(Code(c, g))))
  {
    var s := Code(c, g);
    var p :| c.Stands(p, g) && EncodesPoint(s, p);
    assert c.Lies(p, g);
    var y := Low255(s);
    hide Cong, Unit, Low255, FieldOps.Power, Curve.Stands;
    assert Unit(p.z);
    OverTimes(p.y, p.z);
    Remainder(0, y);
    CongIsMod(y, PointEncoding.Over(p.y, p.z));
    hide PointEncoding.Over;
    ConvertedKey(p, y, PointEncoding.Over(p.y, p.z));
    assert Reads(c, g, y + 1, 1 - y);
    CongSelf(FromEdwards(y));
    FromEdwardsIs(y);
  }

  lemma FromEdwardsIs(y: int)
    ensures FromEdwards(y) == PointEncoding.Over(y + 1, 1 - y)
  {
  }

  lemma ConvertedKey(p: Points.Point, y: int, o: int)
    requires Cong(y, o) && Cong(o * p.z, p.y)
    ensures MontgomeryStep.Montgomery(p, y + 1, 1 - y)
  {
    hide Cong;
    CongScale(p.z, y, o);
    CongTrans(y * p.z, o * p.z, p.y);
    CongScale(2, y * p.z, p.y);
    assert 2 * (y * p.z) == 2 * y * p.z;
    MontgomeryStep.TwoNonzero();
  }

  lemma ClampedTwice(h: seq<byte>)
    requires |h| >= 32
    ensures Clamped(Clamped(h)[..32]) == Clamped(h)[..32] && Clamped(h)[31] <= 127
  {
  }

  /** A clamped key is below 2^255, so that the ladder uses all of it. */
  lemma WholeScalar(e: seq<byte>)
    requires |e| == 32 && e[31] <= 127
    ensures Part(LE(e), 0, BITS) == LE(e)
  {
    hide LE, Pow256, Pow2, Part;
    TopByte(e);
    PowersAgree(31);
    Above(248);
    var w, k := Pow256(31), e[31] as int + 1;
    assert k * w <= 128 * w;
    PartIs(LE(e), BITS);
  }

  lemma Above(n: nat)
    requires n == 248
    ensures Pow2(n + 7) == 128 * Pow2(n) && n + 7 == BITS
  {
    assert Pow2(n + 2) == 4 * Pow2(n) && Pow2(n + 4) == 4 * Pow2(n + 2) && Pow2(n + 6) == 4 * Pow2(n + 4);
  }

  /** Two sides with key pairs get the same secret from each other's public key. */
  lemma EdwardsSecretsAgree(s: Scheme, a: seq<byte>, b: seq<byte>, pubA: seq<byte>, pubB: seq<byte>)
    requires s.Trusted() && |a| == |b| == 32 && a[31] <= 127 && b[31] <= 127
    requires pubA == s.Encode(s.Curve().group.Times(LE(a), s.B)) && pubB == s.Encode(s.Curve().group.Times(LE(b), s.B))
    ensures Result(FromEdwards(Low255(pubB)), LE(a)) % P == Result(FromEdwards(Low255(pubA)), LE(b)) % P
  {
    hide Scheme.Curve, Cong, Result, FromEdwards, Part, Group.Times, Coordinate, Low255, LE;
    hide Curve.Laws, Curve.Bijective, Fermat, Code, Pow2, ScalarMult.IsOddTable, CombMult.IsComb;
    var c, m, n := s.Curve(), LE(a), LE(b);
    s.OnTheCurve();
    WholeScalar(a);
    WholeScalar(b);
    EncodedCoordinate(c, c.group.Times(m, s.B));
    EncodedCoordinate(c, c.group.Times(n, s.B));
    MultiplesAgree(c, s.B, m, n, FromEdwards(Low255(pubA)), FromEdwards(Low255(pubB)));
    CongIsMod(Result(FromEdwards(Low255(pubB)), m), Result(FromEdwards(Low255(pubA)), n));
  }

  /** n times mB is m times nB. */
  lemma MultiplesAgree<Q(!new)>(c: Curve<Q>, B: Q, m: nat, n: nat, u: int, v: int)
    requires Fermat() && c.Laws() && c.Bijective() && Part(m, 0, BITS) == m && Part(n, 0, BITS) == n
    requires Coordinate(c, c.group.Times(m, B), u) && Coordinate(c, c.group.Times(n, B), v)
    ensures Cong(Result(v, m), Result(u, n))
  {
    hide Cong, Result, Part, Group.Times, Coordinate, Curve.Laws, Curve.Bijective, Fermat;
    var g := c.group;
    GroupLaws(c);
    ResultIsMultiple(c, g.Times(m, B), u, n);
    ResultIsMultiple(c, g.Times(n, B), v, m);
    g.TimesTimes(n, m, B);
    g.TimesTimes(m, n, B);
    assert m * n == n * m;
    CoordinateUnique(c, g.Times(m * n, B), Result(v, m), Result(u, n));
  }

  /** Key generation and key exchange on both sides. */
  method EdwardsExchange(s: Scheme, seedA: seq<byte>, seedB: seq<byte>)
    returns (x: array<byte>, y: array<byte>)
    requires s.Trusted() && |seedA| == |seedB| == 32
    ensures x.Length == y.Length == 32 && x[..] == y[..]
  {
    hide LE, Result, FromEdwards, Low255, Clamped, Scheme.Trusted, Scheme.IsKeyPair, Scheme.Encode, Group.Times;
    var pubA, a := CreateKeypair(s, seedA);
    var pubB, b := CreateKeypair(s, seedB);
    KeyPairIs(s, seedA, pubA, a[..]);
    KeyPairIs(s, seedB, pubB, b[..]);
    x, y := new byte[32], new byte[32];
    KeyExchange(x, pubB, a[..]);
    KeyExchange(y, pubA, b[..]);
    EdwardsSecretsAgree(s, a[..][..32], b[..][..32], pubA, pubB);
    LEInjective(x[..], y[..]);
  }

  lemma KeyPairIs(s: Scheme, seed: seq<byte>, pub: seq<byte>, priv: seq<byte>)
    requires s.Trusted() && s.IsKeyPair(seed, pub, priv)
    ensures |priv| == 64 && |pub| == 32 && priv[31] <= 127 && Clamped(priv[..32]) == priv[..32]
    ensures pub == s.Encode(s.Curve().group.Times(LE(priv[..32]), s.B))
  {
    ClampedTwice(Sha512Words.Sha512(seed));
  }
}
