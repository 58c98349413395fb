/** Diffie-Hellman key exchange (third-party/ed25519/key_exchange.c): the Montgomery ladder of
    section 5 of RFC 7748 on a public key given as an Edwards point. */
module X25519 {
  import opened MachineInts
  import opened Bitwise
  import opened Clamping
  import opened LittleEndian
  import opened FieldElement
  import opened FieldOps
  import FieldBytes
  import Points

  // ---- RFC 7748, section 5 ----

  /** The projective pairs (x2 : z2) and (x3 : z3). */
  datatype State = State(x2: int, z2: int, x3: int, z3: int)

  ghost function Swapped(s: State, b: int): State
  {
    if b == 1 then State(s.x3, s.z3, s.x2, s.z2) else s
  }

  /** The ladder step as the RFC writes it, with a24 = 121665. */
  ghost function Step(s: State, x1: int): State
  {
    var a, b := s.x2 + s.z2, s.x2 - s.z2;
    var aa, bb := a * a, b * b;
    var e := aa - bb;
    var da, cb := (s.x3 - s.z3) * a, (s.x3 + s.z3) * b;
    State(aa * bb, e * (aa + 121665 * e), (da + cb) * (da + cb), x1 * ((da - cb) * (da - cb)))
  }

  /** The ladder that swaps before and after each step, on bits `bits` - 1 down to t of the
      scalar n. */
  ghost function Ladder(x1: int, n: nat, t: nat, bits: nat): State
    requires t <= bits
    decreases bits - t
  {
    if t == bits then State(1, 0, x1, 1)
    else var b := Bit(n, t); Swapped(Step(Swapped(Ladder(x1, n, t + 1, bits), b), x1), b)
  }

  /** x2 / z2 */
  ghost function Ratio(s: State): int
  {
    s.x2 * Power(s.z2, P_MINUS_2)
  }

  /** The RFC's function: the ladder on 255 bits, and the division. */
  ghost function Result(x1: int, n: nat): int
  {
    Ratio(Ladder(x1, n, 0, BITS))
  }

  const BITS: nat := 255

  /** The u coordinate of the birationally equivalent Montgomery point: (1 + y) / (1 - y). */
  ghost function FromEdwards(y: int): int
  {
    (y + 1) * Power(1 - y, P_MINUS_2)
  }

  lemma SwapTwice(s: State, b: int, c: int)
    requires (b == 0 || b == 1) && (c == 0 || c == 1)
    ensures Swapped(Swapped(s, b), (b + c) % 2) == Swapped(s, c)
  {
  }

  // ---- The implementation ----

  /** The four coordinates of the ladder and its two temporaries. */
  class Registers {
    const x2: array<int32>
    const z2: array<int32>
    const x3: array<int32>
    const z3: array<int32>
    const tmp0: array<int32>
    const tmp1: array<int32>

    constructor ()
      ensures Valid() && fresh(x2) && fresh(z2) && fresh(x3) && fresh(z3) && fresh(tmp0) && fresh(tmp1)
    {
      x2, z2, x3, z3 := new int32[10], new int32[10], new int32[10], new int32[10];
      tmp0, tmp1 := new int32[10], new int32[10];
    }

    ghost predicate Valid()
    {
      && x2.Length == z2.Length == x3.Length == z3.Length == tmp0.Length == tmp1.Length == 10
      && x2 != z2 && x2 != x3 && x2 != z3 && x2 != tmp0 && x2 != tmp1 && z2 != x3 && z2 != z3 && z2 != tmp0
      && z2 != tmp1 && x3 != z3 && x3 != tmp0 && x3 != tmp1 && z3 != tmp0 && z3 != tmp1 && tmp0 != tmp1
    }

    /** The registers hold the state s, each fit to be added and multiplied. */
    ghost predicate Holds(s: State)
      reads x2, z2, x3, z3
    {
      Points.Is(x2, s.x2, 1) && Points.Is(z2, s.z2, 1) && Points.Is(x3, s.x3, 1) && Points.Is(z3, s.z3, 1)
    }

    /** `fe_cswap` of both pairs. */
    method Swap(b: int, ghost s: State)
      requires Valid() && Holds(s) && (b == 0 || b == 1)
      modifies x2, z2, x3, z3
      ensures Holds(Swapped(s, b))
    {
      Cswap(x2, x3, b);
      Cswap(z2, z3, b);
    }

    /** The four sums and differences that a step starts with. */
    method StepTerms(ghost s: State)
      requires Valid() && Holds(s)
      modifies x2, z2, tmp0, tmp1
      ensures Points.Is(tmp0, s.x3 - s.z3, 2) && Points.Is(tmp1, s.x2 - s.z2, 2)
      ensures Points.Is(x2, s.x2 + s.z2, 2) && Points.Is(z2, s.x3 + s.z3, 2)
    {
      Points.SubIs(tmp0, x3, z3, s.x3, 1, s.z3, 1);
      Points.SubIs(tmp1, x2, z2, s.x2, 1, s.z2, 1);
      Points.AddIs(x2, x2, z2, s.x2, 1, s.z2, 1);
      Points.AddIs(z2, x3, z3, s.x3, 1, s.z3, 1);
    }

    /** The products DA and CB and the squares AA and BB. */
    method StepProducts(ghost a: int, ghost b: int, ghost c: int, ghost d: int)
      requires Valid() && Points.Is(tmp0, d, 2) && Points.Is(tmp1, b, 2) && Points.Is(x2, a, 2) && Points.Is(z2, c, 2)
      modifies z2, z3, tmp0, tmp1
      ensures Points.Is(z3, d * a, 1) && Points.Is(z2, c * b, 1) && Points.Is(tmp0, b * b, 1) && Points.Is(tmp1, a * a, 1)
    {
      Points.MulIs(z3, tmp0, x2, d, a);
      Points.MulIs(z2, z2, tmp1, c, b);
      Points.SqIs(tmp0, tmp1, b);
      Points.SqIs(tmp1, x2, a);
    }

    /** The second half. `x1` is the fixed coordinate. */
    method StepSums(x1: array<int32>, ghost x: int, ghost da: int, ghost cb: int, ghost aa: int, ghost bb: int)
      requires Valid() && x1.Length == 10 && x1 !in {x2, z2, x3, z3, tmp0, tmp1} && Points.Is(x1, x, 1)
      requires Points.Is(z3, da, 1) && Points.Is(z2, cb, 1) && Points.Is(tmp0, bb, 1) && Points.Is(tmp1, aa, 1)
      modifies x2, z2, x3, z3, tmp0, tmp1
      ensures var e := aa - bb;
        Holds(State(aa * bb, e * (bb + 121666 * e), (da + cb) * (da + cb), x * ((da - cb) * (da - cb))))
    {
      hide Cong, Val;
      ghost var e := aa - bb;
      Points.AddIs(x3, z3, z2, da, 1, cb, 1);
      Points.SubIs(z2, z3, z2, da, 1, cb, 1);
      Points.MulIs(x2, tmp1, tmp0, aa, bb);
      Points.SubIs(tmp1, tmp1, tmp0, aa, 1, bb, 1);
      Points.SqIs(z2, z2, da - cb);
      Mul121666Is(z3, tmp1, e);
      Points.SqIs(x3, x3, da + cb);
      Points.AddIs(tmp0, tmp0, z3, bb, 1, 121666 * e, 1);
      Points.MulIs(z3, x1, z2, x, (da - cb) * (da - cb));
      Points.MulIs(z2, tmp1, tmp0, e, bb + 121666 * e);
    }

    /** One step of the loop in key_exchange.c. */
    method LadderStep(x1: array<int32>, ghost x: int, ghost s: State)
      requires Valid() && x1.Length == 10 && x1 !in {x2, z2, x3, z3, tmp0, tmp1} && Points.Is(x1, x, 1) && Holds(s)
      modifies x2, z2, x3, z3, tmp0, tmp1
      ensures Holds(Step(s, x))
    {
      StepTerms(s);
      ghost var da, cb, aa, bb := NamedProducts(s, x);
      StepProducts(s.x2 + s.z2, s.x2 - s.z2, s.x3 + s.z3, s.x3 - s.z3);
      StepSums(x1, x, da, cb, aa, bb);
    }
  }

  /** The products of a step, named; 121666 E + BB is 121665 E + AA. */
  lemma NamedProducts(s: State, x: int) returns (da: int, cb: int, aa: int, bb: int)
    ensures da == (s.x3 - s.z3) * (s.x2 + s.z2) && cb == (s.x3 + s.z3) * (s.x2 - s.z2)
    ensures aa == (s.x2 + s.z2) * (s.x2 + s.z2) && bb == (s.x2 - s.z2) * (s.x2 - s.z2)
    ensures var e := aa - bb;
      Step(s, x) == State(aa * bb, e * (bb + 121666 * e), (da + cb) * (da + cb), x * ((da - cb) * (da - cb)))
  {
    da, cb := (s.x3 - s.z3) * (s.x2 + s.z2), (s.x3 + s.z3) * (s.x2 - s.z2);
    aa, bb := (s.x2 + s.z2) * (s.x2 + s.z2), (s.x2 - s.z2) * (s.x2 - s.z2);
    var e := aa - bb;
    assert bb + 121666 * e == aa + 121665 * e;
  }

  method Mul121666Is(h: array<int32>, f: array<int32>, ghost v: int)
    requires h.Length == f.Length == 10 && Points.Is(f, v, 2)
    modifies h
    ensures Points.Is(h, 121666 * v, 1)
  {
    ghost var x := Val(f[..]);
    FieldBytes.Mul121666(h, f);
    CongSelf(121666);
    CongMul(121666, 121666, x, v);
    CongTrans(Val(h[..]), 121666 * x, 121666 * v);
  }

  method InvertIs(h: array<int32>, f: array<int32>, ghost v: int)
    requires h.Length == f.Length == 10 && Loose(f[..]) && Cong(Val(f[..]), v)
    modifies h
    ensures Points.Is(h, Power(v, P_MINUS_2), 1)
  {
    ghost var x := Val(f[..]);
    Invert(h, f);
    CongPower(x, v, P_MINUS_2);
    CongTrans(Val(h[..]), Power(x, P_MINUS_2), Power(v, P_MINUS_2));
  }

  lemma {:induction false} CongPower(x: int, y: int, e: nat)
    requires Cong(x, y)
    ensures Cong(Power(x, e), Power(y, e))
  {
    if e == 0 {
      CongSelf(1);
    } else {
      CongPower(x, y, e - 1);
      CongMul(x, y, Power(x, e - 1), Power(y, e - 1));
    }
  }

  /** `x1 = (y + 1) / (1 - y)` */
  method ToMontgomery(x1: array<int32>, publicKey: seq<byte>)
    requires x1.Length == 10 && |publicKey| == 32
    modifies x1
    ensures Points.Is(x1, FromEdwards(FieldBytes.Low255(publicKey)), 1)
  {
    var tmp0, tmp1 := new int32[10], new int32[10];
    ghost var y := FieldBytes.Low255(publicKey);
    FieldBytes.FromBytes(x1, publicKey);
    Small(tmp1, 1);
    CongSelf(1);
    Points.AddIs(tmp0, x1, tmp1, y, 1, 1, 1);
    Points.SubIs(tmp1, tmp1, x1, 1, 1, y, 1);
    InvertIs(tmp1, tmp1, 1 - y);
    Points.MulIs(x1, tmp0, tmp1, y + 1, Power(1 - y, P_MINUS_2));
  }

  /** The ladder with deferred swaps: at each point the registers hold the state of the eager
      ladder, exchanged if the last bit was set. */
  method RunLadder(r: Registers, x1: array<int32>, ghost x: int, e: seq<byte>)
    requires r.Valid() && x1.Length == 10 && x1 !in {r.x2, r.z2, r.x3, r.z3, r.tmp0, r.tmp1}
    requires Points.Is(x1, x, 1) && |e| == 32
    modifies r.x2, r.z2, r.x3, r.z3, r.tmp0, r.tmp1
    ensures r.Holds(Ladder(x, LE(e), 0, BITS))
  {
    Small(r.x2, 1);
    Small(r.z2, 0);
    Copy(r.x3, x1);
    Small(r.z3, 1);
    CongSelf(1);
    CongSelf(0);
    ghost var n := LE(e);
    var swap := 0;
    for pos := 255 downto 0
      invariant swap == 0 || swap == 1
      invariant Points.Is(x1, x, 1)
      invariant r.Holds(Swapped(Ladder(x, n, pos, BITS), swap))
    {
      var b := Bit(e[pos / 8] as int, pos % 8);
      BitRange(e[pos / 8] as int, pos % 8);
      BitOfBytes(e, pos);
      ghost var s := Ladder(x, n, pos + 1, BITS);
      SwapTwice(s, swap, b);
      r.Swap((swap + b) % 2, Swapped(s, swap));
      swap := b;
      r.LadderStep(x1, x, Swapped(s, b));
      SwapTwice(Step(Swapped(s, b), x), b, 0);
    }
    r.Swap(swap, Swapped(Ladder(x, n, 0, BITS), swap));
    SwapTwice(Ladder(x, n, 0, BITS), swap, 0);
  }

  /** `ed25519_key_exchange`: the shared secret is the canonical encoding of the ladder's result. */
  method KeyExchange(secret: array<byte>, publicKey: seq<byte>, privateKey: seq<byte>)
    requires secret.Length == 32 && |publicKey| == 32 && |privateKey| >= 32
    modifies secret
    ensures LE(secret[..]) == Result(FromEdwards(FieldBytes.Low255(publicKey)), LE(Clamped(privateKey[..32]))) % P
    ensures LE(secret[..]) == Result(FromEdwards(FieldBytes.Low255(publicKey)), Scalar(LE(privateKey[..32]))) % P
  {
    ClampedScalar(privateKey[..32]);
    assert Clamped(privateKey[..32])[..32] == Clamped(privateKey[..32]) && privateKey[..32][..32] == privateKey[..32];
    hide Scalar, LE, Result, FromEdwards, FieldBytes.Low255;
    var e := new byte[32](i requires 0 <= i < 32 => privateKey[i]);
    assert e[..] == privateKey[..32];
    Clamp(e);
    var x1 := new int32[10];
    ToMontgomery(x1, publicKey);
    Exchange(secret, x1, FromEdwards(FieldBytes.Low255(publicKey)), e[..]);
  }

  /** The ladder and the division at its end. */
  method Exchange(secret: array<byte>, x1: array<int32>, ghost x: int, e: seq<byte>)
    requires secret.Length == 32 && x1.Length == 10 && Points.Is(x1, x, 1) && |e| == 32
    modifies secret
    ensures LE(secret[..]) == Result(x, LE(e)) % P
  {
    var r := new Registers();
    RunLadder(r, x1, x, e);
    ghost var s := Ladder(x, LE(e), 0, BITS);
    InvertIs(r.z2, r.z2, s.z2);
    Points.MulIs(r.x2, r.x2, r.z2, s.x2, Power(s.z2, P_MINUS_2));
    FieldBytes.ToBytes(secret, r.x2);
    CongIsMod(Val(r.x2[..]), Result(x, LE(e)));
  }
}
