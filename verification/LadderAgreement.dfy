/** The two X25519 implementations of the repository, key_exchange.c with deferred swaps on 255
    bits and curve25519-donna with eager swaps on 256, compute the same function. */
module LadderAgreement {
  import opened MachineInts
  import opened Bitwise
  import opened Clamping
  import opened LittleEndian
  import opened FieldElement
  import opened FieldOps
  import opened FieldPrime
  import opened X25519
  import FieldBytes
  import DonnaLadder

  // ---- Scaled states ----

  /** The same two points, in coordinates l and m times as large. */
  ghost predicate Scaled(s: State, t: State, l: int, m: int)
  {
    s.x2 == l * t.x2 && s.z2 == l * t.z2 && s.x3 == m * t.x3 && s.z3 == m * t.z3
  }

  /** A ladder step, from named sums and differences. */
  ghost function FromTerms(a: int, b: int, c: int, d: int, x1: int): State
  {
    var e := a * a - b * b;
    State(a * a * (b * b), e * (a * a + 121665 * e), (d * a + c * b) * (d * a + c * b),
          x1 * ((d * a - c * b) * (d * a - c * b)))
  }

  lemma StepFromTerms(s: State, x1: int)
    ensures Step(s, x1) == FromTerms(s.x2 + s.z2, s.x2 - s.z2, s.x3 + s.z3, s.x3 - s.z3, x1)
  {
  }

  lemma ScaledTerms(a: int, b: int, c: int, d: int, x1: int, l: int, m: int)
    ensures Scaled(FromTerms(l * a, l * b, m * c, m * d, x1), FromTerms(a, b, c, d, x1), l * l * (l * l), l * m * (l * m))
  {
    Interchange(l, a, l, a);
    Interchange(l, b, l, b);
    Interchange(m, d, l, a);
    Interchange(m, c, l, b);
    ScaledProducts(a * a, b * b, d * a, c * b, x1, l * l, m * l);
  }

  lemma ScaledProducts(aa: int, bb: int, da: int, cb: int, x1: int, k: int, n: int)
    ensures (k * aa) * (k * bb) == k * k * (aa * bb)
    ensures var e := k * aa - k * bb; e * (k * aa + 121665 * e) == k * k * ((aa - bb) * (aa + 121665 * (aa - bb)))
    ensures (n * da + n * cb) * (n * da + n * cb) == n * n * ((da + cb) * (da + cb))
    ensures x1 * ((n * da - n * cb) * (n * da - n * cb)) == n * n * (x1 * ((da - cb) * (da - cb)))
  {
    Interchange(k, aa, k, bb);
    Interchange(k, aa - bb, k, aa + 121665 * (aa - bb));
    assert k * aa - k * bb == k * (aa - bb) && k * aa + 121665 * (k * aa - k * bb) == k * (aa + 121665 * (aa - bb));
    Interchange(n, da + cb, n, da + cb);
    assert n * da + n * cb == n * (da + cb);
    Interchange(n, da - cb, n, da - cb);
    assert n * da - n * cb == n * (da - cb);
    var w := (da - cb) * (da - cb);
    assert x1 * (n * n * w) == n * n * (x1 * w);
  }

  lemma StepScaled(s: State, t: State, x1: int, l: int, m: int)
    requires Scaled(s, t, l, m)
    ensures Scaled(Step(s, x1), Step(t, x1), l * l * (l * l), l * m * (l * m))
  {
    hide Step, FromTerms;
    StepFromTerms(s, x1);
    StepFromTerms(t, x1);
    assert s.x2 + s.z2 == l * (t.x2 + t.z2) && s.x2 - s.z2 == l * (t.x2 - t.z2);
    assert s.x3 + s.z3 == m * (t.x3 + t.z3) && s.x3 - s.z3 == m * (t.x3 - t.z3);
    ScaledTerms(t.x2 + t.z2, t.x2 - t.z2, t.x3 + t.z3, t.x3 - t.z3, x1, l, m);
  }

  lemma SwappedScaled(s: State, t: State, l: int, m: int, b: int)
    requires Scaled(s, t, l, m)
    ensures if b == 1 then Scaled(Swapped(s, b), Swapped(t, b), m, l) else Scaled(Swapped(s, b), Swapped(t, b), l, m)
  {
  }

  /** With bit 255 clear the extra step only scales one of the two points, by 4 x1; after that
      the two ladders take the same steps. */
  lemma {:induction false} LadderScaled(x1: int, n: nat, t: nat, bits: nat, all: nat) returns (l: int, m: int)
    requires t <= bits && all == bits + 1 && Bit(n, bits) == 0
    requires Unit(4 * x1)
    ensures Scaled(Ladder(x1, n, t, all), Ladder(x1, n, t, bits), l, m) && Unit(l) && Unit(m)
    decreases bits - t
  {
    hide Unit;
    if t == bits {
      UnitOne();
      FirstStep(x1, n, bits, all);
      l, m := 1, 4 * x1;
    } else {
      hide Step, Scaled, Ladder;
      var b := Bit(n, t);
      var l0, m0 := LadderScaled(x1, n, t + 1, bits, all);
      var s, s' := Ladder(x1, n, t + 1, all), Ladder(x1, n, t + 1, bits);
      SwappedScaled(s, s', l0, m0, b);
      l, m := Both(Swapped(s, b), Swapped(s', b), x1, if b == 1 then m0 else l0, if b == 1 then l0 else m0);
      SwappedScaled(Step(Swapped(s, b), x1), Step(Swapped(s', b), x1), l, m, b);
      LadderNext(x1, n, t, all);
      LadderNext(x1, n, t, bits);
      if b == 1 {
        l, m := m, l;
      }
    }
  }

  lemma LadderNext(x1: int, n: nat, t: nat, bits: nat)
    requires t < bits
    ensures var b := Bit(n, t); Ladder(x1, n, t, bits) == Swapped(Step(Swapped(Ladder(x1, n, t + 1, bits), b), x1), b)
  {
  }

  lemma Both(s: State, t: State, x1: int, l: int, m: int) returns (l': int, m': int)
    requires Scaled(s, t, l, m) && Unit(l) && Unit(m)
    ensures Scaled(Step(s, x1), Step(t, x1), l', m') && Unit(l') && Unit(m')
  {
    hide Unit, Step, Scaled;
    l', m' := l * l * (l * l), l * m * (l * m);
    StepScaled(s, t, x1, l, m);
    UnitTimes(l, l);
    UnitTimes(l, m);
    UnitTimes(l * l, l * l);
    UnitTimes(l * m, l * m);
  }

  lemma FirstStep(x1: int, n: nat, bits: nat, all: nat)
    requires all == bits + 1 && Bit(n, bits) == 0
    ensures Scaled(Ladder(x1, n, bits, all), Ladder(x1, n, bits, bits), 1, 4 * x1)
  {
    LadderNext(x1, n, bits, all);
    var s := State(1, 0, x1, 1);
    assert Ladder(x1, n, all, all) == s == Ladder(x1, n, bits, bits);
    StepOfStart(x1);
  }

  lemma StepOfStart(x1: int)
    ensures Step(State(1, 0, x1, 1), x1) == State(1, 0, 4 * x1 * x1, 4 * x1)
  {
  }

  /** Scaling cancels in the quotient. */
  lemma RatioScaled(s: State, t: State, l: int, m: int)
    requires Scaled(s, t, l, m) && Unit(l)
    ensures Cong(Ratio(s), Ratio(t))
  {
    hide Cong;
    PowerTimes(l, t.z2, P_MINUS_2);
    Interchange(l, t.x2, Power(l, P_MINUS_2), Power(t.z2, P_MINUS_2));
    CongSelf(Ratio(t));
    CongMul(l * Power(l, P_MINUS_2), 1, Ratio(t), Ratio(t));
  }

  // ---- The point of order two ----

  /** One coordinate of each pair is 0 modulo p. */
  ghost predicate Degenerate(s: State)
  {
    Cong(s.x2 * s.z2, 0) && Cong(s.x3 * s.z3, 0)
  }

  lemma StepDegenerate(s: State, x1: int)
    requires Degenerate(s) && Cong(x1, 0)
    ensures Cong(Step(s, x1).z2, 0) && Cong(Step(s, x1).z3, 0) && Degenerate(Step(s, x1))
  {
    hide Cong, Step;
    StepFromTerms(s, x1);
    var e, f, w := ZeroFactors(s, x1);
    TimesZero(s.x2 * s.z2, 4);
    TimesZero(e, f);
    TimesZero(x1, w);
    var r := Step(s, x1);
    hide FromTerms;
    TimesZero(r.z2, r.x2);
    TimesZero(r.z3, r.x3);
  }

  lemma ZeroFactors(s: State, x1: int) returns (e: int, f: int, w: int)
    ensures e == s.x2 * s.z2 * 4 && Step(s, x1).z2 == e * f && Step(s, x1).z3 == x1 * w
  {
    var a, b, c, d := s.x2 + s.z2, s.x2 - s.z2, s.x3 + s.z3, s.x3 - s.z3;
    StepFromTerms(s, x1);
    hide Step;
    e := a * a - b * b;
    f, w := a * a + 121665 * e, (d * a - c * b) * (d * a - c * b);
    FourTimes(s.x2, s.z2);
  }

  lemma FourTimes(x: int, z: int)
    ensures (x + z) * (x + z) - (x - z) * (x - z) == x * z * 4
  {
  }

  /** With u == 0 the ladder ends in a point whose z is 0. */
  lemma {:induction false} ZeroLadder(x1: int, n: nat, t: nat, bits: nat)
    requires t <= bits && Cong(x1, 0)
    ensures Degenerate(Ladder(x1, n, t, bits))
    ensures t < bits ==> Cong(Ladder(x1, n, t, bits).z2, 0)
    decreases bits - t
  {
    hide Step, Cong;
    if t == bits {
      CongSelf(0);
      TimesZero(x1, 1);
    } else {
      ZeroLadder(x1, n, t + 1, bits);
      var b := Bit(n, t);
      StepDegenerate(Swapped(Ladder(x1, n, t + 1, bits), b), x1);
    }
  }

  lemma ZeroRatio(s: State)
    requires Cong(s.z2, 0)
    ensures Cong(Ratio(s), 0)
  {
    hide Cong;
    var w := Power(s.z2, P_MINUS_2 - 1);
    assert Power(s.z2, P_MINUS_2) == s.z2 * w;
    TimesZero(s.z2, w);
    TimesZero(s.z2 * w, s.x2);
  }

  // ---- Agreement ----

  /** Bit 255 of a scalar does not matter if it is 0: curve25519-donna computes the function of
      RFC 7748, for every u. */
  lemma SameResult(x1: int, n: nat)
    requires Fermat() && Bit(n, BITS) == 0
    ensures Cong(Ratio(Ladder(x1, n, 0, DonnaLadder.ALL_BITS)), Result(x1, n))
  {
    hide Cong, Ladder, Power, Bit;
    var s, t := Ladder(x1, n, 0, DonnaLadder.ALL_BITS), Ladder(x1, n, 0, BITS);
    if Cong(x1, 0) {
      ZeroLadder(x1, n, 0, DonnaLadder.ALL_BITS);
      ZeroLadder(x1, n, 0, BITS);
      ZeroRatio(s);
      ZeroRatio(t);
      CongSym(Ratio(t), 0);
      CongTrans(Ratio(s), 0, Ratio(t));
    } else {
      CongIsMod(4, 0);
      UnitTimes(4, x1);
      var l, m := LadderScaled(x1, n, 0, BITS, DonnaLadder.ALL_BITS);
      RatioScaled(s, t, l, m);
    }
  }

  lemma ClampedBit(secret: seq<byte>)
    requires |secret| == 32
    ensures Bit(LE(Clamped(secret)), BITS) == 0
  {
    var e := Clamped(secret);
    BitOfBytes(e, BITS);
    DonnaLadder.TopBit(e[31] as int);
  }

  // ---- Congruent points ----

  ghost predicate Same(s: State, t: State)
  {
    Cong(s.x2, t.x2) && Cong(s.z2, t.z2) && Cong(s.x3, t.x3) && Cong(s.z3, t.z3)
  }

  lemma StepSame(s: State, t: State, x: int, y: int)
    requires Same(s, t) && Cong(x, y)
    ensures Same(Step(s, x), Step(t, y))
  {
    hide Cong, Step, FromTerms;
    StepFromTerms(s, x);
    StepFromTerms(t, y);
    CongAdd(s.x2, t.x2, s.z2, t.z2);
    CongAdd(s.x3, t.x3, s.z3, t.z3);
    TermsSame(s.x2 + s.z2, t.x2 + t.z2, s.x2 - s.z2, t.x2 - t.z2, s.x3 + s.z3, t.x3 + t.z3, s.x3 - s.z3,
        t.x3 - t.z3, x, y);
  }

  lemma TermsSame(a: int, a': int, b: int, b': int, c: int, c': int, d: int, d': int, x: int, y: int)
    requires Cong(a, a') && Cong(b, b') && Cong(c, c') && Cong(d, d') && Cong(x, y)
    ensures Same(FromTerms(a, b, c, d, x), FromTerms(a', b', c', d', y))
  {
    hide Cong;
    CongMul(a, a', a, a');
    CongMul(b, b', b, b');
    CongMul(d, d', a, a');
    CongMul(c, c', b, b');
    ProductsSame(a * a, a' * a', b * b, b' * b', d * a, d' * a', c * b, c' * b', x, y);
  }

  lemma ProductsSame(aa: int, aa': int, bb: int, bb': int, da: int, da': int, cb: int, cb': int, x: int, y: int)
    requires Cong(aa, aa') && Cong(bb, bb') && Cong(da, da') && Cong(cb, cb') && Cong(x, y)
    ensures Cong(aa * bb, aa' * bb')
    ensures Cong((aa - bb) * (aa + 121665 * (aa - bb)), (aa' - bb') * (aa' + 121665 * (aa' - bb')))
    ensures Cong((da + cb) * (da + cb), (da' + cb') * (da' + cb'))
    ensures Cong(x * ((da - cb) * (da - cb)), y * ((da' - cb') * (da' - cb')))
  {
    hide Cong;
    CongMul(aa, aa', bb, bb');
    CongAdd(aa, aa', bb, bb');
    CongSelf(121665);
    CongMul(121665, 121665, aa - bb, aa' - bb');
    CongAdd(aa, aa', 121665 * (aa - bb), 121665 * (aa' - bb'));
    CongMul(aa - bb, aa' - bb', aa + 121665 * (aa - bb), aa' + 121665 * (aa' - bb'));
    CongAdd(da, da', cb, cb');
    CongMul(da + cb, da' + cb', da + cb, da' + cb');
    CongMul(da - cb, da' - cb', da - cb, da' - cb');
    CongMul(x, y, (da - cb) * (da - cb), (da' - cb') * (da' - cb'));
  }

  lemma {:induction false} LadderSame(x: int, y: int, n: nat, t: nat, bits: nat)
    requires t <= bits && Cong(x, y)
    ensures Same(Ladder(x, n, t, bits), Ladder(y, n, t, bits))
    decreases bits - t
  {
    hide Step, Cong;
    if t == bits {
      CongSelf(0);
      CongSelf(1);
    } else {
      LadderSame(x, y, n, t + 1, bits);
      var b := Bit(n, t);
      StepSame(Swapped(Ladder(x, n, t + 1, bits), b), Swapped(Ladder(y, n, t + 1, bits), b), x, y);
    }
  }

  lemma ResultSame(x: int, y: int, n: nat)
    requires Cong(x, y)
    ensures Cong(Result(x, n), Result(y, n))
  {
    hide Cong, Ladder, Power;
    LadderSame(x, y, n, 0, BITS);
    var s, t := Ladder(x, n, 0, BITS), Ladder(y, n, 0, BITS);
    CongPower(s.z2, t.z2, P_MINUS_2);
    CongMul(s.x2, t.x2, Power(s.z2, P_MINUS_2), Power(t.z2, P_MINUS_2));
  }

  /** The Edwards form and the Montgomery form of the same public key give the same secret. */
  method Agree(privateKey: seq<byte>, edwardsKey: seq<byte>, montgomeryKey: seq<byte>)
    returns (secret: array<byte>, shared: array<byte>)
    requires |privateKey| == |edwardsKey| == |montgomeryKey| == 32
    requires Fermat()
    requires Cong(FieldBytes.Low255(montgomeryKey), FromEdwards(FieldBytes.Low255(edwardsKey)))
    ensures secret.Length == shared.Length == 32 && secret[..] == shared[..]
    ensures LE(shared[..]) == Result(FieldBytes.Low255(montgomeryKey), LE(Clamped(privateKey))) % P
  {
    hide Cong, Ladder, FromEdwards, FieldBytes.Low255, Clamped, Ratio;
    secret, shared := new byte[32], new byte[32];
    KeyExchange(secret, edwardsKey, privateKey);
    DonnaLadder.Donna(shared, privateKey, DonnaLadder.Given(montgomeryKey));
    assert privateKey[..32] == privateKey;
    ghost var n := LE(Clamped(privateKey));
    ghost var u, v := FieldBytes.Low255(montgomeryKey), FromEdwards(FieldBytes.Low255(edwardsKey));
    ClampedBit(privateKey);
    SameResult(u, n);
    ResultSame(u, v, n);
    CongIsMod(Ratio(Ladder(u, n, 0, DonnaLadder.ALL_BITS)), Result(u, n));
    CongIsMod(Result(u, n), Result(v, n));
    FieldBytes.LEInjective(secret[..], shared[..]);
  }
}
