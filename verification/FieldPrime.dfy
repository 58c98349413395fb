/** The field of order p: powers, inverses and square roots. All of it follows from Fermat's little
    theorem, which is a hypothesis here. */
module FieldPrime {
  import opened FieldElement
  import opened FieldOps

  // ---- Units ----

  /** z^(p-2) is the inverse of z. */
  ghost predicate Unit(z: int)
  {
    Cong(z * Power(z, P_MINUS_2), 1)
  }

  /** Fermat's little theorem for p, which rests on p being prime. */
  ghost predicate Fermat()
  {
    forall z :: !Cong(z, 0) ==> Unit(z)
  }

  lemma {:induction false} PowerTimes(a: int, b: int, e: nat)
    ensures Power(a * b, e) == Power(a, e) * Power(b, e)
  {
    if e > 0 {
      PowerTimes(a, b, e - 1);
      Interchange(a, b, Power(a, e - 1), Power(b, e - 1));
    }
  }

  lemma UnitTimes(a: int, b: int)
    requires Unit(a) && Unit(b)
    ensures Unit(a * b)
  {
    hide Cong;
    var u, v := Power(a, P_MINUS_2), Power(b, P_MINUS_2);
    PowerTimes(a, b, P_MINUS_2);
    Interchange(a, b, u, v);
    CongMul(a * u, 1, b * v, 1);
  }

  lemma {:induction false} PowerOne(e: nat)
    ensures Power(1, e) == 1
  {
    if e > 0 {
      PowerOne(e - 1);
    }
  }

  lemma UnitOne()
    ensures Unit(1)
  {
    PowerOne(P_MINUS_2);
    CongSelf(1);
  }

  lemma TimesZero(x: int, y: int)
    requires Cong(x, 0)
    ensures Cong(x * y, 0) && Cong(y * x, 0)
  {
    CongSelf(y);
    CongMul(x, 0, y, y);
    assert y * x == x * y;
  }

  /** z^(p-2) inverts z. */
  lemma Cancel(z: int, x: int)
    requires Unit(z)
    ensures Cong(Power(z, P_MINUS_2) * (z * x), x)
  {
    hide Cong, Power;
    var w := Power(z, P_MINUS_2);
    CongSelf(x);
    CongMul(z * w, 1, x, x);
    SwapFactors(z, w, x);
  }

  lemma NoZeroDivisors(a: int, b: int)
    requires Fermat() && Cong(a * b, 0)
    ensures Cong(a, 0) || Cong(b, 0)
  {
    hide Cong, Power;
    if !Cong(a, 0) {
      Cancel(a, b);
      var w := Power(a, P_MINUS_2);
      TimesZero(a * b, w);
      CongSym(w * (a * b), b);
      CongTrans(b, w * (a * b), 0);
    }
  }

  lemma ProductNonzero(f: int, g: int)
    requires Fermat() && !Cong(f, 0) && !Cong(g, 0)
    ensures !Cong(f * g, 0)
  {
    if Cong(f * g, 0) {
      NoZeroDivisors(f, g);
    }
  }

  lemma CancelFactor(x: int, y: int, t: int)
    requires Fermat() && !Cong(t, 0) && Cong(x * t, y * t)
    ensures Cong(x, y)
  {
    hide Cong;
    CongSelf(y * t);
    CongAdd(x * t, y * t, y * t, y * t);
    assert x * t - y * t == (x - y) * t;
    NoZeroDivisors(x - y, t);
    CongSelf(y);
    CongAdd(x - y, 0, y, y);
  }

  /** Equal squares have equal or opposite roots. */
  lemma SquareRoots(a: int, b: int)
    requires Fermat() && Cong(a * a, b * b)
    ensures Cong(a, b) || Cong(a, -b)
  {
    hide Cong;
    CongSelf(b * b);
    CongAdd(a * a, b * b, b * b, b * b);
    assert a * a - b * b == (a - b) * (a + b);
    NoZeroDivisors(a - b, a + b);
    CongSelf(b);
    if Cong(a - b, 0) {
      CongAdd(a - b, 0, b, b);
    } else {
      CongAdd(a + b, 0, b, b);
    }
  }

  /** (p - 1) / 2 */
  const HALF: nat := 0x3ffffffffffffffffffffffffffffffffffffffffffffffffffffffffffffff6

  /** Euler's criterion: z^((p-1)/2) is 1 or -1. */
  lemma Euler(z: int)
    requires Fermat() && !Cong(z, 0)
    ensures Cong(Power(z, HALF), 1) || Cong(Power(z, HALF), -1)
  {
    hide Cong;
    var h := Power(z, HALF);
    PowerAdd(z, HALF, HALF);
    assert Power(z, P_MINUS_2 + 1) == z * Power(z, P_MINUS_2);
    assert HALF + HALF == P_MINUS_2 + 1;
    assert Cong(h * h, 1 * 1);
    SquareRoots(h, 1);
  }
}
