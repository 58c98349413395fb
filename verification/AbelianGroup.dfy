/** An abstract commutative group, given by its operations. Nothing is assumed of it: every
    lemma that needs the group laws asks for `Laws()`. */
module AbelianGroup {

  datatype Group<!P(!new)> = Group(add: (P, P) -> P, neg: P -> P, zero: P)
  {
    ghost predicate Laws()
    {
      && (forall x, y :: Commutes(x, y))
      && (forall x, y, z :: Associates(x, y, z))
      && (forall x :: Neutral(x))
      && (forall x :: Cancels(x))
    }

    ghost predicate Commutes(x: P, y: P) { add(x, y) == add(y, x) }

    ghost predicate Associates(x: P, y: P, z: P) { add(add(x, y), z) == add(x, add(y, z)) }

    ghost predicate Neutral(x: P) { add(x, zero) == x }

    ghost predicate Cancels(x: P) { add(x, neg(x)) == zero }

    /** The n-fold sum of p, for every integer n. */
    ghost function Times(n: int, p: P): P
      decreases n < 0, if n < 0 then -n else n
    {
      if n == 0 then zero else if n > 0 then add(Times(n - 1, p), p) else neg(Times(-n, p))
    }

    /** (w + x) + (y + z) == (w + y) + (x + z) */
    lemma Interchange(w: P, x: P, y: P, z: P)
      requires Laws()
      ensures add(add(w, x), add(y, z)) == add(add(w, y), add(x, z))
    {
      assert Associates(w, x, add(y, z)) && Associates(x, y, z) && Commutes(x, y);
      assert Associates(y, x, z) && Associates(w, y, add(x, z));
    }

    lemma InverseUnique(x: P, y: P)
      requires Laws() && add(x, y) == zero
      ensures y == neg(x)
    {
      assert Neutral(y) && Cancels(x) && Commutes(x, y) && Commutes(y, zero);
      assert Associates(y, x, neg(x)) && Neutral(neg(x)) && Commutes(neg(x), zero);
    }

    lemma NegNeg(x: P)
      requires Laws()
      ensures neg(neg(x)) == x
    {
      assert Cancels(x) && Commutes(x, neg(x));
      InverseUnique(neg(x), x);
    }

    lemma NegAdd(x: P, y: P)
      requires Laws()
      ensures neg(add(x, y)) == add(neg(x), neg(y))
    {
      Interchange(x, y, neg(x), neg(y));
      assert Cancels(x) && Cancels(y) && Neutral(zero);
      InverseUnique(add(x, y), add(neg(x), neg(y)));
    }

    lemma NegZero()
      requires Laws()
      ensures neg(zero) == zero
    {
      assert Neutral(zero);
      InverseUnique(zero, zero);
    }

    lemma TimesNeg(n: int, p: P)
      requires Laws()
      ensures Times(-n, p) == neg(Times(n, p))
    {
      if n == 0 {
        NegZero();
      } else if n < 0 {
        NegNeg(Times(-n, p));
      }
    }

    lemma TimesSuccessor(n: int, p: P)
      requires Laws()
      ensures Times(n + 1, p) == add(Times(n, p), p)
    {
      if n == -1 {
        assert Neutral(p) && Commutes(p, zero) && Cancels(p) && Commutes(p, neg(p));
        assert Times(1, p) == add(Times(0, p), p);
      } else if n < -1 {
        var m := -n - 1;
        var t := Times(m, p);
        assert Times(m + 1, p) == add(t, p);
        NegAdd(t, p);
        assert Associates(neg(t), neg(p), p) && Commutes(neg(p), p) && Cancels(p) && Neutral(neg(t));
      }
    }

    lemma {:induction false} TimesAdd(m: int, n: int, p: P)
      requires Laws()
      ensures Times(m + n, p) == add(Times(m, p), Times(n, p))
      decreases if n < 0 then -n else n
    {
      if n == 0 {
        assert Neutral(Times(m, p));
      } else if n > 0 {
        TimesAdd(m, n - 1, p);
        TimesSuccessor(m + n - 1, p);
        TimesSuccessor(n - 1, p);
        assert Associates(Times(m, p), Times(n - 1, p), p);
      } else {
        TimesAdd(m, n + 1, p);
        TimesSuccessor(m + n, p);
        TimesSuccessor(n, p);
        assert Associates(Times(m, p), Times(n, p), p);
        CancelRight(Times(m + n, p), add(Times(m, p), Times(n, p)), p);
      }
    }

    lemma CancelRight(x: P, y: P, z: P)
      requires Laws() && add(x, z) == add(y, z)
      ensures x == y
    {
      assert Associates(x, z, neg(z)) && Associates(y, z, neg(z)) && Cancels(z) && Neutral(x) && Neutral(y);
    }

    lemma {:induction false} TimesTimes(m: int, n: int, p: P)
      requires Laws()
      ensures Times(m, Times(n, p)) == Times(m * n, p)
      decreases m < 0, if m < 0 then -m else m
    {
      if m > 0 {
        TimesTimes(m - 1, n, p);
        TimesAdd((m - 1) * n, n, p);
        assert (m - 1) * n + n == m * n;
      } else if m < 0 {
        TimesTimes(-m, n, p);
        TimesNeg(-m * n, p);
        assert -(-m * n) == m * n;
      }
    }
  }
}
