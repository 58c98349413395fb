/** The bitwise operators of C on 32-bit words, over the two's complement bits: the masks that
    select without a branch, and the shifts that compare without one. */
module Words32 {
  import opened Bitwise
  import opened MachineInts

  const WORD: int := 0x1_0000_0000

  /** The word as unsigned. */
  function Bits(x: int32): (n: nat)
    ensures n < WORD
  {
    if x < 0 then x as int + WORD else x as int
  }

  /** And back. */
  function Word(n: nat): (x: int32)
    requires n < WORD
    ensures Bits(x) == n
  {
    (if n < 0x8000_0000 then n else n - WORD) as int32
  }

  lemma PowerWord()
    ensures Pow2(32) == WORD && Pow2(31) == 0x8000_0000
  {
    assert Pow2(4) == 0x10 && Pow2(8) == 0x10 * Pow2(4) && Pow2(12) == 0x10 * Pow2(8) && Pow2(16) == 0x10 * Pow2(12);
    assert Pow2(20) == 0x10 * Pow2(16) && Pow2(24) == 0x10 * Pow2(20) && Pow2(28) == 0x10 * Pow2(24);
    assert Pow2(31) == 8 * Pow2(28);
  }

  /** x ^ y */
  function Xor32(x: int32, y: int32): int32
  {
    PowerWord();
    Word(XorBits(Bits(x), Bits(y), 32))
  }

  /** x & y */
  function And32(x: int32, y: int32): int32
  {
    PowerWord();
    Word(AndBits(Bits(x), Bits(y), 32))
  }

  /** ~x */
  function Not32(x: int32): int32
  {
    -1 - x
  }

  /** x << k, which drops the upper bits. */
  function Shl32(x: int32, k: nat): int32
  {
    Word(Bits(x) * Pow2(k) % WORD)
  }

  /** x >> 31, with the sign. */
  function Sign32(x: int32): (m: int32)
    ensures m == if x < 0 then -1 else 0
  {
    x / 0x4000_0000 / 2
  }

  // ---- Masks ----

  lemma MaskKeeps(x: int32)
    ensures And32(x, -1) == And32(-1, x) == x && And32(x, 0) == And32(0, x) == 0
  {
    PowerWord();
    AndOnes(Bits(x), 32);
    AndNothing(Bits(x), 32);
  }

  /** Exclusive or with the masked difference exchanges the words for bit == 1 and keeps them for
      bit == 0. */
  lemma MaskSelects(x: int32, y: int32, bit: int32)
    requires bit == 0 || bit == 1
    ensures var m := And32(-bit, Xor32(x, y));
      m == And32(Xor32(x, y), -bit)
      && Xor32(x, m) == (if bit == 1 then y else x) && Xor32(y, m) == (if bit == 1 then x else y)
  {
    PowerWord();
    MaskKeeps(Xor32(x, y));
    XorBitsTwice(Bits(x), Bits(y), 32);
    XorBitsTwice(Bits(y), Bits(x), 32);
    XorSymmetric(Bits(x), Bits(y), 32);
    XorSymmetric(Bits(Xor32(x, y)), Bits(x), 32);
    XorSymmetric(Bits(Xor32(x, y)), Bits(y), 32);
    XorNothing(Bits(x), 32);
    XorNothing(Bits(y), 32);
  }

  // ---- Gathering ----

  ghost predicate BitSet(x: int32, t: nat)
  {
    IsSet(Bits(x), t)
  }

  /** Bits lo to 31 are set. */
  ghost predicate SetFrom(x: int32, lo: nat)
  {
    forall t | lo <= t < 32 :: BitSet(x, t)
  }

  lemma ShiftedBit(x: int32, k: nat, t: nat)
    requires k <= t < 32
    ensures Bit(Bits(Shl32(x, k)), t) == Bit(Bits(x), t - k)
  {
    hide Bit, Pow2, Bits;
    PowerWord();
    var n := Bits(x) * Pow2(k);
    BitLow(n % WORD, n / WORD, t, 32);
    assert n == n % WORD + Pow2(32) * (n / WORD);
    BitHigh(0, Bits(x), t - k, k);
    assert 0 + Pow2(k) * Bits(x) == n;
  }

  /** x & x << k */
  function Gather(x: int32, k: nat): int32
  {
    And32(x, Shl32(x, k))
  }

  lemma GatheredBit(x: int32, k: nat, t: nat)
    requires k <= t < 32
    ensures BitSet(Gather(x, k), t) <==> BitSet(x, t) && BitSet(x, t - k)
  {
    hide Bit, Shl32;
    PowerWord();
    BitAnd(Bits(x), Bits(Shl32(x, k)), t, 32);
    ShiftedBit(x, k, t);
  }

  /** One gathering step: what was said by the upper 2k bits is said by the upper k. */
  lemma GatherStep(x: int32, k: nat)
    requires 2 * k <= 32
    ensures SetFrom(Gather(x, k), 32 - k) <==> SetFrom(x, 32 - 2 * k)
  {
    hide BitSet, Gather;
    var y := Gather(x, k);
    if SetFrom(y, 32 - k) {
      forall t | 32 - 2 * k <= t < 32
        ensures BitSet(x, t)
      {
        var s := if t < 32 - k then t + k else t;
        GatheredBit(x, k, s);
        assert BitSet(y, s);
      }
    }
    if SetFrom(x, 32 - 2 * k) {
      forall t | 32 - k <= t < 32
        ensures BitSet(y, t)
      {
        GatheredBit(x, k, t);
        assert BitSet(x, t) && BitSet(x, t - k);
      }
    }
  }

  /** The five steps of `s32_eq` bring the conjunction of all the bits into the sign. */
  lemma ShiftsGather(x: int32)
    ensures Gather(Gather(Gather(Gather(Gather(x, 16), 8), 4), 2), 1) < 0 <==> x == -1
  {
    hide Gather, BitSet;
    var x16 := Gather(x, 16);
    var x8 := Gather(x16, 8);
    var x4 := Gather(x8, 4);
    var x2 := Gather(x4, 2);
    var x1 := Gather(x2, 1);
    GatherStep(x, 16);
    GatherStep(x16, 8);
    GatherStep(x8, 4);
    GatherStep(x4, 2);
    GatherStep(x2, 1);
    SignSet(x1);
    AllOnes(x);
  }

  lemma SignSet(x: int32)
    ensures SetFrom(x, 31) <==> x < 0
  {
    hide Bit;
    PowerWord();
    var n := Bits(x);
    BitHigh(n % 0x8000_0000, n / 0x8000_0000, 0, 31);
    BitZero(n / 0x8000_0000);
    assert SetFrom(x, 31) <==> BitSet(x, 31);
  }

  lemma BitZero(n: nat)
    ensures Bit(n, 0) == n % 2
  {
  }

  lemma AllOnes(x: int32)
    ensures SetFrom(x, 0) <==> x == -1
  {
    hide IsSet;
    PowerWord();
    AllSetIs(Bits(x), 32);
    assert SetFrom(x, 0) ==> forall t | 0 <= t < 32 :: BitSet(x, t) == IsSet(Bits(x), t);
  }

  /** `~(a ^ b)` is all ones exactly for equal words. */
  lemma NotXor(a: int32, b: int32)
    ensures Not32(Xor32(a, b)) == -1 <==> a == b
  {
    PowerWord();
    XorBitsZero(Bits(a), Bits(b), 32);
  }
}
