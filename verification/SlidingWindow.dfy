/** The signed sliding-window recoding of a scalar (`slide`, third-party/ed25519/ge.c). */
module SlidingWindow {
  import opened MachineInts
  import opened LittleEndian
  import opened Bitwise

  /** `d` shifted left by `i` bits. */
  ghost function Shift(d: int, i: nat): int
  {
    if i == 0 then d else 2 * Shift(d, i - 1)
  }

  const TWO255: int := 0x8000000000000000000000000000000000000000000000000000000000000000
  const TWO256: int := 0x10000000000000000000000000000000000000000000000000000000000000000

  /** The number a digit string stands for: the sum of r_i * 2^i. */
  ghost function Digits(r: seq<int8>): int
  {
    if r == [] then 0 else r[0] as int + 2 * Digits(r[1..])
  }

  lemma {:induction false} ShiftLinear(c: int, d: int, e: int, i: nat)
    ensures Shift(c * d + e, i) == c * Shift(d, i) + Shift(e, i)
  {
    if i > 0 {
      ShiftLinear(c, d, e, i - 1);
      assert 2 * (c * Shift(d, i - 1) + Shift(e, i - 1)) == c * (2 * Shift(d, i - 1)) + 2 * Shift(e, i - 1);
    }
  }

  lemma ShiftZero(i: nat)
    ensures Shift(0, i) == 0
  {}

  lemma {:induction false} ShiftMonotone(x: int, y: int, i: nat)
    requires x <= y
    ensures Shift(x, i) <= Shift(y, i)
  {
    if i > 0 {
      ShiftMonotone(x, y, i - 1);
    }
  }

  lemma {:induction false} DigitsUpdate(r: seq<int8>, i: nat, x: int8)
    requires i < |r|
    ensures Digits(r[i := x]) == Digits(r) + Shift(x as int - r[i] as int, i)
  {
    if i == 0 {
      assert r[0 := x][1..] == r[1..];
    } else {
      DigitsUpdate(r[1..], i - 1, x);
      assert r[i := x][1..] == r[1..][i - 1 := x];
    }
  }

  lemma {:induction false} DigitsSplit(r: seq<int8>, i: nat)
    requires i <= |r|
    ensures Digits(r) == Digits(r[..i]) + Shift(Digits(r[i..]), i)
  {
    if i == 0 {
      assert r[..0] == [] && r[0..] == r;
    } else {
      DigitsSplit(r[1..], i - 1);
      assert r[1..][..i - 1] == r[..i][1..] && r[1..][i - 1..] == r[i..];
    }
  }

  lemma DigitsStep(r: seq<int8>, i: nat)
    requires i < |r|
    ensures Digits(r[i..]) == r[i] as int + 2 * Digits(r[i + 1..])
  {
    assert r[i..][1..] == r[i + 1..];
  }

  lemma {:induction false} DigitsZero(r: seq<int8>)
    requires forall i | 0 <= i < |r| :: r[i] == 0
    ensures Digits(r) == 0
  {
    if r != [] {
      DigitsZero(r[1..]);
    }
  }

  lemma {:induction false} DigitsOnes(r: seq<int8>)
    requires forall i | 0 <= i < |r| :: r[i] == 1
    ensures Digits(r) == Shift(1, |r|) - 1
  {
    if r != [] {
      DigitsOnes(r[1..]);
    }
  }

  lemma ShiftEight(d: int)
    ensures Shift(d, 8) == 256 * d
  {
    assert Shift(d, 1) == 2 * d;
    assert Shift(d, 3) == 2 * Shift(d, 2) == 4 * Shift(d, 1);
    assert Shift(d, 5) == 2 * Shift(d, 4) == 4 * Shift(d, 3);
    assert Shift(d, 7) == 2 * Shift(d, 6) == 4 * Shift(d, 5);
  }

  lemma ShiftTop()
    ensures Shift(1, 255) == TWO255 && Shift(1, 256) == TWO256
  {
    Shift32(1);
    Shift32(0x1_0000_0000);
    ShiftShift(1, 32, 32);
    Shift32(0x1_0000_0000_0000_0000);
    ShiftShift(1, 64, 32);
    Shift32(0x1_0000_0000_0000_0000_0000_0000);
    ShiftShift(1, 96, 32);
    var x := Shift(1, 128);
    ShiftLinear(x, 1, 0, 128);
    ShiftZero(128);
    ShiftShift(1, 128, 128);
  }

  lemma Shift32(x: int)
    ensures Shift(x, 32) == 0x1_0000_0000 * x
  {
    ShiftEight(x);
    ShiftEight(0x100 * x);
    ShiftShift(x, 8, 8);
    ShiftEight(0x1_0000 * x);
    ShiftShift(x, 16, 8);
    ShiftEight(0x100_0000 * x);
    ShiftShift(x, 24, 8);
  }

  lemma {:induction false} ShiftShift(x: int, i: nat, j: nat)
    ensures Shift(Shift(x, i), j) == Shift(x, i + j)
  {
    if j > 0 {
      ShiftShift(x, i, j - 1);
    }
  }

  // ---- The bits of a byte string ----

  /** The bits of a number are its digits. */
  lemma {:induction false} BitsDigits(r: seq<int8>, n: nat)
    requires n < Pow2(|r|)
    requires forall i | 0 <= i < |r| :: r[i] as int == Bit(n, i)
    ensures Digits(r) == n
  {
    if r != [] {
      forall i | 0 <= i < |r| - 1
        ensures r[1..][i] as int == Bit(n / 2, i)
      {
        assert r[i + 1] as int == Bit(n, i + 1);
      }
      BitsDigits(r[1..], n / 2);
      assert r[0] as int == Bit(n, 0);
    }
  }

  /** `1 & (a[i >> 3] >> (i & 7))` */
  function SpreadBit(a: seq<byte>, i: nat): (d: int8)
    requires i < 8 * |a|
    ensures 0 <= d <= 1
  {
    BitRange(a[i / 8] as int, i % 8);
    Bit(a[i / 8] as int, i % 8) as int8
  }

  lemma BitsValue(r: seq<int8>, a: seq<byte>)
    requires |r| == 8 * |a|
    requires forall i | 0 <= i < |r| :: r[i] == SpreadBit(a, i)
    ensures Digits(r) == LE(a)
  {
    hide LE, Bit, Pow2;
    Bounded(a);
    PowersAgree(|a|);
    forall i | 0 <= i < |r|
      ensures r[i] as int == Bit(LE(a), i)
    {
      BitOfBytes(a, i);
      assert r[i] == SpreadBit(a, i);
    }
    BitsDigits(r, LE(a));
  }

  // ---- The recoding ----

  /** A digit the eight-entry tables of odd multiples can serve. */
  predicate Window(d: int8)
  {
    d == 0 || (d % 2 == 1 && -15 <= d <= 15)
  }

  ghost predicate IsBit(d: int8)
  {
    d == 0 || d == 1
  }

  /** The carry loop: add 2^k0 to the bits from position k0, as a binary counter. Position k0
      holds a one, so a carry that finds no zero above it falls off the end. */
  method Carry(r: array<int8>, k0: nat) returns (ghost lost: bool)
    requires k0 < r.Length == 256
    requires forall j | k0 <= j < 256 :: IsBit(r[j])
    modifies r
    ensures forall j | 0 <= j < k0 :: r[j] == old(r[j])
    ensures forall j | k0 <= j < 256 :: IsBit(r[j])
    ensures old(r[k0]) == 1 ==> r[k0] == 0
    ensures lost <==> forall j | k0 <= j < 256 :: old(r[j]) == 1
    ensures lost ==> forall j | k0 <= j < 256 :: r[j] == 0
    ensures Digits(r[..]) == old(Digits(r[..])) + Shift(1, k0) - (if lost then TWO256 else 0)
  {
    ghost var v := r[..];
    var k := k0;
    lost := true;
    ShiftTop();
    while k < 256
      invariant k0 <= k <= 256
      invariant forall j | 0 <= j < 256 && !(k0 <= j < k) :: r[j] == v[j]
      invariant forall j | k0 <= j < k :: r[j] == 0 && v[j] == 1
      invariant Digits(r[..]) == Digits(v) + Shift(1, k0) - Shift(1, k)
    {
      ghost var w := r[..];
      if r[k] == 0 {
        r[k] := 1;
        assert r[..] == w[k := 1];
        DigitsUpdate(w, k, 1);
        lost := false;
        break;
      }
      r[k] := 0;
      assert r[..] == w[k := 0];
      DigitsUpdate(w, k, 0);
      ShiftLinear(-1, 1, 0, k);
      ShiftZero(k);
      k := k + 1;
    }
  }

  /** Where the recoding stands before it looks at position i. Positions below i are final;
      `gap` is the first position that may hold a one. The digits below i are worth less than
      half of 2^gap, and `lost` says whether a carry has fallen off the end. */
  ghost predicate Inv(r: seq<int8>, a: nat, i: nat, gap: nat, lost: bool)
  {
    && |r| == 256 && i <= 256
    && (forall j | 0 <= j < i :: Window(r[j]))
    && (forall j | i <= j < 256 :: IsBit(r[j]))
    && (forall j | i <= j < gap && j < 256 :: r[j] == 0)
    && (lost ==> forall j | i <= j < 256 :: r[j] == 0)
    && (lost ==> a >= TWO255)
    && -Shift(1, gap) <= 2 * Digits(r[..i]) <= Shift(1, gap)
    && Digits(r) == a - (if lost then TWO256 else 0)
  }

  /** Inside the scan of the window at i, having looked at i+1 .. i+b-1. */
  ghost predicate Scan(r: seq<int8>, a: nat, i: nat, b: nat, lost: bool)
  {
    && |r| == 256 && i < 256 && 1 <= b <= 7
    && (forall j | 0 <= j < i :: Window(r[j]))
    && Window(r[i]) && r[i] != 0
    && (forall j | i < j < 256 :: IsBit(r[j]))
    && (forall j | i < j < i + b && j < 256 :: r[j] == 0)
    && (lost ==> forall j | i < j < 256 :: r[j] == 0)
    && (lost ==> a >= TWO255)
    && -Shift(1, i) <= 2 * Digits(r[..i]) <= Shift(1, i)
    && Digits(r) == a - (if lost then TWO256 else 0)
  }

  lemma {:induction false} ShiftPow2(b: nat, i: nat)
    ensures Shift(Pow2(b), i) == Shift(1, i + b)
    ensures Shift(-Pow2(b), i) == -Shift(1, i + b)
  {
    ShiftLinear(-1, Pow2(b), 0, i);
    ShiftZero(i);
    if b > 0 {
      ShiftPow2(b - 1, i);
      ShiftLinear(2, Pow2(b - 1), 0, i);
      ShiftZero(i);
    }
  }

  /** Absorb the one at i + b into the window at i. */
  method Absorb(r: array<int8>, ghost a: nat, i: nat, b: nat, ghost lost: bool)
    requires r.Length == 256 && Scan(r[..], a, i, b, lost)
    requires 1 <= b <= 6 && i + b < 256 && r[i + b] != 0
    requires r[i] as int + Pow2(b) <= 15
    modifies r
    ensures Scan(r[..], a, i, b + 1, lost)
  {
    ghost var v := r[..];
    Parity(r[i], b);
    r[i] := (r[i] as int + Pow2(b)) as int8;
    ghost var w := r[..];
    r[i + b] := 0;
    assert r[..i] == v[..i];
    assert r[..] == w[i + b := 0] && w == v[i := w[i]];
    AbsorbValue(v, w, r[..], i, b);
  }

  lemma AbsorbValue(v: seq<int8>, w: seq<int8>, u: seq<int8>, i: nat, b: nat)
    requires 1 <= b && i + b < |v| && |w| == |v| && v[i + b] == 1
    requires w == v[i := w[i]] && w[i] as int == v[i] as int + Pow2(b) && u == w[i + b := 0]
    ensures Digits(u) == Digits(v)
  {
    hide Digits, Shift;
    DigitsUpdate(v, i, w[i]);
    DigitsUpdate(w, i + b, 0);
    ShiftPow2(b, i);
    ShiftLinear(-1, 1, 0, i + b);
    ShiftZero(i + b);
  }

  /** An odd digit stays odd. */
  lemma Parity(d: int8, b: nat)
    requires d % 2 == 1 && b > 0
    ensures (d as int + Pow2(b)) % 2 == 1 && (d as int - Pow2(b)) % 2 == 1
  {
    var h := Pow2(b - 1);
    assert d as int + Pow2(b) == d as int + 2 * h;
  }

  /** Borrow: replace the one at i + b by -2^b in the window and a carry above it. */
  method Borrow(r: array<int8>, ghost a: nat, i: nat, b: nat, ghost lost0: bool) returns (ghost lost: bool)
    requires r.Length == 256 && Scan(r[..], a, i, b, lost0)
    requires 1 <= b <= 6 && i + b < 256 && r[i + b] != 0
    requires r[i] as int + Pow2(b) > 15 && r[i] as int - Pow2(b) >= -15
    modifies r
    ensures Scan(r[..], a, i, b + 1, lost)
  {
    hide Digits, Shift;
    ghost var v := r[..];
    Parity(r[i], b);
    r[i] := (r[i] as int - Pow2(b)) as int8;
    ghost var w := r[..];
    assert w == v[i := w[i]];
    lost := Carry(r, i + b);
    if lost {
      BorrowEarly(v[i], b);
      assert forall j | i + b <= j < 256 :: v[j] == w[j];
      RunOff(v, a, i, b);
    }
    assert r[..i] == v[..i];
    BorrowValue(v, w, i, b);
  }

  lemma BorrowValue(v: seq<int8>, w: seq<int8>, i: nat, b: nat)
    requires i < |v| && |w| == |v| && w == v[i := w[i]] && w[i] as int == v[i] as int - Pow2(b)
    ensures Digits(w) == Digits(v) - Shift(1, i + b)
  {
    hide Digits, Shift;
    DigitsUpdate(v, i, w[i]);
    ShiftPow2(b, i);
  }

  /** A carry can only fall off the end when the number is at least 2^255. */
  lemma RunOff(r: seq<int8>, a: nat, i: nat, b: nat)
    requires Scan(r, a, i, b, false) && i + b < 256
    requires 1 <= b <= 4 && r[i] as int + Pow2(b) > 15
    requires forall j | i + b <= j < 256 :: r[j] == 1
    ensures a >= TWO255
  {
    hide Shift;
    OnesAbove(r, i, b);
    OddAbove(r[i], b);
    ShiftMonotone(17 - Pow2(b), r[i] as int, i);
    ShiftLinear(17, 1, -Pow2(b), i);
    ShiftPow2(b, i);
    assert 2 * a >= 33 * Shift(1, i) + 2 * TWO256 - 4 * Shift(1, i + b);
    Sixteen(i, b);
  }

  lemma Sixteen(i: nat, b: nat)
    requires 1 <= b <= 4 && i + b < 256
    ensures 33 * Shift(1, i) + 2 * TWO256 - 4 * Shift(1, i + b) >= 2 * TWO255
  {
    ShiftTop();
    ShiftUp(0, i);
    assert TWO256 == 2 * TWO255;
    if i + b <= 254 {
      ShiftUp(i + b, 254);
      assert TWO255 == 2 * Shift(1, 254);
    } else {
      SixteenUp(i);
      ShiftUp(255, i + 4);
    }
  }

  lemma OddAbove(d: int8, b: nat)
    requires d % 2 == 1 && b > 0 && d as int + Pow2(b) > 15
    ensures d as int >= 17 - Pow2(b)
  {
    Parity(d, b);
  }

  lemma OnesAbove(r: seq<int8>, i: nat, b: nat)
    requires |r| == 256 && 1 <= b && i + b < 256
    requires (forall j | i < j < i + b :: r[j] == 0) && forall j | i + b <= j < 256 :: r[j] == 1
    ensures Digits(r) == Digits(r[..i]) + Shift(r[i] as int, i) + TWO256 - Shift(1, i + b)
  {
    DigitsSplit(r, i + b);
    DigitsOnes(r[i + b..]);
    ShiftLinear(1, Shift(1, 256 - i - b), -1, i + b);
    ShiftLinear(-1, 1, 0, i + b);
    ShiftZero(i + b);
    ShiftShift(1, 256 - i - b, i + b);
    ShiftTop();
    DigitsSplit(r[..i + b], i + 1);
    assert r[..i + b][..i + 1] == r[..i + 1];
    DigitsZero(r[..i + b][i + 1..]);
    ShiftZero(i + 1);
    DigitsNext(r, i);
  }

  lemma SixteenUp(i: nat)
    ensures Shift(1, i + 4) == 16 * Shift(1, i)
  {
    assert Shift(1, i + 2) == 2 * Shift(1, i + 1);
    assert Shift(1, i + 4) == 2 * Shift(1, i + 3);
  }

  /** The loop that spreads the bits of a over r. */
  method Spread(r: array<int8>, a: seq<byte>)
    requires r.Length == 256 && |a| == 32
    modifies r
    ensures Inv(r[..], LE(a), 0, 0, false)
  {
    for i := 0 to 256
      invariant forall j | 0 <= j < i :: r[j] == SpreadBit(a, j)
    {
      r[i] := SpreadBit(a, i);
    }
    BitsValue(r[..], a);
  }

  /** The window that starts at the nonzero digit i: later ones are absorbed or borrowed from. */
  method Scanned(r: array<int8>, ghost n: nat, i: nat, ghost lost0: bool) returns (ghost lost: bool)
    requires r.Length == 256 && Scan(r[..], n, i, 1, lost0)
    modifies r
    ensures Inv(r[..], n, i + 1, i + 5, lost)
  {
    hide Window, IsBit, Digits, Shift, Pow2;
    lost := lost0;
    var b := 1;
    while b <= 6 && i + b < 256
      invariant Scan(r[..], n, i, b, lost)
    {
      if r[i + b] != 0 {
        if r[i] as int + Pow2(b) <= 15 {
          Absorb(r, n, i, b, lost);
        } else if r[i] as int - Pow2(b) >= -15 {
          lost := Borrow(r, n, i, b, lost);
        } else {
          BreakLate(r[i], b);
          break;
        }
      }
      b := b + 1;
    }
    NextWindow(r[..], n, i, b, lost);
  }

  /** `slide`. The value survives, unless a carry runs off the end, which takes 2^256 away and
      happens only to numbers of at least 255 bits. */
  method Slide(r: array<int8>, a: seq<byte>) returns (ghost lost: bool)
    requires r.Length == 256 && |a| == 32
    modifies r
    ensures forall i | 0 <= i < 256 :: Window(r[i])
    ensures Digits(r[..]) == LE(a) - (if lost then TWO256 else 0)
    ensures LE(a) < TWO255 ==> !lost
  {
    Spread(r, a);
    ghost var gap := 0;
    lost := false;
    for i := 0 to 256
      invariant Inv(r[..], LE(a), i, gap, lost)
    {
      DigitsNext(r[..], i);
      ShiftZero(i);
      if r[i] != 0 {
        assert i >= gap;
        ShiftUp(gap, i);
        lost := Scanned(r, LE(a), i, lost);
        gap := i + 5;
      }
    }
    assert r[..256] == r[..];
  }

  lemma BorrowEarly(d: int8, b: nat)
    requires Window(d) && d as int - Pow2(b) >= -15
    ensures b <= 4
  {
    if b > 4 {
      assert Pow2(2) == 4 && Pow2(4) == 4 * Pow2(2) && Pow2(5) == 32;
      Pow2Up(5, b);
    }
  }

  lemma Pow2Up(i: nat, j: nat)
    requires i <= j
    ensures Pow2(i) <= Pow2(j)
  {
    if i < j {
      Pow2Up(i, j - 1);
    }
  }

  lemma BreakLate(d: int8, b: nat)
    requires Window(d) && d != 0 && 1 <= b <= 6
    requires d as int + Pow2(b) > 15 && d as int - Pow2(b) < -15
    ensures b >= 5
  {
    assert Pow2(1) == 2 && Pow2(2) == 4;
    assert Pow2(3) == 2 * Pow2(2) && Pow2(4) == 2 * Pow2(3);
  }

  lemma ShiftUp(i: nat, j: nat)
    requires i <= j
    ensures Shift(1, i) <= Shift(1, j)
  {
    if i < j {
      ShiftUp(i, j - 1);
      ShiftMonotone(0, 1, j - 1);
      ShiftZero(j - 1);
    }
  }

  lemma DigitsNext(r: seq<int8>, i: nat)
    requires i < |r|
    ensures Digits(r[..i + 1]) == Digits(r[..i]) + Shift(r[i] as int, i)
  {
    DigitsSplit(r[..i + 1], i);
    assert r[..i + 1][..i] == r[..i] && r[..i + 1][i..] == [r[i]];
    assert [r[i]][1..] == [];
  }

  lemma NextWindow(r: seq<int8>, a: nat, i: nat, b: nat, lost: bool)
    requires Scan(r, a, i, b, lost)
    requires b >= 5 || i + b >= 256
    ensures Inv(r, a, i + 1, i + 5, lost)
  {
    DigitsNext(r, i);
    var d := r[i] as int;
    ShiftLinear(15, 1, 0, i);
    ShiftLinear(-15, 1, 0, i);
    ShiftZero(i);
    ShiftMonotone(-15, d, i);
    ShiftMonotone(d, 15, i);
    assert Shift(1, i + 5) == 2 * Shift(1, i + 4) && Shift(1, i + 4) == 2 * Shift(1, i + 3);
    assert Shift(1, i + 3) == 2 * Shift(1, i + 2) && Shift(1, i + 2) == 2 * Shift(1, i + 1);
  }
}
