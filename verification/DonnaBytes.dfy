/** Bytes and field elements in curve25519-donna: `fexpand` and `fcontract`. */
module DonnaBytes {
  import opened MachineInts
  import Bitwise
  import opened Words32
  import opened LittleEndian
  import opened FieldElement
  import opened FieldBytes
  import opened DonnaReduce

  // ---- Reading ----

  /** The macro F of `fexpand`: four bytes, shifted right and masked. */
  function Field(b: seq<byte>, start: nat, divisor: int64, modulus: int64): (r: int64)
    requires start + 4 <= |b| && divisor > 0 && modulus > 0
    ensures 0 <= r < modulus
  {
    Load4(b, start) / divisor % modulus
  }

  /** The number that the bits from some position on stand for. */
  ghost function Tail(b: seq<byte>, start: nat, divisor: int): (r: int)
    requires start <= |b| && divisor > 0
    ensures r >= 0
  {
    LE(b[start..]) / divisor
  }

  lemma AddMultiple(x: int, d: int, k: int)
    requires d > 0
    ensures (x + d * k) / d == x / d + k
  {
    var q, r := (x + d * k) / d, (x + d * k) % d;
    assert x == d * (x / d) + x % d && x + d * k == d * q + r;
    OnlyZero(d, q - x / d - k, x % d - r);
  }

  lemma OnlyZero(d: int, m: int, e: int)
    requires d * m == e && -d < e < d
    ensures m == 0
  {
  }

  lemma LE4(b: seq<byte>, i: nat)
    requires i + 4 <= |b|
    ensures LE(b[i..]) == Load3(b, i) as int + 0x1000000 * LE(b[i + 3..])
    ensures LE(b[i + 3..]) == b[i + 3] as int + 0x100 * LE(b[i + 4..])
  {
    LEStep(b, i);
    LEStep(b, i + 1);
    LEStep(b, i + 2);
    LEStep(b, i + 3);
  }

  lemma Window0(b: seq<byte>)
    requires |b| == 32
    ensures Tail(b, 0, 0x1) == Field(b, 0, 0x1, 0x4000000) as int + 0x4000000 * Tail(b, 3, 0x4)
  {
    var low, byte3, rest := Load3(b, 0) as int, b[3] as int, LE(b[4..]);
    LE4(b, 0);
    AddMultiple(low + 0x1000000 * byte3, 0x1, 0x100000000 * rest);
    AddMultiple(byte3, 0x4, 0x40 * rest);
    Top0(low, byte3);
  }

  lemma Top0(low: int, byte3: int)
    requires 0 <= low < 0x1000000 && 0 <= byte3 < 0x100
    ensures (low + 0x1000000 * byte3) / 0x1 / 0x4000000 == byte3 / 0x4
  {
  }

  lemma Window1(b: seq<byte>)
    requires |b| == 32
    ensures Tail(b, 3, 0x4) == Field(b, 3, 0x4, 0x2000000) as int + 0x2000000 * Tail(b, 6, 0x8)
  {
    var low, byte3, rest := Load3(b, 3) as int, b[6] as int, LE(b[7..]);
    LE4(b, 3);
    AddMultiple(low + 0x1000000 * byte3, 0x4, 0x40000000 * rest);
    AddMultiple(byte3, 0x8, 0x20 * rest);
    Top1(low, byte3);
  }

  lemma Top1(low: int, byte3: int)
    requires 0 <= low < 0x1000000 && 0 <= byte3 < 0x100
    ensures (low + 0x1000000 * byte3) / 0x4 / 0x2000000 == byte3 / 0x8
  {
  }

  lemma Window2(b: seq<byte>)
    requires |b| == 32
    ensures Tail(b, 6, 0x8) == Field(b, 6, 0x8, 0x4000000) as int + 0x4000000 * Tail(b, 9, 0x20)
  {
    var low, byte3, rest := Load3(b, 6) as int, b[9] as int, LE(b[10..]);
    LE4(b, 6);
    AddMultiple(low + 0x1000000 * byte3, 0x8, 0x20000000 * rest);
    AddMultiple(byte3, 0x20, 0x8 * rest);
    Top2(low, byte3);
  }

  lemma Top2(low: int, byte3: int)
    requires 0 <= low < 0x1000000 && 0 <= byte3 < 0x100
    ensures (low + 0x1000000 * byte3) / 0x8 / 0x4000000 == byte3 / 0x20
  {
  }

  lemma Window3(b: seq<byte>)
    requires |b| == 32
    ensures Tail(b, 9, 0x20) == Field(b, 9, 0x20, 0x2000000) as int + 0x2000000 * Tail(b, 12, 0x40)
  {
    var low, byte3, rest := Load3(b, 9) as int, b[12] as int, LE(b[13..]);
    LE4(b, 9);
    AddMultiple(low + 0x1000000 * byte3, 0x20, 0x8000000 * rest);
    AddMultiple(byte3, 0x40, 0x4 * rest);
    Top3(low, byte3);
  }

  lemma Top3(low: int, byte3: int)
    requires 0 <= low < 0x1000000 && 0 <= byte3 < 0x100
    ensures (low + 0x1000000 * byte3) / 0x20 / 0x2000000 == byte3 / 0x40
  {
  }

  lemma Window4(b: seq<byte>)
    requires |b| == 32
    ensures Tail(b, 12, 0x40) == Field(b, 12, 0x40, 0x4000000) as int + 0x4000000 * Tail(b, 16, 0x1)
  {
    var low, byte3, rest := Load3(b, 12) as int, b[15] as int, LE(b[16..]);
    LE4(b, 12);
    AddMultiple(low + 0x1000000 * byte3, 0x40, 0x4000000 * rest);

    Top4(low, byte3);
  }

  lemma Top4(low: int, byte3: int)
    requires 0 <= low < 0x1000000 && 0 <= byte3 < 0x100
    ensures (low + 0x1000000 * byte3) / 0x40 / 0x4000000 == 0
  {
  }

  lemma Window5(b: seq<byte>)
    requires |b| == 32
    ensures Tail(b, 16, 0x1) == Field(b, 16, 0x1, 0x2000000) as int + 0x2000000 * Tail(b, 19, 0x2)
  {
    var low, byte3, rest := Load3(b, 16) as int, b[19] as int, LE(b[20..]);
    LE4(b, 16);
    AddMultiple(low + 0x1000000 * byte3, 0x1, 0x100000000 * rest);
    AddMultiple(byte3, 0x2, 0x80 * rest);
    Top5(low, byte3);
  }

  lemma Top5(low: int, byte3: int)
    requires 0 <= low < 0x1000000 && 0 <= byte3 < 0x100
    ensures (low + 0x1000000 * byte3) / 0x1 / 0x2000000 == byte3 / 0x2
  {
  }

  lemma Window6(b: seq<byte>)
    requires |b| == 32
    ensures Tail(b, 19, 0x2) == Field(b, 19, 0x2, 0x4000000) as int + 0x4000000 * Tail(b, 22, 0x8)
  {
    var low, byte3, rest := Load3(b, 19) as int, b[22] as int, LE(b[23..]);
    LE4(b, 19);
    AddMultiple(low + 0x1000000 * byte3, 0x2, 0x80000000 * rest);
    AddMultiple(byte3, 0x8, 0x20 * rest);
    Top6(low, byte3);
  }

  lemma Top6(low: int, byte3: int)
    requires 0 <= low < 0x1000000 && 0 <= byte3 < 0x100
    ensures (low + 0x1000000 * byte3) / 0x2 / 0x4000000 == byte3 / 0x8
  {
  }

  lemma Window7(b: seq<byte>)
    requires |b| == 32
    ensures Tail(b, 22, 0x8) == Field(b, 22, 0x8, 0x2000000) as int + 0x2000000 * Tail(b, 25, 0x10)
  {
    var low, byte3, rest := Load3(b, 22) as int, b[25] as int, LE(b[26..]);
    LE4(b, 22);
    AddMultiple(low + 0x1000000 * byte3, 0x8, 0x20000000 * rest);
    AddMultiple(byte3, 0x10, 0x10 * rest);
    Top7(low, byte3);
  }

  lemma Top7(low: int, byte3: int)
    requires 0 <= low < 0x1000000 && 0 <= byte3 < 0x100
    ensures (low + 0x1000000 * byte3) / 0x8 / 0x2000000 == byte3 / 0x10
  {
  }

  lemma Window8(b: seq<byte>)
    requires |b| == 32
    ensures Tail(b, 25, 0x10) == Field(b, 25, 0x10, 0x4000000) as int + 0x4000000 * Tail(b, 28, 0x40)
  {
    var low, byte3, rest := Load3(b, 25) as int, b[28] as int, LE(b[29..]);
    LE4(b, 25);
    AddMultiple(low + 0x1000000 * byte3, 0x10, 0x10000000 * rest);
    AddMultiple(byte3, 0x40, 0x4 * rest);
    Top8(low, byte3);
  }

  lemma Top8(low: int, byte3: int)
    requires 0 <= low < 0x1000000 && 0 <= byte3 < 0x100
    ensures (low + 0x1000000 * byte3) / 0x10 / 0x4000000 == byte3 / 0x40
  {
  }

  lemma Window9(b: seq<byte>)
    requires |b| == 32
    ensures Tail(b, 28, 0x40) == Field(b, 28, 0x40, 0x2000000) as int + 0x2000000 * Tail(b, 31, 0x80)
  {
    var low, byte3, rest := Load3(b, 28) as int, b[31] as int, LE(b[32..]);
    LE4(b, 28);
    AddMultiple(low + 0x1000000 * byte3, 0x40, 0x4000000 * rest);
    AddMultiple(byte3, 0x80, 0x2 * rest);
    Top9(low, byte3);
  }

  lemma Top9(low: int, byte3: int)
    requires 0 <= low < 0x1000000 && 0 <= byte3 < 0x100
    ensures (low + 0x1000000 * byte3) / 0x40 / 0x2000000 == byte3 / 0x80
  {
  }

  lemma TopTail(b: seq<byte>)
    requires |b| == 32
    ensures Tail(b, 0, 1) == LE(b) && Tail(b, 31, 0x80) == b[31] as int / 128
  {
    LEStep(b, 31);
    assert b[0..] == b && b[32..] == [];
  }

  /** The ten fields tile the low 255 bits. */
  lemma FieldsWeigh(b: seq<byte>)
    requires |b| == 32
    ensures Weigh(Field(b, 0, 1, 0x4000000) as int, Field(b, 3, 4, 0x2000000) as int, Field(b, 6, 8, 0x4000000) as int,
                  Field(b, 9, 0x20, 0x2000000) as int, Field(b, 12, 0x40, 0x4000000) as int, Field(b, 16, 1,
                      0x2000000) as int,
                  Field(b, 19, 2, 0x4000000) as int, Field(b, 22, 8, 0x2000000) as int, Field(b, 25, 0x10,
                      0x4000000) as int,
                  Field(b, 28, 0x40, 0x2000000) as int) == Low255(b)
  {
    hide Field, Tail, Low255;
    Window0(b);
    Window1(b);
    Window2(b);
    Window3(b);
    Window4(b);
    Window5(b);
    Window6(b);
    Window7(b);
    Window8(b);
    Window9(b);
    TopTail(b);
    Low255Is(b);
  }

  /** `fexpand`: the top bit is ignored. */
  method Expand(output: array<int64>, input: seq<byte>)
    requires output.Length >= 10 && |input| == 32
    modifies output
    ensures Value(output) == Low255(input)
    ensures forall k | 0 <= k < 10 :: 0 <= output[k] < Radix(k)
  {
    hide Field, Low255;
    output[0] := Field(input, 0, 1, 0x4000000);
    output[1] := Field(input, 3, 4, 0x2000000);
    output[2] := Field(input, 6, 8, 0x4000000);
    output[3] := Field(input, 9, 0x20, 0x2000000);
    output[4] := Field(input, 12, 0x40, 0x4000000);
    output[5] := Field(input, 16, 1, 0x2000000);
    output[6] := Field(input, 19, 2, 0x4000000);
    output[7] := Field(input, 22, 8, 0x2000000);
    output[8] := Field(input, 25, 0x10, 0x4000000);
    output[9] := Field(input, 28, 0x40, 0x2000000);
    FieldsWeigh(input);
  }

  // ---- Borrowing ----

  /** t is s with c carried out of limb i < 9. */
  ghost predicate Moved(s: seq<int32>, t: seq<int32>, i: nat, c: int)
  {
    && |s| == |t| == 10 && i < 9
    && t[i] as int == s[i] as int - Radix(i) as int * c && t[i + 1] as int == s[i + 1] as int + c
    && forall k | 0 <= k < 10 && k != i && k != i + 1 :: t[k] == s[k]
  }

  lemma MovedWeighs(s: seq<int32>, t: seq<int32>, i: nat, c: int)
    requires Moved(s, t, i, c)
    ensures Weighted(t) == Weighted(s)
  {
    ChangesCancel(i, c);
    MovedChange(s, t, i, c, 0);
    MovedChange(s, t, i, c, 1);
    MovedChange(s, t, i, c, 2);
    MovedChange(s, t, i, c, 3);
    MovedChange(s, t, i, c, 4);
    MovedChange(s, t, i, c, 5);
    MovedChange(s, t, i, c, 6);
    MovedChange(s, t, i, c, 7);
    MovedChange(s, t, i, c, 8);
    MovedChange(s, t, i, c, 9);
    assert Change(i, c, 10) == 0;
    hide Change, Moved;
  }

  lemma MovedChange(s: seq<int32>, t: seq<int32>, i: nat, c: int, k: nat)
    requires Moved(s, t, i, c) && k < 10
    ensures t[k] as int == s[k] as int + Change(i, c, k)
  {
  }

  /** t is s with c carried out of limb 9, 19-fold into limb 0. */
  ghost predicate Wrapped(s: seq<int32>, t: seq<int32>, c: int)
  {
    && |s| == |t| == 10
    && t[9] as int == s[9] as int - 0x2000000 * c && t[0] as int == s[0] as int + 19 * c
    && forall k | 1 <= k < 9 :: t[k] == s[k]
  }

  lemma WrappedWeighs(s: seq<int32>, t: seq<int32>, c: int)
    requires Wrapped(s, t, c)
    ensures Weighted(t) == Weighted(s) - c * P
  {
    assert t[1] == s[1] && t[2] == s[2] && t[3] == s[3] && t[4] == s[4] && t[5] == s[5];
    assert t[6] == s[6] && t[7] == s[7] && t[8] == s[8];
  }

  /** The width of limb i, as an s32. */
  function Width(i: nat): (w: int32)
    ensures w as int == Radix(i) as int
  {
    if i % 2 == 0 then 0x4000000 else 0x2000000
  }

  const FULL: int32 := 0x4000000

  /** What a borrow pass knows before it looks at limb i. In the first pass limbs may be anything
      below 2^26 in magnitude; before the second, only limb 0 may still be negative. */
  ghost predicate Borrowing(s: seq<int32>, i: nat, first: bool)
  {
    && |s| == 10 && i < 10
    && (forall k | 0 <= k < i :: 0 <= s[k] < FULL)
    && (forall k | i < k < 10 :: s[k] < FULL && s[k] > if first then -FULL else -1)
    && (if first then -FULL - 3 < s[i] < FULL
        else if i == 0 then -57 <= s[0] < FULL
        else -1 <= s[i] < FULL && (s[i] < 0 ==> s[0] >= FULL - 57))
  }

  /** `x & (x >> 31)` */
  function NegativePart(x: int32): (y: int32)
    ensures y == if x < 0 then x else 0
  {
    MaskKeeps(x);
    And32(x, Sign32(x))
  }

  lemma BorrowEnough(x: int, y: int, w: int)
    requires (w == 0x4000000 || w == 0x2000000) && -0x4000003 < x < 0x4000000 && y == if x < 0 then x else 0
    ensures var c := -(y / w);
      0 <= c <= 3 && 0 <= x + c * w < 0x4000000 && (c == 0 <==> x >= 0) && (x >= -57 ==> c <= 1)
  {
    if w == 0x4000000 {
      assert y == w * (y / w) + y % w;
    } else {
      assert y == w * (y / w) + y % w;
    }
  }

  /** How often the width has to be added to x to make it non-negative. */
  ghost function Borrowed(x: int, width: int): int
    requires width > 0
  {
    if x < 0 then -(x / width) else 0
  }

  /** What limb i lends in a pass over s to the limbs below it. */
  ghost function Lent(s: seq<int32>, i: nat): int
    requires i <= |s| == 10
  {
    if i == 0 then 0 else Borrowed(s[i - 1] as int - Lent(s, i - 1), Radix(i - 1) as int)
  }

  /** Limb k when it has lent and borrowed. */
  ghost function Settled(s: seq<int32>, k: nat): int
    requires k < |s| == 10
  {
    s[k] as int - Lent(s, k) + Radix(k) as int * Lent(s, k + 1)
  }

  /** Limb k after a pass over s, where limb 0 has also lent 19-fold to limb 9. */
  ghost function AfterPass(s: seq<int32>, k: nat): int
    requires k < |s| == 10
  {
    Settled(s, k) - if k == 0 then 19 * Lent(s, 10) else 0
  }

  /** `mask = x >> 31; carry = -((x & mask) >> w)`, where width is 2^w: just enough to make x
      non-negative. */
  function BorrowCarry(x: int32, width: int32): (carry: int32)
    requires (width == 0x4000000 || width == 0x2000000) && -FULL - 3 < x < FULL
    ensures 0 <= carry <= 3 && 0 <= x as int + carry as int * width as int < FULL as int
    ensures carry == 0 <==> x >= 0
    ensures x >= -57 ==> carry <= 1
    ensures carry as int == Borrowed(x as int, width as int)
  {
    BorrowEnough(x as int, NegativePart(x) as int, width as int);
    -(NegativePart(x) / width)
  }

  /** Where a pass over s is before limb i. */
  ghost predicate Lending(s: seq<int32>, t: seq<int32>, i: nat)
  {
    && |s| == |t| == 10 && i < 10
    && t[i] as int == s[i] as int - Lent(s, i)
    && (forall k | i < k < 10 :: t[k] == s[k])
    && (forall k | 0 <= k < i :: t[k] as int == Settled(s, k))
  }

  lemma LendsOn(start: seq<int32>, s: seq<int32>, t: seq<int32>, i: nat, c: int)
    requires Lending(start, s, i) && Moved(s, t, i, -c) && c == Borrowed(s[i] as int, Radix(i) as int)
    ensures Lending(start, t, i + 1)
  {
    hide Borrowed, Radix;
    assert c == Lent(start, i + 1);
    hide Lent;
    var r := Radix(i) as int;
    assert -(r * -c) == r * c;
    assert t[i] as int == Settled(start, i);
    hide Settled;
  }

  /** `input[i] += carry << w; input[i + 1] -= carry` */
  method BorrowFrom(input: array<int32>, i: nat, ghost first: bool, ghost start: seq<int32>)
    requires input.Length == 10 && i < 9 && Borrowing(input[..], i, first) && Lending(start, input[..], i)
    modifies input
    ensures Borrowing(input[..], i + 1, first) && Weighted(input[..]) == old(Weighted(input[..]))
    ensures Lending(start, input[..], i + 1)
  {
    hide Weighted, BorrowCarry, Borrowed, Lending;
    ghost var s := input[..];
    var carry := BorrowCarry(input[i], Width(i));
    input[i] := input[i] + carry * Width(i);
    input[i + 1] := input[i + 1] - carry;
    MovedWeighs(s, input[..], i, -(carry as int));
    LendsOn(start, s, input[..], i, carry as int);
  }

  /** Every limb is in [0, 2^26). */
  ghost predicate Positive(s: seq<int32>)
  {
    |s| == 10 && forall k | 0 <= k < 10 :: 0 <= s[k] < FULL
  }

  /** Limb 9 borrows from limb 0, 19-fold. */
  method BorrowAround(input: array<int32>, ghost first: bool, ghost start: seq<int32>)
    requires input.Length == 10 && Borrowing(input[..], 9, first) && Lending(start, input[..], 9)
    modifies input
    ensures if first then Borrowing(input[..], 0, false) else Positive(input[..])
    ensures Cong(Weighted(input[..]), old(Weighted(input[..])))
    ensures forall k | 0 <= k < 10 :: input[k] as int == AfterPass(start, k)
  {
    hide Weighted, Cong, BorrowCarry, Borrowed;
    ghost var s := input[..];
    var carry := BorrowCarry(input[9], 0x2000000);
    assert carry as int == Lent(start, 10);
    input[9] := input[9] + carry * 0x2000000;
    input[0] := input[0] - carry * 19;
    WrappedWeighs(s, input[..], -(carry as int));
    Congruent(Weighted(input[..]), Weighted(s), carry as int);
  }

  /** One borrow pass. */
  method BorrowPass(input: array<int32>, ghost first: bool)
    requires input.Length == 10 && Borrowing(input[..], 0, first)
    modifies input
    ensures if first then Borrowing(input[..], 0, false) else Positive(input[..])
    ensures Cong(Weighted(input[..]), old(Weighted(input[..])))
    ensures forall k | 0 <= k < 10 :: input[k] as int == AfterPass(old(input[..]), k)
  {
    assert Lending(input[..], input[..], 0);
    hide Weighted, Cong, Borrowing, Lending, AfterPass;
    ghost var start := input[..];
    for i := 0 to 9
      invariant Borrowing(input[..], i, first) && Weighted(input[..]) == old(Weighted(input[..]))
      invariant Lending(start, input[..], i)
    {
      BorrowFrom(input, i, first, start);
    }
    BorrowAround(input, first, start);
  }

  lemma LendsNothing(s: seq<int32>, i: nat)
    requires i <= |s| == 10 && forall k | 0 <= k < i :: s[k] == 0
    ensures Lent(s, i) == 0
  {
    if i > 0 {
      LendsNothing(s, i - 1);
    }
  }

  /** Limbs as they may come in, from which the first pass leaves limb 0 at -57, not at -19. */
  lemma BorrowsFiftySeven()
    ensures var s := [0, 0, 0, 0, 0, 0, 0, 1 - FULL, 1 - FULL, 1 - FULL];
      Borrowing(s, 0, true) && AfterPass(s, 0) == -57
  {
    var s: seq<int32> := [0, 0, 0, 0, 0, 0, 0, 1 - FULL, 1 - FULL, 1 - FULL];
    assert Radix(7) as int == 0x2000000 && Radix(8) as int == 0x4000000 && Radix(9) as int == 0x2000000;
    LendsNothing(s, 0);
    LendsNothing(s, 1);
    LendsNothing(s, 7);
    assert Lent(s, 8) == Borrowed(1 - 0x4000000, 0x2000000) == 2;
    assert Lent(s, 9) == Borrowed(-1 - 0x4000000, 0x4000000) == 2;
    assert Lent(s, 10) == Borrowed(-1 - 0x4000000, 0x2000000) == 3;
  }

  /** The borrow of limb 0 after the two passes, which by then has nothing to do. */
  method BorrowOnce(input: array<int32>)
    requires input.Length == 10 && Positive(input[..])
    modifies input
    ensures input[..] == old(input[..])
  {
    hide BorrowCarry;
    var carry := BorrowCarry(input[0], 0x4000000);
    assert carry == 0;
    input[0] := input[0] + carry * 0x4000000;
    input[1] := input[1] - carry;
  }

  /** Two borrow passes make every limb non-negative. */
  method MakePositive(input: array<int32>)
    requires input.Length == 10 && Borrowing(input[..], 0, true)
    modifies input
    ensures Positive(input[..]) && Cong(Weighted(input[..]), old(Weighted(input[..])))
  {
    hide Weighted, Cong, Borrowing, Positive;
    ghost var v := Weighted(input[..]);
    BorrowPass(input, true);
    ghost var u := Weighted(input[..]);
    BorrowPass(input, false);
    CongTrans(Weighted(input[..]), u, v);
    BorrowOnce(input);
  }

  // ---- Carrying ----

  /** What a carry pass knows before it looks at limb i. In the second pass a carry ripples on
      only from limb 0. */
  ghost predicate Carrying(s: seq<int32>, i: nat, first: bool)
  {
    && |s| == 10 && i < 10
    && (forall k | 0 <= k < i :: 0 <= s[k] < Width(k))
    && (forall k | i < k < 10 :: 0 <= s[k] < if first then FULL else Width(k))
    && (if first then 0 <= s[i] <= FULL + 1
        else if i == 0 then 0 <= s[0] < FULL + 38
        else 0 <= s[i] <= Width(i) && (s[i] == Width(i) ==> s[0] < 38))
  }

  /** `carry = input[i] >> w; input[i] &= (1 << w) - 1; input[i + 1] += carry` */
  method CarryFrom(input: array<int32>, i: nat, ghost first: bool)
    requires input.Length == 10 && i < 9 && Carrying(input[..], i, first)
    modifies input
    ensures Carrying(input[..], i + 1, first) && Weighted(input[..]) == old(Weighted(input[..]))
  {
    hide Weighted;
    ghost var s := input[..];
    var carry := input[i] / Width(i);
    input[i] := input[i] % Width(i);
    input[i + 1] := input[i + 1] + carry;
    MovedWeighs(s, input[..], i, carry as int);
  }

  /** The carry out of limb 9 comes back into limb 0, 19-fold. */
  method CarryAround(input: array<int32>, ghost first: bool)
    requires input.Length == 10 && Carrying(input[..], 9, first)
    modifies input
    ensures if first then Carrying(input[..], 0, false) else Reduced(input[..])
    ensures Cong(Weighted(input[..]), old(Weighted(input[..])))
  {
    hide Weighted, Cong;
    ghost var s := input[..];
    var carry := input[9] / 0x2000000;
    input[9] := input[9] % 0x2000000;
    input[0] := input[0] + 19 * carry;
    WrappedWeighs(s, input[..], carry as int);
    Congruent(Weighted(input[..]), Weighted(s), -(carry as int));
  }

  method CarryPass(input: array<int32>, ghost first: bool)
    requires input.Length == 10 && Carrying(input[..], 0, first)
    modifies input
    ensures if first then Carrying(input[..], 0, false) else Reduced(input[..])
    ensures Cong(Weighted(input[..]), old(Weighted(input[..])))
  {
    hide Weighted, Cong, Carrying, Reduced;
    for i := 0 to 9
      invariant Carrying(input[..], i, first) && Weighted(input[..]) == old(Weighted(input[..]))
    {
      CarryFrom(input, i, first);
    }
    CarryAround(input, first);
  }

  /** Two carry passes bring non-negative limbs down to their widths. */
  method MakeReduced(input: array<int32>)
    requires input.Length == 10 && Positive(input[..])
    modifies input
    ensures Reduced(input[..]) && Cong(Weighted(input[..]), old(Weighted(input[..])))
  {
    hide Weighted, Cong, Reduced;
    ghost var v := Weighted(input[..]);
    CarryPass(input, true);
    ghost var u := Weighted(input[..]);
    CarryPass(input, false);
    CongTrans(Weighted(input[..]), u, v);
  }

  // ---- The last subtraction ----

  /** Is the number at least p? Only the largest possible limbs 1 to 9 leave the question to
      limb 0. */
  ghost predicate AtLeastP(d: seq<int32>, n: nat)
    requires |d| == 10 && n <= 10
  {
    d[0] >= 0x3ffffed && forall k | 1 <= k < n :: d[k] == Width(k) - 1
  }

  lemma AtLeastPIs(d: seq<int32>)
    requires Reduced(d)
    ensures 0 <= Weighted(d) < 0x8000000000000000000000000000000000000000000000000000000000000000
    ensures AtLeastP(d, 10) <==> Weighted(d) >= P
  {
    hide Weighted;
    TopLimbs(d);
    if AtLeastP(d, 10) {
      assert d[1] == 0x1ffffff && d[2] == 0x3ffffff && d[3] == 0x1ffffff && d[4] == 0x3ffffff && d[5] == 0x1ffffff;
      assert d[6] == 0x3ffffff && d[7] == 0x1ffffff && d[8] == 0x3ffffff && d[9] == 0x1ffffff;
    }
  }

  lemma TopLimbs(d: seq<int32>)
    requires Reduced(d)
    ensures 0 <= Weighted(d) < 0x8000000000000000000000000000000000000000000000000000000000000000
    ensures Weighted(d) >= P <==>
            && d[0] >= 0x3ffffed && d[1] == d[3] == d[5] == d[7] == d[9] == 0x1ffffff
            && d[2] == d[4] == d[6] == d[8] == 0x3ffffff
  {
  }

  /** `s32_eq`: all ones if a and b are equal. */
  function Equal(a: int32, b: int32): (m: int32)
    ensures m == if a == b then -1 else 0
  {
    var x := Not32(Xor32(a, b));
    NotXor(a, b);
    ShiftsGather(x);
    Sign32(Gather(Gather(Gather(Gather(Gather(x, 16), 8), 4), 2), 1))
  }

  /** `s32_gte`: all ones if a >= b, for non-negative a and b. */
  function AtLeast(a: int32, b: int32): (m: int32)
    requires a >= 0 && b >= 0
    ensures m == if a >= b then -1 else 0
  {
    Not32(Sign32(a - b))
  }

  method CompareP(input: array<int32>) returns (mask: int32)
    requires input.Length == 10 && Reduced(input[..])
    ensures mask == if Weighted(input[..]) >= P then -1 else 0
  {
    hide Weighted, And32, Equal;
    mask := AtLeast(input[0], 0x3ffffed);
    for i := 1 to 10
      invariant mask == if AtLeastP(input[..], i) then -1 else 0
    {
      var eq := Equal(input[i], if i % 2 == 1 then 0x1ffffff else 0x3ffffff);
      MaskKeeps(eq);
      mask := And32(eq, mask);
    }
    AtLeastPIs(input[..]);
  }

  /** `input[0] -= mask & 0x3ffffed`, and so on: the number less p, if the mask is set. */
  method SubtractP(input: array<int32>, mask: int32)
    requires input.Length == 10 && Reduced(input[..])
    requires mask == if Weighted(input[..]) >= P then -1 else 0
    modifies input
    ensures Reduced(input[..]) && Weighted(input[..]) == old(Weighted(input[..])) % P
  {
    hide Weighted, And32, Equal;
    ghost var d := input[..];
    AtLeastPIs(d);
    MaskKeeps(0x3ffffed);
    MaskKeeps(0x1ffffff);
    MaskKeeps(0x3ffffff);
    input[0] := input[0] - And32(0x3ffffed, mask);
    for i := 1 to 10
      invariant mask == 0 ==> input[..] == d
      invariant mask == -1 ==> input[0] == d[0] - 0x3ffffed
      invariant mask == -1 ==> forall k | 1 <= k < 10 :: input[k] == if k < i then 0 else d[k]
    {
      input[i] := input[i] - And32(if i % 2 == 1 then 0x1ffffff else 0x3ffffff, mask);
    }
    if mask == 0 {
      Remainder(0, Weighted(d));
    } else {
      LimbZero(input[..], d);
      Remainder(1, Weighted(input[..]));
    }
  }

  /** Between p and 2^255, subtracting p leaves limb 0. */
  lemma LimbZero(t: seq<int32>, d: seq<int32>)
    requires Reduced(d) && AtLeastP(d, 10) && |t| == 10 && t[0] == d[0] - 0x3ffffed
    requires forall k | 1 <= k < 10 :: t[k] == 0
    ensures Weighted(t) == Weighted(d) - P && 0 <= Weighted(t) < P
  {
    assert d[1] == 0x1ffffff && d[2] == 0x3ffffff && d[3] == 0x1ffffff && d[4] == 0x3ffffff && d[5] == 0x1ffffff;
    assert d[6] == 0x3ffffff && d[7] == 0x1ffffff && d[8] == 0x3ffffff && d[9] == 0x1ffffff;
  }

  // ---- Writing ----

  /** The s32 with the same low 32 bits as u. */
  function Wrap(u: int): (y: int32)
    requires 0 <= u < 0x1_0000_0000
  {
    (if u >= 0x8000_0000 then u - 0x1_0000_0000 else u) as int32
  }

  /** `(y >> n) & 0xff`, with w == 2^n */
  function ByteOf(y: int32, w: int32): byte
    requires w > 0
  {
    (y / w % 0x100) as byte
  }

  /** Wrapping does not touch the four bytes. */
  lemma BytesOfWrapped(u: int)
    requires 0 <= u < 0x1_0000_0000
    ensures ByteOf(Wrap(u), 1) as int == u % 0x100 && ByteOf(Wrap(u), 0x100) as int == u / 0x100 % 0x100
    ensures ByteOf(Wrap(u), 0x10000) as int == u / 0x10000 % 0x100 && ByteOf(Wrap(u), 0x1000000) as int
        == u / 0x1000000 % 0x100
  {
    WrappedByte(u, 1, 0x1000000);
    WrappedByte(u, 0x100, 0x10000);
    WrappedByte(u, 0x10000, 0x100);
    WrappedByte(u, 0x1000000, 1);
  }

  lemma WrappedByte(u: int, w: int32, k: int)
    requires 0 <= u < 0x1_0000_0000 && w > 0 && w as int * k == 0x1000000
    ensures ByteOf(Wrap(u), w) as int == u / w as int % 0x100
  {
    var y := Wrap(u) as int;
    if u != y {
      assert w as int * (0x100 * k) == 0x1_0000_0000;
      AddMultiple(y, w as int, 0x100 * k);
      SameByte(y / w as int, k);
    }
  }

  lemma SameByte(q: int, k: int)
    ensures (q + 0x100 * k) % 0x100 == q % 0x100
  {
  }

  /** The macro F of `fcontract`. */
  method PutLimb(output: array<byte>, y: int32, s: nat)
    requires s + 4 <= output.Length
    modifies output
    ensures output[s] == Bitwise.Or(old(output[s]), ByteOf(y, 1))
    ensures output[s + 1] == ByteOf(y, 0x100) && output[s + 2] == ByteOf(y, 0x10000) && output[s + 3] == ByteOf(y,
        0x1000000)
    ensures forall k | 0 <= k < output.Length && !(s <= k < s + 4) :: output[k] == old(output[k])
  {
    output[s] := Bitwise.Or(output[s], ByteOf(y, 1));
    output[s + 1] := ByteOf(y, 0x100);
    output[s + 2] := ByteOf(y, 0x10000);
    output[s + 3] := ByteOf(y, 0x1000000);
  }

  lemma CancelFactor(d: int, m: int, c: int)
    requires 0 <= d && m > 0 && c > 0 && m * c > 0
    ensures (d * m) / (m * c) == d / c && (d * m) % (m * c) == m * (d % c)
  {
    var q, r := d / c, d % c;
    FactorParts(d, m, c, q, r);
    QuotientIs(d * m, m * c, q, m * r);
  }

  lemma FactorParts(d: int, m: int, c: int, q: int, r: int)
    requires d == c * q + r && 0 <= r < c && m > 0
    ensures d * m == (m * c) * q + m * r && 0 <= m * r < m * c
  {
    assert m * c - m * r == m * (c - r);
  }

  lemma QuotientIs(x: int, w: int, q: int, r: int)
    requires w > 0 && x == w * q + r && 0 <= r < w
    ensures x / w == q && x % w == r
  {
    OnlyZero(w, x / w - q, r - x % w);
  }

  /** The four bytes of a limb that was shifted left by the logarithm of m. */
  lemma ShiftedBytes(d: int32, m: int, k: int32)
    requires 0 <= d && 0 < m && 0 < k <= 0x100 && m * k as int == 0x100 && d as int * m < 0x1_0000_0000
    ensures var y := Wrap(d as int * m);
      && ByteOf(y, 1) as int == m * (d as int % k as int)
      && ByteOf(y, 0x100) == Byte(d, k) && ByteOf(y, 0x10000) == Byte(d, 0x100 * k)
      && ByteOf(y, 0x1000000) == Byte(d, 0x10000 * k)
  {
    hide Wrap, ByteOf, Byte;
    var u := d as int * m;
    BytesOfWrapped(u);
    CancelFactor(d as int, m, k as int);
    ShiftedByte(d, m, k, 0x100);
    ShiftedByte(d, m, 0x100 * k, 0x10000);
    ShiftedByte(d, m, 0x10000 * k, 0x1000000);
  }

  lemma ShiftedByte(d: int32, m: int, c: int32, w: int)
    requires 0 <= d && 0 < m && 0 < c && m * c as int == w
    ensures d as int * m / w % 0x100 == Byte(d, c) as int
  {
    CancelFactor(d as int, m, c as int);
  }

  /** Two limbs that share a byte do not overlap in it. */
  lemma OrIsShared(x: byte, z: byte, m: int32, j: nat, d: int32, k: int32)
    requires 0 <= x as int32 < m && m <= 0x100 && m as int == Bitwise.Pow2(j) && j <= 8
    requires 0 <= d && 0 < k <= 0x100 && m as int * k as int == 0x100 && z as int == m as int * (d as int % k as int)
    ensures Bitwise.Or(x, z) == Shared(x as int32, m, d, k)
  {
    Bitwise.PowerEight();
    Bitwise.OrDisjoint(x as int, z as int, d as int % k as int, j, 8);
  }

  /** The first sixteen bytes, as the macro leaves them; y holds the shifted limbs. */
  ghost predicate LowBytes(b: seq<byte>, y: seq<int32>)
    requires |b| == 32 && |y| == 10
  {
    && b[0] == Bitwise.Or(0, ByteOf(y[0], 1))
    && b[1] == ByteOf(y[0], 0x100) && b[2] == ByteOf(y[0], 0x10000)
    && b[3] == Bitwise.Or(ByteOf(y[0], 0x1000000), ByteOf(y[1], 1))
    && b[4] == ByteOf(y[1], 0x100) && b[5] == ByteOf(y[1], 0x10000)
    && b[6] == Bitwise.Or(ByteOf(y[1], 0x1000000), ByteOf(y[2], 1))
    && b[7] == ByteOf(y[2], 0x100) && b[8] == ByteOf(y[2], 0x10000)
    && b[9] == Bitwise.Or(ByteOf(y[2], 0x1000000), ByteOf(y[3], 1))
    && b[10] == ByteOf(y[3], 0x100) && b[11] == ByteOf(y[3], 0x10000)
    && b[12] == Bitwise.Or(ByteOf(y[3], 0x1000000), ByteOf(y[4], 1))
    && b[13] == ByteOf(y[4], 0x100) && b[14] == ByteOf(y[4], 0x10000)
    && b[15] == ByteOf(y[4], 0x1000000)
  }

  /** The other sixteen. */
  ghost predicate HighBytes(b: seq<byte>, y: seq<int32>)
    requires |b| == 32 && |y| == 10
  {
    && b[16] == Bitwise.Or(0, ByteOf(y[5], 1))
    && b[17] == ByteOf(y[5], 0x100) && b[18] == ByteOf(y[5], 0x10000)
    && b[19] == Bitwise.Or(ByteOf(y[5], 0x1000000), ByteOf(y[6], 1))
    && b[20] == ByteOf(y[6], 0x100) && b[21] == ByteOf(y[6], 0x10000)
    && b[22] == Bitwise.Or(ByteOf(y[6], 0x1000000), ByteOf(y[7], 1))
    && b[23] == ByteOf(y[7], 0x100) && b[24] == ByteOf(y[7], 0x10000)
    && b[25] == Bitwise.Or(ByteOf(y[7], 0x1000000), ByteOf(y[8], 1))
    && b[26] == ByteOf(y[8], 0x100) && b[27] == ByteOf(y[8], 0x10000)
    && b[28] == Bitwise.Or(ByteOf(y[8], 0x1000000), ByteOf(y[9], 1))
    && b[29] == ByteOf(y[9], 0x100) && b[30] == ByteOf(y[9], 0x10000)
    && b[31] == ByteOf(y[9], 0x1000000)
  }

  /** `input[1] <<= 2; ...; input[9] <<= 6` */
  ghost predicate Shifted(d: seq<int32>, y: seq<int32>)
    requires Reduced(d)
  {
    && |y| == 10
    && y[0] == d[0] && y[1] == Wrap(d[1] as int * 4) && y[2] == Wrap(d[2] as int * 8) && y[3] == Wrap(d[3] as int * 0x20)
    && y[4] == Wrap(d[4] as int * 0x40) && y[5] == d[5] && y[6] == Wrap(d[6] as int * 2) && y[7] == Wrap(d[7] as int * 8)
    && y[8] == Wrap(d[8] as int * 0x10) && y[9] == Wrap(d[9] as int * 0x40)
  }

  method ShiftLimbs(input: array<int32>)
    requires input.Length == 10 && Reduced(input[..])
    modifies input
    ensures Shifted(old(input[..]), input[..])
  {
    input[1] := Wrap(input[1] as int * 4);
    input[2] := Wrap(input[2] as int * 8);
    input[3] := Wrap(input[3] as int * 0x20);
    input[4] := Wrap(input[4] as int * 0x40);
    input[6] := Wrap(input[6] as int * 2);
    input[7] := Wrap(input[7] as int * 8);
    input[8] := Wrap(input[8] as int * 0x10);
    input[9] := Wrap(input[9] as int * 0x40);
  }

  method WriteLow(output: array<byte>, y: array<int32>)
    requires output.Length == 32 && y.Length == 10 && output[0] == 0
    modifies output
    ensures LowBytes(output[..], y[..]) && forall k | 16 <= k < 32 :: output[k] == old(output[k])
  {
    PutLimb(output, y[0], 0);
    PutLimb(output, y[1], 3);
    PutLimb(output, y[2], 6);
    PutLimb(output, y[3], 9);
    PutLimb(output, y[4], 12);
  }

  method WriteHigh(output: array<byte>, y: array<int32>)
    requires output.Length == 32 && y.Length == 10 && output[16] == 0
    modifies output
    ensures HighBytes(output[..], y[..]) && forall k | 0 <= k < 16 :: output[k] == old(output[k])
  {
    PutLimb(output, y[5], 16);
    PutLimb(output, y[6], 19);
    PutLimb(output, y[7], 22);
    PutLimb(output, y[8], 25);
    PutLimb(output, y[9], 28);
  }

  lemma Powers()
    ensures Bitwise.Pow2(1) == 2 && Bitwise.Pow2(2) == 4 && Bitwise.Pow2(3) == 8 && Bitwise.Pow2(4) == 0x10
    ensures Bitwise.Pow2(5) == 0x20 && Bitwise.Pow2(6) == 0x40
  {
    assert Bitwise.Pow2(3) == 2 * Bitwise.Pow2(2) && Bitwise.Pow2(5) == 2 * Bitwise.Pow2(4);
  }

  lemma NotShifted(d: int32)
    requires 0 <= d
    ensures Wrap(d as int * 1) == d && Byte(d, 1) as int == d as int % 0x100
  {
  }

  lemma OrZeroLeft(x: byte)
    ensures Bitwise.Or(0, x) == x
  {
    Bitwise.PowerEight();
    Bitwise.OrDisjoint(0, x as int, x as int, 0, 8);
  }

  /** The top byte of a limb has room left for the next one. */
  lemma TopByteIs(d: int32, w: int32, m: int32)
    requires 0 <= d && w > 0 && 0 < m <= 0x100 && d / w < m
    ensures Byte(d, w) as int32 == d / w
  {
  }

  /** These are the bytes of `fe_tobytes`. */
  lemma LowPacked(b: seq<byte>, d: seq<int32>, y: seq<int32>)
    requires |b| == 32 && Reduced(d) && Shifted(d, y) && LowBytes(b, y)
    ensures PackedLow(b, d)
  {
    hide Wrap, ByteOf, Byte, Shared;
    Powers();
    NotShifted(d[0]);
    ShiftedBytes(d[0], 0x1, 0x100);
    ShiftedBytes(d[1], 0x4, 0x40);
    ShiftedBytes(d[2], 0x8, 0x20);
    ShiftedBytes(d[3], 0x20, 0x8);
    ShiftedBytes(d[4], 0x40, 0x4);
    OrZeroLeft(ByteOf(y[0], 1));
    TopByteIs(d[0], 0x1000000, 0x4);
    OrIsShared(ByteOf(y[0], 0x1000000), ByteOf(y[1], 1), 0x4, 2, d[1], 0x40);
    TopByteIs(d[1], 0x400000, 0x8);
    OrIsShared(ByteOf(y[1], 0x1000000), ByteOf(y[2], 1), 0x8, 3, d[2], 0x20);
    TopByteIs(d[2], 0x200000, 0x20);
    OrIsShared(ByteOf(y[2], 0x1000000), ByteOf(y[3], 1), 0x20, 5, d[3], 0x8);
    TopByteIs(d[3], 0x80000, 0x40);
    OrIsShared(ByteOf(y[3], 0x1000000), ByteOf(y[4], 1), 0x40, 6, d[4], 0x4);
  }

  /** And so are these. */
  lemma HighPacked(b: seq<byte>, d: seq<int32>, y: seq<int32>)
    requires |b| == 32 && Reduced(d) && Shifted(d, y) && HighBytes(b, y)
    ensures PackedHigh(b, d)
  {
    hide Wrap, ByteOf, Byte, Shared;
    Powers();
    NotShifted(d[5]);
    ShiftedBytes(d[5], 0x1, 0x100);
    ShiftedBytes(d[6], 0x2, 0x80);
    ShiftedBytes(d[7], 0x8, 0x20);
    ShiftedBytes(d[8], 0x10, 0x10);
    ShiftedBytes(d[9], 0x40, 0x4);
    OrZeroLeft(ByteOf(y[5], 1));
    TopByteIs(d[5], 0x1000000, 0x2);
    OrIsShared(ByteOf(y[5], 0x1000000), ByteOf(y[6], 1), 0x2, 1, d[6], 0x80);
    TopByteIs(d[6], 0x800000, 0x8);
    OrIsShared(ByteOf(y[6], 0x1000000), ByteOf(y[7], 1), 0x8, 3, d[7], 0x20);
    TopByteIs(d[7], 0x200000, 0x10);
    OrIsShared(ByteOf(y[7], 0x1000000), ByteOf(y[8], 1), 0x10, 4, d[8], 0x10);
    TopByteIs(d[8], 0x100000, 0x40);
    OrIsShared(ByteOf(y[8], 0x1000000), ByteOf(y[9], 1), 0x40, 6, d[9], 0x4);
  }

  /** The shifts and the ten uses of the macro at the end of `fcontract`. */
  method Write(output: array<byte>, input: array<int32>)
    requires output.Length == 32 && input.Length == 10 && Reduced(input[..])
    modifies output, input
    ensures LE(output[..]) == old(Weighted(input[..]))
  {
    hide LowBytes, HighBytes, PackedLow, PackedHigh, Shifted, Reduced, Weighted;
    ghost var d := input[..];
    ShiftLimbs(input);
    output[0] := 0;
    output[16] := 0;
    WriteLow(output, input);
    ghost var b := output[..];
    LowPacked(b, d, input[..]);
    WriteHigh(output, input);
    HighPacked(output[..], d, input[..]);
    assert b[..16] == output[..][..16];
    PackedLowFrame(b, output[..], d);
    PackedLowValue(output[..], d);
    PackedHighValue(output[..], d);
    JoinHalves(output[..], d);
  }

  /** `fcontract`: the residue modulo p, from any limbs below 2^26 in magnitude. */
  method Contract(output: array<byte>, limbs: array<int64>)
    requires output.Length == 32 && Fits(limbs, 0x4000000)
    modifies output
    ensures LE(output[..]) == Value(limbs) % P
  {
    hide Weighted, Reduced, Positive, Cong;
    var input := new int32[10];
    for i := 0 to 10
      invariant forall k | 0 <= k < i :: input[k] as int == limbs[k] as int
    {
      input[i] := limbs[i] as int32;
    }
    ghost var v := Value(limbs);
    SameWeight(input[..], limbs);
    MakePositive(input);
    ghost var u := Weighted(input[..]);
    MakeReduced(input);
    CongTrans(Weighted(input[..]), u, v);
    CongIsMod(Weighted(input[..]), v);
    var mask := CompareP(input);
    SubtractP(input, mask);
    Write(output, input);
  }

  lemma SameWeight(input: seq<int32>, limbs: array<int64>)
    requires |input| == 10 && limbs.Length >= 10 && forall k | 0 <= k < 10 :: input[k] as int == limbs[k] as int
    ensures Weighted(input) == Value(limbs)
  {
  }
}
