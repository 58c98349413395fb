/** The fixed-base multiplication of third-party/ed25519/ge.c: a signed radix-16 recoding and
    a comb over a table of multiples of the base point, selected from in constant time. */
module CombMult {
  import opened MachineInts
  import opened LittleEndian
  import opened AbelianGroup
  import opened CurveGroup
  import opened FieldElement
  import opened Points
  import opened Words32
  import Bitwise
  import FieldOps

  /** The number a radix-16 digit string stands for. */
  ghost function Digits16(e: seq<int8>): int
  {
    if e == [] then 0 else e[0] as int + 16 * Digits16(e[1..])
  }

  /** `d` shifted left by `i` hexadecimal places. */
  ghost function Shift16(d: int, i: nat): int
  {
    if i == 0 then d else 16 * Shift16(d, i - 1)
  }

  lemma {:induction false} Shift16Linear(c: int, d: int, e: int, i: nat)
    ensures Shift16(c * d + e, i) == c * Shift16(d, i) + Shift16(e, i)
  {
    if i > 0 {
      Shift16Linear(c, d, e, i - 1);
      assert 16 * (c * Shift16(d, i - 1) + Shift16(e, i - 1)) == c * (16 * Shift16(d, i - 1)) + 16 * Shift16(e, i - 1);
    }
  }

  lemma {:induction false} Digits16Update(e: seq<int8>, i: nat, x: int8)
    requires i < |e|
    ensures Digits16(e[i := x]) == Digits16(e) + Shift16(x as int - e[i] as int, i)
  {
    if i == 0 {
      assert e[0 := x][1..] == e[1..];
    } else {
      Digits16Update(e[1..], i - 1, x);
      assert e[i := x][1..] == e[1..][i - 1 := x];
    }
  }

  // ---- The recoding ----

  lemma {:induction false} Nibbles(e: seq<int8>, a: seq<byte>)
    requires |e| == 2 * |a|
    requires forall i | 0 <= i < |a| :: e[2 * i] as int == a[i] as int % 16 && e[2 * i + 1] as int == a[i] as int / 16
    ensures Digits16(e) == LE(a)
  {
    if a != [] {
      var f := e[2..];
      forall i | 0 <= i < |a[1..]|
        ensures f[2 * i] as int == a[1..][i] as int % 16 && f[2 * i + 1] as int == a[1..][i] as int / 16
      {
        assert e[2 * (i + 1)] as int == a[i + 1] as int % 16;
        assert e[2 * (i + 1) + 1] as int == a[i + 1] as int / 16;
      }
      Nibbles(f, a[1..]);
      assert e[1..][1..] == f;
      assert e[2 * 0] as int == a[0] as int % 16 && e[2 * 0 + 1] as int == a[0] as int / 16;
    }
  }

  /** The 64 digits between 0 and 15 of a 255-bit number. */
  method Spread(a: seq<byte>) returns (e: array<int8>)
    requires |a| == 32 && a[31] <= 127
    ensures fresh(e) && e.Length == 64 && e[63] <= 7
    ensures forall j | 0 <= j < 64 :: 0 <= e[j] <= 15
    ensures Digits16(e[..]) == LE(a)
  {
    e := new int8[64];
    for i := 0 to 32
      invariant forall j | 0 <= j < i :: e[2 * j] as int == a[j] as int % 16 && e[2 * j + 1] as int == a[j] as int / 16
      invariant forall j | 0 <= j < 2 * i :: 0 <= e[j] <= 15
      invariant i == 32 ==> e[63] <= 7
    {
      e[2 * i] := (a[i] % 16) as int8;
      e[2 * i + 1] := (a[i] / 16) as int8;
    }
    Nibbles(e[..], a);
  }

  /** The number with digits between -8 and 8: every digit above 7 borrows 16 from the next. */
  method Recode(a: seq<byte>) returns (e: array<int8>)
    requires |a| == 32 && a[31] <= 127
    ensures fresh(e) && e.Length == 64
    ensures forall i | 0 <= i < 64 :: -8 <= e[i] <= 8
    ensures Digits16(e[..]) == LE(a)
  {
    assert Shift16(0, 0) == 0;
    hide Digits16, LE, Shift16;
    e := Spread(a);
    var carry: int8 := 0;
    for i := 0 to 63
      invariant 0 <= carry <= 1
      invariant forall j | 0 <= j < i :: -8 <= e[j] <= 8
      invariant forall j | i <= j < 64 :: 0 <= e[j] <= 15
      invariant e[63] <= 7
      invariant Digits16(e[..]) + Shift16(carry as int, i) == LE(a)
    {
      ghost var v, c := e[..], carry as int;
      e[i] := e[i] + carry;
      carry := (e[i] + 8) / 16;
      e[i] := e[i] - carry * 16;
      CarryStep(v, e[..], i, c, carry as int);
    }
    ghost var v := e[..];
    e[63] := e[63] + carry;
    assert e[..] == v[63 := e[63]];
    Digits16Update(v, 63, e[63]);
  }

  lemma CarryStep(v: seq<int8>, w: seq<int8>, i: nat, c: int, d: int)
    requires i < |v| && |w| == |v| && w == v[i := w[i]] && w[i] as int == v[i] as int + c - 16 * d
    ensures Digits16(w) + Shift16(d, i + 1) == Digits16(v) + Shift16(c, i)
  {
    Digits16Update(v, i, w[i]);
    Shift16Linear(-16, d, c, i);
  }

  // ---- The comb ----

  /** `equal`: 1 if the bytes agree and 0 otherwise, by the borrow of x - 1 in 64 bits. */
  method Equal(b: byte, c: byte) returns (r: byte)
    ensures r == if b == c then 1 else 0
  {
    var x := Bitwise.Xor(b, c);
    var y := (x as int - 1) % 0x1_0000_0000_0000_0000;
    Bitwise.XorZero(b, c);
    r := (y / 0x8000_0000_0000_0000) as byte;
  }

  /** `negative`: the sign bit of the digit extended to 64 bits. */
  function Negative(b: int8): (r: byte)
    ensures r == if b < 0 then 1 else 0
  {
    ((b as int % 0x1_0000_0000_0000_0000) / 0x8000_0000_0000_0000) as byte
  }

  lemma Doubled(x: int32)
    requires -0x4000_0000 <= x < 0x4000_0000
    ensures Shl32(x, 1) == 2 * x
  {
    hide Bitwise.Pow2;
    var n := Bits(x);
    assert Bitwise.Pow2(1) == 2 by { PowerOne(); }
    assert n * Bitwise.Pow2(1) == 2 * n;
    assert 2 * n % WORD == if x < 0 then 2 * n - WORD else 2 * n;
  }

  lemma PowerOne()
    ensures Bitwise.Pow2(1) == 2
  {
    assert Bitwise.Pow2(0) == 1;
  }

  /** `b - (((-bnegative) & b) << 1)`, cut to a byte: the magnitude of the digit. */
  function Magnitude(b: int8): (babs: byte)
    ensures babs as int == if b < 0 then -(b as int) else b as int
  {
    hide And32, Shl32, Bits;
    MaskKeeps(b as int32);
    Doubled(And32(-(Negative(b) as int32), b as int32));
    ((b as int - Shl32(And32(-(Negative(b) as int32), b as int32), 1) as int) % 0x100) as byte
  }

  lemma NegMul(x: int, y: int)
    ensures (-x) * y == -(x * y)
  {}

  /** The multiple of B held by every second digit from `from`, below row n. */
  ghost function Half(e: seq<int8>, from: nat, n: nat): int
    requires from <= 1 && 2 * n <= |e|
  {
    if n == 0 then 0 else Half(e, from, n - 1) + e[2 * (n - 1) + from] as int * Pow256(n - 1)
  }

  lemma {:induction false} Shift16Pow(d: int, n: nat)
    ensures Shift16(d, 2 * n) == d * Pow256(n)
  {
    if n > 0 {
      Shift16Pow(d, n - 1);
      assert Shift16(d, 2 * n - 1) == 16 * Shift16(d, 2 * (n - 1));
    }
  }

  lemma {:induction false} Digits16Prefix(e: seq<int8>, n: nat)
    requires n < |e|
    ensures Digits16(e[..n + 1]) == Digits16(e[..n]) + Shift16(e[n] as int, n)
  {
    if n > 0 {
      Digits16Prefix(e[1..], n - 1);
      assert e[1..][..n] == e[..n + 1][1..] && e[1..][..n - 1] == e[..n][1..];
    } else {
      assert e[..1][1..] == [];
    }
  }

  lemma {:induction false} Halves(e: seq<int8>, n: nat)
    requires 2 * n <= |e|
    ensures Digits16(e[..2 * n]) == 16 * Half(e, 1, n) + Half(e, 0, n)
  {
    if n > 0 {
      Halves(e, n - 1);
      Digits16Prefix(e, 2 * n - 2);
      Digits16Prefix(e, 2 * n - 1);
      var x, y := e[2 * n - 2] as int, e[2 * n - 1] as int;
      Shift16Pow(x, n - 1);
      Shift16Pow(y, n - 1);
      assert Shift16(y, 2 * n - 1) == 16 * Shift16(y, 2 * (n - 1));
    }
  }

  // ---- Selection from the table ----

  /** The table of precomp_data.h:45: row i holds 256^i B, 2 * 256^i B, .., 8 * 256^i B. */
  ghost predicate IsComb<P(!new)>(c: Curve<P>, base: seq<seq<Precomp>>, B: P)
  {
    |base| == 32 && forall i | 0 <= i < 32 :: IsCombRow(c, base[i], B, Pow256(i))
  }

  ghost predicate IsCombRow<P(!new)>(c: Curve<P>, row: seq<Precomp>, B: P, w: nat)
  {
    |row| == 8 && forall k | 0 <= k < 8 :: IsEntry(c, row[k], c.group.Times((k + 1) * w, B))
  }

  /** What the scan of a row has found before entry j. */
  ghost function Found<P(!new)>(c: Curve<P>, B: P, w: nat, babs: byte, j: nat): P
  {
    if 0 < babs as int <= j then c.group.Times(babs as int * w, B) else c.group.zero
  }

  /** `cmov` of a `ge_precomp`, whose Z is always 1. */
  method Cmov3<P(!new)>(ghost c: Curve<P>, t: Quad, u: Quad, b: byte, ghost g: P, ghost h: P)
    requires HoldsCached(c, t, g, true) && HoldsCached(c, u, h, true) && t.Apart(u) && b <= 1
    modifies t.X, t.Y, t.T
    ensures HoldsCached(c, t, if b == 1 then h else g, true)
  {
    ghost var o: Point :| t.Caches(o, D) && c.Stands(o, g) && o.z == 1;
    ghost var p: Point :| u.Caches(p, D) && c.Stands(p, h) && p.z == 1;
    FieldOps.Cmov(t.X, u.X, b);
    FieldOps.Cmov(t.Y, u.Y, b);
    FieldOps.Cmov(t.T, u.T, b);
    assert t.Caches(if b == 1 then p else o, D);
  }

  /** `cmov(t, &base[pos][j - 1], equal(babs, j))` */
  method ScanStep<P(!new)>(ghost c: Curve<P>, t: Quad, row: seq<Precomp>, babs: byte, j: byte, ghost B: P, ghost w: nat)
    requires 1 <= j <= 8 && HoldsCached(c, t, Found(c, B, w, babs, j as int - 1), true) && IsCombRow(c, row, B, w)
    modifies t.X, t.Y, t.T
    ensures HoldsCached(c, t, Found(c, B, w, babs, j as int), true)
  {
    hide HoldsCached, IsEntry;
    var e := Equal(babs, j);
    assert IsEntry(c, row[j - 1], c.group.Times((j as int - 1 + 1) * w, B));
    var u := Load(c, row[j - 1], c.group.Times(j as int * w, B));
    Cmov3(c, t, u, e, Found(c, B, w, babs, j as int - 1), c.group.Times(j as int * w, B));
  }

  /** The constant-time scan of a row, from the neutral element on. */
  method Scan<P(!new)>(ghost c: Curve<P>, t: Quad, row: seq<Precomp>, babs: byte, ghost B: P, ghost w: nat)
    requires c.Laws() && t.Valid() && IsCombRow(c, row, B, w) && babs <= 8
    modifies t.X, t.Y, t.Z, t.T
    ensures HoldsCached(c, t, Found(c, B, w, babs, 8), true)
  {
    hide HoldsCached, Curve.Laws, Found, IsCombRow;
    One(c, t);
    NothingFound(c, B, w, babs);
    ScanStep(c, t, row, babs, 1, B, w);
    ScanStep(c, t, row, babs, 2, B, w);
    ScanStep(c, t, row, babs, 3, B, w);
    ScanStep(c, t, row, babs, 4, B, w);
    ScanStep(c, t, row, babs, 5, B, w);
    ScanStep(c, t, row, babs, 6, B, w);
    ScanStep(c, t, row, babs, 7, B, w);
    ScanStep(c, t, row, babs, 8, B, w);
  }

  lemma NothingFound<P(!new)>(c: Curve<P>, B: P, w: nat, babs: byte)
    ensures Found(c, B, w, babs, 0) == c.group.zero
  {
  }

  /** `fe_1(t->yplusx); fe_1(t->yminusx); fe_0(t->xy2d)` */
  method One<P(!new)>(ghost c: Curve<P>, t: Quad)
    requires c.Laws() && t.Valid()
    modifies t.X, t.Y, t.Z, t.T
    ensures HoldsCached(c, t, c.group.zero, true)
  {
    FieldOps.Small(t.X, 1);
    FieldOps.Small(t.Y, 1);
    FieldOps.Small(t.Z, 1);
    FieldOps.Small(t.T, 0);
    CongSelf(1);
    CongSelf(0);
    assert t.Caches(Point(0, 1, 1, 0), D);
  }

  /** `fe_copy(minust.yplusx, t->yminusx); fe_copy(minust.yminusx, t->yplusx); fe_neg(minust.xy2d, t->xy2d)` */
  method Minus<P(!new)>(ghost c: Curve<P>, minust: Quad, t: Quad, ghost g: P)
    requires c.Laws() && minust.Valid() && minust.Apart(t) && HoldsCached(c, t, g, true)
    modifies minust.X, minust.Y, minust.Z, minust.T
    ensures HoldsCached(c, minust, c.group.neg(g), true)
  {
    hide Cong, Val, D;
    ghost var o: Point :| t.Caches(o, D) && c.Stands(o, g) && o.z == 1;
    assert c.Inverts(o, g);
    hide Curve.Laws, Curve.Stands, Loose, Tight;
    FieldOps.Copy(minust.X, t.Y);
    FieldOps.Copy(minust.Y, t.X);
    FieldOps.Small(minust.Z, 1);
    NegLoose(minust.T, t.T, 2 * D * o.t);
    CongSelf(1);
    OppositeTerm(2 * D, o.t);
    assert minust.Caches(Negated(o), D);
  }

  lemma OppositeTerm(x: int, y: int)
    ensures -(x * y) == x * -y
  {
  }

  method NegLoose(h: array<int32>, f: array<int32>, ghost v: int)
    requires h.Length == f.Length == 10 && Loose(f[..]) && Cong(Val(f[..]), v)
    modifies h
    ensures Loose(h[..]) && Cong(Val(h[..]), -v)
  {
    hide Cong, Val;
    ghost var x := Val(f[..]);
    FieldOps.Neg(h, f, 110729625, 55364812);
    CongSelf(0);
    CongAdd(0, 0, x, v);
  }

  /** `select` */
  method Select<P(!new)>(ghost c: Curve<P>, t: Quad, row: seq<Precomp>, b: int8, ghost B: P, ghost w: nat)
    requires c.Laws() && t.Valid() && IsCombRow(c, row, B, w) && -8 <= b <= 8
    modifies t.X, t.Y, t.Z, t.T
    ensures HoldsCached(c, t, c.group.Times(b as int * w, B), true)
  {
    hide HoldsCached, Curve.Laws, Found, Group.Times, IsCombRow;
    var bnegative := Negative(b);
    var babs := Magnitude(b);
    Scan(c, t, row, babs, B, w);
    FoundAll(c, B, w, babs);
    var minust := new Quad();
    ghost var g := c.group.Times(babs as int * w, B);
    Minus(c, minust, t, g);
    Cmov3(c, t, minust, bnegative, g, c.group.neg(g));
    GroupLaws(c);
    c.group.TimesNeg(babs as int * w, B);
    if b < 0 {
      NegMul(babs as int, w);
    }
  }

  lemma FoundAll<P(!new)>(c: Curve<P>, B: P, w: nat, babs: byte)
    requires babs <= 8
    ensures Found(c, B, w, babs, 8) == c.group.Times(babs as int * w, B)
  {
  }

  // ---- The comb ----

  /** `select(&t, i / 2, e[i]); ge_madd(&r, h, &t); ge_p1p1_to_p3(h, &r)` */
  method AddRow<P(!new)>(ghost c: Curve<P>, h: Quad, row: seq<Precomp>, b: int8, ghost B: P, ghost x: int, ghost w: nat)
    requires c.Laws() && h.Valid() && Holds(c, h, c.group.Times(x, B))
    requires IsCombRow(c, row, B, w) && -8 <= b <= 8
    modifies h.X, h.Y, h.Z, h.T
    ensures Holds(c, h, c.group.Times(x + b as int * w, B))
  {
    hide HoldsCached, Holds, HoldsParts, Curve.Laws, Group.Times, IsCombRow;
    GroupLaws(c);
    var t := new Quad();
    var r := new Quad();
    Select(c, t, row, b, B, w);
    AddCached(c, r, h, t, true, c.group.Times(x, B), c.group.Times(b as int * w, B));
    c.group.TimesAdd(x, b as int * w, B);
    Convert(c, h, r, c.group.Times(x + b as int * w, B));
  }

  /** Add in every second row of the comb. */
  method AddRows<P(!new)>(ghost c: Curve<P>, h: Quad, base: seq<seq<Precomp>>, e: seq<int8>, from: nat,
      ghost B: P, ghost x: int)
    requires c.Laws() && h.Valid() && Holds(c, h, c.group.Times(x, B))
    requires IsComb(c, base, B) && from <= 1
    requires |e| == 64 && forall i | 0 <= i < 64 :: -8 <= e[i] <= 8
    modifies h.X, h.Y, h.Z, h.T
    ensures Holds(c, h, c.group.Times(x + Half(e, from, 32), B))
  {
    hide Holds, IsCombRow, Curve.Laws, Group.Times, Pow256;
    var i := from;
    ghost var k := 0;
    while i < 64
      invariant i == 2 * k + from && k <= 32
      invariant Holds(c, h, c.group.Times(x + Half(e, from, k), B))
    {
      AddRow(c, h, base[i / 2], e[i], B, x + Half(e, from, k), Pow256(k));
      i, k := i + 2, k + 1;
    }
  }

  /** Doubling four times, with a conversion after each. */
  method Sixteenfold<P(!new)>(ghost c: Curve<P>, h: Quad, ghost x: int, ghost B: P)
    requires c.Laws() && h.Valid() && Holds(c, h, c.group.Times(x, B))
    modifies h.X, h.Y, h.Z, h.T
    ensures Holds(c, h, c.group.Times(16 * x, B))
  {
    hide Holds, HoldsParts, Curve.Laws, Group.Times;
    GroupLaws(c);
    var r := new Quad();
    var s := new Quad();
    c.group.TimesAdd(x, x, B);
    c.group.TimesAdd(2 * x, 2 * x, B);
    c.group.TimesAdd(4 * x, 4 * x, B);
    c.group.TimesAdd(8 * x, 8 * x, B);
    Double(c, r, h, c.group.Times(x, B));
    Convert(c, s, r, c.group.Times(2 * x, B));
    Double(c, r, s, c.group.Times(2 * x, B));
    Convert(c, s, r, c.group.Times(4 * x, B));
    Double(c, r, s, c.group.Times(4 * x, B));
    Convert(c, s, r, c.group.Times(8 * x, B));
    Double(c, r, s, c.group.Times(8 * x, B));
    Convert(c, h, r, c.group.Times(16 * x, B));
  }

  /** `ge_scalarmult_base` on limbs: h = a B. */
  method ScalarMultBase<P(!new)>(ghost c: Curve<P>, h: Quad, base: seq<seq<Precomp>>, a: seq<byte>, ghost B: P)
    requires c.Laws() && h.Valid() && IsComb(c, base, B)
    requires |a| == 32 && a[31] <= 127
    modifies h.X, h.Y, h.Z, h.T
    ensures Holds(c, h, c.group.Times(LE(a), B))
  {
    hide Holds, IsComb, Curve.Laws, Group.Times, Half, Digits16, LE;
    var arr := Recode(a);
    var e := arr[..];
    Origin(c, h);
    NoTimes(c, B);
    AddRows(c, h, base, e, 1, B, 0);
    Sixteenfold(c, h, Half(e, 1, 32), B);
    AddRows(c, h, base, e, 0, B, 16 * Half(e, 1, 32));
    Halves(e, 32);
    assert e[..64] == e;
  }

  lemma NoTimes<P(!new)>(c: Curve<P>, B: P)
    ensures c.group.Times(0, B) == c.group.zero
  {
  }
}
