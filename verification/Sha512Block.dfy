/** The SHA-512 block function (`sha512_compress`, third-party/ed25519/sha512.c:92) against
    section 6.4.2 of FIPS 180-4, for any 64-bit arithmetic: the word operations are a
    parameter, which module Sha512Words fills in. */
module Sha512Block {
  import opened MachineInts

  /** The operations of section 4.1.3, addition, the constants K, and the byte order. */
  datatype Words<!W> = Words(
    add: (W, W) -> W,
    bigSigma0: W -> W, bigSigma1: W -> W, smallSigma0: W -> W, smallSigma1: W -> W,
    ch: (W, W, W) -> W, maj: (W, W, W) -> W,
    k: nat -> W, load: seq<byte> -> W, store: W -> seq<byte>)
  {
    // Functions of the datatype stand for its fields, so that methods need not apply the fields.

    function Add(x: W, y: W): W { add(x, y) }
    function Gamma0(x: W): W { smallSigma0(x) }
    function Gamma1(x: W): W { smallSigma1(x) }
    function Sigma0(x: W): W { bigSigma0(x) }
    function Sigma1(x: W): W { bigSigma1(x) }
    function Ch(x: W, y: W, z: W): W { ch(x, y, z) }
    function Maj(x: W, y: W, z: W): W { maj(x, y, z) }
    function K(t: nat): W { k(t) }
    function Load(b: seq<byte>): W { load(b) }
    function Store(x: W): seq<byte> { store(x) }

    // ---- The standard ----

    /** Word t of the message schedule. */
    ghost function Schedule(b: seq<byte>, t: nat): W
      requires |b| == 128
    {
      if t < 16 then Load(b[8 * t..8 * t + 8])
      else Add(Add(Add(Gamma1(Schedule(b, t - 2)), Schedule(b, t - 7)), Gamma0(Schedule(b, t - 15))), Schedule(b, t - 16))
    }

    ghost function T1(e: W, f: W, g: W, h: W, kt: W, wt: W): W
    {
      Add(Add(Add(Add(h, Sigma1(e)), Ch(e, f, g)), kt), wt)
    }

    ghost function T2(a: W, b: W, c: W): W
    {
      Add(Sigma0(a), Maj(a, b, c))
    }

    /** One round on the working variables a, b, .., h. */
    ghost function Round(s: seq<W>, kt: W, wt: W): (r: seq<W>)
      requires |s| == 8
      ensures |r| == 8
    {
      var t1 := T1(s[4], s[5], s[6], s[7], kt, wt);
      var t2 := T2(s[0], s[1], s[2]);
      [Add(t1, t2), s[0], s[1], s[2], Add(s[3], t1), s[4], s[5], s[6]]
    }

    /** The working variables after t rounds over the schedule w. */
    ghost function Rounds(w: seq<W>, s: seq<W>, t: nat): (r: seq<W>)
      requires t <= |w| && |s| == 8
      ensures |r| == 8
    {
      if t == 0 then s else Round(Rounds(w, s, t - 1), K(t - 1), w[t - 1])
    }

    ghost function FullSchedule(b: seq<byte>): (w: seq<W>)
      requires |b| == 128
      ensures |w| == 80
    {
      seq(80, t requires 0 <= t < 80 => Schedule(b, t))
    }

    ghost function Sums(s: seq<W>, t: seq<W>): (r: seq<W>)
      requires |s| == |t| == 8
      ensures |r| == 8
    {
      seq(8, i requires 0 <= i < 8 => Add(s[i], t[i]))
    }

    /** The intermediate hash value after one more block. */
    ghost function NextHash(s: seq<W>, b: seq<byte>): (r: seq<W>)
      requires |s| == 8 && |b| == 128
      ensures |r| == 8
    {
      Sums(s, Rounds(FullSchedule(b), s, 80))
    }

    // ---- The implementation ----

    /** The working variables after j rounds of a group of eight, during which the source renames
        the registers instead of moving them: variable m is register m - j, modulo 8. */
    ghost function Renamed(r: seq<W>, j: nat): (s: seq<W>)
      requires |r| == 8 && j <= 8
      ensures |s| == 8
    {
      r[8 - j..] + r[..8 - j]
    }

    /** The macro RND: two registers change, none moves. */
    method Rnd(r: array<W>, a: nat, b: nat, c: nat, d: nat, e: nat, f: nat, g: nat, h: nat, kt: W, wt: W, ghost j: nat)
      requires r.Length == 8 && j < 8
      requires a == (8 - j) % 8 && b == (9 - j) % 8 && c == (10 - j) % 8 && d == (11 - j) % 8
      requires e == (12 - j) % 8 && f == (13 - j) % 8 && g == (14 - j) % 8 && h == (15 - j) % 8
      modifies r
      ensures Renamed(r[..], j + 1) == Round(Renamed(old(r[..]), j), kt, wt)
    {
      ghost var v := r[..];
      var t0 := Add(Add(Add(Add(r[h], Sigma1(r[e])), Ch(r[e], r[f], r[g])), kt), wt);
      var t1 := Add(Sigma0(r[a]), Maj(r[a], r[b], r[c]));
      r[d] := Add(r[d], t0);
      r[h] := Add(t0, t1);
      ghost var w := r[..];
      assert w == v[d := Add(v[d], t0)][h := Add(t0, t1)];
      RndRound(v, j, t0, t1, kt, wt);
    }

    lemma RndRound(v: seq<W>, j: nat, t0: W, t1: W, kt: W, wt: W)
      requires |v| == 8 && j < 8
      requires t0 == T1(v[(12 - j) % 8], v[(13 - j) % 8], v[(14 - j) % 8], v[(15 - j) % 8], kt, wt)
      requires t1 == T2(v[(8 - j) % 8], v[(9 - j) % 8], v[(10 - j) % 8])
      ensures Renamed(v[(11 - j) % 8 := Add(v[(11 - j) % 8], t0)][(15 - j) % 8 := Add(t0, t1)], j + 1)
           == Round(Renamed(v, j), kt, wt)
    {
      Registers(v, j);
      Shift(v, j, Add(v[(11 - j) % 8], t0), Add(t0, t1));
    }

    /** Where each working variable is. */
    lemma Registers(v: seq<W>, j: nat)
      requires |v| == 8 && j < 8
      ensures var s := Renamed(v, j);
        && s[0] == v[(8 - j) % 8] && s[1] == v[(9 - j) % 8] && s[2] == v[(10 - j) % 8] && s[3] == v[(11 - j) % 8]
        && s[4] == v[(12 - j) % 8] && s[5] == v[(13 - j) % 8] && s[6] == v[(14 - j) % 8] && s[7] == v[(15 - j) % 8]
    {}

    lemma Shift(v: seq<W>, j: nat, x: W, y: W)
      requires |v| == 8 && j < 8
      ensures var s := Renamed(v, j);
        Renamed(v[(11 - j) % 8 := x][(15 - j) % 8 := y], j + 1) == [y, s[0], s[1], s[2], x, s[4], s[5], s[6]]
    {
      if {
        case j == 0 =>
        case j == 1 =>
        case j == 2 =>
        case j == 3 =>
        case j == 4 =>
        case j == 5 =>
        case j == 6 =>
        case j == 7 =>
      }
    }

    lemma ScheduleStarts(b: seq<byte>, t: nat)
      requires |b| == 128 && t < 16
      ensures Schedule(b, t) == Load(b[8 * t..8 * t + 8])
    {
    }

    lemma ScheduleExtends(b: seq<byte>, t: nat)
      requires |b| == 128 && t >= 16
      ensures Schedule(b, t) == Add(Add(Add(Gamma1(Schedule(b, t - 2)), Schedule(b, t - 7)), Gamma0(Schedule(b, t - 15))),
                                    Schedule(b, t - 16))
    {
    }

    method FillSchedule(b: seq<byte>, zero: W) returns (w: array<W>)
      requires |b| == 128
      ensures fresh(w) && w[..] == FullSchedule(b)
    {
      hide Schedule, Add, Gamma0, Gamma1, Load;
      w := new W[80](_ => zero);
      for i := 0 to 16
        invariant forall t | 0 <= t < i :: w[t] == Schedule(b, t)
      {
        ScheduleStarts(b, i);
        w[i] := Load(b[8 * i..8 * i + 8]);
      }
      for i := 16 to 80
        invariant forall t | 0 <= t < i :: w[t] == Schedule(b, t)
      {
        ScheduleExtends(b, i);
        w[i] := Add(Add(Add(Gamma1(w[i - 2]), w[i - 7]), Gamma0(w[i - 15])), w[i - 16]);
      }
    }

    /** `sha512_compress`. */
    method Compress(state: array<W>, b: seq<byte>)
      requires state.Length == 8 && |b| == 128
      modifies state
      ensures state[..] == NextHash(old(state[..]), b)
    {
      var s0 := state[..];
      var r := Working(s0);
      var w := FillSchedule(b, s0[0]);
      AllRounds(r, w[..], s0);
      AddBack(state, r[..]);
    }

    /** The round loop, eight rounds at a time. */
    method AllRounds(r: array<W>, w: seq<W>, s0: seq<W>)
      requires r.Length == 8 && |w| == 80 && r[..] == s0
      modifies r
      ensures r[..] == Rounds(w, s0, 80)
    {
      assert Rounds(w, s0, 0) == s0;
      hide Rounds;
      for n := 0 to 10
        invariant r[..] == Rounds(w, s0, 8 * n)
      {
        EightRounds(r, w, 8 * n, s0);
      }
    }

    method Working(s: seq<W>) returns (r: array<W>)
      requires |s| == 8
      ensures fresh(r) && r[..] == s
    {
      r := new W[8](i requires 0 <= i < 8 => s[i]);
    }

    method AddBack(state: array<W>, r: seq<W>)
      requires state.Length == |r| == 8
      modifies state
      ensures state[..] == Sums(old(state[..]), r)
    {
      ghost var s0 := state[..];
      for i := 0 to 8
        invariant forall j | 0 <= j < i :: state[j] == Add(s0[j], r[j])
        invariant forall j | i <= j < 8 :: state[j] == s0[j]
      {
        state[i] := Add(state[i], r[i]);
      }
    }

    method EightRounds(r: array<W>, w: seq<W>, i: nat, ghost s0: seq<W>)
      requires r.Length == 8 && |w| == 80 && i + 8 <= 80 && |s0| == 8
      requires r[..] == Rounds(w, s0, i)
      modifies r
      ensures r[..] == Rounds(w, s0, i + 8)
    {
      assert Renamed(r[..], 0) == r[..];
      Rnd(r, 0, 1, 2, 3, 4, 5, 6, 7, K(i), w[i], 0);
      assert Renamed(r[..], 1) == Rounds(w, s0, i + 1);
      Rnd(r, 7, 0, 1, 2, 3, 4, 5, 6, K(i + 1), w[i + 1], 1);
      assert Renamed(r[..], 2) == Rounds(w, s0, i + 2);
      Rnd(r, 6, 7, 0, 1, 2, 3, 4, 5, K(i + 2), w[i + 2], 2);
      assert Renamed(r[..], 3) == Rounds(w, s0, i + 3);
      Rnd(r, 5, 6, 7, 0, 1, 2, 3, 4, K(i + 3), w[i + 3], 3);
      assert Renamed(r[..], 4) == Rounds(w, s0, i + 4);
      Rnd(r, 4, 5, 6, 7, 0, 1, 2, 3, K(i + 4), w[i + 4], 4);
      assert Renamed(r[..], 5) == Rounds(w, s0, i + 5);
      Rnd(r, 3, 4, 5, 6, 7, 0, 1, 2, K(i + 5), w[i + 5], 5);
      assert Renamed(r[..], 6) == Rounds(w, s0, i + 6);
      Rnd(r, 2, 3, 4, 5, 6, 7, 0, 1, K(i + 6), w[i + 6], 6);
      assert Renamed(r[..], 7) == Rounds(w, s0, i + 7);
      Rnd(r, 1, 2, 3, 4, 5, 6, 7, 0, K(i + 7), w[i + 7], 7);
      assert Renamed(r[..], 8) == r[..];
    }
  }

  // ---- Two sets of operations ----

  /** The same results on all words. */
  ghost predicate Agree<W(!new)>(a: Words<W>, b: Words<W>)
  {
    && (forall x, y :: a.add(x, y) == b.add(x, y))
    && (forall x :: a.bigSigma0(x) == b.bigSigma0(x)) && (forall x :: a.bigSigma1(x) == b.bigSigma1(x))
    && (forall x :: a.smallSigma0(x) == b.smallSigma0(x)) && (forall x :: a.smallSigma1(x) == b.smallSigma1(x))
    && (forall x, y, z :: a.ch(x, y, z) == b.ch(x, y, z)) && (forall x, y, z :: a.maj(x, y, z) == b.maj(x, y, z))
    && (forall t :: a.k(t) == b.k(t))
    && (forall s | |s| == 8 :: a.load(s) == b.load(s))
    && (forall x :: a.store(x) == b.store(x))
  }

  lemma {:induction false} SameSchedule<W(!new)>(v: Words<W>, w: Words<W>, b: seq<byte>, t: nat)
    requires Agree(v, w) && |b| == 128
    ensures v.Schedule(b, t) == w.Schedule(b, t)
  {
    if t >= 16 {
      SameSchedule(v, w, b, t - 2);
      SameSchedule(v, w, b, t - 7);
      SameSchedule(v, w, b, t - 15);
      SameSchedule(v, w, b, t - 16);
    }
  }

  lemma SameRound<W(!new)>(v: Words<W>, w: Words<W>, s: seq<W>, kt: W, wt: W)
    requires Agree(v, w) && |s| == 8
    ensures v.Round(s, kt, wt) == w.Round(s, kt, wt)
  {
  }

  lemma {:induction false} SameRounds<W(!new)>(v: Words<W>, w: Words<W>, d: seq<W>, s: seq<W>, t: nat)
    requires Agree(v, w) && t <= |d| && |s| == 8
    ensures v.Rounds(d, s, t) == w.Rounds(d, s, t)
  {
    hide Words.Round;
    if t > 0 {
      assert v.k(t - 1) == w.k(t - 1);
      hide Agree;
      SameRounds(v, w, d, s, t - 1);
      SameRound(v, w, v.Rounds(d, s, t - 1), v.K(t - 1), d[t - 1]);
    }
  }

  /** Operations that agree make the same hash step. */
  lemma SameHash<W(!new)>(v: Words<W>, w: Words<W>, s: seq<W>, b: seq<byte>)
    requires Agree(v, w) && |s| == 8 && |b| == 128
    ensures v.NextHash(s, b) == w.NextHash(s, b)
  {
    hide Words.Schedule, Words.Rounds;
    forall t | 0 <= t < 80
      ensures v.Schedule(b, t) == w.Schedule(b, t)
    {
      SameSchedule(v, w, b, t);
    }
    var d := v.FullSchedule(b);
    assert d == w.FullSchedule(b);
    SameRounds(v, w, d, s, 80);
    var r := v.Rounds(d, s, 80);
    assert v.Sums(s, r) == w.Sums(s, r);
  }
}
