/** SHA-512 as FIPS 180-4 tells it, step by step: sections 5.1.2, 6.4.1 and 6.4.2 as relations between words
    and bytes. The digest that the source computes is the only one that satisfies them. */
module Sha512Standard {
  import opened BigEndianBytes
  import opened LittleEndian
  import opened MachineInts
  import opened Sha512Block
  import opened Sha512Stream
  import opened Sha512Words

  // ---- Section 6.4.2 ----

  /** Step 1: the message schedule of a block. */
  ghost predicate IsSchedule(w: seq<word>, b: seq<byte>)
  {
    && |w| == 80 && |b| == 128
    && (forall t | 0 <= t < 16 :: w[t] == FromBytes(b[8 * t..8 * t + 8]))
    && (forall t | 16 <= t < 80 :: Extends(w, t))
  }

  ghost predicate Extends(w: seq<word>, t: nat)
    requires 16 <= t < |w|
  {
    w[t] == Plus(Plus(Plus(SmallSigma1(w[t - 2]), w[t - 7]), SmallSigma0(w[t - 15])), w[t - 16])
  }

  /** T1 and T2: h + Sigma1(e) + Ch(e, f, g) + k + w, and Sigma0(a) + Maj(a, b, c). */
  ghost function T1(s: seq<word>, k: word, w: word): word
    requires |s| == 8
  {
    Plus(Plus(Plus(Plus(s[7], BigSigma1(s[4])), Choice(s[4], s[5], s[6])), k), w)
  }

  ghost function T2(s: seq<word>): word
    requires |s| == 8
  {
    Plus(BigSigma0(s[0]), Majority(s[0], s[1], s[2]))
  }

  /** Step 3: from working variables a, b, .., h to the next ones, with the constant k and the word w. */
  ghost predicate IsRound(s: seq<word>, r: seq<word>, k: word, w: word)
  {
    && |s| == |r| == 8
    && r[0] == Plus(T1(s, k, w), T2(s))
    && r[1] == s[0] && r[2] == s[1] && r[3] == s[2]
    && r[4] == Plus(s[3], T1(s, k, w))
    && r[5] == s[4] && r[6] == s[5] && r[7] == s[6]
  }

  /** All eighty rounds from s on. */
  ghost predicate IsRun(v: seq<seq<word>>, s: seq<word>, w: seq<word>)
  {
    && |v| == 81 && |w| == 80 && v[0] == s
    && forall t | 0 <= t < 80 :: IsRound(v[t], v[t + 1], CONSTANTS[t], w[t])
  }

  /** Steps 1 to 4: from one intermediate hash value to the next. */
  ghost predicate IsHashStep(s: seq<word>, b: seq<byte>, r: seq<word>)
  {
    exists w, v :: IsSchedule(w, b) && IsRun(v, s, w) && IsSum(s, v, r)
  }

  ghost predicate IsSum(s: seq<word>, v: seq<seq<word>>, r: seq<word>)
  {
    |v| == 81 && |s| == |v[80]| == |r| == 8 && forall i | 0 <= i < 8 :: r[i] == Plus(s[i], v[80][i])
  }

  // ---- Sections 5.1.2 and 6.4 ----

  /** The message, a one bit, zeros, and the number of its bits in sixteen bytes; no block too many. */
  ghost predicate IsPadded(m: seq<byte>, p: seq<byte>)
  {
    && |p| % 128 == 0 && |m| + 17 <= |p| < |m| + 17 + 128
    && p[..|m|] == m && p[|m|] == 0x80 && (forall i | |m| < i < |p| - 16 :: p[i] == 0)
    && BE(p[|p| - 16..]) == 8 * |m|
  }

  /** The hash values H(0), H(1), .., H(N) over the blocks of p. */
  ghost predicate IsChain(hs: seq<seq<word>>, p: seq<byte>)
  {
    && |p| % 128 == 0 && |hs| == |p| / 128 + 1 && hs[0] == INITIAL
    && forall i | 0 <= i < |p| / 128 :: IsHashStep(hs[i], p[128 * i..128 * i + 128], hs[i + 1])
  }

  /** The eight words of the last hash value. */
  ghost predicate IsOutput(h: seq<byte>, s: seq<word>)
  {
    |h| == 64 && |s| == 8 && forall i | 0 <= i < 8 :: h[8 * i..8 * i + 8] == ToBytes(s[i], 8)
  }

  ghost predicate IsDigest(m: seq<byte>, h: seq<byte>)
  {
    exists p, hs :: IsPadded(m, p) && IsChain(hs, p) && hs != [] && IsOutput(h, hs[|hs| - 1])
  }

  // ---- The functions satisfy the relations, and nothing else does ----

  // The operations of `FIPS`, one by one.

  lemma Additions()
    ensures forall x, y :: FIPS.Add(x, y) == Plus(x, y)
  {
    hide Plus, BigSigma0, BigSigma1, SmallSigma0, SmallSigma1, Choice, Majority, FromBytes, ToBytes, CONSTANTS;
  }

  lemma Sigmas(x: word)
    ensures FIPS.Sigma0(x) == BigSigma0(x) && FIPS.Sigma1(x) == BigSigma1(x)
    ensures FIPS.Gamma0(x) == SmallSigma0(x) && FIPS.Gamma1(x) == SmallSigma1(x)
  {
    hide Plus, BigSigma0, BigSigma1, SmallSigma0, SmallSigma1, Choice, Majority, FromBytes, ToBytes, CONSTANTS;
  }

  lemma Choices(x: word, y: word, z: word)
    ensures FIPS.Ch(x, y, z) == Choice(x, y, z) && FIPS.Maj(x, y, z) == Majority(x, y, z)
  {
    hide Plus, BigSigma0, BigSigma1, SmallSigma0, SmallSigma1, Choice, Majority, FromBytes, ToBytes, CONSTANTS;
  }

  lemma Constants(t: nat)
    requires t < 80
    ensures FIPS.K(t) == CONSTANTS[t]
  {
    hide Plus, BigSigma0, BigSigma1, SmallSigma0, SmallSigma1, Choice, Majority, FromBytes, ToBytes;
  }

  lemma Bytes()
    ensures forall b :: FIPS.Load(b) == FromBytes(b)
    ensures forall x :: FIPS.Store(x) == ToBytes(x, 8)
  {
    hide Plus, BigSigma0, BigSigma1, SmallSigma0, SmallSigma1, Choice, Majority, FromBytes, ToBytes, CONSTANTS;
  }

  lemma RoundIs(s: seq<word>, r: seq<word>, k: word, w: word)
    requires |s| == 8
    ensures IsRound(s, r, k, w) <==> r == FIPS.Round(s, k, w)
  {
    hide FIPS, Words.Round, Plus, T1, T2;
    RoundWords(s, k, w);
    if IsRound(s, r, k, w) {
      assert r == FIPS.Round(s, k, w);
    }
  }

  lemma RoundWords(s: seq<word>, k: word, w: word)
    requires |s| == 8
    ensures IsRound(s, FIPS.Round(s, k, w), k, w)
  {
    hide FIPS, Plus, BigSigma0, BigSigma1, Choice, Majority;
    Additions();
    Sigmas(s[0]);
    Sigmas(s[4]);
    Choices(s[0], s[1], s[2]);
    Choices(s[4], s[5], s[6]);
  }

  lemma ScheduleIs(b: seq<byte>, t: nat)
    requires |b| == 128
    ensures FIPS.Schedule(b, t)
            == if t < 16 then FromBytes(b[8 * t..8 * t + 8])
               else Plus(Plus(Plus(SmallSigma1(FIPS.Schedule(b, t - 2)), FIPS.Schedule(b, t - 7)),
                              SmallSigma0(FIPS.Schedule(b, t - 15))), FIPS.Schedule(b, t - 16))
  {
    hide FIPS, Plus, SmallSigma0, SmallSigma1, FromBytes;
    Bytes();
    Additions();
    if t >= 16 {
      Sigmas(FIPS.Schedule(b, t - 2));
      Sigmas(FIPS.Schedule(b, t - 15));
    }
  }

  lemma FullScheduleIs(b: seq<byte>)
    requires |b| == 128
    ensures IsSchedule(FIPS.FullSchedule(b), b)
  {
    hide FIPS, Plus, SmallSigma0, SmallSigma1, FromBytes, Words.Schedule;
    var w := FIPS.FullSchedule(b);
    forall t | 0 <= t < 80
      ensures if t < 16 then w[t] == FromBytes(b[8 * t..8 * t + 8]) else Extends(w, t)
    {
      ScheduleIs(b, t);
    }
  }

  lemma {:induction false} ScheduleUnique(w: seq<word>, b: seq<byte>, t: nat)
    requires IsSchedule(w, b) && t < 80
    ensures w[t] == FIPS.Schedule(b, t)
  {
    hide FIPS, Plus, SmallSigma0, SmallSigma1, FromBytes, Words.Schedule;
    ScheduleIs(b, t);
    if t >= 16 {
      ScheduleUnique(w, b, t - 2);
      ScheduleUnique(w, b, t - 7);
      ScheduleUnique(w, b, t - 15);
      ScheduleUnique(w, b, t - 16);
      assert Extends(w, t);
    }
  }

  lemma RunOf(s: seq<word>, w: seq<word>) returns (v: seq<seq<word>>)
    requires |s| == 8 && |w| == 80
    ensures IsRun(v, s, w) && v[80] == FIPS.Rounds(w, s, 80)
  {
    hide FIPS, Words.Round, IsRound;
    v := seq(81, t requires 0 <= t < 81 => FIPS.Rounds(w, s, t));
    forall t | 0 <= t < 80
      ensures IsRound(v[t], v[t + 1], CONSTANTS[t], w[t])
    {
      NextRound(w, s, t);
      RoundIs(v[t], v[t + 1], CONSTANTS[t], w[t]);
    }
    NoRounds(w, s);
  }

  lemma NoRounds(w: seq<word>, s: seq<word>)
    requires |s| == 8
    ensures FIPS.Rounds(w, s, 0) == s
  {
  }

  lemma NextRound(w: seq<word>, s: seq<word>, t: nat)
    requires |s| == 8 && |w| == 80 && t < 80
    ensures FIPS.Rounds(w, s, t + 1) == FIPS.Round(FIPS.Rounds(w, s, t), CONSTANTS[t], w[t])
  {
    hide FIPS, CONSTANTS, Words.Round;
    Constants(t);
  }

  lemma {:induction false} RunUnique(v: seq<seq<word>>, s: seq<word>, w: seq<word>, t: nat)
    requires IsRun(v, s, w) && |s| == 8 && t <= 80
    ensures v[t] == FIPS.Rounds(w, s, t)
  {
    hide FIPS, Words.Round, Words.Rounds, IsRound;
    if t == 0 {
      NoRounds(w, s);
    } else {
      RunUnique(v, s, w, t - 1);
      NextRound(w, s, t - 1);
      assert IsRound(v[t - 1], v[t - 1 + 1], CONSTANTS[t - 1], w[t - 1]);
      RoundIs(v[t - 1], v[t], CONSTANTS[t - 1], w[t - 1]);
    }
  }

  /** The hash step of section 6.4.2 is `NextHash`, which `Sha512Words.Compress` computes. */
  lemma HashStepIs(s: seq<word>, b: seq<byte>, r: seq<word>)
    requires |s| == 8 && |b| == 128
    ensures IsHashStep(s, b, r) <==> r == FIPS.NextHash(s, b)
  {
    hide FIPS, Plus, Words.Rounds, Words.Schedule, IsSchedule, IsRun;
    var w := FIPS.FullSchedule(b);
    FullScheduleIs(b);
    var v := RunOf(s, w);
    RunLength(v, s, w);
    SumsAre(s, v[80], FIPS.NextHash(s, b));
    assert IsSum(s, v, FIPS.NextHash(s, b));
    if IsHashStep(s, b, r) {
      var w', v' :| IsSchedule(w', b) && IsRun(v', s, w') && IsSum(s, v', r);
      SameSchedules(w', w, b);
      RunUnique(v', s, w, 80);
      RunLength(v', s, w);
      SumsAre(s, v[80], r);
    }
  }

  lemma RunLength(v: seq<seq<word>>, s: seq<word>, w: seq<word>)
    requires IsRun(v, s, w)
    ensures |v| == 81 && |v[80]| == 8
  {
    hide T1, T2, Plus;
    assert IsRound(v[79], v[79 + 1], CONSTANTS[79], w[79]);
  }

  lemma SameSchedules(w: seq<word>, x: seq<word>, b: seq<byte>)
    requires IsSchedule(w, b) && IsSchedule(x, b)
    ensures w == x
  {
    hide Extends, FromBytes;
    forall t | 0 <= t < 80
      ensures w[t] == x[t]
    {
      ScheduleUnique(w, b, t);
      ScheduleUnique(x, b, t);
    }
  }

  lemma SumsAre(s: seq<word>, t: seq<word>, r: seq<word>)
    requires |s| == |t| == 8
    ensures r == FIPS.Sums(s, t) <==> |r| == 8 && forall i | 0 <= i < 8 :: r[i] == Plus(s[i], t[i])
  {
    hide FIPS, Plus;
    Additions();
    assert forall i | 0 <= i < 8 :: FIPS.Sums(s, t)[i] == Plus(s[i], t[i]);
  }

  // ---- Padding ----

  lemma PaddedIs(m: seq<byte>)
    requires 8 * |m| < TWO64
    ensures IsPadded(m, Padded(m))
  {
    var z, l := Zeros(ZeroCount(|m|)), BigEndian(8 * |m|, 16);
    Pow256At16();
    BigEndianDecodes(8 * |m|, 16);
    assert Padded(m) == m + [0x80] + z + l;
    hide BigEndian, BE, Padded;
    Pieces(m, z, l);
  }

  lemma Pieces(m: seq<byte>, z: seq<byte>, l: seq<byte>)
    requires |l| == 16
    ensures var p := m + [0x80] + z + l;
      |p| == |m| + 17 + |z| && p[..|m|] == m && p[|m|] == 0x80 && p[|p| - 16..] == l
      && forall i | |m| < i < |p| - 16 :: p[i] == z[i - |m| - 1]
  {
  }

  lemma Pow256At16()
    ensures TWO64 < Pow256(16)
  {
    assert Pow256(2) == 0x1_0000 && Pow256(4) == 0x1_0000 * Pow256(2);
    hide Pow256;
    Pow256Add(4, 4);
    Pow256Add(8, 8);
  }

  lemma PaddedUnique(m: seq<byte>, p: seq<byte>, q: seq<byte>)
    requires IsPadded(m, p) && IsPadded(m, q)
    ensures p == q
  {
    hide BE;
    assert |p| == |q|;
    var n := |p| - 16;
    BEEncodes(p[n..]);
    BEEncodes(q[n..]);
    assert p[n..] == q[n..];
    forall i | 0 <= i < |p|
      ensures p[i] == q[i]
    {
      if i < |m| {
        assert p[..|m|][i] == q[..|m|][i];
      } else if i >= n {
        assert p[n..][i - n] == q[n..][i - n];
      }
    }
  }

  // ---- The chain of hash values ----

  lemma ChainOf(p: seq<byte>) returns (hs: seq<seq<word>>)
    requires |p| % 128 == 0
    ensures IsChain(hs, p) && hs[|p| / 128] == Absorb(FIPS, INITIAL, p)
  {
    hide FIPS, Words.NextHash, IsHashStep, Absorb;
    var n := |p| / 128;
    hs := seq(n + 1, i requires 0 <= i < n + 1 => Absorb(FIPS, INITIAL, p[..128 * i]));
    forall i | 0 <= i < n
      ensures IsHashStep(hs[i], p[128 * i..128 * i + 128], hs[i + 1])
    {
      NextBlock(p, i);
      HashStepIs(hs[i], p[128 * i..128 * i + 128], hs[i + 1]);
    }
    NoBlocks(p[..0]);
    assert p[..128 * n] == p;
  }

  lemma NoBlocks(p: seq<byte>)
    requires p == []
    ensures Absorb(FIPS, INITIAL, p) == INITIAL
  {
  }

  lemma NextBlock(p: seq<byte>, i: nat)
    requires 128 * i + 128 <= |p|
    ensures Absorb(FIPS, INITIAL, p[..128 * (i + 1)])
            == FIPS.NextHash(Absorb(FIPS, INITIAL, p[..128 * i]), p[128 * i..128 * i + 128])
  {
    hide FIPS, Words.NextHash, Absorb;
    AbsorbBlock(FIPS, INITIAL, p[..128 * i], p[128 * i..128 * i + 128]);
    assert p[..128 * i] + p[128 * i..128 * i + 128] == p[..128 * (i + 1)];
  }

  lemma {:induction false} ChainUnique(hs: seq<seq<word>>, p: seq<byte>, i: nat)
    requires IsChain(hs, p) && i <= |p| / 128
    ensures hs[i] == Absorb(FIPS, INITIAL, p[..128 * i])
  {
    hide FIPS, Words.NextHash, IsHashStep, Absorb;
    if i == 0 {
      NoBlocks(p[..0]);
    } else {
      ChainUnique(hs, p, i - 1);
      NextBlock(p, i - 1);
      assert IsHashStep(hs[i - 1], p[128 * (i - 1)..128 * (i - 1) + 128], hs[i - 1 + 1]);
      HashStepIs(hs[i - 1], p[128 * (i - 1)..128 * (i - 1) + 128], hs[i]);
    }
  }

  // ---- The digest ----

  lemma {:induction false} OutputWords(s: seq<word>, i: nat)
    requires i < |s|
    ensures |Output(FIPS, s)| == 8 * |s| && Output(FIPS, s)[8 * i..8 * i + 8] == ToBytes(s[i], 8)
  {
    hide FIPS, ToBytes;
    Bytes();
    var n := |s| - 1;
    var init := Output(FIPS, s[..n]);
    assert Output(FIPS, s) == init + ToBytes(s[n], 8);
    if n == 0 {
      assert init == [];
      assert [] + ToBytes(s[n], 8) == ToBytes(s[n], 8);
    } else {
      OutputWords(s[..n], if i < n then i else 0);
      if i < n {
        assert Output(FIPS, s)[8 * i..8 * i + 8] == init[8 * i..8 * i + 8];
      }
    }
  }

  lemma OutputIs(h: seq<byte>, s: seq<word>)
    requires |s| == 8
    ensures IsOutput(h, s) <==> h == Output(FIPS, s)
  {
    hide FIPS, ToBytes, Output;
    var o := Output(FIPS, s);
    OutputWords(s, 0);
    forall i | 0 <= i < 8
      ensures o[8 * i..8 * i + 8] == ToBytes(s[i], 8)
    {
      OutputWords(s, i);
    }
    if IsOutput(h, s) {
      forall i | 0 <= i < 8
        ensures h[8 * i..8 * i + 8] == o[8 * i..8 * i + 8]
      {
        assert h[8 * i..8 * i + 8] == ToBytes(s[i], 8);
        assert o[8 * i..8 * i + 8] == ToBytes(s[i], 8);
      }
      SameEights(h, o);
    }
  }

  lemma SameEights(h: seq<byte>, o: seq<byte>)
    requires |h| == |o| == 64 && forall i | 0 <= i < 8 :: h[8 * i..8 * i + 8] == o[8 * i..8 * i + 8]
    ensures h == o
  {
    forall j | 0 <= j < 64
      ensures h[j] == o[j]
    {
      var i := j / 8;
      assert h[j] == h[8 * i..8 * i + 8][j - 8 * i] == o[8 * i..8 * i + 8][j - 8 * i];
    }
  }

  /** The digest that the source computes is the one that the standard defines. */
  lemma DigestIs(m: seq<byte>, h: seq<byte>)
    requires 8 * |m| < TWO64
    ensures IsDigest(m, h) <==> h == Sha512(m)
  {
    hide IsPadded, IsHashStep, IsOutput, Padded, Absorb, Output, Sha512, WORDS, FIPS;
    var p := Padded(m);
    var s := Absorb(FIPS, INITIAL, p);
    Sha512IsStandard(m);
    PaddedIs(m);
    var hs := ChainOf(p);
    OutputIs(h, s);
    if IsDigest(m, h) {
      var p', hs' :| IsPadded(m, p') && IsChain(hs', p') && hs' != [] && IsOutput(h, hs'[|hs'| - 1]);
      PaddedUnique(m, p', p);
      ChainUnique(hs', p, |p| / 128);
      assert p[..128 * (|p| / 128)] == p;
    }
  }
}
