/** The constants of SHA-512 (third-party/ed25519/sha512.c:17 and :153) as sections 4.2.3 and 5.3.5 of
    FIPS 180-4 define them: the first 64 bits of the fractional parts of the cube roots of the first eighty
    primes, and of the square roots of the first eight. */
module Sha512Constants {
  import opened Sha512Words

  const PRIMES: seq<nat> := [
    2, 3, 5, 7, 11, 13, 17, 19, 23, 29, 31, 37, 41, 43, 47, 53
  ] + [
    59, 61, 67, 71, 73, 79, 83, 89, 97, 101, 103, 107, 109, 113, 127, 131
  ] + [
    137, 139, 149, 151, 157, 163, 167, 173, 179, 181, 191, 193, 197, 199, 211, 223
  ] + [
    227, 229, 233, 239, 241, 251, 257, 263, 269, 271, 277, 281, 283, 293, 307, 311
  ] + [
    313, 317, 331, 337, 347, 349, 353, 359, 367, 373, 379, 383, 389, 397, 401, 409
  ]

  const SHIFT: nat := 0x1_0000_0000_0000_0000

  function Square(x: nat): nat { x * x }

  function Cube(x: nat): nat { x * x * x }

  /** The cube root of p lies between n + k / 2^64 and n + (k + 1) / 2^64. */
  ghost predicate CubeRoot(p: nat, n: nat, k: nat)
  {
    k < SHIFT && Cube(SHIFT * n + k) <= p * Cube(SHIFT) < Cube(SHIFT * n + k + 1)
  }

  ghost predicate SquareRoot(p: nat, n: nat, k: nat)
  {
    k < SHIFT && Square(SHIFT * n + k) <= p * Square(SHIFT) < Square(SHIFT * n + k + 1)
  }

  /** k is the first 64 bits behind the point. */
  ghost predicate IsCubeFraction(p: nat, k: nat)
  {
    exists n :: CubeRoot(p, n, k)
  }

  ghost predicate IsSquareFraction(p: nat, k: nat)
  {
    exists n :: SquareRoot(p, n, k)
  }

  /** Every constant K. */
  lemma ConstantsAre(t: nat)
    requires t < 80
    ensures |PRIMES| == |CONSTANTS| == 80 && IsCubeFraction(PRIMES[t], CONSTANTS[t] as nat)
  {
    hide IsCubeFraction;
    match t / 5 {
      case 0 => Row0(t);
      case 1 => Row1(t);
      case 2 => Row2(t);
      case 3 => Row3(t);
      case 4 => Row4(t);
      case 5 => Row5(t);
      case 6 => Row6(t);
      case 7 => Row7(t);
      case 8 => Row8(t);
      case 9 => Row9(t);
      case 10 => Row10(t);
      case 11 => Row11(t);
      case 12 => Row12(t);
      case 13 => Row13(t);
      case 14 => Row14(t);
      case 15 => Row15(t);
    }
  }

  /** Every word of H(0). */
  lemma InitialIs(t: nat)
    requires t < 8
    ensures |INITIAL| == 8 && IsSquareFraction(PRIMES[t], INITIAL[t] as nat)
  {
    match t {
      case 0 => assert SquareRoot(PRIMES[0], 1, INITIAL[0] as nat);
      case 1 => assert SquareRoot(PRIMES[1], 1, INITIAL[1] as nat);
      case 2 => assert SquareRoot(PRIMES[2], 2, INITIAL[2] as nat);
      case 3 => assert SquareRoot(PRIMES[3], 2, INITIAL[3] as nat);
      case 4 => assert SquareRoot(PRIMES[4], 3, INITIAL[4] as nat);
      case 5 => assert SquareRoot(PRIMES[5], 3, INITIAL[5] as nat);
      case 6 => assert SquareRoot(PRIMES[6], 4, INITIAL[6] as nat);
      case 7 => assert SquareRoot(PRIMES[7], 4, INITIAL[7] as nat);
    }
  }

  lemma Row0(t: nat)
    requires 0 <= t < 5
    ensures IsCubeFraction(PRIMES[t], CONSTANTS[t] as nat)
  {
    match t {
      case 0 => assert CubeRoot(PRIMES[0], 1, CONSTANTS[0] as nat);
      case 1 => assert CubeRoot(PRIMES[1], 1, CONSTANTS[1] as nat);
      case 2 => assert CubeRoot(PRIMES[2], 1, CONSTANTS[2] as nat);
      case 3 => assert CubeRoot(PRIMES[3], 1, CONSTANTS[3] as nat);
      case 4 => assert CubeRoot(PRIMES[4], 2, CONSTANTS[4] as nat);
    }
  }

  lemma Row1(t: nat)
    requires 5 <= t < 10
    ensures IsCubeFraction(PRIMES[t], CONSTANTS[t] as nat)
  {
    match t {
      case 5 => assert CubeRoot(PRIMES[5], 2, CONSTANTS[5] as nat);
      case 6 => assert CubeRoot(PRIMES[6], 2, CONSTANTS[6] as nat);
      case 7 => assert CubeRoot(PRIMES[7], 2, CONSTANTS[7] as nat);
      case 8 => assert CubeRoot(PRIMES[8], 2, CONSTANTS[8] as nat);
      case 9 => assert CubeRoot(PRIMES[9], 3, CONSTANTS[9] as nat);
    }
  }

  lemma Row2(t: nat)
    requires 10 <= t < 15
    ensures IsCubeFraction(PRIMES[t], CONSTANTS[t] as nat)
  {
    match t {
      case 10 => assert CubeRoot(PRIMES[10], 3, CONSTANTS[10] as nat);
      case 11 => assert CubeRoot(PRIMES[11], 3, CONSTANTS[11] as nat);
      case 12 => assert CubeRoot(PRIMES[12], 3, CONSTANTS[12] as nat);
      case 13 => assert CubeRoot(PRIMES[13], 3, CONSTANTS[13] as nat);
      case 14 => assert CubeRoot(PRIMES[14], 3, CONSTANTS[14] as nat);
    }
  }

  lemma Row3(t: nat)
    requires 15 <= t < 20
    ensures IsCubeFraction(PRIMES[t], CONSTANTS[t] as nat)
  {
    match t {
      case 15 => assert CubeRoot(PRIMES[15], 3, CONSTANTS[15] as nat);
      case 16 => assert CubeRoot(PRIMES[16], 3, CONSTANTS[16] as nat);
      case 17 => assert CubeRoot(PRIMES[17], 3, CONSTANTS[17] as nat);
      case 18 => assert CubeRoot(PRIMES[18], 4, CONSTANTS[18] as nat);
      case 19 => assert CubeRoot(PRIMES[19], 4, CONSTANTS[19] as nat);
    }
  }

  lemma Row4(t: nat)
    requires 20 <= t < 25
    ensures IsCubeFraction(PRIMES[t], CONSTANTS[t] as nat)
  {
    match t {
      case 20 => assert CubeRoot(PRIMES[20], 4, CONSTANTS[20] as nat);
      case 21 => assert CubeRoot(PRIMES[21], 4, CONSTANTS[21] as nat);
      case 22 => assert CubeRoot(PRIMES[22], 4, CONSTANTS[22] as nat);
      case 23 => assert CubeRoot(PRIMES[23], 4, CONSTANTS[23] as nat);
      case 24 => assert CubeRoot(PRIMES[24], 4, CONSTANTS[24] as nat);
    }
  }

  lemma Row5(t: nat)
    requires 25 <= t < 30
    ensures IsCubeFraction(PRIMES[t], CONSTANTS[t] as nat)
  {
    match t {
      case 25 => assert CubeRoot(PRIMES[25], 4, CONSTANTS[25] as nat);
      case 26 => assert CubeRoot(PRIMES[26], 4, CONSTANTS[26] as nat);
      case 27 => assert CubeRoot(PRIMES[27], 4, CONSTANTS[27] as nat);
      case 28 => assert CubeRoot(PRIMES[28], 4, CONSTANTS[28] as nat);
      case 29 => assert CubeRoot(PRIMES[29], 4, CONSTANTS[29] as nat);
    }
  }

  lemma Row6(t: nat)
    requires 30 <= t < 35
    ensures IsCubeFraction(PRIMES[t], CONSTANTS[t] as nat)
  {
    match t {
      case 30 => assert CubeRoot(PRIMES[30], 5, CONSTANTS[30] as nat);
      case 31 => assert CubeRoot(PRIMES[31], 5, CONSTANTS[31] as nat);
      case 32 => assert CubeRoot(PRIMES[32], 5, CONSTANTS[32] as nat);
      case 33 => assert CubeRoot(PRIMES[33], 5, CONSTANTS[33] as nat);
      case 34 => assert CubeRoot(PRIMES[34], 5, CONSTANTS[34] as nat);
    }
  }

  lemma Row7(t: nat)
    requires 35 <= t < 40
    ensures IsCubeFraction(PRIMES[t], CONSTANTS[t] as nat)
  {
    match t {
      case 35 => assert CubeRoot(PRIMES[35], 5, CONSTANTS[35] as nat);
      case 36 => assert CubeRoot(PRIMES[36], 5, CONSTANTS[36] as nat);
      case 37 => assert CubeRoot(PRIMES[37], 5, CONSTANTS[37] as nat);
      case 38 => assert CubeRoot(PRIMES[38], 5, CONSTANTS[38] as nat);
      case 39 => assert CubeRoot(PRIMES[39], 5, CONSTANTS[39] as nat);
    }
  }

  lemma Row8(t: nat)
    requires 40 <= t < 45
    ensures IsCubeFraction(PRIMES[t], CONSTANTS[t] as nat)
  {
    match t {
      case 40 => assert CubeRoot(PRIMES[40], 5, CONSTANTS[40] as nat);
      case 41 => assert CubeRoot(PRIMES[41], 5, CONSTANTS[41] as nat);
      case 42 => assert CubeRoot(PRIMES[42], 5, CONSTANTS[42] as nat);
      case 43 => assert CubeRoot(PRIMES[43], 5, CONSTANTS[43] as nat);
      case 44 => assert CubeRoot(PRIMES[44], 5, CONSTANTS[44] as nat);
    }
  }

  lemma Row9(t: nat)
    requires 45 <= t < 50
    ensures IsCubeFraction(PRIMES[t], CONSTANTS[t] as nat)
  {
    match t {
      case 45 => assert CubeRoot(PRIMES[45], 5, CONSTANTS[45] as nat);
      case 46 => assert CubeRoot(PRIMES[46], 5, CONSTANTS[46] as nat);
      case 47 => assert CubeRoot(PRIMES[47], 6, CONSTANTS[47] as nat);
      case 48 => assert CubeRoot(PRIMES[48], 6, CONSTANTS[48] as nat);
      case 49 => assert CubeRoot(PRIMES[49], 6, CONSTANTS[49] as nat);
    }
  }

  lemma Row10(t: nat)
    requires 50 <= t < 55
    ensures IsCubeFraction(PRIMES[t], CONSTANTS[t] as nat)
  {
    match t {
      case 50 => assert CubeRoot(PRIMES[50], 6, CONSTANTS[50] as nat);
      case 51 => assert CubeRoot(PRIMES[51], 6, CONSTANTS[51] as nat);
      case 52 => assert CubeRoot(PRIMES[52], 6, CONSTANTS[52] as nat);
      case 53 => assert CubeRoot(PRIMES[53], 6, CONSTANTS[53] as nat);
      case 54 => assert CubeRoot(PRIMES[54], 6, CONSTANTS[54] as nat);
    }
  }

  lemma Row11(t: nat)
    requires 55 <= t < 60
    ensures IsCubeFraction(PRIMES[t], CONSTANTS[t] as nat)
  {
    match t {
      case 55 => assert CubeRoot(PRIMES[55], 6, CONSTANTS[55] as nat);
      case 56 => assert CubeRoot(PRIMES[56], 6, CONSTANTS[56] as nat);
      case 57 => assert CubeRoot(PRIMES[57], 6, CONSTANTS[57] as nat);
      case 58 => assert CubeRoot(PRIMES[58], 6, CONSTANTS[58] as nat);
      case 59 => assert CubeRoot(PRIMES[59], 6, CONSTANTS[59] as nat);
    }
  }

  lemma Row12(t: nat)
    requires 60 <= t < 65
    ensures IsCubeFraction(PRIMES[t], CONSTANTS[t] as nat)
  {
    match t {
      case 60 => assert CubeRoot(PRIMES[60], 6, CONSTANTS[60] as nat);
      case 61 => assert CubeRoot(PRIMES[61], 6, CONSTANTS[61] as nat);
      case 62 => assert CubeRoot(PRIMES[62], 6, CONSTANTS[62] as nat);
      case 63 => assert CubeRoot(PRIMES[63], 6, CONSTANTS[63] as nat);
      case 64 => assert CubeRoot(PRIMES[64], 6, CONSTANTS[64] as nat);
    }
  }

  lemma Row13(t: nat)
    requires 65 <= t < 70
    ensures IsCubeFraction(PRIMES[t], CONSTANTS[t] as nat)
  {
    match t {
      case 65 => assert CubeRoot(PRIMES[65], 6, CONSTANTS[65] as nat);
      case 66 => assert CubeRoot(PRIMES[66], 6, CONSTANTS[66] as nat);
      case 67 => assert CubeRoot(PRIMES[67], 6, CONSTANTS[67] as nat);
      case 68 => assert CubeRoot(PRIMES[68], 7, CONSTANTS[68] as nat);
      case 69 => assert CubeRoot(PRIMES[69], 7, CONSTANTS[69] as nat);
    }
  }

  lemma Row14(t: nat)
    requires 70 <= t < 75
    ensures IsCubeFraction(PRIMES[t], CONSTANTS[t] as nat)
  {
    match t {
      case 70 => assert CubeRoot(PRIMES[70], 7, CONSTANTS[70] as nat);
      case 71 => assert CubeRoot(PRIMES[71], 7, CONSTANTS[71] as nat);
      case 72 => assert CubeRoot(PRIMES[72], 7, CONSTANTS[72] as nat);
      case 73 => assert CubeRoot(PRIMES[73], 7, CONSTANTS[73] as nat);
      case 74 => assert CubeRoot(PRIMES[74], 7, CONSTANTS[74] as nat);
    }
  }

  lemma Row15(t: nat)
    requires 75 <= t < 80
    ensures IsCubeFraction(PRIMES[t], CONSTANTS[t] as nat)
  {
    match t {
      case 75 => assert CubeRoot(PRIMES[75], 7, CONSTANTS[75] as nat);
      case 76 => assert CubeRoot(PRIMES[76], 7, CONSTANTS[76] as nat);
      case 77 => assert CubeRoot(PRIMES[77], 7, CONSTANTS[77] as nat);
      case 78 => assert CubeRoot(PRIMES[78], 7, CONSTANTS[78] as nat);
      case 79 => assert CubeRoot(PRIMES[79], 7, CONSTANTS[79] as nat);
    }
  }
}
