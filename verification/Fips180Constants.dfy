/** Where the constants of FIPS 180-4 come from (sections 4.2.2 and 5.3.3): roots of the first primes. */
module Fips180Constants {
  import opened Fips180

  // The first 64 primes, sixteen at a time.

  const P0: seq<nat> := [2, 3, 5, 7, 11, 13, 17, 19, 23, 29, 31, 37, 41, 43, 47, 53]

  const P16: seq<nat> := [59, 61, 67, 71, 73, 79, 83, 89, 97, 101, 103, 107, 109, 113, 127, 131]

  const P32: seq<nat> := [137, 139, 149, 151, 157, 163, 167, 173, 179, 181, 191, 193, 197, 199, 211, 223]

  const P48: seq<nat> := [227, 229, 233, 239, 241, 251, 257, 263, 269, 271, 277, 281, 283, 293, 307, 311]

  const PRIMES: seq<nat> := P0 + P16 + P32 + P48

  /** The first 32 bits of the fractional part of the cube root of p: c is that root times 2^32, rounded down. */
  ghost predicate IsCubeRootWord(w: Word, p: nat) {
    exists c: nat ::
      && c * c * c <= p * 0x1_0000_0000_0000_0000_0000_0000 < (c + 1) * (c + 1) * (c + 1)
      && c % 0x1_0000_0000 == w as int
  }

  /** The same for the square root. */
  ghost predicate IsSquareRootWord(w: Word, p: nat) {
    exists c: nat ::
      && c * c <= p * 0x1_0000_0000_0000_0000 < (c + 1) * (c + 1)
      && c % 0x1_0000_0000 == w as int
  }

  lemma CubeRoot(w: Word, p: nat, c: nat)
    requires c * c * c <= p * 0x1_0000_0000_0000_0000_0000_0000 < (c + 1) * (c + 1) * (c + 1)
    requires c % 0x1_0000_0000 == w as int
    ensures IsCubeRootWord(w, p)
  {}

  lemma SquareRoot(w: Word, p: nat, c: nat)
    requires c * c <= p * 0x1_0000_0000_0000_0000 < (c + 1) * (c + 1)
    requires c % 0x1_0000_0000 == w as int
    ensures IsSquareRootWord(w, p)
  {}

  lemma Entries0()
    ensures K[0] == 0x428a2f98 && K[1] == 0x71374491 && K[2] == 0xb5c0fbcf && K[3] == 0xe9b5dba5
    ensures K[4] == 0x3956c25b && K[5] == 0x59f111f1 && K[6] == 0x923f82a4 && K[7] == 0xab1c5ed5
    ensures PRIMES[0] == 2 && PRIMES[1] == 3 && PRIMES[2] == 5 && PRIMES[3] == 7
    ensures PRIMES[4] == 11 && PRIMES[5] == 13 && PRIMES[6] == 17 && PRIMES[7] == 19
  {}

  lemma RoundConstants0()
    ensures forall t :: 0 <= t < 8 ==> IsCubeRootWord(K[t], PRIMES[t])
  {
    hide IsCubeRootWord;
    Entries0();
    CubeRoot(0x428a2f98, 2, 0x1_428A_2F98);
    CubeRoot(0x71374491, 3, 0x1_7137_4491);
    CubeRoot(0xb5c0fbcf, 5, 0x1_B5C0_FBCF);
    CubeRoot(0xe9b5dba5, 7, 0x1_E9B5_DBA5);
    CubeRoot(0x3956c25b, 11, 0x2_3956_C25B);
    CubeRoot(0x59f111f1, 13, 0x2_59F1_11F1);
    CubeRoot(0x923f82a4, 17, 0x2_923F_82A4);
    CubeRoot(0xab1c5ed5, 19, 0x2_AB1C_5ED5);
  }

  lemma Entries8()
    ensures K[8] == 0xd807aa98 && K[9] == 0x12835b01 && K[10] == 0x243185be && K[11] == 0x550c7dc3
    ensures K[12] == 0x72be5d74 && K[13] == 0x80deb1fe && K[14] == 0x9bdc06a7 && K[15] == 0xc19bf174
    ensures PRIMES[8] == 23 && PRIMES[9] == 29 && PRIMES[10] == 31 && PRIMES[11] == 37
    ensures PRIMES[12] == 41 && PRIMES[13] == 43 && PRIMES[14] == 47 && PRIMES[15] == 53
  {}

  lemma RoundConstants8()
    ensures forall t :: 8 <= t < 16 ==> IsCubeRootWord(K[t], PRIMES[t])
  {
    hide IsCubeRootWord;
    Entries8();
    CubeRoot(0xd807aa98, 23, 0x2_D807_AA98);
    CubeRoot(0x12835b01, 29, 0x3_1283_5B01);
    CubeRoot(0x243185be, 31, 0x3_2431_85BE);
    CubeRoot(0x550c7dc3, 37, 0x3_550C_7DC3);
    CubeRoot(0x72be5d74, 41, 0x3_72BE_5D74);
    CubeRoot(0x80deb1fe, 43, 0x3_80DE_B1FE);
    CubeRoot(0x9bdc06a7, 47, 0x3_9BDC_06A7);
    CubeRoot(0xc19bf174, 53, 0x3_C19B_F174);
  }

  lemma Entries16()
    ensures K[16] == 0xe49b69c1 && K[17] == 0xefbe4786 && K[18] == 0x0fc19dc6 && K[19] == 0x240ca1cc
    ensures K[20] == 0x2de92c6f && K[21] == 0x4a7484aa && K[22] == 0x5cb0a9dc && K[23] == 0x76f988da
    ensures PRIMES[16] == 59 && PRIMES[17] == 61 && PRIMES[18] == 67 && PRIMES[19] == 71
    ensures PRIMES[20] == 73 && PRIMES[21] == 79 && PRIMES[22] == 83 && PRIMES[23] == 89
  {}

  lemma RoundConstants16()
    ensures forall t :: 16 <= t < 24 ==> IsCubeRootWord(K[t], PRIMES[t])
  {
    hide IsCubeRootWord;
    Entries16();
    CubeRoot(0xe49b69c1, 59, 0x3_E49B_69C1);
    CubeRoot(0xefbe4786, 61, 0x3_EFBE_4786);
    CubeRoot(0x0fc19dc6, 67, 0x4_0FC1_9DC6);
    CubeRoot(0x240ca1cc, 71, 0x4_240C_A1CC);
    CubeRoot(0x2de92c6f, 73, 0x4_2DE9_2C6F);
    CubeRoot(0x4a7484aa, 79, 0x4_4A74_84AA);
    CubeRoot(0x5cb0a9dc, 83, 0x4_5CB0_A9DC);
    CubeRoot(0x76f988da, 89, 0x4_76F9_88DA);
  }

  lemma Entries24()
    ensures K[24] == 0x983e5152 && K[25] == 0xa831c66d && K[26] == 0xb00327c8 && K[27] == 0xbf597fc7
    ensures K[28] == 0xc6e00bf3 && K[29] == 0xd5a79147 && K[30] == 0x06ca6351 && K[31] == 0x14292967
    ensures PRIMES[24] == 97 && PRIMES[25] == 101 && PRIMES[26] == 103 && PRIMES[27] == 107
    ensures PRIMES[28] == 109 && PRIMES[29] == 113 && PRIMES[30] == 127 && PRIMES[31] == 131
  {}

  lemma RoundConstants24()
    ensures forall t :: 24 <= t < 32 ==> IsCubeRootWord(K[t], PRIMES[t])
  {
    hide IsCubeRootWord;
    Entries24();
    CubeRoot(0x983e5152, 97, 0x4_983E_5152);
    CubeRoot(0xa831c66d, 101, 0x4_A831_C66D);
    CubeRoot(0xb00327c8, 103, 0x4_B003_27C8);
    CubeRoot(0xbf597fc7, 107, 0x4_BF59_7FC7);
    CubeRoot(0xc6e00bf3, 109, 0x4_C6E0_0BF3);
    CubeRoot(0xd5a79147, 113, 0x4_D5A7_9147);
    CubeRoot(0x06ca6351, 127, 0x5_06CA_6351);
    CubeRoot(0x14292967, 131, 0x5_1429_2967);
  }

  lemma Entries32()
    ensures K[32] == 0x27b70a85 && K[33] == 0x2e1b2138 && K[34] == 0x4d2c6dfc && K[35] == 0x53380d13
    ensures K[36] == 0x650a7354 && K[37] == 0x766a0abb && K[38] == 0x81c2c92e && K[39] == 0x92722c85
    ensures PRIMES[32] == 137 && PRIMES[33] == 139 && PRIMES[34] == 149 && PRIMES[35] == 151
    ensures PRIMES[36] == 157 && PRIMES[37] == 163 && PRIMES[38] == 167 && PRIMES[39] == 173
  {}

  lemma RoundConstants32()
    ensures forall t :: 32 <= t < 40 ==> IsCubeRootWord(K[t], PRIMES[t])
  {
    hide IsCubeRootWord;
    Entries32();
    CubeRoot(0x27b70a85, 137, 0x5_27B7_0A85);
    CubeRoot(0x2e1b2138, 139, 0x5_2E1B_2138);
    CubeRoot(0x4d2c6dfc, 149, 0x5_4D2C_6DFC);
    CubeRoot(0x53380d13, 151, 0x5_5338_0D13);
    CubeRoot(0x650a7354, 157, 0x5_650A_7354);
    CubeRoot(0x766a0abb, 163, 0x5_766A_0ABB);
    CubeRoot(0x81c2c92e, 167, 0x5_81C2_C92E);
    CubeRoot(0x92722c85, 173, 0x5_9272_2C85);
  }

  lemma Entries40()
    ensures K[40] == 0xa2bfe8a1 && K[41] == 0xa81a664b && K[42] == 0xc24b8b70 && K[43] == 0xc76c51a3
    ensures K[44] == 0xd192e819 && K[45] == 0xd6990624 && K[46] == 0xf40e3585 && K[47] == 0x106aa070
    ensures PRIMES[40] == 179 && PRIMES[41] == 181 && PRIMES[42] == 191 && PRIMES[43] == 193
    ensures PRIMES[44] == 197 && PRIMES[45] == 199 && PRIMES[46] == 211 && PRIMES[47] == 223
  {}

  lemma RoundConstants40()
    ensures forall t :: 40 <= t < 48 ==> IsCubeRootWord(K[t], PRIMES[t])
  {
    hide IsCubeRootWord;
    Entries40();
    CubeRoot(0xa2bfe8a1, 179, 0x5_A2BF_E8A1);
    CubeRoot(0xa81a664b, 181, 0x5_A81A_664B);
    CubeRoot(0xc24b8b70, 191, 0x5_C24B_8B70);
    CubeRoot(0xc76c51a3, 193, 0x5_C76C_51A3);
    CubeRoot(0xd192e819, 197, 0x5_D192_E819);
    CubeRoot(0xd6990624, 199, 0x5_D699_0624);
    CubeRoot(0xf40e3585, 211, 0x5_F40E_3585);
    CubeRoot(0x106aa070, 223, 0x6_106A_A070);
  }

  lemma Entries48()
    ensures K[48] == 0x19a4c116 && K[49] == 0x1e376c08 && K[50] == 0x2748774c && K[51] == 0x34b0bcb5
    ensures K[52] == 0x391c0cb3 && K[53] == 0x4ed8aa4a && K[54] == 0x5b9cca4f && K[55] == 0x682e6ff3
    ensures PRIMES[48] == 227 && PRIMES[49] == 229 && PRIMES[50] == 233 && PRIMES[51] == 239
    ensures PRIMES[52] == 241 && PRIMES[53] == 251 && PRIMES[54] == 257 && PRIMES[55] == 263
  {}

  lemma RoundConstants48()
    ensures forall t :: 48 <= t < 56 ==> IsCubeRootWord(K[t], PRIMES[t])
  {
    hide IsCubeRootWord;
    Entries48();
    CubeRoot(0x19a4c116, 227, 0x6_19A4_C116);
    CubeRoot(0x1e376c08, 229, 0x6_1E37_6C08);
    CubeRoot(0x2748774c, 233, 0x6_2748_774C);
    CubeRoot(0x34b0bcb5, 239, 0x6_34B0_BCB5);
    CubeRoot(0x391c0cb3, 241, 0x6_391C_0CB3);
    CubeRoot(0x4ed8aa4a, 251, 0x6_4ED8_AA4A);
    CubeRoot(0x5b9cca4f, 257, 0x6_5B9C_CA4F);
    CubeRoot(0x682e6ff3, 263, 0x6_682E_6FF3);
  }

  lemma Entries56()
    ensures K[56] == 0x748f82ee && K[57] == 0x78a5636f && K[58] == 0x84c87814 && K[59] == 0x8cc70208
    ensures K[60] == 0x90befffa && K[61] == 0xa4506ceb && K[62] == 0xbef9a3f7 && K[63] == 0xc67178f2
    ensures PRIMES[56] == 269 && PRIMES[57] == 271 && PRIMES[58] == 277 && PRIMES[59] == 281
    ensures PRIMES[60] == 283 && PRIMES[61] == 293 && PRIMES[62] == 307 && PRIMES[63] == 311
  {}

  lemma RoundConstants56()
    ensures forall t :: 56 <= t < 64 ==> IsCubeRootWord(K[t], PRIMES[t])
  {
    hide IsCubeRootWord;
    Entries56();
    CubeRoot(0x748f82ee, 269, 0x6_748F_82EE);
    CubeRoot(0x78a5636f, 271, 0x6_78A5_636F);
    CubeRoot(0x84c87814, 277, 0x6_84C8_7814);
    CubeRoot(0x8cc70208, 281, 0x6_8CC7_0208);
    CubeRoot(0x90befffa, 283, 0x6_90BE_FFFA);
    CubeRoot(0xa4506ceb, 293, 0x6_A450_6CEB);
    CubeRoot(0xbef9a3f7, 307, 0x6_BEF9_A3F7);
    CubeRoot(0xc67178f2, 311, 0x6_C671_78F2);
  }

  /** Every round constant is the cube root of its prime. */
  lemma RoundConstantsAreCubeRoots()
    ensures |K| == |PRIMES| == 64 && forall t :: 0 <= t < 64 ==> IsCubeRootWord(K[t], PRIMES[t])
  {
    hide IsCubeRootWord;
    RoundConstants0();
    RoundConstants8();
    RoundConstants16();
    RoundConstants24();
    RoundConstants32();
    RoundConstants40();
    RoundConstants48();
    RoundConstants56();
  }

  /** The initial hash value is the square roots of the first eight primes. */
  lemma InitialValueIsSquareRoots()
    ensures IsSquareRootWord(H0.a, 2) && IsSquareRootWord(H0.b, 3) && IsSquareRootWord(H0.c, 5)
    ensures IsSquareRootWord(H0.d, 7) && IsSquareRootWord(H0.e, 11) && IsSquareRootWord(H0.f, 13)
    ensures IsSquareRootWord(H0.g, 17) && IsSquareRootWord(H0.h, 19)
  {
    hide IsSquareRootWord;
    SquareRoot(H0.a, 2, 0x1_6A09_E667);
    SquareRoot(H0.b, 3, 0x1_BB67_AE85);
    SquareRoot(H0.c, 5, 0x2_3C6E_F372);
    SquareRoot(H0.d, 7, 0x2_A54F_F53A);
    SquareRoot(H0.e, 11, 0x3_510E_527F);
    SquareRoot(H0.f, 13, 0x3_9B05_688C);
    SquareRoot(H0.g, 17, 0x4_1F83_D9AB);
    SquareRoot(H0.h, 19, 0x4_5BE0_CD19);
  }
}
