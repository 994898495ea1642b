/**
 The constants of SHA-384 and SHA-512 as the contract lists them (Sha2Ext.sol:12-92, 137-174), and where FIPS 180-4
 takes them from: the first 64 bits of the fractional parts of cube and square roots of primes (sections 4.2.3, 5.3.4
 and 5.3.5).
 */
module Sha2Constants {
  import opened Basics
  import opened Sha2Functions

  // ---------------------------------------------------------------- the tables, in rows

  const K0: seq<nat> :=
    [0x428a_2f98_d728_ae22, 0x7137_4491_23ef_65cd, 0xb5c0_fbcf_ec4d_3b2f, 0xe9b5_dba5_8189_dbbc,
     0x3956_c25b_f348_b538, 0x59f1_11f1_b605_d019, 0x923f_82a4_af19_4f9b, 0xab1c_5ed5_da6d_8118]
  const K1: seq<nat> :=
    [0xd807_aa98_a303_0242, 0x1283_5b01_4570_6fbe, 0x2431_85be_4ee4_b28c, 0x550c_7dc3_d5ff_b4e2,
     0x72be_5d74_f27b_896f, 0x80de_b1fe_3b16_96b1, 0x9bdc_06a7_25c7_1235, 0xc19b_f174_cf69_2694]
  const K2: seq<nat> :=
    [0xe49b_69c1_9ef1_4ad2, 0xefbe_4786_384f_25e3, 0x0fc1_9dc6_8b8c_d5b5, 0x240c_a1cc_77ac_9c65,
     0x2de9_2c6f_592b_0275, 0x4a74_84aa_6ea6_e483, 0x5cb0_a9dc_bd41_fbd4, 0x76f9_88da_8311_53b5]
  const K3: seq<nat> :=
    [0x983e_5152_ee66_dfab, 0xa831_c66d_2db4_3210, 0xb003_27c8_98fb_213f, 0xbf59_7fc7_beef_0ee4,
     0xc6e0_0bf3_3da8_8fc2, 0xd5a7_9147_930a_a725, 0x06ca_6351_e003_826f, 0x1429_2967_0a0e_6e70]
  const K4: seq<nat> :=
    [0x27b7_0a85_46d2_2ffc, 0x2e1b_2138_5c26_c926, 0x4d2c_6dfc_5ac4_2aed, 0x5338_0d13_9d95_b3df,
     0x650a_7354_8baf_63de, 0x766a_0abb_3c77_b2a8, 0x81c2_c92e_47ed_aee6, 0x9272_2c85_1482_353b]
  const K5: seq<nat> :=
    [0xa2bf_e8a1_4cf1_0364, 0xa81a_664b_bc42_3001, 0xc24b_8b70_d0f8_9791, 0xc76c_51a3_0654_be30,
     0xd192_e819_d6ef_5218, 0xd699_0624_5565_a910, 0xf40e_3585_5771_202a, 0x106a_a070_32bb_d1b8]
  const K6: seq<nat> :=
    [0x19a4_c116_b8d2_d0c8, 0x1e37_6c08_5141_ab53, 0x2748_774c_df8e_eb99, 0x34b0_bcb5_e19b_48a8,
     0x391c_0cb3_c5c9_5a63, 0x4ed8_aa4a_e341_8acb, 0x5b9c_ca4f_7763_e373, 0x682e_6ff3_d6b2_b8a3]
  const K7: seq<nat> :=
    [0x748f_82ee_5def_b2fc, 0x78a5_636f_4317_2f60, 0x84c8_7814_a1f0_ab72, 0x8cc7_0208_1a64_39ec,
     0x90be_fffa_2363_1e28, 0xa450_6ceb_de82_bde9, 0xbef9_a3f7_b2c6_7915, 0xc671_78f2_e372_532b]
  const K8: seq<nat> :=
    [0xca27_3ece_ea26_619c, 0xd186_b8c7_21c0_c207, 0xeada_7dd6_cde0_eb1e, 0xf57d_4f7f_ee6e_d178,
     0x06f0_67aa_7217_6fba, 0x0a63_7dc5_a2c8_98a6, 0x113f_9804_bef9_0dae, 0x1b71_0b35_131c_471b]
  const K9: seq<nat> :=
    [0x28db_77f5_2304_7d84, 0x32ca_ab7b_40c7_2493, 0x3c9e_be0a_15c9_bebc, 0x431d_67c4_9c10_0d4c,
     0x4cc5_d4be_cb3e_42b6, 0x597f_299c_fc65_7e2a, 0x5fcb_6fab_3ad6_faec, 0x6c44_198c_4a47_5817]

  /** The first eighty primes. */
  const P0: seq<nat> := [2, 3, 5, 7, 11, 13, 17, 19]
  const P1: seq<nat> := [23, 29, 31, 37, 41, 43, 47, 53]
  const P2: seq<nat> := [59, 61, 67, 71, 73, 79, 83, 89]
  const P3: seq<nat> := [97, 101, 103, 107, 109, 113, 127, 131]
  const P4: seq<nat> := [137, 139, 149, 151, 157, 163, 167, 173]
  const P5: seq<nat> := [179, 181, 191, 193, 197, 199, 211, 223]
  const P6: seq<nat> := [227, 229, 233, 239, 241, 251, 257, 263]
  const P7: seq<nat> := [269, 271, 277, 281, 283, 293, 307, 311]
  const P8: seq<nat> := [313, 317, 331, 337, 347, 349, 353, 359]
  const P9: seq<nat> := [367, 373, 379, 383, 389, 397, 401, 409]

  /** The eighty round constants. */
  const K: seq<nat> := K0 + K1 + K2 + K3 + K4 + K5 + K6 + K7 + K8 + K9

  const PRIMES: seq<nat> := P0 + P1 + P2 + P3 + P4 + P5 + P6 + P7 + P8 + P9

  /** The initial hash values. */
  const SHA384_INITIAL: seq<nat> :=
    [0xcbbb_9d5d_c105_9ed8, 0x629a_292a_367c_d507, 0x9159_015a_3070_dd17, 0x152f_ecd8_f70e_5939,
     0x6733_2667_ffc0_0b31, 0x8eb4_4a87_6858_1511, 0xdb0c_2e0d_64f9_8fa7, 0x47b5_481d_befa_4fa4]

  const SHA512_INITIAL: seq<nat> :=
    [0x6a09_e667_f3bc_c908, 0xbb67_ae85_84ca_a73b, 0x3c6e_f372_fe94_f82b, 0xa54f_f53a_5f1d_36f1,
     0x510e_527f_ade6_82d1, 0x9b05_688c_2b3e_6c1f, 0x1f83_d9ab_fb41_bd6b, 0x5be0_cd19_137e_2179]

  /** Numbers below 2^64 as words. */
  function ToWords(ns: seq<nat>): (ws: Words)
    requires Below(ns)
    ensures |ws| == |ns|
  {
    seq(|ns|, i requires 0 <= i < |ns| => ToWord(ns[i]))
  }

  predicate Below(ns: seq<nat>) { forall i {:trigger ns[i]} :: 0 <= i < |ns| ==> ns[i] < TWO_64 }

  // ---------------------------------------------------------------- roots of primes

  function Cube(n: nat): nat { n * n * n }

  function Square(n: nat): nat { n * n }

  /** `k` are the first 64 bits behind the point of the cube root of `p`, whose integral part is `a`. */
  predicate CubeRootBits(k: nat, p: nat, a: nat) {
    && k < 0x1_0000_0000_0000_0000
    && Cube(a * 0x1_0000_0000_0000_0000 + k) <= p * 0x1_0000_0000_0000_0000_0000_0000_0000_0000_0000_0000_0000_0000
    && p * 0x1_0000_0000_0000_0000_0000_0000_0000_0000_0000_0000_0000_0000 < Cube(a * 0x1_0000_0000_0000_0000 + k + 1)
  }

  /** `k` are the first 64 bits behind the point of the square root of `p`, whose integral part is `a`. */
  predicate SquareRootBits(k: nat, p: nat, a: nat) {
    && k < 0x1_0000_0000_0000_0000
    && Square(a * 0x1_0000_0000_0000_0000 + k) <= p * 0x1_0000_0000_0000_0000_0000_0000_0000_0000
    && p * 0x1_0000_0000_0000_0000_0000_0000_0000_0000 < Square(a * 0x1_0000_0000_0000_0000 + k + 1)
  }

  ghost predicate CubeRoot(k: nat, p: nat) { exists a: nat :: CubeRootBits(k, p, a) }

  ghost predicate SquareRoot(k: nat, p: nat) { exists a: nat :: SquareRootBits(k, p, a) }

  ghost predicate CubeRoots(ks: seq<nat>, ps: seq<nat>) {
    |ks| == |ps| && forall i {:trigger ks[i]} :: 0 <= i < |ks| ==> CubeRoot(ks[i], ps[i])
  }

  ghost predicate SquareRoots(ks: seq<nat>, ps: seq<nat>) {
    |ks| == |ps| && forall i {:trigger ks[i]} :: 0 <= i < |ks| ==> SquareRoot(ks[i], ps[i])
  }

  lemma EightCubeRoots(ks: seq<nat>, ps: seq<nat>, roots: seq<nat>)
    requires |ks| == |ps| == |roots| == 8
    requires CubeRootBits(ks[0], ps[0], roots[0]) && CubeRootBits(ks[1], ps[1], roots[1])
    requires CubeRootBits(ks[2], ps[2], roots[2]) && CubeRootBits(ks[3], ps[3], roots[3])
    requires CubeRootBits(ks[4], ps[4], roots[4]) && CubeRootBits(ks[5], ps[5], roots[5])
    requires CubeRootBits(ks[6], ps[6], roots[6]) && CubeRootBits(ks[7], ps[7], roots[7])
    ensures CubeRoots(ks, ps)
  {
    hide CubeRootBits;
  }

  lemma EightSquareRoots(ks: seq<nat>, ps: seq<nat>, roots: seq<nat>)
    requires |ks| == |ps| == |roots| == 8
    requires SquareRootBits(ks[0], ps[0], roots[0]) && SquareRootBits(ks[1], ps[1], roots[1])
    requires SquareRootBits(ks[2], ps[2], roots[2]) && SquareRootBits(ks[3], ps[3], roots[3])
    requires SquareRootBits(ks[4], ps[4], roots[4]) && SquareRootBits(ks[5], ps[5], roots[5])
    requires SquareRootBits(ks[6], ps[6], roots[6]) && SquareRootBits(ks[7], ps[7], roots[7])
    ensures SquareRoots(ks, ps)
  {
    hide SquareRootBits;
  }

  lemma CubeRoots0Front()
    ensures CubeRootBits(K0[0], P0[0], 1) && CubeRootBits(K0[1], P0[1], 1)
    ensures CubeRootBits(K0[2], P0[2], 1) && CubeRootBits(K0[3], P0[3], 1)
  {
    assert CubeRootBits(0x428a_2f98_d728_ae22, 2, 1);
    assert CubeRootBits(0x7137_4491_23ef_65cd, 3, 1);
    assert CubeRootBits(0xb5c0_fbcf_ec4d_3b2f, 5, 1);
    assert CubeRootBits(0xe9b5_dba5_8189_dbbc, 7, 1);
  }

  lemma CubeRoots0Back()
    ensures CubeRootBits(K0[4], P0[4], 2) && CubeRootBits(K0[5], P0[5], 2)
    ensures CubeRootBits(K0[6], P0[6], 2) && CubeRootBits(K0[7], P0[7], 2)
  {
    assert CubeRootBits(0x3956_c25b_f348_b538, 11, 2);
    assert CubeRootBits(0x59f1_11f1_b605_d019, 13, 2);
    assert CubeRootBits(0x923f_82a4_af19_4f9b, 17, 2);
    assert CubeRootBits(0xab1c_5ed5_da6d_8118, 19, 2);
  }

  lemma CubeRoots0()
    ensures CubeRoots(K0, P0)
  {
    hide CubeRootBits;
    CubeRoots0Front();
    CubeRoots0Back();
    EightCubeRoots(K0, P0, [1, 1, 1, 1, 2, 2, 2, 2]);
  }

  lemma CubeRoots1Front()
    ensures CubeRootBits(K1[0], P1[0], 2) && CubeRootBits(K1[1], P1[1], 3)
    ensures CubeRootBits(K1[2], P1[2], 3) && CubeRootBits(K1[3], P1[3], 3)
  {
    assert CubeRootBits(0xd807_aa98_a303_0242, 23, 2);
    assert CubeRootBits(0x1283_5b01_4570_6fbe, 29, 3);
    assert CubeRootBits(0x2431_85be_4ee4_b28c, 31, 3);
    assert CubeRootBits(0x550c_7dc3_d5ff_b4e2, 37, 3);
  }

  lemma CubeRoots1Back()
    ensures CubeRootBits(K1[4], P1[4], 3) && CubeRootBits(K1[5], P1[5], 3)
    ensures CubeRootBits(K1[6], P1[6], 3) && CubeRootBits(K1[7], P1[7], 3)
  {
    assert CubeRootBits(0x72be_5d74_f27b_896f, 41, 3);
    assert CubeRootBits(0x80de_b1fe_3b16_96b1, 43, 3);
    assert CubeRootBits(0x9bdc_06a7_25c7_1235, 47, 3);
    assert CubeRootBits(0xc19b_f174_cf69_2694, 53, 3);
  }

  lemma CubeRoots1()
    ensures CubeRoots(K1, P1)
  {
    hide CubeRootBits;
    CubeRoots1Front();
    CubeRoots1Back();
    EightCubeRoots(K1, P1, [2, 3, 3, 3, 3, 3, 3, 3]);
  }

  lemma CubeRoots2Front()
    ensures CubeRootBits(K2[0], P2[0], 3) && CubeRootBits(K2[1], P2[1], 3)
    ensures CubeRootBits(K2[2], P2[2], 4) && CubeRootBits(K2[3], P2[3], 4)
  {
    assert CubeRootBits(0xe49b_69c1_9ef1_4ad2, 59, 3);
    assert CubeRootBits(0xefbe_4786_384f_25e3, 61, 3);
    assert CubeRootBits(0x0fc1_9dc6_8b8c_d5b5, 67, 4);
    assert CubeRootBits(0x240c_a1cc_77ac_9c65, 71, 4);
  }

  lemma CubeRoots2Back()
    ensures CubeRootBits(K2[4], P2[4], 4) && CubeRootBits(K2[5], P2[5], 4)
    ensures CubeRootBits(K2[6], P2[6], 4) && CubeRootBits(K2[7], P2[7], 4)
  {
    assert CubeRootBits(0x2de9_2c6f_592b_0275, 73, 4);
    assert CubeRootBits(0x4a74_84aa_6ea6_e483, 79, 4);
    assert CubeRootBits(0x5cb0_a9dc_bd41_fbd4, 83, 4);
    assert CubeRootBits(0x76f9_88da_8311_53b5, 89, 4);
  }

  lemma CubeRoots2()
    ensures CubeRoots(K2, P2)
  {
    hide CubeRootBits;
    CubeRoots2Front();
    CubeRoots2Back();
    EightCubeRoots(K2, P2, [3, 3, 4, 4, 4, 4, 4, 4]);
  }

  lemma CubeRoots3Front()
    ensures CubeRootBits(K3[0], P3[0], 4) && CubeRootBits(K3[1], P3[1], 4)
    ensures CubeRootBits(K3[2], P3[2], 4) && CubeRootBits(K3[3], P3[3], 4)
  {
    assert CubeRootBits(0x983e_5152_ee66_dfab, 97, 4);
    assert CubeRootBits(0xa831_c66d_2db4_3210, 101, 4);
    assert CubeRootBits(0xb003_27c8_98fb_213f, 103, 4);
    assert CubeRootBits(0xbf59_7fc7_beef_0ee4, 107, 4);
  }

  lemma CubeRoots3Back()
    ensures CubeRootBits(K3[4], P3[4], 4) && CubeRootBits(K3[5], P3[5], 4)
    ensures CubeRootBits(K3[6], P3[6], 5) && CubeRootBits(K3[7], P3[7], 5)
  {
    assert CubeRootBits(0xc6e0_0bf3_3da8_8fc2, 109, 4);
    assert CubeRootBits(0xd5a7_9147_930a_a725, 113, 4);
    assert CubeRootBits(0x06ca_6351_e003_826f, 127, 5);
    assert CubeRootBits(0x1429_2967_0a0e_6e70, 131, 5);
  }

  lemma CubeRoots3()
    ensures CubeRoots(K3, P3)
  {
    hide CubeRootBits;
    CubeRoots3Front();
    CubeRoots3Back();
    EightCubeRoots(K3, P3, [4, 4, 4, 4, 4, 4, 5, 5]);
  }

  lemma CubeRoots4Front()
    ensures CubeRootBits(K4[0], P4[0], 5) && CubeRootBits(K4[1], P4[1], 5)
    ensures CubeRootBits(K4[2], P4[2], 5) && CubeRootBits(K4[3], P4[3], 5)
  {
    assert CubeRootBits(0x27b7_0a85_46d2_2ffc, 137, 5);
    assert CubeRootBits(0x2e1b_2138_5c26_c926, 139, 5);
    assert CubeRootBits(0x4d2c_6dfc_5ac4_2aed, 149, 5);
    assert CubeRootBits(0x5338_0d13_9d95_b3df, 151, 5);
  }

  lemma CubeRoots4Back()
    ensures CubeRootBits(K4[4], P4[4], 5) && CubeRootBits(K4[5], P4[5], 5)
    ensures CubeRootBits(K4[6], P4[6], 5) && CubeRootBits(K4[7], P4[7], 5)
  {
    assert CubeRootBits(0x650a_7354_8baf_63de, 157, 5);
    assert CubeRootBits(0x766a_0abb_3c77_b2a8, 163, 5);
    assert CubeRootBits(0x81c2_c92e_47ed_aee6, 167, 5);
    assert CubeRootBits(0x9272_2c85_1482_353b, 173, 5);
  }

  lemma CubeRoots4()
    ensures CubeRoots(K4, P4)
  {
    hide CubeRootBits;
    CubeRoots4Front();
    CubeRoots4Back();
    EightCubeRoots(K4, P4, [5, 5, 5, 5, 5, 5, 5, 5]);
  }

  lemma CubeRoots5Front()
    ensures CubeRootBits(K5[0], P5[0], 5) && CubeRootBits(K5[1], P5[1], 5)
    ensures CubeRootBits(K5[2], P5[2], 5) && CubeRootBits(K5[3], P5[3], 5)
  {
    assert CubeRootBits(0xa2bf_e8a1_4cf1_0364, 179, 5);
    assert CubeRootBits(0xa81a_664b_bc42_3001, 181, 5);
    assert CubeRootBits(0xc24b_8b70_d0f8_9791, 191, 5);
    assert CubeRootBits(0xc76c_51a3_0654_be30, 193, 5);
  }

  lemma CubeRoots5Back()
    ensures CubeRootBits(K5[4], P5[4], 5) && CubeRootBits(K5[5], P5[5], 5)
    ensures CubeRootBits(K5[6], P5[6], 5) && CubeRootBits(K5[7], P5[7], 6)
  {
    assert CubeRootBits(0xd192_e819_d6ef_5218, 197, 5);
    assert CubeRootBits(0xd699_0624_5565_a910, 199, 5);
    assert CubeRootBits(0xf40e_3585_5771_202a, 211, 5);
    assert CubeRootBits(0x106a_a070_32bb_d1b8, 223, 6);
  }

  lemma CubeRoots5()
    ensures CubeRoots(K5, P5)
  {
    hide CubeRootBits;
    CubeRoots5Front();
    CubeRoots5Back();
    EightCubeRoots(K5, P5, [5, 5, 5, 5, 5, 5, 5, 6]);
  }

  lemma CubeRoots6Front()
    ensures CubeRootBits(K6[0], P6[0], 6) && CubeRootBits(K6[1], P6[1], 6)
    ensures CubeRootBits(K6[2], P6[2], 6) && CubeRootBits(K6[3], P6[3], 6)
  {
    assert CubeRootBits(0x19a4_c116_b8d2_d0c8, 227, 6);
    assert CubeRootBits(0x1e37_6c08_5141_ab53, 229, 6);
    assert CubeRootBits(0x2748_774c_df8e_eb99, 233, 6);
    assert CubeRootBits(0x34b0_bcb5_e19b_48a8, 239, 6);
  }

  lemma CubeRoots6Back()
    ensures CubeRootBits(K6[4], P6[4], 6) && CubeRootBits(K6[5], P6[5], 6)
    ensures CubeRootBits(K6[6], P6[6], 6) && CubeRootBits(K6[7], P6[7], 6)
  {
    assert CubeRootBits(0x391c_0cb3_c5c9_5a63, 241, 6);
    assert CubeRootBits(0x4ed8_aa4a_e341_8acb, 251, 6);
    assert CubeRootBits(0x5b9c_ca4f_7763_e373, 257, 6);
    assert CubeRootBits(0x682e_6ff3_d6b2_b8a3, 263, 6);
  }

  lemma CubeRoots6()
    ensures CubeRoots(K6, P6)
  {
    hide CubeRootBits;
    CubeRoots6Front();
    CubeRoots6Back();
    EightCubeRoots(K6, P6, [6, 6, 6, 6, 6, 6, 6, 6]);
  }

  lemma CubeRoots7Front()
    ensures CubeRootBits(K7[0], P7[0], 6) && CubeRootBits(K7[1], P7[1], 6)
    ensures CubeRootBits(K7[2], P7[2], 6) && CubeRootBits(K7[3], P7[3], 6)
  {
    assert CubeRootBits(0x748f_82ee_5def_b2fc, 269, 6);
    assert CubeRootBits(0x78a5_636f_4317_2f60, 271, 6);
    assert CubeRootBits(0x84c8_7814_a1f0_ab72, 277, 6);
    assert CubeRootBits(0x8cc7_0208_1a64_39ec, 281, 6);
  }

  lemma CubeRoots7Back()
    ensures CubeRootBits(K7[4], P7[4], 6) && CubeRootBits(K7[5], P7[5], 6)
    ensures CubeRootBits(K7[6], P7[6], 6) && CubeRootBits(K7[7], P7[7], 6)
  {
    assert CubeRootBits(0x90be_fffa_2363_1e28, 283, 6);
    assert CubeRootBits(0xa450_6ceb_de82_bde9, 293, 6);
    assert CubeRootBits(0xbef9_a3f7_b2c6_7915, 307, 6);
    assert CubeRootBits(0xc671_78f2_e372_532b, 311, 6);
  }

  lemma CubeRoots7()
    ensures CubeRoots(K7, P7)
  {
    hide CubeRootBits;
    CubeRoots7Front();
    CubeRoots7Back();
    EightCubeRoots(K7, P7, [6, 6, 6, 6, 6, 6, 6, 6]);
  }

  lemma CubeRoots8Front()
    ensures CubeRootBits(K8[0], P8[0], 6) && CubeRootBits(K8[1], P8[1], 6)
    ensures CubeRootBits(K8[2], P8[2], 6) && CubeRootBits(K8[3], P8[3], 6)
  {
    assert CubeRootBits(0xca27_3ece_ea26_619c, 313, 6);
    assert CubeRootBits(0xd186_b8c7_21c0_c207, 317, 6);
    assert CubeRootBits(0xeada_7dd6_cde0_eb1e, 331, 6);
    assert CubeRootBits(0xf57d_4f7f_ee6e_d178, 337, 6);
  }

  lemma CubeRoots8Back()
    ensures CubeRootBits(K8[4], P8[4], 7) && CubeRootBits(K8[5], P8[5], 7)
    ensures CubeRootBits(K8[6], P8[6], 7) && CubeRootBits(K8[7], P8[7], 7)
  {
    assert CubeRootBits(0x06f0_67aa_7217_6fba, 347, 7);
    assert CubeRootBits(0x0a63_7dc5_a2c8_98a6, 349, 7);
    assert CubeRootBits(0x113f_9804_bef9_0dae, 353, 7);
    assert CubeRootBits(0x1b71_0b35_131c_471b, 359, 7);
  }

  lemma CubeRoots8()
    ensures CubeRoots(K8, P8)
  {
    hide CubeRootBits;
    CubeRoots8Front();
    CubeRoots8Back();
    EightCubeRoots(K8, P8, [6, 6, 6, 6, 7, 7, 7, 7]);
  }

  lemma CubeRoots9Front()
    ensures CubeRootBits(K9[0], P9[0], 7) && CubeRootBits(K9[1], P9[1], 7)
    ensures CubeRootBits(K9[2], P9[2], 7) && CubeRootBits(K9[3], P9[3], 7)
  {
    assert CubeRootBits(0x28db_77f5_2304_7d84, 367, 7);
    assert CubeRootBits(0x32ca_ab7b_40c7_2493, 373, 7);
    assert CubeRootBits(0x3c9e_be0a_15c9_bebc, 379, 7);
    assert CubeRootBits(0x431d_67c4_9c10_0d4c, 383, 7);
  }

  lemma CubeRoots9Back()
    ensures CubeRootBits(K9[4], P9[4], 7) && CubeRootBits(K9[5], P9[5], 7)
    ensures CubeRootBits(K9[6], P9[6], 7) && CubeRootBits(K9[7], P9[7], 7)
  {
    assert CubeRootBits(0x4cc5_d4be_cb3e_42b6, 389, 7);
    assert CubeRootBits(0x597f_299c_fc65_7e2a, 397, 7);
    assert CubeRootBits(0x5fcb_6fab_3ad6_faec, 401, 7);
    assert CubeRootBits(0x6c44_198c_4a47_5817, 409, 7);
  }

  lemma CubeRoots9()
    ensures CubeRoots(K9, P9)
  {
    hide CubeRootBits;
    CubeRoots9Front();
    CubeRoots9Back();
    EightCubeRoots(K9, P9, [7, 7, 7, 7, 7, 7, 7, 7]);
  }

  lemma SquareRoots384Front()
    ensures SquareRootBits(SHA384_INITIAL[0], P1[0], 4) && SquareRootBits(SHA384_INITIAL[1], P1[1], 5)
    ensures SquareRootBits(SHA384_INITIAL[2], P1[2], 5) && SquareRootBits(SHA384_INITIAL[3], P1[3], 6)
  {
    assert SquareRootBits(0xcbbb_9d5d_c105_9ed8, 23, 4);
    assert SquareRootBits(0x629a_292a_367c_d507, 29, 5);
    assert SquareRootBits(0x9159_015a_3070_dd17, 31, 5);
    assert SquareRootBits(0x152f_ecd8_f70e_5939, 37, 6);
  }

  lemma SquareRoots384Back()
    ensures SquareRootBits(SHA384_INITIAL[4], P1[4], 6) && SquareRootBits(SHA384_INITIAL[5], P1[5], 6)
    ensures SquareRootBits(SHA384_INITIAL[6], P1[6], 6) && SquareRootBits(SHA384_INITIAL[7], P1[7], 7)
  {
    assert SquareRootBits(0x6733_2667_ffc0_0b31, 41, 6);
    assert SquareRootBits(0x8eb4_4a87_6858_1511, 43, 6);
    assert SquareRootBits(0xdb0c_2e0d_64f9_8fa7, 47, 6);
    assert SquareRootBits(0x47b5_481d_befa_4fa4, 53, 7);
  }

  lemma SquareRoots384()
    ensures SquareRoots(SHA384_INITIAL, P1)
  {
    hide SquareRootBits;
    SquareRoots384Front();
    SquareRoots384Back();
    EightSquareRoots(SHA384_INITIAL, P1, [4, 5, 5, 6, 6, 6, 6, 7]);
  }

  lemma SquareRoots512Front()
    ensures SquareRootBits(SHA512_INITIAL[0], P0[0], 1) && SquareRootBits(SHA512_INITIAL[1], P0[1], 1)
    ensures SquareRootBits(SHA512_INITIAL[2], P0[2], 2) && SquareRootBits(SHA512_INITIAL[3], P0[3], 2)
  {
    assert SquareRootBits(0x6a09_e667_f3bc_c908, 2, 1);
    assert SquareRootBits(0xbb67_ae85_84ca_a73b, 3, 1);
    assert SquareRootBits(0x3c6e_f372_fe94_f82b, 5, 2);
    assert SquareRootBits(0xa54f_f53a_5f1d_36f1, 7, 2);
  }

  lemma SquareRoots512Back()
    ensures SquareRootBits(SHA512_INITIAL[4], P0[4], 3) && SquareRootBits(SHA512_INITIAL[5], P0[5], 3)
    ensures SquareRootBits(SHA512_INITIAL[6], P0[6], 4) && SquareRootBits(SHA512_INITIAL[7], P0[7], 4)
  {
    assert SquareRootBits(0x510e_527f_ade6_82d1, 11, 3);
    assert SquareRootBits(0x9b05_688c_2b3e_6c1f, 13, 3);
    assert SquareRootBits(0x1f83_d9ab_fb41_bd6b, 17, 4);
    assert SquareRootBits(0x5be0_cd19_137e_2179, 19, 4);
  }

  lemma SquareRoots512()
    ensures SquareRoots(SHA512_INITIAL, P0)
  {
    hide SquareRootBits;
    SquareRoots512Front();
    SquareRoots512Back();
    EightSquareRoots(SHA512_INITIAL, P0, [1, 1, 2, 2, 3, 3, 4, 4]);
  }

  lemma RootsConcat(ks: seq<nat>, ps: seq<nat>, ks': seq<nat>, ps': seq<nat>)
    requires CubeRoots(ks, ps) && CubeRoots(ks', ps')
    ensures CubeRoots(ks + ks', ps + ps')
  {
    hide CubeRoot;
  }

  /** Section 4.2.3: the round constants are the first 64 bits of the fractional parts of the cube roots. */
  lemma RoundConstants()
    ensures |K| == 80 && CubeRoots(K, PRIMES)
  {
    hide CubeRoots;
    CubeRoots0();
    CubeRoots1();
    CubeRoots2();
    CubeRoots3();
    CubeRoots4();
    CubeRoots5();
    CubeRoots6();
    CubeRoots7();
    CubeRoots8();
    CubeRoots9();
    RootsConcat(K0, P0, K1, P1);
    RootsConcat(K0 + K1, P0 + P1, K2, P2);
    RootsConcat(K0 + K1 + K2, P0 + P1 + P2, K3, P3);
    RootsConcat(K0 + K1 + K2 + K3, P0 + P1 + P2 + P3, K4, P4);
    RootsConcat(K0 + K1 + K2 + K3 + K4, P0 + P1 + P2 + P3 + P4, K5, P5);
    RootsConcat(K0 + K1 + K2 + K3 + K4 + K5, P0 + P1 + P2 + P3 + P4 + P5, K6, P6);
    RootsConcat(K0 + K1 + K2 + K3 + K4 + K5 + K6, P0 + P1 + P2 + P3 + P4 + P5 + P6, K7, P7);
    RootsConcat(K0 + K1 + K2 + K3 + K4 + K5 + K6 + K7, P0 + P1 + P2 + P3 + P4 + P5 + P6 + P7, K8, P8);
    RootsConcat(K0 + K1 + K2 + K3 + K4 + K5 + K6 + K7 + K8, P0 + P1 + P2 + P3 + P4 + P5 + P6 + P7 + P8, K9, P9);
  }

  /** Roots of primes have 64 such bits, and not more. */
  lemma ConstantsAreWords()
    ensures Below(K) && Below(SHA384_INITIAL) && Below(SHA512_INITIAL)
  {
    hide Cube, Square;
    RoundConstants();
    SquareRoots384();
    SquareRoots512();
  }

  lemma WordsBack(ns: seq<nat>, i: nat)
    requires Below(ns) && i < |ns|
    ensures Number(ToWords(ns)[i]) == ns[i]
  {
    hide Number, ToWord;
    WordBack(ns[i]);
  }
}
