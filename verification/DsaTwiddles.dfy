/** The ML-DSA twiddle table of the transform engine (rtl/lca_ntt_zetas.svh:5-268), and
    why it is the table of section 7.5 of FIPS 204 times 2^32. */
module DsaTwiddles {
  import opened Numbers
  import opened Field
  import opened DsaField
  import opened Twiddles

  /** mldsa_zeta, sixteen entries a row. */
  function DsaZeta(index: nat): int {
    var row, i := index / 16, index % 16;
    match row
    case 0 => Of16(i, 0, 25847, -2608894, -518909, 237124, -777960, -876248, 466468,
                  1826347, 2353451, -359251, -2091905, 3119733, -2884855, 3111497, 2680103)
    case 1 => Of16(i, 2725464, 1024112, -1079900, 3585928, -549488, -1119584, 2619752, -2108549,
                  -2118186, -3859737, -1399561, -3277672, 1757237, -19422, 4010497, 280005)
    case 2 => Of16(i, 2706023, 95776, 3077325, 3530437, -1661693, -3592148, -2537516, 3915439,
                  -3861115, -3043716, 3574422, -2867647, 3539968, -300467, 2348700, -539299)
    case 3 => Of16(i, -1699267, -1643818, 3505694, -3821735, 3507263, -2140649, -1600420, 3699596,
                  811944, 531354, 954230, 3881043, 3900724, -2556880, 2071892, -2797779)
    case 4 => Of16(i, -3930395, -1528703, -3677745, -3041255, -1452451, 3475950, 2176455, -1585221,
                  -1257611, 1939314, -4083598, -1000202, -3190144, -3157330, -3632928, 126922)
    case 5 => Of16(i, 3412210, -983419, 2147896, 2715295, -2967645, -3693493, -411027, -2477047,
                  -671102, -1228525, -22981, -1308169, -381987, 1349076, 1852771, -1430430)
    case 6 => Of16(i, -3343383, 264944, 508951, 3097992, 44288, -1100098, 904516, 3958618,
                  -3724342, -8578, 1653064, -3249728, 2389356, -210977, 759969, -1316856)
    case 7 => Of16(i, 189548, -3553272, 3159746, -1851402, -2409325, -177440, 1315589, 1341330,
                  1285669, -1584928, -812732, -1439742, -3019102, -3881060, -3628969, 3839961)
    case 8 => Of16(i, 2091667, 3407706, 2316500, 3817976, -3342478, 2244091, -2446433, -3562462,
                  266997, 2434439, -1235728, 3513181, -3520352, -3759364, -1197226, -3193378)
    case 9 => Of16(i, 900702, 1859098, 909542, 819034, 495491, -1613174, -43260, -522500,
                  -655327, -3122442, 2031748, 3207046, -3556995, -525098, -768622, -3595838)
    case 10 => Of16(i, 342297, 286988, -2437823, 4108315, 3437287, -3342277, 1735879, 203044,
                  2842341, 2691481, -2590150, 1265009, 4055324, 1247620, 2486353, 1595974)
    case 11 => Of16(i, -3767016, 1250494, 2635921, -3548272, -2994039, 1869119, 1903435, -1050970,
                  -1333058, 1237275, -3318210, -1430225, -451100, 1312455, 3306115, -1962642)
    case 12 => Of16(i, -1279661, 1917081, -2546312, -1374803, 1500165, 777191, 2235880, 3406031,
                  -542412, -2831860, -1671176, -1846953, -2584293, -3724270, 594136, -3776993)
    case 13 => Of16(i, -2013608, 2432395, 2454455, -164721, 1957272, 3369112, 185531, -1207385,
                  -3183426, 162844, 1616392, 3014001, 810149, 1652634, -3694233, -1799107)
    case 14 => Of16(i, -3038916, 3523897, 3866901, 269760, 2213111, -975884, 1717735, 472078,
                  -426683, 1723600, -1803090, 1910376, -1667432, -1104333, -260646, -3833893)
    case 15 => Of16(i, -2939036, -2235985, -420899, -2286327, 183443, -976891, 1612842, -3545687,
                  -554416, 3919660, -48306, -1362209, 3937738, 1400424, -846154, 1976782)
    case _ => 0
  }

  function Of16(i: int, v0: int, v1: int, v2: int, v3: int, v4: int, v5: int, v6: int, v7: int,
                v8: int, v9: int, v10: int, v11: int, v12: int, v13: int, v14: int, v15: int): int {
    match i
    case 0 => v0
    case 1 => v1
    case 2 => v2
    case 3 => v3
    case 4 => v4
    case 5 => v5
    case 6 => v6
    case 7 => v7
    case 8 => v8
    case 9 => v9
    case 10 => v10
    case 11 => v11
    case 12 => v12
    case 13 => v13
    case 14 => v14
    case _ => v15
  }

  /** Entry 0 is never used and left zero in the table; the power it stands for is 1. */
  function Entry(v: nat): int {
    if v == 0 then 4193792 else DsaZeta(v)
  }

  /** An entry is the one without its top bit times a power of 1753. */
  lemma Row0(v: nat)
    requires v < 1
    ensures DsaCong(Entry(v + 1), Entry(v) * 4808194)
  {
    match v
    case 0 =>
  }

  lemma Row1(v: nat)
    requires v < 2
    ensures DsaCong(Entry(v + 2), Entry(v) * 3765607)
  {
    match v
    case 0 => case 1 =>
  }

  lemma Row2(v: nat)
    requires v < 4
    ensures DsaCong(Entry(v + 4), Entry(v) * 5178923)
  {
    match v
    case 0 => case 1 => case 2 => case 3 =>
  }

  lemma Row3(v: nat)
    requires v < 8
    ensures DsaCong(Entry(v + 8), Entry(v) * 7778734)
  {
    match v
    case 0 => case 1 => case 2 => case 3 => case 4 => case 5 => case 6 => case 7 =>
  }

  lemma Row4(v: nat)
    requires v < 16
    ensures DsaCong(Entry(v + 16), Entry(v) * 5010068)
  {
    match v
    case 0 => case 1 => case 2 => case 3 => case 4 => case 5 => case 6 => case 7 =>
    case 8 => case 9 => case 10 => case 11 => case 12 => case 13 => case 14 => case 15 =>
  }

  lemma Row5From0(v: nat)
    requires v < 16
    ensures DsaCong(Entry(v + 32), Entry(v) * 3602218)
  {
    match v
    case 0 => case 1 => case 2 => case 3 => case 4 => case 5 => case 6 => case 7 =>
    case 8 => case 9 => case 10 => case 11 => case 12 => case 13 => case 14 => case 15 =>
  }

  lemma Row5From16(v: nat)
    requires 16 <= v < 32
    ensures DsaCong(Entry(v + 32), Entry(v) * 3602218)
  {
    match v
    case 16 => case 17 => case 18 => case 19 => case 20 => case 21 => case 22 => case 23 =>
    case 24 => case 25 => case 26 => case 27 => case 28 => case 29 => case 30 => case 31 =>
  }

  lemma Row6From0(v: nat)
    requires v < 16
    ensures DsaCong(Entry(v + 64), Entry(v) * 3073009)
  {
    match v
    case 0 => case 1 => case 2 => case 3 => case 4 => case 5 => case 6 => case 7 =>
    case 8 => case 9 => case 10 => case 11 => case 12 => case 13 => case 14 => case 15 =>
  }

  lemma Row6From16(v: nat)
    requires 16 <= v < 32
    ensures DsaCong(Entry(v + 64), Entry(v) * 3073009)
  {
    match v
    case 16 => case 17 => case 18 => case 19 => case 20 => case 21 => case 22 => case 23 =>
    case 24 => case 25 => case 26 => case 27 => case 28 => case 29 => case 30 => case 31 =>
  }

  lemma Row6From32(v: nat)
    requires 32 <= v < 48
    ensures DsaCong(Entry(v + 64), Entry(v) * 3073009)
  {
    match v
    case 32 => case 33 => case 34 => case 35 => case 36 => case 37 => case 38 => case 39 =>
    case 40 => case 41 => case 42 => case 43 => case 44 => case 45 => case 46 => case 47 =>
  }

  lemma Row6From48(v: nat)
    requires 48 <= v < 64
    ensures DsaCong(Entry(v + 64), Entry(v) * 3073009)
  {
    match v
    case 48 => case 49 => case 50 => case 51 => case 52 => case 53 => case 54 => case 55 =>
    case 56 => case 57 => case 58 => case 59 => case 60 => case 61 => case 62 => case 63 =>
  }

  lemma Row7From0(v: nat)
    requires v < 16
    ensures DsaCong(Entry(v + 128), Entry(v) * 1753)
  {
    match v
    case 0 => case 1 => case 2 => case 3 => case 4 => case 5 => case 6 => case 7 =>
    case 8 => case 9 => case 10 => case 11 => case 12 => case 13 => case 14 => case 15 =>
  }

  lemma Row7From16(v: nat)
    requires 16 <= v < 32
    ensures DsaCong(Entry(v + 128), Entry(v) * 1753)
  {
    match v
    case 16 => case 17 => case 18 => case 19 => case 20 => case 21 => case 22 => case 23 =>
    case 24 => case 25 => case 26 => case 27 => case 28 => case 29 => case 30 => case 31 =>
  }

  lemma Row7From32(v: nat)
    requires 32 <= v < 48
    ensures DsaCong(Entry(v + 128), Entry(v) * 1753)
  {
    match v
    case 32 => case 33 => case 34 => case 35 => case 36 => case 37 => case 38 => case 39 =>
    case 40 => case 41 => case 42 => case 43 => case 44 => case 45 => case 46 => case 47 =>
  }

  lemma Row7From48(v: nat)
    requires 48 <= v < 64
    ensures DsaCong(Entry(v + 128), Entry(v) * 1753)
  {
    match v
    case 48 => case 49 => case 50 => case 51 => case 52 => case 53 => case 54 => case 55 =>
    case 56 => case 57 => case 58 => case 59 => case 60 => case 61 => case 62 => case 63 =>
  }

  lemma Row7From64(v: nat)
    requires 64 <= v < 80
    ensures DsaCong(Entry(v + 128), Entry(v) * 1753)
  {
    match v
    case 64 => case 65 => case 66 => case 67 => case 68 => case 69 => case 70 => case 71 =>
    case 72 => case 73 => case 74 => case 75 => case 76 => case 77 => case 78 => case 79 =>
  }

  lemma Row7From80(v: nat)
    requires 80 <= v < 96
    ensures DsaCong(Entry(v + 128), Entry(v) * 1753)
  {
    match v
    case 80 => case 81 => case 82 => case 83 => case 84 => case 85 => case 86 => case 87 =>
    case 88 => case 89 => case 90 => case 91 => case 92 => case 93 => case 94 => case 95 =>
  }

  lemma Row7From96(v: nat)
    requires 96 <= v < 112
    ensures DsaCong(Entry(v + 128), Entry(v) * 1753)
  {
    match v
    case 96 => case 97 => case 98 => case 99 => case 100 => case 101 => case 102 => case 103 =>
    case 104 => case 105 => case 106 => case 107 => case 108 => case 109 => case 110 => case 111 =>
  }

  lemma Row7From112(v: nat)
    requires 112 <= v < 128
    ensures DsaCong(Entry(v + 128), Entry(v) * 1753)
  {
    match v
    case 112 => case 113 => case 114 => case 115 => case 116 => case 117 => case 118 => case 119 =>
    case 120 => case 121 => case 122 => case 123 => case 124 => case 125 => case 126 => case 127 =>
  }

  lemma Row5(v: nat)
    requires v < 32
    ensures DsaCong(Entry(v + 32), Entry(v) * 3602218)
  {
    hide Entry, DsaCong;
    if v < 16 {
      Row5From0(v);
    } else {
      Row5From16(v);
    }
  }

  lemma Row6(v: nat)
    requires v < 64
    ensures DsaCong(Entry(v + 64), Entry(v) * 3073009)
  {
    hide Entry, DsaCong;
    if v < 16 {
      Row6From0(v);
    } else if v < 32 {
      Row6From16(v);
    } else if v < 48 {
      Row6From32(v);
    } else {
      Row6From48(v);
    }
  }

  lemma Row7(v: nat)
    requires v < 128
    ensures DsaCong(Entry(v + 128), Entry(v) * 1753)
  {
    hide Entry, DsaCong;
    if v < 16 {
      Row7From0(v);
    } else if v < 32 {
      Row7From16(v);
    } else if v < 48 {
      Row7From32(v);
    } else if v < 64 {
      Row7From48(v);
    } else if v < 80 {
      Row7From64(v);
    } else if v < 96 {
      Row7From80(v);
    } else if v < 112 {
      Row7From96(v);
    } else {
      Row7From112(v);
    }
  }

  /** The twiddle factor 1753^BitRev8(k), section 7.5 of FIPS 204. */
  function Power(k: nat): int {
    Pow(1753, BitRev(k, 8))
  }

  /** One entry from the entry without its top bit. */
  lemma EntryFromLower(v: nat, j: nat, s: nat, e: nat, factor: int)
    requires j < 8 && s == Pow2(j) && e == Pow2(7 - j) && v < s
    requires DsaCong(Pow(1753, e), factor) && DsaCong(Entry(v), Power(v) * 0x1_0000_0000)
    requires DsaCong(Entry(v + s), Entry(v) * factor)
    ensures DsaCong(Entry(v + s), Power(v + s) * 0x1_0000_0000)
  {
    hide DsaCong, Pow, BitRev, Entry, Pow2;
    BitRevTop(v, j, 8);
    PowAdds(1753, BitRev(v, 8), e);
    ScaledEntry(Entry(v + s), Entry(v), Power(v), Pow(1753, e), factor);
  }

  lemma ScaledEntry(t': int, t: int, p: int, w: int, factor: int)
    requires DsaCong(t', t * factor) && DsaCong(t, p * 0x1_0000_0000) && DsaCong(w, factor)
    ensures DsaCong(t', p * w * 0x1_0000_0000)
  {
    hide DsaCong;
    DsaSymmetric(w, factor);
    DsaMul(t, p * 0x1_0000_0000, factor, w);
    assert p * 0x1_0000_0000 * w == p * w * 0x1_0000_0000;
    DsaTransitive(t', t * factor, p * w * 0x1_0000_0000);
  }

  lemma EntryZero()
    ensures DsaCong(Entry(0), Power(0) * 0x1_0000_0000)
  {
    BitRevOfZero(8);
    hide BitRev;
    assert Pow(1753, 0) == 1;
  }

  /** Every entry but the unused one is 1753^BitRev8(k) in Montgomery form. */
  lemma {:induction false} EntryIsMontgomery(k: nat)
    requires k < 256
    ensures DsaCong(Entry(k), Power(k) * 0x1_0000_0000)
    decreases k
  {
    PowersOfTwo();
    Pow2Small();
    DsaRootPowers();
    hide DsaCong, Pow, Pow2, BitRev, Entry, Power;
    if k == 0 {
      EntryZero();
    } else if k < 2 {
      EntryIsMontgomery(k - 1);
      Row0(k - 1);
      EntryFromLower(k - 1, 0, 1, 128, 4808194);
    } else if k < 4 {
      EntryIsMontgomery(k - 2);
      Row1(k - 2);
      EntryFromLower(k - 2, 1, 2, 64, 3765607);
    } else if k < 8 {
      EntryIsMontgomery(k - 4);
      Row2(k - 4);
      EntryFromLower(k - 4, 2, 4, 32, 5178923);
    } else if k < 16 {
      EntryIsMontgomery(k - 8);
      Row3(k - 8);
      EntryFromLower(k - 8, 3, 8, 16, 7778734);
    } else if k < 32 {
      EntryIsMontgomery(k - 16);
      Row4(k - 16);
      EntryFromLower(k - 16, 4, 16, 8, 5010068);
    } else if k < 64 {
      EntryIsMontgomery(k - 32);
      Row5(k - 32);
      EntryFromLower(k - 32, 5, 32, 4, 3602218);
    } else if k < 128 {
      EntryIsMontgomery(k - 64);
      Row6(k - 64);
      EntryFromLower(k - 64, 6, 64, 2, 3073009);
    } else {
      EntryIsMontgomery(k - 128);
      Row7(k - 128);
      EntryFromLower(k - 128, 7, 128, 1, 1753);
    }
  }

  lemma DsaTableIsMontgomery(k: nat)
    requires 0 < k < 256
    ensures DsaCong(DsaZeta(k), Power(k) * 0x1_0000_0000)
  {
    hide DsaCong, Power, DsaZeta;
    EntryIsMontgomery(k);
  }

  /** No entry is larger than half the modulus. */
  lemma DsaZetaSmall(k: nat)
    requires k < 256
    ensures -4190208 <= DsaZeta(k) <= 4190208
  {
  }
}
