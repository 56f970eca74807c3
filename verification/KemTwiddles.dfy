/** The Montgomery twiddle table that the firmware and the accelerator share
    (firmware/ntt_mmio.c:14-31, rtl/lca_ntt_zetas.svh:270-405), and why it is the
    table of FIPS 203 times 2^16. */
module KemTwiddles {
  import opened Numbers
  import opened Field
  import opened Twiddles
  import opened NttLayers
  import opened NttInverse

  function KemZeta(index: nat): int {
    match index
    case 0 => -1044
    case 1 => -758
    case 2 => -359
    case 3 => -1517
    case 4 => 1493
    case 5 => 1422
    case 6 => 287
    case 7 => 202
    case 8 => -171
    case 9 => 622
    case 10 => 1577
    case 11 => 182
    case 12 => 962
    case 13 => -1202
    case 14 => -1474
    case 15 => 1468
    case 16 => 573
    case 17 => -1325
    case 18 => 264
    case 19 => 383
    case 20 => -829
    case 21 => 1458
    case 22 => -1602
    case 23 => -130
    case 24 => -681
    case 25 => 1017
    case 26 => 732
    case 27 => 608
    case 28 => -1542
    case 29 => 411
    case 30 => -205
    case 31 => -1571
    case 32 => 1223
    case 33 => 652
    case 34 => -552
    case 35 => 1015
    case 36 => -1293
    case 37 => 1491
    case 38 => -282
    case 39 => -1544
    case 40 => 516
    case 41 => -8
    case 42 => -320
    case 43 => -666
    case 44 => -1618
    case 45 => -1162
    case 46 => 126
    case 47 => 1469
    case 48 => -853
    case 49 => -90
    case 50 => -271
    case 51 => 830
    case 52 => 107
    case 53 => -1421
    case 54 => -247
    case 55 => -951
    case 56 => -398
    case 57 => 961
    case 58 => -1508
    case 59 => -725
    case 60 => 448
    case 61 => -1065
    case 62 => 677
    case 63 => -1275
    case 64 => -1103
    case 65 => 430
    case 66 => 555
    case 67 => 843
    case 68 => -1251
    case 69 => 871
    case 70 => 1550
    case 71 => 105
    case 72 => 422
    case 73 => 587
    case 74 => 177
    case 75 => -235
    case 76 => -291
    case 77 => -460
    case 78 => 1574
    case 79 => 1653
    case 80 => -246
    case 81 => 778
    case 82 => 1159
    case 83 => -147
    case 84 => -777
    case 85 => 1483
    case 86 => -602
    case 87 => 1119
    case 88 => -1590
    case 89 => 644
    case 90 => -872
    case 91 => 349
    case 92 => 418
    case 93 => 329
    case 94 => -156
    case 95 => -75
    case 96 => 817
    case 97 => 1097
    case 98 => 603
    case 99 => 610
    case 100 => 1322
    case 101 => -1285
    case 102 => -1465
    case 103 => 384
    case 104 => -1215
    case 105 => -136
    case 106 => 1218
    case 107 => -1335
    case 108 => -874
    case 109 => 220
    case 110 => -1187
    case 111 => -1659
    case 112 => -1185
    case 113 => -1530
    case 114 => -1278
    case 115 => 794
    case 116 => -1510
    case 117 => -854
    case 118 => -870
    case 119 => 478
    case 120 => -108
    case 121 => -308
    case 122 => 996
    case 123 => 991
    case 124 => 958
    case 125 => -1460
    case 126 => 1522
    case 127 => 1628
    case _ => 0
  }

  lemma KemZetaSmall(index: nat)
    ensures -1664 <= KemZeta(index) <= 1664
  {
  }

  lemma Row0(v: nat)
    requires v < 1
    ensures Cong(KemZeta(v + 1), KemZeta(v) * 1729)
  {
    match v
    case 0 =>
  }

  lemma Row1(v: nat)
    requires v < 2
    ensures Cong(KemZeta(v + 2), KemZeta(v) * 2580)
  {
    match v
    case 0 => case 1 =>
  }

  lemma Row2(v: nat)
    requires v < 4
    ensures Cong(KemZeta(v + 4), KemZeta(v) * 2642)
  {
    match v
    case 0 => case 1 => case 2 => case 3 =>
  }

  lemma Row3(v: nat)
    requires v < 8
    ensures Cong(KemZeta(v + 8), KemZeta(v) * 1062)
  {
    match v
    case 0 => case 1 => case 2 => case 3 => case 4 => case 5 => case 6 => case 7 =>
  }

  lemma Row4(v: nat)
    requires v < 16
    ensures Cong(KemZeta(v + 16), KemZeta(v) * 296)
  {
    match v
    case 0 => case 1 => case 2 => case 3 => case 4 => case 5 => case 6 => case 7 =>
    case 8 => case 9 => case 10 => case 11 => case 12 => case 13 => case 14 => case 15 =>
  }

  lemma Row5From0(v: nat)
    requires 0 <= v < 16
    ensures Cong(KemZeta(v + 32), KemZeta(v) * 289)
  {
    match v
    case 0 => case 1 => case 2 => case 3 => case 4 => case 5 => case 6 => case 7 =>
    case 8 => case 9 => case 10 => case 11 => case 12 => case 13 => case 14 => case 15 =>
  }

  lemma Row5From16(v: nat)
    requires 16 <= v < 32
    ensures Cong(KemZeta(v + 32), KemZeta(v) * 289)
  {
    match v
    case 16 => case 17 => case 18 => case 19 => case 20 => case 21 => case 22 => case 23 =>
    case 24 => case 25 => case 26 => case 27 => case 28 => case 29 => case 30 => case 31 =>
  }

  lemma Row5(v: nat)
    requires v < 32
    ensures Cong(KemZeta(v + 32), KemZeta(v) * 289)
  {
    hide KemZeta, Cong;
    if v < 16 {
      Row5From0(v);
    } else {
      Row5From16(v);
    }
  }

  lemma Row6From0(v: nat)
    requires 0 <= v < 16
    ensures Cong(KemZeta(v + 64), KemZeta(v) * 17)
  {
    match v
    case 0 => case 1 => case 2 => case 3 => case 4 => case 5 => case 6 => case 7 =>
    case 8 => case 9 => case 10 => case 11 => case 12 => case 13 => case 14 => case 15 =>
  }

  lemma Row6From16(v: nat)
    requires 16 <= v < 32
    ensures Cong(KemZeta(v + 64), KemZeta(v) * 17)
  {
    match v
    case 16 => case 17 => case 18 => case 19 => case 20 => case 21 => case 22 => case 23 =>
    case 24 => case 25 => case 26 => case 27 => case 28 => case 29 => case 30 => case 31 =>
  }

  lemma Row6From32(v: nat)
    requires 32 <= v < 48
    ensures Cong(KemZeta(v + 64), KemZeta(v) * 17)
  {
    match v
    case 32 => case 33 => case 34 => case 35 => case 36 => case 37 => case 38 => case 39 =>
    case 40 => case 41 => case 42 => case 43 => case 44 => case 45 => case 46 => case 47 =>
  }

  lemma Row6From48(v: nat)
    requires 48 <= v < 64
    ensures Cong(KemZeta(v + 64), KemZeta(v) * 17)
  {
    match v
    case 48 => case 49 => case 50 => case 51 => case 52 => case 53 => case 54 => case 55 =>
    case 56 => case 57 => case 58 => case 59 => case 60 => case 61 => case 62 => case 63 =>
  }

  lemma Row6(v: nat)
    requires v < 64
    ensures Cong(KemZeta(v + 64), KemZeta(v) * 17)
  {
    hide KemZeta, Cong;
    if v < 16 {
      Row6From0(v);
    } else if v < 32 {
      Row6From16(v);
    } else if v < 48 {
      Row6From32(v);
    } else {
      Row6From48(v);
    }
  }

  /** One entry from the entry without its top bit. */
  lemma EntryFromLower(v: nat, j: nat, s: nat, e: nat, factor: int)
    requires j < 7 && s == Pow2(j) && e == Pow2(6 - j) && v < s
    requires Cong(Pow(17, e), factor) && Cong(KemZeta(v), Zeta(v) * 65536)
    requires Cong(KemZeta(v + s), KemZeta(v) * factor)
    ensures Cong(KemZeta(v + s), Zeta(v + s) * 65536)
  {
    hide Cong, Pow, BitRev, KemZeta, Pow2;
    BitRevTop(v, j, 7);
    var b := BitRev(v, 7);
    PowAdds(17, b, e);
    var p, z := Pow(17, b), Zeta(v);
    CongMod(p);
    CongMod(p * Pow(17, e));
    ScaledEntry(KemZeta(v + s), KemZeta(v), z, p, Pow(17, e), factor, Zeta(v + s));
  }

  lemma ScaledEntry(t': int, t: int, z: int, p: int, w: int, factor: int, z': int)
    requires Cong(t', t * factor) && Cong(t, z * 65536) && Cong(z, p) && Cong(w, factor) && Cong(z', p * w)
    ensures Cong(t', z' * 65536)
  {
    hide Cong;
    CongSymmetric(w, factor);
    CongMul(t, z * 65536, factor, w);
    CongTransitive(t', t * factor, z * 65536 * w);
    CongReflexive(w);
    CongMul(z, p, w, w);
    CongSymmetric(z', p * w);
    CongTransitive(z * w, p * w, z');
    CongScale(65536, z * w, z');
    assert z * 65536 * w == 65536 * (z * w);
    assert z' * 65536 == 65536 * z';
    CongTransitive(t', 65536 * (z * w), 65536 * z');
  }

  lemma FirstEntry()
    ensures Cong(KemZeta(0), Zeta(0) * 65536)
  {
    BitRevOfZero(7);
    hide BitRev;
    assert Pow(17, 0) == 1;
  }

  /** Every entry is 17^BitRev7(k) in Montgomery form. */
  lemma {:induction false} TableIsMontgomery(k: nat)
    requires k < 128
    ensures Cong(KemZeta(k), Zeta(k) * 65536)
    decreases k
  {
    PowersOfTwo();
    RootPowers();
    hide Cong, Pow, Pow2, BitRev, KemZeta, Zeta;
    if k == 0 {
      FirstEntry();
    } else if k == 1 {
      TableIsMontgomery(0);
      Row0(0);
      EntryFromLower(0, 0, 1, 64, 1729);
    } else if k < 4 {
      TableIsMontgomery(k - 2);
      Row1(k - 2);
      EntryFromLower(k - 2, 1, 2, 32, 2580);
    } else if k < 8 {
      TableIsMontgomery(k - 4);
      Row2(k - 4);
      EntryFromLower(k - 4, 2, 4, 16, 2642);
    } else if k < 16 {
      TableIsMontgomery(k - 8);
      Row3(k - 8);
      EntryFromLower(k - 8, 3, 8, 8, 1062);
    } else if k < 32 {
      TableIsMontgomery(k - 16);
      Row4(k - 16);
      EntryFromLower(k - 16, 4, 16, 4, 296);
    } else if k < 64 {
      TableIsMontgomery(k - 32);
      Row5(k - 32);
      EntryFromLower(k - 32, 5, 32, 2, 289);
    } else {
      TableIsMontgomery(k - 64);
      Row6(k - 64);
      EntryFromLower(k - 64, 6, 64, 1, 17);
    }
  }

  /** The twiddle of basemul for slot i: the upper half of the table, negated for odd
      slots. */
  function SlotZeta(i: nat): int {
    if i % 2 == 0 then KemZeta(64 + i / 2) else -KemZeta(64 + i / 2)
  }

  /** It is the root of slot i in Montgomery form. */
  lemma SlotZetaIsGamma(i: nat)
    requires i < 128
    ensures Cong(SlotZeta(i), Gamma(i) * 65536)
  {
    hide Cong, Pow, Pow2, BitRev, KemZeta;
    var v := 64 + i / 2;
    Pow2Small();
    RootsOfLastLayer(7, i);
    TableIsMontgomery(v);
    var e := Exponent(7, 6, i / 2);
    hide Exponent;
    CongMod(Pow(17, e));
    MontgomeryOf(KemZeta(v), Zeta(v), Pow(17, e));
    if i % 2 == 1 {
      PowAdds(17, e, 128);
      RootHalfway();
      NegatedEntry(KemZeta(v), Pow(17, e), Pow(17, 128));
    }
  }

  lemma MontgomeryOf(t: int, z: int, p: int)
    requires Cong(t, z * 65536) && Cong(z, p)
    ensures Cong(t, p * 65536)
  {
    hide Cong;
    CongReflexive(65536);
    CongMul(z, p, 65536, 65536);
    CongTransitive(t, z * 65536, p * 65536);
  }

  lemma NegatedEntry(t: int, p: int, h: int)
    requires Cong(t, p * 65536) && Cong(h, -1)
    ensures Cong(-t, p * h * 65536)
  {
    hide Cong;
    NegateBoth(t, p * 65536);
    CongSymmetric(h, -1);
    CongScale(p * 65536, -1, h);
    assert p * 65536 * -1 == -(p * 65536);
    assert p * 65536 * h == p * h * 65536;
    CongTransitive(-t, -(p * 65536), p * h * 65536);
  }
}
