/** The AES-256 example of appendix C.3 of FIPS 197, worked through the model: key expansion, then round by round. */
module AesExample {
  import opened Gf256
  import opened Aes

  const KEY: Key := [0x00, 0x01, 0x02, 0x03, 0x04, 0x05, 0x06, 0x07,
                     0x08, 0x09, 0x0a, 0x0b, 0x0c, 0x0d, 0x0e, 0x0f,
                     0x10, 0x11, 0x12, 0x13, 0x14, 0x15, 0x16, 0x17,
                     0x18, 0x19, 0x1a, 0x1b, 0x1c, 0x1d, 0x1e, 0x1f]

  const PLAIN: Block := [0x00, 0x11, 0x22, 0x33, 0x44, 0x55, 0x66, 0x77,
                         0x88, 0x99, 0xaa, 0xbb, 0xcc, 0xdd, 0xee, 0xff]

  const ENCRYPTED: Block := [0x8e, 0xa2, 0xb7, 0xca, 0x51, 0x67, 0x45, 0xbf,
                             0xea, 0xfc, 0x49, 0x90, 0x4b, 0x49, 0x60, 0x89]

  // ----- Key expansion -----

  ghost predicate RoundKeyIs(key: Key, r: nat, w0: bv32, w1: bv32, w2: bv32, w3: bv32)
  {
    && ScheduleWord(key, 4 * r) == w0 && ScheduleWord(key, 4 * r + 1) == w1
    && ScheduleWord(key, 4 * r + 2) == w2 && ScheduleWord(key, 4 * r + 3) == w3
  }

  lemma Unmixed(previous: bv32, i: nat)
    requires i % 4 != 0
    ensures ScheduleMix(previous, i) == previous
  {}

  /** A round key from the two before it. */
  lemma Expands(key: Key, r: nat, a0: bv32, a1: bv32, a2: bv32, a3: bv32, b0: bv32, b1: bv32, b2: bv32, b3: bv32,
                w0: bv32, w1: bv32, w2: bv32, w3: bv32)
    requires r >= 2 && RoundKeyIs(key, r - 2, a0, a1, a2, a3) && RoundKeyIs(key, r - 1, b0, b1, b2, b3)
    requires w0 == XorWord(a0, ScheduleMix(b3, 4 * r))
    requires w1 == XorWord(a1, w0) && w2 == XorWord(a2, w1) && w3 == XorWord(a3, w2)
    ensures RoundKeyIs(key, r, w0, w1, w2, w3)
  {
    hide ScheduleWord, XorWord, ScheduleMix;
    ScheduleStep(key, 4 * r);
    ScheduleStep(key, 4 * r + 1);
    ScheduleStep(key, 4 * r + 2);
    ScheduleStep(key, 4 * r + 3);
    Unmixed(w0, 4 * r + 1);
    Unmixed(w1, 4 * r + 2);
    Unmixed(w2, 4 * r + 3);
  }

  lemma Mixes2()
    ensures XorWord(0x00010203, ScheduleMix(0x1c1d1e1f, 8)) == 0xa573c29f
  {}

  lemma Mixes3()
    ensures XorWord(0x10111213, ScheduleMix(0xa572c09c, 12)) == 0x1651a8cd
  {}

  lemma Mixes4()
    ensures XorWord(0xa573c29f, ScheduleMix(0x0640bade, 16)) == 0xae87dff0
  {}

  lemma Mixes5()
    ensures XorWord(0x1651a8cd, ScheduleMix(0x03fc1567, 20)) == 0x6de1f148
  {}

  lemma Mixes6()
    ensures XorWord(0xae87dff0, ScheduleMix(0x73b8518d, 24)) == 0xc656827f
  {}

  lemma Mixes7()
    ensures XorWord(0x6de1f148, ScheduleMix(0x6cd5598b, 28)) == 0x3de23a75
  {}

  lemma Mixes8()
    ensures XorWord(0xc656827f, ScheduleMix(0x5407cf39, 32)) == 0x0bdc905f
  {}

  lemma Mixes9()
    ensures XorWord(0x3de23a75, ScheduleMix(0xc1871c2f, 36)) == 0x45f5a660
  {}

  lemma Mixes10()
    ensures XorWord(0x0bdc905f, ScheduleMix(0x640a820a, 40)) == 0x7ccff71c
  {}

  lemma Mixes11()
    ensures XorWord(0x45f5a660, ScheduleMix(0xd261a7df, 44)) == 0xf01afafe
  {}

  lemma Mixes12()
    ensures XorWord(0x7ccff71c, ScheduleMix(0xb3afe640, 48)) == 0x2541fe71
  {}

  lemma Mixes13()
    ensures XorWord(0xf01afafe, ScheduleMix(0x5a721c0a, 52)) == 0x4e5a6699
  {}

  lemma Mixes14()
    ensures XorWord(0x2541fe71, ScheduleMix(0xcdf8cdea, 56)) == 0x24fc79cc
  {}

  lemma FirstKeys(key: Key)
    requires key == KEY
    ensures RoundKeyIs(key, 0, 0x00010203, 0x04050607, 0x08090a0b, 0x0c0d0e0f)
    ensures RoundKeyIs(key, 1, 0x10111213, 0x14151617, 0x18191a1b, 0x1c1d1e1f)
  {
    hide ScheduleWord;
    ScheduleStart(key, 0);
    ScheduleStart(key, 1);
    ScheduleStart(key, 2);
    ScheduleStart(key, 3);
    ScheduleStart(key, 4);
    ScheduleStart(key, 5);
    ScheduleStart(key, 6);
    ScheduleStart(key, 7);
    FirstWords();
    NextWords();
  }

  lemma FirstWords()
    ensures Word(KEY[0], KEY[1], KEY[2], KEY[3]) == 0x00010203
    ensures Word(KEY[4], KEY[5], KEY[6], KEY[7]) == 0x04050607
    ensures Word(KEY[8], KEY[9], KEY[10], KEY[11]) == 0x08090a0b
    ensures Word(KEY[12], KEY[13], KEY[14], KEY[15]) == 0x0c0d0e0f
  {}

  lemma NextWords()
    ensures Word(KEY[16], KEY[17], KEY[18], KEY[19]) == 0x10111213
    ensures Word(KEY[20], KEY[21], KEY[22], KEY[23]) == 0x14151617
    ensures Word(KEY[24], KEY[25], KEY[26], KEY[27]) == 0x18191a1b
    ensures Word(KEY[28], KEY[29], KEY[30], KEY[31]) == 0x1c1d1e1f
  {}

  lemma Keys2(key: Key)
    requires key == KEY
    ensures RoundKeyIs(key, 2, 0xa573c29f, 0xa176c498, 0xa97fce93, 0xa572c09c)
    ensures RoundKeyIs(key, 3, 0x1651a8cd, 0x0244beda, 0x1a5da4c1, 0x0640bade)
  {
    MixesAll();
    hide ScheduleWord, RoundKeyIs, ScheduleMix, KEY;
    FirstKeys(key);
    Expands(key, 2, 0x00010203, 0x04050607, 0x08090a0b, 0x0c0d0e0f,
            0x10111213, 0x14151617, 0x18191a1b, 0x1c1d1e1f, 0xa573c29f, 0xa176c498, 0xa97fce93, 0xa572c09c);
    Expands(key, 3, 0x10111213, 0x14151617, 0x18191a1b, 0x1c1d1e1f,
            0xa573c29f, 0xa176c498, 0xa97fce93, 0xa572c09c, 0x1651a8cd, 0x0244beda, 0x1a5da4c1, 0x0640bade);
  }

  lemma Keys4(key: Key)
    requires key == KEY
    ensures RoundKeyIs(key, 4, 0xae87dff0, 0x0ff11b68, 0xa68ed5fb, 0x03fc1567)
    ensures RoundKeyIs(key, 5, 0x6de1f148, 0x6fa54f92, 0x75f8eb53, 0x73b8518d)
  {
    MixesAll();
    hide ScheduleWord, RoundKeyIs, ScheduleMix, KEY;
    Keys2(key);
    Expands(key, 4, 0xa573c29f, 0xa176c498, 0xa97fce93, 0xa572c09c,
            0x1651a8cd, 0x0244beda, 0x1a5da4c1, 0x0640bade, 0xae87dff0, 0x0ff11b68, 0xa68ed5fb, 0x03fc1567);
    Expands(key, 5, 0x1651a8cd, 0x0244beda, 0x1a5da4c1, 0x0640bade,
            0xae87dff0, 0x0ff11b68, 0xa68ed5fb, 0x03fc1567, 0x6de1f148, 0x6fa54f92, 0x75f8eb53, 0x73b8518d);
  }

  lemma Keys6(key: Key)
    requires key == KEY
    ensures RoundKeyIs(key, 6, 0xc656827f, 0xc9a79917, 0x6f294cec, 0x6cd5598b)
    ensures RoundKeyIs(key, 7, 0x3de23a75, 0x524775e7, 0x27bf9eb4, 0x5407cf39)
  {
    MixesAll();
    hide ScheduleWord, RoundKeyIs, ScheduleMix, KEY;
    Keys4(key);
    Expands(key, 6, 0xae87dff0, 0x0ff11b68, 0xa68ed5fb, 0x03fc1567,
            0x6de1f148, 0x6fa54f92, 0x75f8eb53, 0x73b8518d, 0xc656827f, 0xc9a79917, 0x6f294cec, 0x6cd5598b);
    Expands(key, 7, 0x6de1f148, 0x6fa54f92, 0x75f8eb53, 0x73b8518d,
            0xc656827f, 0xc9a79917, 0x6f294cec, 0x6cd5598b, 0x3de23a75, 0x524775e7, 0x27bf9eb4, 0x5407cf39);
  }

  lemma Keys8(key: Key)
    requires key == KEY
    ensures RoundKeyIs(key, 8, 0x0bdc905f, 0xc27b0948, 0xad5245a4, 0xc1871c2f)
    ensures RoundKeyIs(key, 9, 0x45f5a660, 0x17b2d387, 0x300d4d33, 0x640a820a)
  {
    MixesAll();
    hide ScheduleWord, RoundKeyIs, ScheduleMix, KEY;
    Keys6(key);
    Expands(key, 8, 0xc656827f, 0xc9a79917, 0x6f294cec, 0x6cd5598b,
            0x3de23a75, 0x524775e7, 0x27bf9eb4, 0x5407cf39, 0x0bdc905f, 0xc27b0948, 0xad5245a4, 0xc1871c2f);
    Expands(key, 9, 0x3de23a75, 0x524775e7, 0x27bf9eb4, 0x5407cf39,
            0x0bdc905f, 0xc27b0948, 0xad5245a4, 0xc1871c2f, 0x45f5a660, 0x17b2d387, 0x300d4d33, 0x640a820a);
  }

  lemma Keys10(key: Key)
    requires key == KEY
    ensures RoundKeyIs(key, 10, 0x7ccff71c, 0xbeb4fe54, 0x13e6bbf0, 0xd261a7df)
    ensures RoundKeyIs(key, 11, 0xf01afafe, 0xe7a82979, 0xd7a5644a, 0xb3afe640)
  {
    MixesAll();
    hide ScheduleWord, RoundKeyIs, ScheduleMix, KEY;
    Keys8(key);
    Expands(key, 10, 0x0bdc905f, 0xc27b0948, 0xad5245a4, 0xc1871c2f,
            0x45f5a660, 0x17b2d387, 0x300d4d33, 0x640a820a, 0x7ccff71c, 0xbeb4fe54, 0x13e6bbf0, 0xd261a7df);
    Expands(key, 11, 0x45f5a660, 0x17b2d387, 0x300d4d33, 0x640a820a,
            0x7ccff71c, 0xbeb4fe54, 0x13e6bbf0, 0xd261a7df, 0xf01afafe, 0xe7a82979, 0xd7a5644a, 0xb3afe640);
  }

  lemma Keys12(key: Key)
    requires key == KEY
    ensures RoundKeyIs(key, 12, 0x2541fe71, 0x9bf50025, 0x8813bbd5, 0x5a721c0a)
    ensures RoundKeyIs(key, 13, 0x4e5a6699, 0xa9f24fe0, 0x7e572baa, 0xcdf8cdea)
  {
    MixesAll();
    hide ScheduleWord, RoundKeyIs, ScheduleMix, KEY;
    Keys10(key);
    Expands(key, 12, 0x7ccff71c, 0xbeb4fe54, 0x13e6bbf0, 0xd261a7df,
            0xf01afafe, 0xe7a82979, 0xd7a5644a, 0xb3afe640, 0x2541fe71, 0x9bf50025, 0x8813bbd5, 0x5a721c0a);
    Expands(key, 13, 0xf01afafe, 0xe7a82979, 0xd7a5644a, 0xb3afe640,
            0x2541fe71, 0x9bf50025, 0x8813bbd5, 0x5a721c0a, 0x4e5a6699, 0xa9f24fe0, 0x7e572baa, 0xcdf8cdea);
  }

  lemma Keys14(key: Key)
    requires key == KEY
    ensures RoundKeyIs(key, 14, 0x24fc79cc, 0xbf0979e9, 0x371ac23c, 0x6d68de36)
  {
    MixesAll();
    hide ScheduleWord, RoundKeyIs, ScheduleMix, KEY;
    Keys12(key);
    Expands(key, 14, 0x2541fe71, 0x9bf50025, 0x8813bbd5, 0x5a721c0a,
            0x4e5a6699, 0xa9f24fe0, 0x7e572baa, 0xcdf8cdea, 0x24fc79cc, 0xbf0979e9, 0x371ac23c, 0x6d68de36);
  }

  lemma MixesAll()
    ensures XorWord(0x00010203, ScheduleMix(0x1c1d1e1f, 8)) == 0xa573c29f
    ensures XorWord(0x10111213, ScheduleMix(0xa572c09c, 12)) == 0x1651a8cd
    ensures XorWord(0xa573c29f, ScheduleMix(0x0640bade, 16)) == 0xae87dff0
    ensures XorWord(0x1651a8cd, ScheduleMix(0x03fc1567, 20)) == 0x6de1f148
    ensures XorWord(0xae87dff0, ScheduleMix(0x73b8518d, 24)) == 0xc656827f
    ensures XorWord(0x6de1f148, ScheduleMix(0x6cd5598b, 28)) == 0x3de23a75
    ensures XorWord(0xc656827f, ScheduleMix(0x5407cf39, 32)) == 0x0bdc905f
    ensures XorWord(0x3de23a75, ScheduleMix(0xc1871c2f, 36)) == 0x45f5a660
    ensures XorWord(0x0bdc905f, ScheduleMix(0x640a820a, 40)) == 0x7ccff71c
    ensures XorWord(0x45f5a660, ScheduleMix(0xd261a7df, 44)) == 0xf01afafe
    ensures XorWord(0x7ccff71c, ScheduleMix(0xb3afe640, 48)) == 0x2541fe71
    ensures XorWord(0xf01afafe, ScheduleMix(0x5a721c0a, 52)) == 0x4e5a6699
    ensures XorWord(0x2541fe71, ScheduleMix(0xcdf8cdea, 56)) == 0x24fc79cc
  {
    hide ScheduleMix, XorWord;
    Mixes2();
    Mixes3();
    Mixes4();
    Mixes5();
    Mixes6();
    Mixes7();
    Mixes8();
    Mixes9();
    Mixes10();
    Mixes11();
    Mixes12();
    Mixes13();
    Mixes14();
  }

  // ----- Rounds -----

  ghost predicate StateIs(s: Block, x0: bv32, x1: bv32, x2: bv32, x3: bv32)
  {
    ColumnWord(s, 0) == x0 && ColumnWord(s, 1) == x1 && ColumnWord(s, 2) == x2 && ColumnWord(s, 3) == x3
  }

  lemma Masks(s: Block, key: Key, x0: bv32, x1: bv32, x2: bv32, x3: bv32, k0: bv32, k1: bv32, k2: bv32, k3: bv32)
    requires StateIs(s, x0, x1, x2, x3) && RoundKeyIs(key, 0, k0, k1, k2, k3)
    ensures StateIs(AddRoundKey(s, KeySchedule(key), 0),
                    XorWord(x0, k0), XorWord(x1, k1), XorWord(x2, k2), XorWord(x3, k3))
  {
    hide ScheduleWord, XorWord, AddRoundKey, ColumnWord;
    KeyedColumn(s, KeySchedule(key), 0, 0);
    KeyedColumn(s, KeySchedule(key), 0, 1);
    KeyedColumn(s, KeySchedule(key), 0, 2);
    KeyedColumn(s, KeySchedule(key), 0, 3);
  }

  lemma Advances(s: Block, key: Key, r: nat, x0: bv32, x1: bv32, x2: bv32, x3: bv32,
                 k0: bv32, k1: bv32, k2: bv32, k3: bv32)
    requires r < ROUNDS && StateIs(s, x0, x1, x2, x3) && RoundKeyIs(key, r, k0, k1, k2, k3)
    ensures StateIs(Round(s, KeySchedule(key), r), RoundWord(x0, x1, x2, x3, k0), RoundWord(x1, x2, x3, x0, k1),
                    RoundWord(x2, x3, x0, x1, k2), RoundWord(x3, x0, x1, x2, k3))
  {
    hide ScheduleWord, RoundWord, Round, ColumnWord;
    RoundColumns(s, KeySchedule(key), r, 0);
    RoundColumns(s, KeySchedule(key), r, 1);
    RoundColumns(s, KeySchedule(key), r, 2);
    RoundColumns(s, KeySchedule(key), r, 3);
  }

  lemma Ends(s: Block, key: Key, x0: bv32, x1: bv32, x2: bv32, x3: bv32, k0: bv32, k1: bv32, k2: bv32, k3: bv32)
    requires StateIs(s, x0, x1, x2, x3) && RoundKeyIs(key, ROUNDS, k0, k1, k2, k3)
    ensures StateIs(AddRoundKey(ShiftRows(SubBytes(s)), KeySchedule(key), ROUNDS),
                    LastWord(x0, x1, x2, x3, k0), LastWord(x1, x2, x3, x0, k1),
                    LastWord(x2, x3, x0, x1, k2), LastWord(x3, x0, x1, x2, k3))
  {
    hide ScheduleWord, LastWord, AddRoundKey, ShiftRows, SubBytes, ColumnWord;
    LastColumns(s, KeySchedule(key), 0);
    LastColumns(s, KeySchedule(key), 1);
    LastColumns(s, KeySchedule(key), 2);
    LastColumns(s, KeySchedule(key), 3);
  }

  lemma PlainWords()
    ensures StateIs(PLAIN, 0x00112233, 0x44556677, 0x8899aabb, 0xccddeeff)
  {}

  lemma Evaluates0()
    ensures XorWord(0x00112233, 0x00010203) == 0x00102030
    ensures XorWord(0x44556677, 0x04050607) == 0x40506070
    ensures XorWord(0x8899aabb, 0x08090a0b) == 0x8090a0b0
    ensures XorWord(0xccddeeff, 0x0c0d0e0f) == 0xc0d0e0f0
  {}

  lemma Subs1()
    ensures Sbox(0x00) == 0x63 && Sbox(0x10) == 0xca && Sbox(0x20) == 0xb7 && Sbox(0x30) == 0x04 && Sbox(0x40) == 0x09
    ensures Sbox(0x50) == 0x53 && Sbox(0x60) == 0xd0 && Sbox(0x70) == 0x51 && Sbox(0x80) == 0xcd && Sbox(0x90) == 0x60
    ensures Sbox(0xa0) == 0xe0 && Sbox(0xb0) == 0xe7 && Sbox(0xc0) == 0xba && Sbox(0xd0) == 0x70 && Sbox(0xe0) == 0xe1
    ensures Sbox(0xf0) == 0x8c
  {}

  lemma Evaluates1()
    ensures RoundWord(0x00102030, 0x40506070, 0x8090a0b0, 0xc0d0e0f0, 0x10111213) == 0x4f637606
    ensures RoundWord(0x40506070, 0x8090a0b0, 0xc0d0e0f0, 0x00102030, 0x14151617) == 0x43e0aa85
    ensures RoundWord(0x8090a0b0, 0xc0d0e0f0, 0x00102030, 0x40506070, 0x18191a1b) == 0xefa72132
    ensures RoundWord(0xc0d0e0f0, 0x00102030, 0x40506070, 0x8090a0b0, 0x1c1d1e1f) == 0x01a4e705
  {
    hide Sbox;
    Subs1();
  }

  lemma Subs2()
    ensures Sbox(0x01) == 0x7c && Sbox(0x05) == 0x6b && Sbox(0x06) == 0x6f && Sbox(0x21) == 0xfd && Sbox(0x32) == 0x23
    ensures Sbox(0x43) == 0x1a && Sbox(0x4f) == 0x84 && Sbox(0x63) == 0xfb && Sbox(0x76) == 0x38 && Sbox(0x85) == 0x97
    ensures Sbox(0xa4) == 0x49 && Sbox(0xa7) == 0x5c && Sbox(0xaa) == 0xac && Sbox(0xe0) == 0xe1 && Sbox(0xe7) == 0x94
    ensures Sbox(0xef) == 0xdf
  {}

  lemma Evaluates2()
    ensures RoundWord(0x4f637606, 0x43e0aa85, 0xefa72132, 0x01a4e705, 0xa573c29f) == 0x1859fbc2
    ensures RoundWord(0x43e0aa85, 0xefa72132, 0x01a4e705, 0x4f637606, 0xa176c498) == 0x8a1c00a0
    ensures RoundWord(0xefa72132, 0x01a4e705, 0x4f637606, 0x43e0aa85, 0xa97fce93) == 0x78ed8aad
    ensures RoundWord(0x01a4e705, 0x4f637606, 0x43e0aa85, 0xefa72132, 0xa572c09c) == 0xc42f6109
  {
    hide Sbox;
    Subs2();
  }

  lemma Subs3()
    ensures Sbox(0x00) == 0x63 && Sbox(0x09) == 0x01 && Sbox(0x18) == 0xad && Sbox(0x1c) == 0x9c && Sbox(0x2f) == 0x15
    ensures Sbox(0x59) == 0xcb && Sbox(0x61) == 0xef && Sbox(0x78) == 0xbc && Sbox(0x8a) == 0x7e && Sbox(0xa0) == 0xe0
    ensures Sbox(0xad) == 0x95 && Sbox(0xc2) == 0x25 && Sbox(0xc4) == 0x1c && Sbox(0xed) == 0x55 && Sbox(0xfb) == 0x0f
  {}

  lemma Evaluates3()
    ensures RoundWord(0x1859fbc2, 0x8a1c00a0, 0x78ed8aad, 0xc42f6109, 0x1651a8cd) == 0x975c66c1
    ensures RoundWord(0x8a1c00a0, 0x78ed8aad, 0xc42f6109, 0x1859fbc2, 0x0244beda) == 0xcb9f3fa8
    ensures RoundWord(0x78ed8aad, 0xc42f6109, 0x1859fbc2, 0x8a1c00a0, 0x1a5da4c1) == 0xa93a28df
    ensures RoundWord(0xc42f6109, 0x1859fbc2, 0x8a1c00a0, 0x78ed8aad, 0x0640bade) == 0x8ee10f63
  {
    hide Sbox;
    Subs3();
  }

  lemma Subs4()
    ensures Sbox(0x0f) == 0x76 && Sbox(0x28) == 0x34 && Sbox(0x3a) == 0x80 && Sbox(0x3f) == 0x75 && Sbox(0x5c) == 0x4a
    ensures Sbox(0x63) == 0xfb && Sbox(0x66) == 0x33 && Sbox(0x8e) == 0x19 && Sbox(0x97) == 0x88 && Sbox(0x9f) == 0xdb
    ensures Sbox(0xa8) == 0xc2 && Sbox(0xa9) == 0xd3 && Sbox(0xc1) == 0x78 && Sbox(0xcb) == 0x1f && Sbox(0xdf) == 0x9e
    ensures Sbox(0xe1) == 0xf8
  {}

  lemma Evaluates4()
    ensures RoundWord(0x975c66c1, 0xcb9f3fa8, 0xa93a28df, 0x8ee10f63, 0xae87dff0) == 0x1c05f271
    ensures RoundWord(0xcb9f3fa8, 0xa93a28df, 0x8ee10f63, 0x975c66c1, 0x0ff11b68) == 0xa417e04f
    ensures RoundWord(0xa93a28df, 0x8ee10f63, 0x975c66c1, 0xcb9f3fa8, 0xa68ed5fb) == 0xf921c5c1
    ensures RoundWord(0x8ee10f63, 0x975c66c1, 0xcb9f3fa8, 0xa93a28df, 0x03fc1567) == 0x04701554
  {
    hide Sbox;
    Subs4();
  }

  lemma Subs5()
    ensures Sbox(0x04) == 0xf2 && Sbox(0x05) == 0x6b && Sbox(0x15) == 0x59 && Sbox(0x17) == 0xf0 && Sbox(0x1c) == 0x9c
    ensures Sbox(0x21) == 0xfd && Sbox(0x4f) == 0x84 && Sbox(0x54) == 0x20 && Sbox(0x70) == 0x51 && Sbox(0x71) == 0xa3
    ensures Sbox(0xa4) == 0x49 && Sbox(0xc1) == 0x78 && Sbox(0xc5) == 0xa6 && Sbox(0xe0) == 0xe1 && Sbox(0xf2) == 0x89
    ensures Sbox(0xf9) == 0x99
  {}

  lemma Evaluates5()
    ensures RoundWord(0x1c05f271, 0xa417e04f, 0xf921c5c1, 0x04701554, 0x6de1f148) == 0xc357aae1
    ensures RoundWord(0xa417e04f, 0xf921c5c1, 0x04701554, 0x1c05f271, 0x6fa54f92) == 0x1b45b7b0
    ensures RoundWord(0xf921c5c1, 0x04701554, 0x1c05f271, 0xa417e04f, 0x75f8eb53) == 0xa2c7bd28
    ensures RoundWord(0x04701554, 0x1c05f271, 0xa417e04f, 0xf921c5c1, 0x73b8518d) == 0xa8dc99fa
  {
    hide Sbox;
    Subs5();
  }

  lemma Subs6()
    ensures Sbox(0x1b) == 0xaf && Sbox(0x28) == 0x34 && Sbox(0x45) == 0x6e && Sbox(0x57) == 0x5b && Sbox(0x99) == 0xee
    ensures Sbox(0xa2) == 0x3a && Sbox(0xa8) == 0xc2 && Sbox(0xaa) == 0xac && Sbox(0xb0) == 0xe7 && Sbox(0xb7) == 0xa9
    ensures Sbox(0xbd) == 0x7a && Sbox(0xc3) == 0x2e && Sbox(0xc7) == 0xc6 && Sbox(0xdc) == 0x86 && Sbox(0xe1) == 0xf8
    ensures Sbox(0xfa) == 0x2d
  {}

  lemma Evaluates6()
    ensures RoundWord(0xc357aae1, 0x1b45b7b0, 0xa2c7bd28, 0xa8dc99fa, 0xc656827f) == 0x7f074143
    ensures RoundWord(0x1b45b7b0, 0xa2c7bd28, 0xa8dc99fa, 0xc357aae1, 0xc9a79917) == 0xcb4e243e
    ensures RoundWord(0xa2c7bd28, 0xa8dc99fa, 0xc357aae1, 0x1b45b7b0, 0x6f294cec) == 0xc10c815d
    ensures RoundWord(0xa8dc99fa, 0xc357aae1, 0x1b45b7b0, 0xa2c7bd28, 0x6cd5598b) == 0x8375d54c
  {
    hide Sbox;
    Subs6();
  }

  lemma Subs7()
    ensures Sbox(0x07) == 0xc5 && Sbox(0x0c) == 0xfe && Sbox(0x24) == 0x36 && Sbox(0x3e) == 0xb2 && Sbox(0x41) == 0x83
    ensures Sbox(0x43) == 0x1a && Sbox(0x4c) == 0x29 && Sbox(0x4e) == 0x2f && Sbox(0x5d) == 0x4c && Sbox(0x75) == 0x9d
    ensures Sbox(0x7f) == 0xd2 && Sbox(0x81) == 0x0c && Sbox(0x83) == 0xec && Sbox(0xc1) == 0x78 && Sbox(0xcb) == 0x1f
    ensures Sbox(0xd5) == 0x03
  {}

  lemma Evaluates7()
    ensures RoundWord(0x7f074143, 0xcb4e243e, 0xc10c815d, 0x8375d54c, 0x3de23a75) == 0xd653a469
    ensures RoundWord(0xcb4e243e, 0xc10c815d, 0x8375d54c, 0x7f074143, 0x524775e7) == 0x6ca0bc0f
    ensures RoundWord(0xc10c815d, 0x8375d54c, 0x7f074143, 0xcb4e243e, 0x27bf9eb4) == 0x5acaab5d
    ensures RoundWord(0x8375d54c, 0x7f074143, 0xcb4e243e, 0xc10c815d, 0x5407cf39) == 0xb96c5e7d
  {
    hide Sbox;
    Subs7();
  }

  lemma Subs8()
    ensures Sbox(0x0f) == 0x76 && Sbox(0x53) == 0xed && Sbox(0x5a) == 0xbe && Sbox(0x5d) == 0x4c && Sbox(0x5e) == 0x58
    ensures Sbox(0x69) == 0xf9 && Sbox(0x6c) == 0x50 && Sbox(0x7d) == 0xff && Sbox(0xa0) == 0xe0 && Sbox(0xa4) == 0x49
    ensures Sbox(0xab) == 0x62 && Sbox(0xb9) == 0x56 && Sbox(0xbc) == 0x65 && Sbox(0xca) == 0x74 && Sbox(0xd6) == 0xf6
  {}

  lemma Evaluates8()
    ensures RoundWord(0xd653a469, 0x6ca0bc0f, 0x5acaab5d, 0xb96c5e7d, 0x0bdc905f) == 0x5aa85839
    ensures RoundWord(0x6ca0bc0f, 0x5acaab5d, 0xb96c5e7d, 0xd653a469, 0xc27b0948) == 0x5fd28d7d
    ensures RoundWord(0x5acaab5d, 0xb96c5e7d, 0xd653a469, 0x6ca0bc0f, 0xad5245a4) == 0x05e1a388
    ensures RoundWord(0xb96c5e7d, 0xd653a469, 0x6ca0bc0f, 0x5acaab5d, 0xc1871c2f) == 0x68f3b9c5
  {
    hide Sbox;
    Subs8();
  }

  lemma Subs9()
    ensures Sbox(0x05) == 0x6b && Sbox(0x39) == 0x12 && Sbox(0x58) == 0x6a && Sbox(0x5a) == 0xbe && Sbox(0x5f) == 0xcf
    ensures Sbox(0x68) == 0x45 && Sbox(0x7d) == 0xff && Sbox(0x88) == 0xc4 && Sbox(0x8d) == 0x5d && Sbox(0xa3) == 0x0a
    ensures Sbox(0xa8) == 0xc2 && Sbox(0xb9) == 0x56 && Sbox(0xc5) == 0xa6 && Sbox(0xd2) == 0xb5 && Sbox(0xe1) == 0xf8
    ensures Sbox(0xf3) == 0x0d
  {}

  lemma Evaluates9()
    ensures RoundWord(0x5aa85839, 0x5fd28d7d, 0x05e1a388, 0x68f3b9c5, 0x45f5a660) == 0x4a824851
    ensures RoundWord(0x5fd28d7d, 0x05e1a388, 0x68f3b9c5, 0x5aa85839, 0x17b2d387) == 0xc57e7e47
    ensures RoundWord(0x05e1a388, 0x68f3b9c5, 0x5aa85839, 0x5fd28d7d, 0x300d4d33) == 0x643de50c
    ensures RoundWord(0x68f3b9c5, 0x5aa85839, 0x5fd28d7d, 0x05e1a388, 0x640a820a) == 0x2af3e8c9
  {
    hide Sbox;
    Subs9();
  }

  lemma Subs10()
    ensures Sbox(0x0c) == 0xfe && Sbox(0x2a) == 0xe5 && Sbox(0x3d) == 0x27 && Sbox(0x47) == 0xa0 && Sbox(0x48) == 0x52
    ensures Sbox(0x4a) == 0xd6 && Sbox(0x51) == 0xd1 && Sbox(0x64) == 0x43 && Sbox(0x7e) == 0xf3 && Sbox(0x82) == 0x13
    ensures Sbox(0xc5) == 0xa6 && Sbox(0xc9) == 0xdd && Sbox(0xe5) == 0xd9 && Sbox(0xe8) == 0x9b && Sbox(0xf3) == 0x0d
  {}

  lemma Evaluates10()
    ensures RoundWord(0x4a824851, 0xc57e7e47, 0x643de50c, 0x2af3e8c9, 0x7ccff71c) == 0xc14907f6
    ensures RoundWord(0xc57e7e47, 0x643de50c, 0x2af3e8c9, 0x4a824851, 0xbeb4fe54) == 0xca3b3aa0
    ensures RoundWord(0x643de50c, 0x2af3e8c9, 0x4a824851, 0xc57e7e47, 0x13e6bbf0) == 0x70e9aa31
    ensures RoundWord(0x2af3e8c9, 0x4a824851, 0xc57e7e47, 0x643de50c, 0xd261a7df) == 0x3b52b5ec
  {
    hide Sbox;
    Subs10();
  }

  lemma Subs11()
    ensures Sbox(0x07) == 0xc5 && Sbox(0x31) == 0xc7 && Sbox(0x3a) == 0x80 && Sbox(0x3b) == 0xe2 && Sbox(0x49) == 0x3b
    ensures Sbox(0x52) == 0x00 && Sbox(0x70) == 0x51 && Sbox(0xa0) == 0xe0 && Sbox(0xaa) == 0xac && Sbox(0xb5) == 0xd5
    ensures Sbox(0xc1) == 0x78 && Sbox(0xca) == 0x74 && Sbox(0xe9) == 0x1e && Sbox(0xec) == 0xce && Sbox(0xf6) == 0x42
  {}

  lemma Evaluates11()
    ensures RoundWord(0xc14907f6, 0xca3b3aa0, 0x70e9aa31, 0x3b52b5ec, 0xf01afafe) == 0x5f9c6abf
    ensures RoundWord(0xca3b3aa0, 0x70e9aa31, 0x3b52b5ec, 0xc14907f6, 0xe7a82979) == 0xbac634aa
    ensures RoundWord(0x70e9aa31, 0x3b52b5ec, 0xc14907f6, 0xca3b3aa0, 0xd7a5644a) == 0x50409fa7
    ensures RoundWord(0x3b52b5ec, 0xc14907f6, 0xca3b3aa0, 0x70e9aa31, 0xb3afe640) == 0x66677653
  {
    hide Sbox;
    Subs11();
  }

  lemma Subs12()
    ensures Sbox(0x34) == 0x18 && Sbox(0x40) == 0x09 && Sbox(0x50) == 0x53 && Sbox(0x53) == 0xed && Sbox(0x5f) == 0xcf
    ensures Sbox(0x66) == 0x33 && Sbox(0x67) == 0x85 && Sbox(0x6a) == 0x02 && Sbox(0x76) == 0x38 && Sbox(0x9c) == 0xde
    ensures Sbox(0x9f) == 0xdb && Sbox(0xa7) == 0x5c && Sbox(0xaa) == 0xac && Sbox(0xba) == 0xf4 && Sbox(0xbf) == 0x08
    ensures Sbox(0xc6) == 0xb4
  {}

  lemma Evaluates12()
    ensures RoundWord(0x5f9c6abf, 0xbac634aa, 0x50409fa7, 0x66677653, 0x2541fe71) == 0x51660495
    ensures RoundWord(0xbac634aa, 0x50409fa7, 0x66677653, 0x5f9c6abf, 0x9bf50025) == 0x43539503
    ensures RoundWord(0x50409fa7, 0x66677653, 0x5f9c6abf, 0xbac634aa, 0x8813bbd5) == 0x14fb86e4
    ensures RoundWord(0x66677653, 0x5f9c6abf, 0xbac634aa, 0x50409fa7, 0x5a721c0a) == 0x01922521
  {
    hide Sbox;
    Subs12();
  }

  lemma Subs13()
    ensures Sbox(0x01) == 0x7c && Sbox(0x03) == 0x7b && Sbox(0x04) == 0xf2 && Sbox(0x14) == 0xfa && Sbox(0x21) == 0xfd
    ensures Sbox(0x25) == 0x3f && Sbox(0x43) == 0x1a && Sbox(0x51) == 0xd1 && Sbox(0x53) == 0xed && Sbox(0x66) == 0x33
    ensures Sbox(0x86) == 0x44 && Sbox(0x92) == 0x4f && Sbox(0x95) == 0x2a && Sbox(0xe4) == 0x69 && Sbox(0xfb) == 0x0f
  {}

  lemma Evaluates13()
    ensures RoundWord(0x51660495, 0x43539503, 0x14fb86e4, 0x01922521, 0x4e5a6699) == 0x627bceb9
    ensures RoundWord(0x43539503, 0x14fb86e4, 0x01922521, 0x51660495, 0xa9f24fe0) == 0x999d5aaa
    ensures RoundWord(0x14fb86e4, 0x01922521, 0x51660495, 0x43539503, 0x7e572baa) == 0xc945ecf4
    ensures RoundWord(0x01922521, 0x51660495, 0x43539503, 0x14fb86e4, 0xcdf8cdea) == 0x23f56da5
  {
    hide Sbox;
    Subs13();
  }

  lemma Subs14()
    ensures Sbox(0x23) == 0x26 && Sbox(0x45) == 0x6e && Sbox(0x5a) == 0xbe && Sbox(0x62) == 0xaa && Sbox(0x6d) == 0x3c
    ensures Sbox(0x7b) == 0x21 && Sbox(0x99) == 0xee && Sbox(0x9d) == 0x5e && Sbox(0xa5) == 0x06 && Sbox(0xaa) == 0xac
    ensures Sbox(0xb9) == 0x56 && Sbox(0xc9) == 0xdd && Sbox(0xce) == 0x8b && Sbox(0xec) == 0xce && Sbox(0xf4) == 0xbf
    ensures Sbox(0xf5) == 0xe6
  {}

  lemma Evaluates14()
    ensures LastWord(0x627bceb9, 0x999d5aaa, 0xc945ecf4, 0x23f56da5, 0x24fc79cc) == 0x8ea2b7ca
    ensures LastWord(0x999d5aaa, 0xc945ecf4, 0x23f56da5, 0x627bceb9, 0xbf0979e9) == 0x516745bf
    ensures LastWord(0xc945ecf4, 0x23f56da5, 0x627bceb9, 0x999d5aaa, 0x371ac23c) == 0xeafc4990
    ensures LastWord(0x23f56da5, 0x627bceb9, 0x999d5aaa, 0xc945ecf4, 0x6d68de36) == 0x4b496089
  {
    hide Sbox;
    Subs14();
  }

  lemma FirstRounds()
    ensures StateIs(Rounds(PLAIN, KeySchedule(KEY), 5), 0xc357aae1, 0x1b45b7b0, 0xa2c7bd28, 0xa8dc99fa)
  {
    hide StateIs, RoundKeyIs, KeySchedule, Round, AddRoundKey, RoundWord, XorWord, KEY, PLAIN;
    FirstKeys(KEY);
    Keys2(KEY);
    Keys4(KEY);
    var w := KeySchedule(KEY);
    PlainWords();
    Evaluates0();
    Masks(PLAIN, KEY, 0x00112233, 0x44556677, 0x8899aabb, 0xccddeeff,
          0x00010203, 0x04050607, 0x08090a0b, 0x0c0d0e0f);
    Evaluates1();
    Advances(Rounds(PLAIN, w, 0), KEY, 1, 0x00102030, 0x40506070, 0x8090a0b0, 0xc0d0e0f0,
             0x10111213, 0x14151617, 0x18191a1b, 0x1c1d1e1f);
    Evaluates2();
    Advances(Rounds(PLAIN, w, 1), KEY, 2, 0x4f637606, 0x43e0aa85, 0xefa72132, 0x01a4e705,
             0xa573c29f, 0xa176c498, 0xa97fce93, 0xa572c09c);
    Evaluates3();
    Advances(Rounds(PLAIN, w, 2), KEY, 3, 0x1859fbc2, 0x8a1c00a0, 0x78ed8aad, 0xc42f6109,
             0x1651a8cd, 0x0244beda, 0x1a5da4c1, 0x0640bade);
    Evaluates4();
    Advances(Rounds(PLAIN, w, 3), KEY, 4, 0x975c66c1, 0xcb9f3fa8, 0xa93a28df, 0x8ee10f63,
             0xae87dff0, 0x0ff11b68, 0xa68ed5fb, 0x03fc1567);
    Evaluates5();
    Advances(Rounds(PLAIN, w, 4), KEY, 5, 0x1c05f271, 0xa417e04f, 0xf921c5c1, 0x04701554,
             0x6de1f148, 0x6fa54f92, 0x75f8eb53, 0x73b8518d);
  }

  lemma MoreRounds()
    ensures StateIs(Rounds(PLAIN, KeySchedule(KEY), 9), 0x4a824851, 0xc57e7e47, 0x643de50c, 0x2af3e8c9)
  {
    hide StateIs, RoundKeyIs, KeySchedule, Round, AddRoundKey, RoundWord, XorWord, KEY, PLAIN;
    Keys6(KEY);
    Keys8(KEY);
    var w := KeySchedule(KEY);
    FirstRounds();
    Evaluates6();
    Advances(Rounds(PLAIN, w, 5), KEY, 6, 0xc357aae1, 0x1b45b7b0, 0xa2c7bd28, 0xa8dc99fa,
             0xc656827f, 0xc9a79917, 0x6f294cec, 0x6cd5598b);
    Evaluates7();
    Advances(Rounds(PLAIN, w, 6), KEY, 7, 0x7f074143, 0xcb4e243e, 0xc10c815d, 0x8375d54c,
             0x3de23a75, 0x524775e7, 0x27bf9eb4, 0x5407cf39);
    Evaluates8();
    Advances(Rounds(PLAIN, w, 7), KEY, 8, 0xd653a469, 0x6ca0bc0f, 0x5acaab5d, 0xb96c5e7d,
             0x0bdc905f, 0xc27b0948, 0xad5245a4, 0xc1871c2f);
    Evaluates9();
    Advances(Rounds(PLAIN, w, 8), KEY, 9, 0x5aa85839, 0x5fd28d7d, 0x05e1a388, 0x68f3b9c5,
             0x45f5a660, 0x17b2d387, 0x300d4d33, 0x640a820a);
  }

  lemma AllRounds()
    ensures StateIs(Rounds(PLAIN, KeySchedule(KEY), 13), 0x627bceb9, 0x999d5aaa, 0xc945ecf4, 0x23f56da5)
  {
    hide StateIs, RoundKeyIs, KeySchedule, Round, AddRoundKey, RoundWord, XorWord, KEY, PLAIN;
    Keys10(KEY);
    Keys12(KEY);
    var w := KeySchedule(KEY);
    MoreRounds();
    Evaluates10();
    Advances(Rounds(PLAIN, w, 9), KEY, 10, 0x4a824851, 0xc57e7e47, 0x643de50c, 0x2af3e8c9,
             0x7ccff71c, 0xbeb4fe54, 0x13e6bbf0, 0xd261a7df);
    Evaluates11();
    Advances(Rounds(PLAIN, w, 10), KEY, 11, 0xc14907f6, 0xca3b3aa0, 0x70e9aa31, 0x3b52b5ec,
             0xf01afafe, 0xe7a82979, 0xd7a5644a, 0xb3afe640);
    Evaluates12();
    Advances(Rounds(PLAIN, w, 11), KEY, 12, 0x5f9c6abf, 0xbac634aa, 0x50409fa7, 0x66677653,
             0x2541fe71, 0x9bf50025, 0x8813bbd5, 0x5a721c0a);
    Evaluates13();
    Advances(Rounds(PLAIN, w, 12), KEY, 13, 0x51660495, 0x43539503, 0x14fb86e4, 0x01922521,
             0x4e5a6699, 0xa9f24fe0, 0x7e572baa, 0xcdf8cdea);
  }

  lemma EncryptedWords(s: Block)
    requires StateIs(s, 0x8ea2b7ca, 0x516745bf, 0xeafc4990, 0x4b496089)
    ensures s == ENCRYPTED
  {
    SameWord(s[0], s[1], s[2], s[3], 0x8e, 0xa2, 0xb7, 0xca);
    SameWord(s[4], s[5], s[6], s[7], 0x51, 0x67, 0x45, 0xbf);
    SameWord(s[8], s[9], s[10], s[11], 0xea, 0xfc, 0x49, 0x90);
    SameWord(s[12], s[13], s[14], s[15], 0x4b, 0x49, 0x60, 0x89);
  }

  lemma SameWord(a0: bv8, a1: bv8, a2: bv8, a3: bv8, b0: bv8, b1: bv8, b2: bv8, b3: bv8)
    requires Word(a0, a1, a2, a3) == Word(b0, b1, b2, b3)
    ensures a0 == b0 && a1 == b1 && a2 == b2 && a3 == b3
  {
    hide Word;
    BytesOfWord(a0, a1, a2, a3);
    BytesOfWord(b0, b1, b2, b3);
  }

  /** The cipher gives the ciphertext the standard prints. */
  lemma ExampleEncrypts()
    ensures Cipher(KeySchedule(KEY), PLAIN) == ENCRYPTED
  {
    hide StateIs, RoundKeyIs, KeySchedule, Rounds, AddRoundKey, ShiftRows, SubBytes, LastWord, KEY, PLAIN, ENCRYPTED;
    AllRounds();
    Keys14(KEY);
    Evaluates14();
    Ends(Rounds(PLAIN, KeySchedule(KEY), 13), KEY, 0x627bceb9, 0x999d5aaa, 0xc945ecf4, 0x23f56da5,
         0x24fc79cc, 0xbf0979e9, 0x371ac23c, 0x6d68de36);
    EncryptedWords(Cipher(KeySchedule(KEY), PLAIN));
  }
}
