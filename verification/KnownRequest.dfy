/** The first 36 bytes of the protocol's keystream, and the known request that they give. */
module KnownRequest {
  import opened Results
  import opened Bits
  import opened Cipher
  import opened Tlv
  import opened Escp

  // ---------- one round ----------

  /** The protocol's table after n rounds. */
  function TableAfter(n: nat): Table {
    After(CipherState(), n).table
  }

  function Position(n: nat): byte {
    After(CipherState(), n).j
  }

  function Key(n: nat): byte {
    KeyByte(CipherState(), n)
  }

  lemma Begin()
    ensures Position(0) == 0 && forall k :: 0 <= k < 256 ==> TableAfter(0)[k] == TableEntry(k)
  {
  }

  /** Round n, which reads a at n and b at its new position j. */
  lemma Turn(n: nat, a: byte, j: byte, b: byte)
    requires 0 < n < 256
    requires TableAfter(n - 1)[n] == a && Sum(Position(n - 1), a) == j && TableAfter(n - 1)[j] == b
    ensures Position(n) == j && TableAfter(n)[n] == b && TableAfter(n)[j] == a
    ensures forall k :: 0 <= k < 256 && k != n && k != j ==> TableAfter(n)[k] == TableAfter(n - 1)[k]
    ensures Key(n - 1) == TableAfter(n)[Sum(a, b)]
  {
    hide TableEntry, CipherState;
  }

  // ---------- the table ----------

  lemma Row0()
    ensures TableEntry(0) == 0xbf && TableEntry(1) == 0x9b && TableEntry(2) == 0xe3 && TableEntry(3) == 0xca
    ensures TableEntry(4) == 0x63 && TableEntry(5) == 0xa2 && TableEntry(6) == 0x4f && TableEntry(7) == 0x68
    ensures TableEntry(8) == 0x31 && TableEntry(9) == 0x12 && TableEntry(10) == 0xbe && TableEntry(11) == 0xa4
    ensures TableEntry(12) == 0x1e && TableEntry(13) == 0x4c && TableEntry(14) == 0xbd && TableEntry(15) == 0x83
  {
  }

  lemma Row1()
    ensures TableEntry(16) == 0x17 && TableEntry(17) == 0x34 && TableEntry(18) == 0x56 && TableEntry(19) == 0x6a
    ensures TableEntry(20) == 0xcf && TableEntry(21) == 0x7d && TableEntry(22) == 0x7e && TableEntry(23) == 0xa9
    ensures TableEntry(24) == 0xc4 && TableEntry(25) == 0x1c && TableEntry(26) == 0xac && TableEntry(27) == 0x3a
    ensures TableEntry(28) == 0xbc && TableEntry(29) == 0x84 && TableEntry(30) == 0xa0 && TableEntry(31) == 0x03
  {
  }

  lemma Row2()
    ensures TableEntry(32) == 0x24 && TableEntry(33) == 0x78 && TableEntry(34) == 0x90 && TableEntry(35) == 0xa8
    ensures TableEntry(36) == 0x0c && TableEntry(37) == 0xe7 && TableEntry(38) == 0x74 && TableEntry(39) == 0x2c
    ensures TableEntry(40) == 0x29 && TableEntry(41) == 0x61 && TableEntry(42) == 0x6c && TableEntry(43) == 0xd5
    ensures TableEntry(44) == 0x2a && TableEntry(45) == 0xc6 && TableEntry(46) == 0x20 && TableEntry(47) == 0x94
  {
  }

  lemma Row3()
    ensures TableEntry(48) == 0xda && TableEntry(49) == 0x6b && TableEntry(50) == 0xf7 && TableEntry(51) == 0x70
    ensures TableEntry(52) == 0xcc && TableEntry(53) == 0x0e && TableEntry(54) == 0x42 && TableEntry(55) == 0x44
    ensures TableEntry(56) == 0x5b && TableEntry(57) == 0xe0 && TableEntry(58) == 0xce && TableEntry(59) == 0xeb
    ensures TableEntry(60) == 0x21 && TableEntry(61) == 0x82 && TableEntry(62) == 0xcb && TableEntry(63) == 0xb2
  {
  }

  lemma Row4()
    ensures TableEntry(64) == 0x01 && TableEntry(65) == 0x86 && TableEntry(66) == 0xc7 && TableEntry(67) == 0x4e
    ensures TableEntry(68) == 0xf9 && TableEntry(69) == 0x7b && TableEntry(70) == 0x07 && TableEntry(71) == 0x91
    ensures TableEntry(72) == 0x49 && TableEntry(73) == 0xd0 && TableEntry(74) == 0xd1 && TableEntry(75) == 0x64
    ensures TableEntry(76) == 0x4a && TableEntry(77) == 0x73 && TableEntry(78) == 0x48 && TableEntry(79) == 0x76
  {
  }

  lemma Row5()
    ensures TableEntry(80) == 0x08 && TableEntry(81) == 0x16 && TableEntry(82) == 0xf3 && TableEntry(83) == 0x93
    ensures TableEntry(84) == 0x40 && TableEntry(85) == 0x60 && TableEntry(86) == 0x05 && TableEntry(87) == 0x57
    ensures TableEntry(88) == 0x3c && TableEntry(89) == 0x71 && TableEntry(90) == 0xe9 && TableEntry(91) == 0x98
    ensures TableEntry(92) == 0x1f && TableEntry(93) == 0xdb && TableEntry(94) == 0x8f && TableEntry(95) == 0xae
  {
  }

  lemma Row6()
    ensures TableEntry(96) == 0xe8 && TableEntry(97) == 0x99 && TableEntry(98) == 0xf5 && TableEntry(99) == 0x9e
    ensures TableEntry(100) == 0xfe && TableEntry(101) == 0x46 && TableEntry(102) == 0xaa && TableEntry(103) == 0x4b
    ensures TableEntry(104) == 0x4d && TableEntry(105) == 0xd7 && TableEntry(106) == 0xd3 && TableEntry(107) == 0x3b
    ensures TableEntry(108) == 0x47 && TableEntry(109) == 0x85 && TableEntry(110) == 0xd6 && TableEntry(111) == 0x9d
  {
  }

  lemma Row7()
    ensures TableEntry(112) == 0x97 && TableEntry(113) == 0x06 && TableEntry(114) == 0x2e && TableEntry(115) == 0x51
    ensures TableEntry(116) == 0x5e && TableEntry(117) == 0x88 && TableEntry(118) == 0xa6 && TableEntry(119) == 0xd2
    ensures TableEntry(120) == 0x04 && TableEntry(121) == 0x2b && TableEntry(122) == 0xf1 && TableEntry(123) == 0x1d
    ensures TableEntry(124) == 0xdf && TableEntry(125) == 0xb0 && TableEntry(126) == 0x43 && TableEntry(127) == 0x3f
  {
  }

  lemma Row8()
    ensures TableEntry(128) == 0xba && TableEntry(129) == 0x89 && TableEntry(130) == 0x81 && TableEntry(131) == 0x28
    ensures TableEntry(132) == 0xf8 && TableEntry(133) == 0xff && TableEntry(134) == 0x37 && TableEntry(135) == 0x0f
    ensures TableEntry(136) == 0x3e && TableEntry(137) == 0xb7 && TableEntry(138) == 0xde && TableEntry(139) == 0x69
    ensures TableEntry(140) == 0xec && TableEntry(141) == 0xc5 && TableEntry(142) == 0x7f && TableEntry(143) == 0x36
  {
  }

  lemma Row9()
    ensures TableEntry(144) == 0xb3 && TableEntry(145) == 0xc2 && TableEntry(146) == 0xe5 && TableEntry(147) == 0xb9
    ensures TableEntry(148) == 0x25 && TableEntry(149) == 0x5a && TableEntry(150) == 0xed && TableEntry(151) == 0xb8
    ensures TableEntry(152) == 0x19 && TableEntry(153) == 0x9c && TableEntry(154) == 0xad && TableEntry(155) == 0x1a
    ensures TableEntry(156) == 0xbb && TableEntry(157) == 0xdc && TableEntry(158) == 0x02 && TableEntry(159) == 0xe1
  {
  }

  lemma Row10()
    ensures TableEntry(160) == 0x00 && TableEntry(161) == 0xf0 && TableEntry(162) == 0x32 && TableEntry(163) == 0xfb
    ensures TableEntry(164) == 0xd4 && TableEntry(165) == 0xfd && TableEntry(166) == 0xa7 && TableEntry(167) == 0x11
    ensures TableEntry(168) == 0xc1 && TableEntry(169) == 0xcd && TableEntry(170) == 0xb1 && TableEntry(171) == 0x15
    ensures TableEntry(172) == 0xb5 && TableEntry(173) == 0xf6 && TableEntry(174) == 0x52 && TableEntry(175) == 0xe2
  {
  }

  lemma Row11()
    ensures TableEntry(176) == 0x26 && TableEntry(177) == 0x65 && TableEntry(178) == 0xa3 && TableEntry(179) == 0xb6
    ensures TableEntry(180) == 0xf2 && TableEntry(181) == 0x5c && TableEntry(182) == 0x14 && TableEntry(183) == 0x0b
    ensures TableEntry(184) == 0x5f && TableEntry(185) == 0x0d && TableEntry(186) == 0xe6 && TableEntry(187) == 0x10
    ensures TableEntry(188) == 0x79 && TableEntry(189) == 0x7c && TableEntry(190) == 0x6d && TableEntry(191) == 0xc3
  {
  }

  lemma Row12()
    ensures TableEntry(192) == 0x75 && TableEntry(193) == 0x27 && TableEntry(194) == 0x62 && TableEntry(195) == 0xef
    ensures TableEntry(196) == 0x54 && TableEntry(197) == 0x38 && TableEntry(198) == 0x8b && TableEntry(199) == 0xa1
    ensures TableEntry(200) == 0x2f && TableEntry(201) == 0xc9 && TableEntry(202) == 0x33 && TableEntry(203) == 0x87
    ensures TableEntry(204) == 0xfa && TableEntry(205) == 0x0a && TableEntry(206) == 0x13 && TableEntry(207) == 0x96
  {
  }

  lemma Row13()
    ensures TableEntry(208) == 0x2d && TableEntry(209) == 0x6f && TableEntry(210) == 0x1b && TableEntry(211) == 0x18
    ensures TableEntry(212) == 0x8e && TableEntry(213) == 0x50 && TableEntry(214) == 0x55 && TableEntry(215) == 0x53
    ensures TableEntry(216) == 0xea && TableEntry(217) == 0x8a && TableEntry(218) == 0xd8 && TableEntry(219) == 0x39
    ensures TableEntry(220) == 0x5d && TableEntry(221) == 0x41 && TableEntry(222) == 0x9a && TableEntry(223) == 0x8d
  {
  }

  lemma Row14()
    ensures TableEntry(224) == 0x7a && TableEntry(225) == 0x22 && TableEntry(226) == 0x8c && TableEntry(227) == 0x80
    ensures TableEntry(228) == 0xee && TableEntry(229) == 0x58 && TableEntry(230) == 0x59 && TableEntry(231) == 0x09
    ensures TableEntry(232) == 0x92 && TableEntry(233) == 0xab && TableEntry(234) == 0x95 && TableEntry(235) == 0x35
    ensures TableEntry(236) == 0x66 && TableEntry(237) == 0x3d && TableEntry(238) == 0x72 && TableEntry(239) == 0x45
  {
  }

  lemma Row15()
    ensures TableEntry(240) == 0xd9 && TableEntry(241) == 0xaf && TableEntry(242) == 0x67 && TableEntry(243) == 0xe4
    ensures TableEntry(244) == 0x23 && TableEntry(245) == 0xb4 && TableEntry(246) == 0xfc && TableEntry(247) == 0xc8
    ensures TableEntry(248) == 0xc0 && TableEntry(249) == 0xa5 && TableEntry(250) == 0x9f && TableEntry(251) == 0xdd
    ensures TableEntry(252) == 0xf4 && TableEntry(253) == 0x6e && TableEntry(254) == 0x77 && TableEntry(255) == 0x30
  {
  }

  /** The table holds every byte, so it is a permutation of them. */
  lemma EveryByteOccurs(v: byte)
    ensures exists k: nat :: k < 256 && TableEntry(k) == v
  {
    hide TableEntry;
    Row0();
    Row1();
    Row2();
    Row3();
    Row4();
    Row5();
    Row6();
    Row7();
    Row8();
    Row9();
    Row10();
    Row11();
    Row12();
    Row13();
    Row14();
    Row15();
  }

  // ---------- the rounds ----------

  /** The entries after 3 rounds that later rounds read. */
  ghost predicate Shows3(t: Table) {
    && t[4] == 0x63 && t[5] == 0xa2 && t[6] == 0x4f && t[7] == 0x68 && t[8] == 0x31 && t[9] == 0x12
    && t[10] == 0xbe && t[11] == 0xa4 && t[12] == 0x1e && t[13] == 0x4c && t[14] == 0xbd && t[15] == 0x83
    && t[16] == 0x17 && t[17] == 0x34 && t[18] == 0x56 && t[19] == 0x6a && t[20] == 0xcf && t[21] == 0x7d
    && t[22] == 0x7e && t[23] == 0xa9 && t[24] == 0xc4 && t[25] == 0x1c && t[26] == 0xac && t[27] == 0x3a
    && t[28] == 0xbc && t[29] == 0x84 && t[30] == 0xa0 && t[31] == 0x03 && t[32] == 0x24 && t[33] == 0x78
    && t[34] == 0x90 && t[35] == 0xa8 && t[36] == 0x0c && t[45] == 0xc6 && t[48] == 0xda && t[49] == 0x6b
    && t[53] == 0x0e && t[54] == 0x42 && t[56] == 0x5b && t[60] == 0x21 && t[63] == 0xb2 && t[64] == 0x01
    && t[71] == 0x91 && t[77] == 0x73 && t[83] == 0x93 && t[89] == 0x71 && t[92] == 0x1f && t[94] == 0x8f
    && t[95] == 0xae && t[98] == 0xf5 && t[101] == 0x46 && t[105] == 0xd7 && t[106] == 0xd3 && t[113] == 0x06
    && t[119] == 0xd2 && t[120] == 0x04 && t[121] == 0x2b && t[125] == 0xb0 && t[128] == 0xba && t[130] == 0x81
    && t[136] == 0x3e && t[140] == 0xec && t[145] == 0xc2 && t[147] == 0xb9 && t[150] == 0xed && t[156] == 0xbb
    && t[158] == 0x02 && t[163] == 0xfb && t[169] == 0xcd && t[171] == 0x15 && t[179] == 0xb6 && t[182] == 0x14
    && t[185] == 0x0d && t[191] == 0xc3 && t[199] == 0xa1 && t[206] == 0x13 && t[208] == 0x2d && t[213] == 0x50
    && t[222] == 0x9a && t[234] == 0x95 && t[237] == 0x3d && t[241] == 0xaf && t[244] == 0x23 && t[248] == 0xc0
  }

  lemma Keys0To2()
    ensures Position(3) == 72 && Shows3(TableAfter(3))
    ensures Key(0) == 0x5c && Key(1) == 0x74 && Key(2) == 0x6a
  {
    hide TableAfter, Position, Key, TableEntry;
    Begin();
    Row0();
    Row1();
    Row2();
    Row3();
    Row4();
    Row5();
    Row6();
    Row7();
    Row8();
    Row9();
    Row10();
    Row11();
    Row12();
    Row13();
    Row14();
    Row15();
    Turn(1, 0x9b, 155, 0x1a);
    Turn(2, 0xe3, 126, 0x43);
    Turn(3, 0xca, 72, 0x49);
  }

  /** The entries after 6 rounds that later rounds read. */
  ghost predicate Shows6(t: Table) {
    && t[4] == 0x15 && t[5] == 0x73 && t[7] == 0x68 && t[8] == 0x31 && t[9] == 0x12 && t[10] == 0xbe
    && t[11] == 0xa4 && t[12] == 0x1e && t[13] == 0x4c && t[14] == 0xbd && t[15] == 0x83 && t[16] == 0x17
    && t[17] == 0x34 && t[18] == 0x56 && t[19] == 0x6a && t[20] == 0xcf && t[21] == 0x7d && t[22] == 0x7e
    && t[23] == 0xa9 && t[24] == 0xc4 && t[25] == 0x1c && t[26] == 0xac && t[27] == 0x3a && t[28] == 0xbc
    && t[29] == 0x84 && t[30] == 0xa0 && t[31] == 0x03 && t[32] == 0x24 && t[33] == 0x78 && t[34] == 0x90
    && t[35] == 0xa8 && t[36] == 0x0c && t[45] == 0xc6 && t[48] == 0xda && t[49] == 0x6b && t[53] == 0x0e
    && t[54] == 0x42 && t[56] == 0x5b && t[60] == 0x21 && t[63] == 0xb2 && t[64] == 0x01 && t[71] == 0x91
    && t[77] == 0xa2 && t[83] == 0x93 && t[89] == 0x71 && t[92] == 0x1f && t[94] == 0x8f && t[95] == 0xae
    && t[98] == 0xf5 && t[101] == 0x46 && t[105] == 0xd7 && t[106] == 0xd3 && t[113] == 0x06 && t[119] == 0xd2
    && t[121] == 0x2b && t[125] == 0xb0 && t[128] == 0xba && t[130] == 0x81 && t[136] == 0x3e && t[140] == 0xec
    && t[145] == 0xc2 && t[147] == 0xb9 && t[150] == 0xed && t[158] == 0x02 && t[163] == 0xfb && t[169] == 0xcd
    && t[179] == 0xb6 && t[182] == 0x14 && t[185] == 0x0d && t[191] == 0xc3 && t[199] == 0xa1 && t[206] == 0x13
    && t[208] == 0x2d && t[213] == 0x50 && t[222] == 0x9a && t[234] == 0x95 && t[237] == 0x3d && t[241] == 0xaf
    && t[244] == 0x23 && t[248] == 0xc0
  }

  lemma Keys3To5()
    ensures Position(6) == 156 && Shows6(TableAfter(6))
    ensures Key(3) == 0x04 && Key(4) == 0x7d && Key(5) == 0xbe
  {
    hide TableAfter, Position, Key, TableEntry;
    Keys0To2();
    Turn(4, 0x63, 171, 0x15);
    Turn(5, 0xa2, 77, 0x73);
    Turn(6, 0x4f, 156, 0xbb);
  }

  /** The entries after 10 rounds that later rounds read. */
  ghost predicate Shows10(t: Table) {
    && t[10] == 0x73 && t[11] == 0xa4 && t[12] == 0x1e && t[13] == 0x4c && t[14] == 0xbd && t[15] == 0x83
    && t[16] == 0x17 && t[17] == 0x34 && t[18] == 0x56 && t[19] == 0x6a && t[20] == 0xcf && t[21] == 0x7d
    && t[22] == 0x7e && t[23] == 0xa9 && t[24] == 0xc4 && t[25] == 0x1c && t[26] == 0xac && t[27] == 0x3a
    && t[28] == 0xbc && t[29] == 0x84 && t[30] == 0xa0 && t[31] == 0x03 && t[32] == 0x24 && t[33] == 0x78
    && t[34] == 0x90 && t[35] == 0xa8 && t[36] == 0x0c && t[45] == 0xc6 && t[48] == 0xda && t[53] == 0x31
    && t[54] == 0x42 && t[56] == 0x5b && t[60] == 0x21 && t[63] == 0xb2 && t[64] == 0x01 && t[77] == 0xa2
    && t[83] == 0x93 && t[89] == 0x71 && t[92] == 0x1f && t[94] == 0x8f && t[95] == 0xae && t[98] == 0xf5
    && t[101] == 0x46 && t[105] == 0xd7 && t[106] == 0xd3 && t[113] == 0x06 && t[119] == 0xd2 && t[121] == 0x2b
    && t[128] == 0xba && t[130] == 0x81 && t[136] == 0x3e && t[140] == 0xec && t[145] == 0xc2 && t[147] == 0xb9
    && t[150] == 0xed && t[158] == 0x02 && t[169] == 0xcd && t[179] == 0xb6 && t[182] == 0x14 && t[185] == 0x0d
    && t[191] == 0xc3 && t[199] == 0xa1 && t[206] == 0x13 && t[208] == 0x2d && t[213] == 0x50 && t[222] == 0x9a
    && t[234] == 0x95 && t[237] == 0x3d && t[241] == 0xaf && t[244] == 0x23 && t[248] == 0xc0
  }

  lemma Keys6To9()
    ensures Position(10) == 5 && Shows10(TableAfter(10))
    ensures Key(6) == 0xb0 && Key(7) == 0xb2 && Key(8) == 0xfb && Key(9) == 0x6b
  {
    hide TableAfter, Position, Key, TableEntry;
    Keys3To5();
    Turn(7, 0x68, 4, 0x15);
    Turn(8, 0x31, 53, 0x0e);
    Turn(9, 0x12, 71, 0x91);
    Turn(10, 0xbe, 5, 0x73);
  }

  /** The entries after 15 rounds that later rounds read. */
  ghost predicate Shows15(t: Table) {
    && t[10] == 0x73 && t[15] == 0x93 && t[16] == 0x17 && t[17] == 0x34 && t[18] == 0x56 && t[19] == 0x4c
    && t[20] == 0xcf && t[21] == 0x7d && t[22] == 0x7e && t[23] == 0xa9 && t[24] == 0xc4 && t[25] == 0x1c
    && t[26] == 0xac && t[27] == 0x3a && t[28] == 0xbc && t[29] == 0x84 && t[30] == 0xa0 && t[31] == 0x03
    && t[32] == 0x24 && t[33] == 0x78 && t[34] == 0x90 && t[35] == 0xa8 && t[36] == 0x0c && t[45] == 0xc6
    && t[48] == 0xda && t[53] == 0x31 && t[54] == 0x42 && t[56] == 0x5b && t[60] == 0x21 && t[63] == 0xb2
    && t[64] == 0x01 && t[77] == 0xa2 && t[89] == 0x71 && t[92] == 0x1f && t[94] == 0x8f && t[95] == 0xae
    && t[98] == 0xf5 && t[101] == 0x46 && t[105] == 0xd7 && t[106] == 0xd3 && t[119] == 0xd2 && t[121] == 0x2b
    && t[128] == 0xba && t[130] == 0x81 && t[136] == 0x3e && t[140] == 0xec && t[145] == 0xc2 && t[147] == 0xb9
    && t[150] == 0xed && t[158] == 0x02 && t[179] == 0xb6 && t[185] == 0x0d && t[206] == 0x13 && t[213] == 0x50
    && t[222] == 0x9a && t[234] == 0x95 && t[237] == 0x3d && t[241] == 0xaf && t[244] == 0x23 && t[248] == 0xc0
  }

  lemma Keys10To14()
    ensures Position(15) == 83 && Shows15(TableAfter(15))
    ensures Key(10) == 0x06 && Key(11) == 0xc3 && Key(12) == 0x14 && Key(13) == 0x95 && Key(14) == 0x7e
  {
    hide TableAfter, Position, Key, TableEntry;
    Keys6To9();
    Turn(11, 0xa4, 169, 0xcd);
    Turn(12, 0x1e, 199, 0xa1);
    Turn(13, 0x4c, 19, 0x6a);
    Turn(14, 0xbd, 208, 0x2d);
    Turn(15, 0x83, 83, 0x93);
  }

  /** The entries after 21 rounds that later rounds read. */
  ghost predicate Shows21(t: Table) {
    && t[10] == 0x73 && t[17] == 0x02 && t[22] == 0x7e && t[23] == 0xa9 && t[24] == 0xc4 && t[25] == 0x1c
    && t[26] == 0xac && t[27] == 0x3a && t[28] == 0xbc && t[29] == 0x84 && t[30] == 0xa0 && t[31] == 0x03
    && t[32] == 0x24 && t[33] == 0x78 && t[34] == 0x90 && t[35] == 0xa8 && t[36] == 0x0c && t[45] == 0xc6
    && t[48] == 0xda && t[53] == 0x31 && t[56] == 0x5b && t[60] == 0x21 && t[63] == 0xb2 && t[89] == 0x71
    && t[92] == 0x1f && t[94] == 0x8f && t[95] == 0xae && t[101] == 0x46 && t[119] == 0xd2 && t[121] == 0x2b
    && t[128] == 0xba && t[130] == 0x81 && t[136] == 0x3e && t[145] == 0xc2 && t[147] == 0xb9 && t[150] == 0xed
    && t[179] == 0xb6 && t[185] == 0x0d && t[206] == 0x13 && t[213] == 0x50 && t[222] == 0x9a && t[237] == 0x3d
    && t[241] == 0xaf && t[248] == 0xc0
  }

  lemma Keys15To20()
    ensures Position(21) == 140 && Shows21(TableAfter(21))
    ensures Key(15) == 0x95 && Key(16) == 0x42 && Key(17) == 0x2b && Key(18) == 0xa2 && Key(19) == 0xf5
    ensures Key(20) == 0xd7
  {
    hide TableAfter, Position, Key, TableEntry;
    Keys10To14();
    Turn(16, 0x17, 106, 0xd3);
    Turn(17, 0x34, 158, 0x02);
    Turn(18, 0x56, 244, 0x23);
    Turn(19, 0x4c, 64, 0x01);
    Turn(20, 0xcf, 15, 0x93);
    Turn(21, 0x7d, 140, 0xec);
  }

  /** The entries after 28 rounds that later rounds read. */
  ghost predicate Shows28(t: Table) {
    && t[17] == 0x02 && t[29] == 0x84 && t[30] == 0xa0 && t[31] == 0x03 && t[32] == 0x24 && t[33] == 0x78
    && t[34] == 0x90 && t[35] == 0xa8 && t[36] == 0x0c && t[45] == 0xc6 && t[48] == 0xda && t[56] == 0x5b
    && t[60] == 0x21 && t[89] == 0x71 && t[92] == 0x1f && t[128] == 0xba && t[130] == 0x81 && t[136] == 0x3e
    && t[145] == 0xc2 && t[185] == 0x0d && t[206] == 0x13 && t[222] == 0x9a && t[248] == 0xc0
  }

  lemma Keys21To27()
    ensures Position(28) == 53 && Shows28(TableAfter(28))
    ensures Key(21) == 0xaf && Key(22) == 0xae && Key(23) == 0xed && Key(24) == 0x50 && Key(25) == 0x8f
    ensures Key(26) == 0x46 && Key(27) == 0x3d
  {
    hide TableAfter, Position, Key, TableEntry;
    Keys15To20();
    Turn(22, 0x7e, 10, 0x73);
    Turn(23, 0xa9, 179, 0xb6);
    Turn(24, 0xc4, 119, 0xd2);
    Turn(25, 0x1c, 147, 0xb9);
    Turn(26, 0xac, 63, 0xb2);
    Turn(27, 0x3a, 121, 0x2b);
    Turn(28, 0xbc, 53, 0x31);
  }

  lemma Keys28To35()
    ensures Key(28) == 0xc2 && Key(29) == 0x02 && Key(30) == 0x90 && Key(31) == 0x9a && Key(32) == 0x5b
    ensures Key(33) == 0x13 && Key(34) == 0x81 && Key(35) == 0xc6
  {
    hide TableAfter, Position, Key, TableEntry;
    Keys21To27();
    Turn(29, 0x84, 185, 0x0d);
    Turn(30, 0xa0, 89, 0x71);
    Turn(31, 0x03, 92, 0x1f);
    Turn(32, 0x24, 128, 0xba);
    Turn(33, 0x78, 248, 0xc0);
    Turn(34, 0x90, 136, 0x3e);
    Turn(35, 0xa8, 48, 0xda);
    Turn(36, 0x0c, 60, 0x21);
  }

  // ---------- the known request ----------

  lemma {:induction false} XorOfZero(b: nat)
    ensures XorNat(0, b) == b
  {
    if b > 0 {
      XorOfZero(b / 2);
    }
  }

  /** The request before encryption, for client 02:00:00:00:00:01 and sequence 1. */
  function PlainRequest(): (b: seq<byte>)
    ensures |b| == 36
  {
    [1, 0, 0, 0, 0, 0, 0, 0, 2, 0, 0, 0, 0, 1, 0, 1, 0, 0,
     0, 0, 0, 36, 0, 0, 0, 0, 0, 0, 0, 0, 0, 0, 255, 255, 0, 0]
  }

  /** The same request as it is sent. */
  function SentRequest(): (b: seq<byte>)
    ensures |b| == 36
  {
    [0x5d, 0x74, 0x6a, 0x04, 0x7d, 0xbe, 0xb0, 0xb2, 0xf9, 0x6b, 0x06, 0xc3, 0x14, 0x94, 0x7e, 0x94, 0x42, 0x2b,
     0xa2, 0xf5, 0xd7, 0x8b, 0xae, 0xed, 0x50, 0x8f, 0x46, 0x3d, 0xc2, 0x02, 0x90, 0x9a, 0xa4, 0xec, 0x81, 0xc6]
  }

  lemma RequestIsPlain()
    ensures Plain(Header(1, DISCOVERY_REQUEST, [0, 0, 0, 0, 0, 0], [2, 0, 0, 0, 0, 1], 1, 0, 36, 0, 0, 0, 0), []) ==
            PlainRequest()
  {
  }

  /** The exclusive or, one binary digit at a time. */
  lemma Halves(a: nat, b: nat)
    requires a > 0 || b > 0
    ensures XorNat(a, b) == 2 * XorNat(a / 2, b / 2) + if a % 2 == b % 2 then 0 else 1
  {
  }

  lemma {:induction false} XorOfOnes(n: nat, b: nat)
    requires b < Pow2(n)
    ensures XorNat(Pow2(n) - 1, b) == Pow2(n) - 1 - b
  {
    if n > 0 {
      var ones, half := Pow2(n) - 1, Pow2(n - 1) - 1;
      assert ones == 2 * half + 1;
      XorOfOnes(n - 1, b / 2);
      Halves(ones, b);
      hide XorNat, Pow2;
      assert ones / 2 == half && ones % 2 == 1;
    }
  }

  lemma BytesThatAreNotZero()
    ensures XorNat(1, 0x5c) == 0x5d && XorNat(2, 0xfb) == 0xf9 && XorNat(1, 0x95) == 0x94
    ensures XorNat(36, 0xaf) == 0x8b && XorNat(255, 0x5b) == 0xa4 && XorNat(255, 0x13) == 0xec
  {
    assert Pow2(8) == 256;
    XorOfOnes(8, 0x5b);
    XorOfOnes(8, 0x13);
    hide XorNat;
    Halves(1, 0x5c);
    XorOfZero(0x2e);
    Halves(1, 0x95);
    XorOfZero(0x4a);
    Halves(2, 0xfb);
    Halves(1, 0x7d);
    XorOfZero(0x3e);
    Halves(36, 0xaf);
    Halves(18, 0x57);
    Halves(9, 0x2b);
    Halves(4, 0x15);
    Halves(2, 0x0a);
    Halves(1, 0x05);
    XorOfZero(0x02);
  }

  lemma EncryptedByte(k: nat, plain: byte, key: byte, sent: byte)
    requires k < 36 && PlainRequest()[k] == plain && Key(k) == key && XorNat(plain, key) == sent
    ensures Crypt(PlainRequest())[k] == sent
  {
    hide XorNat, KeyByte, PlainRequest;
  }

  lemma EncryptedZero(k: nat, key: byte)
    requires k < 36 && PlainRequest()[k] == 0 && Key(k) == key
    ensures Crypt(PlainRequest())[k] == key
  {
    XorOfZero(key);
    EncryptedByte(k, 0, key, key);
  }

  lemma Sent0To2()
    ensures var r := Crypt(PlainRequest());
            && r[0] == 0x5d && r[1] == 0x74 && r[2] == 0x6a
  {
    hide Crypt, Key, XorNat, TableAfter, Position, Shows3;
    Keys0To2();
    BytesThatAreNotZero();
    EncryptedByte(0, 1, 0x5c, 0x5d);
    EncryptedZero(1, 0x74);
    EncryptedZero(2, 0x6a);
  }

  lemma Sent3To5()
    ensures var r := Crypt(PlainRequest());
            && r[3] == 0x04 && r[4] == 0x7d && r[5] == 0xbe
  {
    hide Crypt, Key, XorNat, TableAfter, Position, Shows6;
    Keys3To5();
    EncryptedZero(3, 0x04);
    EncryptedZero(4, 0x7d);
    EncryptedZero(5, 0xbe);
  }

  lemma Sent6To9()
    ensures var r := Crypt(PlainRequest());
            && r[6] == 0xb0 && r[7] == 0xb2 && r[8] == 0xf9 && r[9] == 0x6b
  {
    hide Crypt, Key, XorNat, TableAfter, Position, Shows10;
    Keys6To9();
    BytesThatAreNotZero();
    EncryptedZero(6, 0xb0);
    EncryptedZero(7, 0xb2);
    EncryptedByte(8, 2, 0xfb, 0xf9);
    EncryptedZero(9, 0x6b);
  }

  lemma Sent10To14()
    ensures var r := Crypt(PlainRequest());
            && r[10] == 0x06 && r[11] == 0xc3 && r[12] == 0x14 && r[13] == 0x94 && r[14] == 0x7e
  {
    hide Crypt, Key, XorNat, TableAfter, Position, Shows15;
    Keys10To14();
    BytesThatAreNotZero();
    EncryptedZero(10, 0x06);
    EncryptedZero(11, 0xc3);
    EncryptedZero(12, 0x14);
    EncryptedByte(13, 1, 0x95, 0x94);
    EncryptedZero(14, 0x7e);
  }

  lemma Sent15To20()
    ensures var r := Crypt(PlainRequest());
            && r[15] == 0x94 && r[16] == 0x42 && r[17] == 0x2b && r[18] == 0xa2 && r[19] == 0xf5 && r[20] == 0xd7
  {
    hide Crypt, Key, XorNat, TableAfter, Position, Shows21;
    Keys15To20();
    BytesThatAreNotZero();
    EncryptedByte(15, 1, 0x95, 0x94);
    EncryptedZero(16, 0x42);
    EncryptedZero(17, 0x2b);
    EncryptedZero(18, 0xa2);
    EncryptedZero(19, 0xf5);
    EncryptedZero(20, 0xd7);
  }

  lemma Sent21To27()
    ensures var r := Crypt(PlainRequest());
            && r[21] == 0x8b && r[22] == 0xae && r[23] == 0xed && r[24] == 0x50 && r[25] == 0x8f && r[26] == 0x46
            && r[27] == 0x3d
  {
    hide Crypt, Key, XorNat, TableAfter, Position, Shows28;
    Keys21To27();
    BytesThatAreNotZero();
    EncryptedByte(21, 36, 0xaf, 0x8b);
    EncryptedZero(22, 0xae);
    EncryptedZero(23, 0xed);
    EncryptedZero(24, 0x50);
    EncryptedZero(25, 0x8f);
    EncryptedZero(26, 0x46);
    EncryptedZero(27, 0x3d);
  }

  lemma Sent28To35()
    ensures var r := Crypt(PlainRequest());
            && r[28] == 0xc2 && r[29] == 0x02 && r[30] == 0x90 && r[31] == 0x9a && r[32] == 0xa4 && r[33] == 0xec
            && r[34] == 0x81 && r[35] == 0xc6
  {
    hide Crypt, Key, XorNat;
    Keys28To35();
    BytesThatAreNotZero();
    EncryptedZero(28, 0xc2);
    EncryptedZero(29, 0x02);
    EncryptedZero(30, 0x90);
    EncryptedZero(31, 0x9a);
    EncryptedByte(32, 255, 0x5b, 0xa4);
    EncryptedByte(33, 255, 0x13, 0xec);
    EncryptedZero(34, 0x81);
    EncryptedZero(35, 0xc6);
  }

  /** The exact bytes of the request of client 02:00:00:00:00:01 with sequence 1. */
  lemma KnownVector()
    ensures BuildDiscoveryPacket([2, 0, 0, 0, 0, 1], 1) == Some(SentRequest())
  {
    hide Crypt;
    RequestIsPlain();
    Sent0To2();
    Sent3To5();
    Sent6To9();
    Sent10To14();
    Sent15To20();
    Sent21To27();
    Sent28To35();
    assert Crypt(PlainRequest()) == SentRequest();
  }
}
