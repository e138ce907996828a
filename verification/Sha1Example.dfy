/** The worked example of SHA-1 in FIPS 180: the message "abc", with its message schedule and the state after each round. */
module Sha1Example {
  import opened Bytes
  import S = Sha1

  const MESSAGE: seq<byte> := [0x61, 0x62, 0x63]

  /** The message as it is padded to one block. */
  const BLOCK: seq<byte> := MESSAGE + [0x80] + S.Zeros(59) + [0x18]

  lemma BlockBytes()
    ensures |BLOCK| == 64
    ensures BLOCK[0] == 0x61 && BLOCK[1] == 0x62 && BLOCK[2] == 0x63 && BLOCK[3] == 0x80 && BLOCK[63] == 0x18
    ensures forall i | 4 <= i < 63 :: BLOCK[i] == 0
  {
  }

  lemma WordsTo16()
    requires |BLOCK| == S.BLOCK
    ensures S.W(BLOCK, 0) == 0x61626380 && S.W(BLOCK, 15) == 0x00000018
    ensures forall t: nat | 1 <= t < 15 :: S.W(BLOCK, t) == 0
  {
    BlockBytes();
    forall t: nat | 1 <= t < 15 ensures S.W(BLOCK, t) == 0 {
      assert BLOCK[4 * t] == 0 && BLOCK[4 * t + 1] == 0 && BLOCK[4 * t + 2] == 0 && BLOCK[4 * t + 3] == 0;
    }
  }

  lemma NextWord(t: nat)
    requires t >= 16 && |BLOCK| == S.BLOCK
    ensures S.W(BLOCK, t) == S.Mix(S.W(BLOCK, t - 3), S.W(BLOCK, t - 8), S.W(BLOCK, t - 14), S.W(BLOCK, t - 16))
  {
    hide S.Mix;
  }

  lemma WordsTo32()
    requires |BLOCK| == S.BLOCK
    ensures S.W(BLOCK, 16) == 0xC2C4C700
    ensures S.W(BLOCK, 17) == 0x00000000
    ensures S.W(BLOCK, 18) == 0x00000030
    ensures S.W(BLOCK, 19) == 0x85898E01
    ensures S.W(BLOCK, 20) == 0x00000000
    ensures S.W(BLOCK, 21) == 0x00000060
    ensures S.W(BLOCK, 22) == 0x0B131C03
    ensures S.W(BLOCK, 23) == 0x00000030
    ensures S.W(BLOCK, 24) == 0x85898EC1
    ensures S.W(BLOCK, 25) == 0x16263806
    ensures S.W(BLOCK, 26) == 0x00000000
    ensures S.W(BLOCK, 27) == 0x00000180
    ensures S.W(BLOCK, 28) == 0x2C4C700C
    ensures S.W(BLOCK, 29) == 0x000000F0
    ensures S.W(BLOCK, 30) == 0x93AFB507
    ensures S.W(BLOCK, 31) == 0x5898E048
  {
    WordsTo16();
    hide S.W;
    NextWord(16);
    NextWord(17);
    NextWord(18);
    NextWord(19);
    NextWord(20);
    NextWord(21);
    NextWord(22);
    NextWord(23);
    NextWord(24);
    NextWord(25);
    NextWord(26);
    NextWord(27);
    NextWord(28);
    NextWord(29);
    NextWord(30);
    NextWord(31);
  }

  lemma WordsTo48()
    requires |BLOCK| == S.BLOCK
    ensures S.W(BLOCK, 32) == 0x8E9A9202
    ensures S.W(BLOCK, 33) == 0x00000600
    ensures S.W(BLOCK, 34) == 0xB131C0F0
    ensures S.W(BLOCK, 35) == 0x16263BC6
    ensures S.W(BLOCK, 36) == 0x4EBED41E
    ensures S.W(BLOCK, 37) == 0x626380A1
    ensures S.W(BLOCK, 38) == 0x16263806
    ensures S.W(BLOCK, 39) == 0x000018C0
    ensures S.W(BLOCK, 40) == 0xD2E138C4
    ensures S.W(BLOCK, 41) == 0x00000F00
    ensures S.W(BLOCK, 42) == 0x3AFB5079
    ensures S.W(BLOCK, 43) == 0x898E04E5
    ensures S.W(BLOCK, 44) == 0xE2BA3C2B
    ensures S.W(BLOCK, 45) == 0x000060C0
    ensures S.W(BLOCK, 46) == 0x053A37CD
    ensures S.W(BLOCK, 47) == 0x74458547
  {
    WordsTo32();
    hide S.W;
    NextWord(32);
    NextWord(33);
    NextWord(34);
    NextWord(35);
    NextWord(36);
    NextWord(37);
    NextWord(38);
    NextWord(39);
    NextWord(40);
    NextWord(41);
    NextWord(42);
    NextWord(43);
    NextWord(44);
    NextWord(45);
    NextWord(46);
    NextWord(47);
  }

  lemma WordsTo64()
    requires |BLOCK| == S.BLOCK
    ensures S.W(BLOCK, 48) == 0xDA9415ED
    ensures S.W(BLOCK, 49) == 0x26380A16
    ensures S.W(BLOCK, 50) == 0x626383A1
    ensures S.W(BLOCK, 51) == 0x4EBF54DE
    ensures S.W(BLOCK, 52) == 0x3835B44B
    ensures S.W(BLOCK, 53) == 0x0000F600
    ensures S.W(BLOCK, 54) == 0x1E84C7A3
    ensures S.W(BLOCK, 55) == 0x98E04D98
    ensures S.W(BLOCK, 56) == 0x651D16A0
    ensures S.W(BLOCK, 57) == 0x62658CA1
    ensures S.W(BLOCK, 58) == 0x458544D6
    ensures S.W(BLOCK, 59) == 0x44584CB7
    ensures S.W(BLOCK, 60) == 0x7BA06619
    ensures S.W(BLOCK, 61) == 0x6380AEA2
    ensures S.W(BLOCK, 62) == 0x0AE55269
    ensures S.W(BLOCK, 63) == 0x627B49A1
  {
    WordsTo48();
    hide S.W;
    NextWord(48);
    NextWord(49);
    NextWord(50);
    NextWord(51);
    NextWord(52);
    NextWord(53);
    NextWord(54);
    NextWord(55);
    NextWord(56);
    NextWord(57);
    NextWord(58);
    NextWord(59);
    NextWord(60);
    NextWord(61);
    NextWord(62);
    NextWord(63);
  }

  lemma WordsTo80()
    requires |BLOCK| == S.BLOCK
    ensures S.W(BLOCK, 64) == 0x7CD45C9D
    ensures S.W(BLOCK, 65) == 0x000F0000
    ensures S.W(BLOCK, 66) == 0xFB50753A
    ensures S.W(BLOCK, 67) == 0xEC6765E8
    ensures S.W(BLOCK, 68) == 0xBA3C2BE2
    ensures S.W(BLOCK, 69) == 0x0060C000
    ensures S.W(BLOCK, 70) == 0x3A37CD05
    ensures S.W(BLOCK, 71) == 0x458546F4
    ensures S.W(BLOCK, 72) == 0xB8599DD6
    ensures S.W(BLOCK, 73) == 0x380A1A26
    ensures S.W(BLOCK, 74) == 0x01E02203
    ensures S.W(BLOCK, 75) == 0xE7CC3456
    ensures S.W(BLOCK, 76) == 0xE6E60B69
    ensures S.W(BLOCK, 77) == 0x00F60A00
    ensures S.W(BLOCK, 78) == 0x5795EF4F
    ensures S.W(BLOCK, 79) == 0x822E0879
  {
    WordsTo64();
    hide S.W;
    NextWord(64);
    NextWord(65);
    NextWord(66);
    NextWord(67);
    NextWord(68);
    NextWord(69);
    NextWord(70);
    NextWord(71);
    NextWord(72);
    NextWord(73);
    NextWord(74);
    NextWord(75);
    NextWord(76);
    NextWord(77);
    NextWord(78);
    NextWord(79);
  }

  lemma NextRound(t: nat, h: S.Hash, w: S.word)
    requires |BLOCK| == S.BLOCK && S.Rounds(BLOCK, S.H0, t) == h && S.W(BLOCK, t) == w
    ensures S.Rounds(BLOCK, S.H0, t + 1) == S.Round(t, h, w)
  {
    hide S.Round, S.W;
  }

  lemma NoRounds()
    requires |BLOCK| == S.BLOCK
    ensures S.Rounds(BLOCK, S.H0, 0) == S.Hash(0x67452301, 0xEFCDAB89, 0x98BADCFE, 0x10325476, 0xC3D2E1F0)
  {
  }

  lemma RoundsTo8()
    requires |BLOCK| == S.BLOCK
    ensures S.Rounds(BLOCK, S.H0, 8) == S.Hash(0x9E8C07D4, 0x993E30C1, 0x0FF1F290, 0xB3F52677, 0xF3763846)
  {
    NoRounds();
    WordsTo16();
    hide S.W, S.Rounds, BLOCK;
    NextRound(0, S.Hash(0x67452301, 0xEFCDAB89, 0x98BADCFE, 0x10325476, 0xC3D2E1F0), 0x61626380);
    NextRound(1, S.Hash(0x0116FC33, 0x67452301, 0x7BF36AE2, 0x98BADCFE, 0x10325476), 0x00000000);
    NextRound(2, S.Hash(0x8990536D, 0x0116FC33, 0x59D148C0, 0x7BF36AE2, 0x98BADCFE), 0x00000000);
    NextRound(3, S.Hash(0xA1390F08, 0x8990536D, 0xC045BF0C, 0x59D148C0, 0x7BF36AE2), 0x00000000);
    NextRound(4, S.Hash(0xCDD8E11B, 0xA1390F08, 0x626414DB, 0xC045BF0C, 0x59D148C0), 0x00000000);
    NextRound(5, S.Hash(0xCFD499DE, 0xCDD8E11B, 0x284E43C2, 0x626414DB, 0xC045BF0C), 0x00000000);
    NextRound(6, S.Hash(0x3FC7CA40, 0xCFD499DE, 0xF3763846, 0x284E43C2, 0x626414DB), 0x00000000);
    NextRound(7, S.Hash(0x993E30C1, 0x3FC7CA40, 0xB3F52677, 0xF3763846, 0x284E43C2), 0x00000000);
  }

  lemma RoundsTo16()
    requires |BLOCK| == S.BLOCK
    ensures S.Rounds(BLOCK, S.H0, 16) == S.Hash(0x20BDD62F, 0x196BEE77, 0x644A3DA5, 0x1181ED99, 0x18C623F9)
  {
    RoundsTo8();
    WordsTo16();
    hide S.W, S.Rounds, BLOCK;
    NextRound(8, S.Hash(0x9E8C07D4, 0x993E30C1, 0x0FF1F290, 0xB3F52677, 0xF3763846), 0x00000000);
    NextRound(9, S.Hash(0x4B6AE328, 0x9E8C07D4, 0x664F8C30, 0x0FF1F290, 0xB3F52677), 0x00000000);
    NextRound(10, S.Hash(0x8351F929, 0x4B6AE328, 0x27A301F5, 0x664F8C30, 0x0FF1F290), 0x00000000);
    NextRound(11, S.Hash(0xFBDA9E89, 0x8351F929, 0x12DAB8CA, 0x27A301F5, 0x664F8C30), 0x00000000);
    NextRound(12, S.Hash(0x63188FE4, 0xFBDA9E89, 0x60D47E4A, 0x12DAB8CA, 0x27A301F5), 0x00000000);
    NextRound(13, S.Hash(0x4607B664, 0x63188FE4, 0x7EF6A7A2, 0x60D47E4A, 0x12DAB8CA), 0x00000000);
    NextRound(14, S.Hash(0x9128F695, 0x4607B664, 0x18C623F9, 0x7EF6A7A2, 0x60D47E4A), 0x00000000);
    NextRound(15, S.Hash(0x196BEE77, 0x9128F695, 0x1181ED99, 0x18C623F9, 0x7EF6A7A2), 0x00000018);
  }

  lemma RoundsTo24()
    requires |BLOCK| == S.BLOCK
    ensures S.Rounds(BLOCK, S.H0, 24) == S.Hash(0xD541F12D, 0x21283486, 0x0CE88EFF, 0x868DEC32, 0x7F67875F)
  {
    RoundsTo16();
    WordsTo32();
    hide S.W, S.Rounds, BLOCK;
    NextRound(16, S.Hash(0x20BDD62F, 0x196BEE77, 0x644A3DA5, 0x1181ED99, 0x18C623F9), 0xC2C4C700);
    NextRound(17, S.Hash(0x4E925823, 0x20BDD62F, 0xC65AFB9D, 0x644A3DA5, 0x1181ED99), 0x00000000);
    NextRound(18, S.Hash(0x82AA6728, 0x4E925823, 0xC82F758B, 0xC65AFB9D, 0x644A3DA5), 0x00000030);
    NextRound(19, S.Hash(0xDC64901D, 0x82AA6728, 0xD3A49608, 0xC82F758B, 0xC65AFB9D), 0x85898E01);
    NextRound(20, S.Hash(0xFD9E1D7D, 0xDC64901D, 0x20AA99CA, 0xD3A49608, 0xC82F758B), 0x00000000);
    NextRound(21, S.Hash(0x1A37B0CA, 0xFD9E1D7D, 0x77192407, 0x20AA99CA, 0xD3A49608), 0x00000060);
    NextRound(22, S.Hash(0x33A23BFC, 0x1A37B0CA, 0x7F67875F, 0x77192407, 0x20AA99CA), 0x0B131C03);
    NextRound(23, S.Hash(0x21283486, 0x33A23BFC, 0x868DEC32, 0x7F67875F, 0x77192407), 0x00000030);
  }

  lemma RoundsTo32()
    requires |BLOCK| == S.BLOCK
    ensures S.Rounds(BLOCK, S.H0, 32) == S.Hash(0x3B845D33, 0x1267B407, 0x717EEBD7, 0xA0DC2D4B, 0xD2AA1365)
  {
    RoundsTo24();
    WordsTo32();
    hide S.W, S.Rounds, BLOCK;
    NextRound(24, S.Hash(0xD541F12D, 0x21283486, 0x0CE88EFF, 0x868DEC32, 0x7F67875F), 0x85898EC1);
    NextRound(25, S.Hash(0xC7567DC6, 0xD541F12D, 0x884A0D21, 0x0CE88EFF, 0x868DEC32), 0x16263806);
    NextRound(26, S.Hash(0x48413BA4, 0xC7567DC6, 0x75507C4B, 0x884A0D21, 0x0CE88EFF), 0x00000000);
    NextRound(27, S.Hash(0xBE35FBD5, 0x48413BA4, 0xB1D59F71, 0x75507C4B, 0x884A0D21), 0x00000180);
    NextRound(28, S.Hash(0x4AA84D97, 0xBE35FBD5, 0x12104EE9, 0xB1D59F71, 0x75507C4B), 0x2C4C700C);
    NextRound(29, S.Hash(0x8370B52E, 0x4AA84D97, 0x6F8D7EF5, 0x12104EE9, 0xB1D59F71), 0x000000F0);
    NextRound(30, S.Hash(0xC5FBAF5D, 0x8370B52E, 0xD2AA1365, 0x6F8D7EF5, 0x12104EE9), 0x93AFB507);
    NextRound(31, S.Hash(0x1267B407, 0xC5FBAF5D, 0xA0DC2D4B, 0xD2AA1365, 0x6F8D7EF5), 0x5898E048);
  }

  lemma RoundsTo40()
    requires |BLOCK| == S.BLOCK
    ensures S.Rounds(BLOCK, S.H0, 40) == S.Hash(0x32DE1CBA, 0x4C986405, 0xF718E5CF, 0x03D447F6, 0xF72EEC32)
  {
    RoundsTo32();
    WordsTo48();
    hide S.W, S.Rounds, BLOCK;
    NextRound(32, S.Hash(0x3B845D33, 0x1267B407, 0x717EEBD7, 0xA0DC2D4B, 0xD2AA1365), 0x8E9A9202);
    NextRound(33, S.Hash(0x046FAA0A, 0x3B845D33, 0xC499ED01, 0x717EEBD7, 0xA0DC2D4B), 0x00000600);
    NextRound(34, S.Hash(0x2C0EBC11, 0x046FAA0A, 0xCEE1174C, 0xC499ED01, 0x717EEBD7), 0xB131C0F0);
    NextRound(35, S.Hash(0x21796AD4, 0x2C0EBC11, 0x811BEA82, 0xCEE1174C, 0xC499ED01), 0x16263BC6);
    NextRound(36, S.Hash(0xDCBBB0CB, 0x21796AD4, 0x4B03AF04, 0x811BEA82, 0xCEE1174C), 0x4EBED41E);
    NextRound(37, S.Hash(0x0F511FD8, 0xDCBBB0CB, 0x085E5AB5, 0x4B03AF04, 0x811BEA82), 0x626380A1);
    NextRound(38, S.Hash(0xDC63973F, 0x0F511FD8, 0xF72EEC32, 0x085E5AB5, 0x4B03AF04), 0x16263806);
    NextRound(39, S.Hash(0x4C986405, 0xDC63973F, 0x03D447F6, 0xF72EEC32, 0x085E5AB5), 0x000018C0);
  }

  lemma RoundsTo48()
    requires |BLOCK| == S.BLOCK
    ensures S.Rounds(BLOCK, S.H0, 48) == S.Hash(0xBEAD02CA, 0xA01B846C, 0x8714787C, 0x503CA382, 0xFB86C6AB)
  {
    RoundsTo40();
    WordsTo48();
    hide S.W, S.Rounds, BLOCK;
    NextRound(40, S.Hash(0x32DE1CBA, 0x4C986405, 0xF718E5CF, 0x03D447F6, 0xF72EEC32), 0xD2E138C4);
    NextRound(41, S.Hash(0xFC87DEDF, 0x32DE1CBA, 0x53261901, 0xF718E5CF, 0x03D447F6), 0x00000F00);
    NextRound(42, S.Hash(0x970A0D5C, 0xFC87DEDF, 0x8CB7872E, 0x53261901, 0xF718E5CF), 0x3AFB5079);
    NextRound(43, S.Hash(0x7F193DC5, 0x970A0D5C, 0xFF21F7B7, 0x8CB7872E, 0x53261901), 0x898E04E5);
    NextRound(44, S.Hash(0xEE1B1AAF, 0x7F193DC5, 0x25C28357, 0xFF21F7B7, 0x8CB7872E), 0xE2BA3C2B);
    NextRound(45, S.Hash(0x40F28E09, 0xEE1B1AAF, 0x5FC64F71, 0x25C28357, 0xFF21F7B7), 0x000060C0);
    NextRound(46, S.Hash(0x1C51E1F2, 0x40F28E09, 0xFB86C6AB, 0x5FC64F71, 0x25C28357), 0x053A37CD);
    NextRound(47, S.Hash(0xA01B846C, 0x1C51E1F2, 0x503CA382, 0xFB86C6AB, 0x5FC64F71), 0x74458547);
  }

  lemma RoundsTo56()
    requires |BLOCK| == S.BLOCK
    ensures S.Rounds(BLOCK, S.H0, 56) == S.Hash(0x5E6456AF, 0x7B71F76D, 0x09FA7C76, 0x792410DB, 0x8E11EB59)
  {
    RoundsTo48();
    WordsTo64();
    hide S.W, S.Rounds, BLOCK;
    NextRound(48, S.Hash(0xBEAD02CA, 0xA01B846C, 0x8714787C, 0x503CA382, 0xFB86C6AB), 0xDA9415ED);
    NextRound(49, S.Hash(0xBAF39337, 0xBEAD02CA, 0x2806E11B, 0x8714787C, 0x503CA382), 0x26380A16);
    NextRound(50, S.Hash(0x120731C5, 0xBAF39337, 0xAFAB40B2, 0x2806E11B, 0x8714787C), 0x626383A1);
    NextRound(51, S.Hash(0x641DB2CE, 0x120731C5, 0xEEBCE4CD, 0xAFAB40B2, 0x2806E11B), 0x4EBF54DE);
    NextRound(52, S.Hash(0x3847AD66, 0x641DB2CE, 0x4481CC71, 0xEEBCE4CD, 0xAFAB40B2), 0x3835B44B);
    NextRound(53, S.Hash(0xE490436D, 0x3847AD66, 0x99076CB3, 0x4481CC71, 0xEEBCE4CD), 0x0000F600);
    NextRound(54, S.Hash(0x27E9F1D8, 0xE490436D, 0x8E11EB59, 0x99076CB3, 0x4481CC71), 0x1E84C7A3);
    NextRound(55, S.Hash(0x7B71F76D, 0x27E9F1D8, 0x792410DB, 0x8E11EB59, 0x99076CB3), 0x98E04D98);
  }

  lemma RoundsTo64()
    requires |BLOCK| == S.BLOCK
    ensures S.Rounds(BLOCK, S.H0, 64) == S.Hash(0x6B61C9E1, 0xB66C020B, 0x9523272C, 0xF5D5B051, 0x8FD4B796)
  {
    RoundsTo56();
    WordsTo64();
    hide S.W, S.Rounds, BLOCK;
    NextRound(56, S.Hash(0x5E6456AF, 0x7B71F76D, 0x09FA7C76, 0x792410DB, 0x8E11EB59), 0x651D16A0);
    NextRound(57, S.Hash(0xC846093F, 0x5E6456AF, 0x5EDC7DDB, 0x09FA7C76, 0x792410DB), 0x62658CA1);
    NextRound(58, S.Hash(0xD262FF50, 0xC846093F, 0xD79915AB, 0x5EDC7DDB, 0x09FA7C76), 0x458544D6);
    NextRound(59, S.Hash(0x09D785FD, 0xD262FF50, 0xF211824F, 0xD79915AB, 0x5EDC7DDB), 0x44584CB7);
    NextRound(60, S.Hash(0x3F52DE5A, 0x09D785FD, 0x3498BFD4, 0xF211824F, 0xD79915AB), 0x7BA06619);
    NextRound(61, S.Hash(0xD756C147, 0x3F52DE5A, 0x4275E17F, 0x3498BFD4, 0xF211824F), 0x6380AEA2);
    NextRound(62, S.Hash(0x548C9CB2, 0xD756C147, 0x8FD4B796, 0x4275E17F, 0x3498BFD4), 0x0AE55269);
    NextRound(63, S.Hash(0xB66C020B, 0x548C9CB2, 0xF5D5B051, 0x8FD4B796, 0x4275E17F), 0x627B49A1);
  }

  lemma RoundsTo72()
    requires |BLOCK| == S.BLOCK
    ensures S.Rounds(BLOCK, S.H0, 72) == S.Hash(0x39859DE7, 0xC199F8C7, 0x8FC96230, 0x125C24F0, 0xDE37534A)
  {
    RoundsTo64();
    WordsTo80();
    hide S.W, S.Rounds, BLOCK;
    NextRound(64, S.Hash(0x6B61C9E1, 0xB66C020B, 0x9523272C, 0xF5D5B051, 0x8FD4B796), 0x7CD45C9D);
    NextRound(65, S.Hash(0x19DFA7AC, 0x6B61C9E1, 0xED9B0082, 0x9523272C, 0xF5D5B051), 0x000F0000);
    NextRound(66, S.Hash(0x101655F9, 0x19DFA7AC, 0x5AD87278, 0xED9B0082, 0x9523272C), 0xFB50753A);
    NextRound(67, S.Hash(0x0C3DF2B4, 0x101655F9, 0x0677E9EB, 0x5AD87278, 0xED9B0082), 0xEC6765E8);
    NextRound(68, S.Hash(0x78DD4D2B, 0x0C3DF2B4, 0x4405957E, 0x0677E9EB, 0x5AD87278), 0xBA3C2BE2);
    NextRound(69, S.Hash(0x497093C0, 0x78DD4D2B, 0x030F7CAD, 0x4405957E, 0x0677E9EB), 0x0060C000);
    NextRound(70, S.Hash(0x3F2588C2, 0x497093C0, 0xDE37534A, 0x030F7CAD, 0x4405957E), 0x3A37CD05);
    NextRound(71, S.Hash(0xC199F8C7, 0x3F2588C2, 0x125C24F0, 0xDE37534A, 0x030F7CAD), 0x458546F4);
  }

  lemma RoundsTo80()
    requires |BLOCK| == S.BLOCK
    ensures S.Rounds(BLOCK, S.H0, 80) == S.Hash(0x42541B35, 0x5738D5E1, 0x21834873, 0x681E6DF6, 0xD8FDF6AD)
  {
    RoundsTo72();
    WordsTo80();
    hide S.W, S.Rounds, BLOCK;
    NextRound(72, S.Hash(0x39859DE7, 0xC199F8C7, 0x8FC96230, 0x125C24F0, 0xDE37534A), 0xB8599DD6);
    NextRound(73, S.Hash(0xEDB42DE4, 0x39859DE7, 0xF0667E31, 0x8FC96230, 0x125C24F0), 0x380A1A26);
    NextRound(74, S.Hash(0x11793F6F, 0xEDB42DE4, 0xCE616779, 0xF0667E31, 0x8FC96230), 0x01E02203);
    NextRound(75, S.Hash(0x5EE76897, 0x11793F6F, 0x3B6D0B79, 0xCE616779, 0xF0667E31), 0xE7CC3456);
    NextRound(76, S.Hash(0x63F7DAB7, 0x5EE76897, 0xC45E4FDB, 0x3B6D0B79, 0xCE616779), 0xE6E60B69);
    NextRound(77, S.Hash(0xA079B7D9, 0x63F7DAB7, 0xD7B9DA25, 0xC45E4FDB, 0x3B6D0B79), 0x00F60A00);
    NextRound(78, S.Hash(0x860D21CC, 0xA079B7D9, 0xD8FDF6AD, 0xD7B9DA25, 0xC45E4FDB), 0x5795EF4F);
    NextRound(79, S.Hash(0x5738D5E1, 0x860D21CC, 0x681E6DF6, 0xD8FDF6AD, 0xD7B9DA25), 0x822E0879);
  }

  lemma PaddedExample()
    ensures S.Pad(MESSAGE) == BLOCK
  {
    assert S.ZeroCount(3) == 52;
    assert S.BitLength(3) == 0x18;
    SmallLength();
    hide S.Be64;
    assert S.Zeros(52) + ([0, 0, 0, 0, 0, 0, 0] + [0x18]) == S.Zeros(59) + [0x18];
    assert S.Pad(MESSAGE) == MESSAGE + [0x80] + (S.Zeros(52) + S.Be64(0x18));
    assert S.Be64(0x18) == [0, 0, 0, 0, 0, 0, 0] + [0x18];
  }

  lemma {:induction false} HighBytesOfSmall(n: nat, k: nat)
    requires n < 256
    ensures S.ByteAt(n, k) == if k == 0 then Digit(n) else 0
    decreases k
  {
    if k > 0 {
      HighBytesOfSmall(0, k - 1);
      assert Digit(0) == 0;
    }
  }

  lemma SmallLength()
    ensures S.Be64(0x18) == [0, 0, 0, 0, 0, 0, 0, 0x18]
  {
    forall i | 0 <= i < 8 ensures S.Be64(0x18)[i] == if i == 7 then 0x18 else 0 {
      HighBytesOfSmall(0x18, 7 - i);
      assert Digit(0x18) == 0x18;
    }
  }

  lemma FinalState()
    requires |BLOCK| == S.BLOCK
    ensures S.Compress(S.H0, BLOCK) == S.Hash(0xA9993E36, 0x4706816A, 0xBA3E2571, 0x7850C26C, 0x9CD0D89D)
  {
    RoundsTo80();
    hide S.Rounds, BLOCK;
  }

  /** The digest of "abc". */
  lemma DigestOfAbc()
    ensures S.Digest(MESSAGE) == [0xA9, 0x99, 0x3E, 0x36, 0x47, 0x06, 0x81, 0x6A, 0xBA, 0x3E, 0x25, 0x71, 0x78, 0x50, 0xC2, 0x6C, 0x9C, 0xD0, 0xD8, 0x9D]
  {
    BlockBytes();
    PaddedExample();
    FinalState();
    S.AbsorbOne(S.H0, BLOCK);
    OutputExample();
    hide S.Pad, S.Compress, S.Absorb, S.Output, BLOCK;
  }

  lemma OutputExample()
    ensures S.Output(S.Hash(0xA9993E36, 0x4706816A, 0xBA3E2571, 0x7850C26C, 0x9CD0D89D)) ==
            [0xA9, 0x99, 0x3E, 0x36, 0x47, 0x06, 0x81, 0x6A, 0xBA, 0x3E, 0x25, 0x71, 0x78, 0x50, 0xC2, 0x6C, 0x9C, 0xD0, 0xD8, 0x9D]
  {
  }

  /** The length in bits is taken modulo 2^64. */
  lemma LengthWraps(n: nat)
    ensures S.BitLength(n + 0x2000_0000_0000_0000) == S.BitLength(n)
    ensures n < 0x2000_0000_0000_0000 ==> S.BitLength(n) == 8 * n
  {
  }
}
