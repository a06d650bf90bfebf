/** The digests that section A.5 of RFC 1321 gives for the empty message and for "abc". */
module MD5Vectors {
  import opened Bytes
  import opened Word32
  import opened MachineInts
  import opened MD5Spec
  import opened MD5Bits
  import opened MD5Hmac

  const START := Regs(0x67452301, 0xefcdab89, 0x98badcfe, 0x10325476)

  /** The words of a padded message of less than four bytes: the first word, and the length in bits. */
  predicate OneBlock(w: seq<bv32>, first: bv32, len: bv32) {
    |w| == 16 && w[0] == first && w[14] == len && forall k | 0 < k < 16 && k != 14 :: w[k] == 0
  }

  // operation i on literal words: f is the value of the function, s is what is rotated

  lemma OpFValue(i: nat, a: bv32, b: bv32, c: bv32, d: bv32, w: seq<bv32>, xk: bv32, k: bv32,
                z: bv8, f: bv32, s: bv32, r: bv32)
    requires i < 16 && |w| == 16 && w[i] == xk && K1(i) == k && Distance(i) == z
    requires FBits(b, c, d) == f && Plus(Plus(Plus(a, f), xk), k) == s
    requires 0 < z < 32 && Plus(b, Turn(s, z)) == r
    ensures OpBits(i, a, b, c, d, w[Index(i)]) == r
  {
  }

  lemma OpGValue(i: nat, a: bv32, b: bv32, c: bv32, d: bv32, w: seq<bv32>, xk: bv32, k: bv32,
                z: bv8, f: bv32, s: bv32, r: bv32)
    requires 16 <= i < 32 && |w| == 16 && w[I2(i - 16)] == xk && K2(i - 16) == k && Distance(i) == z
    requires GBits(b, c, d) == f && Plus(Plus(Plus(a, f), xk), k) == s
    requires 0 < z < 32 && Plus(b, Turn(s, z)) == r
    ensures OpBits(i, a, b, c, d, w[Index(i)]) == r
  {
  }

  lemma OpHValue(i: nat, a: bv32, b: bv32, c: bv32, d: bv32, w: seq<bv32>, xk: bv32, k: bv32,
                z: bv8, f: bv32, s: bv32, r: bv32)
    requires 32 <= i < 48 && |w| == 16 && w[I3(i - 32)] == xk && K3(i - 32) == k && Distance(i) == z
    requires HBits(b, c, d) == f && Plus(Plus(Plus(a, f), xk), k) == s
    requires 0 < z < 32 && Plus(b, Turn(s, z)) == r
    ensures OpBits(i, a, b, c, d, w[Index(i)]) == r
  {
  }

  lemma OpIValue(i: nat, a: bv32, b: bv32, c: bv32, d: bv32, w: seq<bv32>, xk: bv32, k: bv32,
                z: bv8, f: bv32, s: bv32, r: bv32)
    requires 48 <= i < 64 && |w| == 16 && w[I4(i - 48)] == xk && K4(i - 48) == k && Distance(i) == z
    requires IBits(b, c, d) == f && Plus(Plus(Plus(a, f), xk), k) == s
    requires 0 < z < 32 && Plus(b, Turn(s, z)) == r
    ensures OpBits(i, a, b, c, d, w[Index(i)]) == r
  {
  }

  lemma NextRow(w: seq<bv32>, r: nat, s: Regs, a: bv32, d: bv32, c: bv32, b: bv32)
    requires r < 16 && |w| == 16 && RowsBits(START, w, r) == s
    requires OpBits(4 * r, s.a, s.b, s.c, s.d, w[Index(4 * r)]) == a
    requires OpBits(4 * r + 1, s.d, a, s.b, s.c, w[Index(4 * r + 1)]) == d
    requires OpBits(4 * r + 2, s.c, d, a, s.b, w[Index(4 * r + 2)]) == c
    requires OpBits(4 * r + 3, s.b, c, d, a, w[Index(4 * r + 3)]) == b
    ensures RowsBits(START, w, r + 1) == Regs(a, b, c, d)
  {
    hide OpBits, Index;
  }

  lemma Empty1(w: seq<bv32>)
    requires OneBlock(w, 0x00000080, 0)
    requires RowsBits(START, w, 0) == Regs(0x67452301, 0xefcdab89, 0x98badcfe, 0x10325476)
    ensures RowsBits(START, w, 4) == Regs(0xf56c7cf1, 0xd6819c6a, 0x5aa53f75, 0x374943a7)
  {
    hide RowsBits, OpBits, Index;
    OpFValue(0, 0x67452301, 0xefcdab89, 0x98badcfe, 0x10325476, w, 0x00000080, 0xd76aa478, 7,
             0x98badcfe, 0xd76aa4f7, 0xa5202774);
    OpFValue(1, 0x10325476, 0xa5202774, 0xefcdab89, 0x98badcfe, w, 0, 0xe8c7b756, 12,
             0xbd9afb8a, 0xb6950756, 0xf59592dd);
    OpFValue(2, 0x98badcfe, 0xf59592dd, 0xa5202774, 0xefcdab89, w, 0, 0x242070db, 17,
             0xaf482b54, 0x6c23792d, 0xe7f06b23);
    OpFValue(3, 0xefcdab89, 0xe7f06b23, 0xf59592dd, 0xa5202774, w, 0, 0xc1bdceee, 22,
             0xe5900655, 0x971b80cc, 0x1b163203);
    NextRow(w, 0, Regs(0x67452301, 0xefcdab89, 0x98badcfe, 0x10325476),
            0xa5202774, 0xf59592dd, 0xe7f06b23, 0x1b163203);
    OpFValue(4, 0xa5202774, 0x1b163203, 0xe7f06b23, 0xf59592dd, w, 0, 0xf57c0faf, 7,
             0xe791a2df, 0x822dda02, 0x32033344);
    OpFValue(5, 0xf59592dd, 0x32033344, 0x1b163203, 0xe7f06b23, w, 0, 0x4787c62a, 12,
             0xd7f27a23, 0x150fd32a, 0x2f35d494);
    OpFValue(6, 0xe7f06b23, 0x2f35d494, 0x32033344, 0x1b163203, w, 0, 0xa8304613, 17,
             0x32033207, 0xc223e33d, 0xf5b158db);
    OpFValue(7, 0x1b163203, 0xf5b158db, 0x2f35d494, 0x32033344, w, 0, 0xfd469501, 22,
             0x27337394, 0x3f903a98, 0x9bc13ce9);
    NextRow(w, 1, Regs(0xa5202774, 0x1b163203, 0xe7f06b23, 0xf59592dd),
            0x32033344, 0x2f35d494, 0xf5b158db, 0x9bc13ce9);
    OpFValue(8, 0x32033344, 0x9bc13ce9, 0xf5b158db, 0x2f35d494, w, 0, 0x698098d8, 7,
             0xb5b5d8dd, 0x5139a4f9, 0x3893b991);
    OpFValue(9, 0x2f35d494, 0x3893b991, 0x9bc13ce9, 0xf5b158db, w, 0, 0x8b44f7af, 12,
             0xdda178cb, 0x981c450e, 0xfce4a312);
    OpFValue(10, 0xf5b158db, 0xfce4a312, 0x3893b991, 0x9bc13ce9, w, 0, 0xffff5bb1, 17,
             0x3b81bdf9, 0x31327285, 0xe1ef0576);
    OpFValue(11, 0x9bc13ce9, 0xe1ef0576, 0xfce4a312, 0x3893b991, w, 0, 0x895cd7be, 22,
             0xf8f4b993, 0x1e12ce3a, 0x70768a29);
    NextRow(w, 2, Regs(0x32033344, 0x9bc13ce9, 0xf5b158db, 0x2f35d494),
            0x3893b991, 0xfce4a312, 0xe1ef0576, 0x70768a29);
    OpFValue(12, 0x3893b991, 0x70768a29, 0xe1ef0576, 0xfce4a312, w, 0, 0x6b901122, 7,
             0xece62132, 0x9109ebe5, 0xf56c7cf1);
    OpFValue(13, 0xfce4a312, 0xf56c7cf1, 0x70768a29, 0xe1ef0576, w, 0, 0xfd987193, 12,
             0x70e70927, 0x6b641dcc, 0x374943a7);
    OpFValue(14, 0xe1ef0576, 0x374943a7, 0xf56c7cf1, 0x70768a29, w, 0, 0xa679438e, 17,
             0x757ec8a9, 0xfde711ad, 0x5aa53f75);
    OpFValue(15, 0x70768a29, 0x5aa53f75, 0x374943a7, 0xf56c7cf1, w, 0, 0x49b40821, 22,
             0xb74943a5, 0x7173d5ef, 0xd6819c6a);
    NextRow(w, 3, Regs(0x3893b991, 0x70768a29, 0xe1ef0576, 0xfce4a312),
            0xf56c7cf1, 0x374943a7, 0x5aa53f75, 0xd6819c6a);
  }

  lemma Empty2(w: seq<bv32>)
    requires OneBlock(w, 0x00000080, 0)
    requires RowsBits(START, w, 4) == Regs(0xf56c7cf1, 0xd6819c6a, 0x5aa53f75, 0x374943a7)
    ensures RowsBits(START, w, 6) == Regs(0x3d1e3e6c, 0xe422531a, 0xeb41643e, 0x68b7b3e3)
  {
    hide RowsBits, OpBits, Index;
    OpGValue(16, 0xf56c7cf1, 0xd6819c6a, 0x5aa53f75, 0x374943a7, w, 0, 0xf61e2562, 5,
             0x5ea53c72, 0x4a2fdec5, 0x1c7d7513);
    OpGValue(17, 0x374943a7, 0x1c7d7513, 0xd6819c6a, 0x5aa53f75, w, 0, 0xc040b340, 9,
             0x9c25b51b, 0x93afac02, 0x7bd57a3a);
    OpGValue(18, 0x5aa53f75, 0x7bd57a3a, 0x1c7d7513, 0xd6819c6a, w, 0, 0x265e5a51, 14,
             0x5afd793b, 0xdc011301, 0xc095f13a);
    OpGValue(19, 0xd6819c6a, 0xc095f13a, 0x7bd57a3a, 0x1c7d7513, w, 0x00000080, 0xe9b6c7aa, 20,
             0x63957b3a, 0x23cddfce, 0xbd782e17);
    NextRow(w, 4, Regs(0xf56c7cf1, 0xd6819c6a, 0x5aa53f75, 0x374943a7),
            0x1c7d7513, 0x7bd57a3a, 0xc095f13a, 0xbd782e17);
    OpGValue(20, 0x1c7d7513, 0xbd782e17, 0xc095f13a, 0x7bd57a3a, w, 0, 0xd62f105d, 5,
             0xb950ab12, 0xabfd3082, 0x3d1e3e6c);
    OpGValue(21, 0x7bd57a3a, 0x3d1e3e6c, 0xbd782e17, 0xc095f13a, w, 0, 0x02441453, 9,
             0x3d7c3e2d, 0xbb95ccba, 0x68b7b3e3);
    OpGValue(22, 0xc095f13a, 0x68b7b3e3, 0x3d1e3e6c, 0xbd782e17, w, 0, 0xd8a1e681, 14,
             0x2836326b, 0xc16e0a26, 0xeb41643e);
    OpGValue(23, 0xbd782e17, 0xeb41643e, 0x68b7b3e3, 0x3d1e3e6c, w, 0, 0xe7d3fbc8, 20,
             0x69a1a5af, 0x0eedcf8e, 0xe422531a);
    NextRow(w, 5, Regs(0x1c7d7513, 0xbd782e17, 0xc095f13a, 0x7bd57a3a),
            0x3d1e3e6c, 0x68b7b3e3, 0xeb41643e, 0xe422531a);
  }

  lemma Empty3(w: seq<bv32>)
    requires OneBlock(w, 0x00000080, 0)
    requires RowsBits(START, w, 6) == Regs(0x3d1e3e6c, 0xe422531a, 0xeb41643e, 0x68b7b3e3)
    ensures RowsBits(START, w, 8) == Regs(0x13707036, 0xa2205f1f, 0x1c31c384, 0xae7813db)
  {
    hide RowsBits, OpBits, Index;
    OpGValue(24, 0x3d1e3e6c, 0xe422531a, 0xeb41643e, 0x68b7b3e3, w, 0, 0x21e1cde6, 5,
             0xe362571e, 0x42626370, 0x306ec122);
    OpGValue(25, 0x68b7b3e3, 0x306ec122, 0xe422531a, 0xeb41643e, w, 0, 0xc33707d6, 9,
             0x24625322, 0x50510edb, 0xd28c77c2);
    OpGValue(26, 0xeb41643e, 0xd28c77c2, 0x306ec122, 0xe422531a, w, 0, 0xf4d50d87, 14,
             0xd04cd322, 0xb06344e7, 0xa3c663da);
    OpGValue(27, 0xe422531a, 0xa3c663da, 0xd28c77c2, 0x306ec122, w, 0, 0x455a14ed, 20,
             0xe2c677c2, 0x0c42dfc9, 0xa0572807);
    NextRow(w, 6, Regs(0x3d1e3e6c, 0xe422531a, 0xeb41643e, 0x68b7b3e3),
            0x306ec122, 0xd28c77c2, 0xa3c663da, 0xa0572807);
    OpGValue(28, 0x306ec122, 0xa0572807, 0xa3c663da, 0xd28c77c2, w, 0, 0xa9e3e905, 5,
             0xa146201a, 0x7b98ca41, 0x13707036);
    OpGValue(29, 0xd28c77c2, 0x13707036, 0xa0572807, 0xa3c663da, w, 0, 0xfcefa3f8, 9,
             0x03516817, 0xd2cd83d1, 0xae7813db);
    OpGValue(30, 0xa3c663da, 0xae7813db, 0x13707036, 0xa0572807, w, 0, 0x676f02d9, 14,
             0xb3705033, 0xbea5b6e6, 0x1c31c384);
    OpGValue(31, 0xa0572807, 0x1c31c384, 0xae7813db, 0x13707036, w, 0, 0x8d2a4c8a, 20,
             0xbc3843cd, 0xe9b9b85e, 0xa2205f1f);
    NextRow(w, 7, Regs(0x306ec122, 0xa0572807, 0xa3c663da, 0xd28c77c2),
            0x13707036, 0xae7813db, 0x1c31c384, 0xa2205f1f);
  }

  lemma Empty4(w: seq<bv32>)
    requires OneBlock(w, 0x00000080, 0)
    requires RowsBits(START, w, 8) == Regs(0x13707036, 0xa2205f1f, 0x1c31c384, 0xae7813db)
    ensures RowsBits(START, w, 10) == Regs(0x5f7a9b2e, 0xc5dc8c15, 0x91ca4cb7, 0xabc34e16)
  {
    hide RowsBits, OpBits, Index;
    OpHValue(32, 0x13707036, 0xa2205f1f, 0x1c31c384, 0xae7813db, w, 0, 0xfffa3942, 4,
             0x10698f40, 0x23d438b8, 0xdf63eaa1);
    OpHValue(33, 0xae7813db, 0xdf63eaa1, 0xa2205f1f, 0x1c31c384, w, 0, 0x8771f681, 11,
             0x6172763a, 0x975c8096, 0xc3689f5b);
    OpHValue(34, 0x1c31c384, 0xc3689f5b, 0xdf63eaa1, 0xa2205f1f, w, 0, 0x6d9d6122, 16,
             0xbe2b2ae5, 0x47fa4f8b, 0x12f3e755);
    OpHValue(35, 0xa2205f1f, 0x12f3e755, 0xc3689f5b, 0xdf63eaa1, w, 0, 0xfde5380c, 23,
             0x0ef892af, 0xaefe29da, 0x004b6669);
    NextRow(w, 8, Regs(0x13707036, 0xa2205f1f, 0x1c31c384, 0xae7813db),
            0xdf63eaa1, 0xc3689f5b, 0x12f3e755, 0x004b6669);
    OpHValue(36, 0xdf63eaa1, 0x004b6669, 0x12f3e755, 0xc3689f5b, w, 0, 0xa4beea44, 4,
             0xd1d01e67, 0x55f2f34c, 0x5f7a9b2e);
    OpHValue(37, 0xc3689f5b, 0x5f7a9b2e, 0x004b6669, 0x12f3e755, w, 0, 0x4bdecfa9, 11,
             0x4dc21a12, 0x5d098916, 0xabc34e16);
    OpHValue(38, 0x12f3e755, 0xabc34e16, 0x5f7a9b2e, 0x004b6669, w, 0, 0xf6bb4b60, 16,
             0xf4f2b351, 0xfea1e606, 0x91ca4cb7);
    OpHValue(39, 0x004b6669, 0x91ca4cb7, 0xabc34e16, 0x5f7a9b2e, w, 0, 0xbebfbc70, 23,
             0x6573998f, 0x247ebc68, 0xc5dc8c15);
    NextRow(w, 9, Regs(0xdf63eaa1, 0x004b6669, 0x12f3e755, 0xc3689f5b),
            0x5f7a9b2e, 0xabc34e16, 0x91ca4cb7, 0xc5dc8c15);
  }

  lemma Empty5(w: seq<bv32>)
    requires OneBlock(w, 0x00000080, 0)
    requires RowsBits(START, w, 10) == Regs(0x5f7a9b2e, 0xc5dc8c15, 0x91ca4cb7, 0xabc34e16)
    ensures RowsBits(START, w, 12) == Regs(0x3f55edfd, 0xca7d2dbd, 0x68d84ea2, 0x22a31f54)
  {
    hide RowsBits, OpBits, Index;
    OpHValue(40, 0x5f7a9b2e, 0xc5dc8c15, 0x91ca4cb7, 0xabc34e16, w, 0, 0x289b7ec6, 4,
             0xffd58eb4, 0x87eba8a8, 0x4497169d);
    OpHValue(41, 0xabc34e16, 0x4497169d, 0xc5dc8c15, 0x91ca4cb7, w, 0x00000080, 0xeaa127fa, 11,
             0x1081d63f, 0xa6e64ccf, 0x76fd93d4);
    OpHValue(42, 0x91ca4cb7, 0x76fd93d4, 0x4497169d, 0xc5dc8c15, w, 0, 0xd4ef3085, 16,
             0xf7b6095c, 0x5e6f8698, 0xfd95f243);
    OpHValue(43, 0xc5dc8c15, 0xfd95f243, 0x76fd93d4, 0x4497169d, w, 0, 0x04881d05, 23,
             0xcfff770a, 0x9a642024, 0x0fe32453);
    NextRow(w, 10, Regs(0x5f7a9b2e, 0xc5dc8c15, 0x91ca4cb7, 0xabc34e16),
            0x4497169d, 0x76fd93d4, 0xfd95f243, 0x0fe32453);
    OpHValue(44, 0x4497169d, 0x0fe32453, 0xfd95f243, 0x76fd93d4, w, 0, 0xd9d4d039, 4,
             0x848b45c4, 0xa2f72c9a, 0x3f55edfd);
    OpHValue(45, 0x76fd93d4, 0x3f55edfd, 0x0fe32453, 0xfd95f243, w, 0, 0xe6db99e5, 11,
             0xcd233bed, 0x2afc69a6, 0x22a31f54);
    OpHValue(46, 0xfd95f243, 0x22a31f54, 0x3f55edfd, 0x0fe32453, w, 0, 0x1fa27cf8, 16,
             0x1215d6fa, 0x2f4e4635, 0x68d84ea2);
    OpHValue(47, 0x0fe32453, 0x68d84ea2, 0x22a31f54, 0x3f55edfd, w, 0, 0xc4ac5665, 23,
             0x752ebc0b, 0x49be36c3, 0xca7d2dbd);
    NextRow(w, 11, Regs(0x4497169d, 0x0fe32453, 0xfd95f243, 0x76fd93d4),
            0x3f55edfd, 0x22a31f54, 0x68d84ea2, 0xca7d2dbd);
  }

  lemma Empty6(w: seq<bv32>)
    requires OneBlock(w, 0x00000080, 0)
    requires RowsBits(START, w, 12) == Regs(0x3f55edfd, 0xca7d2dbd, 0x68d84ea2, 0x22a31f54)
    ensures RowsBits(START, w, 14) == Regs(0x5625a114, 0x1e77fa61, 0x392ad0d0, 0x3450f42b)
  {
    hide RowsBits, OpBits, Index;
    OpIValue(48, 0x3f55edfd, 0xca7d2dbd, 0x68d84ea2, 0x22a31f54, w, 0x00000080, 0xf4292244, 6,
             0xb7a5a31d, 0xeb24b3de, 0x93aa2577);
    OpIValue(49, 0x22a31f54, 0x93aa2577, 0xca7d2dbd, 0x68d84ea2, w, 0, 0x432aff97, 10,
             0x5dd298c2, 0xc3a0b7ad, 0x1688dc85);
    OpIValue(50, 0x68d84ea2, 0x1688dc85, 0x93aa2577, 0xca7d2dbd, w, 0, 0xab9423a7, 15,
             0xa420fbb0, 0xb88d6df9, 0xcd85b8cb);
    OpIValue(51, 0xca7d2dbd, 0xcd85b8cb, 0x1688dc85, 0x93aa2577, w, 0, 0xfc93a039, 21,
             0xfb5d264e, 0xc26df444, 0x561e0689);
    NextRow(w, 12, Regs(0x3f55edfd, 0xca7d2dbd, 0x68d84ea2, 0x22a31f54),
            0x93aa2577, 0x1688dc85, 0xcd85b8cb, 0x561e0689);
    OpIValue(52, 0x93aa2577, 0x561e0689, 0xcd85b8cb, 0x1688dc85, w, 0, 0x655b59c3, 6,
             0x32fa9f30, 0x2c001e6a, 0x5625a114);
    OpIValue(53, 0x1688dc85, 0x5625a114, 0x561e0689, 0xcd85b8cb, w, 0, 0x8f0ccc92, 10,
             0x2061e1bd, 0xc5f78ad4, 0x3450f42b);
    OpIValue(54, 0xcd85b8cb, 0x3450f42b, 0x5625a114, 0x561e0689, w, 0, 0xffeff47d, 15,
             0xebd45c6b, 0xb94a09b3, 0x392ad0d0);
    OpIValue(55, 0x561e0689, 0x392ad0d0, 0x3450f42b, 0x5625a114, w, 0, 0x85845dd1, 21,
             0x8daa2ad0, 0x694c8f2a, 0x1e77fa61);
    NextRow(w, 13, Regs(0x93aa2577, 0x561e0689, 0xcd85b8cb, 0x1688dc85),
            0x5625a114, 0x3450f42b, 0x392ad0d0, 0x1e77fa61);
  }

  lemma Empty7(w: seq<bv32>)
    requires OneBlock(w, 0x00000080, 0)
    requires RowsBits(START, w, 14) == Regs(0x5625a114, 0x1e77fa61, 0x392ad0d0, 0x3450f42b)
    ensures RowsBits(START, w, 16) == Regs(0x7246fad3, 0x14e45506, 0xff4ea3eb, 0x6e10a476)
  {
    hide RowsBits, OpBits, Index;
    OpIValue(56, 0x5625a114, 0x1e77fa61, 0x392ad0d0, 0x3450f42b, w, 0, 0x6fa87e4f, 6,
             0xe6d52b25, 0xaca34a88, 0x474a9c8c);
    OpIValue(57, 0x3450f42b, 0x474a9c8c, 0x1e77fa61, 0x392ad0d0, w, 0, 0xfe2ce6e0, 10,
             0xd9a845ce, 0x0c2620d9, 0xdfce00bc);
    OpIValue(58, 0x392ad0d0, 0xdfce00bc, 0x474a9c8c, 0x1e77fa61, w, 0, 0xa3014314, 15,
             0xb8849932, 0x94b0ad16, 0x36594b14);
    OpIValue(59, 0x1e77fa61, 0x36594b14, 0xdfce00bc, 0x474a9c8c, w, 0, 0x4e0811a1, 21,
             0x61336bcb, 0xcdb377cd, 0x30130182);
    NextRow(w, 14, Regs(0x5625a114, 0x1e77fa61, 0x392ad0d0, 0x3450f42b),
            0x474a9c8c, 0xdfce00bc, 0x36594b14, 0x30130182);
    OpIValue(60, 0x474a9c8c, 0x30130182, 0x36594b14, 0xdfce00bc, w, 0, 0xf7537e82, 6,
             0x066ab4d7, 0x4508cfe5, 0x7246fad3);
    OpIValue(61, 0xdfce00bc, 0x7246fad3, 0x30130182, 0x36594b14, w, 0, 0xbd3af235, 10,
             0xcbf5ff79, 0x68fef26a, 0x6e10a476);
    OpIValue(62, 0x36594b14, 0x6e10a476, 0x7246fad3, 0x30130182, w, 0, 0x2ad7d2bb, 15,
             0x9dba04ac, 0xfeeb227b, 0xff4ea3eb);
    OpIValue(63, 0x30130182, 0xff4ea3eb, 0x6e10a476, 0x7246fad3, w, 0, 0xeb86d391, 21,
             0x91ef0399, 0xad88d8ac, 0x14e45506);
    NextRow(w, 15, Regs(0x474a9c8c, 0x30130182, 0x36594b14, 0xdfce00bc),
            0x7246fad3, 0x6e10a476, 0xff4ea3eb, 0x14e45506);
  }

  lemma Abc1(w: seq<bv32>)
    requires OneBlock(w, 0x80636261, 0x00000018)
    requires RowsBits(START, w, 0) == Regs(0x67452301, 0xefcdab89, 0x98badcfe, 0x10325476)
    ensures RowsBits(START, w, 4) == Regs(0xdda9b9a6, 0x72aff2e0, 0xe396856b, 0xa1051895)
  {
    hide RowsBits, OpBits, Index;
    OpFValue(0, 0x67452301, 0xefcdab89, 0x98badcfe, 0x10325476, w, 0x80636261, 0xd76aa478, 7,
             0x98badcfe, 0x57ce06d8, 0xd6d117b4);
    OpFValue(1, 0x10325476, 0xd6d117b4, 0xefcdab89, 0x98badcfe, w, 0, 0xe8c7b756, 12,
             0xceebcbca, 0xc7e5d796, 0x344a8432);
    OpFValue(2, 0x98badcfe, 0x344a8432, 0xd6d117b4, 0xefcdab89, w, 0, 0x242070db, 17,
             0xdfc52fb9, 0x9ca07d92, 0x2f6fbd72);
    OpFValue(3, 0xefcdab89, 0x2f6fbd72, 0x344a8432, 0xd6d117b4, w, 0, 0xc1bdceee, 22,
             0xf4da86b6, 0xa666012d, 0x7ad956f2);
    NextRow(w, 0, Regs(0x67452301, 0xefcdab89, 0x98badcfe, 0x10325476),
            0xd6d117b4, 0x344a8432, 0x2f6fbd72, 0x7ad956f2);
    OpFValue(4, 0xd6d117b4, 0x7ad956f2, 0x2f6fbd72, 0x344a8432, w, 0, 0xf57c0faf, 7,
             0x2e4b9472, 0xfa98bbd5, 0xc73741ef);
    OpFValue(5, 0x344a8432, 0xc73741ef, 0x7ad956f2, 0x2f6fbd72, w, 0, 0x4787c62a, 12,
             0x6a59fcf2, 0xe62c474e, 0x8bac3051);
    OpFValue(6, 0x2f6fbd72, 0x8bac3051, 0xc73741ef, 0x7ad956f2, w, 0, 0xa8304613, 17,
             0xf37546e3, 0xcb154a68, 0x207dc67b);
    OpFValue(7, 0x7ad956f2, 0x207dc67b, 0x8bac3051, 0xc73741ef, w, 0, 0xfd469501, 22,
             0xc72e01d5, 0x3f4dedc8, 0x928d99f6);
    NextRow(w, 1, Regs(0xd6d117b4, 0x7ad956f2, 0x2f6fbd72, 0x344a8432),
            0xc73741ef, 0x8bac3051, 0x207dc67b, 0x928d99f6);
    OpFValue(8, 0xc73741ef, 0x928d99f6, 0x207dc67b, 0x8bac3051, w, 0, 0x698098d8, 7,
             0x092da073, 0x39e57b3a, 0x854b3712);
    OpFValue(9, 0x8bac3051, 0x854b3712, 0x928d99f6, 0x207dc67b, w, 0, 0x8b44f7af, 12,
             0xa03dd17b, 0xb72ef97b, 0x74e2f284);
    OpFValue(10, 0x207dc67b, 0x74e2f284, 0x854b3712, 0x928d99f6, w, 0, 0xffff5bb1, 17,
             0x864f3b72, 0xa6cc5d9e, 0x3020401c);
    OpFValue(11, 0x928d99f6, 0x3020401c, 0x74e2f284, 0x854b3712, w, 0, 0x895cd7be, 22,
             0xb56b7706, 0xd155e8ba, 0x5ed49596);
    NextRow(w, 2, Regs(0xc73741ef, 0x928d99f6, 0x207dc67b, 0x8bac3051),
            0x854b3712, 0x74e2f284, 0x3020401c, 0x5ed49596);
    OpFValue(12, 0x854b3712, 0x5ed49596, 0x3020401c, 0x74e2f284, w, 0, 0x6b901122, 7,
             0x30226214, 0x20fdaa48, 0xdda9b9a6);
    OpFValue(13, 0x74e2f284, 0xdda9b9a6, 0x5ed49596, 0x3020401c, w, 0, 0xfd987193, 12,
             0x7c80d19e, 0xeefc35b5, 0xa1051895);
    OpFValue(14, 0x3020401c, 0xa1051895, 0xdda9b9a6, 0x5ed49596, w, 0x00000018, 0xa679438e, 17,
             0xdfd19d86, 0xb66b2148, 0xe396856b);
    OpFValue(15, 0x5ed49596, 0xe396856b, 0xa1051895, 0xdda9b9a6, w, 0, 0x49b40821, 22,
             0xbd2d3885, 0x65b5d63c, 0x72aff2e0);
    NextRow(w, 3, Regs(0x854b3712, 0x5ed49596, 0x3020401c, 0x74e2f284),
            0xdda9b9a6, 0xa1051895, 0xe396856b, 0x72aff2e0);
  }

  lemma Abc2(w: seq<bv32>)
    requires OneBlock(w, 0x80636261, 0x00000018)
    requires RowsBits(START, w, 4) == Regs(0xdda9b9a6, 0x72aff2e0, 0xe396856b, 0xa1051895)
    ensures RowsBits(START, w, 6) == Regs(0x59a8ffda, 0x47092c07, 0xabfc7920, 0x6d002f1e)
  {
    hide RowsBits, OpBits, Index;
    OpGValue(16, 0xdda9b9a6, 0x72aff2e0, 0xe396856b, 0xa1051895, w, 0, 0xf61e2562, 5,
             0x629795ea, 0x365f74f2, 0x3e9e9126);
    OpGValue(17, 0xa1051895, 0x3e9e9126, 0x72aff2e0, 0xe396856b, w, 0, 0xc040b340, 9,
             0x32bff3a2, 0x9405bf77, 0x4a1d804e);
    OpGValue(18, 0xe396856b, 0x4a1d804e, 0x3e9e9126, 0x72aff2e0, w, 0, 0x265e5a51, 14,
             0x4e1d8146, 0x58126102, 0xe25e1652);
    OpGValue(19, 0x72aff2e0, 0xe25e1652, 0x4a1d804e, 0x3e9e9126, w, 0x80636261, 0xe9b6c7aa, 20,
             0x621f104a, 0x3ee92d35, 0xb5b204e4);
    NextRow(w, 4, Regs(0xdda9b9a6, 0x72aff2e0, 0xe396856b, 0xa1051895),
            0x3e9e9126, 0x4a1d804e, 0xe25e1652, 0xb5b204e4);
    OpGValue(20, 0x3e9e9126, 0xb5b204e4, 0xe25e1652, 0x4a1d804e, w, 0, 0xd62f105d, 5,
             0xa0521654, 0xb51fb7d7, 0x59a8ffda);
    OpGValue(21, 0x4a1d804e, 0x59a8ffda, 0xb5b204e4, 0xe25e1652, w, 0, 0x02441453, 9,
             0x55a816f6, 0xa209ab97, 0x6d002f1e);
    OpGValue(22, 0xe25e1652, 0x6d002f1e, 0x59a8ffda, 0xb5b204e4, w, 0, 0xd8a1e681, 14,
             0x6d08ff1e, 0x2808fbf1, 0xabfc7920);
    OpGValue(23, 0xb5b204e4, 0xabfc7920, 0x6d002f1e, 0x59a8ffda, w, 0, 0xe7d3fbc8, 20,
             0x2da87904, 0xcb2e79b0, 0x47092c07);
    NextRow(w, 5, Regs(0x3e9e9126, 0xb5b204e4, 0xe25e1652, 0x4a1d804e),
            0x59a8ffda, 0x6d002f1e, 0xabfc7920, 0x47092c07);
  }

  lemma Abc3(w: seq<bv32>)
    requires OneBlock(w, 0x80636261, 0x00000018)
    requires RowsBits(START, w, 6) == Regs(0x59a8ffda, 0x47092c07, 0xabfc7920, 0x6d002f1e)
    ensures RowsBits(START, w, 8) == Regs(0x790a77fb, 0x726342d3, 0xa62884aa, 0x9f47e4f8)
  {
    hide RowsBits, OpBits, Index;
    OpGValue(24, 0x59a8ffda, 0x47092c07, 0xabfc7920, 0x6d002f1e, w, 0, 0x21e1cde6, 5,
             0xc7fc7c26, 0x438749e6, 0xb7f268cf);
    OpGValue(25, 0x6d002f1e, 0xb7f268cf, 0x47092c07, 0xabfc7920, w, 0x00000018, 0xc33707d6, 9,
             0xe7f16c07, 0x1828a313, 0x09388eff);
    OpGValue(26, 0xabfc7920, 0x09388eff, 0xb7f268cf, 0x47092c07, w, 0, 0xf4d50d87, 14,
             0xb1fa4ccf, 0x52cbd376, 0xfe1623b1);
    OpGValue(27, 0x47092c07, 0xfe1623b1, 0x09388eff, 0xb7f268cf, w, 0, 0x455a14ed, 20,
             0xbe1aa6b1, 0x4a7de7a5, 0x786acb8f);
    NextRow(w, 6, Regs(0x59a8ffda, 0x47092c07, 0xabfc7920, 0x6d002f1e),
            0xb7f268cf, 0x09388eff, 0xfe1623b1, 0x786acb8f);
    OpGValue(28, 0xb7f268cf, 0x786acb8f, 0xfe1623b1, 0x09388eff, w, 0, 0xa9e3e905, 5,
             0xfe2eab8f, 0x6004fd63, 0x790a77fb);
    OpGValue(29, 0x09388eff, 0x790a77fb, 0x786acb8f, 0xfe1623b1, w, 0, 0xfcefa3f8, 9,
             0x786aebbf, 0x7e931eb6, 0x9f47e4f8);
    OpGValue(30, 0xfe1623b1, 0x9f47e4f8, 0x790a77fb, 0x786acb8f, w, 0, 0x676f02d9, 14,
             0x1942f4f8, 0x7ec81b82, 0xa62884aa);
    OpGValue(31, 0x786acb8f, 0xa62884aa, 0x9f47e4f8, 0x790a77fb, w, 0, 0x8d2a4c8a, 20,
             0xa64d84aa, 0xabe29cc3, 0x726342d3);
    NextRow(w, 7, Regs(0xb7f268cf, 0x786acb8f, 0xfe1623b1, 0x09388eff),
            0x790a77fb, 0x9f47e4f8, 0xa62884aa, 0x726342d3);
  }

  lemma Abc4(w: seq<bv32>)
    requires OneBlock(w, 0x80636261, 0x00000018)
    requires RowsBits(START, w, 8) == Regs(0x790a77fb, 0x726342d3, 0xa62884aa, 0x9f47e4f8)
    ensures RowsBits(START, w, 10) == Regs(0x21b117b9, 0x5a2f5ea5, 0x3575227e, 0x6e7429d5)
  {
    hide RowsBits, OpBits, Index;
    OpHValue(32, 0x790a77fb, 0x726342d3, 0xa62884aa, 0x9f47e4f8, w, 0, 0xfffa3942, 4,
             0x4b0c2281, 0xc410d3be, 0xb3707ebf);
    OpHValue(33, 0x9f47e4f8, 0xb3707ebf, 0x726342d3, 0xa62884aa, w, 0, 0x8771f681, 11,
             0x673bb8c6, 0x8df5943f, 0x60127b2e);
    OpHValue(34, 0xa62884aa, 0x60127b2e, 0xb3707ebf, 0x726342d3, w, 0, 0x6d9d6122, 16,
             0xa1014742, 0xb4c72d0e, 0x8d212ff5);
    OpHValue(35, 0x726342d3, 0x8d212ff5, 0x60127b2e, 0xb3707ebf, w, 0x00000018, 0xfde5380c, 23,
             0x5e432a64, 0xce8ba55b, 0x3b0875c7);
    NextRow(w, 8, Regs(0x790a77fb, 0x726342d3, 0xa62884aa, 0x9f47e4f8),
            0xb3707ebf, 0x60127b2e, 0x8d212ff5, 0x3b0875c7);
    OpHValue(36, 0xb3707ebf, 0x3b0875c7, 0x8d212ff5, 0x60127b2e, w, 0, 0xa4beea44, 4,
             0xd63b211c, 0x2e6a8a1f, 0x21b117b9);
    OpHValue(37, 0x60127b2e, 0x21b117b9, 0x3b0875c7, 0x8d212ff5, w, 0, 0x4bdecfa9, 11,
             0x97984d8b, 0x43899862, 0x6e7429d5);
    OpHValue(38, 0x8d212ff5, 0x6e7429d5, 0x21b117b9, 0x3b0875c7, w, 0, 0xf6bb4b60, 16,
             0x74cd4bab, 0xf8a9c700, 0x3575227e);
    OpHValue(39, 0x3b0875c7, 0x3575227e, 0x6e7429d5, 0x21b117b9, w, 0, 0xbebfbc70, 23,
             0x7ab01c12, 0x74784e49, 0x5a2f5ea5);
    NextRow(w, 9, Regs(0xb3707ebf, 0x3b0875c7, 0x8d212ff5, 0x60127b2e),
            0x21b117b9, 0x6e7429d5, 0x3575227e, 0x5a2f5ea5);
  }

  lemma Abc5(w: seq<bv32>)
    requires OneBlock(w, 0x80636261, 0x00000018)
    requires RowsBits(START, w, 10) == Regs(0x21b117b9, 0x5a2f5ea5, 0x3575227e, 0x6e7429d5)
    ensures RowsBits(START, w, 12) == Regs(0x7f2e507b, 0x7beb9700, 0x8fae6399, 0x99d9679d)
  {
    hide RowsBits, OpBits, Index;
    OpHValue(40, 0x21b117b9, 0x5a2f5ea5, 0x3575227e, 0x6e7429d5, w, 0, 0x289b7ec6, 4,
             0x012e550e, 0x4b7aeb8d, 0x11de1779);
    OpHValue(41, 0x6e7429d5, 0x11de1779, 0x5a2f5ea5, 0x3575227e, w, 0x80636261, 0xeaa127fa, 11,
             0x7e846ba2, 0x57fd1fd2, 0xfadcaa38);
    OpHValue(42, 0x3575227e, 0xfadcaa38, 0x11de1779, 0x5a2f5ea5, w, 0, 0xd4ef3085, 16,
             0xb12de3e4, 0xbb9236e7, 0x31c465ca);
    OpHValue(43, 0x5a2f5ea5, 0x31c465ca, 0xfadcaa38, 0x11de1779, w, 0, 0x04881d05, 23,
             0xdac6d88b, 0x397e5435, 0x4c6124f4);
    NextRow(w, 10, Regs(0x21b117b9, 0x5a2f5ea5, 0x3575227e, 0x6e7429d5),
            0x11de1779, 0xfadcaa38, 0x31c465ca, 0x4c6124f4);
    OpHValue(44, 0x11de1779, 0x4c6124f4, 0x31c465ca, 0xfadcaa38, w, 0, 0xd9d4d039, 4,
             0x8779eb06, 0x732cd2b8, 0x7f2e507b);
    OpHValue(45, 0xfadcaa38, 0x7f2e507b, 0x4c6124f4, 0x31c465ca, w, 0, 0xe6db99e5, 11,
             0x028b1145, 0xe4435562, 0x99d9679d);
    OpHValue(46, 0x31c465ca, 0x99d9679d, 0x7f2e507b, 0x4c6124f4, w, 0, 0x1fa27cf8, 16,
             0xaa961312, 0xfbfcf5d4, 0x8fae6399);
    OpHValue(47, 0x4c6124f4, 0x8fae6399, 0x99d9679d, 0x7f2e507b, w, 0, 0xc4ac5665, 23,
             0x6959547f, 0x7a66cfd8, 0x7beb9700);
    NextRow(w, 11, Regs(0x11de1779, 0x4c6124f4, 0x31c465ca, 0xfadcaa38),
            0x7f2e507b, 0x99d9679d, 0x8fae6399, 0x7beb9700);
  }

  lemma Abc6(w: seq<bv32>)
    requires OneBlock(w, 0x80636261, 0x00000018)
    requires RowsBits(START, w, 12) == Regs(0x7f2e507b, 0x7beb9700, 0x8fae6399, 0x99d9679d)
    ensures RowsBits(START, w, 14) == Regs(0x06cc5e8a, 0x3bfa2c27, 0x7d632dd0, 0x5b0d97aa)
  {
    hide RowsBits, OpBits, Index;
    OpIValue(48, 0x7f2e507b, 0x7beb9700, 0x8fae6399, 0x99d9679d, w, 0x80636261, 0xf4292244, 6,
             0xf041fcfb, 0xe3fcd21b, 0x7b201df8);
    OpIValue(49, 0x99d9679d, 0x7b201df8, 0x7beb9700, 0x8fae6399, w, 0, 0x432aff97, 10,
             0x009a0afe, 0xdd9e7232, 0xf4e8e96e);
    OpIValue(50, 0x8fae6399, 0xf4e8e96e, 0x7b201df8, 0x7beb9700, w, 0x00000018, 0xab9423a7, 15,
             0x8fdcf407, 0xcb1f7b5f, 0xb298cefd);
    OpIValue(51, 0x7beb9700, 0xb298cefd, 0xf4e8e96e, 0x7b201df8, w, 0, 0xfc93a039, 21,
             0x42370791, 0xbab63eca, 0x8bf025c4);
    NextRow(w, 12, Regs(0x7f2e507b, 0x7beb9700, 0x8fae6399, 0x99d9679d),
            0x7b201df8, 0xf4e8e96e, 0xb298cefd, 0x8bf025c4);
    OpIValue(52, 0x7b201df8, 0x8bf025c4, 0xb298cefd, 0xf4e8e96e, w, 0, 0x655b59c3, 6,
             0x396ff928, 0x19eb70e3, 0x06cc5e8a);
    OpIValue(53, 0xf4e8e96e, 0x06cc5e8a, 0x8bf025c4, 0xb298cefd, w, 0, 0x8f0ccc92, 10,
             0xc41f5a4e, 0x4815104e, 0x5b0d97aa);
    OpIValue(54, 0xb298cefd, 0x5b0d97aa, 0x06cc5e8a, 0x8bf025c4, w, 0, 0xffeff47d, 15,
             0x79c38131, 0x2c4c44ab, 0x7d632dd0);
    OpIValue(55, 0x8bf025c4, 0x7d632dd0, 0x5b0d97aa, 0x06cc5e8a, w, 0, 0x85845dd1, 21,
             0xa67e3a5f, 0xb7f2bdf4, 0x3bfa2c27);
    NextRow(w, 13, Regs(0x7b201df8, 0x8bf025c4, 0xb298cefd, 0xf4e8e96e),
            0x06cc5e8a, 0x5b0d97aa, 0x7d632dd0, 0x3bfa2c27);
  }

  lemma Abc7(w: seq<bv32>)
    requires OneBlock(w, 0x80636261, 0x00000018)
    requires RowsBits(START, w, 14) == Regs(0x06cc5e8a, 0x3bfa2c27, 0x7d632dd0, 0x5b0d97aa)
    ensures RowsBits(START, w, 16) == Regs(0x310ade8f, 0xc08226b3, 0xe484b9d8, 0x624d8cb2)
  {
    hide RowsBits, OpBits, Index;
    OpIValue(56, 0x06cc5e8a, 0x3bfa2c27, 0x7d632dd0, 0x5b0d97aa, w, 0, 0x6fa87e4f, 6,
             0xc29941a7, 0x390e1e80, 0x7f81cc35);
    OpIValue(57, 0x5b0d97aa, 0x7f81cc35, 0x3bfa2c27, 0x7d632dd0, w, 0, 0xfe2ce6e0, 10,
             0xc467f218, 0x1da270a2, 0x094454ab);
    OpIValue(58, 0x7d632dd0, 0x094454ab, 0x7f81cc35, 0x3bfa2c27, w, 0, 0xa3014314, 15,
             0xb2c41bce, 0xd3288cb2, 0x4f9dbe3f);
    OpIValue(59, 0x3bfa2c27, 0x4f9dbe3f, 0x094454ab, 0x7f81cc35, w, 0, 0x4e0811a1, 21,
             0xc6bbeb54, 0x50be291c, 0x7327d604);
    NextRow(w, 14, Regs(0x06cc5e8a, 0x3bfa2c27, 0x7d632dd0, 0x5b0d97aa),
            0x7f81cc35, 0x094454ab, 0x4f9dbe3f, 0x7327d604);
    OpIValue(60, 0x7f81cc35, 0x7327d604, 0x4f9dbe3f, 0x094454ab, w, 0, 0xf7537e82, 6,
             0xb822416b, 0x2ef78c22, 0x310ade8f);
    OpIValue(61, 0x094454ab, 0x310ade8f, 0x7327d604, 0x4f9dbe3f, w, 0, 0xbd3af235, 10,
             0xc24d09cb, 0x88cc50ab, 0x624d8cb2);
    OpIValue(62, 0x4f9dbe3f, 0x624d8cb2, 0x310ade8f, 0x7327d604, w, 0, 0x2ad7d2bb, 15,
             0xdfd77374, 0x5a4d046e, 0xe484b9d8);
    OpIValue(63, 0x7327d604, 0xe484b9d8, 0x624d8cb2, 0x310ade8f, w, 0, 0xeb86d391, 21,
             0x8cb8354a, 0xeb66dedf, 0xc08226b3);
    NextRow(w, 15, Regs(0x7f81cc35, 0x7327d604, 0x4f9dbe3f, 0x094454ab),
            0x310ade8f, 0x624d8cb2, 0xe484b9d8, 0xc08226b3);
  }

  // ----- the digests

  /** The first word of a padded message of less than four bytes, and the length in bits. */
  predicate Starts(m: seq<byte>, first: bv32, len: bv32) {
    && |m| < 4
    && (m + [0x80, 0, 0, 0])[..4] == [Num(B0(first)), Num(B1(first)), Num(B2(first)), Num(B3(first))]
    && Val(len) == 8 * |m|
  }

  predicate Added(n: Regs, v: Regs) {
    v == Regs(Plus(START.a, n.a), Plus(START.b, n.b), Plus(START.c, n.c), Plus(START.d, n.d))
  }

  /** A message of less than four bytes fits in one block. */
  lemma ShortBlock(m: seq<byte>, p: seq<byte>, w: seq<bv32>, first: bv32, len: bv32)
    requires Starts(m, first, len) && p == Padded(m) && OneBlock(w, first, len)
    ensures |p| == 64 && Stand(w, BlockWords(p)) && HashOf(p) == Compress(INIT, p)
  {
    ShortPadding(m, p);
    hide Compress, BlockWords, Padded, Num, B3, B2, B1, B0, Val;
    ShortWords(p, w, first, len, 8 * |m|);
    assert p[..|p| - 64] == [] && p[|p| - 64..] == p;
  }

  lemma ShortPadding(m: seq<byte>, p: seq<byte>)
    requires |m| < 4 && p == Padded(m)
    ensures |p| == 64 && p[..4] == (m + [0x80, 0, 0, 0])[..4] && p[56] == 8 * |m|
    ensures forall i | 4 <= i < 64 && i != 56 :: p[i] == 0
  {
    var n, q := 8 * |m|, m + [0x80] + Zeros(55 - |m|);
    assert ZeroCount(|m|) == 55 - |m| && n % TWO64 == n;
    LengthBytes(n);
    assert p == q + LowBytes(n, 8);
    hide *;
    ShortStart(m, q);
    assert p[..4] == q[..4];
  }

  lemma ShortStart(m: seq<byte>, q: seq<byte>)
    requires |m| < 4 && q == m + [0x80] + Zeros(55 - |m|)
    ensures |q| == 56 && q[..4] == (m + [0x80, 0, 0, 0])[..4] && forall i | 4 <= i < 56 :: q[i] == 0
  {
    var r := m + [0x80, 0, 0, 0];
    assert forall i | 0 <= i < 4 :: q[i] == r[i];
    assert q[..4] == r[..4];
  }

  lemma LengthBytes(n: byte)
    ensures LowBytes(n, 8) == [n, 0, 0, 0, 0, 0, 0, 0]
  {
    assert LowBytes(0, 7) == [0, 0, 0, 0, 0, 0, 0];
  }

  lemma ShortWords(p: seq<byte>, w: seq<bv32>, first: bv32, len: bv32, n: byte)
    requires |p| == 64 && p[..4] == [Num(B0(first)), Num(B1(first)), Num(B2(first)), Num(B3(first))]
    requires OneBlock(w, first, len) && Val(len) == n == p[56]
    requires forall i | 4 <= i < 64 && i != 56 :: p[i] == 0
    ensures Stand(w, BlockWords(p))
  {
    hide Num, B3, B2, B1, B0, Val, BlockWords;
    forall k | 0 <= k < 16 ensures Val(w[k]) == BlockWords(p)[k] {
      ShortWord(p, w, first, len, n, k);
    }
  }

  lemma ShortWord(p: seq<byte>, w: seq<bv32>, first: bv32, len: bv32, n: byte, k: nat)
    requires |p| == 64 && p[..4] == [Num(B0(first)), Num(B1(first)), Num(B2(first)), Num(B3(first))]
    requires OneBlock(w, first, len) && Val(len) == n == p[56] && k < 16
    requires forall i | 4 <= i < 64 && i != 56 :: p[i] == 0
    ensures |w| == 16 && Val(w[k]) == BlockWords(p)[k]
  {
    hide *;
    WordIs(w, first, len, k);
    BlockWordAt(p, k);
    if k == 0 {
      FirstWord(p, first);
    } else {
      WordOfLength(p, n, k, w[k], len);
    }
  }

  lemma WordOfLength(p: seq<byte>, n: byte, k: nat, v: bv32, len: bv32)
    requires |p| == 64 && 0 < k < 16 && p[56] == n == Val(len) && forall i | 4 <= i < 64 && i != 56 :: p[i] == 0
    requires v == if k == 14 then len else 0
    ensures Val(v) == WordOfBytes(p[4 * k], p[4 * k + 1], p[4 * k + 2], p[4 * k + 3])
  {
    hide *;
    Ends();
    LaterWord(p, n, k);
  }

  lemma WordIs(w: seq<bv32>, first: bv32, len: bv32, k: nat)
    requires OneBlock(w, first, len) && k < 16
    ensures |w| == 16
    ensures k == 0 ==> w[k] == first
    ensures k == 14 ==> w[k] == len
    ensures k != 0 && k != 14 ==> w[k] == 0
  {
  }

  lemma BlockWordAt(p: seq<byte>, k: nat)
    requires |p| == 64 && k < 16
    ensures BlockWords(p)[k] == WordOfBytes(p[4 * k], p[4 * k + 1], p[4 * k + 2], p[4 * k + 3])
  {
  }

  lemma FirstWord(p: seq<byte>, first: bv32)
    requires |p| == 64 && p[..4] == [Num(B0(first)), Num(B1(first)), Num(B2(first)), Num(B3(first))]
    ensures Val(first) == WordOfBytes(p[0], p[1], p[2], p[3])
  {
    hide Num, B3, B2, B1, B0;
    assert p[0] == p[..4][0] && p[1] == p[..4][1] && p[2] == p[..4][2] && p[3] == p[..4][3];
  }

  lemma LaterWord(p: seq<byte>, n: byte, k: nat)
    requires |p| == 64 && 0 < k < 16 && p[56] == n && forall i | 4 <= i < 64 && i != 56 :: p[i] == 0
    ensures WordOfBytes(p[4 * k], p[4 * k + 1], p[4 * k + 2], p[4 * k + 3]) == if k == 14 then n else 0
  {
  }

  lemma BytesOf(v: bv32)
    ensures WordBytes(Val(v)) == [Num(B0(v)), Num(B1(v)), Num(B2(v)), Num(B3(v))]
  {
    hide Num, B3, B2, B1, B0;
    FourBytes(Val(v), Num(B0(v)), Num(B1(v)), Num(B2(v)), Num(B3(v)));
  }

  lemma FourBytes(x: word, b0: byte, b1: byte, b2: byte, b3: byte)
    requires x == Joined(b3, b2, b1, b0)
    ensures WordBytes(x) == [b0, b1, b2, b3]
  {
    var x1, x2 := x / 256, x / 256 / 256;
    assert x % 256 == b0 && x1 == b1 + 0x100 * b2 + 0x1_0000 * b3;
    assert x1 % 256 == b1 && x2 == b2 + 0x100 * b3;
    assert x2 % 256 == b2 && x2 / 256 == b3;
    assert LowBytes(x2 / 256, 1) == [b3];
    assert LowBytes(x2, 2) == [b2] + LowBytes(x2 / 256, 1);
    assert LowBytes(x1, 3) == [b1] + LowBytes(x2, 2);
  }

  lemma StartIs()
    ensures Words(START) == INIT
  {
  }

  /** The digest of a short message, from the last row. */
  lemma ShortDigest(m: seq<byte>, w: seq<bv32>, first: bv32, len: bv32, n: Regs, v: Regs)
    requires Starts(m, first, len) && OneBlock(w, first, len) && n == RowsBits(START, w, 16) && Added(n, v)
    ensures MD5(m) == Output(Words(v))
  {
    StartIs();
    hide Val, Num, B3, B2, B1, B0, Rows, RowsBits, BlockWords, Stand, Add, Plus, Padded, HashOf, Output, OneBlock;
    var p := Padded(m);
    ShortBlock(m, p, w, first, len);
    RowsAgree(START, w, BlockWords(p), 16);
    AddAgrees(START.a, n.a);
    AddAgrees(START.b, n.b);
    AddAgrees(START.c, n.c);
    AddAgrees(START.d, n.d);
  }

  function Block(first: bv32, len: bv32): seq<bv32> {
    [first, 0, 0, 0, 0, 0, 0, 0, 0, 0, 0, 0, 0, 0, len, 0]
  }

  lemma BlockIs(first: bv32, len: bv32)
    ensures OneBlock(Block(first, len), first, len)
  {
  }

  lemma ByteNumbers()
    ensures Num(0) == 0 && Num(24) == 24 && Num(0x80) == 0x80 && Num(97) == 97 && Num(98) == 98 && Num(99) == 99
  {
  }

  lemma EmptyRows(w: seq<bv32>)
    requires OneBlock(w, 0x00000080, 0)
    ensures RowsBits(START, w, 16) == Regs(0x7246fad3, 0x14e45506, 0xff4ea3eb, 0x6e10a476)
  {
    assert RowsBits(START, w, 0) == START;
    hide *;
    Empty1(w);
    Empty2(w);
    Empty3(w);
    Empty4(w);
    Empty5(w);
    Empty6(w);
    Empty7(w);
  }

  lemma EmptyBytes(v: Regs)
    requires v == Regs(0xd98c1dd4, 0x04b2008f, 0x980980e9, 0x7e42f8ec)
    ensures Output(Words(v)) == [0xd4, 0x1d, 0x8c, 0xd9, 0x8f, 0x00, 0xb2, 0x04,
                                 0xe9, 0x80, 0x09, 0x98, 0xec, 0xf8, 0x42, 0x7e]
  {
    hide WordBytes, Val;
    BytesOf(v.a);
    BytesOf(v.b);
    BytesOf(v.c);
    BytesOf(v.d);
  }

  lemma EmptyParts()
    ensures B0(0x00000080) == 0x80 && B1(0x00000080) == 0x00 && B2(0x00000080) == 0x00 && B3(0x00000080) == 0x00
    ensures Val(0) == 0
  {
  }

  lemma EmptyStarts(m: seq<byte>)
    requires m == []
    ensures Starts(m, 0x00000080, 0)
  {
    ByteNumbers();
    EmptyParts();
    hide Num, B3, B2, B1, B0, Val;
    assert (m + [0x80, 0, 0, 0])[..4] == [0x80, 0x00, 0x00, 0x00];
  }

  /** MD5 of the empty message. */
  lemma EmptyDigest()
    ensures MD5([]) == [0xd4, 0x1d, 0x8c, 0xd9, 0x8f, 0x00, 0xb2, 0x04,
                        0xe9, 0x80, 0x09, 0x98, 0xec, 0xf8, 0x42, 0x7e]
  {
    hide *;
    var m, w := [], Block(0x00000080, 0);
    var n := Regs(0x7246fad3, 0x14e45506, 0xff4ea3eb, 0x6e10a476);
    var v := Regs(0xd98c1dd4, 0x04b2008f, 0x980980e9, 0x7e42f8ec);
    EmptyStarts(m);
    BlockIs(0x00000080, 0);
    EmptyRows(w);
    EmptySums(n, v);
    ShortDigest(m, w, 0x00000080, 0, n, v);
    EmptyBytes(v);
  }

  lemma EmptySums(n: Regs, v: Regs)
    requires n == Regs(0x7246fad3, 0x14e45506, 0xff4ea3eb, 0x6e10a476)
    requires v == Regs(0xd98c1dd4, 0x04b2008f, 0x980980e9, 0x7e42f8ec)
    ensures Added(n, v)
  {
  }

  lemma AbcRows(w: seq<bv32>)
    requires OneBlock(w, 0x80636261, 0x00000018)
    ensures RowsBits(START, w, 16) == Regs(0x310ade8f, 0xc08226b3, 0xe484b9d8, 0x624d8cb2)
  {
    assert RowsBits(START, w, 0) == START;
    hide *;
    Abc1(w);
    Abc2(w);
    Abc3(w);
    Abc4(w);
    Abc5(w);
    Abc6(w);
    Abc7(w);
  }

  lemma AbcBytes(v: Regs)
    requires v == Regs(0x98500190, 0xb04fd23c, 0x7d3f96d6, 0x727fe128)
    ensures Output(Words(v)) == [0x90, 0x01, 0x50, 0x98, 0x3c, 0xd2, 0x4f, 0xb0,
                                 0xd6, 0x96, 0x3f, 0x7d, 0x28, 0xe1, 0x7f, 0x72]
  {
    hide WordBytes, Val;
    BytesOf(v.a);
    BytesOf(v.b);
    BytesOf(v.c);
    BytesOf(v.d);
  }

  lemma AbcParts()
    ensures B0(0x80636261) == 0x61 && B1(0x80636261) == 0x62 && B2(0x80636261) == 0x63 && B3(0x80636261) == 0x80
    ensures Val(0x00000018) == 24
  {
  }

  lemma AbcStarts(m: seq<byte>)
    requires m == [97, 98, 99]
    ensures Starts(m, 0x80636261, 0x00000018)
  {
    ByteNumbers();
    AbcParts();
    hide Num, B3, B2, B1, B0, Val;
    assert (m + [0x80, 0, 0, 0])[..4] == [0x61, 0x62, 0x63, 0x80];
  }

  /** MD5 of "abc". */
  lemma AbcDigest()
    ensures MD5([97, 98, 99]) == [0x90, 0x01, 0x50, 0x98, 0x3c, 0xd2, 0x4f, 0xb0,
                                  0xd6, 0x96, 0x3f, 0x7d, 0x28, 0xe1, 0x7f, 0x72]
  {
    hide *;
    var m, w := [97, 98, 99], Block(0x80636261, 0x00000018);
    var n := Regs(0x310ade8f, 0xc08226b3, 0xe484b9d8, 0x624d8cb2);
    var v := Regs(0x98500190, 0xb04fd23c, 0x7d3f96d6, 0x727fe128);
    AbcStarts(m);
    BlockIs(0x80636261, 0x00000018);
    AbcRows(w);
    AbcSums(n, v);
    ShortDigest(m, w, 0x80636261, 0x00000018, n, v);
    AbcBytes(v);
  }

  lemma AbcSums(n: Regs, v: Regs)
    requires n == Regs(0x310ade8f, 0xc08226b3, 0xe484b9d8, 0x624d8cb2)
    requires v == Regs(0x98500190, 0xb04fd23c, 0x7d3f96d6, 0x727fe128)
    ensures Added(n, v)
  {
  }

  // ----- HMAC

  /** A string of bytes, each combined with the same byte. */
  function Combined(k: seq<bv8>, c: bv8): (r: seq<bv8>)
    ensures |r| == |k|
  {
    seq(|k|, i requires 0 <= i < |k| => k[i] ^ c)
  }

  lemma Widened(a: bv8)
    ensures B3(a as bv32) == 0 && B2(a as bv32) == 0 && B1(a as bv32) == 0 && B0(a as bv32) == a
  {
  }

  lemma WidenedIs(a: bv8)
    ensures Val(a as bv32) == Num(a)
  {
    Widened(a);
    assert Num(0) == 0;
    hide Num, B3, B2, B1, B0;
  }

  lemma XorWidened(a: bv8, b: bv8)
    ensures Word(XorOp, a as bv32, b as bv32) == (a ^ b) as bv32
  {
  }

  lemma XorByteBits(x: byte, y: byte)
    ensures XorByte(x, y) == Bits(XorOp, 8, x, y) && Pow2(8) == 256
  {
  }

  lemma XorByteIs(a: bv8, b: bv8)
    ensures XorByte(Num(a), Num(b)) == Num(a ^ b)
  {
    hide *;
    XorByteBits(Num(a), Num(b));
    WidenedIs(a);
    WidenedIs(b);
    WidenedIs(a ^ b);
    XorWidened(a, b);
    WordsAgree(XorOp, 8, 256, a as bv32, b as bv32);
  }

  lemma PadBytes()
    ensures Num(0x36) == IPAD && Num(0x5c) == OPAD && Num(0) == 0
  {
  }

  lemma CombinedIs(k: seq<bv8>, c: bv8)
    ensures XorAll(Nums(k), Num(c)) == Nums(Combined(k, c))
  {
    hide Num, XorByte;
    forall i | 0 <= i < |k| ensures XorByte(Num(k[i]), Num(c)) == Num(k[i] ^ c) {
      XorByteIs(k[i], c);
    }
  }

  /** HMAC with a key of at most 64 bytes, filled up with zeros: the bytes 0x36 and 0x5c are combined with it. */
  lemma HmacBytes(key: seq<bv8>, k: seq<bv8>, text: seq<byte>)
    requires |key| <= 64 == |k| && key <= k && forall i | |key| <= i < 64 :: k[i] == 0
    ensures HMAC(Nums(key), text)
         == MD5(Nums(Combined(k, 0x5c)) + MD5(Nums(Combined(k, 0x36)) + text))
  {
    PadBytes();
    hide Num, MD5, XorAll;
    assert KeyBlock(Nums(key)) == Nums(k);
    CombinedIs(k, 0x36);
    CombinedIs(k, 0x5c);
  }
}
