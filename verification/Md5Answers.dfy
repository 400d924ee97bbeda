/** What the digest is made of, as numbers: byte orders, hexadecimal text, and the
    answer of section A.5 of RFC 1321 for the empty message, operation by operation. */
module Md5Answers {
  import opened HexDigits
  import opened Md5

  // ----- Byte order

  /** A message word is its four bytes, the first one least significant. */
  lemma {:induction false} WordIsLowByteFirst(block: seq<Octet>, i: nat)
    requires |block| == 64 && i < 16
    ensures WordAt(block, i) ==
      (block[4 * i] as Word) + 0x100 * (block[4 * i + 1] as Word) +
      0x1_0000 * (block[4 * i + 2] as Word) + 0x100_0000 * (block[4 * i + 3] as Word)
  {
  }

  /** The eight length bytes make up the count, the first one least significant. */
  lemma {:induction false} CountIsLowByteFirst(bits: bv64)
    ensures var b := CountBytes(bits);
      bits == (b[0] as bv64) | (b[1] as bv64 << 8) | (b[2] as bv64 << 16) | (b[3] as bv64 << 24) |
        (b[4] as bv64 << 32) | (b[5] as bv64 << 40) | (b[6] as bv64 << 48) | (b[7] as bv64 << 56)
  {
  }

  // ----- The text

  lemma {:induction false} ByteReads(b: Octet)
    ensures HexNibble(ByteText(b)[0]) * 16 + HexNibble(ByteText(b)[1]) == b as int
  {
  }

  lemma {:induction false} WordParts(w: Word)
    ensures w == (w & 0xFF) + 0x100 * ((w >> 8) & 0xFF) +
      0x1_0000 * ((w >> 16) & 0xFF) + 0x100_0000 * ((w >> 24) & 0xFF)
  {
  }

  lemma {:induction false} PartKept(x: Word)
    ensures (x & 0xFF) as Octet as Word == x & 0xFF
  {
  }

  /** The bytes of a word, the first one least significant, are the word. */
  lemma {:induction false} WordBytesRead(w: Word)
    ensures var b := WordBytes(w);
      w == (b[0] as Word) + 0x100 * (b[1] as Word) + 0x1_0000 * (b[2] as Word) + 0x100_0000 * (b[3] as Word)
  {
    WordParts(w);
    PartKept(w);
    PartKept(w >> 8);
    PartKept(w >> 16);
    PartKept(w >> 24);
  }

  // ----- The empty message

  /** The one block of the padded empty message. */
  ghost predicate EmptyBlock(b: seq<Octet>) {
    |b| == 64 && b[0] == 0x80 && forall i :: 1 <= i < 64 ==> b[i] == 0
  }

  lemma {:induction false} EmptyWords(b: seq<Octet>, k: nat)
    requires EmptyBlock(b) && k < 16
    ensures WordAt(b, k) == if k == 0 then 0x80 else 0
  {
  }

  /** The message word of an operation. */
  function EmptyWord(i: nat): Word { if WordIndex(i) == 0 then 0x80 else 0 }

  lemma {:induction false} OneOp(b: seq<Octet>, i: nat, x: Word, y: Word, z: Word, u: Word, f: Word, v: Word)
    requires EmptyBlock(b) && i < 64 && RoundFunction(i, y, z, u) == f
    requires Mixed(x, y, f, EmptyWord(i), Sine(i), Shift(i)) == v
    ensures Operation(b, i, x, y, z, u) == v
  {
    hide Mixed, RoundFunction, WordAt, Sine, WordIndex, Order;
    WordIndexIsOrder(i);
    EmptyWords(b, Order(i));
  }

  /** Four operations take the registers from `r` to `t`. */
  ghost predicate Four(b: seq<Octet>, n: nat, r: Chain, t: Chain)
    requires |b| == 64 && n <= 60
  {
    && Operation(b, n, r.a, r.b, r.c, r.d) == t.a && Operation(b, n + 1, r.d, t.a, r.b, r.c) == t.d
    && Operation(b, n + 2, r.c, t.d, t.a, r.b) == t.c && Operation(b, n + 3, r.b, t.c, t.d, t.a) == t.b
  }

  lemma {:induction false} FourOn(b: seq<Octet>, n: nat, r: Chain, t: Chain)
    requires |b| == 64 && n <= 60 && n % 4 == 0 && Registers(b, INITIAL, n) == r && Four(b, n, r, t)
    ensures Registers(b, INITIAL, n + 4) == t
  {
    hide Operation;
    assert Registers(b, INITIAL, n + 1) == r.(a := t.a);
    assert Registers(b, INITIAL, n + 2) == r.(a := t.a, d := t.d);
    assert Registers(b, INITIAL, n + 3) == r.(a := t.a, d := t.d, c := t.c);
  }

  lemma {:induction false} Constants0()
    ensures Sine(0) == 0xd76aa478 && Sine(1) == 0xe8c7b756 && Sine(2) == 0x242070db && Sine(3) == 0xc1bdceee
    ensures EmptyWord(0) == 0x80 && EmptyWord(1) == 0 && EmptyWord(2) == 0 && EmptyWord(3) == 0
    ensures Shift(0) == 7 && Shift(1) == 12 && Shift(2) == 17 && Shift(3) == 22
  {
  }

  lemma {:induction false} Empty0(b: seq<Octet>)
    requires EmptyBlock(b)
    ensures Four(b, 0, Chain(0x67452301, 0xefcdab89, 0x98badcfe, 0x10325476),
      Chain(0xa5202774, 0x1b163203, 0xe7f06b23, 0xf59592dd))
  {
    hide Operation, EmptyBlock, Sine, Shift, EmptyWord, Registers;
    Constants0();
    OneOp(b, 0, 0x67452301, 0xefcdab89, 0x98badcfe, 0x10325476, 0x98badcfe, 0xa5202774);
    OneOp(b, 1, 0x10325476, 0xa5202774, 0xefcdab89, 0x98badcfe, 0xbd9afb8a, 0xf59592dd);
    OneOp(b, 2, 0x98badcfe, 0xf59592dd, 0xa5202774, 0xefcdab89, 0xaf482b54, 0xe7f06b23);
    OneOp(b, 3, 0xefcdab89, 0xe7f06b23, 0xf59592dd, 0xa5202774, 0xe5900655, 0x1b163203);
  }

  lemma {:induction false} Constants1()
    ensures Sine(4) == 0xf57c0faf && Sine(5) == 0x4787c62a && Sine(6) == 0xa8304613 && Sine(7) == 0xfd469501
    ensures EmptyWord(4) == 0 && EmptyWord(5) == 0 && EmptyWord(6) == 0 && EmptyWord(7) == 0
    ensures Shift(4) == 7 && Shift(5) == 12 && Shift(6) == 17 && Shift(7) == 22
  {
  }

  lemma {:induction false} Empty1(b: seq<Octet>)
    requires EmptyBlock(b)
    ensures Four(b, 4, Chain(0xa5202774, 0x1b163203, 0xe7f06b23, 0xf59592dd),
      Chain(0x32033344, 0x9bc13ce9, 0xf5b158db, 0x2f35d494))
  {
    hide Operation, EmptyBlock, Sine, Shift, EmptyWord, Registers;
    Constants1();
    OneOp(b, 4, 0xa5202774, 0x1b163203, 0xe7f06b23, 0xf59592dd, 0xe791a2df, 0x32033344);
    OneOp(b, 5, 0xf59592dd, 0x32033344, 0x1b163203, 0xe7f06b23, 0xd7f27a23, 0x2f35d494);
    OneOp(b, 6, 0xe7f06b23, 0x2f35d494, 0x32033344, 0x1b163203, 0x32033207, 0xf5b158db);
    OneOp(b, 7, 0x1b163203, 0xf5b158db, 0x2f35d494, 0x32033344, 0x27337394, 0x9bc13ce9);
  }

  lemma {:induction false} Constants2()
    ensures Sine(8) == 0x698098d8 && Sine(9) == 0x8b44f7af && Sine(10) == 0xffff5bb1 && Sine(11) == 0x895cd7be
    ensures EmptyWord(8) == 0 && EmptyWord(9) == 0 && EmptyWord(10) == 0 && EmptyWord(11) == 0
    ensures Shift(8) == 7 && Shift(9) == 12 && Shift(10) == 17 && Shift(11) == 22
  {
  }

  lemma {:induction false} Empty2(b: seq<Octet>)
    requires EmptyBlock(b)
    ensures Four(b, 8, Chain(0x32033344, 0x9bc13ce9, 0xf5b158db, 0x2f35d494),
      Chain(0x3893b991, 0x70768a29, 0xe1ef0576, 0xfce4a312))
  {
    hide Operation, EmptyBlock, Sine, Shift, EmptyWord, Registers;
    Constants2();
    OneOp(b, 8, 0x32033344, 0x9bc13ce9, 0xf5b158db, 0x2f35d494, 0xb5b5d8dd, 0x3893b991);
    OneOp(b, 9, 0x2f35d494, 0x3893b991, 0x9bc13ce9, 0xf5b158db, 0xdda178cb, 0xfce4a312);
    OneOp(b, 10, 0xf5b158db, 0xfce4a312, 0x3893b991, 0x9bc13ce9, 0x3b81bdf9, 0xe1ef0576);
    OneOp(b, 11, 0x9bc13ce9, 0xe1ef0576, 0xfce4a312, 0x3893b991, 0xf8f4b993, 0x70768a29);
  }

  lemma {:induction false} Constants3()
    ensures Sine(12) == 0x6b901122 && Sine(13) == 0xfd987193 && Sine(14) == 0xa679438e && Sine(15) == 0x49b40821
    ensures EmptyWord(12) == 0 && EmptyWord(13) == 0 && EmptyWord(14) == 0 && EmptyWord(15) == 0
    ensures Shift(12) == 7 && Shift(13) == 12 && Shift(14) == 17 && Shift(15) == 22
  {
  }

  lemma {:induction false} Empty3(b: seq<Octet>)
    requires EmptyBlock(b)
    ensures Four(b, 12, Chain(0x3893b991, 0x70768a29, 0xe1ef0576, 0xfce4a312),
      Chain(0xf56c7cf1, 0xd6819c6a, 0x5aa53f75, 0x374943a7))
  {
    hide Operation, EmptyBlock, Sine, Shift, EmptyWord, Registers;
    Constants3();
    OneOp(b, 12, 0x3893b991, 0x70768a29, 0xe1ef0576, 0xfce4a312, 0xece62132, 0xf56c7cf1);
    OneOp(b, 13, 0xfce4a312, 0xf56c7cf1, 0x70768a29, 0xe1ef0576, 0x70e70927, 0x374943a7);
    OneOp(b, 14, 0xe1ef0576, 0x374943a7, 0xf56c7cf1, 0x70768a29, 0x757ec8a9, 0x5aa53f75);
    OneOp(b, 15, 0x70768a29, 0x5aa53f75, 0x374943a7, 0xf56c7cf1, 0xb74943a5, 0xd6819c6a);
  }

  lemma {:induction false} Constants4()
    ensures Sine(16) == 0xf61e2562 && Sine(17) == 0xc040b340 && Sine(18) == 0x265e5a51 && Sine(19) == 0xe9b6c7aa
    ensures EmptyWord(16) == 0 && EmptyWord(17) == 0 && EmptyWord(18) == 0 && EmptyWord(19) == 0x80
    ensures Shift(16) == 5 && Shift(17) == 9 && Shift(18) == 14 && Shift(19) == 20
  {
  }

  lemma {:induction false} Empty4(b: seq<Octet>)
    requires EmptyBlock(b)
    ensures Four(b, 16, Chain(0xf56c7cf1, 0xd6819c6a, 0x5aa53f75, 0x374943a7),
      Chain(0x1c7d7513, 0xbd782e17, 0xc095f13a, 0x7bd57a3a))
  {
    hide Operation, EmptyBlock, Sine, Shift, EmptyWord, Registers;
    Constants4();
    OneOp(b, 16, 0xf56c7cf1, 0xd6819c6a, 0x5aa53f75, 0x374943a7, 0x5ea53c72, 0x1c7d7513);
    OneOp(b, 17, 0x374943a7, 0x1c7d7513, 0xd6819c6a, 0x5aa53f75, 0x9c25b51b, 0x7bd57a3a);
    OneOp(b, 18, 0x5aa53f75, 0x7bd57a3a, 0x1c7d7513, 0xd6819c6a, 0x5afd793b, 0xc095f13a);
    OneOp(b, 19, 0xd6819c6a, 0xc095f13a, 0x7bd57a3a, 0x1c7d7513, 0x63957b3a, 0xbd782e17);
  }

  lemma {:induction false} Constants5()
    ensures Sine(20) == 0xd62f105d && Sine(21) == 0x02441453 && Sine(22) == 0xd8a1e681 && Sine(23) == 0xe7d3fbc8
    ensures EmptyWord(20) == 0 && EmptyWord(21) == 0 && EmptyWord(22) == 0 && EmptyWord(23) == 0
    ensures Shift(20) == 5 && Shift(21) == 9 && Shift(22) == 14 && Shift(23) == 20
  {
  }

  lemma {:induction false} Empty5(b: seq<Octet>)
    requires EmptyBlock(b)
    ensures Four(b, 20, Chain(0x1c7d7513, 0xbd782e17, 0xc095f13a, 0x7bd57a3a),
      Chain(0x3d1e3e6c, 0xe422531a, 0xeb41643e, 0x68b7b3e3))
  {
    hide Operation, EmptyBlock, Sine, Shift, EmptyWord, Registers;
    Constants5();
    OneOp(b, 20, 0x1c7d7513, 0xbd782e17, 0xc095f13a, 0x7bd57a3a, 0xb950ab12, 0x3d1e3e6c);
    OneOp(b, 21, 0x7bd57a3a, 0x3d1e3e6c, 0xbd782e17, 0xc095f13a, 0x3d7c3e2d, 0x68b7b3e3);
    OneOp(b, 22, 0xc095f13a, 0x68b7b3e3, 0x3d1e3e6c, 0xbd782e17, 0x2836326b, 0xeb41643e);
    OneOp(b, 23, 0xbd782e17, 0xeb41643e, 0x68b7b3e3, 0x3d1e3e6c, 0x69a1a5af, 0xe422531a);
  }

  lemma {:induction false} Constants6()
    ensures Sine(24) == 0x21e1cde6 && Sine(25) == 0xc33707d6 && Sine(26) == 0xf4d50d87 && Sine(27) == 0x455a14ed
    ensures EmptyWord(24) == 0 && EmptyWord(25) == 0 && EmptyWord(26) == 0 && EmptyWord(27) == 0
    ensures Shift(24) == 5 && Shift(25) == 9 && Shift(26) == 14 && Shift(27) == 20
  {
  }

  lemma {:induction false} Empty6(b: seq<Octet>)
    requires EmptyBlock(b)
    ensures Four(b, 24, Chain(0x3d1e3e6c, 0xe422531a, 0xeb41643e, 0x68b7b3e3),
      Chain(0x306ec122, 0xa0572807, 0xa3c663da, 0xd28c77c2))
  {
    hide Operation, EmptyBlock, Sine, Shift, EmptyWord, Registers;
    Constants6();
    OneOp(b, 24, 0x3d1e3e6c, 0xe422531a, 0xeb41643e, 0x68b7b3e3, 0xe362571e, 0x306ec122);
    OneOp(b, 25, 0x68b7b3e3, 0x306ec122, 0xe422531a, 0xeb41643e, 0x24625322, 0xd28c77c2);
    OneOp(b, 26, 0xeb41643e, 0xd28c77c2, 0x306ec122, 0xe422531a, 0xd04cd322, 0xa3c663da);
    OneOp(b, 27, 0xe422531a, 0xa3c663da, 0xd28c77c2, 0x306ec122, 0xe2c677c2, 0xa0572807);
  }

  lemma {:induction false} Constants7()
    ensures Sine(28) == 0xa9e3e905 && Sine(29) == 0xfcefa3f8 && Sine(30) == 0x676f02d9 && Sine(31) == 0x8d2a4c8a
    ensures EmptyWord(28) == 0 && EmptyWord(29) == 0 && EmptyWord(30) == 0 && EmptyWord(31) == 0
    ensures Shift(28) == 5 && Shift(29) == 9 && Shift(30) == 14 && Shift(31) == 20
  {
  }

  lemma {:induction false} Empty7(b: seq<Octet>)
    requires EmptyBlock(b)
    ensures Four(b, 28, Chain(0x306ec122, 0xa0572807, 0xa3c663da, 0xd28c77c2),
      Chain(0x13707036, 0xa2205f1f, 0x1c31c384, 0xae7813db))
  {
    hide Operation, EmptyBlock, Sine, Shift, EmptyWord, Registers;
    Constants7();
    OneOp(b, 28, 0x306ec122, 0xa0572807, 0xa3c663da, 0xd28c77c2, 0xa146201a, 0x13707036);
    OneOp(b, 29, 0xd28c77c2, 0x13707036, 0xa0572807, 0xa3c663da, 0x03516817, 0xae7813db);
    OneOp(b, 30, 0xa3c663da, 0xae7813db, 0x13707036, 0xa0572807, 0xb3705033, 0x1c31c384);
    OneOp(b, 31, 0xa0572807, 0x1c31c384, 0xae7813db, 0x13707036, 0xbc3843cd, 0xa2205f1f);
  }

  lemma {:induction false} Constants8()
    ensures Sine(32) == 0xfffa3942 && Sine(33) == 0x8771f681 && Sine(34) == 0x6d9d6122 && Sine(35) == 0xfde5380c
    ensures EmptyWord(32) == 0 && EmptyWord(33) == 0 && EmptyWord(34) == 0 && EmptyWord(35) == 0
    ensures Shift(32) == 4 && Shift(33) == 11 && Shift(34) == 16 && Shift(35) == 23
  {
  }

  lemma {:induction false} Empty8(b: seq<Octet>)
    requires EmptyBlock(b)
    ensures Four(b, 32, Chain(0x13707036, 0xa2205f1f, 0x1c31c384, 0xae7813db),
      Chain(0xdf63eaa1, 0x004b6669, 0x12f3e755, 0xc3689f5b))
  {
    hide Operation, EmptyBlock, Sine, Shift, EmptyWord, Registers;
    Constants8();
    OneOp(b, 32, 0x13707036, 0xa2205f1f, 0x1c31c384, 0xae7813db, 0x10698f40, 0xdf63eaa1);
    OneOp(b, 33, 0xae7813db, 0xdf63eaa1, 0xa2205f1f, 0x1c31c384, 0x6172763a, 0xc3689f5b);
    OneOp(b, 34, 0x1c31c384, 0xc3689f5b, 0xdf63eaa1, 0xa2205f1f, 0xbe2b2ae5, 0x12f3e755);
    OneOp(b, 35, 0xa2205f1f, 0x12f3e755, 0xc3689f5b, 0xdf63eaa1, 0x0ef892af, 0x004b6669);
  }

  lemma {:induction false} Constants9()
    ensures Sine(36) == 0xa4beea44 && Sine(37) == 0x4bdecfa9 && Sine(38) == 0xf6bb4b60 && Sine(39) == 0xbebfbc70
    ensures EmptyWord(36) == 0 && EmptyWord(37) == 0 && EmptyWord(38) == 0 && EmptyWord(39) == 0
    ensures Shift(36) == 4 && Shift(37) == 11 && Shift(38) == 16 && Shift(39) == 23
  {
  }

  lemma {:induction false} Empty9(b: seq<Octet>)
    requires EmptyBlock(b)
    ensures Four(b, 36, Chain(0xdf63eaa1, 0x004b6669, 0x12f3e755, 0xc3689f5b),
      Chain(0x5f7a9b2e, 0xc5dc8c15, 0x91ca4cb7, 0xabc34e16))
  {
    hide Operation, EmptyBlock, Sine, Shift, EmptyWord, Registers;
    Constants9();
    OneOp(b, 36, 0xdf63eaa1, 0x004b6669, 0x12f3e755, 0xc3689f5b, 0xd1d01e67, 0x5f7a9b2e);
    OneOp(b, 37, 0xc3689f5b, 0x5f7a9b2e, 0x004b6669, 0x12f3e755, 0x4dc21a12, 0xabc34e16);
    OneOp(b, 38, 0x12f3e755, 0xabc34e16, 0x5f7a9b2e, 0x004b6669, 0xf4f2b351, 0x91ca4cb7);
    OneOp(b, 39, 0x004b6669, 0x91ca4cb7, 0xabc34e16, 0x5f7a9b2e, 0x6573998f, 0xc5dc8c15);
  }

  lemma {:induction false} Constants10()
    ensures Sine(40) == 0x289b7ec6 && Sine(41) == 0xeaa127fa && Sine(42) == 0xd4ef3085 && Sine(43) == 0x04881d05
    ensures EmptyWord(40) == 0 && EmptyWord(41) == 0x80 && EmptyWord(42) == 0 && EmptyWord(43) == 0
    ensures Shift(40) == 4 && Shift(41) == 11 && Shift(42) == 16 && Shift(43) == 23
  {
  }

  lemma {:induction false} Empty10(b: seq<Octet>)
    requires EmptyBlock(b)
    ensures Four(b, 40, Chain(0x5f7a9b2e, 0xc5dc8c15, 0x91ca4cb7, 0xabc34e16),
      Chain(0x4497169d, 0x0fe32453, 0xfd95f243, 0x76fd93d4))
  {
    hide Operation, EmptyBlock, Sine, Shift, EmptyWord, Registers;
    Constants10();
    OneOp(b, 40, 0x5f7a9b2e, 0xc5dc8c15, 0x91ca4cb7, 0xabc34e16, 0xffd58eb4, 0x4497169d);
    OneOp(b, 41, 0xabc34e16, 0x4497169d, 0xc5dc8c15, 0x91ca4cb7, 0x1081d63f, 0x76fd93d4);
    OneOp(b, 42, 0x91ca4cb7, 0x76fd93d4, 0x4497169d, 0xc5dc8c15, 0xf7b6095c, 0xfd95f243);
    OneOp(b, 43, 0xc5dc8c15, 0xfd95f243, 0x76fd93d4, 0x4497169d, 0xcfff770a, 0x0fe32453);
  }

  lemma {:induction false} Constants11()
    ensures Sine(44) == 0xd9d4d039 && Sine(45) == 0xe6db99e5 && Sine(46) == 0x1fa27cf8 && Sine(47) == 0xc4ac5665
    ensures EmptyWord(44) == 0 && EmptyWord(45) == 0 && EmptyWord(46) == 0 && EmptyWord(47) == 0
    ensures Shift(44) == 4 && Shift(45) == 11 && Shift(46) == 16 && Shift(47) == 23
  {
  }

  lemma {:induction false} Empty11(b: seq<Octet>)
    requires EmptyBlock(b)
    ensures Four(b, 44, Chain(0x4497169d, 0x0fe32453, 0xfd95f243, 0x76fd93d4),
      Chain(0x3f55edfd, 0xca7d2dbd, 0x68d84ea2, 0x22a31f54))
  {
    hide Operation, EmptyBlock, Sine, Shift, EmptyWord, Registers;
    Constants11();
    OneOp(b, 44, 0x4497169d, 0x0fe32453, 0xfd95f243, 0x76fd93d4, 0x848b45c4, 0x3f55edfd);
    OneOp(b, 45, 0x76fd93d4, 0x3f55edfd, 0x0fe32453, 0xfd95f243, 0xcd233bed, 0x22a31f54);
    OneOp(b, 46, 0xfd95f243, 0x22a31f54, 0x3f55edfd, 0x0fe32453, 0x1215d6fa, 0x68d84ea2);
    OneOp(b, 47, 0x0fe32453, 0x68d84ea2, 0x22a31f54, 0x3f55edfd, 0x752ebc0b, 0xca7d2dbd);
  }

  lemma {:induction false} Constants12()
    ensures Sine(48) == 0xf4292244 && Sine(49) == 0x432aff97 && Sine(50) == 0xab9423a7 && Sine(51) == 0xfc93a039
    ensures EmptyWord(48) == 0x80 && EmptyWord(49) == 0 && EmptyWord(50) == 0 && EmptyWord(51) == 0
    ensures Shift(48) == 6 && Shift(49) == 10 && Shift(50) == 15 && Shift(51) == 21
  {
  }

  lemma {:induction false} Empty12(b: seq<Octet>)
    requires EmptyBlock(b)
    ensures Four(b, 48, Chain(0x3f55edfd, 0xca7d2dbd, 0x68d84ea2, 0x22a31f54),
      Chain(0x93aa2577, 0x561e0689, 0xcd85b8cb, 0x1688dc85))
  {
    hide Operation, EmptyBlock, Sine, Shift, EmptyWord, Registers;
    Constants12();
    OneOp(b, 48, 0x3f55edfd, 0xca7d2dbd, 0x68d84ea2, 0x22a31f54, 0xb7a5a31d, 0x93aa2577);
    OneOp(b, 49, 0x22a31f54, 0x93aa2577, 0xca7d2dbd, 0x68d84ea2, 0x5dd298c2, 0x1688dc85);
    OneOp(b, 50, 0x68d84ea2, 0x1688dc85, 0x93aa2577, 0xca7d2dbd, 0xa420fbb0, 0xcd85b8cb);
    OneOp(b, 51, 0xca7d2dbd, 0xcd85b8cb, 0x1688dc85, 0x93aa2577, 0xfb5d264e, 0x561e0689);
  }

  lemma {:induction false} Constants13()
    ensures Sine(52) == 0x655b59c3 && Sine(53) == 0x8f0ccc92 && Sine(54) == 0xffeff47d && Sine(55) == 0x85845dd1
    ensures EmptyWord(52) == 0 && EmptyWord(53) == 0 && EmptyWord(54) == 0 && EmptyWord(55) == 0
    ensures Shift(52) == 6 && Shift(53) == 10 && Shift(54) == 15 && Shift(55) == 21
  {
  }

  lemma {:induction false} Empty13(b: seq<Octet>)
    requires EmptyBlock(b)
    ensures Four(b, 52, Chain(0x93aa2577, 0x561e0689, 0xcd85b8cb, 0x1688dc85),
      Chain(0x5625a114, 0x1e77fa61, 0x392ad0d0, 0x3450f42b))
  {
    hide Operation, EmptyBlock, Sine, Shift, EmptyWord, Registers;
    Constants13();
    OneOp(b, 52, 0x93aa2577, 0x561e0689, 0xcd85b8cb, 0x1688dc85, 0x32fa9f30, 0x5625a114);
    OneOp(b, 53, 0x1688dc85, 0x5625a114, 0x561e0689, 0xcd85b8cb, 0x2061e1bd, 0x3450f42b);
    OneOp(b, 54, 0xcd85b8cb, 0x3450f42b, 0x5625a114, 0x561e0689, 0xebd45c6b, 0x392ad0d0);
    OneOp(b, 55, 0x561e0689, 0x392ad0d0, 0x3450f42b, 0x5625a114, 0x8daa2ad0, 0x1e77fa61);
  }

  lemma {:induction false} Constants14()
    ensures Sine(56) == 0x6fa87e4f && Sine(57) == 0xfe2ce6e0 && Sine(58) == 0xa3014314 && Sine(59) == 0x4e0811a1
    ensures EmptyWord(56) == 0 && EmptyWord(57) == 0 && EmptyWord(58) == 0 && EmptyWord(59) == 0
    ensures Shift(56) == 6 && Shift(57) == 10 && Shift(58) == 15 && Shift(59) == 21
  {
  }

  lemma {:induction false} Empty14(b: seq<Octet>)
    requires EmptyBlock(b)
    ensures Four(b, 56, Chain(0x5625a114, 0x1e77fa61, 0x392ad0d0, 0x3450f42b),
      Chain(0x474a9c8c, 0x30130182, 0x36594b14, 0xdfce00bc))
  {
    hide Operation, EmptyBlock, Sine, Shift, EmptyWord, Registers;
    Constants14();
    OneOp(b, 56, 0x5625a114, 0x1e77fa61, 0x392ad0d0, 0x3450f42b, 0xe6d52b25, 0x474a9c8c);
    OneOp(b, 57, 0x3450f42b, 0x474a9c8c, 0x1e77fa61, 0x392ad0d0, 0xd9a845ce, 0xdfce00bc);
    OneOp(b, 58, 0x392ad0d0, 0xdfce00bc, 0x474a9c8c, 0x1e77fa61, 0xb8849932, 0x36594b14);
    OneOp(b, 59, 0x1e77fa61, 0x36594b14, 0xdfce00bc, 0x474a9c8c, 0x61336bcb, 0x30130182);
  }

  lemma {:induction false} Constants15()
    ensures Sine(60) == 0xf7537e82 && Sine(61) == 0xbd3af235 && Sine(62) == 0x2ad7d2bb && Sine(63) == 0xeb86d391
    ensures EmptyWord(60) == 0 && EmptyWord(61) == 0 && EmptyWord(62) == 0 && EmptyWord(63) == 0
    ensures Shift(60) == 6 && Shift(61) == 10 && Shift(62) == 15 && Shift(63) == 21
  {
  }

  lemma {:induction false} Empty15(b: seq<Octet>)
    requires EmptyBlock(b)
    ensures Four(b, 60, Chain(0x474a9c8c, 0x30130182, 0x36594b14, 0xdfce00bc),
      Chain(0x7246fad3, 0x14e45506, 0xff4ea3eb, 0x6e10a476))
  {
    hide Operation, EmptyBlock, Sine, Shift, EmptyWord, Registers;
    Constants15();
    OneOp(b, 60, 0x474a9c8c, 0x30130182, 0x36594b14, 0xdfce00bc, 0x066ab4d7, 0x7246fad3);
    OneOp(b, 61, 0xdfce00bc, 0x7246fad3, 0x30130182, 0x36594b14, 0xcbf5ff79, 0x6e10a476);
    OneOp(b, 62, 0x36594b14, 0x6e10a476, 0x7246fad3, 0x30130182, 0x9dba04ac, 0xff4ea3eb);
    OneOp(b, 63, 0x30130182, 0xff4ea3eb, 0x6e10a476, 0x7246fad3, 0x91ef0399, 0x14e45506);
  }

  lemma {:induction false} EmptyTrace(b: seq<Octet>)
    requires EmptyBlock(b)
    ensures Registers(b, INITIAL, 64) == Chain(0x7246fad3, 0x14e45506, 0xff4ea3eb, 0x6e10a476)
  {
    hide Registers, Four;
    NoOperations(b);
    Empty0(b);
    FourOn(b, 0, Chain(0x67452301, 0xefcdab89, 0x98badcfe, 0x10325476),
      Chain(0xa5202774, 0x1b163203, 0xe7f06b23, 0xf59592dd));
    Empty1(b);
    FourOn(b, 4, Chain(0xa5202774, 0x1b163203, 0xe7f06b23, 0xf59592dd),
      Chain(0x32033344, 0x9bc13ce9, 0xf5b158db, 0x2f35d494));
    Empty2(b);
    FourOn(b, 8, Chain(0x32033344, 0x9bc13ce9, 0xf5b158db, 0x2f35d494),
      Chain(0x3893b991, 0x70768a29, 0xe1ef0576, 0xfce4a312));
    Empty3(b);
    FourOn(b, 12, Chain(0x3893b991, 0x70768a29, 0xe1ef0576, 0xfce4a312),
      Chain(0xf56c7cf1, 0xd6819c6a, 0x5aa53f75, 0x374943a7));
    Empty4(b);
    FourOn(b, 16, Chain(0xf56c7cf1, 0xd6819c6a, 0x5aa53f75, 0x374943a7),
      Chain(0x1c7d7513, 0xbd782e17, 0xc095f13a, 0x7bd57a3a));
    Empty5(b);
    FourOn(b, 20, Chain(0x1c7d7513, 0xbd782e17, 0xc095f13a, 0x7bd57a3a),
      Chain(0x3d1e3e6c, 0xe422531a, 0xeb41643e, 0x68b7b3e3));
    Empty6(b);
    FourOn(b, 24, Chain(0x3d1e3e6c, 0xe422531a, 0xeb41643e, 0x68b7b3e3),
      Chain(0x306ec122, 0xa0572807, 0xa3c663da, 0xd28c77c2));
    Empty7(b);
    FourOn(b, 28, Chain(0x306ec122, 0xa0572807, 0xa3c663da, 0xd28c77c2),
      Chain(0x13707036, 0xa2205f1f, 0x1c31c384, 0xae7813db));
    Empty8(b);
    FourOn(b, 32, Chain(0x13707036, 0xa2205f1f, 0x1c31c384, 0xae7813db),
      Chain(0xdf63eaa1, 0x004b6669, 0x12f3e755, 0xc3689f5b));
    Empty9(b);
    FourOn(b, 36, Chain(0xdf63eaa1, 0x004b6669, 0x12f3e755, 0xc3689f5b),
      Chain(0x5f7a9b2e, 0xc5dc8c15, 0x91ca4cb7, 0xabc34e16));
    Empty10(b);
    FourOn(b, 40, Chain(0x5f7a9b2e, 0xc5dc8c15, 0x91ca4cb7, 0xabc34e16),
      Chain(0x4497169d, 0x0fe32453, 0xfd95f243, 0x76fd93d4));
    Empty11(b);
    FourOn(b, 44, Chain(0x4497169d, 0x0fe32453, 0xfd95f243, 0x76fd93d4),
      Chain(0x3f55edfd, 0xca7d2dbd, 0x68d84ea2, 0x22a31f54));
    Empty12(b);
    FourOn(b, 48, Chain(0x3f55edfd, 0xca7d2dbd, 0x68d84ea2, 0x22a31f54),
      Chain(0x93aa2577, 0x561e0689, 0xcd85b8cb, 0x1688dc85));
    Empty13(b);
    FourOn(b, 52, Chain(0x93aa2577, 0x561e0689, 0xcd85b8cb, 0x1688dc85),
      Chain(0x5625a114, 0x1e77fa61, 0x392ad0d0, 0x3450f42b));
    Empty14(b);
    FourOn(b, 56, Chain(0x5625a114, 0x1e77fa61, 0x392ad0d0, 0x3450f42b),
      Chain(0x474a9c8c, 0x30130182, 0x36594b14, 0xdfce00bc));
    Empty15(b);
    FourOn(b, 60, Chain(0x474a9c8c, 0x30130182, 0x36594b14, 0xdfce00bc),
      Chain(0x7246fad3, 0x14e45506, 0xff4ea3eb, 0x6e10a476));
  }

  lemma {:induction false} NoOperations(b: seq<Octet>)
    requires |b| == 64
    ensures Registers(b, INITIAL, 0) == INITIAL
  {
  }

  lemma {:induction false} EmptyPadded()
    ensures EmptyBlock(Padded([])) && Fold(Padded([])) == Compress(INITIAL, Padded([]))
  {
    hide Compress, Fold, LengthBytes, PadZeros, BitCount;
    EmptyCounts();
    ZeroLength();
    assert Padded([]) == [0x80] + Zeros(55) + Zeros(8);
    FoldOne(Padded([]));
  }

  lemma {:induction false} EmptyCounts()
    ensures PadZeros(0) == 55 && BitCount(0) == 0
  {
  }

  lemma {:induction false} FoldOne(block: seq<Octet>)
    requires |block| == 64
    ensures Fold(block) == Compress(INITIAL, block)
  {
    hide Compress;
    assert block[|block| - 64..] == block && block[..|block| - 64] == [];
    assert Fold([]) == INITIAL;
  }

  lemma {:induction false} ZeroLength()
    ensures LengthBytes(0) == Zeros(8)
  {
  }

  /** The digest of nothing is the text that section A.5 of RFC 1321 gives. */
  lemma {:induction false} DigestOfNothing()
    ensures Digest([]) == "d41d8cd98f00b204e9800998ecf8427e"
  {
    hide Registers, Padded, Text;
    EmptyPadded();
    EmptyTrace(Padded([]));
    LastText();
  }

  lemma {:induction false} LastText()
    ensures Text(Added(INITIAL, Chain(0x7246fad3, 0x14e45506, 0xff4ea3eb, 0x6e10a476))) ==
      "d41d8cd98f00b204e9800998ecf8427e"
  {
    hide HexText;
    var c := Chain(0xd98c1dd4, 0x04b2008f, 0x980980e9, 0x7e42f8ec);
    assert Added(INITIAL, Chain(0x7246fad3, 0x14e45506, 0xff4ea3eb, 0x6e10a476)) == c;
    hide WordBytes, ByteText;
    LastWord0();
    LastWord1();
    LastWord2();
    LastWord3();
    var a, b, x, d := WordBytes(c.a), WordBytes(c.b), WordBytes(c.c), WordBytes(c.d);
    HexConcat(a + b + x, d);
    HexConcat(a + b, x);
    HexConcat(a, b);
  }

  lemma {:induction false} HexConcat(x: seq<Octet>, y: seq<Octet>)
    ensures HexText(x + y) == HexText(x) + HexText(y)
  {
    hide ByteText;
    if y == [] {
      assert x + y == x;
    } else {
      HexConcat(x, y[..|y| - 1]);
      assert (x + y)[..|x + y| - 1] == x + y[..|y| - 1];
    }
  }

  lemma {:induction false} HexOfFour(b: seq<Octet>)
    requires |b| == 4
    ensures HexText(b) == ByteText(b[0]) + ByteText(b[1]) + ByteText(b[2]) + ByteText(b[3])
  {
    hide ByteText, HexText;
    assert b == [b[0]] + [b[1]] + [b[2]] + [b[3]];
    HexConcat([b[0]] + [b[1]] + [b[2]], [b[3]]);
    HexConcat([b[0]] + [b[1]], [b[2]]);
    HexConcat([b[0]], [b[1]]);
    HexOfOne(b[0]);
    HexOfOne(b[1]);
    HexOfOne(b[2]);
    HexOfOne(b[3]);
  }

  lemma {:induction false} HexOfOne(x: Octet)
    ensures HexText([x]) == ByteText(x)
  {
    hide ByteText;
    assert [x][..0] == [];
  }

  lemma {:induction false} LastWord0()
    ensures HexText(WordBytes(0xd98c1dd4)) == "d41d8cd9"
  {
    hide HexText;
    var b := WordBytes(0xd98c1dd4);
    assert b == [0xd4, 0x1d, 0x8c, 0xd9];
    HexOfFour(b);
  }

  lemma {:induction false} LastWord1()
    ensures HexText(WordBytes(0x04b2008f)) == "8f00b204"
  {
    hide HexText;
    var b := WordBytes(0x04b2008f);
    assert b == [0x8f, 0x00, 0xb2, 0x04];
    HexOfFour(b);
  }

  lemma {:induction false} LastWord2()
    ensures HexText(WordBytes(0x980980e9)) == "e9800998"
  {
    hide HexText;
    var b := WordBytes(0x980980e9);
    assert b == [0xe9, 0x80, 0x09, 0x98];
    HexOfFour(b);
  }

  lemma {:induction false} LastWord3()
    ensures HexText(WordBytes(0x7e42f8ec)) == "ecf8427e"
  {
    hide HexText;
    var b := WordBytes(0x7e42f8ec);
    assert b == [0xec, 0xf8, 0x42, 0x7e];
    HexOfFour(b);
  }
}
