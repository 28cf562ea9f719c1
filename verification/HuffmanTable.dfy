/** The length table of section 5.2 (Appendix B) of RFC 7541 as the server
    holds it, and the proof that the canonical construction applies to it. */
module HuffmanTable {
  import opened Bits
  import opened Huffman
  import opened HuffmanDecoder

  const ROW0: seq<nat> := [13, 23, 28, 28, 28, 28, 28, 28, 28, 24, 30, 28, 28, 30, 28, 28]
  const ROW1: seq<nat> := [28, 28, 28, 28, 28, 28, 30, 28, 28, 28, 28, 28, 28, 28, 28, 28]
  const ROW2: seq<nat> := [6, 10, 10, 12, 13, 6, 8, 11, 10, 10, 8, 11, 8, 6, 6, 6]
  const ROW3: seq<nat> := [5, 5, 5, 6, 6, 6, 6, 6, 6, 6, 7, 8, 15, 6, 12, 10]
  const ROW4: seq<nat> := [13, 6, 7, 7, 7, 7, 7, 7, 7, 7, 7, 7, 7, 7, 7, 7]
  const ROW5: seq<nat> := [7, 7, 7, 7, 7, 7, 7, 7, 8, 7, 8, 13, 19, 13, 14, 6]
  const ROW6: seq<nat> := [15, 5, 6, 5, 6, 5, 6, 6, 6, 5, 7, 7, 6, 6, 6, 5]
  const ROW7: seq<nat> := [6, 7, 6, 5, 5, 6, 7, 7, 7, 7, 7, 15, 11, 14, 13, 28]
  const ROW8: seq<nat> := [20, 22, 20, 20, 22, 22, 22, 23, 22, 23, 23, 23, 23, 23, 24, 23]
  const ROW9: seq<nat> := [24, 24, 22, 23, 24, 23, 23, 23, 23, 21, 22, 23, 22, 23, 23, 24]
  const ROW10: seq<nat> := [22, 21, 20, 22, 22, 23, 23, 21, 23, 22, 22, 24, 21, 22, 23, 23]
  const ROW11: seq<nat> := [21, 21, 22, 21, 23, 22, 23, 23, 20, 22, 22, 22, 23, 22, 22, 23]
  const ROW12: seq<nat> := [26, 26, 20, 19, 22, 23, 22, 25, 26, 26, 26, 27, 27, 26, 24, 25]
  const ROW13: seq<nat> := [19, 21, 26, 27, 27, 26, 27, 24, 21, 21, 26, 26, 28, 27, 27, 27]
  const ROW14: seq<nat> := [20, 24, 20, 21, 22, 21, 21, 23, 22, 22, 25, 25, 24, 24, 26, 23]
  const ROW15: seq<nat> := [26, 27, 26, 26, 27, 27, 27, 27, 27, 28, 27, 27, 27, 27, 27, 26]

  const LOW_HALF: seq<nat> := ROW0 + ROW1 + ROW2 + ROW3 + ROW4 + ROW5 + ROW6 + ROW7
  const HIGH_HALF: seq<nat> := ROW8 + ROW9 + ROW10 + ROW11 + ROW12 + ROW13 + ROW14 + ROW15

  /** One code length per byte value. */
  const HUFF_LENS: seq<nat> := LOW_HALF + HIGH_HALF

  /** `s` is a piece of a length table of `n` symbols with Kraft sum `k`. */
  predicate Piece(s: seq<nat>, n: nat, k: nat) {
    && |s| == n
    && (forall i :: 0 <= i < |s| ==> 1 <= s[i] <= WIDTH)
    && Kraft(s, |s|, WIDTH) == k
  }

  lemma {:induction false} KraftPrefix(a: seq<nat>, b: seq<nat>, n: nat)
    requires n <= |a|
    ensures Kraft(a + b, n, WIDTH) == Kraft(a, n, WIDTH)
  {
    if n > 0 {
      KraftPrefix(a, b, n - 1);
    }
  }

  lemma {:induction false} KraftConcat(a: seq<nat>, b: seq<nat>, n: nat)
    requires n <= |b|
    ensures Kraft(a + b, |a| + n, WIDTH) == Kraft(a, |a|, WIDTH) + Kraft(b, n, WIDTH)
  {
    if n == 0 {
      KraftPrefix(a, b, |a|);
    } else {
      KraftConcat(a, b, n - 1);
      assert (a + b)[|a| + n - 1] == b[n - 1];
    }
  }

  lemma Join(a: seq<nat>, n: nat, j: nat, b: seq<nat>, m: nat, k: nat)
    requires Piece(a, n, j) && Piece(b, m, k)
    ensures Piece(a + b, n + m, j + k)
  {
    KraftConcat(a, b, |b|);
  }

  /** The Kraft term of one code length. */
  function Term(len: nat): nat
    requires len <= WIDTH
  {
    Shl(1, WIDTH - len)
  }

  /** Sixteen symbols, added up term by term. */
  lemma Sixteen(s: seq<nat>)
    requires |s| == 16 && forall i :: 0 <= i < 16 ==> 1 <= s[i] <= WIDTH
    ensures Piece(s, 16,
      Term(s[0]) + Term(s[1]) + Term(s[2]) + Term(s[3]) + Term(s[4]) + Term(s[5]) + Term(s[6]) + Term(s[7])
      + Term(s[8]) + Term(s[9]) + Term(s[10]) + Term(s[11]) + Term(s[12]) + Term(s[13]) + Term(s[14]) + Term(s[15]))
  {
    hide Shl;
    assert Kraft(s, 4, WIDTH) == Term(s[0]) + Term(s[1]) + Term(s[2]) + Term(s[3]) by {
      assert Kraft(s, 1, WIDTH) == Term(s[0]);
      assert Kraft(s, 2, WIDTH) == Term(s[0]) + Term(s[1]);
    }
    assert Kraft(s, 8, WIDTH) == Kraft(s, 4, WIDTH) + Term(s[4]) + Term(s[5]) + Term(s[6]) + Term(s[7]) by {
      assert Kraft(s, 6, WIDTH) == Kraft(s, 4, WIDTH) + Term(s[4]) + Term(s[5]);
    }
    assert Kraft(s, 12, WIDTH) == Kraft(s, 8, WIDTH) + Term(s[8]) + Term(s[9]) + Term(s[10]) + Term(s[11]) by {
      assert Kraft(s, 10, WIDTH) == Kraft(s, 8, WIDTH) + Term(s[8]) + Term(s[9]);
    }
    assert Kraft(s, 16, WIDTH) == Kraft(s, 12, WIDTH) + Term(s[12]) + Term(s[13]) + Term(s[14]) + Term(s[15]) by {
      assert Kraft(s, 14, WIDTH) == Kraft(s, 12, WIDTH) + Term(s[12]) + Term(s[13]);
    }
  }

  lemma TermValues()
    ensures Term(5) == 134217728
    ensures Term(6) == 67108864
    ensures Term(7) == 33554432
    ensures Term(8) == 16777216
    ensures Term(10) == 4194304
    ensures Term(11) == 2097152
    ensures Term(12) == 1048576
    ensures Term(13) == 524288
    ensures Term(14) == 262144
    ensures Term(15) == 131072
    ensures Term(19) == 8192
    ensures Term(20) == 4096
    ensures Term(21) == 2048
    ensures Term(22) == 1024
    ensures Term(23) == 512
    ensures Term(24) == 256
    ensures Term(25) == 128
    ensures Term(26) == 64
    ensures Term(27) == 32
    ensures Term(28) == 16
    ensures Term(30) == 4
  {
    assert Shl(1, 27) == 134217728;
    assert Shl(1, 26) == 67108864;
    assert Shl(1, 25) == 33554432;
    assert Shl(1, 24) == 16777216;
    assert Shl(1, 22) == 4194304;
    assert Shl(1, 21) == 2097152;
    assert Shl(1, 20) == 1048576;
    assert Shl(1, 19) == 524288;
    assert Shl(1, 18) == 262144;
    assert Shl(1, 17) == 131072;
    assert Shl(1, 13) == 8192;
    assert Shl(1, 12) == 4096;
    assert Shl(1, 11) == 2048;
    assert Shl(1, 10) == 1024;
    assert Shl(1, 9) == 512;
    assert Shl(1, 8) == 256;
    assert Shl(1, 7) == 128;
    assert Shl(1, 6) == 64;
    assert Shl(1, 5) == 32;
    assert Shl(1, 4) == 16;
    assert Shl(1, 2) == 4;
  }

  lemma Row0()
    ensures Piece(ROW0, 16, 525240)
  {
    TermValues();
    hide Piece, Term;
    Sixteen(ROW0);
  }

  lemma Row1()
    ensures Piece(ROW1, 16, 244)
  {
    TermValues();
    hide Piece, Term;
    Sixteen(ROW1);
  }

  lemma Row2()
    ensures Piece(ROW2, 16, 408420352)
  {
    TermValues();
    hide Piece, Term;
    Sixteen(ROW2);
  }

  lemma Row3()
    ensures Piece(ROW3, 16, 995229696)
  {
    TermValues();
    hide Piece, Term;
    Sixteen(ROW3);
  }

  lemma Row4()
    ensures Piece(ROW4, 16, 537395200)
  {
    TermValues();
    hide Piece, Term;
    Sixteen(ROW4);
  }

  lemma Row5()
    ensures Piece(ROW5, 16, 403972096)
  {
    TermValues();
    hide Piece, Term;
    Sixteen(ROW5);
  }

  lemma Row6()
    ensures Piece(ROW6, 16, 1275199488)
  {
    TermValues();
    hide Piece, Term;
    Sixteen(ROW6);
  }

  lemma Row7()
    ensures Piece(ROW7, 16, 674103312)
  {
    TermValues();
    hide Piece, Term;
    Sixteen(ROW7);
  }

  lemma Row8()
    ensures Piece(ROW8, 16, 21248)
  {
    TermValues();
    hide Piece, Term;
    Sixteen(ROW8);
  }

  lemma Row9()
    ensures Piece(ROW9, 16, 10240)
  {
    TermValues();
    hide Piece, Term;
    Sixteen(ROW9);
  }

  lemma Row10()
    ensures Piece(ROW10, 16, 19200)
  {
    TermValues();
    hide Piece, Term;
    Sixteen(ROW10);
  }

  lemma Row11()
    ensures Piece(ROW11, 16, 19968)
  {
    TermValues();
    hide Piece, Term;
    Sixteen(ROW11);
  }

  lemma Row12()
    ensures Piece(ROW12, 16, 15808)
  {
    TermValues();
    hide Piece, Term;
    Sixteen(ROW12);
  }

  lemma Row13()
    ensures Piece(ROW13, 16, 15056)
  {
    TermValues();
    hide Piece, Term;
    Sixteen(ROW13);
  }

  lemma Row14()
    ensures Piece(ROW14, 16, 19520)
  {
    TermValues();
    hide Piece, Term;
    Sixteen(ROW14);
  }

  lemma Row15()
    ensures Piece(ROW15, 16, 624)
  {
    TermValues();
    hide Piece, Term;
    Sixteen(ROW15);
  }

  /** The lengths in use leave exactly one 30-bit code free (the one that
      would mark the end of a string), so the canonical code exists. */
  lemma HuffLensValid()
    ensures Piece(HUFF_LENS, 256, 0x1_0000_0000 - 4)
    ensures ByteCode(HUFF_LENS)
  {
    hide Piece;
    FirstHalf();
    SecondHalf();
    Join(LOW_HALF, 128, 4294845628, HIGH_HALF, 128, 121664);
    PieceIsByteCode(HUFF_LENS, 0x1_0000_0000 - 4);
  }

  lemma PieceIsByteCode(s: seq<nat>, k: nat)
    requires Piece(s, 256, k) && k < 0x1_0000_0000
    ensures ByteCode(s)
  {
    Pow2Constants();
  }

  lemma FirstHalf()
    ensures Piece(LOW_HALF, 128, 4294845628)
  {
    hide Piece;
    Row0();
    Row1();
    Join(ROW0, 16, 525240, ROW1, 16, 244);
    Row2();
    Join(ROW0 + ROW1, 32, 525484, ROW2, 16, 408420352);
    Row3();
    Join(ROW0 + ROW1 + ROW2, 48, 408945836, ROW3, 16, 995229696);
    Row4();
    Join(ROW0 + ROW1 + ROW2 + ROW3, 64, 1404175532, ROW4, 16, 537395200);
    Row5();
    Join(ROW0 + ROW1 + ROW2 + ROW3 + ROW4, 80, 1941570732, ROW5, 16, 403972096);
    Row6();
    Join(ROW0 + ROW1 + ROW2 + ROW3 + ROW4 + ROW5, 96, 2345542828, ROW6, 16, 1275199488);
    Row7();
    Join(ROW0 + ROW1 + ROW2 + ROW3 + ROW4 + ROW5 + ROW6, 112, 3620742316, ROW7, 16, 674103312);
  }

  lemma SecondHalf()
    ensures Piece(HIGH_HALF, 128, 121664)
  {
    hide Piece;
    Row8();
    Row9();
    Join(ROW8, 16, 21248, ROW9, 16, 10240);
    Row10();
    Join(ROW8 + ROW9, 32, 31488, ROW10, 16, 19200);
    Row11();
    Join(ROW8 + ROW9 + ROW10, 48, 50688, ROW11, 16, 19968);
    Row12();
    Join(ROW8 + ROW9 + ROW10 + ROW11, 64, 70656, ROW12, 16, 15808);
    Row13();
    Join(ROW8 + ROW9 + ROW10 + ROW11 + ROW12, 80, 86464, ROW13, 16, 15056);
    Row14();
    Join(ROW8 + ROW9 + ROW10 + ROW11 + ROW12 + ROW13, 96, 101520, ROW14, 16, 19520);
    Row15();
    Join(ROW8 + ROW9 + ROW10 + ROW11 + ROW12 + ROW13 + ROW14, 112, 121040, ROW15, 16, 624);
  }

  // ---- The same table by code length ----

  /** The symbols of one code length (Appendix B of RFC 7541). */
  function SymbolsOf(len: nat): set<nat> {
    if len == 5 then {48, 49, 50, 97, 99, 101, 105, 111, 115, 116}
    else if len == 6 then
      {32, 37, 45, 46, 47, 51, 52, 53, 54, 55, 56, 57, 61, 65, 95, 98, 100, 102, 103, 104, 108, 109, 110, 112,
       114, 117}
    else if len == 7 then
      {58, 66, 67, 68, 69, 70, 71, 72, 73, 74, 75, 76, 77, 78, 79, 80, 81, 82, 83, 84, 85, 86, 87, 89, 106,
       107, 113, 118, 119, 120, 121, 122}
    else if len == 8 then {38, 42, 44, 59, 88, 90}
    else if len == 10 then {33, 34, 40, 41, 63}
    else if len == 11 then {39, 43, 124}
    else if len == 12 then {35, 62}
    else if len == 13 then {0, 36, 64, 91, 93, 126}
    else if len == 14 then {94, 125}
    else if len == 15 then {60, 96, 123}
    else if len == 19 then {92, 195, 208}
    else if len == 20 then {128, 130, 131, 162, 184, 194, 224, 226}
    else if len == 21 then {153, 161, 167, 172, 176, 177, 179, 209, 216, 217, 227, 229, 230}
    else if len == 22 then
      {129, 132, 133, 134, 136, 146, 154, 156, 160, 163, 164, 169, 170, 173, 178, 181, 185, 186, 187, 189, 190,
       196, 198, 228, 232, 233}
    else if len == 23 then
      {1, 135, 137, 138, 139, 140, 141, 143, 147, 149, 150, 151, 152, 155, 157, 158, 165, 166, 168, 174, 175,
       180, 182, 183, 188, 191, 197, 231, 239}
    else if len == 24 then {9, 142, 144, 145, 148, 159, 171, 206, 215, 225, 236, 237}
    else if len == 25 then {199, 207, 234, 235}
    else if len == 26 then {192, 193, 200, 201, 202, 205, 210, 213, 218, 219, 238, 240, 242, 243, 255}
    else if len == 27 then
      {203, 204, 211, 212, 214, 221, 222, 223, 241, 244, 245, 246, 247, 248, 250, 251, 252, 253, 254}
    else if len == 28 then
      {2, 3, 4, 5, 6, 7, 8, 11, 12, 14, 15, 16, 17, 18, 19, 20, 21, 23, 24, 25, 26, 27, 28, 29, 30, 31, 127,
       220, 249}
    else if len == 30 then {10, 13, 22}
    else {}
  }

  function Row(r: nat): seq<nat> {
    if r == 0 then ROW0
    else if r == 1 then ROW1
    else if r == 2 then ROW2
    else if r == 3 then ROW3
    else if r == 4 then ROW4
    else if r == 5 then ROW5
    else if r == 6 then ROW6
    else if r == 7 then ROW7
    else if r == 8 then ROW8
    else if r == 9 then ROW9
    else if r == 10 then ROW10
    else if r == 11 then ROW11
    else if r == 12 then ROW12
    else if r == 13 then ROW13
    else if r == 14 then ROW14
    else if r == 15 then ROW15
    else []
  }

  lemma SymbolsRow0(i: nat)
    requires i < 16
    ensures |ROW0| == 16 && i in SymbolsOf(ROW0[i])
  {
  }

  lemma SymbolsRow1(i: nat)
    requires i < 16
    ensures |ROW1| == 16 && 16 + i in SymbolsOf(ROW1[i])
  {
  }

  lemma SymbolsRow2(i: nat)
    requires i < 16
    ensures |ROW2| == 16 && 32 + i in SymbolsOf(ROW2[i])
  {
  }

  lemma SymbolsRow3(i: nat)
    requires i < 16
    ensures |ROW3| == 16 && 48 + i in SymbolsOf(ROW3[i])
  {
  }

  lemma SymbolsRow4(i: nat)
    requires i < 16
    ensures |ROW4| == 16 && 64 + i in SymbolsOf(ROW4[i])
  {
  }

  lemma SymbolsRow5(i: nat)
    requires i < 16
    ensures |ROW5| == 16 && 80 + i in SymbolsOf(ROW5[i])
  {
  }

  lemma SymbolsRow6(i: nat)
    requires i < 16
    ensures |ROW6| == 16 && 96 + i in SymbolsOf(ROW6[i])
  {
  }

  lemma SymbolsRow7(i: nat)
    requires i < 16
    ensures |ROW7| == 16 && 112 + i in SymbolsOf(ROW7[i])
  {
  }

  lemma SymbolsRow8(i: nat)
    requires i < 16
    ensures |ROW8| == 16 && 128 + i in SymbolsOf(ROW8[i])
  {
  }

  lemma SymbolsRow9(i: nat)
    requires i < 16
    ensures |ROW9| == 16 && 144 + i in SymbolsOf(ROW9[i])
  {
  }

  lemma SymbolsRow10(i: nat)
    requires i < 16
    ensures |ROW10| == 16 && 160 + i in SymbolsOf(ROW10[i])
  {
  }

  lemma SymbolsRow11(i: nat)
    requires i < 16
    ensures |ROW11| == 16 && 176 + i in SymbolsOf(ROW11[i])
  {
  }

  lemma SymbolsRow12(i: nat)
    requires i < 16
    ensures |ROW12| == 16 && 192 + i in SymbolsOf(ROW12[i])
  {
  }

  lemma SymbolsRow13(i: nat)
    requires i < 16
    ensures |ROW13| == 16 && 208 + i in SymbolsOf(ROW13[i])
  {
  }

  lemma SymbolsRow14(i: nat)
    requires i < 16
    ensures |ROW14| == 16 && 224 + i in SymbolsOf(ROW14[i])
  {
  }

  lemma SymbolsRow15(i: nat)
    requires i < 16
    ensures |ROW15| == 16 && 240 + i in SymbolsOf(ROW15[i])
  {
  }

  lemma RowSymbols(r: nat, i: nat)
    requires r < 16 && i < 16
    ensures |Row(r)| == 16 && 16 * r + i in SymbolsOf(Row(r)[i])
  {
    hide SymbolsOf;
    if r == 0 { SymbolsRow0(i); }
    if r == 1 { SymbolsRow1(i); }
    if r == 2 { SymbolsRow2(i); }
    if r == 3 { SymbolsRow3(i); }
    if r == 4 { SymbolsRow4(i); }
    if r == 5 { SymbolsRow5(i); }
    if r == 6 { SymbolsRow6(i); }
    if r == 7 { SymbolsRow7(i); }
    if r == 8 { SymbolsRow8(i); }
    if r == 9 { SymbolsRow9(i); }
    if r == 10 { SymbolsRow10(i); }
    if r == 11 { SymbolsRow11(i); }
    if r == 12 { SymbolsRow12(i); }
    if r == 13 { SymbolsRow13(i); }
    if r == 14 { SymbolsRow14(i); }
    if r == 15 { SymbolsRow15(i); }
  }

  lemma EightRows(a: seq<nat>, b: seq<nat>, c: seq<nat>, d: seq<nat>,
                  e: seq<nat>, f: seq<nat>, g: seq<nat>, h: seq<nat>, q: nat, i: nat)
    requires |a| == |b| == |c| == |d| == |e| == |f| == |g| == |h| == 16 && q < 8 && i < 16
    ensures var all := a + b + c + d + e + f + g + h;
            && |all| == 128
            && all[16 * q + i] == (if q == 0 then a else if q == 1 then b else if q == 2 then c else if q == 3 then d
                                   else if q == 4 then e else if q == 5 then f else if q == 6 then g else h)[i]
  {
  }

  /** Symbol `16 * r + i` is among those of the length the server has for it. */
  lemma LengthOfSymbol(r: nat, i: nat)
    requires r < 16 && i < 16
    ensures |HUFF_LENS| == 256 && 16 * r + i in SymbolsOf(HUFF_LENS[16 * r + i])
  {
    hide SymbolsOf, Row, LOW_HALF, HIGH_HALF;
    RowSymbols(r, i);
    HalfRows(r % 8, i);
    BothHalves(LOW_HALF, HIGH_HALF, r, i);
  }

  lemma BothHalves(a: seq<nat>, b: seq<nat>, r: nat, i: nat)
    requires |a| == |b| == 128 && r < 16 && i < 16
    ensures |a + b| == 256 && (a + b)[16 * r + i] == if r < 8 then a[16 * (r % 8) + i] else b[16 * (r % 8) + i]
  {
  }

  lemma HalfRows(q: nat, i: nat)
    requires q < 8 && i < 16
    ensures |LOW_HALF| == |HIGH_HALF| == 128 && |Row(q)| == |Row(8 + q)| == 16
    ensures LOW_HALF[16 * q + i] == Row(q)[i] && HIGH_HALF[16 * q + i] == Row(8 + q)[i]
  {
    RowSizes();
    hide ROW0, ROW1, ROW2, ROW3, ROW4, ROW5, ROW6, ROW7, ROW8, ROW9, ROW10, ROW11, ROW12, ROW13, ROW14, ROW15;
    EightRows(ROW0, ROW1, ROW2, ROW3, ROW4, ROW5, ROW6, ROW7, q, i);
    EightRows(ROW8, ROW9, ROW10, ROW11, ROW12, ROW13, ROW14, ROW15, q, i);
  }

  lemma RowSizes()
    ensures |ROW0| == |ROW1| == |ROW2| == |ROW3| == |ROW4| == |ROW5| == |ROW6| == |ROW7| == 16
    ensures |ROW8| == |ROW9| == |ROW10| == |ROW11| == |ROW12| == |ROW13| == |ROW14| == |ROW15| == 16
  {
  }
}
