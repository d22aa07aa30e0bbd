/** The test vector "abc" of section A.5 of RFC 1321, row by row through section 3.4: it fixes the
    tables, the shifts, the initial registers, the order of words and bytes, and the padding. */
module Md5Vector {
  import opened Common
  import opened Md5Transform
  import Md5

  /** "abc". */
  const ABC: seq<byte> := [0x61, 0x62, 0x63]

  /** Its only block: the message, the first bit of the padding, and a length of 24 bits. */
  const BLOCK: seq<bv32> := [0x80636261, 0, 0, 0, 0, 0, 0, 0, 0, 0, 0, 0, 0, 0, 24, 0]

  /** The registers before each row of four steps, and at the end. */
  const R0: Regs := Regs(0x67452301, 0xefcdab89, 0x98badcfe, 0x10325476)
  const R1: Regs := Regs(0xd6d117b4, 0x7ad956f2, 0x2f6fbd72, 0x344a8432)
  const R2: Regs := Regs(0xc73741ef, 0x928d99f6, 0x207dc67b, 0x8bac3051)
  const R3: Regs := Regs(0x854b3712, 0x5ed49596, 0x3020401c, 0x74e2f284)
  const R4: Regs := Regs(0xdda9b9a6, 0x72aff2e0, 0xe396856b, 0xa1051895)
  const R5: Regs := Regs(0x3e9e9126, 0xb5b204e4, 0xe25e1652, 0x4a1d804e)
  const R6: Regs := Regs(0x59a8ffda, 0x47092c07, 0xabfc7920, 0x6d002f1e)
  const R7: Regs := Regs(0xb7f268cf, 0x786acb8f, 0xfe1623b1, 0x09388eff)
  const R8: Regs := Regs(0x790a77fb, 0x726342d3, 0xa62884aa, 0x9f47e4f8)
  const R9: Regs := Regs(0xb3707ebf, 0x3b0875c7, 0x8d212ff5, 0x60127b2e)
  const R10: Regs := Regs(0x21b117b9, 0x5a2f5ea5, 0x3575227e, 0x6e7429d5)
  const R11: Regs := Regs(0x11de1779, 0x4c6124f4, 0x31c465ca, 0xfadcaa38)
  const R12: Regs := Regs(0x7f2e507b, 0x7beb9700, 0x8fae6399, 0x99d9679d)
  const R13: Regs := Regs(0x7b201df8, 0x8bf025c4, 0xb298cefd, 0xf4e8e96e)
  const R14: Regs := Regs(0x06cc5e8a, 0x3bfa2c27, 0x7d632dd0, 0x5b0d97aa)
  const R15: Regs := Regs(0x7f81cc35, 0x7327d604, 0x4f9dbe3f, 0x094454ab)
  const R16: Regs := Regs(0x310ade8f, 0xc08226b3, 0xe484b9d8, 0x624d8cb2)

  /** Row `q` takes the registers from `r` to `s` if its four steps compute those of `s`. */
  lemma Onward(q: nat, r: Regs, s: Regs)
    requires q < 16 && RfcSteps(BLOCK, R0, 0, 4 * q) == r
    requires var t := TableRow(q);
      && Md5Step(q / 4, r.a, r.b, r.c, r.d, Add(BLOCK[WordOf(4 * q)], t.0), ShiftOf(q / 4, 0)) == s.a
      && Md5Step(q / 4, r.d, s.a, r.b, r.c, Add(BLOCK[WordOf(4 * q + 1)], t.1), ShiftOf(q / 4, 1)) == s.d
      && Md5Step(q / 4, r.c, s.d, s.a, r.b, Add(BLOCK[WordOf(4 * q + 2)], t.2), ShiftOf(q / 4, 2)) == s.c
      && Md5Step(q / 4, r.b, s.c, s.d, s.a, Add(BLOCK[WordOf(4 * q + 3)], t.3), ShiftOf(q / 4, 3)) == s.b
    ensures RfcSteps(BLOCK, R0, 0, 4 * q + 4) == s
  {
    hide RfcSteps, WordOf, Md5Step, Add, TableRow, ShiftOf;
    Row(BLOCK, R0, q);
  }

  lemma Steps0()
    ensures Md5Step(0, R0.a, R0.b, R0.c, R0.d, Add(0x80636261, 0xd76aa478), 7) == R1.a
    ensures Md5Step(0, R0.d, R1.a, R0.b, R0.c, Add(0, 0xe8c7b756), 12) == R1.d
    ensures Md5Step(0, R0.c, R1.d, R1.a, R0.b, Add(0, 0x242070db), 17) == R1.c
    ensures Md5Step(0, R0.b, R1.c, R1.d, R1.a, Add(0, 0xc1bdceee), 22) == R1.b
  {
  }

  lemma Row0()
    requires RfcSteps(BLOCK, R0, 0, 0) == R0
    ensures RfcSteps(BLOCK, R0, 0, 4) == R1
  {
    hide RfcSteps, WordOf, Md5Step, Add, R0, R1;
    Schedule0();
    Steps0();
    Onward(0, R0, R1);
  }

  lemma Steps1()
    ensures Md5Step(0, R1.a, R1.b, R1.c, R1.d, Add(0, 0xf57c0faf), 7) == R2.a
    ensures Md5Step(0, R1.d, R2.a, R1.b, R1.c, Add(0, 0x4787c62a), 12) == R2.d
    ensures Md5Step(0, R1.c, R2.d, R2.a, R1.b, Add(0, 0xa8304613), 17) == R2.c
    ensures Md5Step(0, R1.b, R2.c, R2.d, R2.a, Add(0, 0xfd469501), 22) == R2.b
  {
  }

  lemma Row1()
    requires RfcSteps(BLOCK, R0, 0, 4) == R1
    ensures RfcSteps(BLOCK, R0, 0, 8) == R2
  {
    hide RfcSteps, WordOf, Md5Step, Add, R1, R2;
    Schedule0();
    Steps1();
    Onward(1, R1, R2);
  }

  lemma Steps2()
    ensures Md5Step(0, R2.a, R2.b, R2.c, R2.d, Add(0, 0x698098d8), 7) == R3.a
    ensures Md5Step(0, R2.d, R3.a, R2.b, R2.c, Add(0, 0x8b44f7af), 12) == R3.d
    ensures Md5Step(0, R2.c, R3.d, R3.a, R2.b, Add(0, 0xffff5bb1), 17) == R3.c
    ensures Md5Step(0, R2.b, R3.c, R3.d, R3.a, Add(0, 0x895cd7be), 22) == R3.b
  {
  }

  lemma Row2()
    requires RfcSteps(BLOCK, R0, 0, 8) == R2
    ensures RfcSteps(BLOCK, R0, 0, 12) == R3
  {
    hide RfcSteps, WordOf, Md5Step, Add, R2, R3;
    Schedule0();
    Steps2();
    Onward(2, R2, R3);
  }

  lemma Steps3()
    ensures Md5Step(0, R3.a, R3.b, R3.c, R3.d, Add(0, 0x6b901122), 7) == R4.a
    ensures Md5Step(0, R3.d, R4.a, R3.b, R3.c, Add(0, 0xfd987193), 12) == R4.d
    ensures Md5Step(0, R3.c, R4.d, R4.a, R3.b, Add(24, 0xa679438e), 17) == R4.c
    ensures Md5Step(0, R3.b, R4.c, R4.d, R4.a, Add(0, 0x49b40821), 22) == R4.b
  {
  }

  lemma Row3()
    requires RfcSteps(BLOCK, R0, 0, 12) == R3
    ensures RfcSteps(BLOCK, R0, 0, 16) == R4
  {
    hide RfcSteps, WordOf, Md5Step, Add, R3, R4;
    Schedule0();
    Steps3();
    Onward(3, R3, R4);
  }

  lemma Steps4()
    ensures Md5Step(1, R4.a, R4.b, R4.c, R4.d, Add(0, 0xf61e2562), 5) == R5.a
    ensures Md5Step(1, R4.d, R5.a, R4.b, R4.c, Add(0, 0xc040b340), 9) == R5.d
    ensures Md5Step(1, R4.c, R5.d, R5.a, R4.b, Add(0, 0x265e5a51), 14) == R5.c
    ensures Md5Step(1, R4.b, R5.c, R5.d, R5.a, Add(0x80636261, 0xe9b6c7aa), 20) == R5.b
  {
  }

  lemma Row4()
    requires RfcSteps(BLOCK, R0, 0, 16) == R4
    ensures RfcSteps(BLOCK, R0, 0, 20) == R5
  {
    hide RfcSteps, WordOf, Md5Step, Add, R4, R5;
    Schedule1();
    Steps4();
    Onward(4, R4, R5);
  }

  lemma Steps5()
    ensures Md5Step(1, R5.a, R5.b, R5.c, R5.d, Add(0, 0xd62f105d), 5) == R6.a
    ensures Md5Step(1, R5.d, R6.a, R5.b, R5.c, Add(0, 0x02441453), 9) == R6.d
    ensures Md5Step(1, R5.c, R6.d, R6.a, R5.b, Add(0, 0xd8a1e681), 14) == R6.c
    ensures Md5Step(1, R5.b, R6.c, R6.d, R6.a, Add(0, 0xe7d3fbc8), 20) == R6.b
  {
  }

  lemma Row5()
    requires RfcSteps(BLOCK, R0, 0, 20) == R5
    ensures RfcSteps(BLOCK, R0, 0, 24) == R6
  {
    hide RfcSteps, WordOf, Md5Step, Add, R5, R6;
    Schedule1();
    Steps5();
    Onward(5, R5, R6);
  }

  lemma Steps6()
    ensures Md5Step(1, R6.a, R6.b, R6.c, R6.d, Add(0, 0x21e1cde6), 5) == R7.a
    ensures Md5Step(1, R6.d, R7.a, R6.b, R6.c, Add(24, 0xc33707d6), 9) == R7.d
    ensures Md5Step(1, R6.c, R7.d, R7.a, R6.b, Add(0, 0xf4d50d87), 14) == R7.c
    ensures Md5Step(1, R6.b, R7.c, R7.d, R7.a, Add(0, 0x455a14ed), 20) == R7.b
  {
  }

  lemma Row6()
    requires RfcSteps(BLOCK, R0, 0, 24) == R6
    ensures RfcSteps(BLOCK, R0, 0, 28) == R7
  {
    hide RfcSteps, WordOf, Md5Step, Add, R6, R7;
    Schedule1();
    Steps6();
    Onward(6, R6, R7);
  }

  lemma Steps7()
    ensures Md5Step(1, R7.a, R7.b, R7.c, R7.d, Add(0, 0xa9e3e905), 5) == R8.a
    ensures Md5Step(1, R7.d, R8.a, R7.b, R7.c, Add(0, 0xfcefa3f8), 9) == R8.d
    ensures Md5Step(1, R7.c, R8.d, R8.a, R7.b, Add(0, 0x676f02d9), 14) == R8.c
    ensures Md5Step(1, R7.b, R8.c, R8.d, R8.a, Add(0, 0x8d2a4c8a), 20) == R8.b
  {
  }

  lemma Row7()
    requires RfcSteps(BLOCK, R0, 0, 28) == R7
    ensures RfcSteps(BLOCK, R0, 0, 32) == R8
  {
    hide RfcSteps, WordOf, Md5Step, Add, R7, R8;
    Schedule1();
    Steps7();
    Onward(7, R7, R8);
  }

  lemma Steps8()
    ensures Md5Step(2, R8.a, R8.b, R8.c, R8.d, Add(0, 0xfffa3942), 4) == R9.a
    ensures Md5Step(2, R8.d, R9.a, R8.b, R8.c, Add(0, 0x8771f681), 11) == R9.d
    ensures Md5Step(2, R8.c, R9.d, R9.a, R8.b, Add(0, 0x6d9d6122), 16) == R9.c
    ensures Md5Step(2, R8.b, R9.c, R9.d, R9.a, Add(24, 0xfde5380c), 23) == R9.b
  {
  }

  lemma Row8()
    requires RfcSteps(BLOCK, R0, 0, 32) == R8
    ensures RfcSteps(BLOCK, R0, 0, 36) == R9
  {
    hide RfcSteps, WordOf, Md5Step, Add, R8, R9;
    Schedule2();
    Steps8();
    Onward(8, R8, R9);
  }

  lemma Steps9()
    ensures Md5Step(2, R9.a, R9.b, R9.c, R9.d, Add(0, 0xa4beea44), 4) == R10.a
    ensures Md5Step(2, R9.d, R10.a, R9.b, R9.c, Add(0, 0x4bdecfa9), 11) == R10.d
    ensures Md5Step(2, R9.c, R10.d, R10.a, R9.b, Add(0, 0xf6bb4b60), 16) == R10.c
    ensures Md5Step(2, R9.b, R10.c, R10.d, R10.a, Add(0, 0xbebfbc70), 23) == R10.b
  {
  }

  lemma Row9()
    requires RfcSteps(BLOCK, R0, 0, 36) == R9
    ensures RfcSteps(BLOCK, R0, 0, 40) == R10
  {
    hide RfcSteps, WordOf, Md5Step, Add, R9, R10;
    Schedule2();
    Steps9();
    Onward(9, R9, R10);
  }

  lemma Steps10()
    ensures Md5Step(2, R10.a, R10.b, R10.c, R10.d, Add(0, 0x289b7ec6), 4) == R11.a
    ensures Md5Step(2, R10.d, R11.a, R10.b, R10.c, Add(0x80636261, 0xeaa127fa), 11) == R11.d
    ensures Md5Step(2, R10.c, R11.d, R11.a, R10.b, Add(0, 0xd4ef3085), 16) == R11.c
    ensures Md5Step(2, R10.b, R11.c, R11.d, R11.a, Add(0, 0x04881d05), 23) == R11.b
  {
  }

  lemma Row10()
    requires RfcSteps(BLOCK, R0, 0, 40) == R10
    ensures RfcSteps(BLOCK, R0, 0, 44) == R11
  {
    hide RfcSteps, WordOf, Md5Step, Add, R10, R11;
    Schedule2();
    Steps10();
    Onward(10, R10, R11);
  }

  lemma Steps11()
    ensures Md5Step(2, R11.a, R11.b, R11.c, R11.d, Add(0, 0xd9d4d039), 4) == R12.a
    ensures Md5Step(2, R11.d, R12.a, R11.b, R11.c, Add(0, 0xe6db99e5), 11) == R12.d
    ensures Md5Step(2, R11.c, R12.d, R12.a, R11.b, Add(0, 0x1fa27cf8), 16) == R12.c
    ensures Md5Step(2, R11.b, R12.c, R12.d, R12.a, Add(0, 0xc4ac5665), 23) == R12.b
  {
  }

  lemma Row11()
    requires RfcSteps(BLOCK, R0, 0, 44) == R11
    ensures RfcSteps(BLOCK, R0, 0, 48) == R12
  {
    hide RfcSteps, WordOf, Md5Step, Add, R11, R12;
    Schedule2();
    Steps11();
    Onward(11, R11, R12);
  }

  lemma Steps12()
    ensures Md5Step(3, R12.a, R12.b, R12.c, R12.d, Add(0x80636261, 0xf4292244), 6) == R13.a
    ensures Md5Step(3, R12.d, R13.a, R12.b, R12.c, Add(0, 0x432aff97), 10) == R13.d
    ensures Md5Step(3, R12.c, R13.d, R13.a, R12.b, Add(24, 0xab9423a7), 15) == R13.c
    ensures Md5Step(3, R12.b, R13.c, R13.d, R13.a, Add(0, 0xfc93a039), 21) == R13.b
  {
  }

  lemma Row12()
    requires RfcSteps(BLOCK, R0, 0, 48) == R12
    ensures RfcSteps(BLOCK, R0, 0, 52) == R13
  {
    hide RfcSteps, WordOf, Md5Step, Add, R12, R13;
    Schedule3();
    Steps12();
    Onward(12, R12, R13);
  }

  lemma Steps13()
    ensures Md5Step(3, R13.a, R13.b, R13.c, R13.d, Add(0, 0x655b59c3), 6) == R14.a
    ensures Md5Step(3, R13.d, R14.a, R13.b, R13.c, Add(0, 0x8f0ccc92), 10) == R14.d
    ensures Md5Step(3, R13.c, R14.d, R14.a, R13.b, Add(0, 0xffeff47d), 15) == R14.c
    ensures Md5Step(3, R13.b, R14.c, R14.d, R14.a, Add(0, 0x85845dd1), 21) == R14.b
  {
  }

  lemma Row13()
    requires RfcSteps(BLOCK, R0, 0, 52) == R13
    ensures RfcSteps(BLOCK, R0, 0, 56) == R14
  {
    hide RfcSteps, WordOf, Md5Step, Add, R13, R14;
    Schedule3();
    Steps13();
    Onward(13, R13, R14);
  }

  lemma Steps14()
    ensures Md5Step(3, R14.a, R14.b, R14.c, R14.d, Add(0, 0x6fa87e4f), 6) == R15.a
    ensures Md5Step(3, R14.d, R15.a, R14.b, R14.c, Add(0, 0xfe2ce6e0), 10) == R15.d
    ensures Md5Step(3, R14.c, R15.d, R15.a, R14.b, Add(0, 0xa3014314), 15) == R15.c
    ensures Md5Step(3, R14.b, R15.c, R15.d, R15.a, Add(0, 0x4e0811a1), 21) == R15.b
  {
  }

  lemma Row14()
    requires RfcSteps(BLOCK, R0, 0, 56) == R14
    ensures RfcSteps(BLOCK, R0, 0, 60) == R15
  {
    hide RfcSteps, WordOf, Md5Step, Add, R14, R15;
    Schedule3();
    Steps14();
    Onward(14, R14, R15);
  }

  lemma Steps15()
    ensures Md5Step(3, R15.a, R15.b, R15.c, R15.d, Add(0, 0xf7537e82), 6) == R16.a
    ensures Md5Step(3, R15.d, R16.a, R15.b, R15.c, Add(0, 0xbd3af235), 10) == R16.d
    ensures Md5Step(3, R15.c, R16.d, R16.a, R15.b, Add(0, 0x2ad7d2bb), 15) == R16.c
    ensures Md5Step(3, R15.b, R16.c, R16.d, R16.a, Add(0, 0xeb86d391), 21) == R16.b
  {
  }

  lemma Row15()
    requires RfcSteps(BLOCK, R0, 0, 60) == R15
    ensures RfcSteps(BLOCK, R0, 0, 64) == R16
  {
    hide RfcSteps, WordOf, Md5Step, Add, R15, R16;
    Schedule3();
    Steps15();
    Onward(15, R15, R16);
  }

  lemma AllRows()
    ensures RfcSteps(BLOCK, R0, 0, 64) == R16
  {
    hide RfcSteps;
    Start(BLOCK, R0);
    Row0();
    Row1();
    Row2();
    Row3();
    Row4();
    Row5();
    Row6();
    Row7();
    Row8();
    Row9();
    Row10();
    Row11();
    Row12();
    Row13();
    Row14();
    Row15();
  }

  lemma AbcCompress()
    ensures RfcCompress(R0, BLOCK) == Regs(0x98500190, 0xb04fd23c, 0x7d3f96d6, 0x727fe128)
  {
    hide RfcSteps;
    AllRows();
  }

  lemma AbcPadded()
    ensures ABC + Md5.Padding(|ABC|) == [0x61, 0x62, 0x63, 0x80] + Zeros(52) + [24, 0, 0, 0, 0, 0, 0, 0]
  {
    assert Md5.LengthField(3) == [24, 0, 0, 0, 0, 0, 0, 0];
    hide Md5.LengthField, Zeros;
  }

  lemma BitsOf()
    ensures ToBits(0x80636261) == 0x80636261 && ToBits(24) == 24 && ToBits(0) == 0
    ensures ToBits(0x67452301) == 0x67452301 && ToBits(0xefcdab89) == 0xefcdab89
    ensures ToBits(0x98badcfe) == 0x98badcfe && ToBits(0x10325476) == 0x10325476
  {
  }

  lemma WordsLoaded()
    ensures LoadWord(0x61, 0x62, 0x63, 0x80) == 0x80636261 && LoadWord(24, 0, 0, 0) == 24 && LoadWord(0, 0, 0, 0) == 0
  {
    hide ToBits;
    BitsOf();
  }

  lemma BytesAt(m: seq<byte>, i: nat)
    requires m == [0x61, 0x62, 0x63, 0x80] + Zeros(52) + [24, 0, 0, 0, 0, 0, 0, 0] && 0 < i < 16
    ensures m[4 * i] == (if i == 14 then 24 else 0) && m[4 * i + 1] == m[4 * i + 2] == m[4 * i + 3] == 0
  {
  }

  lemma WordAt(m: seq<byte>, i: nat)
    requires m == [0x61, 0x62, 0x63, 0x80] + Zeros(52) + [24, 0, 0, 0, 0, 0, 0, 0] && i < 16
    ensures LoadWords(m)[i] == if i == 0 then 0x80636261 else if i == 14 then 24 else 0
  {
    hide LoadWord, Zeros;
    WordsLoaded();
    if i > 0 {
      BytesAt(m, i);
    }
  }

  /** The message with its padding is one block, whose words are `BLOCK`. */
  lemma AbcBlock()
    ensures var m := ABC + Md5.Padding(|ABC|); |m| == 64 && LoadWords(m) == BLOCK
  {
    hide Md5.Padding, LoadWords;
    AbcPadded();
    var m := ABC + Md5.Padding(|ABC|);
    forall i | 0 <= i < 16
      ensures LoadWords(m)[i] == BLOCK[i]
    {
      WordAt(m, i);
    }
  }

  lemma AbcWords()
    ensures ToRegs(Md5.INITIAL) == R0
    ensures FromRegs(Regs(0x98500190, 0xb04fd23c, 0x7d3f96d6, 0x727fe128))
         == Md5.Words(0x98500190, 0xb04fd23c, 0x7d3f96d6, 0x727fe128)
  {
    hide ToBits;
    BitsOf();
  }

  lemma FourWords()
    ensures Md5.Low4(0x98500190) == [0x90, 0x01, 0x50, 0x98] && Md5.Low4(0xb04fd23c) == [0x3c, 0xd2, 0x4f, 0xb0]
    ensures Md5.Low4(0x7d3f96d6) == [0xd6, 0x96, 0x3f, 0x7d] && Md5.Low4(0x727fe128) == [0x28, 0xe1, 0x7f, 0x72]
  {
  }

  lemma AbcBytes()
    ensures Md5.DigestBytes(Md5.Words(0x98500190, 0xb04fd23c, 0x7d3f96d6, 0x727fe128))
         == [0x90, 0x01, 0x50, 0x98, 0x3c, 0xd2, 0x4f, 0xb0, 0xd6, 0x96, 0x3f, 0x7d, 0x28, 0xe1, 0x7f, 0x72]
  {
    hide Md5.Low4;
    FourWords();
  }

  /** MD5 of "abc" is 900150983cd24fb0d6963f7d28e17f72. */
  lemma AbcDigest()
    ensures Md5.Digest(Rfc1321, ABC)
         == [0x90, 0x01, 0x50, 0x98, 0x3c, 0xd2, 0x4f, 0xb0, 0xd6, 0x96, 0x3f, 0x7d, 0x28, 0xe1, 0x7f, 0x72]
  {
    hide RfcCompress, LoadWords, ToRegs, FromRegs, Md5.Padding, Md5.DigestBytes;
    AbcBlock();
    AbcWords();
    AbcCompress();
    AbcBytes();
    var m := ABC + Md5.Padding(|ABC|);
    assert m[..64] == m;
    assert Md5.Fold(Rfc1321, Rfc1321(Md5.INITIAL, m), m[64..]) == Rfc1321(Md5.INITIAL, m);
  }
}
