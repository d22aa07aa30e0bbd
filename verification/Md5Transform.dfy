/** MD5Transform of lib/md5.c against the step-by-step definition in section 3.4 of RFC 1321. */
module Md5Transform {
  import opened Common
  import Md5

  /** The registers A, B, C, D. */
  datatype Regs = Regs(a: bv32, b: bv32, c: bv32, d: bv32)

  // ----- section 3.4 of RFC 1321 -----

  function F(x: bv32, y: bv32, z: bv32): bv32 { (x & y) | (!x & z) }
  function G(x: bv32, y: bv32, z: bv32): bv32 { (x & z) | (y & !z) }
  function H(x: bv32, y: bv32, z: bv32): bv32 { x ^ y ^ z }
  function I(x: bv32, y: bv32, z: bv32): bv32 { y ^ (x | !z) }

  function Mix(round: nat, x: bv32, y: bv32, z: bv32): bv32 {
    match round
    case 0 => F(x, y, z)
    case 1 => G(x, y, z)
    case 2 => H(x, y, z)
    case _ => I(x, y, z)
  }

  /** Addition of words, modulo 2^32. */
  function Add(x: bv32, y: bv32): bv32 { x + y }

  /** Circular shift left by 0 < s < 32 bits. */
  function Rotate(w: bv32, s: bv6): bv32
    requires 0 < s < 32
  {
    (w << s) | (w >> (32 - s))
  }

  /** The message word of each of the 64 steps. */
  function WordOf(i: nat): (k: nat)
    ensures k < 16
  {
    if i < 16 then i
    else if i < 32 then (5 * i + 1) % 16
    else if i < 48 then (3 * i + 5) % 16
    else 7 * i % 16
  }

  /** The shift amounts, four for each round. */
  function ShiftOf(round: nat, j: nat): (s: bv6)
    ensures 0 < s < 32
  {
    match round
    case 0 => (match j case 0 => 7 case 1 => 12 case 2 => 17 case _ => 22)
    case 1 => (match j case 0 => 5 case 1 => 9 case 2 => 14 case _ => 20)
    case 2 => (match j case 0 => 4 case 1 => 11 case 2 => 16 case _ => 23)
    case _ => (match j case 0 => 6 case 1 => 10 case 2 => 15 case _ => 21)
  }

  /** The table T, four entries a row. */
  function TableRow(q: nat): (bv32, bv32, bv32, bv32) {
    match q
    case 0 => (0xd76aa478, 0xe8c7b756, 0x242070db, 0xc1bdceee)
    case 1 => (0xf57c0faf, 0x4787c62a, 0xa8304613, 0xfd469501)
    case 2 => (0x698098d8, 0x8b44f7af, 0xffff5bb1, 0x895cd7be)
    case 3 => (0x6b901122, 0xfd987193, 0xa679438e, 0x49b40821)
    case 4 => (0xf61e2562, 0xc040b340, 0x265e5a51, 0xe9b6c7aa)
    case 5 => (0xd62f105d, 0x02441453, 0xd8a1e681, 0xe7d3fbc8)
    case 6 => (0x21e1cde6, 0xc33707d6, 0xf4d50d87, 0x455a14ed)
    case 7 => (0xa9e3e905, 0xfcefa3f8, 0x676f02d9, 0x8d2a4c8a)
    case 8 => (0xfffa3942, 0x8771f681, 0x6d9d6122, 0xfde5380c)
    case 9 => (0xa4beea44, 0x4bdecfa9, 0xf6bb4b60, 0xbebfbc70)
    case 10 => (0x289b7ec6, 0xeaa127fa, 0xd4ef3085, 0x04881d05)
    case 11 => (0xd9d4d039, 0xe6db99e5, 0x1fa27cf8, 0xc4ac5665)
    case 12 => (0xf4292244, 0x432aff97, 0xab9423a7, 0xfc93a039)
    case 13 => (0x655b59c3, 0x8f0ccc92, 0xffeff47d, 0x85845dd1)
    case 14 => (0x6fa87e4f, 0xfe2ce6e0, 0xa3014314, 0x4e0811a1)
    case _ => (0xf7537e82, 0xbd3af235, 0x2ad7d2bb, 0xeb86d391)
  }

  function TableAt(i: nat): bv32 {
    var row := TableRow(i / 4);
    match i % 4 case 0 => row.0 case 1 => row.1 case 2 => row.2 case _ => row.3
  }

  /** Step i: a = b + ((a + mix(b,c,d) + X[k] + T[i]) <<< s), then the registers move on. */
  function RfcStep(x: seq<bv32>, r: Regs, i: nat): Regs
    requires |x| == 16
  {
    var sum := Add(r.a, Add(Mix(i / 16, r.b, r.c, r.d), Add(x[WordOf(i)], TableAt(i))));
    Regs(r.d, Add(r.b, Rotate(sum, ShiftOf(i / 16, i % 4))), r.b, r.c)
  }

  function RfcSteps(x: seq<bv32>, r: Regs, i: nat, n: nat): Regs
    requires |x| == 16
    decreases n
  {
    if n == 0 then r else RfcStep(x, RfcSteps(x, r, i, n - 1), i + n - 1)
  }

  // ----- the code -----

  function F1(x: bv32, y: bv32, z: bv32): bv32 { z ^ (x & (y ^ z)) }
  function F2(x: bv32, y: bv32, z: bv32): bv32 { F1(z, x, y) }
  function F3(x: bv32, y: bv32, z: bv32): bv32 { x ^ y ^ z }
  function F4(x: bv32, y: bv32, z: bv32): bv32 { y ^ (x | !z) }

  function Pick(round: nat, x: bv32, y: bv32, z: bv32): bv32 {
    match round
    case 0 => F1(x, y, z)
    case 1 => F2(x, y, z)
    case 2 => F3(x, y, z)
    case _ => F4(x, y, z)
  }

  lemma Selects(x: bv32, y: bv32, z: bv32)
    ensures z ^ (x & (y ^ z)) == (x & y) | (!x & z)
    ensures y ^ (z & (x ^ y)) == (x & z) | (y & !z)
  {
  }

  lemma F1IsF(x: bv32, y: bv32, z: bv32)
    ensures F1(x, y, z) == F(x, y, z)
  {
    Selects(x, y, z);
  }

  lemma F2IsG(x: bv32, y: bv32, z: bv32)
    ensures F2(x, y, z) == G(x, y, z)
  {
    Selects(x, y, z);
  }

  /** The optimised selections compute F and G for all words. */
  lemma PickIsMix(round: nat, x: bv32, y: bv32, z: bv32)
    ensures Pick(round, x, y, z) == Mix(round, x, y, z)
  {
    F1IsF(x, y, z);
    F2IsG(x, y, z);
    hide F, G, F1, F2;
  }

  /** The macro MD5STEP. */
  function Md5Step(round: nat, w: bv32, x: bv32, y: bv32, z: bv32, data: bv32, s: bv6): bv32
    requires 0 < s < 32
  {
    Add(Rotate(Add(w, Add(Pick(round, x, y, z), data)), s), x)
  }

  /** Four consecutive MD5STEPs, each updating one register in place. */
  function Four(round: nat, r: Regs, d0: bv32, d1: bv32, d2: bv32, d3: bv32): Regs {
    var a := Md5Step(round, r.a, r.b, r.c, r.d, d0, ShiftOf(round, 0));
    var d := Md5Step(round, r.d, a, r.b, r.c, d1, ShiftOf(round, 1));
    var c := Md5Step(round, r.c, d, a, r.b, d2, ShiftOf(round, 2));
    var b := Md5Step(round, r.b, c, d, a, d3, ShiftOf(round, 3));
    Regs(a, b, c, d)
  }

  lemma Swap(x: bv32, y: bv32)
    ensures Add(x, y) == Add(y, x)
  {
  }

  /** The word a step adds in: message word and table entry. */
  function Datum(x: seq<bv32>, i: nat): bv32
    requires |x| == 16
  {
    Add(x[WordOf(i)], TableAt(i))
  }

  lemma StepIsRfc(x: seq<bv32>, r: Regs, i: nat)
    requires |x| == 16
    ensures RfcStep(x, r, i)
         == Regs(r.d, Md5Step(i / 16, r.a, r.b, r.c, r.d, Datum(x, i), ShiftOf(i / 16, i % 4)), r.b, r.c)
  {
    hide TableAt, WordOf, ShiftOf, Rotate, Pick, Mix, Add;
    var f := Mix(i / 16, r.b, r.c, r.d);
    PickIsMix(i / 16, r.b, r.c, r.d);
    Swap(r.b, Rotate(Add(r.a, Add(f, Add(x[WordOf(i)], TableAt(i)))), ShiftOf(i / 16, i % 4)));
  }

  lemma FourIsSteps(x: seq<bv32>, r: Regs, q: nat, i: nat)
    requires |x| == 16 && i == 4 * q
    ensures Four(i / 16, r, Datum(x, i), Datum(x, i + 1), Datum(x, i + 2), Datum(x, i + 3)) == RfcSteps(x, r, i, 4)
  {
    hide Datum, ShiftOf, Md5Step, RfcStep, Add, Mix;
    var r1 := RfcStep(x, r, i);
    var r2 := RfcStep(x, r1, i + 1);
    var r3 := RfcStep(x, r2, i + 2);
    assert RfcSteps(x, r, i, 1) == r1 by { assert RfcSteps(x, r, i, 0) == r; }
    assert RfcSteps(x, r, i, 2) == r2;
    assert RfcSteps(x, r, i, 3) == r3;
    assert RfcSteps(x, r, i, 4) == RfcStep(x, r3, i + 3);
    InRow(q, 0);
    InRow(q, 1);
    InRow(q, 2);
    InRow(q, 3);
    hide RfcSteps;
    StepIsRfc(x, r, i);
    StepIsRfc(x, r1, i + 1);
    StepIsRfc(x, r2, i + 2);
    StepIsRfc(x, r3, i + 3);
  }

  lemma InRow(q: nat, j: nat)
    requires j < 4
    ensures (4 * q + j) % 4 == j && (4 * q + j) / 4 == q && (4 * q + j) / 16 == q / 4
  {
    Euclid(4 * q + j, 4, q, j);
    Euclid(4 * q + j, 16, q / 4, 4 * (q % 4) + j);
  }

  lemma DatumRow(x: seq<bv32>, q: nat, i: nat, j: nat)
    requires |x| == 16 && j < 4 && i == 4 * q
    ensures var t := TableRow(q);
      Datum(x, i + j) ==
      Add(x[WordOf(i + j)], if j == 0 then t.0 else if j == 1 then t.1 else if j == 2 then t.2 else t.3)
  {
    hide Add, TableRow, WordOf;
    InRow(q, j);
  }

  /** MD5Transform: sixteen rows of four steps, with the message words and constants as the
      code lists them, and the final addition. */
  method Transform(buf: Regs, x: seq<bv32>) returns (r: Regs)
    requires |x| == 16
    ensures r == RfcCompress(buf, x)
  {
    hide Add, RfcSteps;
    Start(x, buf);
    r := Round0(buf, x, buf);
    r := Round1(r, x, buf);
    r := Round2(r, x, buf);
    r := Round3(r, x, buf);
    r := Regs(Add(buf.a, r.a), Add(buf.b, r.b), Add(buf.c, r.c), Add(buf.d, r.d));
  }

  lemma Start(x: seq<bv32>, buf: Regs)
    requires |x| == 16
    ensures RfcSteps(x, buf, 0, 0) == buf
  {
  }

  lemma Schedule0()
    ensures WordOf(0) == 0 && WordOf(1) == 1 && WordOf(2) == 2 && WordOf(3) == 3
    ensures WordOf(4) == 4 && WordOf(5) == 5 && WordOf(6) == 6 && WordOf(7) == 7
    ensures WordOf(8) == 8 && WordOf(9) == 9 && WordOf(10) == 10 && WordOf(11) == 11
    ensures WordOf(12) == 12 && WordOf(13) == 13 && WordOf(14) == 14 && WordOf(15) == 15
  {
  }

  method Round0(r0: Regs, x: seq<bv32>, ghost buf: Regs) returns (r: Regs)
    requires |x| == 16 && r0 == RfcSteps(x, buf, 0, 0)
    ensures r == RfcSteps(x, buf, 0, 16)
  {
    hide Four, Add, RfcSteps, WordOf;
    Schedule0();
    r := r0;
    r := Four(0, r, Add(x[0], 0xd76aa478), Add(x[1], 0xe8c7b756), Add(x[2], 0x242070db), Add(x[3], 0xc1bdceee));
    Row(x, buf, 0);
    r := Four(0, r, Add(x[4], 0xf57c0faf), Add(x[5], 0x4787c62a), Add(x[6], 0xa8304613), Add(x[7], 0xfd469501));
    Row(x, buf, 1);
    r := Four(0, r, Add(x[8], 0x698098d8), Add(x[9], 0x8b44f7af), Add(x[10], 0xffff5bb1), Add(x[11], 0x895cd7be));
    Row(x, buf, 2);
    r := Four(0, r, Add(x[12], 0x6b901122), Add(x[13], 0xfd987193), Add(x[14], 0xa679438e), Add(x[15], 0x49b40821));
    Row(x, buf, 3);
  }

  lemma Schedule1()
    ensures WordOf(16) == 1 && WordOf(17) == 6 && WordOf(18) == 11 && WordOf(19) == 0
    ensures WordOf(20) == 5 && WordOf(21) == 10 && WordOf(22) == 15 && WordOf(23) == 4
    ensures WordOf(24) == 9 && WordOf(25) == 14 && WordOf(26) == 3 && WordOf(27) == 8
    ensures WordOf(28) == 13 && WordOf(29) == 2 && WordOf(30) == 7 && WordOf(31) == 12
  {
  }

  method Round1(r0: Regs, x: seq<bv32>, ghost buf: Regs) returns (r: Regs)
    requires |x| == 16 && r0 == RfcSteps(x, buf, 0, 16)
    ensures r == RfcSteps(x, buf, 0, 32)
  {
    hide Four, Add, RfcSteps, WordOf;
    Schedule1();
    r := r0;
    r := Four(1, r, Add(x[1], 0xf61e2562), Add(x[6], 0xc040b340), Add(x[11], 0x265e5a51), Add(x[0], 0xe9b6c7aa));
    Row(x, buf, 4);
    r := Four(1, r, Add(x[5], 0xd62f105d), Add(x[10], 0x02441453), Add(x[15], 0xd8a1e681), Add(x[4], 0xe7d3fbc8));
    Row(x, buf, 5);
    r := Four(1, r, Add(x[9], 0x21e1cde6), Add(x[14], 0xc33707d6), Add(x[3], 0xf4d50d87), Add(x[8], 0x455a14ed));
    Row(x, buf, 6);
    r := Four(1, r, Add(x[13], 0xa9e3e905), Add(x[2], 0xfcefa3f8), Add(x[7], 0x676f02d9), Add(x[12], 0x8d2a4c8a));
    Row(x, buf, 7);
  }

  lemma Schedule2()
    ensures WordOf(32) == 5 && WordOf(33) == 8 && WordOf(34) == 11 && WordOf(35) == 14
    ensures WordOf(36) == 1 && WordOf(37) == 4 && WordOf(38) == 7 && WordOf(39) == 10
    ensures WordOf(40) == 13 && WordOf(41) == 0 && WordOf(42) == 3 && WordOf(43) == 6
    ensures WordOf(44) == 9 && WordOf(45) == 12 && WordOf(46) == 15 && WordOf(47) == 2
  {
  }

  method Round2(r0: Regs, x: seq<bv32>, ghost buf: Regs) returns (r: Regs)
    requires |x| == 16 && r0 == RfcSteps(x, buf, 0, 32)
    ensures r == RfcSteps(x, buf, 0, 48)
  {
    hide Four, Add, RfcSteps, WordOf;
    Schedule2();
    r := r0;
    r := Four(2, r, Add(x[5], 0xfffa3942), Add(x[8], 0x8771f681), Add(x[11], 0x6d9d6122), Add(x[14], 0xfde5380c));
    Row(x, buf, 8);
    r := Four(2, r, Add(x[1], 0xa4beea44), Add(x[4], 0x4bdecfa9), Add(x[7], 0xf6bb4b60), Add(x[10], 0xbebfbc70));
    Row(x, buf, 9);
    r := Four(2, r, Add(x[13], 0x289b7ec6), Add(x[0], 0xeaa127fa), Add(x[3], 0xd4ef3085), Add(x[6], 0x04881d05));
    Row(x, buf, 10);
    r := Four(2, r, Add(x[9], 0xd9d4d039), Add(x[12], 0xe6db99e5), Add(x[15], 0x1fa27cf8), Add(x[2], 0xc4ac5665));
    Row(x, buf, 11);
  }

  lemma Schedule3()
    ensures WordOf(48) == 0 && WordOf(49) == 7 && WordOf(50) == 14 && WordOf(51) == 5
    ensures WordOf(52) == 12 && WordOf(53) == 3 && WordOf(54) == 10 && WordOf(55) == 1
    ensures WordOf(56) == 8 && WordOf(57) == 15 && WordOf(58) == 6 && WordOf(59) == 13
    ensures WordOf(60) == 4 && WordOf(61) == 11 && WordOf(62) == 2 && WordOf(63) == 9
  {
  }

  method Round3(r0: Regs, x: seq<bv32>, ghost buf: Regs) returns (r: Regs)
    requires |x| == 16 && r0 == RfcSteps(x, buf, 0, 48)
    ensures r == RfcSteps(x, buf, 0, 64)
  {
    hide Four, Add, RfcSteps, WordOf;
    Schedule3();
    r := r0;
    r := Four(3, r, Add(x[0], 0xf4292244), Add(x[7], 0x432aff97), Add(x[14], 0xab9423a7), Add(x[5], 0xfc93a039));
    Row(x, buf, 12);
    r := Four(3, r, Add(x[12], 0x655b59c3), Add(x[3], 0x8f0ccc92), Add(x[10], 0xffeff47d), Add(x[1], 0x85845dd1));
    Row(x, buf, 13);
    r := Four(3, r, Add(x[8], 0x6fa87e4f), Add(x[15], 0xfe2ce6e0), Add(x[6], 0xa3014314), Add(x[13], 0x4e0811a1));
    Row(x, buf, 14);
    r := Four(3, r, Add(x[4], 0xf7537e82), Add(x[11], 0xbd3af235), Add(x[2], 0x2ad7d2bb), Add(x[9], 0xeb86d391));
    Row(x, buf, 15);
  }

  /** All 64 steps of section 3.4, added to the registers they started from. */
  function RfcCompress(buf: Regs, x: seq<bv32>): Regs
    requires |x| == 16
  {
    var r := RfcSteps(x, buf, 0, 64);
    Regs(Add(buf.a, r.a), Add(buf.b, r.b), Add(buf.c, r.c), Add(buf.d, r.d))
  }

  /** Row `q` of the code takes the registers four steps on. */
  lemma Row(x: seq<bv32>, buf: Regs, q: nat)
    requires |x| == 16 && q < 16
    ensures var t := TableRow(q);
            Four(q / 4, RfcSteps(x, buf, 0, 4 * q), Add(x[WordOf(4 * q)], t.0), Add(x[WordOf(4 * q + 1)], t.1),
                 Add(x[WordOf(4 * q + 2)], t.2), Add(x[WordOf(4 * q + 3)], t.3))
            == RfcSteps(x, buf, 0, 4 * q + 4)
  {
    hide Four, Add, RfcSteps, TableRow, WordOf, Datum;
    var i := 4 * q;
    DatumRow(x, q, i, 0);
    DatumRow(x, q, i, 1);
    DatumRow(x, q, i, 2);
    DatumRow(x, q, i, 3);
    RowRound(q, i);
    FourIsSteps(x, RfcSteps(x, buf, 0, i), q, i);
    StepsCompose(x, buf, i, 4);
  }

  lemma RowRound(q: nat, i: nat)
    requires i == 4 * q
    ensures i / 16 == q / 4
  {
    InRow(q, 0);
  }

  lemma {:induction false} StepsCompose(x: seq<bv32>, r: Regs, i: nat, n: nat)
    requires |x| == 16
    ensures RfcSteps(x, RfcSteps(x, r, 0, i), i, n) == RfcSteps(x, r, 0, i + n)
    decreases n
  {
    hide RfcStep;
    if n > 0 {
      StepsCompose(x, r, i, n - 1);
    }
  }

  // ----- as the compression function of the streaming context -----

  function ToBits(w: Md5.word): bv32 {
    w as bv32
  }

  function ToRegs(w: Md5.Words): Regs {
    Regs(ToBits(w.a), ToBits(w.b), ToBits(w.c), ToBits(w.d))
  }

  function ToWord(x: bv32): Md5.word {
    x as Md5.word
  }

  function FromRegs(r: Regs): Md5.Words {
    Md5.Words(ToWord(r.a), ToWord(r.b), ToWord(r.c), ToWord(r.d))
  }

  /** The sixteen words of a block, low-order byte first. */
  function LoadWords(block: seq<byte>): (x: seq<bv32>)
    requires |block| == 64
    ensures |x| == 16
  {
    seq(16, i requires 0 <= i < 16 => LoadWord(block[4 * i], block[4 * i + 1], block[4 * i + 2], block[4 * i + 3]))
  }

  function LoadWord(b0: nat, b1: nat, b2: nat, b3: nat): bv32
    requires b0 < 256 && b1 < 256 && b2 < 256 && b3 < 256
  {
    ToBits(b0 + 0x100 * b1 + 0x1_0000 * b2 + 0x100_0000 * b3)
  }

  /** Word i of a block is what its bytes 4i to 4i+3 stand for, low-order byte first. */
  lemma WordsWeigh(block: seq<byte>, i: nat)
    requires |block| == 64 && i < 16
    ensures var n := Md5.Weighed(block[4 * i..4 * i + 4]);
      n < 0x1_0000_0000 && LoadWords(block)[i] == ToBits(n)
  {
    hide Md5.Weighed, ToBits;
    Md5.WeighedFour(block[4 * i..4 * i + 4]);
  }

  /** The compression function of RFC 1321; with it, `Md5.Digest` is MD5. */
  function Rfc1321(st: Md5.Words, block: seq<byte>): Md5.Words {
    if |block| == 64 then FromRegs(RfcCompress(ToRegs(st), LoadWords(block))) else st
  }

  /** MD5Transform on a buffered block, on a little-endian machine. */
  method CompressBlock(st: Md5.Words, block: seq<byte>) returns (r: Md5.Words)
    requires |block| == 64
    ensures r == Rfc1321(st, block)
  {
    hide RfcCompress;
    var regs := Transform(ToRegs(st), LoadWords(block));
    r := FromRegs(regs);
  }
}
