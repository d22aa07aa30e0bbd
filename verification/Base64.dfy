/** base64_encode of lib/common.c against section 4 of RFC 4648. */
module Base64 {
  import opened Common

  type sextet = x: nat | x < 64

  // ----- section 4 of RFC 4648 -----

  /** Table 1, which is also the string `b64` of the code. */
  function Char64(i: sextet): char {
    if i < 26 then 'A' + i as char
    else if i < 52 then 'a' + (i - 26) as char
    else if i < 62 then '0' + (i - 52) as char
    else if i == 62 then '+' else '/'
  }

  function Value64(c: char): sextet {
    if 'A' <= c <= 'Z' then (c - 'A') as nat
    else if 'a' <= c <= 'z' then (c - 'a') as nat + 26
    else if '0' <= c <= '9' then (c - '0') as nat + 52
    else if c == '+' then 62 else 63
  }

  /** The four sextets of three bytes. */
  function Six0(a: nat): sextet
    requires a < 256
  {
    a / 4
  }

  function Six1(a: nat, b: nat): sextet
    requires a < 256 && b < 256
  {
    a % 4 * 16 + b / 16
  }

  function Six2(b: nat, c: nat): sextet
    requires b < 256 && c < 256
  {
    b % 16 * 4 + c / 64
  }

  function Six3(c: nat): sextet { c % 64 }

  /** Groups of 24 bits as four sextets; a final group of one or two bytes is filled up with
      zero bits to two or three. */
  function Sextets(s: seq<byte>): (r: seq<sextet>)
    ensures |r| == (8 * |s| + 5) / 6
  {
    if |s| == 0 then []
    else if |s| == 1 then [Six0(s[0]), Six1(s[0], 0)]
    else if |s| == 2 then [Six0(s[0]), Six1(s[0], s[1]), Six2(s[1], 0)]
    else [Six0(s[0]), Six1(s[0], s[1]), Six2(s[1], s[2]), Six3(s[2])] + Sextets(s[3..])
  }

  function Chars(r: seq<sextet>): (t: string)
    ensures |t| == |r|
  {
    seq(|r|, i requires 0 <= i < |r| => Char64(r[i]))
  }

  function Fill(n: nat): string {
    seq((3 * n) % 4, _ => '=')
  }

  /** The encoding, padded to a multiple of four characters when asked. */
  function Encode(s: seq<byte>, pad: bool): string {
    Chars(Sextets(s)) + if pad then Fill(|Sextets(s)|) else []
  }

  const UPPER: string := "ABCDEFGHIJKLMNOPQRSTUVWXYZ"
  const LOWER: string := "abcdefghijklmnopqrstuvwxyz"

  /** The characters are those of table 1 of RFC 4648, in its order. */
  lemma Alphabet(i: sextet)
    ensures Char64(i) == (UPPER + LOWER + "0123456789+/")[i]
  {
    if i < 26 {
      UpperCase(i);
    } else if i < 52 {
      LowerCase(i - 26);
    }
  }

  lemma UpperCase(i: nat)
    requires i < 26
    ensures UPPER[i] == 'A' + i as char
  {
  }

  lemma LowerCase(i: nat)
    requires i < 26
    ensures LOWER[i] == 'a' + i as char
  {
  }

  /** The 24-bit numbers that four sextets and three bytes stand for, high-order bits first. */
  function Quad(a: nat, b: nat, c: nat, d: nat): nat { 0x4_0000 * a + 0x1000 * b + 0x40 * c + d }
  function Triple(a: nat, b: nat, c: nat): nat { 0x1_0000 * a + 0x100 * b + c }

  /** Each group of three bytes is the same number as its four sextets; in a last group of one or two
      bytes, both the missing bytes and the missing sextets count as zero. */
  lemma {:induction false} GroupsAreNumbers(s: seq<byte>, g: nat)
    requires 3 * g < |s|
    ensures var n, r, i, j := |s| - 3 * g, Sextets(s), 3 * g, 4 * g;
      if n == 1 then |r| == j + 2 && Quad(r[j], r[j + 1], 0, 0) == Triple(s[i], 0, 0)
      else if n == 2 then |r| == j + 3 && Quad(r[j], r[j + 1], r[j + 2], 0) == Triple(s[i], s[i + 1], 0)
      else |r| >= j + 4 && Quad(r[j], r[j + 1], r[j + 2], r[j + 3]) == Triple(s[i], s[i + 1], s[i + 2])
    decreases g
  {
    if g > 0 {
      FirstGroup(s);
      hide Sextets, Quad, Triple, Six0, Six1, Six2, Six3;
      GroupsAreNumbers(s[3..], g - 1);
    } else {
      FirstNumber(s);
    }
  }

  lemma FirstNumber(s: seq<byte>)
    requires s != []
    ensures var r := Sextets(s);
      if |s| == 1 then |r| == 2 && Quad(r[0], r[1], 0, 0) == Triple(s[0], 0, 0)
      else if |s| == 2 then |r| == 3 && Quad(r[0], r[1], r[2], 0) == Triple(s[0], s[1], 0)
      else |r| >= 4 && Quad(r[0], r[1], r[2], r[3]) == Triple(s[0], s[1], s[2])
  {
    hide Quad, Triple, Six0, Six1, Six2, Six3;
    OneGroup(s[0], if |s| > 1 then s[1] else 0, if |s| > 2 then s[2] else 0);
  }

  lemma OneGroup(a: byte, b: byte, c: byte)
    ensures Quad(Six0(a), Six1(a, b), Six2(b, c), Six3(c)) == Triple(a, b, c)
    ensures Quad(Six0(a), Six1(a, b), Six2(b, 0), 0) == Triple(a, b, 0)
    ensures Quad(Six0(a), Six1(a, 0), 0, 0) == Triple(a, 0, 0)
  {
  }

  /** The padded encoding takes four characters for every three bytes begun. */
  lemma PaddedLength(s: seq<byte>)
    ensures |Encode(s, true)| == 4 * ((|s| + 2) / 3)
    ensures |Encode(s, false)| <= |Encode(s, true)| && Encode(s, true)[..|Encode(s, false)|] == Encode(s, false)
    ensures forall i :: |Encode(s, false)| <= i < |Encode(s, true)| ==> Encode(s, true)[i] == '='
  {
    var q, k := |s| / 3, |s| % 3;
    assert |s| == 3 * q + k;
    var n := (8 * |s| + 5) / 6;
    assert n == 4 * q + if k == 0 then 0 else k + 1;
    assert 3 * n % 4 == if k == 0 then 0 else 3 - k;
  }

  /** The three bytes of four sextets. */
  function Byte0(a: nat, b: nat): byte
    requires a < 64 && b < 64
  {
    a * 4 + b / 16
  }

  function Byte1(b: nat, c: nat): byte
    requires b < 64 && c < 64
  {
    b % 16 * 16 + c / 4
  }

  function Byte2(c: nat, d: nat): byte
    requires c < 64 && d < 64
  {
    c % 4 * 64 + d
  }

  /** The reference decoder. */
  function Bytes(r: seq<sextet>): seq<byte> {
    if |r| < 2 then []
    else if |r| == 2 then [Byte0(r[0], r[1])]
    else if |r| == 3 then [Byte0(r[0], r[1]), Byte1(r[1], r[2])]
    else [Byte0(r[0], r[1]), Byte1(r[1], r[2]), Byte2(r[2], r[3])] + Bytes(r[4..])
  }

  function Values(t: string): seq<sextet> {
    seq(|t|, i requires 0 <= i < |t| => Value64(t[i]))
  }

  /** Decoding reads the characters before the first '='. */
  function Stem(t: string): string {
    if t == [] || t[0] == '=' then [] else [t[0]] + Stem(t[1..])
  }

  function DecodeText(t: string): seq<byte> { Bytes(Values(Stem(t))) }

  // ----- the encoding can be undone -----

  lemma Regroup(a: byte, b: byte, c: byte)
    ensures Byte0(Six0(a), Six1(a, b)) == a
    ensures Byte1(Six1(a, b), Six2(b, c)) == b
    ensures Byte2(Six2(b, c), Six3(c)) == c
  {
  }

  lemma {:induction false} BytesOfSextets(s: seq<byte>)
    ensures Bytes(Sextets(s)) == s
  {
    hide Byte0, Byte1, Byte2, Six0, Six1, Six2, Six3;
    if s != [] {
      Regroup(s[0], if |s| > 1 then s[1] else 0, if |s| > 2 then s[2] else 0);
    }
    if |s| >= 3 {
      BytesOfSextets(s[3..]);
      var r := Sextets(s);
      assert |r| >= 4 && r[4..] == Sextets(s[3..]);
      assert s == [s[0], s[1], s[2]] + s[3..];
    }
  }

  lemma ValueOfChar(i: sextet)
    ensures Value64(Char64(i)) == i && Char64(i) != '=' && Char64(i) != '.'
    ensures Char64(i) == '/' <==> i == 63
    ensures Char64(i) == '+' <==> i == 62
  {
  }

  lemma {:induction false} StemOfChars(r: seq<sextet>, tail: string)
    requires tail == [] || tail[0] == '='
    ensures Stem(Chars(r) + tail) == Chars(r)
  {
    if r == [] {
      assert Chars(r) + tail == tail;
    } else {
      ValueOfChar(r[0]);
      assert Chars(r) == [Char64(r[0])] + Chars(r[1..]);
      assert (Chars(r) + tail)[1..] == Chars(r[1..]) + tail;
      StemOfChars(r[1..], tail);
    }
  }

  /** The decoder recovers every input, padded or not. */
  lemma RoundTrip(s: seq<byte>, pad: bool)
    ensures DecodeText(Encode(s, pad)) == s
  {
    var r := Sextets(s);
    var tail := if pad then Fill(|r|) else [];
    StemOfChars(r, tail);
    forall i | 0 <= i < |r| ensures Value64(Chars(r)[i]) == r[i] {
      ValueOfChar(r[i]);
    }
    assert Values(Chars(r)) == r;
    BytesOfSextets(s);
  }

  /** So two inputs with the same encoding are the same, padded or not. */
  lemma Injective(s: seq<byte>, s': seq<byte>, pad: bool, pad': bool)
    requires Encode(s, pad) == Encode(s', pad')
    ensures s == s'
  {
    RoundTrip(s, pad);
    RoundTrip(s', pad');
  }

  /** Digits and underscore, the bytes a file name is made of. */
  predicate NameByte(b: byte) { 48 <= b <= 57 || b == 95 }

  lemma {:induction false} PlainSextets(s: seq<byte>)
    requires forall i :: 0 <= i < |s| ==> NameByte(s[i])
    ensures forall i :: 0 <= i < |Sextets(s)| ==> Sextets(s)[i] < 62
  {
    if |s| >= 3 {
      FirstGroup(s);
      hide Sextets, Six0, Six1, Six2, Six3;
      PlainGroup(s[0], s[1], s[2]);
      PlainSextets(s[3..]);
    } else if |s| == 2 {
      PlainGroup(s[0], s[1], 48);
    } else if |s| == 1 {
      PlainGroup(s[0], 48, 48);
    }
  }

  lemma PlainGroup(a: byte, b: byte, c: byte)
    requires NameByte(a) && NameByte(b) && NameByte(c)
    ensures Six0(a) < 62 && Six1(a, b) < 62 && Six2(b, c) < 62 && Six3(c) < 62
    ensures Six1(a, 0) < 62 && Six2(b, 0) < 62
  {
  }

  /** Inputs made of digits and underscores encode without '/' , '+' or '.'. */
  lemma PlainEncoding(s: seq<byte>)
    requires forall i :: 0 <= i < |s| ==> NameByte(s[i])
    ensures forall c :: c in Encode(s, false) ==> c != '/' && c != '+' && c != '.'
  {
    PlainSextets(s);
    forall i | 0 <= i < |Sextets(s)| ensures var c := Chars(Sextets(s))[i]; c != '/' && c != '+' && c != '.' {
      ValueOfChar(Sextets(s)[i]);
    }
  }

  // ----- the code -----

  /** Bitwise or. */
  function BitOr(a: nat, b: nat): nat
    decreases a + b
  {
    if a == 0 && b == 0 then 0
    else (if a % 2 == 1 || b % 2 == 1 then 1 else 0) + 2 * BitOr(a / 2, b / 2)
  }

  lemma {:induction false} OrZero(a: nat)
    ensures BitOr(a, 0) == a
  {
    if a > 0 {
      OrZero(a / 2);
    }
  }

  lemma OrTwoBits(a: nat, b: nat)
    requires b < 4
    ensures BitOr(4 * a, b) == 4 * a + b
  {
    OrZero(a);
    assert 4 * a / 2 == 2 * a && 2 * a / 2 == a;
    assert BitOr(2 * a, b / 2) == 2 * a + b / 2 by { assert b / 2 / 2 == 0; }
  }

  lemma OrFourBits(a: nat, b: nat)
    requires b < 16
    ensures BitOr(16 * a, b) == 16 * a + b
  {
    OrTwoBits(a, b / 4);
    assert BitOr(8 * a, b / 2) == 8 * a + b / 2 by {
      assert 8 * a / 2 == 4 * a && b / 2 / 2 == b / 4;
    }
    assert 16 * a / 2 == 8 * a;
  }

  /** The index the code computes for output character `i`: shifts are divisions and products by
      powers of two, the mask 0x3F is the remainder by 64. */
  function Index(d: seq<byte>, i: nat): (idx: nat)
    requires i < (|d| * 8 + 5) / 6
  {
    var byteOffset, bitOffset := i * 6 / 8, i * 6 % 8;
    var b: nat := d[byteOffset];
    if bitOffset < 3 then (if bitOffset == 0 then b / 4 else b) % 64
    else
      var idx := (if bitOffset == 4 then b * 4 else b * 16) % 64;
      if byteOffset + 1 < |d| then
        var next: nat := d[byteOffset + 1];
        BitOr(idx, if bitOffset == 4 then next / 64 else next / 16)
      else idx
  }

  lemma Offsets(i: nat)
    ensures (i + 4) * 6 / 8 == i * 6 / 8 + 3 && (i + 4) * 6 % 8 == i * 6 % 8
  {
  }

  lemma {:induction false} IndexIsSextet(d: seq<byte>, i: nat)
    requires i < (|d| * 8 + 5) / 6
    ensures Index(d, i) == Sextets(d)[i]
    decreases i
  {
    if i >= 4 {
      IndexIsSextet(d[3..], i - 4);
      IndexShift(d, i);
      LaterSextets(d, i);
    } else {
      IndexInGroup(d, i);
    }
  }

  /** A group further on is read at the same bit offsets. */
  lemma IndexShift(d: seq<byte>, i: nat)
    requires 4 <= i < (|d| * 8 + 5) / 6
    ensures Index(d, i) == Index(d[3..], i - 4)
  {
    Offsets(i - 4);
    hide BitOr;
    var k := (i - 4) * 6 / 8;
    assert d[k + 3] == d[3..][k];
    assert k + 4 < |d| ==> d[k + 4] == d[3..][k + 1];
  }

  lemma LaterSextets(d: seq<byte>, i: nat)
    requires 4 <= i < (|d| * 8 + 5) / 6
    ensures Sextets(d)[i] == Sextets(d[3..])[i - 4]
  {
    hide Sextets, Six0, Six1, Six2, Six3;
    FirstGroup(d);
  }

  lemma FirstGroup(d: seq<byte>)
    requires |d| >= 3
    ensures Sextets(d) == [Six0(d[0]), Six1(d[0], d[1]), Six2(d[1], d[2]), Six3(d[2])] + Sextets(d[3..])
  {
  }

  lemma IndexInGroup(d: seq<byte>, i: nat)
    requires i < 4 && i < (|d| * 8 + 5) / 6
    ensures Index(d, i) == Sextets(d)[i]
  {
    FirstSextets(d);
    hide Index, Sextets, Six0, Six1, Six2, Six3;
    if i == 0 {
      Index0(d);
    } else if i == 1 {
      Index1(d);
    } else if i == 2 {
      Index2(d);
    } else {
      Index3(d);
    }
  }

  lemma FirstSextets(d: seq<byte>)
    requires d != []
    ensures var r := Sextets(d);
            && |r| >= 2 && r[0] == Six0(d[0]) && r[1] == Six1(d[0], if |d| > 1 then d[1] else 0)
            && (|d| > 1 ==> |r| >= 3 && r[2] == Six2(d[1], if |d| > 2 then d[2] else 0))
            && (|d| > 2 ==> |r| >= 4 && r[3] == Six3(d[2]))
  {
    hide Six0, Six1, Six2, Six3;
  }

  lemma Index0(d: seq<byte>)
    requires d != []
    ensures Index(d, 0) == Six0(d[0])
  {
  }

  lemma Index1(d: seq<byte>)
    requires d != []
    ensures Index(d, 1) == Six1(d[0], if |d| > 1 then d[1] else 0)
  {
    hide BitOr;
    ShiftFour(d[0]);
    if |d| > 1 {
      OrFourBits(d[0] % 4, d[1] / 16);
    }
  }

  lemma Index2(d: seq<byte>)
    requires |d| > 1
    ensures Index(d, 2) == Six2(d[1], if |d| > 2 then d[2] else 0)
  {
    hide BitOr;
    ShiftTwo(d[1]);
    if |d| > 2 {
      OrTwoBits(d[1] % 16, d[2] / 64);
    }
  }

  lemma Index3(d: seq<byte>)
    requires |d| > 2
    ensures Index(d, 3) == Six3(d[2])
  {
  }

  lemma ShiftFour(b: nat)
    ensures b * 16 % 64 == 16 * (b % 4)
  {
    var q := b / 4;
    assert b * 16 == 64 * q + 16 * (b % 4);
  }

  lemma ShiftTwo(b: nat)
    ensures b * 4 % 64 == 4 * (b % 16)
  {
    var q := b / 16;
    assert b * 4 == 64 * q + 4 * (b % 16);
  }

  /** `base64_encode`: fills the caller's buffer with the encoding and a terminating zero. */
  method Base64Encode(buf: seq<byte>, out: array<char>, pad: bool) returns (n: nat)
    requires |Encode(buf, pad)| < out.Length
    modifies out
    ensures n == |Encode(buf, pad)| && out[..n] == Encode(buf, pad) && out[n] == '\0'
    ensures out[n + 1..] == old(out[n + 1..])
  {
    n := EncodeChars(buf, out);
    if pad {
      n := PadOut(out, n);
    }
    out[n] := '\0';
  }

  /** The character loop. */
  method EncodeChars(buf: seq<byte>, out: array<char>) returns (n: nat)
    requires |Sextets(buf)| < out.Length
    modifies out
    ensures n == |Sextets(buf)| && out[..] == Chars(Sextets(buf)) + old(out[n..])
  {
    n := (|buf| * 8 + 5) / 6;
    ghost var r := Sextets(buf);
    hide Sextets, Index, Char64;
    for i := 0 to n
      invariant forall j :: 0 <= j < i ==> out[j] == Char64(r[j])
      invariant forall j :: i <= j < out.Length ==> out[j] == old(out[j])
    {
      IndexIsSextet(buf, i);
      out[i] := Char64(Index(buf, i));
    }
  }

  /** The padding loop. */
  method PadOut(out: array<char>, at: nat) returns (n: nat)
    requires at + |Fill(at)| < out.Length
    modifies out
    ensures n == at + |Fill(at)| && out[..] == old(out[..at]) + Fill(at) + old(out[n..])
  {
    n := at;
    FillSteps(at);
    while n % 4 != 0
      invariant at <= n <= at + |Fill(at)|
      invariant forall j :: at <= j < n ==> out[j] == '='
      invariant forall j :: 0 <= j < at || n <= j < out.Length ==> out[j] == old(out[j])
      decreases at + |Fill(at)| - n
    {
      FillStop(at, n);
      out[n] := '=';
      n := n + 1;
    }
    FillStop(at, n);
  }

  /** A multiple of four is reached first at the end of the padding. */
  lemma FillStop(at: nat, n: nat)
    requires at <= n <= at + |Fill(at)|
    ensures n % 4 == 0 <==> n == at + |Fill(at)|
  {
    assert |Fill(at)| == 3 * at % 4;
    var q, k := at / 4, at % 4;
    assert at == 4 * q + k && 3 * at % 4 == 3 * k % 4;
  }

  lemma FillSteps(n: nat)
    ensures (n + 3 * n % 4) % 4 == 0
  {
  }
}
