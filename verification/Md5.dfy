/** The streaming MD5 of lib/md5.c against RFC 1321, and HMAC-MD5 against RFC 2104. The
    compression function is a parameter: the results hold whatever it computes. */
module Md5 {
  import opened Common

  const W32: nat := 0x1_0000_0000
  const W64: nat := 0x1_0000_0000_0000_0000

  type word = x: nat | x < W32

  /** The chaining value A, B, C, D. */
  datatype Words = Words(a: word, b: word, c: word, d: word)

  type Compression = (Words, seq<byte>) -> Words

  /** Section 3.3 of RFC 1321. */
  const INITIAL := Words(0x67452301, 0xefcdab89, 0x98badcfe, 0x10325476)

  // ----- the specification -----

  /** Compressing the complete 64-byte blocks of `m` in order. */
  function Fold(f: Compression, st: Words, m: seq<byte>): Words
    decreases |m|
  {
    if |m| < 64 then st else Fold(f, f(st, m[..64]), m[64..])
  }

  /** The number that bytes stand for, the first having the lowest weight. */
  function Weighed(s: seq<byte>): nat {
    if s == [] then 0 else s[0] as nat + 0x100 * Weighed(s[1..])
  }

  function FourBytes(b0: nat, b1: nat, b2: nat, b3: nat): nat {
    b0 + 0x100 * b1 + 0x1_0000 * b2 + 0x100_0000 * b3
  }

  lemma WeighedFour(s: seq<byte>)
    requires |s| == 4
    ensures Weighed(s) == FourBytes(s[0], s[1], s[2], s[3])
  {
    assert Weighed(s[3..]) == s[3] as nat by { assert s[3..][1..] == []; }
    assert Weighed(s[2..]) == s[2] as nat + 0x100 * Weighed(s[3..]) by { assert s[2..][1..] == s[3..]; }
    assert Weighed(s[1..]) == s[1] as nat + 0x100 * Weighed(s[2..]) by { assert s[1..][1..] == s[2..]; }
  }

  lemma BytesOf(w: word)
    ensures FourBytes(w % 256, w / 0x100 % 256, w / 0x1_0000 % 256, w / 0x100_0000) == w
  {
    var a := w / 256;
    var b := a / 256;
    assert w / 0x1_0000 == b by { Euclid(w, 0x1_0000, b, 0x100 * (a % 256) + w % 256); }
    assert w / 0x100_0000 == b / 256 by { Euclid(w, 0x100_0000, b / 256, 0x1_0000 * (b % 256) + w % 0x1_0000); }
  }

  /** A word as four bytes, low-order byte first. */
  function Low4(w: word): (s: seq<byte>)
    ensures |s| == 4
  {
    [w % 256, w / 0x100 % 256, w / 0x1_0000 % 256, w / 0x100_0000]
  }

  lemma Low4Weighs(w: word)
    ensures Weighed(Low4(w)) == w
  {
    BytesOf(w);
    WeighedFour(Low4(w));
  }

  /** The bit length as two words, low-order word first, modulo 2^64. */
  function LengthField(n: nat): (s: seq<byte>)
    ensures |s| == 8
  {
    var bits := 8 * n % W64;
    Low4(bits % W32) + Low4(bits / W32)
  }

  /** Sections 3.1 and 3.2 of RFC 1321 for a message of `n` bytes: one bit, zeros up to 56 bytes
      modulo 64, and the length. */
  function Padding(n: nat): (s: seq<byte>)
    ensures 9 <= |s| <= 72 && (n + |s|) % 64 == 0
  {
    hide LengthField;
    PaddedLength(n);
    [0x80] + Zeros((55 - n) % 64) + LengthField(n)
  }

  lemma PaddedLength(n: nat)
    ensures (n + (1 + (55 - n) % 64 + 8)) % 64 == 0
  {
    var z := (55 - n) % 64;
    var q := (55 - n) / 64;
    assert 55 - n == 64 * q + z;
    Euclid(n + (9 + z), 64, 1 - q, 0);
  }

  function DigestBytes(st: Words): (s: seq<byte>)
    ensures |s| == 16
  {
    Low4(st.a) + Low4(st.b) + Low4(st.c) + Low4(st.d)
  }

  function Digest(f: Compression, m: seq<byte>): (s: seq<byte>)
    ensures |s| == 16
  {
    DigestBytes(Fold(f, INITIAL, m + Padding(|m|)))
  }

  /** The eight bytes of the length field stand for the bit length modulo 2^64. */
  lemma LengthWeighs(n: nat)
    ensures Weighed(LengthField(n)) == 8 * n % W64
  {
    var bits := 8 * n % W64;
    var lo, hi := Low4(bits % W32), Low4(bits / W32);
    hide Low4, Weighed;
    Low4Weighs(bits % W32);
    Low4Weighs(bits / W32);
    WeighedConcat(lo, hi);
  }

  lemma {:induction false} WeighedConcat(a: seq<byte>, b: seq<byte>)
    requires |a| == 4
    ensures Weighed(a + b) == Weighed(a) + W32 * Weighed(b)
  {
    WeighedFour(a);
    var s := a + b;
    assert Weighed(s[3..]) == a[3] as nat + 0x100 * Weighed(b) by { assert s[3..][1..] == b; }
    assert Weighed(s[2..]) == a[2] as nat + 0x100 * Weighed(s[3..]) by { assert s[2..][1..] == s[3..]; }
    assert Weighed(s[1..]) == a[1] as nat + 0x100 * Weighed(s[2..]) by { assert s[1..][1..] == s[2..]; }
  }

  lemma DigestParts(st: Words)
    ensures var d := DigestBytes(st);
      d[0..4] == Low4(st.a) && d[4..8] == Low4(st.b) && d[8..12] == Low4(st.c) && d[12..16] == Low4(st.d)
  {
    hide Low4;
  }

  /** The digest lists the four words of the last chaining value, each low-order byte first. */
  lemma DigestWords(f: Compression, m: seq<byte>)
    ensures var d, last := Digest(f, m), Fold(f, INITIAL, m + Padding(|m|));
      && Weighed(d[0..4]) == last.a && Weighed(d[4..8]) == last.b
      && Weighed(d[8..12]) == last.c && Weighed(d[12..16]) == last.d
  {
    var last := Fold(f, INITIAL, m + Padding(|m|));
    DigestParts(last);
    hide Fold, Padding, Weighed, Low4, DigestBytes;
    Low4Weighs(last.a);
    Low4Weighs(last.b);
    Low4Weighs(last.c);
    Low4Weighs(last.d);
  }

  /** The bytes after the last complete block. */
  function Tail(m: seq<byte>): (t: seq<byte>)
    ensures |t| == |m| % 64
  {
    m[|m| - |m| % 64..]
  }

  function Whole(m: seq<byte>): (w: seq<byte>)
    ensures |w| == |m| - |m| % 64
  {
    m[..|m| - |m| % 64]
  }

  // ----- blocks -----

  lemma {:induction false} FoldAppend(f: Compression, st: Words, m: seq<byte>, n: seq<byte>)
    requires |m| % 64 == 0
    ensures Fold(f, st, m + n) == Fold(f, Fold(f, st, m), n)
    decreases |m|
  {
    if m == [] {
      assert m + n == n;
    } else {
      assert (m + n)[..64] == m[..64] && (m + n)[64..] == m[64..] + n;
      FoldAppend(f, f(st, m[..64]), m[64..], n);
    }
  }

  lemma Lengths(n: nat, k: nat)
    requires n % 64 + k <= 64
    ensures (n - n % 64) % 64 == 0
    ensures (n + k) % 64 == if n % 64 + k == 64 then 0 else n % 64 + k
  {
    Euclid(n - n % 64, 64, n / 64, 0);
    if n % 64 + k == 64 {
      Euclid(n + k, 64, n / 64 + 1, 0);
    } else {
      Euclid(n + k, 64, n / 64, n % 64 + k);
    }
  }

  /** Only the complete blocks matter, and new bytes extend the tail. */
  lemma FoldSplit(f: Compression, st: Words, m: seq<byte>, d: seq<byte>)
    requires |Tail(m)| + |d| <= 64
    ensures Fold(f, st, m + d) == Fold(f, Fold(f, st, m), Tail(m) + d)
  {
    Lengths(|m|, |d|);
    FoldAppend(f, st, Whole(m), Tail(m));
    FoldAppend(f, st, Whole(m), Tail(m) + d);
    assert m == Whole(m) + Tail(m) && m + d == Whole(m) + (Tail(m) + d);
  }

  /** A block completed from the tail and new bytes is compressed once. */
  lemma FoldFill(f: Compression, st: Words, m: seq<byte>, d: seq<byte>)
    requires |Tail(m)| + |d| == 64
    ensures Fold(f, st, m + d) == f(Fold(f, st, m), Tail(m) + d) && Tail(m + d) == []
  {
    FoldSplit(f, st, m, d);
    Lengths(|m|, |d|);
    assert (Tail(m) + d)[..64] == Tail(m) + d;
  }

  lemma FoldTail(f: Compression, st: Words, m: seq<byte>, d: seq<byte>)
    requires |Tail(m)| + |d| < 64
    ensures Fold(f, st, m + d) == Fold(f, st, m) && Tail(m + d) == Tail(m) + d
  {
    FoldSplit(f, st, m, d);
    FoldShort(f, Fold(f, st, m), Tail(m) + d);
    hide Fold;
    Lengths(|m|, |d|);
    assert |m + d| - |m + d| % 64 == |m| - |m| % 64;
  }

  lemma FoldShort(f: Compression, st: Words, m: seq<byte>)
    requires |m| < 64
    ensures Fold(f, st, m) == st
  {
  }

  // ----- the bit counter -----

  /** Adding `len` bytes to a two-word bit counter as `MD5Update` does. */
  function AddLow(low: word, len: word): word { (low + len * 8 % W32) % W32 }

  function AddHigh(low: word, high: word, len: word): word {
    var carried := if AddLow(low, len) < low then (high + 1) % W32 else high;
    (carried + len / 0x2000_0000) % W32
  }

  predicate Counts(low: word, high: word, n: nat) {
    low + W32 * high == 8 * n % W64
  }

  lemma CounterStart()
    ensures Counts(0, 0, 0)
  {
  }

  /** The carry out of the low word is detected exactly, so the pair counts modulo 2^64. */
  lemma CounterAdds(low: word, high: word, n: nat, len: word)
    requires Counts(low, high, n)
    ensures Counts(AddLow(low, len), AddHigh(low, high, len), n + len)
  {
    var lo, hi := len * 8 % W32, len / 0x2000_0000;
    assert len * 8 == lo + W32 * hi;
    var carry := if low + lo >= W32 then 1 else 0;
    Carries(low, high, len);
    hide AddLow, AddHigh;
    var h := high + carry + hi;
    var q := 8 * n / W64;
    assert 8 * n == W64 * q + (low + W32 * high);
    var r := low + lo - W32 * carry + W32 * (h % W32);
    assert 8 * (n + len) == W64 * (q + h / W32) + r;
    Euclid(8 * (n + len), W64, q + h / W32, r);
  }

  lemma Carries(low: word, high: word, len: word)
    ensures var lo := len * 8 % W32; var carry := if low + lo >= W32 then 1 else 0;
      && AddLow(low, len) == low + lo - W32 * carry
      && AddHigh(low, high, len) == (high + carry + len / 0x2000_0000) % W32
  {
    var lo := len * 8 % W32;
    var carry := if low + lo >= W32 then 1 else 0;
    assert AddLow(low, len) == low + lo - W32 * carry;
    HighWord(high, carry, len / 0x2000_0000);
  }

  lemma HighWord(high: word, carry: nat, hi: nat)
    requires carry <= 1
    ensures ((high + carry) % W32 + hi) % W32 == (high + carry + hi) % W32
  {
  }

  lemma CounterTail(low: word, high: word, n: nat)
    requires Counts(low, high, n)
    ensures low / 8 % 64 == n % 64
    ensures low == 8 * n % W64 % W32 && high == 8 * n % W64 / W32
  {
    Euclid(8 * n % W64, W32, high, low);
    var q := 8 * n / W64;
    assert low == 8 * n - W64 * q - W32 * high;
    Euclid(low, 8, n - 0x2000_0000_0000_0000 * q - 0x2000_0000 * high, 0);
    Euclid(low / 8, 64, n / 64 - 0x80_0000_0000_0000 * q - 0x80_0000 * high, n % 64);
  }

  /** The zeros of the padding in the terms of `MD5Final`: up to 56 bytes into the current
      block when nine bytes fit, else to its end and 56 more. */
  lemma ZeroCount(n: nat)
    ensures var left := 63 - n % 64;
            Zeros((55 - n) % 64) == if left < 8 then Zeros(left) + Zeros(56) else Zeros(left - 8)
  {
    var left := 63 - n % 64;
    if left < 8 {
      Euclid(55 - n, 64, -(n / 64) - 1, left + 56);
    } else {
      Euclid(55 - n, 64, -(n / 64), left - 8);
    }
  }
}
