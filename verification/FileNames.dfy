/** The names get_local_filename (network/U/pfs_up_task.c) gives to stored files, and their
    reading back by get_dir1_dir2 (network/pfs_init.c). */
module FileNames {
  import opened Common
  import opened Base64

  const PIC_LIMIT: nat := 99999
  const NAME_MAX: nat := 255

  // ----- printf -----

  function Digit(d: nat): char
    requires d < 10
  {
    '0' + d as char
  }

  predicate IsDigit(c: char) { '0' <= c <= '9' }

  predicate AllDigits(s: string) { forall i :: 0 <= i < |s| ==> IsDigit(s[i]) }

  /** "%u" and, for the non-negative values it is given here, "%ld" and "%d". */
  function Dec(n: nat): (s: string)
    ensures |s| >= 1 && AllDigits(s)
  {
    if n < 10 then [Digit(n)] else Dec(n / 10) + [Digit(n % 10)]
  }

  function ZeroChars(n: nat): (s: string)
    ensures |s| == n && AllDigits(s)
  {
    seq(n, _ => '0')
  }

  /** "%04d". */
  function Dec4(n: nat): (s: string)
    ensures |s| >= 4 && AllDigits(s)
  {
    var s := Dec(n);
    if |s| >= 4 then s else ZeroChars(4 - |s|) + s
  }

  /** The value of a run of digits. */
  function Val(s: string): nat {
    if s == [] then 0
    else 10 * Val(s[..|s| - 1]) + if IsDigit(s[|s| - 1]) then (s[|s| - 1] - '0') as nat else 0
  }

  lemma {:induction false} ValDec(n: nat)
    ensures Val(Dec(n)) == n
  {
    var s := Dec(n);
    if n >= 10 {
      assert s[..|s| - 1] == Dec(n / 10);
      ValDec(n / 10);
    } else {
      assert s[..0] == [];
    }
  }

  lemma {:induction false} ValZeros(k: nat, s: string)
    ensures Val(ZeroChars(k) + s) == Val(s)
    decreases |s|, k
  {
    var t := ZeroChars(k) + s;
    if s != [] {
      assert t[..|t| - 1] == ZeroChars(k) + s[..|s| - 1];
      ValZeros(k, s[..|s| - 1]);
    } else if k > 0 {
      assert t[..k - 1] == ZeroChars(k - 1) + s;
      ValZeros(k - 1, s);
    }
  }

  lemma ValDec4(n: nat)
    ensures Val(Dec4(n)) == n
  {
    ValDec(n);
    ValZeros(if |Dec(n)| < 4 then 4 - |Dec(n)| else 0, Dec(n));
  }

  // ----- splitting at a separator -----

  /** Two texts that agree up to a separator neither part contains agree in both parts. */
  lemma SplitUnique(a: string, b: string, a': string, b': string, sep: char)
    requires sep !in a && sep !in a' && a + [sep] + b == a' + [sep] + b'
    ensures a == a' && b == b'
  {
    var t := a + [sep] + b;
    assert t[|a|] == sep && t[|a'|] == sep;
    assert forall i :: 0 <= i < |a| ==> t[i] == a[i] && t[i] != sep;
    assert forall i :: 0 <= i < |a'| ==> t[i] == a'[i] && t[i] != sep;
    assert |a| == |a'|;
    assert a == t[..|a|] == a';
    assert b == t[|a| + 1..] == b';
  }

  lemma DigitsAvoid(s: string, c: char)
    requires AllDigits(s) && !IsDigit(c)
    ensures c !in s
  {
  }

  // ----- names -----

  /** "%ld_%u_%04d" of the time, the server's address and the counter. */
  function RealFile(time: nat, ip: nat, index: nat): string {
    Dec(time) + "_" + (Dec(ip) + "_" + Dec4(index))
  }

  lemma RealFileUnique(time: nat, ip: nat, index: nat, time': nat, ip': nat, index': nat)
    requires RealFile(time, ip, index) == RealFile(time', ip', index')
    ensures time == time' && ip == ip' && index == index'
  {
    DigitsAvoid(Dec(time), '_');
    DigitsAvoid(Dec(time'), '_');
    DigitsAvoid(Dec(ip), '_');
    DigitsAvoid(Dec(ip'), '_');
    SplitUnique(Dec(time), Dec(ip) + "_" + Dec4(index), Dec(time'), Dec(ip') + "_" + Dec4(index'), '_');
    SplitUnique(Dec(ip), Dec4(index), Dec(ip'), Dec4(index'), '_');
    ValDec(time);
    ValDec(time');
    ValDec(ip);
    ValDec(ip');
    ValDec4(index);
    ValDec4(index');
  }

  function Ascii(s: string): seq<byte>
    requires forall i :: 0 <= i < |s| ==> s[i] < 128 as char
  {
    seq(|s|, i requires 0 <= i < |s| => s[i] as nat)
  }

  lemma RealFileAscii(time: nat, ip: nat, index: nat)
    ensures forall i :: 0 <= i < |RealFile(time, ip, index)| ==>
              IsDigit(RealFile(time, ip, index)[i]) || RealFile(time, ip, index)[i] == '_'
    ensures forall i :: 0 <= i < |RealFile(time, ip, index)| ==> RealFile(time, ip, index)[i] < 128 as char
  {
  }

  /** The base64 stem of a stored file's name. */
  function StemOf(time: nat, ip: nat, index: nat): string {
    RealFileAscii(time, ip, index);
    Encode(Ascii(RealFile(time, ip, index)), false)
  }

  lemma StemPlain(time: nat, ip: nat, index: nat)
    ensures '/' !in StemOf(time, ip, index) && '.' !in StemOf(time, ip, index)
  {
    RealFileAscii(time, ip, index);
    var s := Ascii(RealFile(time, ip, index));
    assert forall i :: 0 <= i < |s| ==> NameByte(s[i]);
    PlainEncoding(s);
  }

  lemma StemUnique(time: nat, ip: nat, index: nat, time': nat, ip': nat, index': nat)
    requires StemOf(time, ip, index) == StemOf(time', ip', index')
    ensures time == time' && ip == ip' && index == index'
  {
    RealFileAscii(time, ip, index);
    RealFileAscii(time', ip', index');
    var r, r' := RealFile(time, ip, index), RealFile(time', ip', index');
    Injective(Ascii(r), Ascii(r'), false, false);
    forall i | 0 <= i < |r| && i < |r'| ensures r[i] == r'[i] {
      assert Ascii(r)[i] == Ascii(r')[i];
    }
    assert |r| == |Ascii(r)| && |r'| == |Ascii(r')|;
    assert r == r';
    RealFileUnique(time, ip, index, time', ip', index');
  }

  lemma {:induction false} DecLeads(n: nat)
    ensures |Dec(n)| > 1 ==> Dec(n)[0] != '0'
  {
    if n >= 10 {
      DecLeads(n / 10);
      assert Dec(n)[0] == Dec(n / 10)[0];
    }
  }

  /** The stem is base64 of the time, the address and the counter in decimal, in this order, between
      underscores; only the counter has leading zeros, and only up to four digits. */
  lemma StemSpelled(time: nat, ip: nat, index: nat) returns (a: string, b: string, c: string)
    ensures AllDigits(a) && AllDigits(b) && AllDigits(c)
    ensures Val(a) == time && Val(b) == ip && Val(c) == index
    ensures (|a| > 1 ==> a[0] != '0') && (|b| > 1 ==> b[0] != '0') && |c| >= 4 && (|c| > 4 ==> c[0] != '0')
    ensures var t := a + "_" + b + "_" + c;
      (forall i :: 0 <= i < |t| ==> t[i] < 128 as char) && DecodeText(StemOf(time, ip, index)) == Ascii(t)
  {
    a, b, c := Dec(time), Dec(ip), Dec4(index);
    ValDec(time);
    ValDec(ip);
    ValDec4(index);
    DecLeads(time);
    DecLeads(ip);
    DecLeads(index);
    assert a + "_" + b + "_" + c == RealFile(time, ip, index);
    hide Dec, Dec4, Val, Encode, DecodeText;
    RealFileAscii(time, ip, index);
    RoundTrip(Ascii(RealFile(time, ip, index)), false);
  }

  /** What `strchr(filename, '.')` appends: the rest of the uploaded name from its first dot. */
  function Extension(filename: string): (e: string)
    ensures e == [] || e[0] == '.'
  {
    if filename == [] then [] else if filename[0] == '.' then filename else Extension(filename[1..])
  }

  /** The extension starts at the first dot: no dot comes before it. */
  lemma {:induction false} ExtensionFirstDot(f: string)
    ensures |Extension(f)| <= |f|
    ensures var p := f[..|f| - |Extension(f)|]; f == p + Extension(f) && '.' !in p
    decreases |f|
  {
    if f != [] && f[0] != '.' {
      ExtensionFirstDot(f[1..]);
      var k := |f| - |Extension(f)|;
      assert f[..k] == [f[0]] + f[1..][..k - 1];
    }
  }

  function Prefix(d1: nat, d2: nat): string { "/" + Dec(d1) + "/" + Dec(d2) + "/" }

  function Truncated(s: string): string { if |s| <= NAME_MAX then s else s[..NAME_MAX] }

  /** The stored name, cut to the size of its field. */
  function LocalName(time: nat, ip: nat, index: nat, d1: nat, d2: nat, filename: string): string {
    Truncated(Prefix(d1, d2) + StemOf(time, ip, index) + Extension(filename))
  }

  /** A name is the directories, the stem and the extension, or the first 255 characters of that. */
  lemma NameSpelled(time: nat, ip: nat, index: nat, d1: nat, d2: nat, filename: string)
    ensures var full := "/" + Dec(d1) + "/" + Dec(d2) + "/" + StemOf(time, ip, index) + Extension(filename);
      LocalName(time, ip, index, d1, d2, filename) == if |full| <= 255 then full else full[..255]
  {
    hide StemOf, Extension, Dec;
  }

  // ----- two names -----

  function Pow10(k: nat): nat { if k == 0 then 1 else 10 * Pow10(k - 1) }

  lemma {:induction false} DecLength(n: nat, k: nat)
    requires k >= 1 && n < Pow10(k)
    ensures |Dec(n)| <= k
  {
    if n >= 10 {
      DecLength(n / 10, k - 1);
    }
  }

  lemma PowerTable()
    ensures Pow10(5) == 100000 && Pow10(10) == 10000000000 && Pow10(20) == 100000000000000000000
  {
    assert Pow10(5) == 100000;
    assert Pow10(10) == 100000 * 100000;
    assert Pow10(15) == 1000000000000000;
    assert Pow10(20) == 100000 * Pow10(15);
  }

  predicate Width(time: nat, ip: nat, index: nat, d1: nat, d2: nat) {
    time < 0x8000_0000_0000_0000 && ip < 0x1_0000_0000 && index < PIC_LIMIT && d1 < 0x8000_0000 && d2 < 0x8000_0000
  }

  /** Whatever the values, directory and stem are within the field; only an extension is cut. */
  lemma StemFits(time: nat, ip: nat, index: nat, d1: nat, d2: nat)
    requires Width(time, ip, index, d1, d2)
    ensures |Prefix(d1, d2)| + |StemOf(time, ip, index)| <= 73
  {
    PowerTable();
    DecLength(time, 20);
    DecLength(ip, 10);
    DecLength(index, 5);
    DecLength(d1, 10);
    DecLength(d2, 10);
    RealFileAscii(time, ip, index);
    var s := Ascii(RealFile(time, ip, index));
    assert |s| <= 37;
    assert |Encode(s, false)| == (8 * |s| + 5) / 6;
  }

  /** The part of the extension that is kept. */
  function Kept(time: nat, ip: nat, index: nat, d1: nat, d2: nat, filename: string): (e: string)
    requires |Prefix(d1, d2)| + |StemOf(time, ip, index)| < NAME_MAX
    ensures e == [] || e[0] == '.'
    ensures LocalName(time, ip, index, d1, d2, filename) == Prefix(d1, d2) + (StemOf(time, ip, index) + e)
  {
    hide StemOf, Prefix, Extension;
    var e, room := Extension(filename), NAME_MAX - |Prefix(d1, d2)| - |StemOf(time, ip, index)|;
    CutAt(Prefix(d1, d2), StemOf(time, ip, index), e, room);
    if |e| <= room then e else e[..room]
  }

  lemma CutAt(a: string, b: string, e: string, room: nat)
    requires |a| + |b| + room == NAME_MAX
    ensures Truncated(a + b + e) == a + (b + if |e| <= room then e else e[..room])
  {
  }

  lemma BeforeDot(a: string, e: string, a': string, e': string)
    requires '.' !in a && '.' !in a' && (e == [] || e[0] == '.') && (e' == [] || e'[0] == '.')
    requires a + e == a' + e'
    ensures a == a' && e == e'
  {
    var t := a + e;
    assert forall i :: 0 <= i < |a| ==> t[i] == a[i] && t[i] != '.';
    assert forall i :: 0 <= i < |a'| ==> t[i] == a'[i] && t[i] != '.';
    assert e != [] ==> t[|a|] == '.';
    assert e' != [] ==> t[|a'|] == '.';
    assert |a| == |a'|;
    assert a == t[..|a|] && a' == t[..|a'|];
    assert e == t[|a|..] && e' == t[|a'|..];
  }

  lemma PrefixTail(d1: nat, d2: nat, r: string)
    ensures |Prefix(d1, d2)| > 0 && (Prefix(d1, d2) + r)[1..] == Dec(d1) + ['/'] + (Dec(d2) + ['/'] + r)
  {
    hide Dec;
  }

  lemma PrefixUnique(d1: nat, d2: nat, r: string, d1': nat, d2': nat, r': string)
    requires Prefix(d1, d2) + r == Prefix(d1', d2') + r'
    ensures d1 == d1' && d2 == d2' && r == r'
  {
    DigitsAvoid(Dec(d1), '/');
    DigitsAvoid(Dec(d1'), '/');
    DigitsAvoid(Dec(d2), '/');
    DigitsAvoid(Dec(d2'), '/');
    PrefixTail(d1, d2, r);
    PrefixTail(d1', d2', r');
    hide Prefix, Dec;
    SplitUnique(Dec(d1), Dec(d2) + ['/'] + r, Dec(d1'), Dec(d2') + ['/'] + r', '/');
    SplitUnique(Dec(d2), r, Dec(d2'), r', '/');
    ValDec(d1);
    ValDec(d1');
    ValDec(d2);
    ValDec(d2');
  }

  /** Equal names come from the same second, server, counter, directory and kept extension. */
  lemma NameUnique(time: nat, ip: nat, index: nat, d1: nat, d2: nat, f: string,
                   time': nat, ip': nat, index': nat, d1': nat, d2': nat, f': string)
    requires Width(time, ip, index, d1, d2) && Width(time', ip', index', d1', d2')
    requires LocalName(time, ip, index, d1, d2, f) == LocalName(time', ip', index', d1', d2', f')
    ensures time == time' && ip == ip' && index == index' && d1 == d1' && d2 == d2'
    ensures |Prefix(d1, d2)| + |StemOf(time, ip, index)| < NAME_MAX
    ensures Kept(time, ip, index, d1, d2, f) == Kept(time', ip', index', d1', d2', f')
  {
    StemFits(time, ip, index, d1, d2);
    StemFits(time', ip', index', d1', d2');
    hide StemOf, LocalName, Prefix;
    var e, e' := Kept(time, ip, index, d1, d2, f), Kept(time', ip', index', d1', d2', f');
    PrefixUnique(d1, d2, StemOf(time, ip, index) + e, d1', d2', StemOf(time', ip', index') + e');
    StemPlain(time, ip, index);
    StemPlain(time', ip', index');
    BeforeDot(StemOf(time, ip, index), e, StemOf(time', ip', index'), e');
    StemUnique(time, ip, index, time', ip', index');
  }

  // ----- the counter over a run of calls -----

  function NextIndex(index: nat): nat { if index + 1 >= PIC_LIMIT then 0 else index + 1 }

  /** The counter after `n` calls. */
  function IndexAfter(start: nat, n: nat): nat {
    if n == 0 then start else NextIndex(IndexAfter(start, n - 1))
  }

  lemma {:induction false} IndexCycles(start: nat, n: nat)
    requires start < PIC_LIMIT
    ensures IndexAfter(start, n) == (start + n) % PIC_LIMIT
  {
    if n > 0 {
      IndexCycles(start, n - 1);
      CycleStep(start + n - 1);
    }
  }

  lemma CycleStep(x: nat)
    ensures NextIndex(x % PIC_LIMIT) == (x + 1) % PIC_LIMIT
  {
    var q, r := x / PIC_LIMIT, x % PIC_LIMIT;
    assert x == PIC_LIMIT * q + r;
    if r + 1 == PIC_LIMIT {
      assert x + 1 == PIC_LIMIT * (q + 1);
    }
  }

  lemma SameResidue(x: nat, y: nat)
    requires x <= y
    ensures x % PIC_LIMIT == y % PIC_LIMIT <==> (y - x) % PIC_LIMIT == 0
  {
    var q, r, q', r' := x / PIC_LIMIT, x % PIC_LIMIT, y / PIC_LIMIT, y % PIC_LIMIT;
    assert y - x == PIC_LIMIT * (q' - q) + (r' - r);
  }

  /** One upload: the second it happens in, the directory allocated, the uploaded name. */
  datatype Upload = Upload(time: nat, d1: nat, d2: nat, filename: string)

  /** The name of the k-th upload of a run. */
  function NameOf(start: nat, ip: nat, us: seq<Upload>, k: nat): string
    requires k < |us|
  {
    LocalName(us[k].time, ip, IndexAfter(start, k), us[k].d1, us[k].d2, us[k].filename)
  }

  ghost predicate Legal(start: nat, ip: nat, us: seq<Upload>) {
    && start < PIC_LIMIT && ip < 0x1_0000_0000
    && forall i :: 0 <= i < |us| ==>
         us[i].time < 0x8000_0000_0000_0000 && us[i].d1 < 0x8000_0000 && us[i].d2 < 0x8000_0000
  }

  lemma SameIndex(start: nat, j: nat, k: nat)
    requires start < PIC_LIMIT && j <= k
    ensures IndexAfter(start, j) == IndexAfter(start, k) <==> (k - j) % PIC_LIMIT == 0
    ensures IndexAfter(start, j) < PIC_LIMIT && IndexAfter(start, k) < PIC_LIMIT
  {
    IndexCycles(start, j);
    IndexCycles(start, k);
    SameResidue(start + j, start + k);
  }

  ghost predicate SameTick(us: seq<Upload>, j: nat, k: nat)
    requires j < k < |us|
  {
    us[j].time == us[k].time && (k - j) % PIC_LIMIT == 0
  }

  /** The part of the k-th upload's extension that its name keeps. */
  ghost function KeptOf(start: nat, ip: nat, us: seq<Upload>, k: nat): string
    requires Legal(start, ip, us) && k < |us|
  {
    SameIndex(start, k, k);
    StemFits(us[k].time, ip, IndexAfter(start, k), us[k].d1, us[k].d2);
    Kept(us[k].time, ip, IndexAfter(start, k), us[k].d1, us[k].d2, us[k].filename)
  }

  /** Over every run, two uploads get the same name if and only if they happen in one second and a
      whole number of counter cycles apart, in one directory and with the same kept extension. */
  lemma NamesUniqueExactly(start: nat, ip: nat, us: seq<Upload>, j: nat, k: nat)
    requires Legal(start, ip, us) && j < k < |us|
    ensures NameOf(start, ip, us, j) == NameOf(start, ip, us, k) <==>
            && SameTick(us, j, k) && us[j].d1 == us[k].d1 && us[j].d2 == us[k].d2
            && KeptOf(start, ip, us, j) == KeptOf(start, ip, us, k)
  {
    SameIndex(start, j, k);
    hide LocalName, IndexAfter, StemOf, Prefix;
    if NameOf(start, ip, us, j) == NameOf(start, ip, us, k) {
      NameUnique(us[j].time, ip, IndexAfter(start, j), us[j].d1, us[j].d2, us[j].filename,
                 us[k].time, ip, IndexAfter(start, k), us[k].d1, us[k].d2, us[k].filename);
    }
  }

  // ----- reading a name back -----

  /** strrchr(s, '/'), or -1. */
  function LastSlash(s: string): (r: int)
    ensures -1 <= r < |s|
    ensures r >= 0 ==> s[r] == '/'
    ensures forall i :: r < i < |s| ==> s[i] != '/'
  {
    if s == [] then -1 else if s[|s| - 1] == '/' then |s| - 1 else LastSlash(s[..|s| - 1])
  }

  /** The leading digits of a text. */
  function Leading(s: string): (r: string)
    ensures AllDigits(r)
  {
    if s == [] || !IsDigit(s[0]) then [] else [s[0]] + Leading(s[1..])
  }

  /** atoi: blanks, a sign, digits. */
  function Atoi(s: string): int {
    if s == [] then 0
    else if s[0] == ' ' || '\t' <= s[0] <= '\r' then Atoi(s[1..])
    else if s[0] == '-' then 0 - Val(Leading(s[1..]))
    else if s[0] == '+' then Val(Leading(s[1..]))
    else Val(Leading(s))
  }

  /** The remainder operator of C, which truncates towards zero. */
  function CMod(a: int, m: int): int
    requires m > 0
  {
    if a >= 0 then a % m else -((-a) % m)
  }

  /** `get_dir1_dir2`. */
  function GetDirs(pathsrc: string, dir1: int, dir2: int): Option<(int, int)>
    requires dir1 > 0 && dir2 > 0
  {
    var path := Truncated(pathsrc);
    var t := LastSlash(path);
    if t < 0 then None
    else
      var path2 := path[..t];
      var t2 := LastSlash(path2);
      if t2 < 0 then None
      else
        var path3 := path2[..t2];
        var t3 := LastSlash(path3);
        if t3 < 0 then None
        else Some((CMod(Atoi(path3[t3 + 1..]), dir1), CMod(Atoi(path2[t2 + 1..]), dir2)))
  }

  lemma {:induction false} LastSlashAt(p: string, z: string)
    requires '/' !in z
    ensures LastSlash(p + "/" + z) == |p|
    decreases |z|
  {
    var s := p + "/" + z;
    if z != [] {
      assert s[..|s| - 1] == p + "/" + z[..|z| - 1];
      LastSlashAt(p, z[..|z| - 1]);
    }
  }

  predicate Blank(s: string) {
    forall i :: 0 <= i < |s| ==> s[i] == ' ' || '\t' <= s[i] <= '\r'
  }

  lemma {:induction false} LeadingDigits(digits: string, rest: string)
    requires AllDigits(digits) && (rest == [] || !IsDigit(rest[0]))
    ensures Leading(digits + rest) == digits
    decreases |digits|
  {
    if digits == [] {
      assert digits + rest == rest;
    } else {
      assert (digits + rest)[1..] == digits[1..] + rest;
      LeadingDigits(digits[1..], rest);
    }
  }

  lemma {:induction false} SkipBlank(blank: string, s: string)
    requires Blank(blank)
    ensures Atoi(blank + s) == Atoi(s)
    decreases |blank|
  {
    if blank == [] {
      assert blank + s == s;
    } else {
      assert (blank + s)[1..] == blank[1..] + s;
      SkipBlank(blank[1..], s);
    }
  }

  /** `atoi`: blanks, at most one sign, and the digits up to the first other character. */
  lemma AtoiReads(blank: string, digits: string, rest: string)
    requires Blank(blank) && AllDigits(digits) && (rest == [] || !IsDigit(rest[0]))
    ensures Atoi(blank + ("-" + (digits + rest))) == 0 - Val(digits)
    ensures Atoi(blank + ("+" + (digits + rest))) == Val(digits)
    ensures digits != [] ==> Atoi(blank + (digits + rest)) == Val(digits)
    ensures rest == [] || (rest[0] != '-' && rest[0] != '+' && !Blank([rest[0]])) ==> Atoi(blank + rest) == 0
  {
    LeadingDigits(digits, rest);
    assert ("-" + (digits + rest))[1..] == digits + rest && ("+" + (digits + rest))[1..] == digits + rest;
    SkipBlank(blank, "-" + (digits + rest));
    SkipBlank(blank, "+" + (digits + rest));
    SkipBlank(blank, digits + rest);
    SkipBlank(blank, rest);
    assert rest != [] ==> rest[0] == [rest[0]][0];
    LeadingDigits([], rest);
    assert [] + rest == rest;
  }

  /** The remainder of C: the quotient is rounded towards zero. */
  lemma CModRemains(a: int, m: int)
    requires m > 0
    ensures -m < CMod(a, m) < m && (a - CMod(a, m)) % m == 0
    ensures if a >= 0 then CMod(a, m) >= 0 else CMod(a, m) <= 0
  {
    if a >= 0 {
      Euclid(a - CMod(a, m), m, a / m, 0);
    } else {
      Euclid(a - CMod(a, m), m, -((-a) / m), 0);
    }
  }

  /** What is read are the second and third last components, whatever stands before them. */
  lemma ReadsComponents(p: string, x: string, y: string, z: string, dir1: int, dir2: int)
    requires dir1 > 0 && dir2 > 0 && '/' !in x && '/' !in y && '/' !in z
    requires |p + "/" + x + "/" + y + "/" + z| <= NAME_MAX
    ensures GetDirs(p + "/" + x + "/" + y + "/" + z, dir1, dir2) == Some((CMod(Atoi(x), dir1), CMod(Atoi(y), dir2)))
  {
    hide LastSlash, Atoi;
    var p2 := p + "/" + x;
    var p1 := p2 + "/" + y;
    LastSlashAt(p1, z);
    LastSlashAt(p2, y);
    LastSlashAt(p, x);
    assert (p1 + "/" + z)[..|p1|] == p1 && p1[..|p2|] == p2;
    assert p1[|p2| + 1..] == y && p2[|p| + 1..] == x;
  }

  function Slashes(s: string): nat {
    if s == [] then 0 else Slashes(s[..|s| - 1]) + if s[|s| - 1] == '/' then 1 else 0
  }

  lemma {:induction false} SlashesBefore(s: string)
    ensures LastSlash(s) < 0 <==> Slashes(s) == 0
    ensures LastSlash(s) >= 0 ==> Slashes(s) == Slashes(s[..LastSlash(s)]) + 1
  {
    if s != [] && s[|s| - 1] != '/' {
      var i := s[..|s| - 1];
      SlashesBefore(i);
      assert LastSlash(i) >= 0 ==> i[..LastSlash(i)] == s[..LastSlash(i)];
    }
  }

  /** Reading fails exactly on texts with fewer than three slashes. */
  lemma ReadFailsExactly(path: string, dir1: int, dir2: int)
    requires dir1 > 0 && dir2 > 0
    ensures GetDirs(path, dir1, dir2) == None <==> Slashes(Truncated(path)) < 3
  {
    hide LastSlash, Slashes, Atoi;
    var s := Truncated(path);
    SlashesBefore(s);
    if LastSlash(s) >= 0 {
      var s2 := s[..LastSlash(s)];
      SlashesBefore(s2);
      if LastSlash(s2) >= 0 {
        SlashesBefore(s2[..LastSlash(s2)]);
      }
    }
  }

  lemma {:induction false} LeadingAll(s: string)
    requires AllDigits(s)
    ensures Leading(s) == s
  {
    if s != [] {
      LeadingAll(s[1..]);
    }
  }

  lemma AtoiDec(n: nat)
    ensures Atoi(Dec(n)) == n
  {
    LeadingAll(Dec(n));
    ValDec(n);
    assert IsDigit(Dec(n)[0]);
  }

  lemma SmallMod(a: nat, m: nat)
    requires a < m
    ensures CMod(a, m) == a
  {
  }

  predicate Lettered(s: string) {
    s != [] && 'A' <= s[0] <= 'Z'
  }

  lemma StemStartsWithLetter(time: nat, ip: nat, index: nat)
    ensures Lettered(StemOf(time, ip, index))
  {
    RealFileAscii(time, ip, index);
    var s := Ascii(RealFile(time, ip, index));
    assert s[0] == Dec(time)[0] as nat && 48 <= s[0] <= 57;
    FirstSextets(s);
    assert 12 <= Sextets(s)[0] <= 14;
    hide Sextets;
  }

  /** What starts with a letter reads as the number 0. */
  lemma LetteredReadsZero(s: string, e: string)
    requires Lettered(s)
    ensures Atoi(s + e) == 0
  {
    var t := s + e;
    assert t[0] == s[0];
    assert Leading(t) == [];
  }

  function BeforeSlash(s: string): string
    requires LastSlash(s) >= 0
  {
    s[..LastSlash(s)]
  }

  function AfterSlash(s: string): string
    requires LastSlash(s) >= 0
  {
    s[LastSlash(s) + 1..]
  }

  lemma AtSlash(s: string)
    requires LastSlash(s) >= 0
    ensures s == BeforeSlash(s) + "/" + AfterSlash(s) && '/' !in AfterSlash(s)
  {
  }

  /**
   * Whether directory (d1,d2) is read back from a name whose kept extension is `e`. Without a slash
   * it is. One slash makes the second index and the stem be read, two the stem and a part of the
   * extension, and with more both components come from the extension.
   */
  predicate ReadsRight(e: string, d1: nat, d2: nat, dir1: nat, dir2: nat)
    requires dir1 > 0 && dir2 > 0
  {
    LastSlash(e) < 0 ||
    var u := BeforeSlash(e);
    if LastSlash(u) < 0 then d1 == 0 && d2 == 0
    else
      var x := BeforeSlash(u);
      if LastSlash(x) < 0 then d1 == 0 && CMod(Atoi(AfterSlash(u)), dir2) == d2
      else CMod(Atoi(AfterSlash(x)), dir1) == d1 && CMod(Atoi(AfterSlash(u)), dir2) == d2
  }

  /** The directory allocated for a file is read back from its name exactly in these cases. */
  lemma ReadBackExactly(time: nat, ip: nat, index: nat, d1: nat, d2: nat, f: string, dir1: nat, dir2: nat)
    requires Width(time, ip, index, d1, d2) && d1 < dir1 && d2 < dir2
    ensures |Prefix(d1, d2)| + |StemOf(time, ip, index)| < NAME_MAX
    ensures GetDirs(LocalName(time, ip, index, d1, d2, f), dir1, dir2) == Some((d1 as int, d2 as int)) <==>
            ReadsRight(Kept(time, ip, index, d1, d2, f), d1, d2, dir1, dir2)
  {
    StemFits(time, ip, index, d1, d2);
    StemPlain(time, ip, index);
    StemStartsWithLetter(time, ip, index);
    assert |LocalName(time, ip, index, d1, d2, f)| <= NAME_MAX;
    hide LocalName, StemOf, Prefix, Atoi, GetDirs, ReadsRight;
    ReadExtension(d1, d2, StemOf(time, ip, index), Kept(time, ip, index, d1, d2, f), dir1, dir2);
  }

  lemma ReadExtension(d1: nat, d2: nat, stem: string, e: string, dir1: nat, dir2: nat)
    requires d1 < dir1 && d2 < dir2 && '/' !in stem && Lettered(stem) && |Prefix(d1, d2) + (stem + e)| <= NAME_MAX
    ensures GetDirs(Prefix(d1, d2) + (stem + e), dir1, dir2) == Some((d1 as int, d2 as int)) <==>
            ReadsRight(e, d1, d2, dir1, dir2)
  {
    hide Prefix, Atoi, GetDirs, LastSlash;
    if LastSlash(e) < 0 {
      NoSlash(e);
      ReadPlain(d1, d2, stem + e, dir1, dir2);
    } else {
      AtSlash(e);
      var u, v := BeforeSlash(e), AfterSlash(e);
      Joins(Prefix(d1, d2), stem, u, v);
      if LastSlash(u) < 0 {
        NoSlash(u);
        LetteredReadsZero(stem, u);
        ReadOneSlash(d1, d2, stem + u, v, dir1, dir2);
      } else {
        ReadLonger(d1, d2, stem, u, v, dir1, dir2);
      }
    }
  }

  lemma ReadLonger(d1: nat, d2: nat, stem: string, u: string, v: string, dir1: nat, dir2: nat)
    requires d1 < dir1 && d2 < dir2 && '/' !in stem && Lettered(stem) && LastSlash(u) >= 0 && '/' !in v
    requires |Prefix(d1, d2) + (stem + u) + "/" + v| <= NAME_MAX
    ensures GetDirs(Prefix(d1, d2) + (stem + u) + "/" + v, dir1, dir2) ==
      var x := BeforeSlash(u);
      if LastSlash(x) < 0 then Some((0, CMod(Atoi(AfterSlash(u)), dir2)))
      else Some((CMod(Atoi(AfterSlash(x)), dir1), CMod(Atoi(AfterSlash(u)), dir2)))
  {
    hide Prefix, Atoi, GetDirs, LastSlash;
    AtSlash(u);
    var x, y := BeforeSlash(u), AfterSlash(u);
    Joins(Prefix(d1, d2), stem, x, y);
    if LastSlash(x) < 0 {
      NoSlash(x);
      LetteredReadsZero(stem, x);
      ReadTwoSlashes(d1, d2, stem + x, y, v, dir1, dir2);
    } else {
      AtSlash(x);
      Joins(Prefix(d1, d2), stem, BeforeSlash(x), AfterSlash(x));
      ReadsComponents(Prefix(d1, d2) + (stem + BeforeSlash(x)), AfterSlash(x), y, v, dir1, dir2);
    }
  }

  lemma Joins(a: string, b: string, c: string, d: string)
    ensures a + (b + (c + "/" + d)) == a + (b + c) + "/" + d
  {
  }

  lemma NoSlash(s: string)
    requires LastSlash(s) < 0
    ensures '/' !in s
  {
  }

  lemma ReadPlain(d1: nat, d2: nat, z: string, dir1: nat, dir2: nat)
    requires d1 < dir1 && d2 < dir2 && '/' !in z && |Prefix(d1, d2) + z| <= NAME_MAX
    ensures GetDirs(Prefix(d1, d2) + z, dir1, dir2) == Some((d1 as int, d2 as int))
  {
    DigitsAvoid(Dec(d1), '/');
    DigitsAvoid(Dec(d2), '/');
    hide Atoi, Dec, GetDirs;
    assert Prefix(d1, d2) + z == [] + "/" + Dec(d1) + "/" + Dec(d2) + "/" + z;
    ReadsComponents([], Dec(d1), Dec(d2), z, dir1, dir2);
    AtoiDec(d1);
    AtoiDec(d2);
    SmallMod(d1, dir1);
    SmallMod(d2, dir2);
  }

  lemma ReadOneSlash(d1: nat, d2: nat, y: string, v: string, dir1: nat, dir2: nat)
    requires d1 < dir1 && d2 < dir2 && '/' !in y && '/' !in v && Atoi(y) == 0
    requires |Prefix(d1, d2) + y + "/" + v| <= NAME_MAX
    ensures GetDirs(Prefix(d1, d2) + y + "/" + v, dir1, dir2) == Some((CMod(d2, dir1), 0))
    ensures (CMod(d2, dir1), 0) == (d1 as int, d2 as int) <==> d1 == 0 && d2 == 0
  {
    DigitsAvoid(Dec(d2), '/');
    hide Atoi, Dec, GetDirs;
    OnlyRoot(d1, d2, dir1, dir2);
    hide CMod;
    var p := "/" + Dec(d1);
    assert Prefix(d1, d2) + y + "/" + v == p + "/" + Dec(d2) + "/" + y + "/" + v;
    ReadsComponents(p, Dec(d2), y, v, dir1, dir2);
    AtoiDec(d2);
  }

  lemma OnlyRoot(d1: nat, d2: nat, dir1: nat, dir2: nat)
    requires d1 < dir1 && d2 < dir2
    ensures CMod(0, dir2) == 0
    ensures CMod(d2, dir1) == d1 && 0 == d2 <==> d1 == 0 && d2 == 0
  {
  }

  lemma ReadTwoSlashes(d1: nat, d2: nat, x: string, y: string, v: string, dir1: nat, dir2: nat)
    requires d1 < dir1 && d2 < dir2 && '/' !in x && '/' !in y && '/' !in v && Atoi(x) == 0
    requires |Prefix(d1, d2) + x + "/" + y + "/" + v| <= NAME_MAX
    ensures GetDirs(Prefix(d1, d2) + x + "/" + y + "/" + v, dir1, dir2) == Some((0, CMod(Atoi(y), dir2)))
  {
    hide Atoi, Dec, GetDirs;
    var p := "/" + Dec(d1) + "/" + Dec(d2);
    assert Prefix(d1, d2) + x + "/" + y + "/" + v == p + "/" + x + "/" + y + "/" + v;
    ReadsComponents(p, x, y, v, dir1, dir2);
    assert CMod(0, dir1) == 0;
  }

  /** A slash can spoil the reading, and two can happen to give the right answer. */
  lemma SlashExamples(time: nat, ip: nat, index: nat)
    requires Width(time, ip, index, 0, 5)
    ensures GetDirs(LocalName(time, ip, index, 0, 1, "f.a/b"), 10, 10) != Some((0, 1))
    ensures GetDirs(LocalName(time, ip, index, 0, 5, "f.a/5/b"), 10, 10) == Some((0, 5))
  {
    ReadBackExactly(time, ip, index, 0, 1, "f.a/b", 10, 10);
    ReadBackExactly(time, ip, index, 0, 5, "f.a/5/b", 10, 10);
    StemFits(time, ip, index, 0, 1);
    StemFits(time, ip, index, 0, 5);
    ExampleExtensions();
    hide StemOf, Prefix, LocalName, GetDirs, ReadsRight, Extension;
    ShortKept(time, ip, index, 0, 1, "f.a/b");
    ShortKept(time, ip, index, 0, 5, "f.a/5/b");
    ExampleReadings();
  }

  lemma ShortKept(time: nat, ip: nat, index: nat, d1: nat, d2: nat, f: string)
    requires |Prefix(d1, d2)| + |StemOf(time, ip, index)| + |Extension(f)| <= NAME_MAX
    requires |Prefix(d1, d2)| + |StemOf(time, ip, index)| < NAME_MAX
    ensures Kept(time, ip, index, d1, d2, f) == Extension(f)
  {
  }

  lemma ExampleExtensions()
    ensures Extension("f.a/b") == ".a/b" && Extension("f.a/5/b") == ".a/5/b"
  {
    assert "f.a/b"[1..] == ".a/b" && "f.a/5/b"[1..] == ".a/5/b";
  }

  lemma ExampleReadings()
    ensures !ReadsRight(".a/b", 0, 1, 10, 10) && ReadsRight(".a/5/b", 0, 5, 10, 10)
  {
    LastSlashAt(".a", "b");
    assert ".a" + "/" + "b" == ".a/b" && ".a/b"[..2] == ".a";
    LastSlashAt(".a/5", "b");
    assert ".a/5" + "/" + "b" == ".a/5/b" && ".a/5/b"[..4] == ".a/5";
    LastSlashAt(".a", "5");
    assert ".a" + "/" + "5" == ".a/5" && ".a/5"[..2] == ".a" && ".a/5"[3..] == "5";
    assert LastSlash(".a") == -1;
    assert Leading("5") == "5" && Val("5") == 5;
  }

  /** In particular when the uploaded extension has no slash. */
  lemma NameReadsBack(time: nat, ip: nat, index: nat, d1: nat, d2: nat, f: string, dir1: nat, dir2: nat)
    requires Width(time, ip, index, d1, d2) && d1 < dir1 && d2 < dir2 && '/' !in Extension(f)
    ensures GetDirs(LocalName(time, ip, index, d1, d2, f), dir1, dir2) == Some((d1 as int, d2 as int))
  {
    ReadBackExactly(time, ip, index, d1, d2, f, dir1, dir2);
    hide StemOf, Prefix, GetDirs;
    assert '/' !in Kept(time, ip, index, d1, d2, f);
  }

  // ----- the code -----

  /** strchr(filename, '.'), as an index; the length if there is no dot. */
  method FindDot(filename: string) returns (k: nat)
    ensures k <= |filename| && filename[k..] == Extension(filename)
  {
    k := 0;
    while k < |filename|
      invariant k <= |filename| && Extension(filename[k..]) == Extension(filename)
    {
      if filename[k] == '.' {
        return;
      }
      assert filename[k..][1..] == filename[k + 1..];
      k := k + 1;
    }
  }

  class Namer {
    var picIndex: nat

    /** `get_local_filename` for an added file, with the directory `get_max_free_storage` gave. */
    method GetLocalFilename(time: nat, ip: nat, d1: nat, d2: nat, filename: string) returns (name: string)
      requires |StemOf(time, ip, picIndex)| + |Extension(filename)| < 256
      modifies this
      ensures name == LocalName(time, ip, old(picIndex), d1, d2, filename)
      ensures picIndex == NextIndex(old(picIndex))
    {
      RealFileAscii(time, ip, picIndex);
      var realfile := RealFile(time, ip, picIndex);
      ghost var stem := StemOf(time, ip, picIndex);
      assert stem == Encode(Ascii(realfile), false);
      picIndex := picIndex + 1;
      var localfile := new char[256](_ => '\0');
      hide Encode, RealFile;
      var n := Base64Encode(Ascii(realfile), localfile, false);
      var k := FindDot(filename);
      name := "/" + Dec(d1) + "/" + Dec(d2) + "/" + localfile[..n] + filename[k..];
      assert name == Prefix(d1, d2) + stem + Extension(filename);
      name := Truncated(name);
      if picIndex >= PIC_LIMIT {
        picIndex := 0;
      }
    }
  }
}
