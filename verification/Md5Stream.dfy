/** The MD5 context of lib/md5.c updated in place, the one-shot digests, HMAC and the file
    digest of lib/util_misc.c. */
module Md5Stream {
  import opened Common
  import opened Md5

  /** memcpy into a byte buffer. */
  method Copy(dst: array<byte>, at: nat, src: seq<byte>)
    requires at + |src| <= dst.Length
    modifies dst
    ensures dst[..] == old(dst[..at]) + src + old(dst[at + |src|..])
  {
    for i := 0 to |src|
      invariant dst[..] == old(dst[..at]) + src[..i] + old(dst[at + i..])
    {
      dst[at + i] := src[i];
      assert src[..i + 1] == src[..i] + [src[i]];
    }
    assert src[..|src|] == src;
  }

  class Context {
    const transform: Compression
    var buf: Words
    var bits0: word
    var bits1: word
    const block: array<byte>
    /** Everything passed to `Update` since `Init`. */
    ghost var msg: seq<byte>

    /** The chaining value covers the complete blocks, the buffer starts with the bytes after
        them, and the two words count the bits modulo 2^64. */
    ghost predicate Valid()
      reads this, block
    {
      Chained() && Counts(bits0, bits1, |msg|)
    }

    ghost predicate Chained()
      reads this, block
    {
      && block.Length == 64
      && buf == Fold(transform, INITIAL, msg)
      && block[..|Tail(msg)|] == Tail(msg)
    }

    /** `MD5Init`. */
    constructor (f: Compression)
      ensures Valid() && msg == [] && transform == f && fresh(block)
    {
      transform := f;
      buf, bits0, bits1, msg := INITIAL, 0, 0, [];
      block := new byte[64](_ => 0);
      new;
      hide Counts;
      CounterStart();
    }

    /** Appending bytes that stay short of a block. */
    method Keep(at: nat, d: seq<byte>)
      requires Chained() && at == |Tail(msg)| && |Tail(msg)| + |d| < 64
      modifies this`msg, block
      ensures Chained() && msg == old(msg) + d
    {
      FoldTail(transform, INITIAL, msg, d);
      Copy(block, at, d);
      msg := msg + d;
    }

    /** Appending bytes that complete a block, and compressing it. */
    method Complete(at: nat, d: seq<byte>)
      requires Chained() && at == |Tail(msg)| && |Tail(msg)| + |d| == 64
      modifies this`buf, this`msg, block
      ensures Chained() && msg == old(msg) + d && Tail(msg) == []
    {
      FoldFill(transform, INITIAL, msg, d);
      Copy(block, at, d);
      assert block[..] == Tail(msg) + d;
      buf := transform(buf, block[..]);
      msg := msg + d;
    }

    /** The bit counter of `MD5Update`; returns the number of bytes buffered before the call. */
    method CountBits(len: word) returns (t: nat)
      requires Chained() && Counts(bits0, bits1, |msg|)
      modifies this`bits0, this`bits1
      ensures Chained() && Counts(bits0, bits1, |msg| + len) && t == |Tail(msg)|
    {
      CounterAdds(bits0, bits1, |msg|, len);
      CounterTail(bits0, bits1, |msg|);
      t := bits0;
      bits0 := (t + len * 8 % W32) % W32;
      if bits0 < t {
        bits1 := (bits1 + 1) % W32;
      }
      bits1 := (bits1 + len / 0x2000_0000) % W32;
      t := t / 8 % 64;
    }

    /** `MD5Update`: the context after it depends only on the bytes so far, not on how they
        were cut into calls. */
    method Update(data: seq<byte>)
      requires Valid() && |data| < W32
      modifies this, block
      ensures Valid() && msg == old(msg) + data
    {
      hide Context.Chained, Counts, Tail, Fold;
      var t := CountBits(|data|);
      var rest := data;
      if t != 0 {
        if |data| < 64 - t {
          Keep(t, data);
          return;
        }
        Complete(t, data[..64 - t]);
        rest := data[64 - t..];
      }
      while |rest| >= 64
        invariant Chained() && Tail(msg) == [] && msg + rest == old(msg) + data
        invariant Counts(bits0, bits1, |msg| + |rest|)
        decreases |rest|
      {
        Complete(0, rest[..64]);
        rest := rest[64..];
      }
      Keep(0, rest);
    }

    /** Compressing the block that completes the message so far with `d`. */
    method Transform(ghost d: seq<byte>)
      requires block.Length == 64 && buf == Fold(transform, INITIAL, msg)
      requires block[..] == Tail(msg) + d
      modifies this`buf, this`msg
      ensures msg == old(msg) + d && buf == Fold(transform, INITIAL, msg) && Tail(msg) == []
    {
      FoldFill(transform, INITIAL, msg, d);
      buf := transform(buf, block[..]);
      msg := msg + d;
    }

    /** The first half of `MD5Final`: 0x80 and zeros up to 56 bytes into a block, compressing a
        block on the way when less than eight bytes are left. `p` is what now follows `msg`. */
    method PadOut(count: nat) returns (ghost p: seq<byte>)
      requires Chained() && count == |Tail(msg)|
      modifies this`buf, this`msg, block
      ensures buf == Fold(transform, INITIAL, msg) && |Tail(msg)| + |p| == 56
      ensures block[..56] == Tail(msg) + p
      ensures msg + p == old(msg) + [0x80] + Zeros((55 - |old(msg)|) % 64)
    {
      hide Fold, Zeros, Tail;
      ZeroCount(|msg|);
      ghost var m := msg;
      var left := 64 - 1 - count;
      if left < 8 {
        p := PadOver(count, left);
        assert m + ([0x80] + Zeros(left)) + Zeros(56) == m + [0x80] + (Zeros(left) + Zeros(56));
      } else {
        p := PadWithin(count, left);
        assert m + ([0x80] + Zeros(left - 8)) == m + [0x80] + Zeros(left - 8);
      }
    }

    /** Padding to the end of the block, compressing it, and 56 zeros in the next. */
    method PadOver(count: nat, left: nat) returns (ghost p: seq<byte>)
      requires Chained() && count == |Tail(msg)| && count + 1 + left == 64
      modifies this`buf, this`msg, block
      ensures buf == Fold(transform, INITIAL, msg) && Tail(msg) == [] && p == Zeros(56) && block[..56] == p
      ensures msg == old(msg) + ([0x80] + Zeros(left))
    {
      hide Fold, Zeros, Tail;
      Copy(block, count, [0x80]);
      Copy(block, count + 1, Zeros(left));
      assert block[..] == Tail(msg) + ([0x80] + Zeros(left));
      Transform([0x80] + Zeros(left));
      Copy(block, 0, Zeros(56));
      p := Zeros(56);
    }

    /** Padding to 56 bytes into the block. */
    method PadWithin(count: nat, left: nat) returns (ghost p: seq<byte>)
      requires Chained() && count == |Tail(msg)| && count + 1 + left == 64 && left >= 8
      modifies block
      ensures p == [0x80] + Zeros(left - 8) && block[..56] == Tail(msg) + p && |Tail(msg)| + |p| == 56
    {
      hide Fold, Zeros, Tail;
      Copy(block, count, [0x80]);
      Copy(block, count + 1, Zeros(left - 8));
      p := [0x80] + Zeros(left - 8);
    }

    /** `MD5Final`: what is compressed is the message followed by exactly the padding of
        sections 3.1 and 3.2 of RFC 1321. The closing memset clears one pointer's worth of the
        context. */
    method Final() returns (digest: seq<byte>)
      requires Valid()
      modifies this, block
      ensures digest == Digest(transform, old(msg))
    {
      hide Counts, Fold, Zeros, Low4, Padding;
      ghost var m := msg;
      CounterTail(bits0, bits1, |m|);
      ghost var p := PadOut(bits0 / 8 % 64);
      Copy(block, 56, Low4(bits0));
      Copy(block, 60, Low4(bits1));
      ghost var l := LengthField(|m|);
      assert block[..] == Tail(msg) + (p + l);
      assert msg + (p + l) == (msg + p) + l;
      Padded(m, l);
      Transform(p + l);
      digest := DigestBytes(buf);
      buf := buf.(a := 0, b := 0);
    }
  }

  lemma Padded(m: seq<byte>, l: seq<byte>)
    requires l == LengthField(|m|)
    ensures m + [0x80] + Zeros((55 - |m|) % 64) + l == m + Padding(|m|)
  {
    hide Zeros, LengthField;
  }

  /** `getmd5` and `MD5Digest`. */
  method GetMd5(f: Compression, data: seq<byte>) returns (digest: seq<byte>)
    requires |data| < W32
    ensures digest == Digest(f, data)
  {
    var ctx := new Context(f);
    ctx.Update(data);
    assert ctx.msg == data;
    digest := ctx.Final();
  }

  /** However a message is cut into updates, the digest is that of the whole message. */
  method Md5OfChunks(f: Compression, chunks: seq<seq<byte>>) returns (digest: seq<byte>)
    requires forall i :: 0 <= i < |chunks| ==> |chunks[i]| < W32
    ensures digest == Digest(f, Joined(chunks))
  {
    hide Context.Chained, Counts, Fold, Tail, Padding, Digest;
    var ctx := new Context(f);
    for i := 0 to |chunks|
      invariant ctx.Valid() && ctx.transform == f && fresh(ctx) && fresh(ctx.block)
      invariant ctx.msg + Joined(chunks[i..]) == Joined(chunks)
    {
      assert chunks[i..][1..] == chunks[i + 1..];
      assert ctx.msg + (chunks[i] + Joined(chunks[i + 1..])) == ctx.msg + chunks[i] + Joined(chunks[i + 1..]);
      ctx.Update(chunks[i]);
    }
    assert ctx.msg + [] == ctx.msg;
    digest := ctx.Final();
  }

  // ----- HMAC, section 2 of RFC 2104 -----

  function XorByte(x: byte, y: byte): byte {
    ((x as bv8) ^ (y as bv8)) as byte
  }

  function Xored(s: seq<byte>, y: byte): (r: seq<byte>)
    ensures |r| == |s|
  {
    seq(|s|, i requires 0 <= i < |s| => XorByte(s[i], y))
  }

  /** The key brought to the block size: hashed if longer, then zero-filled. */
  function BlockKey(f: Compression, key: seq<byte>): (k: seq<byte>)
    ensures |k| == 64
  {
    var k := if |key| > 64 then Digest(f, key) else key;
    k + Zeros(64 - |k|)
  }

  function Hmac(f: Compression, key: seq<byte>, text: seq<byte>): seq<byte> {
    Digest(f, Xored(BlockKey(f, key), 0x5c) + Digest(f, Xored(BlockKey(f, key), 0x36) + text))
  }

  /** HMAC of section 2 of RFC 2104 byte by byte: the key, or its digest if it is longer than a block,
      filled up with zeros, is xored with 0x36 for the inner and with 0x5c for the outer digest. */
  lemma HmacMeans(f: Compression, key: seq<byte>, text: seq<byte>, inner: seq<byte>, outer: seq<byte>)
    requires |inner| == |outer| == 64
    requires forall i :: 0 <= i < 64 ==>
      var k := if |key| > 64 then Digest(f, key) else key;
      var x: byte := if i < |k| then k[i] else 0;
      && inner[i] == ((x as bv8) ^ 0x36) as byte
      && outer[i] == ((x as bv8) ^ 0x5c) as byte
    ensures Hmac(f, key, text) == Digest(f, outer + Digest(f, inner + text))
  {
    hide Digest;
    assert inner == Xored(BlockKey(f, key), 0x36);
    assert outer == Xored(BlockKey(f, key), 0x5c);
  }

  /** One pad: the key copied into a zeroed block and xored in place. */
  method MakePad(key: seq<byte>, y: byte) returns (pad: array<byte>)
    requires |key| <= 64
    ensures fresh(pad) && pad[..] == Xored(key + Zeros(64 - |key|), y)
  {
    pad := new byte[64](_ => 0);
    Copy(pad, 0, key);
    assert pad[..] == key + Zeros(64 - |key|);
    XorInPlace(pad, y);
  }

  method XorInPlace(a: array<byte>, y: byte)
    modifies a
    ensures a[..] == Xored(old(a[..]), y)
  {
    hide XorByte;
    for i := 0 to a.Length
      invariant forall j :: i <= j < a.Length ==> a[j] == old(a[j])
      invariant forall j :: 0 <= j < i ==> a[j] == XorByte(old(a[j]), y)
    {
      a[i] := XorByte(a[i], y);
    }
  }

  /** The preparation of both pads. */
  method MakePads(f: Compression, password: seq<byte>) returns (ipad: seq<byte>, opad: seq<byte>)
    requires |password| < W32
    ensures ipad == Xored(BlockKey(f, password), 0x36) && opad == Xored(BlockKey(f, password), 0x5c)
  {
    var key := password;
    if |password| > 64 {
      key := GetMd5(f, password);
    }
    var i := MakePad(key, 0x36);
    var o := MakePad(key, 0x5c);
    ipad, opad := i[..], o[..];
  }

  method Outer(f: Compression, opad: seq<byte>, inner: seq<byte>) returns (response: seq<byte>)
    requires |opad| == 64 && |inner| == 16
    ensures response == Digest(f, opad + inner)
  {
    hide Context.Chained, Counts, Fold, Tail, Padding;
    var ctx := new Context(f);
    ctx.Update(opad);
    ctx.Update(inner);
    assert ctx.msg == opad + inner;
    response := ctx.Final();
  }

  /** `MD5HMAC`. */
  method HmacMd5(f: Compression, password: seq<byte>, challenge: seq<byte>) returns (response: seq<byte>)
    requires |password| < W32 && |challenge| < W32
    ensures response == Hmac(f, password, challenge)
  {
    hide Context.Chained, Counts, Fold, Tail, Padding, Zeros;
    var ipad, opad := MakePads(f, password);
    var ctx := new Context(f);
    ctx.Update(ipad);
    ctx.Update(challenge);
    assert ctx.msg == ipad + challenge;
    response := ctx.Final();
    response := Outer(f, opad, response);
  }

  method InnerTwo(f: Compression, ipad: seq<byte>, a: seq<byte>, b: seq<byte>) returns (inner: seq<byte>)
    requires |ipad| == 64 && |a| < W32 && |b| < W32
    ensures inner == Digest(f, ipad + (a + b))
  {
    hide Context.Chained, Counts, Fold, Tail, Padding, Digest;
    var ctx := new Context(f);
    ctx.Update(ipad);
    ctx.Update(a);
    ctx.Update(b);
    assert ctx.msg == ipad + (a + b);
    inner := ctx.Final();
  }

  /** `MD5HMAC2`: the text in two pieces. */
  method HmacMd5Two(f: Compression, password: seq<byte>, challenge: seq<byte>, challenge2: seq<byte>)
    returns (response: seq<byte>)
    requires |password| < W32 && |challenge| < W32 && |challenge2| < W32
    ensures response == Hmac(f, password, challenge + challenge2)
  {
    hide Context.Chained, Counts, Fold, Tail, Padding, Zeros, BlockKey, Digest, Xored;
    var ipad, opad := MakePads(f, password);
    var inner := InnerTwo(f, ipad, challenge, challenge2);
    response := Outer(f, opad, inner);
  }

  // ----- files -----

  const BUFSIZE: nat := 0x10_0000

  /** A file of which the first `readable` bytes can be read; reading beyond them fails. */
  datatype File = File(content: seq<byte>, readable: nat)

  predicate ValidFile(file: File) { file.readable <= |file.content| }

  /** fread of one buffer at `pos`. */
  function Fread(file: File, pos: nat): (chunk: seq<byte>)
    requires ValidFile(file) && pos <= file.readable
  {
    file.content[pos..if file.readable - pos < BUFSIZE then file.readable else pos + BUFSIZE]
  }

  /** `getfilemd5` on a file that could be opened or not: the digest of everything it could read, or an error. */
  method GetFileMd5(f: Compression, source: Option<File>) returns (r: Option<seq<byte>>)
    requires source.Some? ==> ValidFile(source.value)
    ensures r == if source.None? then None else FileDigest(f, source.value)
    ensures source.Some? ==>
      var file := source.value;
      if file.readable < |file.content| && file.readable % 0x10_0000 == 0 then r == None
      else r == Some(Digest(f, file.content[..file.readable]))
  {
    hide Context.Chained, Counts, Fold, Tail, Padding, Digest;
    if source.None? {
      return None;
    }
    var file := source.value;
    var ctx := new Context(f);
    var pos := 0;
    ghost var turns := 0;
    while true
      invariant pos == BUFSIZE * turns <= file.readable
      invariant ctx.Valid() && ctx.transform == f && ctx.msg == file.content[..pos]
      invariant fresh(ctx) && fresh(ctx.block)
      decreases file.readable - pos
    {
      var chunk := Fread(file, pos);
      if |chunk| > 0 {
        ctx.Update(chunk);
        pos := pos + |chunk|;
        assert ctx.msg == file.content[..pos];
        if |chunk| < BUFSIZE {
          Euclid(file.readable, BUFSIZE, turns, |chunk|);
          break;
        }
        turns := turns + 1;
      } else if pos == |file.content| {
        break;
      } else {
        Euclid(file.readable, BUFSIZE, turns, 0);
        return None;
      }
    }
    var digest := ctx.Final();
    r := Some(digest);
  }

  /** A failed read is noticed only when it comes at a buffer boundary; elsewhere the short
      buffer is taken for the end of the file. */
  function FileDigest(f: Compression, file: File): Option<seq<byte>>
    requires ValidFile(file)
  {
    if file.readable < |file.content| && file.readable % BUFSIZE == 0 then None
    else Some(Digest(f, file.content[..file.readable]))
  }

  /** A readable file gets the digest of its whole contents, whatever its length. */
  lemma WholeFileDigest(f: Compression, content: seq<byte>)
    ensures FileDigest(f, File(content, |content|)) == Some(Digest(f, content))
  {
    assert content[..|content|] == content;
  }
}
