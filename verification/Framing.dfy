/** The signalling protocol: length-prefixed messages over a byte stream. */
module Framing {
  import opened Common
  import opened MyBuff

  const SIG_HEADSIZE: nat := 4
  const MAX_SIG_BODY: nat := 65536

  datatype Msg = Msg(cmdid: byte, status: byte, body: seq<byte>)

  /** The body length travels in a 16-bit field. */
  predicate Sendable(m: Msg) {
    |m.body| < 65536
  }

  function High(n: nat): byte
    requires n < 65536
  {
    n / 256
  }

  function Low(n: nat): byte {
    n % 256
  }

  function Word(high: nat, low: nat): nat {
    high * 256 + low
  }

  function Head(m: Msg): seq<byte>
    requires Sendable(m)
  {
    [High(|m.body|), Low(|m.body|), m.cmdid, m.status]
  }

  /** `create_sig_msg`. */
  function Encode(m: Msg): seq<byte>
    requires Sendable(m)
  {
    Head(m) + m.body
  }

  /** On the wire a message is its body's length, high-order byte first, its command, its status and
      its body. */
  lemma Layout(m: Msg)
    requires Sendable(m)
    ensures var s := Encode(m);
      && |s| == 4 + |m.body| && 256 * s[0] as nat + s[1] as nat == |m.body|
      && s[2] == m.cmdid && s[3] == m.status && s[4..] == m.body
  {
  }

  datatype Parsed = NeedHead | NeedBody | TooLong | Parsed(m: Msg)

  function BodyLen(s: seq<byte>): nat
    requires |s| >= SIG_HEADSIZE
  {
    Word(s[0], s[1])
  }

  /** `parse_sig_msg`, check by check. */
  function Parse(s: seq<byte>): Parsed {
    if |s| < SIG_HEADSIZE then NeedHead
    else if BodyLen(s) >= MAX_SIG_BODY then TooLong
    else if |s| < SIG_HEADSIZE + BodyLen(s) then NeedBody
    else Parsed.Parsed(Msg(s[2], s[3], s[SIG_HEADSIZE..SIG_HEADSIZE + BodyLen(s)]))
  }

  /** The length field cannot ask for the connection to be closed. */
  lemma NeverTooLong(s: seq<byte>)
    ensures !Parse(s).TooLong?
  {
    if |s| >= SIG_HEADSIZE {
      assert s[0] < 256 && s[1] < 256;
    }
  }

  lemma LengthField(n: nat)
    requires n < 65536
    ensures Word(High(n), Low(n)) == n
  {
  }

  /** A whole message is parsed as itself, whatever follows it. */
  lemma ParseEncoded(m: Msg, rest: seq<byte>)
    requires Sendable(m)
    ensures Parse(Encode(m) + rest) == Parsed.Parsed(m)
  {
    var s := Encode(m) + rest;
    LengthField(|m.body|);
    assert BodyLen(s) == |m.body|;
    assert s[SIG_HEADSIZE..SIG_HEADSIZE + |m.body|] == m.body;
  }

  /** A message cut short anywhere asks for more, and says which part is missing. */
  lemma ParseCut(m: Msg, k: nat)
    requires Sendable(m) && k < |Encode(m)|
    ensures Parse(Encode(m)[..k]) == if k < SIG_HEADSIZE then NeedHead else NeedBody
  {
    if k >= SIG_HEADSIZE {
      LengthField(|m.body|);
      assert BodyLen(Encode(m)[..k]) == |m.body|;
    }
  }

  /** What parses is what was encoded: no two messages share a wire form. */
  lemma ParseIsEncode(s: seq<byte>)
    requires Parse(s).Parsed?
    ensures Sendable(Parse(s).m) && |Encode(Parse(s).m)| <= |s|
    ensures s[..|Encode(Parse(s).m)|] == Encode(Parse(s).m)
  {
    var n := BodyLen(s);
    assert n < 65536;
    assert s[0] < 256 && s[1] < 256;
    assert High(n) == s[0] && Low(n) == s[1];
    var m := Parse(s).m;
    assert s[..SIG_HEADSIZE] == Head(m);
    assert s[..SIG_HEADSIZE + n] == s[..SIG_HEADSIZE] + s[SIG_HEADSIZE..SIG_HEADSIZE + n];
  }

  // Streams

  predicate AllSendable(ms: seq<Msg>) {
    forall m :: m in ms ==> Sendable(m)
  }

  function EncodeAll(ms: seq<Msg>): seq<byte>
    requires AllSendable(ms)
  {
    if ms == [] then [] else Encode(ms[0]) + EncodeAll(ms[1..])
  }

  /** What the receive loop delivers from `s`, and what it leaves in the buffer. */
  function Drain(s: seq<byte>): (seq<Msg>, seq<byte>)
    decreases |s|
  {
    var p := Parse(s);
    if p.Parsed? then
      var d := Drain(s[SIG_HEADSIZE + |p.m.body|..]);
      ([p.m] + d.0, d.1)
    else ([], s)
  }

  /** The first message of a stream is delivered first, and the rest is drained after it. */
  lemma DrainFirst(m: Msg, rest: seq<byte>)
    requires Sendable(m)
    ensures Drain(Encode(m) + rest) == ([m] + Drain(rest).0, Drain(rest).1)
  {
    hide Encode, Parse;
    ParseEncoded(m, rest);
    EncodedLength(m);
    assert (Encode(m) + rest)[SIG_HEADSIZE + |m.body|..] == rest;
  }

  lemma EncodedLength(m: Msg)
    requires Sendable(m)
    ensures |Encode(m)| == SIG_HEADSIZE + |m.body|
  {
  }

  /** What is left in the buffer holds no whole message. */
  lemma {:induction false} DrainLeaves(s: seq<byte>)
    ensures Drain(Drain(s).1) == ([], Drain(s).1)
    decreases |s|
  {
    hide Parse;
    var p := Parse(s);
    if p.Parsed? {
      ParsedFits(s);
      DrainLeaves(s[SIG_HEADSIZE + |p.m.body|..]);
    }
  }

  lemma ParsedFits(s: seq<byte>)
    requires Parse(s).Parsed?
    ensures SIG_HEADSIZE + |Parse(s).m.body| <= |s|
  {
  }

  /** Every stream of bytes splits into the messages delivered and the remainder: none is lost. */
  lemma {:induction false} DrainConserves(s: seq<byte>)
    ensures AllSendable(Drain(s).0) && EncodeAll(Drain(s).0) + Drain(s).1 == s
    decreases |s|
  {
    hide Encode, Parse;
    var p := Parse(s);
    if p.Parsed? {
      ParsedFits(s);
      ParseIsEncode(s);
      EncodedLength(p.m);
      var n := SIG_HEADSIZE + |p.m.body|;
      var d := Drain(s[n..]);
      DrainConserves(s[n..]);
      EncodeAllFirst(p.m, d.0);
      assert s == s[..n] + s[n..];
      assert Encode(p.m) + (EncodeAll(d.0) + d.1) == (Encode(p.m) + EncodeAll(d.0)) + d.1;
    }
  }

  lemma EncodeAllFirst(m: Msg, ms: seq<Msg>)
    requires Sendable(m) && AllSendable(ms)
    ensures AllSendable([m] + ms) && EncodeAll([m] + ms) == Encode(m) + EncodeAll(ms)
  {
    assert ([m] + ms)[1..] == ms;
  }

  /** A later chunk only adds deliveries: parsing early or late gives the same messages. */
  lemma {:induction false} DrainAppend(s: seq<byte>, t: seq<byte>)
    ensures Drain(s + t) == (Drain(s).0 + Drain(Drain(s).1 + t).0, Drain(Drain(s).1 + t).1)
    decreases |s|
  {
    hide Encode, Parse;
    var p := Parse(s);
    if p.Parsed? {
      ParsedFits(s);
      ParseIsEncode(s);
      EncodedLength(p.m);
      var n := SIG_HEADSIZE + |p.m.body|;
      DrainAppend(s[n..], t);
      assert s + t == Encode(p.m) + (s[n..] + t) by {
        assert s == s[..n] + s[n..];
      }
      DrainFirst(p.m, s[n..] + t);
      var d := Drain(s[n..]);
      assert [p.m] + (d.0 + Drain(d.1 + t).0) == ([p.m] + d.0) + Drain(d.1 + t).0;
    } else {
      assert [] + Drain(s + t).0 == Drain(s + t).0;
    }
  }

  /** The receiver fed chunk by chunk, from the buffer `buf`. */
  function Feed(buf: seq<byte>, chunks: seq<seq<byte>>): (seq<Msg>, seq<byte>)
    decreases |chunks|
  {
    if chunks == [] then ([], buf)
    else
      var d := Drain(buf + chunks[0]);
      var rest := Feed(d.1, chunks[1..]);
      (d.0 + rest.0, rest.1)
  }

  /** How the network cuts the stream makes no difference. */
  lemma {:induction false} FeedIsDrain(buf: seq<byte>, chunks: seq<seq<byte>>)
    requires Drain(buf) == ([], buf)
    ensures Feed(buf, chunks) == Drain(buf + Joined(chunks))
    decreases |chunks|
  {
    hide Drain;
    if chunks == [] {
      assert buf + Joined(chunks) == buf;
    } else {
      var d := Drain(buf + chunks[0]);
      DrainLeaves(buf + chunks[0]);
      FeedIsDrain(d.1, chunks[1..]);
      DrainAppend(buf + chunks[0], Joined(chunks[1..]));
      assert buf + chunks[0] + Joined(chunks[1..]) == buf + Joined(chunks);
    }
  }

  /** `p` stops short of the end of message `m`. */
  ghost predicate Cut(m: Msg, p: seq<byte>)
    requires Sendable(m)
  {
    |p| < |Encode(m)| && p == Encode(m)[..|p|]
  }

  lemma {:induction false} DrainMessages(ms: seq<Msg>, last: Msg, p: seq<byte>)
    requires AllSendable(ms) && Sendable(last) && Cut(last, p)
    ensures Drain(EncodeAll(ms) + p) == (ms, p)
    decreases |ms|
  {
    if ms == [] {
      ParseCut(last, |p|);
      assert EncodeAll(ms) + p == p;
    } else {
      hide Drain, Encode, Cut;
      DrainMessages(ms[1..], last, p);
      DrainFirst(ms[0], EncodeAll(ms[1..]) + p);
      assert EncodeAll(ms) + p == Encode(ms[0]) + (EncodeAll(ms[1..]) + p);
      assert [ms[0]] + ms[1..] == ms;
    }
  }

  /**
   * However a stream of whole messages and the start of one more is cut into chunks, exactly the
   * whole messages are delivered, in order, and the started one waits in the buffer.
   */
  lemma DeliversExactly(ms: seq<Msg>, last: Msg, p: seq<byte>, chunks: seq<seq<byte>>)
    requires AllSendable(ms) && Sendable(last) && Cut(last, p)
    requires Joined(chunks) == EncodeAll(ms) + p
    ensures Feed([], chunks) == (ms, p)
  {
    DrainMessages(ms, last, p);
    FeedIsDrain([], chunks);
    assert [] + Joined(chunks) == Joined(chunks);
  }

  /** The bytes of an integer in the first four places, then the body. */
  method CreateSigMsg(cmdid: byte, status: byte, body: seq<byte>) returns (o: seq<byte>)
    requires |body| < 65536
    ensures o == Encode(Msg(cmdid, status, body))
    ensures |o| == SIG_HEADSIZE + |body|
  {
    o := [High(|body|), Low(|body|), cmdid, status];
    if |body| == 0 {
      assert o == o + body;
      return;
    }
    o := o + body;
  }

  /** Draining `s` has delivered `got` so far and has `rest` to go. */
  ghost predicate Yields(s: seq<byte>, got: seq<Msg>, rest: seq<byte>) {
    Drain(s) == (got + Drain(rest).0, Drain(rest).1)
  }

  lemma YieldStart(s: seq<byte>)
    ensures Yields(s, [], s)
  {
    hide Drain;
    assert [] + Drain(s).0 == Drain(s).0;
  }

  lemma YieldStep(s: seq<byte>, got: seq<Msg>, rest: seq<byte>)
    requires Yields(s, got, rest) && Parse(rest).Parsed?
    ensures SIG_HEADSIZE + |Parse(rest).m.body| <= |rest|
    ensures Yields(s, got + [Parse(rest).m], rest[SIG_HEADSIZE + |Parse(rest).m.body|..])
  {
    hide Parse;
    ParsedFits(rest);
    var m := Parse(rest).m;
    var d := Drain(rest[SIG_HEADSIZE + |m.body|..]);
    assert got + ([m] + d.0) == got + [m] + d.0;
  }

  lemma YieldEnd(s: seq<byte>, got: seq<Msg>, rest: seq<byte>)
    requires Yields(s, got, rest) && !Parse(rest).Parsed?
    ensures Drain(s) == (got, rest)
  {
    hide Parse;
    assert got + [] == got;
  }

  datatype Verdict = Wait | Next | Close

  /** The messages up to and including the first that closes the connection. */
  function UpTo(ms: seq<Msg>, closes: Msg -> bool): seq<Msg> {
    if ms == [] then [] else if closes(ms[0]) then [ms[0]] else [ms[0]] + UpTo(ms[1..], closes)
  }

  lemma {:induction false} UpToAll(ms: seq<Msg>, closes: Msg -> bool)
    requires forall m :: m in ms ==> !closes(m)
    ensures UpTo(ms, closes) == ms
    decreases |ms|
  {
    if ms != [] {
      UpToAll(ms[1..], closes);
    }
  }

  lemma {:induction false} UpToFirst(ms: seq<Msg>, m: Msg, rest: seq<Msg>, closes: Msg -> bool)
    requires (forall x :: x in ms ==> !closes(x)) && closes(m)
    ensures UpTo(ms + [m] + rest, closes) == ms + [m]
    decreases |ms|
  {
    var all := ms + [m] + rest;
    if ms != [] {
      assert all[0] == ms[0] && all[1..] == ms[1..] + [m] + rest;
      UpToFirst(ms[1..], m, rest, closes);
    } else {
      assert all[0] == m;
    }
  }

  lemma YieldClosed(s: seq<byte>, got: seq<Msg>, rest: seq<byte>, closes: Msg -> bool)
    requires Yields(s, got, rest) && got != [] && closes(got[|got| - 1])
    requires forall m :: m in got[..|got| - 1] ==> !closes(m)
    ensures UpTo(Drain(s).0, closes) == got && got[|got| - 1] in Drain(s).0
  {
    hide Drain;
    var n := |got| - 1;
    assert got == got[..n] + [got[n]];
    UpToFirst(got[..n], got[n], Drain(rest).0, closes);
    assert Drain(s).0[n] == got[n];
  }

  class Receiver {
    const recvBuff: Buff
    /** The requests handed to `do_req`. */
    var delivered: seq<Msg>

    constructor ()
      ensures recvBuff.Valid() && recvBuff.Contents() == [] && delivered == []
      ensures fresh(recvBuff) && recvBuff.data == null
    {
      recvBuff := new Buff();
      delivered := [];
    }

    /** `check_req`: deliver the message at the front of the buffer, if it is all there. */
    method CheckReq(closes: Msg -> bool) returns (v: Verdict)
      requires recvBuff.Valid()
      modifies this`delivered, recvBuff`len, recvBuff.data
      ensures recvBuff.Valid()
      ensures var p := Parse(old(recvBuff.Contents()));
        if p.Parsed?
        then v == (if closes(p.m) then Close else Next) && delivered == old(delivered) + [p.m]
          && SIG_HEADSIZE + |p.m.body| <= |old(recvBuff.Contents())|
          && recvBuff.Contents() == old(recvBuff.Contents())[SIG_HEADSIZE + |p.m.body|..]
        else v == Wait && delivered == old(delivered) && recvBuff.Contents() == old(recvBuff.Contents())
    {
      v := Wait;
      var ok, data := recvBuff.GetData();
      if ok {
        var p := Parse(data);
        NeverTooLong(data);
        if p.Parsed? {
          delivered := delivered + [p.m];
          recvBuff.SkipData(SIG_HEADSIZE + |p.m.body|);
          v := if closes(p.m) then Close else Next;
        }
      }
    }

    /** `svc_recv` after a chunk has arrived: deliver until no whole message is left or the handler
        asks to close. `closes` says for which requests it does. */
    method SvcRecv(chunk: seq<byte>, closes: Msg -> bool) returns (closed: bool)
      requires recvBuff.Valid()
      modifies this`delivered, recvBuff`data, recvBuff`size, recvBuff`len, recvBuff.data
      ensures recvBuff.Valid()
      ensures var d := Drain(old(recvBuff.Contents()) + chunk);
        && delivered == old(delivered) + UpTo(d.0, closes)
        && (closed <==> exists m :: m in d.0 && closes(m))
        && (!closed ==> UpTo(d.0, closes) == d.0 && recvBuff.Contents() == d.1)
        && Yields(old(recvBuff.Contents()) + chunk, UpTo(d.0, closes), recvBuff.Contents())
      ensures recvBuff.data == old(recvBuff.data) || fresh(recvBuff.data)
    {
      hide Parse, Drain, Yields, UpTo;
      recvBuff.SetData(chunk);
      ghost var s := recvBuff.Contents();
      ghost var got := [];
      YieldStart(s);
      var v := Next;
      while v == Next
        invariant recvBuff.Valid() && delivered == old(delivered) + got
        invariant recvBuff.data == old(recvBuff.data) || fresh(recvBuff.data)
        invariant Yields(s, got, recvBuff.Contents())
        invariant v == Wait ==> !Parse(recvBuff.Contents()).Parsed?
        invariant v != Close ==> forall m :: m in got ==> !closes(m)
        invariant v == Close ==> got != [] && closes(got[|got| - 1]) && forall m :: m in got[..|got| - 1] ==> !closes(m)
        decreases v == Next, |recvBuff.Contents()|
      {
        ghost var front := recvBuff.Contents();
        v := CheckReq(closes);
        if v != Wait {
          YieldStep(s, got, front);
          assert (got + [Parse(front).m])[..|got|] == got;
          got := got + [Parse(front).m];
        }
      }
      closed := v == Close;
      if closed {
        YieldClosed(s, got, recvBuff.Contents(), closes);
      } else {
        YieldEnd(s, got, recvBuff.Contents());
        UpToAll(got, closes);
      }
    }
  }
}
