/**
 * The reporting service: framed messages whose submissions are streamed into a file as they
 * arrive, whatever the network and the disk do to their boundaries.
 */
module Poss {
  import opened Common

  const HEADSIZE: nat := 12
  const REQ_AUTH: nat := 0x00000001
  const REQ_SUBMIT: nat := 0x00000002
  const REQ_HEARTBEAT: nat := 0x00000005
  const RSP_PFS_CMD: nat := 0x80000008
  const WORD: nat := 0x1_0000_0000
  const HALF: nat := 0x8000_0000

  datatype Msg = Msg(cmdid: nat, seqno: nat, body: seq<byte>)

  predicate IsWhole(cmdid: nat) {
    cmdid == REQ_HEARTBEAT || cmdid == RSP_PFS_CMD || cmdid == REQ_AUTH
  }

  /** A message the service understands and whose length its `int` fields can hold. */
  predicate Good(m: Msg) {
    (IsWhole(m.cmdid) || m.cmdid == REQ_SUBMIT) && m.seqno < WORD && |m.body| < HALF
  }

  lemma GoodExactly(m: Msg)
    ensures Good(m) <==>
      && m.cmdid in {0x00000001, 0x00000002, 0x00000005, 0x80000008}
      && m.seqno < 0x1_0000_0000 && |m.body| < 0x8000_0000
  {
  }

  // The wire form

  function Big(n: nat): seq<byte>
    requires n < WORD
  {
    [n / 0x100_0000, n / 0x1_0000 % 256, n / 256 % 256, n % 256]
  }

  function Weigh(a: nat, b: nat, c: nat, d: nat): nat {
    ((a * 256 + b) * 256 + c) * 256 + d
  }

  function Small(s: seq<byte>, at: nat): nat
    requires at + 4 <= |s|
  {
    Weigh(s[at], s[at + 1], s[at + 2], s[at + 3])
  }

  function Head(m: Msg): seq<byte>
    requires Good(m)
  {
    Big(HEADSIZE + |m.body|) + Big(m.cmdid) + Big(m.seqno)
  }

  /** `create_msg`. */
  function Encode(m: Msg): seq<byte>
    requires Good(m)
  {
    Head(m) + m.body
  }

  lemma WeighBig(n: nat)
    requires n < WORD
    ensures Weigh(n / 0x100_0000, n / 0x1_0000 % 256, n / 256 % 256, n % 256) == n
  {
    assert n / 0x1_0000 == n / 0x100_0000 * 256 + n / 0x1_0000 % 256;
    assert n / 256 == n / 0x1_0000 * 256 + n / 256 % 256;
  }

  lemma SmallBig(n: nat, s: seq<byte>, at: nat)
    requires n < WORD && at + 4 <= |s| && s[at..at + 4] == Big(n)
    ensures Small(s, at) == n
  {
    var t := s[at..at + 4];
    assert s[at] == t[0] && s[at + 1] == t[1] && s[at + 2] == t[2] && s[at + 3] == t[3];
    WeighBig(n);
  }

  /** Four bytes of a header are read with the first having the highest weight. */
  lemma SmallWeighs(s: seq<byte>, at: nat)
    requires at + 4 <= |s|
    ensures Small(s, at)
         == 0x100_0000 * s[at] as nat + 0x1_0000 * s[at + 1] as nat + 0x100 * s[at + 2] as nat + s[at + 3] as nat
  {
  }

  /** On the wire a message is its whole length, its command, its number and its body. */
  lemma Layout(m: Msg)
    requires Good(m)
    ensures var s := Encode(m);
      && |s| == 12 + |m.body| && s[12..] == m.body
      && Small(s, 0) == |s| && Small(s, 4) == m.cmdid && Small(s, 8) == m.seqno
  {
    var s := Encode(m);
    assert |Big(12 + |m.body|)| == |Big(m.cmdid)| == |Big(m.seqno)| == 4;
    hide Small, Big;
    assert s[0..4] == Big(12 + |m.body|) && s[4..8] == Big(m.cmdid) && s[8..12] == Big(m.seqno);
    SmallBig(12 + |m.body|, s, 0);
    SmallBig(m.cmdid, s, 4);
    SmallBig(m.seqno, s, 8);
  }

  /** `totallen - HEADSIZE` as the `int` it is stored in. */
  function BodyInt(total: nat): int {
    var d := (total + WORD - HEADSIZE) % WORD;
    if d >= HALF then d - WORD else d
  }

  // The service

  /** `file` is everything written for submissions, `seen` the other messages handled. */
  datatype Peer = Peer(buf: seq<byte>, syncing: bool, dataLen: int, recvLen: int,
                       file: seq<byte>, seen: seq<Msg>, writes: nat)

  datatype Verdict = Stop | Next | In | Out | Close

  /** What `write` returns: an error, or a count no larger than offered. */
  function Clip(w: int, offered: nat): int {
    if w < 0 then -1 else if w > offered then offered else w
  }

  /** How much of the buffer is offered: a negative remainder compares as a huge unsigned one. */
  function Offered(avail: nat, remain: int): nat {
    if remain < 0 || avail <= remain then avail else remain
  }

  /** `sub_recv` while a body is being received; `w` gives the results of the successive writes. */
  function SubRecv(p: Peer, w: nat -> int): (Peer, Verdict) {
    if p.buf == [] then (p, In)
    else
      var n := Clip(w(p.writes), Offered(|p.buf|, p.dataLen - p.recvLen));
      if n < 0 then (p.(writes := p.writes + 1), Close)
      else
        var q := p.(buf := p.buf[n..], recvLen := p.recvLen + n, file := p.file + p.buf[..n], writes := p.writes + 1);
        if q.recvLen >= q.dataLen then (q.(syncing := false), Out) else (q, In)
  }

  function TotalLen(s: seq<byte>): nat
    requires |s| >= HEADSIZE
  {
    Small(s, 0)
  }

  function CmdId(s: seq<byte>): nat
    requires |s| >= HEADSIZE
  {
    Small(s, 4)
  }

  function SeqNo(s: seq<byte>): nat
    requires |s| >= HEADSIZE
  {
    Small(s, 8)
  }

  function Body(s: seq<byte>, total: nat): seq<byte>
    requires total <= |s|
  {
    if total < HEADSIZE then [] else s[HEADSIZE..total]
  }

  /** `process_data_req` up to its call of `sub_recv`. */
  function Begin(p: Peer): Peer
    requires |p.buf| >= HEADSIZE
  {
    p.(buf := p.buf[HEADSIZE..], syncing := true, dataLen := BodyInt(TotalLen(p.buf)), recvLen := 0)
  }

  /** `check_req`. */
  function CheckReq(p: Peer, w: nat -> int): (Peer, Verdict) {
    if |p.buf| < HEADSIZE then (p, Stop)
    else
      var total := TotalLen(p.buf);
      if IsWhole(CmdId(p.buf)) then
        if |p.buf| < total then (p, Stop)
        else (p.(buf := p.buf[total..], seen := p.seen + [Msg(CmdId(p.buf), SeqNo(p.buf), Body(p.buf, total))]), Next)
      else if CmdId(p.buf) == REQ_SUBMIT then SubRecv(Begin(p), w)
      else (p, Close)
  }

  /** A turn of the receive loop that goes on. */
  predicate GoesOn(v: Verdict) {
    v == Next || v == Out
  }

  datatype Round = Round(p: Peer, v: Verdict) | Spins(p: Peer)

  /** The loop of `svc_recv`; a turn that goes on without consuming anything would repeat for ever. */
  function Loop(p: Peer, w: nat -> int): Round
    decreases |p.buf|
  {
    var (q, v) := CheckReq(p, w);
    if !GoesOn(v) then Round(q, if v == Close then Close else In)
    else if |q.buf| < |p.buf| then Loop(q, w)
    else Spins(q)
  }

  /** `svc_recv`. */
  function SvcRecv(p: Peer, w: nat -> int): Round {
    if p.syncing then
      var (q, v) := SubRecv(p, w);
      if v == Out then Loop(q, w) else Round(q, v)
    else Loop(p, w)
  }

  /** The loop fails to make progress exactly on a whole message that claims a length of zero. */
  /** Where a write fails the connection is closed with the file as it was; a body ends when as much
      as its header said has been written. */
  lemma BodyTurn(p: Peer, w: nat -> int)
    requires p.buf != []
    ensures var (q, v) := SubRecv(p, w);
      && (v == Close <==> w(p.writes) < 0) && (v == Close ==> q.file == p.file && q.buf == p.buf)
      && (v == Out <==> w(p.writes) >= 0 && q.recvLen >= p.dataLen)
      && (v == Out ==> !q.syncing)
      && q.file + q.buf == p.file + p.buf && q.recvLen - p.recvLen == |q.file| - |p.file|
  {
    var n := Clip(w(p.writes), Offered(|p.buf|, p.dataLen - p.recvLen));
    if n >= 0 {
      assert p.buf[..n] + p.buf[n..] == p.buf;
      assert p.file + p.buf[..n] + p.buf[n..] == p.file + (p.buf[..n] + p.buf[n..]);
    }
  }

  /** A turn of the loop closes the connection on an unknown command, and otherwise only where the
      write of a body fails. */
  lemma ClosesExactly(p: Peer, w: nat -> int)
    ensures CheckReq(p, w).1 == Close <==>
      && |p.buf| >= 12 && CmdId(p.buf) !in {0x00000001, 0x00000005, 0x80000008}
      && (CmdId(p.buf) != 0x00000002 || (|p.buf| > 12 && w(p.writes) < 0))
  {
  }

  lemma SpinsExactly(p: Peer, w: nat -> int)
    ensures GoesOn(CheckReq(p, w).1) && |CheckReq(p, w).0.buf| >= |p.buf|
        <==> |p.buf| >= HEADSIZE && IsWhole(CmdId(p.buf)) && TotalLen(p.buf) == 0
  {
    hide TotalLen, CmdId, SeqNo, BodyInt;
  }

  /** A length is taken for a negative one exactly when it is shorter than a header or too long for an `int`. */
  lemma NegativeExactly(total: nat)
    requires total < WORD
    ensures BodyInt(total) < 0 <==> total < HEADSIZE || total >= HALF + HEADSIZE
  {
  }

  function AtLeastZero(n: int): nat {
    if n < 0 then 0 else n
  }

  /** A turn writes more than is left of the body it is in. */
  predicate Overruns(p: Peer, w: nat -> int) {
    |SubRecv(p, w).0.file| - |p.file| > AtLeastZero(p.dataLen - p.recvLen)
  }

  /** In a body, either nothing has been received or less than its length. */
  predicate Orderly(p: Peer) {
    p.syncing ==> p.recvLen == 0 || 0 < p.recvLen < p.dataLen
  }

  /**
   * Any turn in a body writes more than is left of it exactly when the claimed length is negative,
   * bytes are there and the write takes some; they may belong to other messages.
   */
  lemma OverrunsExactly(p: Peer, w: nat -> int)
    requires p.syncing && Orderly(p)
    ensures Overruns(p, w) <==> p.dataLen < 0 && p.buf != [] && w(p.writes) > 0
    ensures p.dataLen < 0 && p.buf != [] && w(p.writes) >= 0 ==>
      && SubRecv(p, w).1 == Out
      && SubRecv(p, w).0.file == p.file + p.buf[..Clip(w(p.writes), |p.buf|)]
  {
  }

  lemma SubRecvOrderly(p: Peer, w: nat -> int)
    requires Orderly(p) && p.syncing
    ensures Orderly(SubRecv(p, w).0) && (GoesOn(SubRecv(p, w).1) ==> !SubRecv(p, w).0.syncing)
  {
  }

  lemma CheckReqOrderly(p: Peer, w: nat -> int)
    requires !p.syncing
    ensures Orderly(CheckReq(p, w).0) && (GoesOn(CheckReq(p, w).1) ==> !CheckReq(p, w).0.syncing)
  {
    hide TotalLen, CmdId, SeqNo, BodyInt, SubRecv;
    if |p.buf| >= HEADSIZE {
      SubRecvOrderly(Begin(p), w);
    }
  }

  lemma {:induction false} LoopOrderly(p: Peer, w: nat -> int)
    requires !p.syncing
    ensures Orderly(Loop(p, w).p)
    decreases |p.buf|
  {
    hide CheckReq;
    CheckReqOrderly(p, w);
    var (q, v) := CheckReq(p, w);
    if GoesOn(v) && |q.buf| < |p.buf| {
      LoopOrderly(q, w);
    }
  }

  /** Every peer reached on any bytes at all, good messages or not, is orderly. */
  lemma {:induction false} ServeOrderly(p: Peer, chunks: seq<seq<byte>>, w: nat -> int)
    requires Orderly(p)
    ensures Orderly(Serve(p, chunks, w).p)
    decreases |chunks|
  {
    hide SubRecv, Loop;
    if chunks != [] {
      var q := p.(buf := p.buf + chunks[0]);
      if q.syncing {
        SubRecvOrderly(q, w);
        LoopOrderly(SubRecv(q, w).0.(syncing := false), w);
        var (t, v) := SubRecv(q, w);
        assert v == Out ==> t.(syncing := false) == t;
      } else {
        LoopOrderly(q, w);
      }
      ServeOrderly(SvcRecv(q, w).p, chunks[1..], w);
    }
  }

  /** The header of a submission that claims `total` bytes. */
  function Claim(total: nat, seqno: nat): seq<byte>
    requires total < WORD && seqno < WORD
  {
    Big(total) + Big(REQ_SUBMIT) + Big(seqno)
  }

  lemma ClaimRead(total: nat, seqno: nat)
    requires total < WORD && seqno < WORD
    ensures var h := Claim(total, seqno);
      |h| == HEADSIZE && TotalLen(h) == total && CmdId(h) == REQ_SUBMIT
  {
    var h := Claim(total, seqno);
    assert h[0..4] == Big(total) && h[4..8] == Big(REQ_SUBMIT);
    SmallBig(total, h, 0);
    SmallBig(REQ_SUBMIT, h, 4);
  }

  /** When a header that claims less than a header arrives alone, the next chunk goes into the file whole. */
  lemma NextChunkSwallowed(total: nat, seqno: nat, chunk: seq<byte>, w: nat -> int)
    requires total < HEADSIZE && seqno < WORD && chunk != [] && w(0) >= |chunk|
    ensures var r := Serve(FRESH, [Claim(total, seqno), chunk], w);
      r.Round? && r.v == In && r.p.file == chunk && r.p.buf == [] && r.p.seen == []
  {
    hide TotalLen, CmdId, SeqNo, BodyInt, Claim;
    var h := Claim(total, seqno);
    ClaimRead(total, seqno);
    NegativeExactly(total);
    var p := FRESH.(buf := FRESH.buf + h);
    assert p.buf == h;
    var q := Begin(p);
    assert q.buf == [];
    assert SvcRecv(p, w) == Round(q, In);
    var t := q.(buf := q.buf + chunk);
    assert t.buf == chunk && chunk[|chunk|..] == [] && chunk[..|chunk|] == chunk && [] + chunk == chunk;
    var done := t.(buf := [], recvLen := |chunk|, file := chunk, writes := 1, syncing := false);
    assert SubRecv(t, w) == (done, Out);
    assert SvcRecv(t, w) == Round(done, In);
    assert [h, chunk][1..] == [chunk] && [chunk][1..] == [];
    assert Serve(done, [], w) == Round(done, In);
    assert Serve(q, [chunk], w) == Round(done, In);
  }

  /** A body stops short of the buffered bytes, until more arrive, exactly when a write is cut short. */
  lemma StallsExactly(p: Peer, w: nat -> int)
    requires p.buf != [] && 0 <= p.recvLen <= p.dataLen
    ensures
      var (q, v) := SubRecv(p, w);
      var offered := Offered(|p.buf|, p.dataLen - p.recvLen);
      v == In && q.buf != [] <==> 0 <= Clip(w(p.writes), offered) < offered
  {
  }

  // What a stream of messages should leave behind

  predicate AllGood(ms: seq<Msg>) {
    forall i :: 0 <= i < |ms| ==> Good(ms[i])
  }

  function Streamed(m: Msg): seq<byte> {
    if m.cmdid == REQ_SUBMIT then m.body else []
  }

  function Others(m: Msg): seq<Msg> {
    if m.cmdid == REQ_SUBMIT then [] else [m]
  }

  /** The bodies submitted by the first `k` messages. */
  function Written(ms: seq<Msg>, k: nat): seq<byte>
    requires k <= |ms|
  {
    if k == 0 then [] else Written(ms, k - 1) + Streamed(ms[k - 1])
  }

  function Handled(ms: seq<Msg>, k: nat): seq<Msg>
    requires k <= |ms|
  {
    if k == 0 then [] else Handled(ms, k - 1) + Others(ms[k - 1])
  }

  /** The wire form of the messages from `k` on. */
  function EncodeFrom(ms: seq<Msg>, k: nat): seq<byte>
    requires AllGood(ms)
    decreases |ms| - k
  {
    if k >= |ms| then [] else Encode(ms[k]) + EncodeFrom(ms, k + 1)
  }

  /** What must still be consumed when the first `k` messages are done and `r` bytes of the next body. */
  function Ahead(ms: seq<Msg>, k: nat, syncing: bool, r: int): seq<byte>
    requires AllGood(ms)
  {
    if !syncing then EncodeFrom(ms, k)
    else if k < |ms| && 0 <= r <= |ms[k].body| then ms[k].body[r..] + EncodeFrom(ms, k + 1)
    else []
  }

  /** The peer is inside the body of message `k`. */
  predicate Inside(p: Peer, ms: seq<Msg>, k: nat) {
    && k < |ms|
    && ms[k].cmdid == REQ_SUBMIT
    && p.dataLen == |ms[k].body|
    && 0 <= p.recvLen <= |ms[k].body|
  }

  /** The first `k` messages are done; `rest` has not arrived yet. */
  ghost predicate At(p: Peer, ms: seq<Msg>, k: nat, rest: seq<byte>)
    requires AllGood(ms)
  {
    && k <= |ms|
    && (p.syncing ==> Inside(p, ms, k))
    && p.buf + rest == Ahead(ms, k, p.syncing, p.recvLen)
    && p.file == Written(ms, k) + (if p.syncing then ms[k].body[..p.recvLen] else [])
    && p.seen == Handled(ms, k)
  }

  /** Two readings of one stream: taking `n` bytes of the first reading takes them of the second. */
  lemma Split(buf: seq<byte>, rest: seq<byte>, a: seq<byte>, b: seq<byte>, n: nat)
    requires buf + rest == a + b && n <= |a| && n <= |buf|
    ensures buf[..n] == a[..n] && buf[n..] + rest == a[n..] + b
  {
    assert buf[..n] == (buf + rest)[..n] && a[..n] == (a + b)[..n];
    assert buf[n..] + rest == (buf + rest)[n..] && a[n..] + b == (a + b)[n..];
  }

  /** The header of the next message is read as written. */
  lemma HeadRead(m: Msg, buf: seq<byte>)
    requires Good(m) && |buf| >= HEADSIZE && buf[..HEADSIZE] == Head(m)
    ensures TotalLen(buf) == HEADSIZE + |m.body| && CmdId(buf) == m.cmdid && SeqNo(buf) == m.seqno
  {
    var h := Head(m);
    assert buf[0..4] == h[0..4] == Big(HEADSIZE + |m.body|);
    assert buf[4..8] == h[4..8] == Big(m.cmdid);
    assert buf[8..12] == h[8..12] == Big(m.seqno);
    SmallBig(HEADSIZE + |m.body|, buf, 0);
    SmallBig(m.cmdid, buf, 4);
    SmallBig(m.seqno, buf, 8);
  }

  lemma BodyIntGood(n: nat)
    requires n < HALF
    ensures BodyInt(HEADSIZE + n) == n
  {
  }

  /** The next message, its header read from the buffer, and what follows its header. */
  lemma NextHead(p: Peer, ms: seq<Msg>, k: nat, rest: seq<byte>)
    requires AllGood(ms) && At(p, ms, k, rest) && !p.syncing && |p.buf| >= HEADSIZE
    ensures k < |ms|
    ensures TotalLen(p.buf) == HEADSIZE + |ms[k].body|
    ensures CmdId(p.buf) == ms[k].cmdid && SeqNo(p.buf) == ms[k].seqno
    ensures p.buf[HEADSIZE..] + rest == ms[k].body + EncodeFrom(ms, k + 1)
  {
    hide TotalLen, CmdId, SeqNo, Big, Good, Written, Handled, Head;
    assert k < |ms| by {
      assert |p.buf + rest| >= HEADSIZE;
    }
    var m := ms[k];
    assert Good(m);
    HeadLength(m);
    assert Encode(m) + EncodeFrom(ms, k + 1) == Head(m) + (m.body + EncodeFrom(ms, k + 1));
    Split(p.buf, rest, Head(m), m.body + EncodeFrom(ms, k + 1), HEADSIZE);
    HeadRead(m, p.buf);
    assert Head(m)[HEADSIZE..] == [];
    assert [] + (m.body + EncodeFrom(ms, k + 1)) == m.body + EncodeFrom(ms, k + 1);
  }

  lemma HeadLength(m: Msg)
    requires Good(m)
    ensures |Head(m)| == HEADSIZE
  {
  }

  function Advance(p: Peer, n: nat): Peer
    requires n <= |p.buf|
  {
    p.(buf := p.buf[n..], recvLen := p.recvLen + n, file := p.file + p.buf[..n], writes := p.writes + 1)
  }

  lemma AdvanceKeeps(p: Peer, ms: seq<Msg>, k: nat, rest: seq<byte>, n: nat)
    requires AllGood(ms) && At(p, ms, k, rest) && p.syncing
    requires n <= |p.buf| && p.recvLen + n <= p.dataLen
    ensures At(Advance(p, n), ms, k, rest)
  {
    hide EncodeFrom, Good, AllGood, Written, Handled;
    var body, r := ms[k].body, p.recvLen;
    Split(p.buf, rest, body[r..], EncodeFrom(ms, k + 1), n);
    assert body[r..][..n] == body[r..r + n] && body[r..][n..] == body[r + n..];
    Extend(Written(ms, k), body, r, n);
  }

  lemma Extend(done: seq<byte>, body: seq<byte>, r: nat, n: nat)
    requires r + n <= |body|
    ensures done + body[..r] + body[r..r + n] == done + body[..r + n]
  {
    assert body[..r] + body[r..r + n] == body[..r + n];
  }

  lemma FinishKeeps(p: Peer, ms: seq<Msg>, k: nat, rest: seq<byte>)
    requires AllGood(ms) && At(p, ms, k, rest) && p.syncing && p.recvLen == p.dataLen
    ensures At(p.(syncing := false), ms, k + 1, rest)
  {
    hide EncodeFrom, Good, AllGood;
    var body := ms[k].body;
    assert body[..p.recvLen] == body && body[p.recvLen..] + EncodeFrom(ms, k + 1) == EncodeFrom(ms, k + 1);
    assert Handled(ms, k + 1) == Handled(ms, k);
    assert Written(ms, k + 1) + [] == Written(ms, k + 1);
  }

  /** A short, whole or failed write keeps the account; the message is done when its body is. */
  lemma SubRecvKeeps(p: Peer, ms: seq<Msg>, k: nat, rest: seq<byte>, w: nat -> int)
    requires AllGood(ms) && At(p, ms, k, rest) && p.syncing
    ensures var (q, v) := SubRecv(p, w); At(q, ms, if v == Out then k + 1 else k, rest)
    ensures SubRecv(p, w).1 == In ==> SubRecv(p, w).0.syncing
    ensures |SubRecv(p, w).0.buf| <= |p.buf|
  {
    hide EncodeFrom, Good, AllGood, Ahead, Written, Handled;
    if p.buf != [] {
      var n := Clip(w(p.writes), Offered(|p.buf|, p.dataLen - p.recvLen));
      if n >= 0 {
        AdvanceKeeps(p, ms, k, rest, n);
        if p.recvLen + n == p.dataLen {
          FinishKeeps(Advance(p, n), ms, k, rest);
        }
      }
    }
  }

  /** One turn of the loop keeps the account, and a turn that goes on consumes a header at least. */
  lemma CheckReqKeeps(p: Peer, ms: seq<Msg>, k: nat, rest: seq<byte>, w: nat -> int)
    requires AllGood(ms) && At(p, ms, k, rest) && !p.syncing
    ensures var (q, v) := CheckReq(p, w);
      && At(q, ms, if GoesOn(v) then k + 1 else k, rest)
      && (GoesOn(v) ==> k < |ms| && !q.syncing && |q.buf| < |p.buf|)
  {
    hide EncodeFrom, TotalLen, CmdId, SeqNo, BodyInt, SubRecv, Written, Handled, Begin;
    if |p.buf| >= HEADSIZE {
      NextHead(p, ms, k, rest);
      var m := ms[k];
      assert Good(m);
      if IsWhole(m.cmdid) {
        WholeKeeps(p, ms, k, rest, w);
      } else {
        SubmitKeeps(p, ms, k, rest, w);
      }
    }
  }

  lemma WholeKeeps(p: Peer, ms: seq<Msg>, k: nat, rest: seq<byte>, w: nat -> int)
    requires AllGood(ms) && At(p, ms, k, rest) && !p.syncing && |p.buf| >= HEADSIZE
    requires k < |ms| && TotalLen(p.buf) == HEADSIZE + |ms[k].body|
    requires CmdId(p.buf) == ms[k].cmdid && SeqNo(p.buf) == ms[k].seqno
    requires p.buf[HEADSIZE..] + rest == ms[k].body + EncodeFrom(ms, k + 1)
    requires IsWhole(ms[k].cmdid)
    ensures var (q, v) := CheckReq(p, w);
      && At(q, ms, if GoesOn(v) then k + 1 else k, rest)
      && (GoesOn(v) ==> !q.syncing && |q.buf| < |p.buf|)
  {
    hide EncodeFrom, Good, AllGood, TotalLen, CmdId, SeqNo, BodyInt;
    var total := TotalLen(p.buf);
    if |p.buf| >= total {
      var m := ms[k];
      Split(p.buf[HEADSIZE..], rest, m.body, EncodeFrom(ms, k + 1), |m.body|);
      assert p.buf[HEADSIZE..total] == p.buf[HEADSIZE..][..|m.body|] == m.body;
      assert p.buf[total..] == p.buf[HEADSIZE..][|m.body|..];
      assert m.body[|m.body|..] + EncodeFrom(ms, k + 1) == EncodeFrom(ms, k + 1);
    }
  }

  lemma SubmitKeeps(p: Peer, ms: seq<Msg>, k: nat, rest: seq<byte>, w: nat -> int)
    requires AllGood(ms) && At(p, ms, k, rest) && !p.syncing && |p.buf| >= HEADSIZE
    requires k < |ms| && TotalLen(p.buf) == HEADSIZE + |ms[k].body|
    requires CmdId(p.buf) == ms[k].cmdid == REQ_SUBMIT
    requires p.buf[HEADSIZE..] + rest == ms[k].body + EncodeFrom(ms, k + 1)
    ensures var (q, v) := CheckReq(p, w);
      && At(q, ms, if GoesOn(v) then k + 1 else k, rest)
      && (GoesOn(v) ==> !q.syncing && |q.buf| < |p.buf|)
  {
    hide EncodeFrom, TotalLen, CmdId, SeqNo, BodyInt, At;
    BeginAt(p, ms, k, rest);
    SubRecvKeeps(Begin(p), ms, k, rest, w);
  }

  lemma BeginAt(p: Peer, ms: seq<Msg>, k: nat, rest: seq<byte>)
    requires AllGood(ms) && At(p, ms, k, rest) && !p.syncing && |p.buf| >= HEADSIZE
    requires k < |ms| && TotalLen(p.buf) == HEADSIZE + |ms[k].body| && ms[k].cmdid == REQ_SUBMIT
    requires p.buf[HEADSIZE..] + rest == ms[k].body + EncodeFrom(ms, k + 1)
    ensures At(Begin(p), ms, k, rest) && Begin(p).syncing
  {
    hide EncodeFrom, TotalLen, BodyInt;
    var m := ms[k];
    BodyIntGood(|m.body|);
    assert m.body[0..] == m.body && Written(ms, k) + m.body[..0] == Written(ms, k);
  }

  // Whole runs

  /** The account balances at some message. */
  ghost predicate Tracks(p: Peer, ms: seq<Msg>, rest: seq<byte>)
    requires AllGood(ms)
  {
    exists k :: 0 <= k && At(p, ms, k, rest)
  }

  lemma {:induction false} LoopKeeps(p: Peer, ms: seq<Msg>, k: nat, rest: seq<byte>, w: nat -> int)
    requires AllGood(ms) && At(p, ms, k, rest) && !p.syncing
    ensures Loop(p, w).Round? && Tracks(Loop(p, w).p, ms, rest)
    decreases |p.buf|
  {
    hide At, CheckReq, AllGood;
    CheckReqKeeps(p, ms, k, rest, w);
    var (q, v) := CheckReq(p, w);
    if GoesOn(v) {
      LoopKeeps(q, ms, k + 1, rest, w);
    }
  }

  lemma SvcRecvKeeps(p: Peer, ms: seq<Msg>, rest: seq<byte>, w: nat -> int)
    requires AllGood(ms) && Tracks(p, ms, rest)
    ensures SvcRecv(p, w).Round? && Tracks(SvcRecv(p, w).p, ms, rest)
  {
    hide Loop, AllGood, Ahead, Written, Handled;
    var k: nat :| At(p, ms, k, rest);
    if p.syncing {
      SubRecvKeeps(p, ms, k, rest, w);
      var (q, v) := SubRecv(p, w);
      if v == Out {
        LoopKeeps(q, ms, k + 1, rest, w);
      }
    } else {
      LoopKeeps(p, ms, k, rest, w);
    }
  }

  lemma ArriveKeeps(p: Peer, ms: seq<Msg>, chunk: seq<byte>, rest: seq<byte>)
    requires AllGood(ms) && Tracks(p, ms, chunk + rest)
    ensures Tracks(p.(buf := p.buf + chunk), ms, rest)
  {
    hide Written, Handled, Ahead, AllGood;
    var k: nat :| At(p, ms, k, chunk + rest);
    assert p.buf + chunk + rest == p.buf + (chunk + rest);
    assert At(p.(buf := p.buf + chunk), ms, k, rest);
  }

  /** `svc_recv` after every chunk, until the connection is closed. */
  function Serve(p: Peer, chunks: seq<seq<byte>>, w: nat -> int): Round
    decreases |chunks|
  {
    if chunks == [] then Round(p, In)
    else
      var r := SvcRecv(p.(buf := p.buf + chunks[0]), w);
      if r.Spins? || r.v == Close then r else Serve(r.p, chunks[1..], w)
  }

  /** The chunks still to come when a run that was closed stopped early, and `rest` after them. */
  lemma {:induction false} ServeKeeps(p: Peer, ms: seq<Msg>, chunks: seq<seq<byte>>, rest: seq<byte>, w: nat -> int)
    requires AllGood(ms) && Tracks(p, ms, Joined(chunks) + rest)
    ensures var r := Serve(p, chunks, w);
      && r.Round?
      && exists left :: Tracks(r.p, ms, left) && (r.v != Close ==> left == rest)
    decreases |chunks|
  {
    hide Tracks, SvcRecv, AllGood;
    if chunks == [] {
      assert Joined(chunks) + rest == rest;
    } else {
      var later := Joined(chunks[1..]) + rest;
      assert Joined(chunks) + rest == chunks[0] + later;
      ArriveKeeps(p, ms, chunks[0], later);
      var q := p.(buf := p.buf + chunks[0]);
      SvcRecvKeeps(q, ms, later, w);
      var r := SvcRecv(q, w);
      if r.v != Close {
        ServeKeeps(r.p, ms, chunks[1..], rest, w);
      }
    }
  }

  const FRESH: Peer := Peer([], false, 0, 0, [], [], 0)

  /**
   * Any stream of good messages, cut into any chunks and written with any short writes: the file
   * is at every moment a prefix of the submitted bodies, and nothing else is ever written to it.
   */
  lemma FileIsPrefix(ms: seq<Msg>, chunks: seq<seq<byte>>, rest: seq<byte>, w: nat -> int)
    requires AllGood(ms) && Joined(chunks) + rest == EncodeFrom(ms, 0)
    ensures Serve(FRESH, chunks, w).Round?
    ensures Serve(FRESH, chunks, w).p.file <= Written(ms, |ms|)
    ensures Serve(FRESH, chunks, w).p.seen <= Handled(ms, |ms|)
  {
    hide Serve, EncodeFrom, At, Written, Handled, AllGood;
    FreshTracks(ms);
    ServeKeeps(FRESH, ms, chunks, rest, w);
    var r := Serve(FRESH, chunks, w);
    var left :| Tracks(r.p, ms, left);
    var k: nat :| At(r.p, ms, k, left);
    AtPrefix(r.p, ms, k, left);
  }

  lemma AtPrefix(p: Peer, ms: seq<Msg>, k: nat, rest: seq<byte>)
    requires AllGood(ms) && At(p, ms, k, rest)
    ensures p.file <= Written(ms, |ms|) && p.seen <= Handled(ms, |ms|)
  {
    hide EncodeFrom, Good, AllGood, Ahead, Written, Handled;
    Monotone(ms, k);
    if p.syncing {
      Monotone(ms, k + 1);
      Submitted(ms, k);
      PartIsPrefix(Written(ms, k), ms[k].body, p.recvLen, Written(ms, |ms|));
    }
  }

  lemma Submitted(ms: seq<Msg>, k: nat)
    requires k < |ms| && ms[k].cmdid == REQ_SUBMIT
    ensures Written(ms, k + 1) == Written(ms, k) + ms[k].body && Handled(ms, k + 1) == Handled(ms, k)
  {
    assert Handled(ms, k) + [] == Handled(ms, k);
  }

  lemma PartIsPrefix(done: seq<byte>, body: seq<byte>, r: nat, all: seq<byte>)
    requires r <= |body| && done + body <= all
    ensures done + body[..r] <= all
  {
    assert done + body[..r] == (done + body)[..|done| + r] == all[..|done| + r];
  }

  lemma FreshTracks(ms: seq<Msg>)
    requires AllGood(ms)
    ensures Tracks(FRESH, ms, EncodeFrom(ms, 0))
  {
    hide EncodeFrom;
    assert [] + EncodeFrom(ms, 0) == EncodeFrom(ms, 0);
    assert At(FRESH, ms, 0, EncodeFrom(ms, 0));
  }

  lemma {:induction false} Monotone(ms: seq<Msg>, k: nat)
    requires k <= |ms|
    ensures Written(ms, k) <= Written(ms, |ms|)
    ensures Handled(ms, k) <= Handled(ms, |ms|)
    decreases |ms| - k
  {
    hide Streamed, Others;
    if k < |ms| {
      Monotone(ms, k + 1);
      Shorter(Written(ms, k), Streamed(ms[k]), Written(ms, |ms|));
      Shorter(Handled(ms, k), Others(ms[k]), Handled(ms, |ms|));
    }
  }

  lemma Shorter<T>(a: seq<T>, b: seq<T>, c: seq<T>)
    requires a + b <= c
    ensures a <= c
  {
    assert a == (a + b)[..|a|] == c[..|a|];
  }

  /** When everything has arrived and been consumed, every body is in the file and every other message seen. */
  lemma AllWritten(ms: seq<Msg>, chunks: seq<seq<byte>>, w: nat -> int)
    requires AllGood(ms) && Joined(chunks) == EncodeFrom(ms, 0)
    requires var r := Serve(FRESH, chunks, w); r.Round? && r.v != Close && r.p.buf == []
    ensures Serve(FRESH, chunks, w).p.file == Written(ms, |ms|)
    ensures Serve(FRESH, chunks, w).p.seen == Handled(ms, |ms|)
  {
    hide Serve, EncodeFrom, At, Written, Handled, AllGood;
    assert Joined(chunks) + [] == Joined(chunks);
    FreshTracks(ms);
    ServeKeeps(FRESH, ms, chunks, [], w);
    var p := Serve(FRESH, chunks, w).p;
    var k: nat :| At(p, ms, k, []);
    Exhausted(p, ms, k);
  }

  /** With nothing left ahead, the last message is done, or is a submission received to its end. */
  lemma Exhausted(p: Peer, ms: seq<Msg>, k: nat)
    requires AllGood(ms) && At(p, ms, k, []) && p.buf == []
    ensures p.file == Written(ms, |ms|) && p.seen == Handled(ms, |ms|)
  {
    hide EncodeFrom, Good, AllGood, Written, Handled;
    if p.syncing {
      NothingLeft(ms, k + 1);
      Submitted(ms, k);
      assert |ms[k].body[p.recvLen..] + EncodeFrom(ms, k + 1)| == 0;
      assert ms[k].body[..p.recvLen] == ms[k].body;
    } else {
      NothingLeft(ms, k);
    }
  }

  lemma NothingLeft(ms: seq<Msg>, k: nat)
    requires AllGood(ms) && k <= |ms|
    ensures EncodeFrom(ms, k) == [] <==> k == |ms|
  {
    if k < |ms| {
      HeadLength(ms[k]);
    }
  }

  // A disk that takes everything offered

  /** Every write takes all it is offered; a body is shorter than this. */
  ghost predicate Full(w: nat -> int) {
    forall i :: w(i) >= HALF
  }

  /** Nothing can be done until more bytes arrive. */
  predicate Rests(p: Peer, w: nat -> int) {
    p.buf == [] || (!p.syncing && CheckReq(p, w).1 == Stop)
  }

  lemma SubRecvFull(p: Peer, ms: seq<Msg>, k: nat, rest: seq<byte>, w: nat -> int)
    requires AllGood(ms) && At(p, ms, k, rest) && p.syncing && Full(w)
    ensures var (q, v) := SubRecv(p, w); v == Out || (v == In && q.buf == [])
  {
    hide EncodeFrom, Ahead, Written, Handled;
    assert Good(ms[k]);
    assert w(p.writes) >= HALF;
  }

  lemma CheckReqFull(p: Peer, ms: seq<Msg>, k: nat, rest: seq<byte>, w: nat -> int)
    requires AllGood(ms) && At(p, ms, k, rest) && !p.syncing && Full(w)
    ensures var (q, v) := CheckReq(p, w); GoesOn(v) || (v == Stop && q == p) || (v == In && q.buf == [])
  {
    hide EncodeFrom, Good, TotalLen, CmdId, SeqNo, BodyInt, Written, Handled, SubRecv;
    if |p.buf| >= HEADSIZE {
      NextHead(p, ms, k, rest);
      assert Good(ms[k]);
      KnownCommand(ms[k]);
      if !IsWhole(ms[k].cmdid) {
        BeginAt(p, ms, k, rest);
        SubRecvFull(Begin(p), ms, k, rest, w);
      }
    }
  }

  lemma KnownCommand(m: Msg)
    requires Good(m)
    ensures IsWhole(m.cmdid) || m.cmdid == REQ_SUBMIT
  {
  }

  lemma {:induction false} LoopRests(p: Peer, ms: seq<Msg>, k: nat, rest: seq<byte>, w: nat -> int)
    requires AllGood(ms) && At(p, ms, k, rest) && !p.syncing && Full(w)
    ensures Loop(p, w).Round? && Loop(p, w).v == In && Rests(Loop(p, w).p, w)
    decreases |p.buf|
  {
    hide At, CheckReq, AllGood, Full;
    CheckReqKeeps(p, ms, k, rest, w);
    CheckReqFull(p, ms, k, rest, w);
    var (q, v) := CheckReq(p, w);
    if GoesOn(v) {
      LoopRests(q, ms, k + 1, rest, w);
    }
  }

  lemma SvcRecvRests(p: Peer, ms: seq<Msg>, rest: seq<byte>, w: nat -> int)
    requires AllGood(ms) && Tracks(p, ms, rest) && Full(w)
    ensures SvcRecv(p, w).Round? && SvcRecv(p, w).v == In && Rests(SvcRecv(p, w).p, w)
  {
    hide Loop, AllGood, Ahead, Written, Handled, Full, CheckReq;
    var k: nat :| At(p, ms, k, rest);
    if p.syncing {
      SubRecvKeeps(p, ms, k, rest, w);
      SubRecvFull(p, ms, k, rest, w);
      var (q, v) := SubRecv(p, w);
      if v == Out {
        LoopRests(q, ms, k + 1, rest, w);
      }
    } else {
      LoopRests(p, ms, k, rest, w);
    }
  }

  lemma {:induction false} ServeRests(p: Peer, ms: seq<Msg>, chunks: seq<seq<byte>>, w: nat -> int)
    requires AllGood(ms) && Tracks(p, ms, Joined(chunks)) && Full(w) && Rests(p, w)
    ensures var r := Serve(p, chunks, w); r.Round? && r.v == In && Rests(r.p, w) && Tracks(r.p, ms, [])
    decreases |chunks|
  {
    hide Tracks, SvcRecv, AllGood, Full, Rests;
    if chunks != [] {
      var later := Joined(chunks[1..]);
      ArriveKeeps(p, ms, chunks[0], later);
      var q := p.(buf := p.buf + chunks[0]);
      SvcRecvKeeps(q, ms, later, w);
      SvcRecvRests(q, ms, later, w);
      ServeRests(SvcRecv(q, w).p, ms, chunks[1..], w);
    }
  }

  /** A peer at rest to which nothing more is due has consumed everything. */
  lemma RestMeansDone(p: Peer, ms: seq<Msg>, k: nat, w: nat -> int)
    requires AllGood(ms) && At(p, ms, k, []) && Rests(p, w)
    ensures p.buf == []
  {
    hide Good, TotalLen, CmdId, SeqNo, BodyInt, Written, Handled, EncodeFrom;
    if p.buf != [] {
      assert p.buf + [] == p.buf;
      NothingLeft(ms, k);
      StreamLength(ms, k);
      NextHead(p, ms, k, []);
      assert Good(ms[k]);
      KnownCommand(ms[k]);
      NeverStops(Begin(p), w);
      assert false;
    }
  }

  /** The loop's verdict is that of its last turn: the connection is closed if that turn closes it, and
      otherwise waits for more. */
  lemma {:induction false} LoopEnds(p: Peer, w: nat -> int) returns (q: Peer)
    ensures Loop(p, w).Round? ==>
      && !GoesOn(CheckReq(q, w).1) && Loop(p, w).p == CheckReq(q, w).0
      && Loop(p, w).v == if CheckReq(q, w).1 == Close then Close else In
    decreases |p.buf|
  {
    hide CheckReq;
    q := p;
    var (r, v) := CheckReq(p, w);
    if GoesOn(v) && |r.buf| < |p.buf| {
      q := LoopEnds(r, w);
    }
  }

  lemma NeverStops(p: Peer, w: nat -> int)
    ensures SubRecv(p, w).1 != Stop
  {
  }

  lemma StreamLength(ms: seq<Msg>, k: nat)
    requires AllGood(ms) && k < |ms|
    ensures |EncodeFrom(ms, k)| >= HEADSIZE + |ms[k].body|
  {
    HeadLength(ms[k]);
  }

  /** However the stream is cut, when writes are not cut short every body ends up in the file. */
  lemma FullWritesDeliver(ms: seq<Msg>, chunks: seq<seq<byte>>, w: nat -> int)
    requires AllGood(ms) && Joined(chunks) == EncodeFrom(ms, 0) && Full(w)
    ensures var r := Serve(FRESH, chunks, w);
      r.Round? && r.v == In && r.p.buf == [] && r.p.file == Written(ms, |ms|) && r.p.seen == Handled(ms, |ms|)
  {
    hide Serve, EncodeFrom, At, Written, Handled, AllGood, Full, CheckReq;
    FreshTracks(ms);
    ServeRests(FRESH, ms, chunks, w);
    var p := Serve(FRESH, chunks, w).p;
    var k: nat :| At(p, ms, k, []);
    RestMeansDone(p, ms, k, w);
    Exhausted(p, ms, k);
  }
}
