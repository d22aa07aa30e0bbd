/** The reporting service's receive path on its connection buffer. */
module PossService {
  import opened Common
  import opened MyBuff
  import opened Poss

  class Service {
    const recvBuff: Buff
    var syncing: bool
    var dataLen: int
    var recvLen: int
    /** The bytes appended to the local file. */
    var file: seq<byte>
    var seen: seq<Msg>
    var writes: nat

    ghost predicate Valid()
      reads this, recvBuff
    {
      recvBuff.Valid()
    }

    ghost function State(): Peer
      requires Valid()
      reads this, recvBuff, recvBuff.data
    {
      Peer(recvBuff.Contents(), syncing, dataLen, recvLen, file, seen, writes)
    }

    constructor ()
      ensures Valid() && State() == FRESH && fresh(recvBuff) && recvBuff.data == null
    {
      recvBuff := new Buff();
      syncing, dataLen, recvLen, file, seen, writes := false, 0, 0, [], [], 0;
    }

    method ReceiveBody(w: nat -> int) returns (v: Verdict)
      requires Valid()
      modifies this, recvBuff`len, recvBuff.data
      ensures Valid() && (State(), v) == SubRecv(old(State()), w)
    {
      var ok, data := recvBuff.GetData();
      if !ok {
        return In;
      }
      var n := Clip(w(writes), Offered(|data|, dataLen - recvLen));
      writes := writes + 1;
      if n < 0 {
        return Close;
      }
      file := file + data[..n];
      recvBuff.SkipData(n);
      recvLen := recvLen + n;
      if recvLen >= dataLen {
        syncing := false;
        v := Out;
      } else {
        v := In;
      }
    }

    method BeginBody(ghost s: seq<byte>, total: nat)
      requires Valid() && s == recvBuff.Contents() && |s| >= HEADSIZE && total == TotalLen(s)
      modifies this, recvBuff`len, recvBuff.data
      ensures Valid() && State() == Begin(old(State()))
    {
      hide TotalLen, BodyInt;
      syncing := true;
      dataLen := BodyInt(total);
      recvLen := 0;
      recvBuff.SkipData(HEADSIZE);
    }

    method CheckRequest(w: nat -> int) returns (v: Verdict)
      requires Valid()
      modifies this, recvBuff`len, recvBuff.data
      ensures Valid() && (State(), v) == CheckReq(old(State()), w)
    {
      hide TotalLen, CmdId, SeqNo, SubRecv, Begin;
      var ok, data := recvBuff.GetData();
      if !ok || |data| < HEADSIZE {
        return Stop;
      }
      var total := TotalLen(data);
      if IsWhole(CmdId(data)) {
        if |data| < total {
          return Stop;
        }
        seen := seen + [Msg(CmdId(data), SeqNo(data), Body(data, total))];
        recvBuff.SkipData(total);
        assert recvBuff.Contents() == data[total..];
        v := Next;
      } else if CmdId(data) == REQ_SUBMIT {
        BeginBody(data, total);
        v := ReceiveBody(w);
      } else {
        v := Close;
      }
    }

    /** The receive loop, on a state from which it ends. */
    method ReceiveLoop(w: nat -> int) returns (v: Verdict)
      requires Valid() && Loop(State(), w).Round?
      modifies this, recvBuff`len, recvBuff.data
      ensures Valid() && Round(State(), v) == Loop(old(State()), w)
    {
      hide CheckReq;
      v := Next;
      while GoesOn(v)
        invariant Valid() && (GoesOn(v) ==> Loop(State(), w) == Loop(old(State()), w))
        invariant !GoesOn(v) ==> Loop(old(State()), w) == Round(State(), if v == Close then Close else In)
        decreases GoesOn(v), |recvBuff.Contents()|
      {
        v := CheckRequest(w);
      }
      v := if v == Close then Close else In;
    }

    /** `svc_recv` when a chunk has been added to the buffer. */
    method Receive(chunk: seq<byte>, w: nat -> int) returns (v: Verdict)
      requires Valid() && SvcRecv(State().(buf := State().buf + chunk), w).Round?
      modifies this, recvBuff`len, recvBuff`data, recvBuff`size, recvBuff.data
      ensures Valid() && Round(State(), v) == SvcRecv(old(State().(buf := State().buf + chunk)), w)
      ensures recvBuff.data == old(recvBuff.data) || fresh(recvBuff.data)
    {
      hide SubRecv, Loop;
      recvBuff.SetData(chunk);
      if syncing {
        v := ReceiveBody(w);
        if v != Out {
          return;
        }
      }
      v := ReceiveLoop(w);
    }
  }
}
