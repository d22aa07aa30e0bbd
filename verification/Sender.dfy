/** `do_send`: what one turn of the sender, and a whole run of turns, puts on the wire. */
module Sender {
  import opened Common
  import opened MyBuff

  /** The most `sendfile` is asked for in one call. */
  const GSIZE: nat := 1073741824

  /** What the kernel answers to `send` or `sendfile`. */
  datatype Reply = Sent(n: nat) | Interrupted | Again | Fail

  datatype Verdict = AddIn | AddOut | Close

  datatype Queue = Queue(data: seq<byte>, file: seq<byte>)

  datatype Turn = Turn(rest: Queue, data: seq<byte>, file: seq<byte>, verdict: Verdict)

  /** A call that offers `limit` bytes takes at least one and no more, or reports an error. */
  predicate Answers(r: Reply, limit: nat) {
    !r.Interrupted? && (r.Sent? ==> 0 < r.n <= limit)
  }

  function Offer(avail: nat): nat {
    if avail > GSIZE then GSIZE else avail
  }

  function Taken(r: Reply): nat {
    if r.Sent? then r.n else 0
  }

  function Judge(r: Reply, avail: nat): Verdict {
    match r
    case Sent(n) => if n < avail then AddOut else AddIn
    case Fail => Close
    case _ => AddOut
  }

  predicate Possible(q: Queue, d: Reply, f: Reply) {
    && (q.data != [] ==> Answers(d, |q.data|))
    && (q.file != [] ==> Answers(f, Offer(|q.file|)))
  }

  function DataVerdict(q: Queue, d: Reply): Verdict {
    if q.data == [] then AddIn else Judge(d, |q.data|)
  }

  /** One turn: the buffered bytes first, and the file only when they are all gone. */
  function Send(q: Queue, d: Reply, f: Reply): Turn
    requires Possible(q, d, f)
  {
    var n := if q.data == [] then 0 else Taken(d);
    var v := DataVerdict(q, d);
    if v != AddIn || q.file == [] then Turn(Queue(q.data[n..], q.file), q.data[..n], [], v)
    else
      var m := Taken(f);
      Turn(Queue(q.data[n..], q.file[m..]), q.data[..n], q.file[..m], Judge(f, |q.file|))
  }

  /** What a turn sends and what it leaves are what was there, in order. */
  lemma TurnConserves(q: Queue, d: Reply, f: Reply)
    requires Possible(q, d, f)
    ensures Send(q, d, f).data + Send(q, d, f).rest.data == q.data
    ensures Send(q, d, f).file + Send(q, d, f).rest.file == q.file
    ensures Send(q, d, f).file != [] ==> Send(q, d, f).rest.data == []
  {
  }

  /** The sender stops asking to write exactly when nothing is left to send. */
  /** How much a turn sends: what the first write took, and what the second took if the first left
      nothing behind and there is a file; never more of the file than one call may take. */
  lemma TurnAmounts(q: Queue, d: Reply, f: Reply)
    requires Possible(q, d, f)
    ensures var t := Send(q, d, f);
      && |t.data| == (if q.data != [] && d.Sent? then d.n else 0)
      && |t.file| == (if t.rest.data == [] && q.file != [] && f.Sent? then f.n else 0)
      && |t.file| <= 1073741824
  {
  }

  lemma VerdictExact(q: Queue, d: Reply, f: Reply)
    requires Possible(q, d, f)
    ensures Send(q, d, f).verdict == AddIn <==> Send(q, d, f).rest == Queue([], [])
    ensures Send(q, d, f).verdict == Close <==>
              ((q.data != [] && d.Fail?) || (DataVerdict(q, d) == AddIn && q.file != [] && f.Fail?))
  {
  }

  // Whole runs

  datatype Step = QueueData(bytes: seq<byte>) | QueueFile(bytes: seq<byte>) | Flush(d: Reply, f: Reply)

  /** `dropped` is what was left of files when another one took their place. */
  datatype State = State(q: Queue, wire: seq<byte>, dataSent: seq<byte>, fileSent: seq<byte>, dropped: seq<byte>,
                         sendLen: nat)

  predicate Allowed(s: State, step: Step) {
    step.Flush? ==> Possible(s.q, step.d, step.f)
  }

  function Apply(s: State, step: Step): State
    requires Allowed(s, step)
  {
    match step
    case QueueData(b) => s.(q := s.q.(data := s.q.data + b))
    case QueueFile(b) => s.(q := s.q.(file := b), dropped := s.dropped + s.q.file)
    case Flush(d, f) =>
      var t := Send(s.q, d, f);
      State(t.rest, s.wire + t.data + t.file, s.dataSent + t.data, s.fileSent + t.file, s.dropped,
            s.sendLen + |t.data| + |t.file|)
  }

  predicate Runs(s: State, steps: seq<Step>)
    decreases |steps|
  {
    steps == [] || (Allowed(s, steps[0]) && Runs(Apply(s, steps[0]), steps[1..]))
  }

  function After(s: State, steps: seq<Step>): State
    requires Runs(s, steps)
    decreases |steps|
  {
    if steps == [] then s else After(Apply(s, steps[0]), steps[1..])
  }

  function DataOf(step: Step): seq<byte> {
    if step.QueueData? then step.bytes else []
  }

  function FileOf(step: Step): seq<byte> {
    if step.QueueFile? then step.bytes else []
  }

  function AllData(steps: seq<Step>): seq<byte> {
    if steps == [] then [] else DataOf(steps[0]) + AllData(steps[1..])
  }

  function AllFile(steps: seq<Step>): seq<byte> {
    if steps == [] then [] else FileOf(steps[0]) + AllFile(steps[1..])
  }

  /** Everything queued, in the order it was queued. */
  function Stream(steps: seq<Step>): seq<byte> {
    if steps == [] then [] else DataOf(steps[0]) + FileOf(steps[0]) + Stream(steps[1..])
  }

  /** The data ledger, the file ledger and the whole stream up to the queue's end. */
  function DataTotal(s: State): seq<byte> {
    s.dataSent + s.q.data
  }

  function FileTotal(s: State): seq<byte> {
    s.fileSent + s.q.file
  }

  /** The file bytes sent, pending and dropped, in any order. */
  function FileBytes(s: State): multiset<byte> {
    multiset(s.fileSent) + multiset(s.q.file) + multiset(s.dropped)
  }

  function Total(s: State): seq<byte> {
    s.wire + s.q.data + s.q.file
  }

  /** Bytes queue behind those already there; a file replaces one that is still pending. */
  lemma QueueSteps(s: State, b: seq<byte>)
    ensures Apply(s, QueueData(b)).q == Queue(s.q.data + b, s.q.file)
    ensures Apply(s, QueueFile(b)).q == Queue(s.q.data, b)
    ensures Apply(s, QueueFile(b)).dropped == s.dropped + s.q.file
  {
  }

  lemma StepConserves(s: State, step: Step)
    requires Allowed(s, step)
    ensures DataTotal(Apply(s, step)) == DataTotal(s) + DataOf(step)
    ensures FileBytes(Apply(s, step)) == FileBytes(s) + multiset(FileOf(step))
    ensures (step.QueueFile? ==> s.q.file == []) ==> FileTotal(Apply(s, step)) == FileTotal(s) + FileOf(step)
    ensures Apply(s, step).sendLen - |Apply(s, step).wire| == s.sendLen - |s.wire|
  {
    hide Send, Possible;
    if step.Flush? {
      TurnConserves(s.q, step.d, step.f);
      var t := Send(s.q, step.d, step.f);
      Regroup(s.dataSent, t.data, t.rest.data);
      Regroup(s.fileSent, t.file, t.rest.file);
      SameBytes(s.fileSent, t.file, t.rest.file, s.q.file);
      assert multiset(FileOf(step)) == multiset{};
    } else {
      SameBytes(s.dropped, s.q.file, [], s.q.file + []);
    }
  }

  lemma SameBytes(sent: seq<byte>, a: seq<byte>, b: seq<byte>, all: seq<byte>)
    requires a + b == all
    ensures multiset(sent + a) + multiset(b) == multiset(sent) + multiset(all)
  {
    assert multiset(a + b) == multiset(a) + multiset(b);
    assert multiset(sent + a) == multiset(sent) + multiset(a);
  }

  lemma Regroup(a: seq<byte>, b: seq<byte>, c: seq<byte>)
    ensures a + b + c == a + (b + c)
  {
  }

  /**
   * Over any run, however the kernel answers, the buffered bytes are sent once and in the order
   * queued, every file byte queued is sent, pending or dropped by a replacement, and the byte
   * counter grows with the wire.
   */
  lemma {:induction false} RunConserves(s: State, steps: seq<Step>)
    requires Runs(s, steps)
    ensures DataTotal(After(s, steps)) == DataTotal(s) + AllData(steps)
    ensures FileBytes(After(s, steps)) == FileBytes(s) + multiset(AllFile(steps))
    ensures After(s, steps).sendLen - |After(s, steps).wire| == s.sendLen - |s.wire|
    decreases |steps|
  {
    hide Send, Possible, DataTotal, FileTotal, FileBytes, Allowed, Apply;
    if steps != [] {
      StepConserves(s, steps[0]);
      RunConserves(Apply(s, steps[0]), steps[1..]);
      Regroup(DataTotal(s), DataOf(steps[0]), AllData(steps[1..]));
    }
  }

  /** No file is replaced before it is finished. */
  predicate OneByOne(s: State, steps: seq<Step>)
    requires Runs(s, steps)
    decreases |steps|
  {
    steps == [] ||
    ((steps[0].QueueFile? ==> s.q.file == []) && OneByOne(Apply(s, steps[0]), steps[1..]))
  }

  /** Then the file bytes too are sent once and in the order queued. */
  lemma {:induction false} FilesInOrder(s: State, steps: seq<Step>)
    requires Runs(s, steps) && OneByOne(s, steps)
    ensures FileTotal(After(s, steps)) == FileTotal(s) + AllFile(steps)
    decreases |steps|
  {
    hide Send, Possible, DataTotal, FileTotal, FileBytes, Allowed, Apply;
    if steps != [] {
      StepConserves(s, steps[0]);
      FilesInOrder(Apply(s, steps[0]), steps[1..]);
      Regroup(FileTotal(s), FileOf(steps[0]), AllFile(steps[1..]));
    }
  }

  /** Nothing is queued behind an unfinished file. */
  predicate Tidy(s: State, steps: seq<Step>)
    requires Runs(s, steps)
    decreases |steps|
  {
    steps == [] || ((steps[0].Flush? || s.q.file == []) && Tidy(Apply(s, steps[0]), steps[1..]))
  }

  lemma StepOrdered(s: State, step: Step)
    requires Allowed(s, step) && (step.Flush? || s.q.file == [])
    ensures Total(Apply(s, step)) == Total(s) + (DataOf(step) + FileOf(step))
  {
    if step.Flush? {
      TurnConserves(s.q, step.d, step.f);
      var t := Send(s.q, step.d, step.f);
      FlushOrdered(s.wire, t.data, t.rest.data, t.file, t.rest.file);
    }
  }

  /** File bytes overtake nothing: they are sent only when no buffered byte remains. */
  lemma FlushOrdered(w: seq<byte>, d: seq<byte>, dRest: seq<byte>, f: seq<byte>, fRest: seq<byte>)
    requires f != [] ==> dRest == []
    ensures w + d + f + dRest + fRest == w + (d + dRest) + (f + fRest)
  {
    if f == [] {
      assert w + d + f + dRest + fRest == w + (d + dRest) + fRest;
      assert f + fRest == fRest;
    } else {
      assert w + d + f + dRest + fRest == w + d + (f + fRest);
      assert d + dRest == d;
    }
  }

  /** The wire followed by what is pending is the queued stream itself, at every point of a tidy run. */
  lemma {:induction false} RunOrdered(s: State, steps: seq<Step>)
    requires Runs(s, steps) && Tidy(s, steps)
    ensures Total(After(s, steps)) == Total(s) + Stream(steps)
    decreases |steps|
  {
    hide Send, Possible, Total, Allowed, Apply;
    if steps != [] {
      StepOrdered(s, steps[0]);
      RunOrdered(Apply(s, steps[0]), steps[1..]);
      Regroup(Total(s), DataOf(steps[0]) + FileOf(steps[0]), Stream(steps[1..]));
    }
  }

  /** Queueing data keeps the stream in order exactly when the data and what is left of the file commute. */
  lemma OvertakesExactly(s: State, b: seq<byte>)
    ensures Total(Apply(s, QueueData(b))) == Total(s) + b <==> b + s.q.file == s.q.file + b
  {
    var a, f := s.wire + s.q.data, s.q.file;
    assert Total(Apply(s, QueueData(b))) == a + (b + f) && Total(s) + b == a + (f + b);
    assert (a + (b + f))[|a|..] == b + f && (a + (f + b))[|a|..] == f + b;
  }

  /** Data queued behind a part-sent file goes on the wire between the two parts of the file. */
  lemma FileIsSplit(w: seq<byte>, x: seq<byte>, y: seq<byte>, b: seq<byte>)
    requires x != [] && y != [] && b != [] && |x + y| <= GSIZE
    ensures
      var s := State(Queue([], []), w, [], [], [], |w|);
      var steps := [QueueFile(x + y), Flush(Again, Sent(|x|)), QueueData(b), Flush(Sent(|b|), Sent(|y|))];
      Runs(s, steps) && After(s, steps).wire == w + x + b + y && After(s, steps).q == Queue([], [])
  {
    SendPart(x, y);
    SendBoth(b, y);
    hide Send, Possible;
    var s0 := State(Queue([], []), w, [], [], [], |w|);
    var s1 := Apply(s0, QueueFile(x + y));
    var s2 := Apply(s1, Flush(Again, Sent(|x|)));
    assert s2.q == Queue([], y) && s2.wire == w + x;
    var s3 := Apply(s2, QueueData(b));
    assert s3.q == Queue(b, y);
    var s4 := Apply(s3, Flush(Sent(|b|), Sent(|y|)));
    assert s4.wire == w + x + b + y;
    FourSteps(s0, QueueFile(x + y), Flush(Again, Sent(|x|)), QueueData(b), Flush(Sent(|b|), Sent(|y|)));
  }

  lemma SendPart(x: seq<byte>, y: seq<byte>)
    requires x != [] && y != [] && |x + y| <= GSIZE
    ensures Possible(Queue([], x + y), Again, Sent(|x|))
    ensures Send(Queue([], x + y), Again, Sent(|x|)) == Turn(Queue([], y), [], x, AddOut)
  {
    assert (x + y)[..|x|] == x && (x + y)[|x|..] == y;
  }

  lemma SendBoth(b: seq<byte>, y: seq<byte>)
    requires b != [] && y != [] && |y| <= GSIZE
    ensures Possible(Queue(b, y), Sent(|b|), Sent(|y|))
    ensures Send(Queue(b, y), Sent(|b|), Sent(|y|)) == Turn(Queue([], []), b, y, AddIn)
  {
  }

  lemma FourSteps(s: State, a: Step, b: Step, c: Step, d: Step)
    requires Allowed(s, a) && Allowed(Apply(s, a), b) && Allowed(Apply(Apply(s, a), b), c)
    requires Allowed(Apply(Apply(Apply(s, a), b), c), d)
    ensures Runs(s, [a, b, c, d]) && After(s, [a, b, c, d]) == Apply(Apply(Apply(Apply(s, a), b), c), d)
  {
    hide Allowed, Apply;
    assert [a, b, c, d][1..] == [b, c, d] && [b, c, d][1..] == [c, d] && [c, d][1..] == [d] && [d][1..] == [];
    var s1 := Apply(s, a);
    var s2 := Apply(s1, b);
    var s3 := Apply(s2, c);
    assert Runs(s3, [d]) && After(s3, [d]) == Apply(s3, d);
    assert Runs(s2, [c, d]) && After(s2, [c, d]) == After(s3, [d]);
    assert Runs(s1, [b, c, d]) && After(s1, [b, c, d]) == After(s2, [c, d]);
  }

  // The connection

  /** The replies to the calls of one retry loop: interrupted calls, then an answer. */
  ghost predicate Retried(rs: seq<Reply>, limit: nat) {
    && rs != []
    && (forall i :: 0 <= i < |rs| - 1 ==> rs[i].Interrupted?)
    && Answers(rs[|rs| - 1], limit)
  }

  function Final(rs: seq<Reply>): Reply {
    if rs == [] then Again else rs[|rs| - 1]
  }

  /** A call is repeated as long as it is interrupted, and its first other answer is taken. */
  lemma RetriedMeans(r: Reply, rs: seq<Reply>, limit: nat)
    ensures Retried([r], limit) <==> (match r case Sent(n) => 0 < n <= limit case Interrupted => false case _ => true)
    ensures rs != [] ==> (Retried([r] + rs, limit) <==> r.Interrupted? && Retried(rs, limit))
  {
    if rs != [] {
      var all := [r] + rs;
      assert all[|all| - 1] == rs[|rs| - 1] && all[0] == r;
      assert forall i :: 0 <= i < |rs| - 1 ==> rs[i] == all[i + 1];
    }
  }

  lemma RepliesFit(q: Queue, ds: seq<Reply>, fs: seq<Reply>)
    requires (q.data != [] ==> Retried(ds, |q.data|)) && (q.file != [] ==> Retried(fs, Offer(|q.file|)))
    ensures q.data != [] ==> ds != [] && Taken(ds[|ds| - 1]) <= |q.data|
    ensures q.file != [] ==> fs != [] && Taken(fs[|fs| - 1]) <= |q.file|
  {
  }

  /** The two loops together are a turn. */
  lemma BothParts(q: Queue, ds: seq<Reply>, fs: seq<Reply>, data: seq<byte>, file: seq<byte>, v0: Verdict, v: Verdict)
    requires (q.data != [] ==> Retried(ds, |q.data|)) && (q.file != [] ==> Retried(fs, Offer(|q.file|)))
    requires if q.data == [] then data == [] && v0 == AddIn
      else var r := ds[|ds| - 1];
        Taken(r) <= |q.data| && data == q.data[..Taken(r)] && v0 == Judge(r, |q.data|)
    requires if v0 != AddIn then file == [] && v == v0
      else if q.file == [] then file == [] && v == AddIn
      else var r := fs[|fs| - 1];
        Taken(r) <= |q.file| && file == q.file[..Taken(r)] && v == Judge(r, |q.file|)
    ensures |data| <= |q.data| && |file| <= |q.file|
    ensures Sends(q, Final(ds), Final(fs), Turn(Queue(q.data[|data|..], q.file[|file|..]), data, file, v))
  {
    assert q.data[..0] == [] && q.file[..0] == [] && q.data[0..] == q.data && q.file[0..] == q.file;
  }

  ghost predicate Sends(q: Queue, d: Reply, f: Reply, t: Turn) {
    Possible(q, d, f) && Send(q, d, f) == t
  }

  class Conn {
    const sendBuff: Buff
    var sendLen: nat

    constructor ()
      ensures sendBuff.Valid() && sendBuff.Contents() == [] && sendLen == 0
      ensures fresh(sendBuff) && sendBuff.data == null
    {
      sendBuff := new Buff();
      sendLen := 0;
    }

    /** `set_client_fd`: the range of the file is queued behind the buffered bytes. */
    method SetClientFd(fd: int, offset: nat, n: nat, ghost content: seq<byte>)
      requires sendBuff.Valid() && fd >= 0 && offset + n <= |content|
      modifies sendBuff`fd, sendBuff`foffset, sendBuff`flen
      ensures sendBuff.Valid() && sendBuff.foffset + sendBuff.flen <= |content|
      ensures Pending(content) == Queue(sendBuff.Contents(), content[offset..offset + n])
      ensures sendBuff.Contents() == old(sendBuff.Contents())
    {
      sendBuff.SetFile(fd, offset, n, content);
    }

    /** `set_client_data`: the bytes are queued behind the buffered ones, ahead of any file. */
    method SetClientData(d: seq<byte>, ghost content: seq<byte>)
      requires sendBuff.Valid()
      modifies sendBuff`data, sendBuff`size, sendBuff`len, sendBuff.data
      ensures sendBuff.Valid()
      ensures Pending(content) == Queue(old(Pending(content)).data + d, old(Pending(content)).file)
    {
      sendBuff.SetData(d);
    }

    /** The queue of this connection, when its open file holds `content`. */
    ghost function Pending(content: seq<byte>): Queue
      requires sendBuff.Valid()
      reads this, sendBuff, sendBuff.data
    {
      Queue(sendBuff.Contents(), sendBuff.FileRange(content))
    }

    static method Retry(rs: seq<Reply>, ghost limit: nat) returns (r: Reply)
      requires Retried(rs, limit)
      ensures r == rs[|rs| - 1]
    {
      var i := 0;
      while rs[i].Interrupted?
        invariant 0 <= i < |rs|
        decreases |rs| - i
      {
        i := i + 1;
      }
      r := rs[i];
    }

    method SendBuffered(ds: seq<Reply>) returns (v: Verdict, ghost out: seq<byte>)
      requires sendBuff.Valid()
      requires sendBuff.Contents() != [] ==> Retried(ds, |sendBuff.Contents()|)
      modifies this`sendLen, sendBuff`len, sendBuff.data
      ensures sendBuff.Valid()
      ensures old(sendBuff.Contents()) == [] ==> out == [] && v == AddIn
      ensures old(sendBuff.Contents()) != [] ==>
        && var r := ds[|ds| - 1];
        && out == old(sendBuff.Contents())[..Taken(r)]
        && v == Judge(r, |old(sendBuff.Contents())|)
      ensures sendBuff.Contents() == old(sendBuff.Contents())[|out|..]
      ensures sendLen == old(sendLen) + |out|
    {
      v, out := AddIn, [];
      var ok, data := sendBuff.GetData();
      if ok {
        var r := Retry(ds, |data|);
        v := Judge(r, |data|);
        if r.Sent? {
          out := data[..r.n];
          sendBuff.SkipData(r.n);
          sendLen := sendLen + r.n;
        }
      }
    }

    method SendFile(fs: seq<Reply>, ghost content: seq<byte>) returns (v: Verdict, ghost out: seq<byte>)
      requires sendBuff.foffset + sendBuff.flen <= |content|
      requires sendBuff.FileRange(content) != [] ==> Retried(fs, Offer(|sendBuff.FileRange(content)|))
      modifies this`sendLen, sendBuff`fd, sendBuff`foffset, sendBuff`flen
      ensures sendBuff.foffset + sendBuff.flen <= |content|
      ensures old(sendBuff.FileRange(content)) == [] ==> out == [] && v == AddIn
      ensures old(sendBuff.FileRange(content)) != [] ==>
        && var r := fs[|fs| - 1];
        && out == old(sendBuff.FileRange(content))[..Taken(r)]
        && v == Judge(r, |old(sendBuff.FileRange(content))|)
      ensures sendBuff.FileRange(content) == old(sendBuff.FileRange(content))[|out|..]
      ensures sendLen == old(sendLen) + |out|
    {
      v, out := AddIn, [];
      var ok := sendBuff.GetFile(content);
      if ok {
        ghost var file := sendBuff.FileRange(content);
        var len := sendBuff.flen;
        var r := Retry(fs, Offer(len));
        v := Judge(r, len);
        if r.Sent? {
          out := file[..r.n];
          sendBuff.SkipFile(r.n, content);
          sendLen := sendLen + r.n;
        }
      }
    }

    /** `do_send`, up to the event-loop call that follows from the verdict. */
    method DoSend(ds: seq<Reply>, fs: seq<Reply>, ghost content: seq<byte>)
      returns (v: Verdict, ghost data: seq<byte>, ghost file: seq<byte>)
      requires sendBuff.Valid() && sendBuff.foffset + sendBuff.flen <= |content|
      requires Pending(content).data != [] ==> Retried(ds, |Pending(content).data|)
      requires Pending(content).file != [] ==> Retried(fs, Offer(|Pending(content).file|))
      modifies this`sendLen, sendBuff`len, sendBuff.data, sendBuff`fd, sendBuff`foffset, sendBuff`flen
      ensures sendBuff.Valid() && sendBuff.foffset + sendBuff.flen <= |content|
      ensures Sends(old(Pending(content)), Final(ds), Final(fs), Turn(Pending(content), data, file, v))
      ensures sendLen == old(sendLen) + |data| + |file|
    {
      hide Send, Sends, Judge, Retried, Possible, Offer, Taken;
      ghost var q := Pending(content);
      RepliesFit(q, ds, fs);
      v, data := SendBuffered(ds);
      ghost var v0 := v;
      assert sendBuff.FileRange(content) == q.file;
      file := [];
      if v == AddIn {
        v, file := SendFile(fs, content);
      }
      assert Pending(content) == Queue(q.data[|data|..], q.file[|file|..]);
      BothParts(q, ds, fs, data, file, v0, v);
    }
  }
}
