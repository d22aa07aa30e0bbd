/** The delayed tasks of network/pfs_timer.c as values: what a scan fires and leaves behind, and
    what holds over every run of additions and scans. */
module Timers {

  datatype Timer = Timer(cb: nat, args: string, nextTime: int, spanTime: int, loop: bool)

  predicate Due(t: Timer, cur: int) { cur > t.nextTime }

  /** Fired and not to be kept. */
  predicate Spent(t: Timer, cur: int) { Due(t, cur) && !t.loop }

  function Armed(t: Timer, cur: int): Timer { t.(nextTime := cur + t.spanTime) }

  /** A timer that stays active through a scan. */
  function AfterScan(t: Timer, cur: int): Timer {
    if Due(t, cur) then Armed(t, cur) else t
  }

  /** The callbacks one scan runs, in list order. */
  function Fired(ts: seq<Timer>, cur: int): seq<Timer> {
    if ts == [] then []
    else Fired(ts[..|ts| - 1], cur) + (if Due(ts[|ts| - 1], cur) then [ts[|ts| - 1]] else [])
  }

  /** The timers active after one scan, in list order. */
  function Left(ts: seq<Timer>, cur: int): seq<Timer> {
    if ts == [] then []
    else Left(ts[..|ts| - 1], cur) + (if Spent(ts[|ts| - 1], cur) then [] else [AfterScan(ts[|ts| - 1], cur)])
  }

  /** A scan treats each timer by itself, in list order: it runs a timer whose time has come, arms it
      for one span later if it loops and drops it if it does not, and leaves every other one alone. */
  lemma ScanOne(t: Timer, cur: int)
    ensures Fired([t], cur) == if cur > t.nextTime then [t] else []
    ensures Left([t], cur) ==
      if cur <= t.nextTime then [t] else if t.loop then [t.(nextTime := cur + t.spanTime)] else []
  {
    assert [t][..0] == [];
  }

  lemma {:induction false} ScanConcat(a: seq<Timer>, b: seq<Timer>, cur: int)
    ensures Fired(a + b, cur) == Fired(a, cur) + Fired(b, cur)
    ensures Left(a + b, cur) == Left(a, cur) + Left(b, cur)
    decreases |b|
  {
    if b == [] {
      assert a + b == a;
    } else {
      var n := |b| - 1;
      assert (a + b)[..|a| + n] == a + b[..n];
      ScanConcat(a, b[..n], cur);
    }
  }

  // ----- whole runs -----

  datatype Op = AddTask(timer: Timer, cur: int) | Scan(cur: int)

  /** `log` is every callback run so far. */
  datatype State = State(active: seq<Timer>, log: seq<Timer>)

  function Apply(s: State, op: Op): State {
    match op
    case AddTask(t, cur) => s.(active := [Armed(t, cur)] + s.active)
    case Scan(cur) => State(Left(s.active, cur), s.log + Fired(s.active, cur))
  }

  function Run(s: State, ops: seq<Op>): State
    decreases |ops|
  {
    if ops == [] then s else Run(Apply(s, ops[0]), ops[1..])
  }

  /** How often the one-shot timer `t` occurs. */
  function Count(ts: seq<Timer>, t: Timer): nat {
    if ts == [] then 0 else Count(ts[..|ts| - 1], t) + (if ts[|ts| - 1] == t then 1 else 0)
  }

  /** How often the run adds `t`, as it is armed. */
  function Added(ops: seq<Op>, t: Timer): nat
    decreases |ops|
  {
    if ops == [] then 0
    else (if ops[0].AddTask? && Armed(ops[0].timer, ops[0].cur) == t then 1 else 0) + Added(ops[1..], t)
  }

  lemma {:induction false} CountConcat(a: seq<Timer>, b: seq<Timer>, t: Timer)
    ensures Count(a + b, t) == Count(a, t) + Count(b, t)
    decreases |b|
  {
    if b == [] {
      assert a + b == a;
    } else {
      var n := |b| - 1;
      assert (a + b)[..|a| + n] == a + b[..n];
      CountConcat(a, b[..n], t);
    }
  }

  lemma {:induction false} ScanConserves(ts: seq<Timer>, cur: int, t: Timer)
    requires !t.loop
    ensures Count(Fired(ts, cur), t) + Count(Left(ts, cur), t) == Count(ts, t)
    decreases |ts|
  {
    if ts != [] {
      var n := |ts| - 1;
      ScanConserves(ts[..n], cur, t);
      CountConcat(Fired(ts[..n], cur), if Due(ts[n], cur) then [ts[n]] else [], t);
      CountConcat(Left(ts[..n], cur), if Spent(ts[n], cur) then [] else [AfterScan(ts[n], cur)], t);
      CountOne(ts[n], t);
      CountOne(AfterScan(ts[n], cur), t);
    }
  }

  lemma CountOne(x: Timer, t: Timer)
    ensures Count([x], t) == (if x == t then 1 else 0) && Count([], t) == 0
  {
    assert [x][..0] == [];
  }

  /** Over every run, a one-shot timer has fired or is waiting exactly as often as it was added:
      it never fires again without being added again. */
  lemma {:induction false} OneShotsFireOnce(s: State, ops: seq<Op>, t: Timer)
    requires !t.loop
    ensures var r := Run(s, ops);
            Count(r.log, t) + Count(r.active, t) == Count(s.log, t) + Count(s.active, t) + Added(ops, t)
    decreases |ops|
  {
    if ops != [] {
      OneShotsFireOnce(Apply(s, ops[0]), ops[1..], t);
      match ops[0]
      case AddTask(x, cur) =>
        CountConcat([Armed(x, cur)], s.active, t);
        CountOne(Armed(x, cur), t);
      case Scan(cur) =>
        ScanConserves(s.active, cur, t);
        CountConcat(s.log, Fired(s.active, cur), t);
    }
  }

  /** A scan runs each timer that is due as often as it is active, and no other. */
  lemma {:induction false} FiresExactlyDue(ts: seq<Timer>, cur: int, t: Timer)
    ensures Count(Fired(ts, cur), t) == if Due(t, cur) then Count(ts, t) else 0
    decreases |ts|
  {
    if ts != [] {
      var n := |ts| - 1;
      FiresExactlyDue(ts[..n], cur, t);
      var last := if Due(ts[n], cur) then [ts[n]] else [];
      CountConcat(Fired(ts[..n], cur), last, t);
      CountOne(ts[n], t);
    }
  }

  /** The timers that loop or whose time has not come, in list order. */
  function Staying(ts: seq<Timer>, cur: int): seq<Timer> {
    if ts == [] then []
    else
      var t := ts[|ts| - 1];
      Staying(ts[..|ts| - 1], cur) + (if t.loop || cur <= t.nextTime then [t] else [])
  }

  /** A scan keeps exactly the timers that loop or are not due, in order; those whose time has come
      are armed for one span after the scan, the others are untouched. */
  lemma {:induction false} ScanKeeps(ts: seq<Timer>, cur: int)
    ensures var l, st := Left(ts, cur), Staying(ts, cur);
      && |l| == |st|
      && forall i :: 0 <= i < |l| ==>
           l[i] == if cur > st[i].nextTime then st[i].(nextTime := cur + st[i].spanTime) else st[i]
    decreases |ts|
  {
    if ts != [] {
      ScanKeeps(ts[..|ts| - 1], cur);
    }
  }

  /** A list of looping timers keeps its length: each that is due is armed again, in its place. */
  lemma LoopsStay(ts: seq<Timer>, cur: int)
    requires forall i :: 0 <= i < |ts| ==> ts[i].loop
    ensures |Left(ts, cur)| == |ts|
    ensures forall i :: 0 <= i < |ts| ==>
      Left(ts, cur)[i] == if cur > ts[i].nextTime then ts[i].(nextTime := cur + ts[i].spanTime) else ts[i]
  {
    ScanKeeps(ts, cur);
    AllStay(ts, cur);
  }

  lemma {:induction false} AllStay(ts: seq<Timer>, cur: int)
    requires forall i :: 0 <= i < |ts| ==> ts[i].loop
    ensures Staying(ts, cur) == ts
    decreases |ts|
  {
    if ts != [] {
      AllStay(ts[..|ts| - 1], cur);
    }
  }

  /** A timer that would run again in a second scan at the same instant. */
  predicate Restless(t: Timer, cur: int) { t.loop && Due(t, cur) && t.spanTime < 0 }

  predicate Calm(ts: seq<Timer>, cur: int) {
    forall i :: 0 <= i < |ts| ==> !Restless(ts[i], cur)
  }

  lemma CalmSnoc(ts: seq<Timer>, cur: int)
    requires ts != []
    ensures Calm(ts, cur) <==> Calm(ts[..|ts| - 1], cur) && !Restless(ts[|ts| - 1], cur)
  {
    if Calm(ts[..|ts| - 1], cur) && !Restless(ts[|ts| - 1], cur) {
      forall i | 0 <= i < |ts| ensures !Restless(ts[i], cur) {
        assert i < |ts| - 1 ==> ts[i] == ts[..|ts| - 1][i];
      }
    }
  }

  /** A second scan at the same instant runs nothing, exactly when no due looping timer has a
      negative span. */
  lemma {:induction false} ScanSettles(ts: seq<Timer>, cur: int)
    ensures Fired(Left(ts, cur), cur) == [] <==> Calm(ts, cur)
    decreases |ts|
  {
    if ts != [] {
      var n := |ts| - 1;
      ScanSettles(ts[..n], cur);
      CalmSnoc(ts, cur);
      hide Calm, Fired;
      if !Spent(ts[n], cur) {
        FiredSnoc(Left(ts[..n], cur), AfterScan(ts[n], cur), cur);
      } else {
        assert Left(ts, cur) == Left(ts[..n], cur);
      }
    }
  }

  lemma FiredSnoc(ts: seq<Timer>, t: Timer, cur: int)
    ensures Fired(ts + [t], cur) == Fired(ts, cur) + (if Due(t, cur) then [t] else [])
  {
    assert (ts + [t])[..|ts|] == ts;
  }
}
