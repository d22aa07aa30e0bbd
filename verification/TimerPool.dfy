/** The two rings of network/pfs_timer.c, home and active, changed in place. */
module TimerPool {
  import opened Common
  import opened Rings
  import opened Timers

  type Node = Link<Timer>

  /** The records of the ring entries `s`. */
  ghost function Records(s: seq<Node>): (ts: seq<Timer>)
    reads s
    ensures |ts| == |s|
  {
    seq(|s|, i requires 0 <= i < |s| reads s => s[i].entry)
  }

  /** The nodes among the first `i` that stay active through a scan. */
  ghost function Stay(a: seq<Node>, ts: seq<Timer>, cur: int, i: nat): (r: seq<Node>)
    requires i <= |a| == |ts|
    ensures forall p :: 0 <= p < |r| ==> r[p] in a[..i]
  {
    if i == 0 then []
    else
      var r := Stay(a, ts, cur, i - 1);
      assert a[..i] == a[..i - 1] + [a[i - 1]];
      r + (if Spent(ts[i - 1], cur) then [] else [a[i - 1]])
  }

  /** The nodes among the first `i` that a scan returns home, latest first. */
  ghost function Gone(a: seq<Node>, ts: seq<Timer>, cur: int, i: nat): (r: seq<Node>)
    requires i <= |a| == |ts|
    ensures forall p :: 0 <= p < |r| ==> r[p] in a[..i]
  {
    if i == 0 then []
    else
      var r := Gone(a, ts, cur, i - 1);
      assert a[..i] == a[..i - 1] + [a[i - 1]];
      (if Spent(ts[i - 1], cur) then [a[i - 1]] else []) + r
  }

  /** Home and active entries have nothing in common and together are exactly the nodes. */
  ghost predicate Placed(home: Node, active: Node, h: seq<Node>, a: seq<Node>, nodes: set<Node>) {
    && home != active && home !in nodes && active !in nodes
    && (forall x :: x in h ==> x in nodes && x !in a)
    && (forall x :: x in a ==> x in nodes)
    && (forall x :: x in nodes ==> x in h || x in a)
  }

  class Pool {
    const home: Node
    const active: Node
    /** The entries of the two rings. */
    ghost var h: seq<Node>
    ghost var a: seq<Node>
    /** Every node ever created for this pool. */
    ghost var nodes: set<Node>

    ghost predicate Valid()
      reads this, home, active, nodes
    {
      Placed(home, active, h, a, nodes) && Ring(home, h) && Ring(active, a)
    }

    /** `delay_task_init`, on empty rings. */
    constructor Empty()
      ensures Valid() && fresh(home) && fresh(active) && h == [] && a == [] && nodes == {}
    {
      var blank := Timer(0, "", 0, 0, false);
      home := new Link<Timer>(blank);
      active := new Link<Timer>(blank);
      h, a, nodes := [], [], {};
    }

    /** `delay_task_init`: `max` nodes for the home ring. */
    method Fill(max: nat)
      requires Valid()
      modifies this`h, this`nodes, home, active, nodes
      ensures Valid() && |h| == |old(h)| + max && fresh(nodes - old(nodes))
    {
      var i := 0;
      while i < max
        invariant 0 <= i <= max && Valid() && |h| == |old(h)| + i && fresh(nodes - old(nodes))
      {
        AddHome();
        i := i + 1;
      }
    }

    method AddHome()
      requires Valid()
      modifies this`h, this`nodes, home, active, nodes
      ensures Valid() && |h| == |old(h)| + 1 && fresh(nodes - old(nodes)) && old(nodes) <= nodes
    {
      var n := new Link<Timer>(Timer(0, "", 0, 0, false));
      hide Placed;
      assert n !in h && n !in a;
      ListAdd(n, home, h);
      PlacedNew(home, active, h, a, nodes, n);
      h, nodes := [n] + h, nodes + {n};
    }

    /** Taking the first home node off its ring. */
    method PopHome() returns (n: Node)
      requires Valid() && h != []
      modifies this`h, home`next, home`prev, nodes`next, nodes`prev
      ensures Placed(home, active, h, [n] + a, nodes) && Ring(home, h) && Ring(active, a)
      ensures h == old(h)[1..] && n == old(h)[0] && n !in a && n in nodes
    {
      n := home.next;
      assert Without(h, 0) == h[1..];
      PlacedMove(home, active, h, a, nodes);
      HeadOfHome();
      hide Placed;
      ListDelInit(n, home, h, 0);
      h := h[1..];
    }

    lemma HeadOfHome()
      requires Valid() && h != []
      ensures home.next == h[0] && h[0] in nodes && h[0].prev == home
      ensures h[0].next == home || h[0].next in nodes
      ensures forall i :: 0 <= i < |a| ==> a[i] != h[0] && a[i] != h[0].next && a[i] != home
      ensures active != h[0] && active != h[0].next
    {
      assert h[0].next == home || h[0].next == h[1];
      assert forall i :: 0 <= i < |a| ==> a[i] in a;
      assert forall i :: 0 <= i < |h| ==> h[i] in h;
    }

    /** The first half of `add_to_delay_task`: a home node, or a new one. */
    method TakeNode(timer: Timer) returns (n: Node)
      requires Valid()
      modifies this`h, this`nodes, home`next, home`prev, nodes`next, nodes`prev
      ensures Placed(home, active, h, [n] + a, nodes) && Ring(home, h) && Ring(active, a) && n !in a
      ensures old(h) != [] ==> nodes == old(nodes) && h == old(h)[1..] && n == old(h)[0] && n in nodes
      ensures old(h) == [] ==> h == [] && fresh(n) && nodes == old(nodes) + {n}
      ensures Records(a) == old(Records(a))
    {
      EmptyExactly(home, h);
      hide Placed, Ring;
      n := home.next;
      if n != home {
        n := PopHome();
      } else {
        n := new Link<Timer>(timer);
        PlacedFresh(home, active, h, a, nodes, n);
        nodes := nodes + {n};
      }
    }

    /** `add_to_delay_task`: reuse a home node or make one, and put it first among the active. */
    method AddToDelayTask(timer: Timer, cur: int)
      requires Valid()
      modifies this, home, active, nodes
      ensures Valid() && fresh(nodes - old(nodes)) && old(nodes) <= nodes
      ensures old(h) != [] ==> nodes == old(nodes) && h == old(h)[1..] && a == [old(h)[0]] + old(a)
      ensures old(h) == [] ==> h == [] && |a| == |old(a)| + 1 && fresh(a[0]) && a[1..] == old(a)
      ensures Records(a) == [Armed(timer, cur)] + old(Records(a))
      ensures Timers.Apply(Timers.State(old(Records(a)), []), Timers.AddTask(timer, cur)).active == Records(a)
    {
      hide Placed, Ring, Records;
      var n := TakeNode(timer);
      Activate(n, timer.(nextTime := cur + timer.spanTime));
    }

    /** Recording the timer in node `n` and putting it first among the active. */
    method Activate(n: Node, timer: Timer)
      requires Placed(home, active, h, [n] + a, nodes) && n !in a && Ring(home, h) && Ring(active, a)
      modifies this`a, n, active, nodes`prev
      ensures Valid() && a == [n] + old(a) && Records(a) == [timer] + old(Records(a))
    {
      n.entry := timer;
      assert n in [n] + a;
      assert forall i :: 0 <= i < |h| ==> h[i] != n && h[i] != active && h[i] != active.next by {
        assert active.next == active || active.next == a[0];
        assert forall i :: 0 <= i < |h| ==> h[i] in h;
      }
      assert active.next == active || active.next in nodes by {
        assert a != [] ==> a[0] in [n] + a;
      }
      hide Placed;
      ListAdd(n, active, a);
      a := [n] + a;
    }

    /** Moving active entry `k` to the front of the home ring. */
    method ReturnHome(e: Node, ghost k: nat)
      requires Valid() && k < |a| && a[k] == e
      modifies this`h, this`a, home`next, home`prev, active`next, active`prev, nodes`next, nodes`prev
      ensures Valid() && a == Without(old(a), k) && h == [e] + old(h)
    {
      PlacedBack(home, active, h, a, nodes, k);
      WithoutDistinct(a, k);
      NeighboursActive(k);
      assert e != home && e !in h;
      assert forall i :: 0 <= i < |h| ==> h[i] in h && h[i] in nodes;
      assert home.next == home || home.next in nodes;
      hide Placed, Ring, Without;
      ListDelInit(e, active, a, k);
      a := Without(a, k);
      ListAdd(e, home, h);
      h := [e] + h;
    }

    /** The body of the scan for active entry `k`. */
    method ScanTurn(e: Node, cur: int, ghost k: nat) returns (fired: seq<Timer>)
      requires Valid() && k < |a| && a[k] == e
      modifies this`h, this`a, home`next, home`prev, active`next, active`prev, nodes
      ensures Valid() && nodes == old(nodes)
      ensures fired == if Due(old(e.entry), cur) then [old(e.entry)] else []
      ensures Spent(old(e.entry), cur) ==>
                a == Without(old(a), k) && h == [e] + old(h) && Records(a) == Without(old(Records(a)), k)
      ensures !Spent(old(e.entry), cur) ==>
                a == old(a) && h == old(h) && Records(a) == old(Records(a))[k := AfterScan(old(e.entry), cur)]
    {
      fired := [];
      assert e in nodes;
      if cur > e.entry.nextTime {
        fired := [e.entry];
        if e.entry.loop {
          Rearm(e, cur, k);
        } else {
          ghost var a0, ts := a, Records(a);
          ReturnHome(e, k);
          RecordsWithout(a0, ts, k);
        }
      }
    }

    /** Setting the time of a looping timer in its node. */
    method Rearm(e: Node, cur: int, ghost k: nat)
      requires Valid() && k < |a| && a[k] == e && e in nodes
      modifies e`entry
      ensures Valid() && Records(a) == old(Records(a))[k := Armed(old(e.entry), cur)]
    {
      e.entry := e.entry.(nextTime := cur + e.entry.spanTime);
    }

    /** `scan_delay_task`: runs exactly the due timers in list order, re-arms the looping ones
        and returns the others home. */
    method ScanDelayTask(cur: int) returns (fired: seq<Timer>)
      requires Valid()
      modifies this`h, this`a, home`next, home`prev, active`next, active`prev, nodes
      ensures Valid() && nodes == old(nodes)
      ensures fired == Timers.Fired(old(Records(a)), cur)
      ensures Records(a) == Left(old(Records(a)), cur)
      ensures Timers.Apply(Timers.State(old(Records(a)), []), Timers.Scan(cur)) == Timers.State(Records(a), fired)
      ensures a == Stay(old(a), old(Records(a)), cur, |old(a)|)
      ensures h == Gone(old(a), old(Records(a)), cur, |old(a)|) + old(h)
    {
      ghost var a0, h0, ts := a, h, Records(a);
      fired := [];
      var pos := active.next;
      var n := pos.next;
      ghost var i := 0;
      ScanStart(a0, h0, ts, cur);
      hide Stay, Gone, Left, Timers.Fired, Timers.Apply, Placed, Ring, ScanAt;
      while pos != active
        invariant 0 <= i <= |a0| && Valid() && nodes == old(nodes)
        invariant pos == PosAt(active, a0, i) && n == pos.next
        invariant ScanAt(a0, h0, ts, cur, i, a, h, Records(a), fired)
        decreases |a0| - i
      {
        ghost var k := ScanShape(a0, h0, ts, cur, i, a, h, Records(a), fired);
        NextActive(k);
        ghost var a1, h1, ts1, fired1 := a, h, Records(a), fired;
        var f := ScanTurn(pos, cur, k);
        fired := fired + f;
        ScanMove(a0, h0, ts, cur, i, a1, h1, ts1, fired1, k, a, h, Records(a), fired);
        pos := n;
        n := n.next;
        i := i + 1;
      }
      ScanEnd(a0, h0, ts, cur, a, h, Records(a), fired);
    }

    lemma NextActive(k: nat)
      requires Valid() && k < |a|
      ensures a[k].next == PosAt(active, a, k + 1) && a[k].entry == Records(a)[k]
    {
    }

    lemma NeighboursActive(k: nat)
      requires Valid() && k < |a|
      ensures a[k] in nodes
      ensures a[k].prev == active || a[k].prev in nodes
      ensures a[k].next == active || a[k].next in nodes
      ensures forall i :: 0 <= i < |h| ==> h[i] != a[k] && h[i] != a[k].prev && h[i] != a[k].next
      ensures a[k].prev != home && a[k].next != home
    {
      assert a[k].prev == active || a[k].prev == a[k - 1];
      assert a[k].next == active || a[k].next == a[k + 1];
      assert forall i :: 0 <= i < |a| ==> a[i] in a;
      assert forall i :: 0 <= i < |h| ==> h[i] in h;
    }
  }

  lemma RecordsWithout(a: seq<Node>, ts: seq<Timer>, k: nat)
    requires k < |a| == |ts| && forall i :: 0 <= i < |a| ==> a[i].entry == ts[i]
    ensures Records(Without(a, k)) == Without(ts, k)
  {
  }

  lemma PlacedBack(home: Node, active: Node, h: seq<Node>, a: seq<Node>, nodes: set<Node>, k: nat)
    requires Placed(home, active, h, a, nodes) && Distinct(a) && k < |a|
    ensures Placed(home, active, [a[k]] + h, Without(a, k), nodes)
  {
    WithoutDistinct(a, k);
  }

  lemma PlacedNew(home: Node, active: Node, h: seq<Node>, a: seq<Node>, nodes: set<Node>, n: Node)
    requires Placed(home, active, h, a, nodes) && n != home && n != active && n !in h && n !in a
    ensures Placed(home, active, [n] + h, a, nodes + {n})
  {
  }

  lemma PlacedFresh(home: Node, active: Node, h: seq<Node>, a: seq<Node>, nodes: set<Node>, n: Node)
    requires Placed(home, active, h, a, nodes) && n != home && n != active && n !in nodes
    ensures Placed(home, active, h, [n] + a, nodes + {n}) && n !in a
  {
  }

  lemma PlacedMove(home: Node, active: Node, h: seq<Node>, a: seq<Node>, nodes: set<Node>)
    requires Placed(home, active, h, a, nodes) && Distinct(h) && h != []
    ensures Placed(home, active, h[1..], [h[0]] + a, nodes)
  {
    assert forall x :: x in h ==> x == h[0] || x in h[1..];
  }

  // ----- the scan, turn by turn -----

  /** The rings and what has been fired when the scan stands at active entry `i`. */
  ghost predicate ScanAt(a0: seq<Node>, h0: seq<Node>, ts: seq<Timer>, cur: int, i: nat,
                         a: seq<Node>, h: seq<Node>, rs: seq<Timer>, fired: seq<Timer>)
    requires i <= |a0| == |ts|
  {
    && a == Stay(a0, ts, cur, i) + a0[i..] && h == Gone(a0, ts, cur, i) + h0
    && rs == Left(ts[..i], cur) + ts[i..] && fired == Timers.Fired(ts[..i], cur)
  }

  lemma ScanStart(a0: seq<Node>, h0: seq<Node>, ts: seq<Timer>, cur: int)
    requires |a0| == |ts|
    ensures ScanAt(a0, h0, ts, cur, 0, a0, h0, ts, [])
  {
    assert ts[..0] == [];
  }

  lemma {:induction false} StayLength(a0: seq<Node>, ts: seq<Timer>, cur: int, i: nat)
    requires i <= |a0| == |ts|
    ensures |Stay(a0, ts, cur, i)| == |Left(ts[..i], cur)|
  {
    if i > 0 {
      StayLength(a0, ts, cur, i - 1);
      assert ts[..i][..i - 1] == ts[..i - 1];
    }
  }

  lemma ScanShape(a0: seq<Node>, h0: seq<Node>, ts: seq<Timer>, cur: int, i: nat,
                  a: seq<Node>, h: seq<Node>, rs: seq<Timer>, fired: seq<Timer>) returns (k: nat)
    requires i < |a0| == |ts| && ScanAt(a0, h0, ts, cur, i, a, h, rs, fired)
    ensures k == |Stay(a0, ts, cur, i)| < |a| == |rs|
    ensures a[k] == a0[i] && rs[k] == ts[i]
    ensures k + 1 < |a| <==> i + 1 < |a0|
    ensures i + 1 < |a0| ==> a[k + 1] == a0[i + 1]
  {
    k := |Stay(a0, ts, cur, i)|;
    StayLength(a0, ts, cur, i);
  }

  lemma ScanMove(a0: seq<Node>, h0: seq<Node>, ts: seq<Timer>, cur: int, i: nat,
                 a: seq<Node>, h: seq<Node>, rs: seq<Timer>, fired: seq<Timer>, k: nat,
                 a': seq<Node>, h': seq<Node>, rs': seq<Timer>, fired': seq<Timer>)
    requires i < |a0| == |ts| && ScanAt(a0, h0, ts, cur, i, a, h, rs, fired)
    requires k == |Stay(a0, ts, cur, i)| < |a| == |rs|
    requires fired' == fired + if Due(ts[i], cur) then [ts[i]] else []
    requires Spent(ts[i], cur) ==> a' == Without(a, k) && h' == [a0[i]] + h && rs' == Without(rs, k)
    requires !Spent(ts[i], cur) ==> a' == a && h' == h && rs' == rs[k := AfterScan(ts[i], cur)]
    ensures ScanAt(a0, h0, ts, cur, i + 1, a', h', rs', fired')
  {
    StayLength(a0, ts, cur, i);
    ScanUnfold(a0, ts, cur, i);
    hide Stay, Gone, Left, Timers.Fired;
    assert a == a[k := a0[i]] by { assert a[k] == a0[i]; }
    hide Without;
    Advance(Stay(a0, ts, cur, i), a0, i, a, a', Spent(ts[i], cur), a0[i]);
    Advance(Left(ts[..i], cur), ts, i, rs, rs', Spent(ts[i], cur), AfterScan(ts[i], cur));
    Prepend(a0[i], Gone(a0, ts, cur, i), h0);
  }

  lemma Prepend<T>(x: T, p: seq<T>, q: seq<T>)
    ensures [x] + (p + q) == [x] + p + q
  {
  }

  lemma ScanUnfold(a0: seq<Node>, ts: seq<Timer>, cur: int, i: nat)
    requires i < |a0| == |ts|
    ensures Stay(a0, ts, cur, i + 1) == Stay(a0, ts, cur, i) + if Spent(ts[i], cur) then [] else [a0[i]]
    ensures Spent(ts[i], cur) ==> Gone(a0, ts, cur, i + 1) == [a0[i]] + Gone(a0, ts, cur, i)
    ensures !Spent(ts[i], cur) ==> Gone(a0, ts, cur, i + 1) == Gone(a0, ts, cur, i)
    ensures Left(ts[..i + 1], cur) == Left(ts[..i], cur) + if Spent(ts[i], cur) then [] else [AfterScan(ts[i], cur)]
    ensures Timers.Fired(ts[..i + 1], cur) == Timers.Fired(ts[..i], cur) + if Due(ts[i], cur) then [ts[i]] else []
  {
    assert ts[..i + 1][..i] == ts[..i];
  }

  /** Taking out or replacing the first of the entries still to be scanned. */
  lemma Advance<T>(p: seq<T>, s0: seq<T>, i: nat, c: seq<T>, c': seq<T>, gone: bool, y: T)
    requires i < |s0| && c == p + s0[i..]
    requires c' == if gone then Without(c, |p|) else c[|p| := y]
    ensures c' == p + (if gone then [] else [y]) + s0[i + 1..]
  {
  }

  lemma ScanEnd(a0: seq<Node>, h0: seq<Node>, ts: seq<Timer>, cur: int,
                a: seq<Node>, h: seq<Node>, rs: seq<Timer>, fired: seq<Timer>)
    requires |a0| == |ts| && ScanAt(a0, h0, ts, cur, |a0|, a, h, rs, fired)
    ensures a == Stay(a0, ts, cur, |a0|) && h == Gone(a0, ts, cur, |a0|) + h0
    ensures rs == Left(ts, cur) && fired == Timers.Fired(ts, cur)
    ensures Timers.Apply(Timers.State(ts, []), Timers.Scan(cur)) == Timers.State(rs, fired)
  {
    assert ts[..|a0|] == ts;
  }
}
