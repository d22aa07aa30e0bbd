/** `get_valid_ip_4_up`: rotate over a domain's servers, skipping those that are not connected. */
module Replicas {
  import opened Common
  import opened NameServer

  /** The first connected server, or the number of servers. */
  function FirstOnline(ips: seq<nat>, online: Online, i: nat): nat
    requires i <= |ips|
    decreases |ips| - i
  {
    if i == |ips| || ips[i] in online then i else FirstOnline(ips, online, i + 1)
  }

  /** Where a call starts: the index is brought back when it has run off the end. */
  function Start(n: nat, index: nat): nat {
    if index >= n then 0 else index
  }

  /** The server at the index if it is connected, the first connected one otherwise. */
  function Pick(ips: seq<nat>, online: Online, index: nat): Option<nat> {
    if index < |ips| && ips[index] in online then Some(ips[index])
    else
      var j := FirstOnline(ips, online, 0);
      if j < |ips| then Some(ips[j]) else None
  }

  lemma {:induction false} FirstOnlineFinds(ips: seq<nat>, online: Online, i: nat)
    requires i <= |ips|
    ensures var j := FirstOnline(ips, online, i);
      && i <= j <= |ips|
      && (j < |ips| ==> ips[j] in online)
      && (forall k :: i <= k < j ==> ips[k] !in online)
    decreases |ips| - i
  {
    if i < |ips| && ips[i] !in online {
      FirstOnlineFinds(ips, online, i + 1);
    }
  }

  /** A server is returned exactly when one is connected: the one at the index if that is connected,
      and the first connected one of the domain otherwise. */
  lemma PickExactly(ips: seq<nat>, online: Online, index: nat)
    ensures Pick(ips, online, index).Some? <==> exists k :: 0 <= k < |ips| && ips[k] in online
    ensures var r := Pick(ips, online, index); r.Some? ==> r.value in ips && r.value in online
    ensures index < |ips| && ips[index] in online ==> Pick(ips, online, index) == Some(ips[index])
    ensures !(index < |ips| && ips[index] in online) ==>
      forall j :: 0 <= j < |ips| && ips[j] in online && (forall k :: 0 <= k < j ==> ips[k] !in online) ==>
        Pick(ips, online, index) == Some(ips[j])
  {
    FirstOnlineFinds(ips, online, 0);
  }

  class Rotation {
    const ips: seq<nat>
    var index: nat

    constructor (servers: seq<nat>)
      ensures ips == servers && index == 0
    {
      ips, index := servers, 0;
    }

    /** `pinned` is storage selection type 1, which always takes the first connected server. */
    method GetValidIp4Up(online: Online, pinned: bool) returns (r: Option<nat>)
      modifies this`index
      ensures r == Pick(ips, online, if pinned then 0 else Start(|ips|, old(index)))
      ensures index == if pinned then 0 else Start(|ips|, old(index)) + 1
    {
      r := None;
      if index >= |ips| {
        index := 0;
      }
      if pinned {
        index := 0;
      }
      var j := 0;
      while j < |ips| && ips[j] !in online
        invariant 0 <= j <= |ips|
        invariant FirstOnline(ips, online, 0) == FirstOnline(ips, online, j)
      {
        j := j + 1;
      }
      if j < |ips| {
        r := Some(ips[j]);
      }
      if !pinned && j != index {
        if ips[index] in online {
          r := Some(ips[index]);
        }
      }
      FirstOnlineFinds(ips, online, 0);
      if !pinned {
        index := index + 1;
      }
    }
  }

  // Consecutive calls

  /** The index before the call that follows `t` unpinned calls. */
  function IndexAfter(n: nat, index: nat, t: nat): nat {
    if t == 0 then index else Start(n, IndexAfter(n, index, t - 1)) + 1
  }

  /** The answers of `t` consecutive unpinned calls with the same servers connected. */
  function Answers(ips: seq<nat>, online: Online, index: nat, t: nat): seq<Option<nat>> {
    if t == 0 then []
    else Answers(ips, online, index, t - 1) + [Pick(ips, online, Start(|ips|, IndexAfter(|ips|, index, t - 1)))]
  }

  lemma {:induction false} AnswersAt(ips: seq<nat>, online: Online, index: nat, t: nat, k: nat)
    requires k < t
    ensures |Answers(ips, online, index, t)| == t
    ensures Answers(ips, online, index, t)[k] == Pick(ips, online, Start(|ips|, IndexAfter(|ips|, index, k)))
    decreases t
  {
    if k < t - 1 {
      AnswersAt(ips, online, index, t - 1, k);
    } else if t > 1 {
      AnswersAt(ips, online, index, t - 1, 0);
    }
  }

  /** The rotation visits the servers one after the other and then begins again. */
  lemma {:induction false} Rotates(n: nat, index: nat, t: nat)
    requires n > 0
    ensures Start(n, IndexAfter(n, index, t)) == (Start(n, index) + t) % n
    decreases t
  {
    if t > 0 {
      Rotates(n, index, t - 1);
      Wraps(n, Start(n, index) + t - 1);
    }
  }

  lemma Wraps(n: nat, x: nat)
    requires n > 0
    ensures Start(n, x % n + 1) == (x + 1) % n
  {
    var q, r := x / n, x % n;
    assert x == n * q + r;
    if r + 1 < n {
      Euclid(x + 1, n, q, r + 1);
    } else {
      assert x + 1 == n * (q + 1);
      Euclid(x + 1, n, q + 1, 0);
    }
  }

  /** As many calls as there are servers return every connected server. */
  lemma EveryReplicaServed(ips: seq<nat>, online: Online, index: nat, j: nat)
    requires j < |ips| && ips[j] in online
    ensures Some(ips[j]) in Answers(ips, online, index, |ips|)
  {
    var n := |ips|;
    var s := Start(n, index);
    var t := if j >= s then j - s else j + n - s;
    assert (s + t) % n == j by {
      if j >= s {
        Euclid(s + t, n, 0, j);
      } else {
        Euclid(s + t, n, 1, j);
      }
    }
    Rotates(n, index, t);
    AnswersAt(ips, online, index, n, t);
  }
}
