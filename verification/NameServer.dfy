/** The name server's choice of a domain for a group and of a replica within the domain. */
module NameServer {
  import opened Common

  const MAX_GROUP: nat := 64

  datatype Policy = DiskFree | LeastLoad | LeastTasks

  datatype Peer = Peer(diskfree: nat, load: nat, taskcount: nat)

  datatype Domain = Domain(name: string, ips: seq<nat>, diskfree: nat, load: nat, taskcount: nat)

  /** The storage servers connected now, with their last reports. */
  type Online = map<nat, Peer>

  // Eligibility

  function Count(ips: seq<nat>, online: Online): nat {
    if ips == [] then 0 else Count(ips[..|ips| - 1], online) + (if ips[|ips| - 1] in online then 1 else 0)
  }

  predicate Eligible(d: Domain, online: Online) {
    Count(d.ips, online) * 2 >= |d.ips|
  }

  /** The positions of the servers that are connected. */
  ghost function Connected(ips: seq<nat>, online: Online): set<nat> {
    set i: nat | i < |ips| && ips[i] in online
  }

  lemma {:induction false} CountConnected(ips: seq<nat>, online: Online)
    ensures Count(ips, online) == |Connected(ips, online)|
    decreases |ips|
  {
    if ips == [] {
      assert Connected(ips, online) == {};
    } else {
      var n := |ips| - 1;
      CountConnected(ips[..n], online);
      assert Connected(ips, online) == Connected(ips[..n], online) + if ips[n] in online then {n} else {};
    }
  }

  /** A domain takes part if and only if at least half of its servers are connected. */
  lemma EligibleExactly(d: Domain, online: Online)
    ensures Eligible(d, online) <==> 2 * |Connected(d.ips, online)| >= |d.ips|
  {
    CountConnected(d.ips, online);
  }

  function Max(a: nat, b: nat): nat {
    if a < b then b else a
  }

  function Min(a: nat, b: nat): nat {
    if a > b then b else a
  }

  /** Fold one server's report into its domain. */
  function Merge(d: Domain, ip: nat, online: Online): Domain {
    if ip !in online then d
    else
      var p := online[ip];
      d.(diskfree := Max(d.diskfree, p.diskfree), load := Min(d.load, p.load),
         taskcount := Min(d.taskcount, p.taskcount))
  }

  function MergeUpTo(d: Domain, k: nat, online: Online): Domain
    requires k <= |d.ips|
    ensures MergeUpTo(d, k, online).ips == d.ips && MergeUpTo(d, k, online).name == d.name
  {
    if k == 0 then d else Merge(MergeUpTo(d, k - 1, online), d.ips[k - 1], online)
  }

  /** The domain's figures after its servers have been consulted. */
  function Refresh(d: Domain, online: Online): (r: Domain)
    ensures r.ips == d.ips && r.name == d.name
  {
    MergeUpTo(d, |d.ips|, online)
  }

  /** A domain's free space is the largest ever reported for it, its load and task count the smallest. */
  ghost predicate Extremes(d: Domain, k: nat, online: Online, r: Domain)
    requires k <= |d.ips|
  {
    && r.diskfree >= d.diskfree && r.load <= d.load && r.taskcount <= d.taskcount
    && (forall i :: 0 <= i < k && d.ips[i] in online ==>
         && r.diskfree >= online[d.ips[i]].diskfree
         && r.load <= online[d.ips[i]].load
         && r.taskcount <= online[d.ips[i]].taskcount)
    && (r.diskfree == d.diskfree ||
        exists i :: 0 <= i < k && d.ips[i] in online && r.diskfree == online[d.ips[i]].diskfree)
    && (r.load == d.load || exists i :: 0 <= i < k && d.ips[i] in online && r.load == online[d.ips[i]].load)
    && (r.taskcount == d.taskcount ||
        exists i :: 0 <= i < k && d.ips[i] in online && r.taskcount == online[d.ips[i]].taskcount)
  }

  lemma {:induction false} MergeExtremes(d: Domain, k: nat, online: Online)
    requires k <= |d.ips|
    ensures Extremes(d, k, online, MergeUpTo(d, k, online))
  {
    if k > 0 {
      MergeExtremes(d, k - 1, online);
    }
  }

  lemma RefreshExtremes(d: Domain, online: Online)
    ensures Extremes(d, |d.ips|, online, Refresh(d, online))
  {
    MergeExtremes(d, |d.ips|, online);
  }

  /** `check_more_half_online`. */
  method CheckMoreHalfOnline(d: Domain, online: Online) returns (r: Domain, ok: bool)
    ensures r == Refresh(d, online) && (ok <==> Eligible(d, online))
  {
    r := d;
    var count, j := 0, 0;
    while j < |d.ips|
      invariant 0 <= j <= |d.ips|
      invariant r == MergeUpTo(d, j, online) && count == Count(d.ips[..j], online)
    {
      assert d.ips[..j + 1][..j] == d.ips[..j];
      if d.ips[j] in online {
        count := count + 1;
      }
      r := Merge(r, d.ips[j], online);
      j := j + 1;
    }
    assert d.ips[..j] == d.ips;
    ok := count * 2 >= |d.ips|;
  }

  // The best domain of a group

  /** `sortdomain`: `b` is strictly better than `a`. */
  predicate Beats(policy: Policy, a: Domain, b: Domain) {
    match policy
    case LeastLoad => a.load > b.load
    case LeastTasks => a.taskcount > b.taskcount
    case DiskFree => b.diskfree > a.diskfree
  }

  /** The first of the eligible domains among the first `k` that none of them beats. */
  ghost predicate Best(policy: Policy, ds: seq<Domain>, online: Online, k: nat, i: nat)
    requires k <= |ds|
  {
    && i < k
    && Eligible(ds[i], online)
    && (forall j :: 0 <= j < k && Eligible(ds[j], online) ==> !Beats(policy, ds[i], ds[j]))
    && (forall j :: 0 <= j < i && Eligible(ds[j], online) ==> Beats(policy, ds[j], ds[i]))
  }

  /** There is one best domain. */
  lemma BestUnique(policy: Policy, ds: seq<Domain>, online: Online, i: nat, j: nat)
    requires Best(policy, ds, online, |ds|, i) && Best(policy, ds, online, |ds|, j)
    ensures i == j
  {
    hide Eligible;
  }

  /** In the figures themselves: the best domain has the most free space, the least load or the fewest
      tasks of all that are eligible, and strictly so before it in the list. */
  lemma BestExactly(policy: Policy, ds: seq<Domain>, online: Online, i: nat)
    ensures Best(policy, ds, online, |ds|, i) <==>
      && i < |ds| && Eligible(ds[i], online)
      && forall j :: 0 <= j < |ds| && Eligible(ds[j], online) ==>
           && (policy == DiskFree ==> ds[j].diskfree <= ds[i].diskfree && (j < i ==> ds[j].diskfree < ds[i].diskfree))
           && (policy == LeastLoad ==> ds[i].load <= ds[j].load && (j < i ==> ds[i].load < ds[j].load))
           && (policy == LeastTasks ==>
                 ds[i].taskcount <= ds[j].taskcount && (j < i ==> ds[i].taskcount < ds[j].taskcount))
  {
    hide Eligible;
  }

  ghost predicate Refreshed(before: seq<Domain>, online: Online, after: seq<Domain>) {
    |after| == |before| && forall i :: 0 <= i < |after| ==> after[i] == Refresh(before[i], online)
  }

  /** The walk of `update_group_domain` over the group's domains. */
  method ChooseDomain(domains: array<Domain>, online: Online, policy: Policy) returns (best: Option<nat>)
    modifies domains
    ensures Refreshed(old(domains[..]), online, domains[..])
    ensures best.Some? ==> Best(policy, domains[..], online, domains.Length, best.value)
    ensures best.None? ==> forall j :: 0 <= j < domains.Length ==> !Eligible(domains[j], online)
  {
    hide Refresh, Eligible, Beats, Best;
    best := None;
    var j := 0;
    while j < domains.Length
      invariant 0 <= j <= domains.Length
      invariant forall i :: 0 <= i < j ==> domains[i] == Refresh(old(domains[i]), online)
      invariant forall i :: j <= i < domains.Length ==> domains[i] == old(domains[i])
      invariant BestSoFar(policy, domains[..], online, j, best)
    {
      ghost var before := domains[..];
      var r, ok := CheckMoreHalfOnline(domains[j], online);
      SameIps(domains[j], r, online);
      domains[j] := r;
      BestStep(policy, before, domains[..], online, j, best);
      if ok && (best.None? || Beats(policy, domains[best.value], domains[j])) {
        best := Some(j);
      }
      j := j + 1;
    }
  }

  /** The best of the first `k` domains, if one of them is eligible. */
  ghost predicate BestSoFar(policy: Policy, ds: seq<Domain>, online: Online, k: nat, best: Option<nat>)
    requires k <= |ds|
  {
    match best
    case Some(b) => b < k && Best(policy, ds, online, k, b)
    case None => forall i :: 0 <= i < k ==> !Eligible(ds[i], online)
  }

  lemma SameIps(d: Domain, r: Domain, online: Online)
    requires r == Refresh(d, online)
    ensures Eligible(r, online) <==> Eligible(d, online)
  {
  }

  lemma BestStep(policy: Policy, before: seq<Domain>, ds: seq<Domain>, online: Online, j: nat, best: Option<nat>)
    requires j < |ds| == |before| && ds[..j] == before[..j] && BestSoFar(policy, before, online, j, best)
    ensures best.Some? ==> best.value < j
    ensures BestSoFar(policy, ds, online, j + 1,
                      if Eligible(ds[j], online) && (best.None? || Beats(policy, ds[best.value], ds[j]))
                      then Some(j) else best)
  {
    hide Eligible;
    forall i | 0 <= i < j
      ensures ds[i] == before[i]
    {
      assert ds[i] == ds[..j][i];
    }
  }

  // Loads that start at zero

  function RefreshRun(d: Domain, reports: seq<Online>): Domain
    decreases |reports|
  {
    if reports == [] then d else RefreshRun(Refresh(d, reports[0]), reports[1..])
  }

  /** A domain is allocated with zero load, so the smallest load ever seen is zero for ever. */
  lemma {:induction false} LoadStaysZero(d: Domain, reports: seq<Online>)
    requires d.load == 0 && d.taskcount == 0
    ensures RefreshRun(d, reports).load == 0 && RefreshRun(d, reports).taskcount == 0
    decreases |reports|
  {
    if reports != [] {
      RefreshExtremes(d, reports[0]);
      LoadStaysZero(Refresh(d, reports[0]), reports[1..]);
    }
  }

  /** With equal figures no domain beats another: the first eligible one is chosen, whatever was reported. */
  lemma EqualLoadsChooseFirst(policy: Policy, ds: seq<Domain>, online: Online, i: nat)
    requires policy != DiskFree && forall j :: 0 <= j < |ds| ==> ds[j].load == 0 && ds[j].taskcount == 0
    ensures Best(policy, ds, online, |ds|, i) <==>
            i < |ds| && Eligible(ds[i], online) && forall j :: 0 <= j < i ==> !Eligible(ds[j], online)
  {
    hide Eligible;
  }

  // The table of best domains

  /** The first slot that is free or holds the group. */
  function Scan(names: seq<string>, g: string, i: nat): nat
    requires i <= |names|
    decreases |names| - i
  {
    if i == |names| || names[i] == "" || names[i] == g then i else Scan(names, g, i + 1)
  }

  /** `get_domain_by_group`. */
  function Get(names: seq<string>, best: seq<Domain>, g: string): Option<Domain>
    requires |names| == |best|
  {
    var i := Scan(names, g, 0);
    if i < |names| && names[i] != "" && names[i] == g then Some(best[i]) else None
  }

  /** What `update_group_domain` does to the table once a domain is chosen. */
  function Record(names: seq<string>, best: seq<Domain>, g: string, w: Domain): (seq<string>, seq<Domain>)
    requires |names| == |best|
  {
    var i := Scan(names, g, 0);
    if i >= |names| then (names, best) else (names[i := g], best[i := w])
  }

  /** The groups recorded are the first `n` slots, all different; the others are free. */
  predicate Tidy(names: seq<string>, n: nat) {
    && n <= |names|
    && (forall i :: 0 <= i < n ==> names[i] != "")
    && (forall i :: n <= i < |names| ==> names[i] == "")
    && (forall i, j :: 0 <= i < j < n ==> names[i] != names[j])
  }

  lemma {:induction false} ScanFinds(names: seq<string>, n: nat, g: string, i: nat)
    requires Tidy(names, n) && i <= n
    requires forall j :: 0 <= j < i ==> names[j] != g
    ensures var k := Scan(names, g, i);
      && i <= k <= n
      && (k < n ==> names[k] == g)
      && (k == n ==> forall j :: 0 <= j < n ==> names[j] != g)
    decreases n - i
  {
    if i < n && names[i] != g {
      ScanFinds(names, n, g, i + 1);
    }
  }

  function Slots(names: seq<string>, n: nat, g: string): nat
    requires n <= |names|
  {
    if g != "" && Scan(names, g, 0) == n && n < |names| then n + 1 else n
  }

  /** Recording keeps the names a duplicate-free prefix; a full table takes no new group. */
  lemma RecordTidy(names: seq<string>, best: seq<Domain>, n: nat, g: string, w: Domain)
    requires |names| == |best| && Tidy(names, n)
    ensures Tidy(Record(names, best, g, w).0, Slots(names, n, g))
  {
    ScanFinds(names, n, g, 0);
  }

  /** A tidy table is read by searching its names. */
  lemma GetMeans(names: seq<string>, best: seq<Domain>, n: nat, g: string, i: nat)
    requires |names| == |best| && Tidy(names, n)
    ensures i < n && names[i] == g ==> Get(names, best, g) == Some(best[i])
    ensures (forall j :: 0 <= j < n ==> names[j] != g) ==> Get(names, best, g).None?
  {
    ScanFinds(names, n, g, 0);
  }

  /** A recorded group is found again with its new domain, and no other group is touched. */
  lemma RecordThenGet(names: seq<string>, best: seq<Domain>, n: nat, g: string, w: Domain, h: string)
    requires |names| == |best| && Tidy(names, n)
    ensures var (ns, bs) := Record(names, best, g, w);
      Get(ns, bs, h) ==
      if h == g != "" && (Get(names, best, g).Some? || n < |names|) then Some(w) else Get(names, best, h)
  {
    var k := Scan(names, g, 0);
    ScanFinds(names, n, g, 0);
    var (ns, bs) := Record(names, best, g, w);
    RecordTidy(names, best, n, g, w);
    var m := Slots(names, n, g);
    ScanFinds(names, n, h, 0);
    ScanFinds(ns, m, h, 0);
    if h == "" {
      GetMeans(names, best, n, h, 0);
      GetMeans(ns, bs, m, h, 0);
    } else if h == g && k < |names| {
      GetMeans(ns, bs, m, g, k);
    } else if h != g {
      GetElsewhere(names, best, ns, bs, n, m, k, h);
    }
  }

  lemma GetElsewhere(names: seq<string>, best: seq<Domain>, ns: seq<string>, bs: seq<Domain>,
                     n: nat, m: nat, k: nat, h: string)
    requires |names| == |best| == |ns| == |bs| && Tidy(names, n) && Tidy(ns, m) && n <= m
    requires forall i :: 0 <= i < |names| && i != k ==> ns[i] == names[i] && bs[i] == best[i]
    requires k < |names| ==> ns[k] != h && names[k] != h
    ensures Get(ns, bs, h) == Get(names, best, h)
  {
    ScanFinds(names, n, h, 0);
    var p := Scan(names, h, 0);
    if p < n {
      assert ns[p] == h;
      GetMeans(ns, bs, m, h, p);
    } else {
      forall j | 0 <= j < m
        ensures ns[j] != h
      {
        assert ns[j] != "" && (j != k ==> ns[j] == names[j]);
      }
      GetMeans(ns, bs, m, h, 0);
    }
  }

  // Whole runs of the table

  datatype Choice = Choice(group: string, domain: Domain)

  function RecordRun(names: seq<string>, best: seq<Domain>, cs: seq<Choice>): (seq<string>, seq<Domain>)
    requires |names| == |best|
    decreases |cs|
  {
    if cs == [] then (names, best)
    else
      var (ns, bs) := Record(names, best, cs[0].group, cs[0].domain);
      RecordRun(ns, bs, cs[1..])
  }

  /** A map with room for `limit` groups that keeps the latest domain of each. */
  function Latest(m: map<string, Domain>, limit: nat, cs: seq<Choice>): map<string, Domain>
    decreases |cs|
  {
    if cs == [] then m
    else
      var c := cs[0];
      var next := if c.group != "" && (c.group in m || |m| < limit) then m[c.group := c.domain] else m;
      Latest(next, limit, cs[1..])
  }

  ghost predicate Agrees(names: seq<string>, best: seq<Domain>, n: nat, m: map<string, Domain>) {
    && |names| == |best| && Tidy(names, n) && |m| == n
    && (forall h: string {:trigger Get(names, best, h)} :: Get(names, best, h) == if h in m then Some(m[h]) else None)
  }

  lemma RecordAgrees(names: seq<string>, best: seq<Domain>, n: nat, m: map<string, Domain>, c: Choice)
    requires Agrees(names, best, n, m)
    ensures var (ns, bs) := Record(names, best, c.group, c.domain);
      var next := if c.group != "" && (c.group in m || |m| < |names|) then m[c.group := c.domain] else m;
      Agrees(ns, bs, Slots(names, n, c.group), next)
  {
    hide Scan, Tidy, Get, Record;
    var g := c.group;
    var (ns, bs) := Record(names, best, g, c.domain);
    RecordSizes(names, best, g, c.domain);
    RecordTidy(names, best, n, g, c.domain);
    SlotsMeans(names, best, n, g);
    var next := if g != "" && (g in m || |m| < |names|) then m[g := c.domain] else m;
    assert Get(names, best, g) == if g in m then Some(m[g]) else None;
    forall h: string
      ensures Get(ns, bs, h) == if h in next then Some(next[h]) else None
    {
      RecordThenGet(names, best, n, g, c.domain, h);
      assert Get(names, best, h) == if h in m then Some(m[h]) else None;
    }
    if g !in m {
      assert m[g := c.domain].Keys == m.Keys + {g};
      assert |m[g := c.domain]| == |m| + 1;
    } else {
      assert m[g := c.domain].Keys == m.Keys;
      assert |m[g := c.domain]| == |m|;
    }
  }

  lemma RecordSizes(names: seq<string>, best: seq<Domain>, g: string, w: Domain)
    requires |names| == |best|
    ensures |Record(names, best, g, w).0| == |Record(names, best, g, w).1| == |names|
  {
  }

  /** A slot is taken exactly for a group that is not there yet. */
  lemma SlotsMeans(names: seq<string>, best: seq<Domain>, n: nat, g: string)
    requires |names| == |best| && Tidy(names, n)
    ensures n <= |names| && Get(names, best, "").None?
    ensures Slots(names, n, g) == if g != "" && Get(names, best, g).None? && n < |names| then n + 1 else n
  {
    ScanFinds(names, n, g, 0);
    ScanFinds(names, n, "", 0);
  }

  /** Over any run of refreshes the table is the bounded map of latest choices. */
  lemma {:induction false} TableIsMap(names: seq<string>, best: seq<Domain>, n: nat, m: map<string, Domain>,
                                      cs: seq<Choice>, h: string)
    requires Agrees(names, best, n, m)
    ensures
      var (ns, bs) := RecordRun(names, best, cs);
      var final := Latest(m, |names|, cs);
      |ns| == |bs| == |names| && Get(ns, bs, h) == if h in final then Some(final[h]) else None
    decreases |cs|
  {
    hide Scan, Get, Record, Slots;
    if cs != [] {
      var c := cs[0];
      RecordAgrees(names, best, n, m, c);
      RecordSizes(names, best, c.group, c.domain);
      var (ns, bs) := Record(names, best, c.group, c.domain);
      var next := if c.group != "" && (c.group in m || |m| < |names|) then m[c.group := c.domain] else m;
      TableIsMap(ns, bs, Slots(names, n, c.group), next, cs[1..], h);
    }
  }

  class BestDomains {
    const groupArray: array<string>
    const bestDomain: array<Domain>
    ghost var used: nat

    ghost predicate Valid()
      reads this, groupArray
    {
      groupArray.Length == bestDomain.Length == MAX_GROUP && Tidy(groupArray[..], used)
    }

    constructor (blank: Domain)
      ensures Valid() && used == 0 && fresh(groupArray) && fresh(bestDomain)
    {
      groupArray := new string[MAX_GROUP](_ => "");
      bestDomain := new Domain[MAX_GROUP](_ => blank);
      used := 0;
    }

    method ScanNames(g: string) returns (i: nat)
      ensures i == Scan(groupArray[..], g, 0)
    {
      i := 0;
      while i < groupArray.Length && groupArray[i] != "" && groupArray[i] != g
        invariant 0 <= i <= groupArray.Length
        invariant Scan(groupArray[..], g, i) == Scan(groupArray[..], g, 0)
      {
        i := i + 1;
      }
    }

    /** `get_domain_by_group`. */
    method GetDomainByGroup(g: string) returns (r: Option<Domain>)
      requires Valid()
      ensures r == Get(groupArray[..], bestDomain[..], g)
    {
      var i := ScanNames(g);
      if i < groupArray.Length && groupArray[i] != "" && groupArray[i] == g {
        r := Some(bestDomain[i]);
      } else {
        r := None;
      }
    }

    /** `update_group_domain`: it fails exactly when no domain is eligible, and then changes no entry. */
    method UpdateGroupDomain(g: string, domains: array<Domain>, online: Online, policy: Policy) returns (ok: bool)
      requires Valid() && domains != bestDomain
      modifies this`used, groupArray, bestDomain, domains
      ensures Valid() && Refreshed(old(domains[..]), online, domains[..])
      ensures ok <==> exists j :: 0 <= j < domains.Length && Eligible(domains[j], online)
      ensures !ok ==> groupArray[..] == old(groupArray[..]) && bestDomain[..] == old(bestDomain[..])
      ensures ok ==> exists i: nat ::
        Best(policy, domains[..], online, domains.Length, i) &&
        (groupArray[..], bestDomain[..]) == Record(old(groupArray[..]), old(bestDomain[..]), g, domains[i])
      ensures used == if ok then Slots(old(groupArray[..]), old(used), g) else old(used)
    {
      hide Eligible, Tidy, Scan, Beats, Refresh;
      var best := ChooseDomain(domains, online, policy);
      ok := best.Some?;
      if ok {
        var i := ScanNames(g);
        assert i == Scan(groupArray[..], g, 0);
        ScanBound(groupArray[..], g);
        ghost var w := domains[best.value];
        RecordTidy(groupArray[..], bestDomain[..], used, g, w);
        if i < groupArray.Length {
          groupArray[i] := g;
          bestDomain[i] := domains[best.value];
        }
        used := Slots(old(groupArray[..]), used, g);
      }
    }
  }

  lemma {:induction false} ScanBound(names: seq<string>, g: string)
    ensures Scan(names, g, 0) <= |names|
  {
    ScanBoundFrom(names, g, 0);
  }

  lemma {:induction false} ScanBoundFrom(names: seq<string>, g: string, i: nat)
    requires i <= |names|
    ensures Scan(names, g, i) <= |names|
    decreases |names| - i
  {
    if i < |names| && names[i] != "" && names[i] != g {
      ScanBoundFrom(names, g, i + 1);
    }
  }
}
