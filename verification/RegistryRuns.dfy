/** Registries whose addresses are all different, and what goes wrong when one moves. */
module RegistryRuns {
  import opened Common
  import opened Registry

  // Distinct addresses, counted

  ghost predicate Once(us: seq<nat>) {
    forall u {:trigger multiset(us)[u]} :: multiset(us)[u] <= 1
  }

  /** No address occurs twice if and only if all are different. */
  lemma OnceExactly(us: seq<nat>)
    ensures Once(us) <==> Distinct(us)
  {
    if Once(us) {
      forall i, j | 0 <= i < j < |us|
        ensures us[i] != us[j]
      {
        assert us == us[..j] + [us[j]] + us[j + 1..];
        assert us[i] in multiset(us[..j]);
        assert multiset(us)[us[j]] == multiset(us[..j])[us[j]] + 1 + multiset(us[j + 1..])[us[j]];
      }
    }
    if Distinct(us) {
      forall u
        ensures multiset(us)[u] <= 1
      {
        DistinctCounts(us, u);
      }
    }
  }

  lemma {:induction false} DistinctCounts(us: seq<nat>, u: nat)
    requires Distinct(us)
    ensures multiset(us)[u] <= 1
    decreases |us|
  {
    if us != [] {
      assert us == [us[0]] + us[1..];
      DistinctCounts(us[1..], u);
    }
  }

  /** Rearranging registrations rearranges their addresses. */
  lemma {:induction false} UipsPermute(x: seq<Entry>, y: seq<Entry>)
    requires multiset(x) == multiset(y)
    ensures multiset(Uips(x)) == multiset(Uips(y))
    decreases |x|
  {
    hide Uips;
    if x == [] {
      assert |multiset(y)| == 0;
      assert y == [];
    } else {
      assert x[0] in multiset(y);
      var j :| 0 <= j < |y| && y[j] == x[0];
      var z := y[..j] + y[j + 1..];
      PluckSame(x, y, j);
      UipsPermute(x[1..], z);
      assert x[..0] + x[1..] == x[1..];
      UipsAt(x, 0);
      UipsAt(y, j);
    }
  }

  lemma PluckSame<T(!new)>(x: seq<T>, y: seq<T>, j: nat)
    requires multiset(x) == multiset(y) && x != [] && j < |y| && y[j] == x[0]
    ensures multiset(x[1..]) == multiset(y[..j] + y[j + 1..])
  {
    assert x[..0] + x[1..] == x[1..];
    Pluck(x, 0);
    Pluck(y, j);
    Cancel(multiset(x[1..]), multiset(y[..j] + y[j + 1..]), multiset{x[0]});
  }

  lemma Pluck<T>(s: seq<T>, j: nat)
    requires j < |s|
    ensures multiset(s) == multiset(s[..j] + s[j + 1..]) + multiset{s[j]}
  {
    assert s == s[..j] + [s[j]] + s[j + 1..];
  }

  lemma UipsAt(es: seq<Entry>, j: nat)
    requires j < |es|
    ensures multiset(Uips(es)) == multiset(Uips(es[..j] + es[j + 1..])) + multiset{es[j].uip}
  {
    var us := Uips(es);
    assert us == us[..j] + [us[j]] + us[j + 1..];
    assert Uips(es[..j] + es[j + 1..]) == us[..j] + us[j + 1..];
  }

  lemma UipsSplit(x: seq<Entry>, a: seq<Entry>, b: seq<Entry>)
    requires multiset(x) == multiset(a) + multiset(b)
    ensures multiset(Uips(x)) == multiset(Uips(a)) + multiset(Uips(b))
  {
    UipsPermute(x, a + b);
    assert Uips(a + b) == Uips(a) + Uips(b);
  }

  /** With one registration per address, every registration is the one its address looks up to. */
  lemma {:induction false} LookupOnly(flat: seq<Entry>, e: Entry)
    requires Distinct(Uips(flat)) && e in flat
    ensures Lookup(flat, e.uip) == Some(e)
    decreases |flat|
  {
    if flat[0] != e {
      var j :| 0 <= j < |flat| && flat[j] == e;
      assert Uips(flat)[0] != Uips(flat)[j];
      assert Uips(flat[1..]) == Uips(flat)[1..];
      LookupOnly(flat[1..], e);
    }
  }

  lemma {:induction false} LookupSound(flat: seq<Entry>, u: nat)
    ensures Lookup(flat, u).Some? ==> Lookup(flat, u).value in flat && Lookup(flat, u).value.uip == u
    decreases |flat|
  {
    if flat != [] && flat[0].uip != u {
      LookupSound(flat[1..], u);
    }
  }

  /** Looking an address up gives exactly what the configuration and the services say of it. */
  lemma LookupAgrees(s: Sys, base: seq<Entry>, e: Entry)
    requires Accounted(s, base) && Once(Uips(s.flat))
    ensures Lookup(s.flat, e.uip) == Some(e) <==> e in base || e in AllEntries(s.groups)
  {
    hide Lookup, AllEntries, Once;
    assert e in s.flat <==> e in multiset(s.flat);
    assert e in s.flat <==> e in base || e in AllEntries(s.groups);
    if e in s.flat {
      OnceExactly(Uips(s.flat));
      LookupOnly(s.flat, e);
    }
    LookupSound(s.flat, e.uip);
  }

  /** Distinct addresses settle every group. */
  lemma OnceSettles(s: Sys, base: seq<Entry>, name: string)
    requires Accounted(s, base) && Once(Uips(s.flat))
    ensures Settled(s, name)
  {
    hide AllEntries, Once, Named, Others, Uips, Of, Mine, SettledAt, Mentions;
    SplitByName(s.groups, name);
    assert multiset(s.flat) >= multiset(Doomed(s, name));
    forall u | u in Uips(Doomed(s, name))
      ensures SettledAt(s, name, u)
    {
      OnceSettlesAt(s, name, u);
    }
  }

  lemma OnceSettlesAt(s: Sys, name: string, u: nat)
    requires multiset(s.flat) >= multiset(Doomed(s, name)) && Once(Uips(s.flat)) && u in Uips(Doomed(s, name))
    ensures SettledAt(s, name, u)
  {
    hide AllEntries, Named, Of;
    var es := Doomed(s, name);
    var j :| 0 <= j < |es| && es[j].uip == u;
    EntryAlive(Named(s.groups, name), es[j]);
    OfLength(s.flat, u);
    OfCounts(s.flat, u, es[j]);
    assert es[j] in multiset(es);
    assert es[j] in multiset(Of(s.flat, u));
    assert |Of(s.flat, u)| <= 1;
  }

  // Runs described by the configuration alone

  /** The addresses a load registers. */
  function LoadedIps(ls: seq<Line>): seq<nat> {
    if ls == [] || ls[0].Malformed? then []
    else if |ls[0].ips| > MAX_IP_DOMAIN then Kept(ls[0].ips)
    else Kept(ls[0].ips) + LoadedIps(ls[1..])
  }

  function NewIps(c: Config): seq<nat> {
    if c.Lines? then LoadedIps(c.lines) else []
  }

  /** The addresses of the new configuration differ from each other and from all the other groups'. */
  ghost predicate Fits(s: Sys, l: Load) {
    Once(Uips(Destroy(s, l.name).flat) + NewIps(l.config))
  }

  lemma PushUips(flat: seq<Entry>, id: nat, ips: seq<nat>)
    ensures multiset(Uips(Push(flat, id, ips))) == multiset(Uips(flat)) + multiset(ips)
  {
    PushCounts(flat, id, ips);
    UipsSplit(Push(flat, id, ips), flat, EntriesOf(Domain(id, ips)));
    assert Uips(EntriesOf(Domain(id, ips))) == ips;
  }

  lemma {:induction false} AddLinesUips(s: Sys, ls: seq<Line>)
    requires s.groups != []
    ensures multiset(Uips(AddLines(s, ls).0.flat)) == multiset(Uips(s.flat)) + multiset(LoadedIps(ls))
    decreases |ls|
  {
    hide Uips, Push, Kept;
    if ls != [] && !ls[0].Malformed? {
      PushUips(s.flat, s.nextId, Kept(ls[0].ips));
      var t := AddDomain(s, ls[0].ips);
      if |ls[0].ips| <= MAX_IP_DOMAIN {
        AddLinesUips(t, ls[1..]);
      }
    }
  }

  lemma FitsKeeps(s: Sys, l: Load)
    requires Fits(s, l)
    ensures Once(Uips(InitGroup(s, l.name, l.config).0.flat))
  {
    hide Uips, AddLines, LoadedIps, Destroy;
    var t := Opened(Destroy(s, l.name), l.name);
    var us := Uips(Destroy(s, l.name).flat);
    if l.config.Lines? {
      AddLinesUips(t, l.config.lines);
      SameCounts(Uips(AddLines(t, l.config.lines).0.flat), us + LoadedIps(l.config.lines));
    } else {
      assert us + [] == us;
    }
  }

  lemma {:induction false} InDomains(ds: seq<Domain>, i: nat, j: nat)
    requires i < |ds| && j < |ds[i].ips|
    ensures Entry(ds[i].ips[j], Storage(ds[i].id)) in EntriesIn(ds)
    decreases i
  {
    if i == 0 {
      assert EntriesOf(ds[0])[j] == Entry(ds[0].ips[j], Storage(ds[0].id));
    } else {
      InDomains(ds[1..], i - 1, j);
    }
  }

  /** After a load whose addresses clash with none, every address of every line that was read, up to
      the 64th, looks up to the domain of its line. */
  lemma LinesAreFound(s: Sys, base: seq<Entry>, name: string, ls: seq<Line>) returns (n: nat, ds: seq<Domain>)
    requires Accounted(s, base) && Allocated(s) && Services(base) && Once(Uips(s.flat))
    requires Fits(s, Load(name, Lines(ls)))
    ensures Stops(ls, n) && Listed(ls, n, s.nextId, ds)
    ensures var r := InitGroup(s, name, Lines(ls)).0;
      && r.groups == [Group(name, ds)] + Others(s.groups, name)
      && forall i, j :: 0 <= i < n && 0 <= j < |ls[i].ips| && j < MAX_IP_DOMAIN ==>
           Lookup(r.flat, ls[i].ips[j]) == Some(Entry(ls[i].ips[j], Storage(ds[n - 1 - i].id)))
  {
    hide Accounted, Allocated, InitGroup, Settled, Services, Once, Fits, Others, Lookup, AllEntries;
    var r := InitGroup(s, name, Lines(ls)).0;
    n, ds := LoadBecomesGroup(s, name, ls);
    OnceSettles(s, base, name);
    InitGroupKeeps(s, base, name, Lines(ls));
    FitsKeeps(s, Load(name, Lines(ls)));
    AllEntriesFirst(Group(name, ds), Others(s.groups, name));
    forall i, j | 0 <= i < n && 0 <= j < |ls[i].ips| && j < MAX_IP_DOMAIN
      ensures Lookup(r.flat, ls[i].ips[j]) == Some(Entry(ls[i].ips[j], Storage(ds[n - 1 - i].id)))
    {
      InDomains(ds, n - 1 - i, j);
      LookupAgrees(r, base, Entry(ls[i].ips[j], Storage(ds[n - 1 - i].id)));
    }
  }

  lemma SameCounts(us: seq<nat>, vs: seq<nat>)
    requires multiset(us) == multiset(vs) && Once(vs)
    ensures Once(us)
  {
    forall u
      ensures multiset(us)[u] <= 1
    {
      assert multiset(us)[u] == multiset(vs)[u];
    }
  }

  ghost predicate FittingRun(s: Sys, loads: seq<Load>)
    decreases |loads|
  {
    loads == [] ||
    (Fits(s, loads[0]) && FittingRun(InitGroup(s, loads[0].name, loads[0].config).0, loads[1..]))
  }

  /**
   * Over any run of loads and reloads whose addresses never clash, every address looks up to
   * exactly what the current configuration says, and no registration points at a freed domain.
   */
  lemma {:induction false} DistinctRun(s: Sys, base: seq<Entry>, loads: seq<Load>)
    requires Accounted(s, base) && Allocated(s) && Services(base) && Once(Uips(s.flat))
    requires FittingRun(s, loads)
    ensures SettledRun(s, loads) && NoDangling(After(s, loads))
    ensures Accounted(After(s, loads), base) && Once(Uips(After(s, loads).flat))
    decreases |loads|
  {
    hide Accounted, Allocated, InitGroup, Settled, NoDangling, Services, Once, Fits;
    if loads == [] {
      AccountedIsSafe(s, base);
    } else {
      var l := loads[0];
      OnceSettles(s, base, l.name);
      InitGroupKeeps(s, base, l.name, l.config);
      FitsKeeps(s, l);
      DistinctRun(InitGroup(s, l.name, l.config).0, base, loads[1..]);
    }
  }

  /**
   * An address moved from one group to another: reloading the new group first leaves, after the
   * reload of the old one, a registration that points at the old group's freed domain.
   */
  lemma MovedAddressDangles(a: string, b: string, u: nat, v: nat)
    requires a != b && u != v
    ensures
      var s0 := Sys([Entry(u, Storage(0))], [Group(a, [Domain(0, [u])])], 1);
      var s1 := InitGroup(s0, b, Lines([Line([u])])).0;
      var s2 := InitGroup(s1, a, Lines([Line([v])])).0;
      && Accounted(s1, []) && !Settled(s1, a)
      && Entry(u, Storage(0)) in s2.flat && 0 !in Ids(s2.groups) && !NoDangling(s2)
      && Lookup(s2.flat, u) == Some(Entry(u, Storage(0)))
  {
    MovedIn(a, b, u);
    MovedOut(a, b, u, v);
  }

  /** The registry after the group that takes the address over has been reloaded. */
  function Taken(a: string, b: string, u: nat): Sys {
    Sys([Entry(u, Storage(1)), Entry(u, Storage(0))], [Group(b, [Domain(1, [u])]), Group(a, [Domain(0, [u])])], 2)
  }

  lemma MovedIn(a: string, b: string, u: nat)
    requires a != b
    ensures InitGroup(Sys([Entry(u, Storage(0))], [Group(a, [Domain(0, [u])])], 1), b, Lines([Line([u])])).0
         == Taken(a, b, u)
  {
    hide InitGroup;
    var ga := Group(a, [Domain(0, [u])]);
    var s := Sys([Entry(u, Storage(0))], [ga], 1);
    Alone(ga, b);
    assert Destroy(s, b) == s;
    OneLoad(s, b, u);
  }

  lemma TakenAccounted(a: string, b: string, u: nat)
    requires a != b
    ensures Accounted(Taken(a, b, u), []) && !Settled(Taken(a, b, u), a)
    ensures Destroy(Taken(a, b, u), a) == Sys([Entry(u, Storage(0))], [Group(b, [Domain(1, [u])])], 2)
  {
    hide RemoveAll;
    var e0, e1 := Entry(u, Storage(0)), Entry(u, Storage(1));
    var ga, gb := Group(a, [Domain(0, [u])]), Group(b, [Domain(1, [u])]);
    Beside(gb, ga, e1, e0);
    Newest(e1, e0);
    assert Doomed(Taken(a, b, u), a) == [e0];
    assert u == Uips([e0])[0];
    assert multiset(Uips([e0])) == multiset{u};
    assert [e1, e0][1..] == [e0];
    assert Of([e1, e0], u)[0] == e1;
    Singles(ga, e0);
    assert !SettledAt(Taken(a, b, u), a, u);
  }

  lemma MovedOut(a: string, b: string, u: nat, v: nat)
    requires a != b && u != v
    ensures
      var s2 := InitGroup(Taken(a, b, u), a, Lines([Line([v])])).0;
      && Accounted(Taken(a, b, u), []) && !Settled(Taken(a, b, u), a)
      && Entry(u, Storage(0)) in s2.flat && 0 !in Ids(s2.groups) && !NoDangling(s2)
      && Lookup(s2.flat, u) == Some(Entry(u, Storage(0)))
  {
    hide InitGroup, Destroy, Accounted, Settled, Taken;
    TakenAccounted(a, b, u);
    OneLoad(Taken(a, b, u), a, v);
    var e0 := Entry(u, Storage(0));
    var gb, gc := Group(b, [Domain(1, [u])]), Group(a, [Domain(2, [v])]);
    var s2 := InitGroup(Taken(a, b, u), a, Lines([Line([v])])).0;
    assert s2 == Sys([Entry(v, Storage(2))] + [e0], [gc] + [gb], 3);
    Singles(gb, Entry(u, Storage(1)));
    Singles(gc, Entry(v, Storage(2)));
    AllEntriesFirst(gc, [gb]);
    assert s2.flat[1..] == [e0] && s2.flat[1] == e0;
    assert Lookup([e0], u) == Some(e0);
  }

  lemma Alone(g: Group, name: string)
    requires g.name != name
    ensures Named([g], name) == [] && Others([g], name) == [g]
    ensures forall s :: RemoveAll(s, Uips(AllEntries([]))) == s
  {
    assert Uips(AllEntries([])) == [];
  }

  lemma Newest(e: Entry, f: Entry)
    requires e.uip == f.uip
    ensures RemoveAll([e, f], [e.uip]) == [f] && Uips([f]) == [f.uip]
  {
    assert [e, f][1..] == [f];
    assert RemoveAll([f], []) == [f];
  }

  /** Two groups of one address each, the second about to be destroyed. */
  lemma Beside(g: Group, h: Group, e: Entry, f: Entry)
    requires g.name != h.name
    requires |g.domains| == 1 && EntriesOf(g.domains[0]) == [e]
    requires |h.domains| == 1 && EntriesOf(h.domains[0]) == [f]
    ensures Named([g, h], h.name) == [h] && Others([g, h], h.name) == [g]
    ensures AllEntries([g, h]) == [e, f] && AllEntries([h]) == [f]
  {
    Singles(g, e);
    Singles(h, f);
    assert [g, h] == [g] + [h];
    AllEntriesFirst(g, [h]);
    assert [g, h][1..] == [h];
    Itself(h);
  }

  lemma Itself(h: Group)
    ensures Named([h], h.name) == [h] && Others([h], h.name) == []
  {
    assert [h][1..] == [];
    assert Named([], h.name) == [] && Others([], h.name) == [];
  }

  lemma Singles(g: Group, e: Entry)
    requires |g.domains| == 1 && EntriesOf(g.domains[0]) == [e]
    ensures AllEntries([g]) == [e] && Ids([g]) == multiset{g.domains[0].id}
  {
    assert EntriesIn(g.domains) == [e];
    assert IdsIn(g.domains) == multiset{g.domains[0].id};
  }

  lemma OneLoad(s: Sys, name: string, u: nat)
    ensures
      var t := Destroy(s, name);
      InitGroup(s, name, Lines([Line([u])])).0 ==
      Sys([Entry(u, Storage(t.nextId))] + t.flat, [Group(name, [Domain(t.nextId, [u])])] + t.groups, t.nextId + 1)
  {
    hide Destroy;
    var t := Opened(Destroy(s, name), name);
    var ls := [Line([u])];
    assert ls[1..] == [];
    assert AddLines(AddDomain(t, [u]), []).0 == AddDomain(t, [u]);
    assert Push(t.flat, t.nextId, [u]) == [Entry(u, Storage(t.nextId))] + t.flat;
    assert t.groups[1..] == Destroy(s, name).groups;
    assert [Domain(t.nextId, [u])] + [] == [Domain(t.nextId, [u])];
  }
}
