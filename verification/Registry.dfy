/**
 * The registry of known addresses: what group loads and reloads do to it, on one list of
 * registrations, newest first.
 */
module Registry {
  import opened Common

  const MAX_IP_DOMAIN: nat := 64

  /** What an address is registered for; a storage address points at its domain. */
  datatype Owner = PossMaster | NameServer | Storage(id: nat)

  datatype Entry = Entry(uip: nat, owner: Owner)

  /** `id` stands for the address of the allocated domain. */
  datatype Domain = Domain(id: nat, ips: seq<nat>)

  datatype Group = Group(name: string, domains: seq<Domain>)

  // Registrations

  /** The newest registration of an address. */
  function Lookup(flat: seq<Entry>, u: nat): Option<Entry> {
    if flat == [] then None else if flat[0].uip == u then Some(flat[0]) else Lookup(flat[1..], u)
  }

  /** Drop the newest registration of an address, if there is one. */
  function Remove(flat: seq<Entry>, u: nat): seq<Entry> {
    if flat == [] then [] else if flat[0].uip == u then flat[1..] else [flat[0]] + Remove(flat[1..], u)
  }

  function RemoveAll(flat: seq<Entry>, us: seq<nat>): seq<Entry>
    decreases |us|
  {
    if us == [] then flat else RemoveAll(Remove(flat, us[0]), us[1..])
  }

  /** Register the addresses of a domain one after the other. */
  function Push(flat: seq<Entry>, id: nat, ips: seq<nat>): seq<Entry>
    decreases |ips|
  {
    if ips == [] then flat else Push([Entry(ips[0], Storage(id))] + flat, id, ips[1..])
  }

  /** Removing an address takes out what looking it up finds, and nothing else. */
  lemma {:induction false} RemoveCounts(flat: seq<Entry>, u: nat)
    ensures Lookup(flat, u).None? ==> Remove(flat, u) == flat
    ensures Lookup(flat, u).Some? ==>
      var e := Lookup(flat, u).value;
      e.uip == u && multiset(flat) == multiset(Remove(flat, u)) + multiset{e}
    decreases |flat|
  {
    if flat != [] && flat[0].uip != u {
      assert flat == [flat[0]] + flat[1..];
      RemoveCounts(flat[1..], u);
    } else if flat != [] {
      assert flat == [flat[0]] + flat[1..];
    }
  }

  function Uips(es: seq<Entry>): seq<nat> {
    seq(|es|, i requires 0 <= i < |es| => es[i].uip)
  }

  /** The registrations of one address, newest first. */
  function Of(flat: seq<Entry>, u: nat): seq<Entry> {
    if flat == [] then [] else (if flat[0].uip == u then [flat[0]] else []) + Of(flat[1..], u)
  }

  lemma {:induction false} OfCounts(flat: seq<Entry>, u: nat, e: Entry)
    ensures multiset(Of(flat, u))[e] == if e.uip == u then multiset(flat)[e] else 0
    decreases |flat|
  {
    if flat != [] {
      OfCounts(flat[1..], u, e);
      assert flat == [flat[0]] + flat[1..];
    }
  }

  lemma {:induction false} OfLength(es: seq<Entry>, u: nat)
    ensures |Of(es, u)| == multiset(Uips(es))[u]
    decreases |es|
  {
    if es != [] {
      OfLength(es[1..], u);
      assert Uips(es) == [es[0].uip] + Uips(es[1..]);
    }
  }

  function Drop(s: seq<Entry>, m: nat): seq<Entry> {
    if m <= |s| then s[m..] else []
  }

  lemma {:induction false} RemoveOf(flat: seq<Entry>, u: nat, v: nat)
    ensures Of(Remove(flat, u), v) == if u == v then Drop(Of(flat, v), 1) else Of(flat, v)
    decreases |flat|
  {
    if flat != [] {
      if flat[0].uip != u {
        RemoveOf(flat[1..], u, v);
        assert ([flat[0]] + Remove(flat[1..], u))[1..] == Remove(flat[1..], u);
      } else {
        assert u == v ==> ([flat[0]] + Of(flat[1..], v))[1..] == Of(flat[1..], v);
        assert u != v ==> [] + Of(flat[1..], v) == Of(flat[1..], v);
      }
    }
  }

  /** Removing a list of addresses takes the newest registrations of each, one for each mention. */
  lemma {:induction false} RemoveAllOf(flat: seq<Entry>, us: seq<nat>, v: nat)
    ensures Of(RemoveAll(flat, us), v) == Drop(Of(flat, v), multiset(us)[v])
    decreases |us|
  {
    hide Of, Remove;
    if us != [] {
      assert us == [us[0]] + us[1..];
      RemoveOf(flat, us[0], v);
      RemoveAllOf(Remove(flat, us[0]), us[1..], v);
      DropMore(Of(flat, v), multiset(us[1..])[v]);
    }
  }

  lemma DropMore(s: seq<Entry>, m: nat)
    ensures Drop(Drop(s, 1), m) == Drop(s, m + 1)
  {
  }

  lemma {:induction false} PushCounts(flat: seq<Entry>, id: nat, ips: seq<nat>)
    ensures multiset(Push(flat, id, ips)) == multiset(flat) + multiset(EntriesOf(Domain(id, ips)))
    decreases |ips|
  {
    if ips == [] {
      assert EntriesOf(Domain(id, ips)) == [];
    } else {
      var e := Entry(ips[0], Storage(id));
      PushCounts([e] + flat, id, ips[1..]);
      assert EntriesOf(Domain(id, ips)) == [e] + EntriesOf(Domain(id, ips[1..]));
    }
  }

  // Groups

  function EntriesOf(d: Domain): seq<Entry> {
    seq(|d.ips|, i requires 0 <= i < |d.ips| => Entry(d.ips[i], Storage(d.id)))
  }

  function EntriesIn(ds: seq<Domain>): seq<Entry> {
    if ds == [] then [] else EntriesOf(ds[0]) + EntriesIn(ds[1..])
  }

  /** The registrations of every configured storage address. */
  function AllEntries(gs: seq<Group>): seq<Entry> {
    if gs == [] then [] else EntriesIn(gs[0].domains) + AllEntries(gs[1..])
  }

  function Others(gs: seq<Group>, name: string): seq<Group> {
    if gs == [] then []
    else if gs[0].name == name then Others(gs[1..], name)
    else [gs[0]] + Others(gs[1..], name)
  }

  /** The groups that a reload of `name` destroys. */
  function Named(gs: seq<Group>, name: string): seq<Group> {
    if gs == [] then []
    else if gs[0].name == name then [gs[0]] + Named(gs[1..], name)
    else Named(gs[1..], name)
  }

  function IdsIn(ds: seq<Domain>): multiset<nat> {
    if ds == [] then multiset{} else multiset{ds[0].id} + IdsIn(ds[1..])
  }

  /** The domains that are allocated: those some group lists. */
  function Ids(gs: seq<Group>): multiset<nat> {
    if gs == [] then multiset{} else IdsIn(gs[0].domains) + Ids(gs[1..])
  }

  lemma {:induction false} SplitByName(gs: seq<Group>, name: string)
    ensures multiset(AllEntries(gs)) == multiset(AllEntries(Others(gs, name))) + multiset(AllEntries(Named(gs, name)))
    ensures Ids(gs) == Ids(Others(gs, name)) + Ids(Named(gs, name))
  {
    hide EntriesIn, IdsIn;
    if gs != [] {
      SplitByName(gs[1..], name);
      if gs[0].name == name {
        AllEntriesFirst(gs[0], Named(gs[1..], name));
      } else {
        AllEntriesFirst(gs[0], Others(gs[1..], name));
      }
    }
  }

  /** Groups of other names are kept as often as they were, those of this name are not. */
  lemma {:induction false} OthersExactly(gs: seq<Group>, name: string, g: Group)
    ensures multiset(Others(gs, name))[g] == if g.name == name then 0 else multiset(gs)[g]
    ensures multiset(Named(gs, name))[g] == if g.name == name then multiset(gs)[g] else 0
    decreases |gs|
  {
    if gs != [] {
      OthersExactly(gs[1..], name, g);
      assert multiset(gs) == multiset{gs[0]} + multiset(gs[1..]) by {
        assert gs == [gs[0]] + gs[1..];
      }
      if gs[0].name == name {
        assert Others(gs, name) == Others(gs[1..], name) && Named(gs, name) == [gs[0]] + Named(gs[1..], name);
      } else {
        assert Others(gs, name) == [gs[0]] + Others(gs[1..], name) && Named(gs, name) == Named(gs[1..], name);
      }
    }
  }

  lemma AllEntriesFirst(g: Group, gs: seq<Group>)
    ensures AllEntries([g] + gs) == EntriesIn(g.domains) + AllEntries(gs)
    ensures Ids([g] + gs) == IdsIn(g.domains) + Ids(gs)
  {
    assert ([g] + gs)[1..] == gs;
  }

  /** A configured registration points at an allocated domain. */
  lemma {:induction false} EntryAlive(gs: seq<Group>, e: Entry)
    requires e in AllEntries(gs)
    ensures e.owner.Storage? && e.owner.id in Ids(gs)
  {
    if e in EntriesIn(gs[0].domains) {
      EntryInDomains(gs[0].domains, e);
    } else {
      EntryAlive(gs[1..], e);
    }
  }

  lemma {:induction false} EntryInDomains(ds: seq<Domain>, e: Entry)
    requires e in EntriesIn(ds)
    ensures e.owner.Storage? && e.owner.id in IdsIn(ds)
  {
    if e !in EntriesOf(ds[0]) {
      EntryInDomains(ds[1..], e);
    }
  }

  // The registry as a whole

  datatype Sys = Sys(flat: seq<Entry>, groups: seq<Group>, nextId: nat)

  /** The registrations are those of the services and those of the configured domains, once each. */
  predicate Accounted(s: Sys, base: seq<Entry>) {
    multiset(s.flat) == multiset(base) + multiset(AllEntries(s.groups))
  }

  predicate Services(base: seq<Entry>) {
    forall e :: e in base ==> !e.owner.Storage?
  }

  /** Every allocation has its own address, and later ones get later numbers. */
  ghost predicate Allocated(s: Sys) {
    && (forall x {:trigger Ids(s.groups)[x]} :: Ids(s.groups)[x] <= 1)
    && (forall x {:trigger Ids(s.groups)[x]} :: x in Ids(s.groups) ==> x < s.nextId)
  }

  /** No registration points at a freed domain. */
  predicate NoDangling(s: Sys) {
    forall e :: e in s.flat ==> e.owner.Storage? ==> e.owner.id in Ids(s.groups)
  }

  function Doomed(s: Sys, name: string): seq<Entry> {
    AllEntries(Named(s.groups, name))
  }

  /** `destroy_old_group`. */
  function Destroy(s: Sys, name: string): Sys {
    s.(flat := RemoveAll(s.flat, Uips(Doomed(s, name))), groups := Others(s.groups, name))
  }

  lemma AccountedIsSafe(s: Sys, base: seq<Entry>)
    requires Accounted(s, base) && Services(base)
    ensures NoDangling(s)
  {
    forall e | e in s.flat && e.owner.Storage?
      ensures e.owner.id in Ids(s.groups)
    {
      assert e in multiset(s.flat);
      assert e !in base;
      EntryAlive(s.groups, e);
    }
  }

  /** The registration is one of a group that a reload of `name` destroys. */
  predicate Mine(s: Sys, name: string, e: Entry) {
    e.owner.Storage? && e.owner.id in Ids(Named(s.groups, name))
  }

  /** How many registrations of an address the reload removes. */
  function Mentions(s: Sys, name: string, u: nat): nat {
    multiset(Uips(Doomed(s, name)))[u]
  }

  predicate SettledAt(s: Sys, name: string, u: nat) {
    forall i :: 0 <= i < Mentions(s, name, u) && i < |Of(s.flat, u)| ==> Mine(s, name, Of(s.flat, u)[i])
  }

  /** Of each address of the old group, the newest registrations, as many as it lists, are its own. */
  predicate Settled(s: Sys, name: string) {
    forall u :: u in Uips(Doomed(s, name)) ==> SettledAt(s, name, u)
  }

  /** What stays: the services and the other groups. */
  function Staying(s: Sys, base: seq<Entry>, name: string): seq<Entry> {
    base + AllEntries(Others(s.groups, name))
  }

  lemma SubsetSame(p: multiset<Entry>, b: multiset<Entry>)
    requires p <= b && |p| == |b|
    ensures p == b
  {
    assert b == p + (b - p);
  }

  /** Of `p` and `r` together and `a` and `b` together, one part is all of one kind if the other has none of it. */
  lemma Balance(s: Sys, name: string, p: multiset<Entry>, r: multiset<Entry>, a: multiset<Entry>, b: multiset<Entry>)
    requires p + r == a + b && |p| == |b|
    requires forall e :: e in a ==> !Mine(s, name, e)
    requires forall e :: e in b ==> Mine(s, name, e)
    ensures (forall e :: e in p ==> Mine(s, name, e)) <==> p == b
    ensures (forall e :: e in r ==> !Mine(s, name, e)) <==> p == b
    ensures p == b ==> r == a
  {
    hide Mine;
    forall e
      ensures p[e] + r[e] == a[e] + b[e]
    {
      assert (p + r)[e] == (a + b)[e];
    }
    if forall e :: e in p ==> Mine(s, name, e) {
      assert forall e :: p[e] <= b[e];
      SubsetSame(p, b);
    }
    if forall e :: e in r ==> !Mine(s, name, e) {
      assert forall e :: b[e] <= p[e];
      SubsetSame(b, p);
    }
    if p == b {
      Cancel(r, a, b);
    }
  }

  lemma Kinds(s: Sys, base: seq<Entry>, name: string)
    requires Accounted(s, base) && Services(base) && Allocated(s)
    ensures multiset(s.flat) == multiset(Staying(s, base, name)) + multiset(Doomed(s, name))
    ensures forall e :: e in Staying(s, base, name) ==> !Mine(s, name, e)
    ensures forall e :: e in Doomed(s, name) ==> Mine(s, name, e)
  {
    hide Named, Others, Ids, AllEntries;
    SplitByName(s.groups, name);
    var a, b, c := Ids(s.groups), Ids(Others(s.groups, name)), Ids(Named(s.groups, name));
    forall e | e in Staying(s, base, name)
      ensures !Mine(s, name, e)
    {
      if e !in base {
        EntryAlive(Others(s.groups, name), e);
        assert a[e.owner.id] == b[e.owner.id] + c[e.owner.id];
      }
    }
    forall e | e in Doomed(s, name)
      ensures Mine(s, name, e)
    {
      EntryAlive(Named(s.groups, name), e);
    }
  }

  /** The registrations of one address: what is removed, what is left, what stays and what is doomed. */
  lemma Parts(s: Sys, base: seq<Entry>, name: string, u: nat)
    requires multiset(s.flat) == multiset(Staying(s, base, name)) + multiset(Doomed(s, name))
    ensures var all := Of(s.flat, u); var m := Mentions(s, name, u);
      && m <= |all| && |multiset(Of(Doomed(s, name), u))| == m == |multiset(all[..m])|
      && multiset(all[..m]) + multiset(all[m..])
         == multiset(Of(Staying(s, base, name), u)) + multiset(Of(Doomed(s, name), u))
      && Of(Destroy(s, name).flat, u) == all[m..]
  {
    hide Doomed, Staying, Of, Uips, RemoveAll;
    var all, x, d := Of(s.flat, u), Of(Staying(s, base, name), u), Of(Doomed(s, name), u);
    OfLength(Doomed(s, name), u);
    forall e
      ensures multiset(all)[e] == (multiset(x) + multiset(d))[e]
    {
      OfCounts(s.flat, u, e);
      OfCounts(Staying(s, base, name), u, e);
      OfCounts(Doomed(s, name), u, e);
    }
    assert multiset(all) == multiset(x) + multiset(d);
    assert |multiset(all)| == |all| && |multiset(d)| == |d|;
    var m := Mentions(s, name, u);
    assert all == all[..m] + all[m..];
    RemoveAllOf(s.flat, Uips(Doomed(s, name)), u);
  }

  /** At one address: settled, exactly the doomed registrations removed, and none of the group's left, are the same. */
  lemma AtAddress(s: Sys, base: seq<Entry>, name: string, u: nat)
    requires Accounted(s, base) && Services(base) && Allocated(s)
    ensures SettledAt(s, name, u) <==> forall e :: e in Of(Destroy(s, name).flat, u) ==> !Mine(s, name, e)
    ensures SettledAt(s, name, u) ==>
      multiset(Of(Destroy(s, name).flat, u)) == multiset(Of(Staying(s, base, name), u))
  {
    hide Accounted, Allocated, Doomed, Staying, Destroy, Mine, Of, Mentions;
    Kinds(s, base, name);
    Parts(s, base, name, u);
    var all, m := Of(s.flat, u), Mentions(s, name, u);
    var x, d := Of(Staying(s, base, name), u), Of(Doomed(s, name), u);
    forall e
      ensures (e in multiset(x) ==> e in Staying(s, base, name)) && (e in multiset(d) ==> e in Doomed(s, name))
    {
      OfCounts(Staying(s, base, name), u, e);
      OfCounts(Doomed(s, name), u, e);
    }
    Balance(s, name, multiset(all[..m]), multiset(all[m..]), multiset(x), multiset(d));
    Pointwise(s, name, all[..m]);
    Pointwise(s, name, all[m..]);
    assert SettledAt(s, name, u) <==> forall i :: 0 <= i < m ==> Mine(s, name, all[..m][i]);
  }

  lemma Pointwise(s: Sys, name: string, es: seq<Entry>)
    ensures (forall i :: 0 <= i < |es| ==> Mine(s, name, es[i])) <==> forall e :: e in multiset(es) ==> Mine(s, name, e)
    ensures (forall e :: e in es ==> !Mine(s, name, e)) <==> forall e :: e in multiset(es) ==> !Mine(s, name, e)
  {
    hide Mine;
    if forall e :: e in multiset(es) ==> Mine(s, name, e) {
      forall i | 0 <= i < |es|
        ensures Mine(s, name, es[i])
      {
        assert es[i] in multiset(es);
      }
    }
  }

  /** Destroying a settled group removes exactly its registrations. */
  lemma DestroyKeeps(s: Sys, base: seq<Entry>, name: string)
    requires Accounted(s, base) && Services(base) && Allocated(s) && Settled(s, name)
    ensures Accounted(Destroy(s, name), base) && Allocated(Destroy(s, name))
    ensures multiset(s.flat) == multiset(Destroy(s, name).flat) + multiset(Doomed(s, name))
  {
    hide Named, Others, Ids, AllEntries, RemoveAll, Of, Accounted, Uips, SettledAt;
    var t := Destroy(s, name);
    Kinds(s, base, name);
    forall e
      ensures multiset(t.flat)[e] == multiset(Staying(s, base, name))[e]
    {
      if e.uip !in Uips(Doomed(s, name)) {
        Unmentioned(s, name, e.uip);
      }
      AtAddress(s, base, name, e.uip);
      OfCounts(t.flat, e.uip, e);
      OfCounts(Staying(s, base, name), e.uip, e);
    }
    assert multiset(t.flat) == multiset(Staying(s, base, name));
    assert Accounted(t, base) by {
      AccountedFrom(t, base);
    }
    DestroyAllocated(s, name);
  }

  lemma AccountedFrom(t: Sys, base: seq<Entry>)
    requires multiset(t.flat) == multiset(base + AllEntries(t.groups))
    ensures Accounted(t, base)
  {
  }

  lemma Unmentioned(s: Sys, name: string, u: nat)
    requires u !in Uips(Doomed(s, name))
    ensures SettledAt(s, name, u)
  {
    assert u !in multiset(Uips(Doomed(s, name)));
  }

  lemma Cancel<T(!new)>(a: multiset<T>, b: multiset<T>, c: multiset<T>)
    requires a + c == b + c
    ensures a == b
  {
    forall x
      ensures a[x] == b[x]
    {
      assert (a + c)[x] == (b + c)[x];
    }
  }

  lemma DestroyAllocated(s: Sys, name: string)
    requires Allocated(s)
    ensures Allocated(Destroy(s, name))
  {
    hide RemoveAll, Named, Others, Ids, AllEntries;
    SplitByName(s.groups, name);
    var a, b, c := Ids(s.groups), Ids(Others(s.groups, name)), Ids(Named(s.groups, name));
    forall x
      ensures b[x] <= 1 && (x in b ==> x < s.nextId)
    {
      assert a[x] == b[x] + c[x];
    }
  }

  /**
   * A reload that destroys a group leaves no dangling registration if and only if the newest
   * registrations of each address of the old group, as many as the group lists it, are the group's own.
   */
  lemma DestroyExactly(s: Sys, base: seq<Entry>, name: string)
    requires Accounted(s, base) && Services(base) && Allocated(s)
    ensures NoDangling(Destroy(s, name)) <==> Settled(s, name)
  {
    hide RemoveAll, Named, Others, Ids, AllEntries, Accounted, Allocated, SettledAt, Mine;
    if Settled(s, name) {
      DestroyKeeps(s, base, name);
      AccountedIsSafe(Destroy(s, name), base);
    } else {
      var e := Unsettled(s, base, name);
      assert Stale(Destroy(s, name), e);
    }
  }

  // Loading

  /** A line of the group's file: malformed, or the addresses of one domain. */
  datatype Line = Malformed | Line(ips: seq<nat>)

  datatype Config = Missing | Unreadable | Lines(lines: seq<Line>)

  function Kept(ips: seq<nat>): seq<nat> {
    if |ips| <= MAX_IP_DOMAIN then ips else ips[..MAX_IP_DOMAIN]
  }

  /** A new domain at the front of the group being loaded, with as many addresses as fit. */
  function AddDomain(s: Sys, ips: seq<nat>): Sys
    requires s.groups != []
  {
    var g := s.groups[0];
    Sys(Push(s.flat, s.nextId, Kept(ips)),
        [g.(domains := [Domain(s.nextId, Kept(ips))] + g.domains)] + s.groups[1..], s.nextId + 1)
  }

  /** Lines are loaded up to the first that is malformed or has too many addresses. */
  function AddLines(s: Sys, ls: seq<Line>): (Sys, bool)
    requires s.groups != []
    decreases |ls|
  {
    if ls == [] then (s, true)
    else if ls[0].Malformed? then (s, false)
    else
      var t := AddDomain(s, ls[0].ips);
      if |ls[0].ips| > MAX_IP_DOMAIN then (t, false) else AddLines(t, ls[1..])
  }

  function Opened(s: Sys, name: string): Sys {
    s.(groups := [Group(name, [])] + s.groups)
  }

  /** `init_group`. */
  function InitGroup(s: Sys, name: string, c: Config): (Sys, bool) {
    var t := Destroy(s, name);
    match c
    case Missing => (t, false)
    case Unreadable => (Opened(t, name), false)
    case Lines(ls) => AddLines(Opened(t, name), ls)
  }

  lemma OpenedKeeps(s: Sys, base: seq<Entry>, name: string)
    requires Accounted(s, base) && Allocated(s)
    ensures Accounted(Opened(s, name), base) && Allocated(Opened(s, name))
  {
    hide Ids, AllEntries;
    AllEntriesFirst(Group(name, []), s.groups);
    assert EntriesIn([]) == [] && [] + AllEntries(s.groups) == AllEntries(s.groups);
  }

  lemma AddDomainKeeps(s: Sys, base: seq<Entry>, ips: seq<nat>)
    requires s.groups != [] && Accounted(s, base) && Allocated(s)
    ensures Accounted(AddDomain(s, ips), base) && Allocated(AddDomain(s, ips))
  {
    hide Ids, AllEntries, Push, EntriesOf, EntriesIn, IdsIn, Kept;
    var g, d := s.groups[0], Domain(s.nextId, Kept(ips));
    var h := g.(domains := [d] + g.domains);
    PushCounts(s.flat, s.nextId, Kept(ips));
    assert s.groups == [g] + s.groups[1..];
    AllEntriesFirst(g, s.groups[1..]);
    AllEntriesFirst(h, s.groups[1..]);
    DomainFirst(d, g.domains);
    assert Ids(AddDomain(s, ips).groups) == multiset{s.nextId} + Ids(s.groups);
    NewId(Ids(s.groups), s.nextId);
  }

  lemma NewId(a: multiset<nat>, n: nat)
    requires forall x {:trigger a[x]} :: a[x] <= 1 && (x in a ==> x < n)
    ensures forall x {:trigger (multiset{n} + a)[x]} :: (multiset{n} + a)[x] <= 1
    ensures forall x {:trigger (multiset{n} + a)[x]} :: x in multiset{n} + a ==> x < n + 1
  {
    assert n !in a;
  }

  lemma DomainFirst(d: Domain, ds: seq<Domain>)
    ensures EntriesIn([d] + ds) == EntriesOf(d) + EntriesIn(ds)
    ensures IdsIn([d] + ds) == multiset{d.id} + IdsIn(ds)
  {
    assert ([d] + ds)[1..] == ds;
  }

  lemma {:induction false} AddLinesKeep(s: Sys, base: seq<Entry>, ls: seq<Line>)
    requires s.groups != [] && Accounted(s, base) && Allocated(s)
    ensures Accounted(AddLines(s, ls).0, base) && Allocated(AddLines(s, ls).0)
    decreases |ls|
  {
    hide Accounted, Allocated;
    if ls != [] && !ls[0].Malformed? {
      AddDomainKeeps(s, base, ls[0].ips);
      AddLinesKeep(AddDomain(s, ls[0].ips), base, ls[1..]);
    }
  }

  /** The lines before the first that is malformed, up to and with the first that is too long. */
  ghost predicate Stops(ls: seq<Line>, n: nat) {
    && n <= |ls|
    && (forall i :: 0 <= i < n ==> ls[i].Line?)
    && (forall i :: 0 <= i < n - 1 ==> |ls[i].ips| <= MAX_IP_DOMAIN)
    && (n < |ls| && !ls[n].Malformed? ==> n > 0 && |ls[n - 1].ips| > MAX_IP_DOMAIN)
  }

  /** The domains made of `n` lines: the last line first, each with its first addresses. */
  ghost predicate Listed(ls: seq<Line>, n: nat, id: nat, ds: seq<Domain>)
    requires n <= |ls| && forall i :: 0 <= i < n ==> ls[i].Line?
  {
    && |ds| == n
    && forall i :: 0 <= i < n ==>
         var ips := ls[i].ips;
         ds[n - 1 - i] == Domain(id + i, if |ips| <= 64 then ips else ips[..64])
  }

  /** No line is malformed or too long. */
  ghost predicate Short(ls: seq<Line>) {
    forall i :: 0 <= i < |ls| ==> ls[i].Line? && |ls[i].ips| <= MAX_IP_DOMAIN
  }

  /** What a file's lines turn into: one domain for each line read, in front of those already there;
      all lines are read if and only if none is malformed or too long. */
  lemma {:induction false} LinesBecomeDomains(s: Sys, ls: seq<Line>) returns (n: nat, ds: seq<Domain>)
    requires s.groups != []
    ensures Stops(ls, n) && Listed(ls, n, s.nextId, ds)
    ensures var (r, ok) := AddLines(s, ls); var g := s.groups[0];
      && r.groups == [Group(g.name, ds + g.domains)] + s.groups[1..] && r.nextId == s.nextId + n
      && (ok <==> Short(ls)) && (ok ==> n == |ls|)
    decreases |ls|
  {
    hide Push, Stops, Listed;
    var g := s.groups[0];
    if ls == [] || ls[0].Malformed? {
      n, ds := 0, [];
      assert [] + g.domains == g.domains && [g] + s.groups[1..] == s.groups;
      NoLine(ls, s.nextId);
    } else {
      var t := AddDomain(s, ls[0].ips);
      var d := t.groups[0].domains[0];
      if |ls[0].ips| > MAX_IP_DOMAIN {
        n, ds := 1, [d];
        OneLine(ls, s.nextId, d);
      } else {
        var m, later := LinesBecomeDomains(t, ls[1..]);
        n, ds := m + 1, later + [d];
        assert later + ([d] + g.domains) == ds + g.domains;
        LaterLines(ls, m, s.nextId, later, d);
        AllShort(ls);
      }
    }
  }

  lemma NoLine(ls: seq<Line>, id: nat)
    requires ls == [] || ls[0].Malformed?
    ensures Stops(ls, 0) && Listed(ls, 0, id, [])
  {
  }

  lemma OneLine(ls: seq<Line>, id: nat, d: Domain)
    requires ls != [] && ls[0].Line? && |ls[0].ips| > MAX_IP_DOMAIN && d == Domain(id, ls[0].ips[..MAX_IP_DOMAIN])
    ensures Stops(ls, 1) && Listed(ls, 1, id, [d])
  {
  }

  lemma AllShort(ls: seq<Line>)
    requires ls != [] && ls[0].Line? && |ls[0].ips| <= MAX_IP_DOMAIN
    ensures Short(ls) <==> Short(ls[1..])
  {
    if Short(ls[1..]) {
      forall i | 0 <= i < |ls|
        ensures ls[i].Line? && |ls[i].ips| <= MAX_IP_DOMAIN
      {
        assert i > 0 ==> ls[i] == ls[1..][i - 1];
      }
    }
  }

  lemma LaterLines(ls: seq<Line>, m: nat, id: nat, later: seq<Domain>, d: Domain)
    requires ls != [] && ls[0].Line? && |ls[0].ips| <= MAX_IP_DOMAIN && d == Domain(id, ls[0].ips)
    requires Stops(ls[1..], m) && Listed(ls[1..], m, id + 1, later)
    ensures Stops(ls, m + 1) && Listed(ls, m + 1, id, later + [d])
  {
    forall i | 0 <= i < m + 1
      ensures ls[i].Line? && (i < m ==> |ls[i].ips| <= MAX_IP_DOMAIN)
    {
      assert i > 0 ==> ls[i] == ls[1..][i - 1];
    }
    assert m + 1 < |ls| ==> ls[m + 1] == ls[1..][m];
    assert m > 0 ==> ls[m] == ls[1..][m - 1];
    forall i | 0 < i < m + 1
      ensures ls[i] == ls[1..][i - 1] && (later + [d])[m - i] == later[m - 1 - (i - 1)]
    {
    }
  }

  /** `init_group` on a file's lines: the group stands first with the domains of its lines, and the
      groups of other names stay as they were. */
  lemma LoadBecomesGroup(s: Sys, name: string, ls: seq<Line>) returns (n: nat, ds: seq<Domain>)
    ensures Stops(ls, n) && Listed(ls, n, s.nextId, ds)
    ensures var (r, ok) := InitGroup(s, name, Lines(ls));
      && r.groups == [Group(name, ds)] + Others(s.groups, name) && r.nextId == s.nextId + n
      && (ok <==> Short(ls)) && (ok ==> n == |ls|)
  {
    hide AddLines, Stops, Listed, Others;
    var t := Opened(Destroy(s, name), name);
    n, ds := LinesBecomeDomains(t, ls);
    assert ds + [] == ds && t.groups[1..] == Others(s.groups, name);
  }

  /** Without a file name the group is gone; with a file that cannot be opened it is there, empty. */
  lemma LoadWithoutFile(s: Sys, name: string)
    ensures InitGroup(s, name, Missing) == (Destroy(s, name), false)
    ensures InitGroup(s, name, Unreadable).0.groups == [Group(name, [])] + Others(s.groups, name)
    ensures InitGroup(s, name, Unreadable).0.flat == Destroy(s, name).flat && !InitGroup(s, name, Unreadable).1
  {
  }

  lemma InitGroupKeeps(s: Sys, base: seq<Entry>, name: string, c: Config)
    requires Accounted(s, base) && Services(base) && Allocated(s) && Settled(s, name)
    ensures Accounted(InitGroup(s, name, c).0, base) && Allocated(InitGroup(s, name, c).0)
  {
    hide Accounted, Allocated, AddLines, Destroy, Settled;
    DestroyKeeps(s, base, name);
    var t := Destroy(s, name);
    OpenedKeeps(t, base, name);
    if c.Lines? {
      AddLinesKeep(Opened(t, name), base, c.lines);
    }
  }

  // Whole runs

  datatype Load = Load(name: string, config: Config)

  function After(s: Sys, loads: seq<Load>): Sys
    decreases |loads|
  {
    if loads == [] then s else After(InitGroup(s, loads[0].name, loads[0].config).0, loads[1..])
  }

  predicate SettledRun(s: Sys, loads: seq<Load>)
    decreases |loads|
  {
    loads == [] ||
    (Settled(s, loads[0].name) && SettledRun(InitGroup(s, loads[0].name, loads[0].config).0, loads[1..]))
  }

  /** A registration whose domain is gone, and whose number no later domain gets. */
  predicate Stale(s: Sys, e: Entry) {
    e in s.flat && e.owner.Storage? && e.owner.id !in Ids(s.groups) && e.owner.id < s.nextId
  }

  lemma {:induction false} PushStays(flat: seq<Entry>, id: nat, ips: seq<nat>, e: Entry)
    requires e in flat
    ensures e in Push(flat, id, ips)
    decreases |ips|
  {
    if ips != [] {
      PushStays([Entry(ips[0], Storage(id))] + flat, id, ips[1..], e);
    }
  }

  lemma AddDomainStale(s: Sys, ips: seq<nat>, e: Entry)
    requires s.groups != [] && Stale(s, e)
    ensures Stale(AddDomain(s, ips), e)
  {
    hide Ids, Push, IdsIn, Kept;
    var g, d := s.groups[0], Domain(s.nextId, Kept(ips));
    PushStays(s.flat, s.nextId, Kept(ips), e);
    assert s.groups == [g] + s.groups[1..];
    AllEntriesFirst(g, s.groups[1..]);
    AllEntriesFirst(g.(domains := [d] + g.domains), s.groups[1..]);
    DomainFirst(d, g.domains);
    assert Ids(AddDomain(s, ips).groups) == multiset{s.nextId} + Ids(s.groups);
  }

  lemma {:induction false} AddLinesStale(s: Sys, ls: seq<Line>, e: Entry)
    requires s.groups != [] && Stale(s, e)
    ensures Stale(AddLines(s, ls).0, e)
    decreases |ls|
  {
    hide Stale;
    if ls != [] && !ls[0].Malformed? {
      AddDomainStale(s, ls[0].ips, e);
      AddLinesStale(AddDomain(s, ls[0].ips), ls[1..], e);
    }
  }

  lemma OpenedStale(s: Sys, name: string, e: Entry)
    requires Stale(s, e)
    ensures Stale(Opened(s, name), e)
  {
    hide Ids;
    AllEntriesFirst(Group(name, []), s.groups);
  }

  /** A reload, whatever it loads, leaves nothing dangling if and only if the old group was settled. */
  lemma ReloadExactly(s: Sys, base: seq<Entry>, name: string, c: Config)
    requires Accounted(s, base) && Services(base) && Allocated(s)
    ensures NoDangling(InitGroup(s, name, c).0) <==> Settled(s, name)
  {
    hide Accounted, Allocated, AddLines, Destroy, Settled, SettledAt, Mine, Opened;
    if Settled(s, name) {
      InitGroupKeeps(s, base, name, c);
      AccountedIsSafe(InitGroup(s, name, c).0, base);
    } else {
      var e := Unsettled(s, base, name);
      var t := Destroy(s, name);
      OpenedStale(t, name, e);
      if c.Lines? {
        OpenedSome(t, name);
        AddLinesStale(Opened(t, name), c.lines, e);
      }
      assert Stale(InitGroup(s, name, c).0, e);
    }
  }

  lemma OpenedSome(s: Sys, name: string)
    ensures Opened(s, name).groups != []
  {
  }

  lemma Unsettled(s: Sys, base: seq<Entry>, name: string) returns (e: Entry)
    requires Accounted(s, base) && Services(base) && Allocated(s) && !Settled(s, name)
    ensures Stale(Destroy(s, name), e)
  {
    hide RemoveAll, Named, Others, Ids, AllEntries, Accounted, SettledAt, Of;
    var u :| u in Uips(Doomed(s, name)) && !SettledAt(s, name, u);
    AtAddress(s, base, name, u);
    e :| e in Of(Destroy(s, name).flat, u) && Mine(s, name, e);
    SplitByName(s.groups, name);
    var a, b, c := Ids(s.groups), Ids(Others(s.groups, name)), Ids(Named(s.groups, name));
    assert a[e.owner.id] == b[e.owner.id] + c[e.owner.id];
    OfCounts(Destroy(s, name).flat, u, e);
    assert e in multiset(Of(Destroy(s, name).flat, u));
    assert e in multiset(Destroy(s, name).flat);
  }

  /** Nothing dangles at any point of a run. */
  predicate SafeRun(s: Sys, loads: seq<Load>)
    decreases |loads|
  {
    NoDangling(s) &&
    (loads == [] || SafeRun(InitGroup(s, loads[0].name, loads[0].config).0, loads[1..]))
  }

  /** Over any run of loads and reloads, nothing dangles at any point if and only if every reload finds
      the old group settled; and then registrations and configuration agree at the end. */
  lemma {:induction false} RunExactly(s: Sys, base: seq<Entry>, loads: seq<Load>)
    requires Accounted(s, base) && Allocated(s) && Services(base)
    ensures SafeRun(s, loads) <==> SettledRun(s, loads)
    ensures SettledRun(s, loads) ==> Accounted(After(s, loads), base) && Allocated(After(s, loads))
    decreases |loads|
  {
    hide Accounted, Allocated, InitGroup, Settled, NoDangling, Services;
    AccountedIsSafe(s, base);
    if loads != [] {
      var l := loads[0];
      ReloadExactly(s, base, l.name, l.config);
      if Settled(s, l.name) {
        InitGroupKeeps(s, base, l.name, l.config);
        RunExactly(InitGroup(s, l.name, l.config).0, base, loads[1..]);
      }
    }
  }
}
