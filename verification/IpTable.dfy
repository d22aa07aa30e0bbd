/** The hashed address table and the group list, updated in place, against the plain list of registrations. */
module IpTable {
  import opened Common
  import opened Registry

  const IPLIST: nat := 32

  /** `uip & IPMODE`: the five low bits. */
  function Index(u: nat): nat {
    u % 32
  }

  /** The registrations that hash to `i`, in order. */
  function Bucket(flat: seq<Entry>, i: nat): seq<Entry> {
    if flat == [] then []
    else if Index(flat[0].uip) == i then [flat[0]] + Bucket(flat[1..], i)
    else Bucket(flat[1..], i)
  }

  /** Searching one bucket is searching all the registrations. */
  lemma {:induction false} BucketLookup(flat: seq<Entry>, u: nat)
    ensures Lookup(Bucket(flat, Index(u)), u) == Lookup(flat, u)
    decreases |flat|
  {
    if flat != [] {
      BucketLookup(flat[1..], u);
      if Index(flat[0].uip) == Index(u) {
        assert Bucket(flat, Index(u))[1..] == Bucket(flat[1..], Index(u));
      }
    }
  }

  /** Removing from one bucket is removing from all the registrations. */
  lemma {:induction false} BucketRemove(flat: seq<Entry>, u: nat, i: nat)
    ensures Bucket(Remove(flat, u), i) == if i == Index(u) then Remove(Bucket(flat, i), u) else Bucket(flat, i)
    decreases |flat|
  {
    if flat != [] {
      var e := flat[0];
      if e.uip == u {
        assert i == Index(u) ==> Bucket(flat, i)[1..] == Bucket(flat[1..], i);
      } else {
        BucketRemove(flat[1..], u, i);
        assert ([e] + Remove(flat[1..], u))[1..] == Remove(flat[1..], u);
        if Index(e.uip) == i {
          assert Bucket(flat, i)[1..] == Bucket(flat[1..], i);
        }
      }
    }
  }

  lemma BucketAdd(flat: seq<Entry>, e: Entry, i: nat)
    ensures Bucket([e] + flat, i) == if i == Index(e.uip) then [e] + Bucket(flat, i) else Bucket(flat, i)
  {
    assert ([e] + flat)[1..] == flat;
  }

  /** Every registration is in the bucket its address hashes to. */
  lemma {:induction false} BucketHome(flat: seq<Entry>, i: nat, e: Entry)
    ensures e in Bucket(flat, i) <==> e in flat && e.uip % 32 == i
    decreases |flat|
  {
    if flat != [] {
      BucketHome(flat[1..], i, e);
    }
  }

  class AddressTable {
    const allip: array<seq<Entry>>
    var groups: seq<Group>
    var nextId: nat
    ghost var flat: seq<Entry>

    ghost predicate Valid()
      reads this, allip
    {
      && allip.Length == IPLIST
      && (forall i :: 0 <= i < IPLIST ==> allip[i] == Bucket(flat, i))
    }

    ghost function State(): Sys
      reads this
    {
      Sys(flat, groups, nextId)
    }

    constructor ()
      ensures Valid() && State() == Sys([], [], 0) && fresh(allip)
    {
      allip := new seq<Entry>[IPLIST](_ => []);
      groups, nextId, flat := [], 0, [];
    }

    /** `add_ip_2_pfs`. */
    method AddIp(uip: nat, owner: Owner)
      requires Valid()
      modifies this`flat, allip
      ensures Valid() && flat == [Entry(uip, owner)] + old(flat)
    {
      var e := Entry(uip, owner);
      forall i | 0 <= i < IPLIST {
        BucketAdd(flat, e, i);
      }
      allip[Index(uip)] := [e] + allip[Index(uip)];
      flat := [e] + flat;
    }

    /** `get_ip_info`: the walk of one bucket finds the newest registration of the address. */
    method GetIpInfo(uip: nat) returns (r: Option<Entry>)
      requires Valid()
      ensures r == Lookup(flat, uip)
    {
      var mlist := allip[Index(uip)];
      BucketLookup(flat, uip);
      var i := 0;
      while i < |mlist|
        invariant 0 <= i <= |mlist|
        invariant Lookup(mlist, uip) == Lookup(mlist[i..], uip)
      {
        if mlist[i].uip == uip {
          return Some(mlist[i]);
        }
        i := i + 1;
      }
      r := None;
    }

    /** The walk that unlinks the first match of one bucket. */
    static method Unlink(mlist: seq<Entry>, uip: nat) returns (r: seq<Entry>)
      ensures r == Remove(mlist, uip)
    {
      var i := 0;
      while i < |mlist| && mlist[i].uip != uip
        invariant 0 <= i <= |mlist|
        invariant Remove(mlist, uip) == mlist[..i] + Remove(mlist[i..], uip)
      {
        assert mlist[i..][1..] == mlist[i + 1..];
        assert mlist[..i] + ([mlist[i]] + Remove(mlist[i + 1..], uip)) == mlist[..i + 1] + Remove(mlist[i + 1..], uip);
        i := i + 1;
      }
      if i < |mlist| {
        assert mlist[i..][1..] == mlist[i + 1..];
        r := mlist[..i] + mlist[i + 1..];
      } else {
        r := mlist;
      }
    }

    /** `del_ip_from_pfs`. */
    method DelIp(uip: nat)
      requires Valid()
      modifies this`flat, allip
      ensures Valid() && flat == Remove(old(flat), uip)
    {
      hide Remove, Bucket;
      forall i | 0 <= i < IPLIST {
        BucketRemove(flat, uip, i);
      }
      var rest := Unlink(allip[Index(uip)], uip);
      allip[Index(uip)] := rest;
      flat := Remove(flat, uip);
    }

    /** `destroy_storage_ip`. */
    method DestroyStorageIp(ips: seq<nat>)
      requires Valid()
      modifies this`flat, allip
      ensures Valid() && flat == RemoveAll(old(flat), ips)
    {
      var i := 0;
      while i < |ips|
        invariant 0 <= i <= |ips|
        invariant Valid() && RemoveAll(old(flat), ips) == RemoveAll(flat, ips[i..])
        modifies this`flat, allip
      {
        DelIp(ips[i]);
        assert ips[i..][1..] == ips[i + 1..];
        i := i + 1;
      }
    }

    method DestroyDomains(ds: seq<Domain>)
      requires Valid()
      modifies this`flat, allip
      ensures Valid() && flat == RemoveAll(old(flat), Uips(EntriesIn(ds)))
    {
      var i := 0;
      while i < |ds|
        invariant 0 <= i <= |ds|
        invariant Valid() && RemoveAll(old(flat), Uips(EntriesIn(ds))) == RemoveAll(flat, Uips(EntriesIn(ds[i..])))
        modifies this`flat, allip
      {
        ghost var before := flat;
        DestroyStorageIp(ds[i].ips);
        assert ds[i..][1..] == ds[i + 1..];
        UipsJoin(EntriesOf(ds[i]), EntriesIn(ds[i + 1..]));
        assert Uips(EntriesOf(ds[i])) == ds[i].ips;
        RemoveJoin(before, ds[i].ips, Uips(EntriesIn(ds[i + 1..])));
        i := i + 1;
      }
      assert Uips(EntriesIn(ds[i..])) == [];
    }

    /** `destroy_old_group`. */
    method DestroyOldGroup(name: string)
      requires Valid()
      modifies this`flat, this`groups, allip
      ensures Valid() && State() == Destroy(old(State()), name)
    {
      hide Bucket, EntriesIn, Remove;
      var gs := groups;
      var kept := [];
      var i := 0;
      ghost var all := Uips(Doomed(State(), name));
      while i < |gs|
        invariant 0 <= i <= |gs|
        invariant Valid() && Others(gs, name) == kept + Others(gs[i..], name)
        invariant RemoveAll(old(flat), all) == RemoveAll(flat, Uips(AllEntries(Named(gs[i..], name))))
        modifies this`flat, allip
      {
        ghost var before, rest := flat, Named(gs[i + 1..], name);
        assert gs[i..][1..] == gs[i + 1..];
        if gs[i].name == name {
          DestroyDomains(gs[i].domains);
          AllEntriesFirst(gs[i], rest);
          UipsJoin(EntriesIn(gs[i].domains), AllEntries(rest));
          RemoveJoin(before, Uips(EntriesIn(gs[i].domains)), Uips(AllEntries(rest)));
        } else {
          assert kept + ([gs[i]] + Others(gs[i + 1..], name)) == kept + [gs[i]] + Others(gs[i + 1..], name);
          kept := kept + [gs[i]];
        }
        i := i + 1;
      }
      assert Uips(AllEntries(Named(gs[i..], name))) == [];
      assert kept + [] == kept;
      groups := kept;
    }

    /** `add_storage_to_domain`, for the addresses of one line, until the domain is full. */
    method AddStorages(id: nat, ips: seq<nat>) returns (ok: bool)
      requires Valid()
      modifies this`flat, allip
      ensures Valid() && flat == Push(old(flat), id, Kept(ips))
      ensures ok <==> |ips| <= MAX_IP_DOMAIN
    {
      ghost var all := Kept(ips);
      var i := 0;
      while i < |ips|
        invariant 0 <= i <= |all|
        invariant Valid() && Push(old(flat), id, all) == Push(flat, id, all[i..])
        modifies this`flat, allip
      {
        if i >= MAX_IP_DOMAIN {
          assert all[i..] == [];
          return false;
        }
        AddIp(ips[i], Storage(id));
        assert all[i..][0] == ips[i] && all[i..][1..] == all[i + 1..];
        i := i + 1;
      }
      assert all[i..] == [];
      ok := true;
    }

    /** One line of the group's file becomes a domain of the group at the front. */
    method AddLine(ips: seq<nat>) returns (ok: bool)
      requires Valid() && groups != []
      modifies this, allip
      ensures Valid() && State() == AddDomain(old(State()), ips)
      ensures ok <==> |ips| <= MAX_IP_DOMAIN
    {
      ok := AddStorages(nextId, ips);
      var g := groups[0];
      groups := [g.(domains := [Domain(nextId, Kept(ips))] + g.domains)] + groups[1..];
      nextId := nextId + 1;
    }

    /** `init_group`. */
    method LoadGroup(name: string, c: Config) returns (ok: bool)
      requires Valid()
      modifies this, allip
      ensures Valid() && (State(), ok) == InitGroup(old(State()), name, c)
    {
      hide Destroy, AddDomain;
      DestroyOldGroup(name);
      if c.Missing? {
        return false;
      }
      groups := [Group(name, [])] + groups;
      if c.Unreadable? {
        return false;
      }
      ghost var start := State();
      assert start == Opened(Destroy(old(State()), name), name);
      var i := 0;
      assert c.lines[0..] == c.lines;
      while i < |c.lines|
        invariant 0 <= i <= |c.lines|
        invariant Valid() && groups != [] && AddLines(start, c.lines) == AddLines(State(), c.lines[i..])
      {
        if c.lines[i].Malformed? {
          return false;
        }
        ghost var before := State();
        var fits := AddLine(c.lines[i].ips);
        assert c.lines[i..][1..] == c.lines[i + 1..];
        GroupsStay(before, c.lines[i].ips);
        if !fits {
          return false;
        }
        i := i + 1;
      }
      ok := true;
    }
  }

  lemma GroupsStay(s: Sys, ips: seq<nat>)
    requires s.groups != []
    ensures AddDomain(s, ips).groups != []
  {
  }

  lemma UipsJoin(a: seq<Entry>, b: seq<Entry>)
    ensures Uips(a + b) == Uips(a) + Uips(b)
  {
  }

  lemma {:induction false} RemoveJoin(flat: seq<Entry>, us: seq<nat>, vs: seq<nat>)
    ensures RemoveAll(flat, us + vs) == RemoveAll(RemoveAll(flat, us), vs)
    decreases |us|
  {
    if us == [] {
      assert us + vs == vs;
    } else {
      assert (us + vs)[1..] == us[1..] + vs;
      RemoveJoin(Remove(flat, us[0]), us[1..], vs);
    }
  }
}
