/** When `Add` ends, for tables of every size: `Add` and `Realloc` with a bound on the nesting of
    their calls, and exactly when some bound is enough. */
module ShmGrowth {
  import opened Common
  import opened Chains
  import opened ShmTable

  // ----- overflow demand -----

  /** The keys in use; 0 marks a free slot. */
  function LiveKeys(keys: seq<nat>): multiset<nat> {
    multiset(keys)[0 := 0]
  }

  /** The buckets that some key falls into. */
  function Buckets(ks: multiset<nat>, heads: nat): set<nat>
    requires heads > 0
  {
    set k | k in ks :: k % heads
  }

  /** Of the keys in a bucket all but one need an overflow slot. */
  function Demand(ks: multiset<nat>, heads: nat): int
    requires heads > 0
  {
    |ks| - |Buckets(ks, heads)|
  }

  lemma DemandAdds(ks: multiset<nat>, k: nat, heads: nat)
    requires heads > 0
    ensures Buckets(ks + multiset{k}, heads) == Buckets(ks, heads) + {k % heads}
    ensures Demand(ks + multiset{k}, heads) == Demand(ks, heads) + if k % heads in Buckets(ks, heads) then 1 else 0
  {
    var a, b := Buckets(ks + multiset{k}, heads), Buckets(ks, heads);
    forall x
      ensures x in a <==> x in b + {k % heads}
    {
      if x in b {
        var j :| j in ks && j % heads == x;
        assert j in ks + multiset{k};
      }
      if x == k % heads {
        assert k in ks + multiset{k};
      }
    }
    assert a == b + {k % heads};
    if k % heads in b {
      assert a == b;
    }
  }

  /** A table without freed slots, whose overflow slots are exactly those its keys demand. */
  ghost predicate Tight<T>(t: Table<T>) {
    && WellFormed(t) && Clean(t)
    && t.usedSize == Demand(LiveKeys(t.keys), t.hashSize)
    && (forall b :: 0 <= b < t.hashSize ==> (t.keys[b] > 0 <==> b in Buckets(LiveKeys(t.keys), t.hashSize)))
  }

  /** Some table of these sizes holds the keys. */
  predicate Fits(ks: multiset<nat>, sizes: (nat, nat)) {
    sizes.0 > 0 && Demand(ks, sizes.0) <= sizes.1
  }

  // ----- one call without growth -----

  predicate HasRoom<T>(t: Table<T>, k: Key)
    requires WellFormed(t)
  {
    t.keys[Landing(t, k % t.hashSize)] == 0 || t.usedSize < t.dataSize
  }

  /** The entry is there now and the sizes are those of some later growth step. */
  ghost predicate Gained<T>(t: Table<T>, k: nat, v: T, r: Table<T>)
    requires WellFormed(t)
  {
    && WellFormed(r) && r.zero == t.zero
    && Contents(r) == Contents(t) + multiset{(k, v)}
    && LiveKeys(r.keys) == LiveKeys(t.keys) + multiset{k}
  }

  function Placed<T>(t: Table<T>, k: Key, v: T): (r: Table<T>)
    requires WellFormed(t) && HasRoom(t, k)
    ensures Gained(t, k, v, r) && r.hashSize == t.hashSize && r.dataSize == t.dataSize
  {
    var s := Landing(t, k % t.hashSize);
    if t.keys[s] == 0 then
      PutKeeps(t, s, k, v);
      KeysPut(t.keys, s, k);
      Put(t, s, k, v)
    else
      AppendKeeps(t, s, k, v);
      BeyondUsed(t);
      KeysPut(t.keys, t.hashSize + t.usedSize, k);
      Put(LinkNew(t, s), t.hashSize + t.usedSize, k, v)
  }

  lemma KeysPut(keys: seq<nat>, s: nat, k: nat)
    requires s < |keys| && keys[s] == 0 && k > 0
    ensures LiveKeys(keys[s := k]) == LiveKeys(keys) + multiset{k}
  {
    assert multiset(keys[s := k]) == multiset(keys) - multiset{0} + multiset{k};
  }

  lemma BeyondUsed<T>(t: Table<T>)
    requires WellFormed(t) && t.usedSize < t.dataSize
    ensures t.keys[t.hashSize + t.usedSize] == 0
  {
  }

  /** Tightness from its parts. */
  lemma TightAfter<T>(t: Table<T>, r: Table<T>, k: Key, slot: nat)
    requires Tight(t) && WellFormed(r) && slot < |t.keys| && t.keys[slot] == 0
    requires r.keys == t.keys[slot := k] && r.hashSize == t.hashSize
    requires if slot < t.hashSize then slot == k % t.hashSize && r.usedSize == t.usedSize
             else t.keys[k % t.hashSize] > 0 && slot == t.hashSize + t.usedSize && r.usedSize == t.usedSize + 1
    ensures Tight(r)
  {
    hide Linked, Homed, Chain, Buckets, Demand, LiveKeys;
    KeysPut(t.keys, slot, k);
    DemandAdds(LiveKeys(t.keys), k, t.hashSize);
  }

  /** In a tight table the next key finds room exactly when the keys then fit. */
  lemma TightAdd<T>(t: Table<T>, k: Key, v: T)
    requires Tight(t)
    ensures HasRoom(t, k) <==> Fits(LiveKeys(t.keys) + multiset{k}, (t.hashSize, t.dataSize))
    ensures HasRoom(t, k) ==> Tight(Placed(t, k, v))
  {
    hide Linked, Homed, Bag, Chain, Buckets, Demand, LiveKeys;
    var b := k % t.hashSize;
    DemandAdds(LiveKeys(t.keys), k, t.hashSize);
    if t.keys[b] == 0 {
      TightAfter(t, Placed(t, k, v), k, b);
    } else {
      TightChain(t, b);
      if t.usedSize < t.dataSize {
        BeyondUsed(t);
        TightAfter(t, Placed(t, k, v), k, t.hashSize + t.usedSize);
      }
    }
  }

  lemma TightChain<T>(t: Table<T>, b: nat)
    requires Tight(t) && b < t.hashSize && t.keys[b] > 0
    ensures t.keys[Landing(t, b)] > 0
  {
    var s := Landing(t, b);
    if s != b {
      var p := ChainPred(t.next, t.hashSize, t.usedSize, b, s);
    }
  }

  // ----- calls with a bound on their nesting -----

  function KeysOf<T>(es: seq<(nat, T)>): multiset<nat> {
    if es == [] then multiset{} else KeysOf(es[..|es| - 1]) + multiset{es[|es| - 1].0}
  }

  lemma {:induction false} EntriesKeys<T>(keys: seq<nat>, vals: seq<T>)
    requires |keys| == |vals|
    ensures KeysOf(Entries(keys, vals)) == LiveKeys(keys)
  {
    if |keys| == 0 {
      assert LiveKeys(keys) == multiset{};
    } else {
      hide LiveKeys, KeysOf, Entries;
      var n := |keys| - 1;
      EntriesKeys(keys[..n], vals[..n]);
      EntriesLast(keys, vals);
      LiveLast(keys);
      KeysSnoc(Entries(keys[..n], vals[..n]), (keys[n], vals[n]));
    }
  }

  lemma LiveLast(keys: seq<nat>)
    requires keys != []
    ensures var n := |keys| - 1;
      LiveKeys(keys) == if keys[n] > 0 then LiveKeys(keys[..n]) + multiset{keys[n]} else LiveKeys(keys[..n])
  {
    hide LiveKeys;
    var n := |keys| - 1;
    assert keys == keys[..n] + [keys[n]];
    LiveSplit(keys[..n], [keys[n]]);
    LiveOne(keys[n]);
    assert LiveKeys(keys[..n]) + multiset{} == LiveKeys(keys[..n]);
  }

  lemma EntriesLast<T>(keys: seq<nat>, vals: seq<T>)
    requires 0 < |keys| == |vals|
    ensures var n := |keys| - 1; var es := Entries(keys[..n], vals[..n]);
      Entries(keys, vals) == if keys[n] > 0 then es + [(keys[n], vals[n])] else es
  {
    var n := |keys| - 1;
    assert Entries(keys[..n], vals[..n]) + [] == Entries(keys[..n], vals[..n]);
  }

  lemma LiveSplit(a: seq<nat>, b: seq<nat>)
    ensures LiveKeys(a + b) == LiveKeys(a) + LiveKeys(b)
  {
  }

  lemma LiveOne(k: nat)
    ensures LiveKeys([k]) == if k > 0 then multiset{k} else multiset{}
  {
  }

  lemma KeysSnoc<T>(es: seq<(nat, T)>, e: (nat, T))
    ensures KeysOf(es + [e]) == KeysOf(es) + multiset{e.0}
  {
    assert (es + [e])[..|es|] == es;
  }

  function Sizes<T>(t: Table<T>): (nat, nat) {
    (t.hashSize, t.dataSize)
  }

  function Grown(sizes: (nat, nat), steps: nat): (nat, nat) {
    GrownManyTimes(sizes.0, sizes.1, steps)
  }

  ghost predicate Later(sizes: (nat, nat), after: (nat, nat)) {
    exists m: nat :: after == Grown(sizes, m)
  }

  lemma {:induction false} GrownTwice(sizes: (nat, nat), m: nat, n: nat)
    ensures Grown(Grown(sizes, m), n) == Grown(sizes, m + n)
    decreases m
  {
    if m > 0 {
      GrownTwice(Grown(sizes, 1), m - 1, n);
      assert Grown(sizes, m) == Grown(Grown(sizes, 1), m - 1);
      assert Grown(sizes, m + n) == Grown(Grown(sizes, 1), m + n - 1);
    }
  }

  lemma LaterTrans(a: (nat, nat), b: (nat, nat), c: (nat, nat))
    requires Later(a, b) && Later(b, c)
    ensures Later(a, c)
  {
    var m: nat :| b == Grown(a, m);
    var n: nat :| c == Grown(b, n);
    GrownTwice(a, m, n);
  }

  lemma LaterSame(a: (nat, nat))
    ensures Later(a, a)
  {
    assert a == Grown(a, 0);
  }

  /** The counter in the header is the number of entries. */
  ghost predicate Exact<T>(t: Table<T>) {
    |t.keys| == |t.vals| && t.totalSize == |Contents(t)|
  }

  /** What a finished `Add` has done. */
  ghost predicate Reached<T>(t: Table<T>, k: nat, v: T, r: Table<T>)
    requires WellFormed(t)
  {
    && Gained(t, k, v, r) && Later(Sizes(t), Sizes(r))
    && (Tight(t) ==> Tight(r)) && (Exact(t) ==> Exact(r))
  }

  /** What a finished rehash has done. */
  ghost predicate Rehashed<T>(t: Table<T>, es: seq<(nat, T)>, r: Table<T>)
    requires |t.keys| == |t.vals|
  {
    && Tight(r) && r.zero == t.zero && Later(Sizes(t), Sizes(r)) && (Exact(t) ==> Exact(r))
    && Contents(r) == Contents(t) + multiset(es)
    && LiveKeys(r.keys) == LiveKeys(t.keys) + KeysOf(es)
  }

  function NextSegment<T>(t: Table<T>): (r: Table<T>)
    requires t.hashSize > 0
    ensures Tight(r) && Contents(r) == multiset{} && LiveKeys(r.keys) == multiset{}
    ensures Sizes(r) == Grown(Sizes(t), 1) && r.zero == t.zero && Exact(r)
  {
    hide WellFormed, Clean, Bag, LiveKeys, Buckets, Demand, Tight, Alloc, Grown, GrownHash, GrownTotal;
    GrownOnce(t.hashSize, t.dataSize);
    EmptyTight(GrownHash(t.hashSize), GrownTotal(t.hashSize, t.dataSize), t.zero);
    Alloc(GrownHash(t.hashSize), GrownTotal(t.hashSize, t.dataSize), t.zero)
  }

  lemma GrownOnce(h: nat, d: nat)
    requires h > 0
    ensures 0 < GrownHash(h) <= GrownTotal(h, d)
    ensures Grown((h, d), 1) == (GrownHash(h), GrownTotal(h, d) - GrownHash(h))
  {
    GrowthExact(h, d);
  }

  lemma EmptyTight<T>(nhash: nat, nrec: nat, zero: T)
    requires 0 < nhash <= nrec
    ensures Tight(Alloc(nhash, nrec, zero)) && LiveKeys(Alloc(nhash, nrec, zero).keys) == multiset{}
    ensures Alloc(nhash, nrec, zero).zero == zero
  {
    hide Linked, Homed, Clean, Bag;
    var r := Alloc(nhash, nrec, zero);
    assert LiveKeys(r.keys) == multiset{};
    assert Buckets(multiset{}, nhash) == {};
  }

  /** `Add`, with at most `fuel` calls of `Realloc` nested in one another. */
  ghost function AddWithin<T>(t: Table<T>, k: Key, v: T, fuel: nat): (r: Option<Table<T>>)
    requires WellFormed(t)
    ensures r.Some? ==> Reached(t, k, v, r.value)
    decreases fuel, 0
  {
    hide Linked, Homed, Bag, Chain, Clean, Buckets, Demand, LiveKeys, Gained, Later;
    if HasRoom(t, k) then
      PlacedReaches(t, k, v);
      Some(Placed(t, k, v))
    else if fuel == 0 then None
    else
      var g := ReallocWithin(t, fuel - 1);
      if g.None? then None
      else
        var r := AddWithin(g.value, k, v, fuel - 1);
        if r.Some? then
          GrownReaches(t, g.value, k, v, r.value);
          r
        else r
  }

  lemma PlacedReaches<T>(t: Table<T>, k: Key, v: T)
    requires WellFormed(t) && HasRoom(t, k)
    ensures Reached(t, k, v, Placed(t, k, v))
  {
    hide Linked, Homed, Bag, Chain, Buckets, Demand, LiveKeys;
    LaterSame(Sizes(t));
    if Tight(t) {
      TightAdd(t, k, v);
    }
  }

  ghost predicate Regrown<T>(t: Table<T>, g: Table<T>)
    requires WellFormed(t)
  {
    && Tight(g) && Exact(g) && g.zero == t.zero && Contents(g) == Contents(t)
    && LiveKeys(g.keys) == LiveKeys(t.keys) && Later(Grown(Sizes(t), 1), Sizes(g))
  }

  lemma GrownReaches<T>(t: Table<T>, g: Table<T>, k: Key, v: T, r: Table<T>)
    requires WellFormed(t) && Regrown(t, g) && Reached(g, k, v, r)
    ensures Reached(t, k, v, r)
  {
    hide Linked, Homed, Bag, Chain, Clean, Buckets, Demand, LiveKeys, Grown, Later;
    OneLater(Sizes(t));
    LaterTrans(Sizes(t), Grown(Sizes(t), 1), Sizes(g));
    LaterTrans(Sizes(t), Sizes(g), Sizes(r));
  }

  lemma OneLater(a: (nat, nat))
    ensures Later(a, Grown(a, 1))
  {
  }

  ghost function ReallocWithin<T>(t: Table<T>, fuel: nat): (r: Option<Table<T>>)
    requires WellFormed(t)
    ensures r.Some? ==> Regrown(t, r.value)
    decreases fuel, |t.keys| + 2
  {
    hide Linked, Homed, Bag, Chain, Clean, Buckets, Demand, LiveKeys, Later, Grown;
    EntriesLegal(t);
    EntriesKeys(t.keys, t.vals);
    AddAllWithin(NextSegment(t), Entries(t.keys, t.vals), fuel)
  }

  ghost function AddAllWithin<T>(t: Table<T>, es: seq<(nat, T)>, fuel: nat): (r: Option<Table<T>>)
    requires Tight(t) && LegalEntries(es)
    ensures r.Some? ==> Rehashed(t, es, r.value)
    decreases fuel, |es| + 1
  {
    hide Linked, Homed, Bag, Chain, Clean, Buckets, Demand, LiveKeys, Later, Rehashed, LegalEntries, Reached;
    if es == [] then
      RehashedNone(t, es);
      Some(t)
    else
      var n := |es| - 1;
      LegalInit(es);
      var q := AddAllWithin(t, es[..n], fuel);
      if q.None? then None
      else
        RehashedTight(t, es[..n], q.value);
        var r := AddWithin(q.value, es[n].0, es[n].1, fuel);
        if r.Some? then
          RehashedStep(t, es, q.value, r.value);
          r
        else r
  }

  lemma RehashedNone<T>(t: Table<T>, es: seq<(nat, T)>)
    requires Tight(t) && es == []
    ensures Rehashed(t, es, t)
  {
    LaterSame(Sizes(t));
  }

  lemma RehashedTight<T>(t: Table<T>, es: seq<(nat, T)>, q: Table<T>)
    requires |t.keys| == |t.vals| && Rehashed(t, es, q)
    ensures Tight(q)
  {
  }

  lemma RehashedStep<T>(t: Table<T>, es: seq<(nat, T)>, q: Table<T>, r: Table<T>)
    requires |t.keys| == |t.vals| && es != [] && Rehashed(t, es[..|es| - 1], q)
    requires Tight(q) && Reached(q, es[|es| - 1].0, es[|es| - 1].1, r)
    ensures Rehashed(t, es, r)
  {
    hide Linked, Homed, Bag, Chain, Clean, Buckets, Demand, LiveKeys, Later;
    LaterTrans(Sizes(t), Sizes(q), Sizes(r));
    BagSnoc(Contents(t), es);
  }

  // ----- when some bound is enough -----

  ghost predicate LaterBy(a: (nat, nat), b: (nat, nat), r: nat) {
    exists m: nat :: m <= r && b == Grown(a, m)
  }

  lemma FitsFewer(ks: multiset<nat>, k: nat, sizes: (nat, nat))
    requires Fits(ks + multiset{k}, sizes)
    ensures Fits(ks, sizes)
  {
    DemandAdds(ks, k, sizes.0);
  }

  /** A tight table ends up at the first sizes that its keys and the new one fit. */
  lemma {:induction false} AddFits<T>(t: Table<T>, k: Key, v: T, r: nat, fuel: nat)
    requires Tight(t) && Fits(LiveKeys(t.keys) + multiset{k}, Grown(Sizes(t), r)) && fuel >= r
    ensures AddWithin(t, k, v, fuel).Some?
    ensures LaterBy(Sizes(t), Sizes(AddWithin(t, k, v, fuel).value), r)
    decreases fuel, 0
  {
    hide WellFormed, Clean, Buckets, Demand, LiveKeys, Grown, Fits, HasRoom, AddWithin, ReallocWithin, Reached, Regrown;
    GrownNone(Sizes(t));
    TightAdd(t, k, v);
    if HasRoom(t, k) {
      AddRoom(t, k, v, fuel);
      assert Sizes(AddWithin(t, k, v, fuel).value) == Grown(Sizes(t), 0);
    } else {
      assert r > 0;
      FitsFewer(LiveKeys(t.keys), k, Grown(Sizes(t), r));
      var g, m := ReallocFits(t, r, fuel - 1);
      AddGrows(t, g, k, v, fuel);
      GrownTwice(Sizes(t), m, r - m);
      AddFits(g, k, v, r - m, fuel - 1);
      var a := AddWithin(g, k, v, fuel - 1).value;
      var n: nat :| n <= r - m && Sizes(a) == Grown(Sizes(g), n);
      GrownTwice(Sizes(t), m, n);
      assert Sizes(a) == Grown(Sizes(t), m + n);
    }
  }

  lemma AddRoom<T>(t: Table<T>, k: Key, v: T, fuel: nat)
    requires WellFormed(t) && HasRoom(t, k)
    ensures AddWithin(t, k, v, fuel) == Some(Placed(t, k, v))
  {
  }

  lemma AddGrows<T>(t: Table<T>, g: Table<T>, k: Key, v: T, fuel: nat)
    requires WellFormed(t) && !HasRoom(t, k) && fuel > 0 && ReallocWithin(t, fuel - 1) == Some(g)
    ensures WellFormed(g) && AddWithin(t, k, v, fuel) == AddWithin(g, k, v, fuel - 1)
  {
    hide Shaped, Homed, HasRoom, ReallocWithin, Reached;
  }

  lemma GrownNone(a: (nat, nat))
    ensures Grown(a, 0) == a
  {
  }

  lemma ReallocIs<T>(t: Table<T>, fuel: nat)
    requires WellFormed(t)
    ensures LegalEntries(Entries(t.keys, t.vals)) && KeysOf(Entries(t.keys, t.vals)) == LiveKeys(t.keys)
    ensures ReallocWithin(t, fuel) == AddAllWithin(NextSegment(t), Entries(t.keys, t.vals), fuel)
  {
    hide Linked, Homed, Bag, Chain, Clean, Buckets, Demand, LiveKeys, Later, Grown, AddAllWithin, NextSegment;
    EntriesLegal(t);
    EntriesKeys(t.keys, t.vals);
  }

  lemma {:induction false} ReallocFits<T>(t: Table<T>, r: nat, fuel: nat) returns (g: Table<T>, m: nat)
    requires WellFormed(t) && r > 0 && Fits(LiveKeys(t.keys), Grown(Sizes(t), r)) && fuel >= r - 1
    ensures ReallocWithin(t, fuel) == Some(g) && 0 < m <= r && Sizes(g) == Grown(Sizes(t), m)
    ensures Tight(g) && LiveKeys(g.keys) == LiveKeys(t.keys)
    decreases fuel, |t.keys| + 2
  {
    hide Linked, Homed, Chain, Bag, Clean, Buckets, Demand, LiveKeys, KeysOf, Entries, Later, Grown, Fits;
    hide AddAllWithin, ReallocWithin, NextSegment, Rehashed, LegalEntries;
    ReallocIs(t, fuel);
    var empty, es := NextSegment(t), Entries(t.keys, t.vals);
    GrownTwice(Sizes(t), 1, r - 1);
    assert LiveKeys(empty.keys) + KeysOf(es) == LiveKeys(t.keys);
    AddAllFits(empty, es, r - 1, fuel);
    g := AddAllWithin(empty, es, fuel).value;
    var n: nat :| n <= r - 1 && Sizes(g) == Grown(Sizes(empty), n);
    GrownTwice(Sizes(t), 1, n);
    m := n + 1;
  }

  lemma {:induction false} AddAllFits<T>(t: Table<T>, es: seq<(nat, T)>, r: nat, fuel: nat)
    requires Tight(t) && LegalEntries(es) && fuel >= r
    requires Fits(LiveKeys(t.keys) + KeysOf(es), Grown(Sizes(t), r))
    ensures AddAllWithin(t, es, fuel).Some?
    ensures LaterBy(Sizes(t), Sizes(AddAllWithin(t, es, fuel).value), r)
    decreases fuel, |es| + 1
  {
    hide Linked, Homed, Bag, Chain, Clean, Buckets, Demand, LiveKeys, Later, Grown;
    hide Gained, Fits, AddWithin, LegalEntries;
    if es == [] {
      GrownNone(Sizes(t));
      assert Sizes(t) == Grown(Sizes(t), 0);
    } else {
      var n, e := |es| - 1, es[|es| - 1];
      LegalInit(es);
      assert LiveKeys(t.keys) + KeysOf(es[..n]) + multiset{e.0} == LiveKeys(t.keys) + KeysOf(es);
      FitsFewer(LiveKeys(t.keys) + KeysOf(es[..n]), e.0, Grown(Sizes(t), r));
      AddAllFits(t, es[..n], r, fuel);
      var q := AddAllWithin(t, es[..n], fuel).value;
      var m: nat :| m <= r && Sizes(q) == Grown(Sizes(t), m);
      GrownTwice(Sizes(t), m, r - m);
      AddFits(q, e.0, e.1, r - m, fuel);
      var a := AddWithin(q, e.0, e.1, fuel).value;
      var i: nat :| i <= r - m && Sizes(a) == Grown(Sizes(q), i);
      GrownTwice(Sizes(t), m, i);
      assert Sizes(a) == Grown(Sizes(t), m + i);
    }
  }

  /** `Add` ends. */
  ghost predicate Finishes<T>(t: Table<T>, k: Key, v: T)
    requires WellFormed(t)
  {
    exists fuel: nat :: AddWithin(t, k, v, fuel).Some?
  }

  /** Some number of growth steps, at least one, gives sizes that the keys fit. */
  ghost predicate FitsLater(ks: multiset<nat>, sizes: (nat, nat)) {
    exists n: nat :: n > 0 && Fits(ks, Grown(sizes, n))
  }

  lemma TightFits<T>(t: Table<T>)
    requires Tight(t)
    ensures Fits(LiveKeys(t.keys), Sizes(t))
  {
  }

  /** For a table of any size, `Add` ends exactly when there is room, or some growth makes room. */
  lemma FinishesExactly<T>(t: Table<T>, k: Key, v: T)
    requires WellFormed(t)
    ensures Finishes(t, k, v) <==> HasRoom(t, k) || FitsLater(LiveKeys(t.keys) + multiset{k}, Sizes(t))
  {
    hide Linked, Homed, Bag, Chain, Clean, Buckets, Demand, LiveKeys, Fits, ReallocWithin, HasRoom;
    var ks := LiveKeys(t.keys) + multiset{k};
    if HasRoom(t, k) {
      assert AddWithin(t, k, v, 0).Some?;
    } else {
      if FitsLater(ks, Sizes(t)) {
        var n: nat :| n > 0 && Fits(ks, Grown(Sizes(t), n));
        GrowthSuffices(t, k, v, n);
      }
      if Finishes(t, k, v) {
        var fuel: nat :| AddWithin(t, k, v, fuel).Some?;
        GrowthNeeded(t, k, v, fuel);
      }
    }
  }

  lemma GrowthSuffices<T>(t: Table<T>, k: Key, v: T, n: nat)
    requires WellFormed(t) && !HasRoom(t, k) && n > 0
    requires Fits(LiveKeys(t.keys) + multiset{k}, Grown(Sizes(t), n))
    ensures AddWithin(t, k, v, n).Some?
  {
    hide Linked, Homed, Bag, Chain, Clean, Buckets, Demand, LiveKeys, Fits, Grown, ReallocWithin, HasRoom, Later;
    FitsFewer(LiveKeys(t.keys), k, Grown(Sizes(t), n));
    var g, m := ReallocFits(t, n, n - 1);
    GrownTwice(Sizes(t), m, n - m);
    AddFits(g, k, v, n - m, n - 1);
  }

  lemma GrowthNeeded<T>(t: Table<T>, k: Key, v: T, fuel: nat)
    requires WellFormed(t) && !HasRoom(t, k) && AddWithin(t, k, v, fuel).Some?
    ensures FitsLater(LiveKeys(t.keys) + multiset{k}, Sizes(t))
  {
    hide Linked, Homed, Bag, Chain, Clean, Buckets, Demand, LiveKeys, Fits, Grown, ReallocWithin, HasRoom;
    var g := ReallocWithin(t, fuel - 1).value;
    var r := AddWithin(g, k, v, fuel - 1).value;
    TightFits(r);
    LaterTrans(Grown(Sizes(t), 1), Sizes(g), Sizes(r));
    var m: nat :| Sizes(r) == Grown(Grown(Sizes(t), 1), m);
    GrownTwice(Sizes(t), 1, m);
  }

  // ----- the result of a call that ends -----

  /** A larger bound changes nothing. */
  lemma {:induction false} AddMore<T>(t: Table<T>, k: Key, v: T, f: nat, g: nat)
    requires WellFormed(t) && f <= g && AddWithin(t, k, v, f).Some?
    ensures AddWithin(t, k, v, g) == AddWithin(t, k, v, f)
    decreases f, 0
  {
    hide WellFormed, HasRoom, AddWithin, ReallocWithin, Reached, Regrown;
    AddTurn(t, k, v, f);
    if HasRoom(t, k) {
      AddRoom(t, k, v, g);
    } else {
      ReallocMore(t, f - 1, g - 1);
      var u := ReallocWithin(t, f - 1).value;
      AddGrows(t, u, k, v, g);
      AddMore(u, k, v, f - 1, g - 1);
    }
  }

  lemma {:induction false} ReallocMore<T>(t: Table<T>, f: nat, g: nat)
    requires WellFormed(t) && f <= g && ReallocWithin(t, f).Some?
    ensures ReallocWithin(t, g) == ReallocWithin(t, f)
    decreases f, |t.keys| + 2
  {
    hide Linked, Homed, Bag, Chain, Clean, Tight, NextSegment, AddAllWithin, ReallocWithin, Entries, KeysOf;
    ReallocIs(t, f);
    ReallocIs(t, g);
    AddAllMore(NextSegment(t), Entries(t.keys, t.vals), f, g);
  }

  lemma {:induction false} AddAllMore<T>(t: Table<T>, es: seq<(nat, T)>, f: nat, g: nat)
    requires Tight(t) && LegalEntries(es) && f <= g && AddAllWithin(t, es, f).Some?
    ensures AddAllWithin(t, es, g) == AddAllWithin(t, es, f)
    decreases f, |es| + 1
  {
    if es != [] {
      hide Linked, Homed, Bag, Clean, Tight, AddWithin, AddAllWithin, LegalEntries, Rehashed, Reached;
      AllWithinLast(t, es, f);
      var n := |es| - 1;
      AddAllMore(t, es[..n], f, g);
      var q := AddAllWithin(t, es[..n], f).value;
      AddMore(q, es[n].0, es[n].1, f, g);
      AllWithinGoes(t, es, g, q);
    }
  }

  lemma AllWithinLast<T>(t: Table<T>, es: seq<(nat, T)>, fuel: nat)
    requires Tight(t) && LegalEntries(es) && es != [] && AddAllWithin(t, es, fuel).Some?
    ensures var n := |es| - 1;
      && LegalEntries(es[..n]) && 0 < es[n].0 < KEY_LIMIT && AddAllWithin(t, es[..n], fuel).Some?
      && WellFormed(AddAllWithin(t, es[..n], fuel).value)
      && AddAllWithin(t, es, fuel) == AddWithin(AddAllWithin(t, es[..n], fuel).value, es[n].0, es[n].1, fuel)
  {
    hide Linked, Homed, Bag, Clean, Buckets, Demand, LiveKeys, AddWithin, KeysOf, Later;
  }

  lemma AllWithinGoes<T>(t: Table<T>, es: seq<(nat, T)>, fuel: nat, q: Table<T>)
    requires Tight(t) && LegalEntries(es) && es != [] && LegalEntries(es[..|es| - 1])
    requires AddAllWithin(t, es[..|es| - 1], fuel) == Some(q) && WellFormed(q) && 0 < es[|es| - 1].0 < KEY_LIMIT
    ensures AddAllWithin(t, es, fuel) == AddWithin(q, es[|es| - 1].0, es[|es| - 1].1, fuel)
  {
    hide Linked, Homed, Bag, Clean, Buckets, Demand, LiveKeys, AddWithin, KeysOf, Later;
  }

  /** `Add`, when it ends. */
  ghost function Add<T>(t: Table<T>, k: Key, v: T): (r: Table<T>)
    requires WellFormed(t) && Finishes(t, k, v)
    ensures Reached(t, k, v, r)
  {
    hide WellFormed, AddWithin, Reached;
    var fuel: nat :| AddWithin(t, k, v, fuel).Some?;
    AddWithin(t, k, v, fuel).value
  }

  /** The result is that of every bound that is enough. */
  lemma AddIs<T>(t: Table<T>, k: Key, v: T, fuel: nat)
    requires WellFormed(t) && AddWithin(t, k, v, fuel).Some?
    ensures Finishes(t, k, v) && AddWithin(t, k, v, fuel) == Some(Add(t, k, v))
  {
    hide WellFormed, AddWithin, Reached;
    var other: nat :| AddWithin(t, k, v, other).Some? && Add(t, k, v) == AddWithin(t, k, v, other).value;
    if other <= fuel {
      AddMore(t, k, v, other, fuel);
    } else {
      AddMore(t, k, v, fuel, other);
    }
  }

  /** With room the entry is put in place; otherwise the table was rebuilt and its counter is exact. */
  lemma AddCases<T>(t: Table<T>, k: Key, v: T)
    requires WellFormed(t) && Finishes(t, k, v)
    ensures HasRoom(t, k) ==> Add(t, k, v) == Placed(t, k, v)
    ensures !HasRoom(t, k) ==> Exact(Add(t, k, v))
  {
    hide Shaped, Homed, Bag, HasRoom, AddWithin, ReallocWithin, Add;
    var fuel: nat :| AddWithin(t, k, v, fuel).Some?;
    AddIs(t, k, v, fuel);
    AddTurn(t, k, v, fuel);
  }

  // ----- one turn of the rehash loop -----

  /** When the whole rehash ends, so does every turn of it. */
  lemma {:induction false} RehashEnds<T>(t: Table<T>, es: seq<(nat, T)>, n: nat, fuel: nat)
    requires Tight(t) && LegalEntries(es) && n <= |es| && AddAllWithin(t, es, fuel).Some?
    ensures AddAllWithin(t, es[..n], fuel).Some?
    decreases |es|
  {
    hide Tight, AddWithin, Rehashed, Reached;
    if n < |es| {
      assert es[..|es| - 1][..n] == es[..n];
      RehashEnds(t, es[..|es| - 1], n, fuel);
    } else {
      assert es[..n] == es;
    }
  }

  /** Re-adding the live slot `p` of the old table is the next turn of its rehash. */
  lemma RehashTurn<T>(t: Table<T>, p: nat, q: Table<T>, fuel: nat)
    requires WellFormed(t) && ReallocWithin(t, fuel).Some? && p < |t.keys| && t.keys[p] > 0
    requires LegalEntries(EntriesTo(t, p)) && AddAllWithin(NextSegment(t), EntriesTo(t, p), fuel) == Some(q)
    ensures WellFormed(q) && t.keys[p] < KEY_LIMIT && LegalEntries(EntriesTo(t, p + 1))
    ensures AddWithin(q, t.keys[p], t.vals[p], fuel).Some?
    ensures AddAllWithin(NextSegment(t), EntriesTo(t, p + 1), fuel) == AddWithin(q, t.keys[p], t.vals[p], fuel)
  {
    hide Linked, Homed, Bag, Chain, Clean, Buckets, Demand, LiveKeys, EntriesTo, Entries, NextSegment, ReallocWithin;
    hide Later, AddWithin, AddAllWithin, KeysOf, LegalEntries, Rehashed, Regrown;
    EntriesTurn(t, p);
    ReallocIs(t, fuel);
    var more := EntriesTo(t, p + 1);
    RehashEnds(NextSegment(t), Entries(t.keys, t.vals), |more|, fuel);
    AllWithinSnoc(NextSegment(t), EntriesTo(t, p), (t.keys[p], t.vals[p]), fuel);
  }

  lemma EntriesTurn<T>(t: Table<T>, p: nat)
    requires WellFormed(t) && p < |t.keys| && t.keys[p] > 0
    ensures LegalEntries(EntriesTo(t, p)) && LegalEntries(EntriesTo(t, p + 1)) && t.keys[p] < KEY_LIMIT
    ensures EntriesTo(t, p + 1) == EntriesTo(t, p) + [(t.keys[p], t.vals[p])]
    ensures var n := |EntriesTo(t, p + 1)|;
      n <= |Entries(t.keys, t.vals)| && Entries(t.keys, t.vals)[..n] == EntriesTo(t, p + 1)
  {
    hide Linked, Homed, Chain, Bag, Entries, EntriesTo, LegalEntries;
    EntriesAt(t, p);
    EntriesPrefix(t, p + 1);
  }

  lemma AllWithinSnoc<T>(t: Table<T>, es: seq<(nat, T)>, e: (nat, T), fuel: nat)
    requires Tight(t) && LegalEntries(es + [e]) && LegalEntries(es) && AddAllWithin(t, es + [e], fuel).Some?
    ensures 0 < e.0 < KEY_LIMIT && AddAllWithin(t, es, fuel).Some? && Tight(AddAllWithin(t, es, fuel).value)
    ensures AddAllWithin(t, es + [e], fuel) == AddWithin(AddAllWithin(t, es, fuel).value, e.0, e.1, fuel)
  {
    hide Linked, Homed, Bag, Chain, Clean, Buckets, Demand, LiveKeys, Later, AddWithin, KeysOf;
    assert (es + [e])[|es|] == e && (es + [e])[..|es|] == es;
  }

  /** The old table's first `p` slots have been rehashed into `q`. */
  ghost predicate Rehashing<T>(t: Table<T>, p: nat, fuel: nat, q: Table<T>) {
    && WellFormed(t) && p <= |t.keys| && LegalEntries(EntriesTo(t, p))
    && AddAllWithin(NextSegment(t), EntriesTo(t, p), fuel) == Some(q)
  }

  lemma RehashStart<T>(t: Table<T>, fuel: nat)
    requires WellFormed(t)
    ensures GrownHash(t.hashSize) <= GrownTotal(t.hashSize, t.dataSize)
    ensures NextSegment(t) == Alloc(GrownHash(t.hashSize), GrownTotal(t.hashSize, t.dataSize), t.zero)
    ensures WellFormed(NextSegment(t)) && Rehashing(t, 0, fuel, NextSegment(t))
  {
    hide Linked, Homed, Bag, Chain, Clean, Buckets, Demand, LiveKeys;
  }

  lemma RehashGoes<T>(t: Table<T>, p: nat, q: Table<T>, fuel: nat)
    requires Rehashing(t, p, fuel, q) && ReallocWithin(t, fuel).Some? && p < |t.keys|
    ensures t.keys[p] == 0 ==> Rehashing(t, p + 1, fuel, q)
    ensures t.keys[p] > 0 ==>
      && WellFormed(q) && t.keys[p] < KEY_LIMIT && AddWithin(q, t.keys[p], t.vals[p], fuel).Some?
      && Rehashing(t, p + 1, fuel, AddWithin(q, t.keys[p], t.vals[p], fuel).value)
  {
    hide Linked, Homed, Bag, Chain, Tight, EntriesTo, ReallocWithin, AddWithin, AddAllWithin, LegalEntries;
    hide Rehashed, Reached, Regrown;
    EntriesStep(t, p);
    if t.keys[p] > 0 {
      RehashTurn(t, p, q, fuel);
    }
  }

  lemma RehashDone<T>(t: Table<T>, q: Table<T>, fuel: nat)
    requires Rehashing(t, |t.keys|, fuel, q)
    ensures ReallocWithin(t, fuel) == Some(q)
  {
    hide Linked, Homed, Bag, Chain, Tight, Entries, ReallocWithin, AddAllWithin;
    assert t.keys[..|t.keys|] == t.keys && t.vals[..|t.keys|] == t.vals;
    ReallocIs(t, fuel);
  }

  /** What `Add` goes on to when it ends. */
  lemma AddTurn<T>(t: Table<T>, k: Key, v: T, fuel: nat)
    requires WellFormed(t) && AddWithin(t, k, v, fuel).Some?
    ensures HasRoom(t, k) ==> AddWithin(t, k, v, fuel) == Some(Placed(t, k, v)) && WellFormed(Placed(t, k, v))
    ensures !HasRoom(t, k) ==>
      && fuel > 0 && ReallocWithin(t, fuel - 1).Some? && WellFormed(ReallocWithin(t, fuel - 1).value)
      && AddWithin(t, k, v, fuel) == AddWithin(ReallocWithin(t, fuel - 1).value, k, v, fuel - 1)
  {
    hide Linked, Homed, Bag, Chain, Clean, Buckets, Demand, LiveKeys, ReallocWithin, HasRoom, Reached;
    if HasRoom(t, k) {
      AddRoom(t, k, v, fuel);
    } else {
      AddGrows(t, ReallocWithin(t, fuel - 1).value, k, v, fuel);
    }
  }
}
