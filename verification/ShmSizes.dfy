/** Which tables can always take another entry: the exact condition of ShmGrowth, size by size. */
module ShmSizes {
  import opened Common
  import opened Chains
  import opened ShmTable
  import opened ShmGrowth

  // ----- counting demand -----

  lemma {:induction false} LiveHeads(keys: seq<nat>, n: nat)
    requires n <= |keys|
    ensures |LiveKeys(keys[..n])| == |InUseBelow(keys, n)|
    decreases n
  {
    if n == 0 {
      assert keys[..0] == [];
    } else {
      hide LiveKeys, InUseBelow;
      LiveHeads(keys, n - 1);
      assert keys[..n] == keys[..n - 1] + [keys[n - 1]];
      LiveSplit(keys[..n - 1], [keys[n - 1]]);
      LiveOne(keys[n - 1]);
      InUseStep(keys, n);
    }
  }

  function InUseBelow(keys: seq<nat>, n: nat): set<nat>
    requires n <= |keys|
  {
    set b: nat | b < n && keys[b] > 0
  }

  lemma InUseStep(keys: seq<nat>, n: nat)
    requires 0 < n <= |keys|
    ensures |InUseBelow(keys, n)| == |InUseBelow(keys, n - 1)| + if keys[n - 1] > 0 then 1 else 0
  {
    var s, t := InUseBelow(keys, n - 1), InUseBelow(keys, n);
    if keys[n - 1] > 0 {
      assert t == s + {n - 1};
    } else {
      assert t == s;
    }
  }

  lemma LiveAtMost(keys: seq<nat>)
    ensures |LiveKeys(keys)| <= |keys|
  {
    assert multiset(keys) == LiveKeys(keys) + multiset{}[0 := multiset(keys)[0]];
    assert |multiset(keys)| == |keys|;
  }

  /** A live head holds a key of its own bucket. */
  lemma HeadAtHome<T>(t: Table<T>, b: nat)
    requires WellFormed(t) && b < t.hashSize && t.keys[b] > 0
    ensures b in Buckets(LiveKeys(t.keys), t.hashSize)
  {
    var k := t.keys[b];
    assert Chain(t.next, b)[0] == b;
    ChainsDisjoint(t.next, t.hashSize, t.usedSize, k % t.hashSize, b, b);
    assert k in LiveKeys(t.keys);
  }

  /** The used overflow slots cover what the keys demand, freed slots or not. */
  lemma DemandCovered<T>(t: Table<T>)
    requires WellFormed(t)
    ensures Demand(LiveKeys(t.keys), t.hashSize) <= t.usedSize
  {
    hide Linked, Homed, Chain, LiveKeys, Buckets;
    var h, u, keys := t.hashSize, t.usedSize, t.keys;
    var heads := InUseBelow(keys, h);
    forall b | b in heads
      ensures b in Buckets(LiveKeys(keys), h)
    {
      HeadAtHome(t, b);
    }
    SubsetSize(heads, Buckets(LiveKeys(keys), h));
    LiveHeads(keys, h);
    LiveParts(keys, h, u);
    LiveAtMost(keys[h..h + u]);
    NoneBeyond(t);
  }

  lemma LiveParts(keys: seq<nat>, h: nat, u: nat)
    requires h + u <= |keys|
    ensures |LiveKeys(keys)|
         == |LiveKeys(keys[..h])| + |LiveKeys(keys[h..h + u])| + |LiveKeys(keys[h + u..])|
  {
    hide LiveKeys;
    assert keys == keys[..h] + keys[h..h + u] + keys[h + u..];
    LiveSplit(keys[..h], keys[h..h + u]);
    LiveSplit(keys[..h] + keys[h..h + u], keys[h + u..]);
  }

  lemma NoneBeyond<T>(t: Table<T>)
    requires WellFormed(t)
    ensures LiveKeys(t.keys[t.hashSize + t.usedSize..]) == multiset{}
  {
    hide Linked, Chain;
    var rest := t.keys[t.hashSize + t.usedSize..];
    forall i | 0 <= i < |rest|
      ensures rest[i] == 0
    {
      assert rest[i] == t.keys[t.hashSize + t.usedSize + i];
    }
    LiveZeros(rest);
  }

  lemma LiveZeros(keys: seq<nat>)
    requires forall i :: 0 <= i < |keys| ==> keys[i] == 0
    ensures LiveKeys(keys) == multiset{}
  {
    forall x
      ensures x !in LiveKeys(keys)
    {
      assert x in multiset(keys) ==> x in keys;
    }
  }

  function KeySet(ks: multiset<nat>): set<nat> {
    set k | k in ks
  }

  /** How many occurrences repeat a key. */
  function Repeats(ks: multiset<nat>): int {
    |ks| - |KeySet(ks)|
  }

  lemma {:induction false} DemandBetween(ks: multiset<nat>, heads: nat)
    requires heads > 0
    ensures 0 <= Repeats(ks) <= Demand(ks, heads) <= |ks|
    decreases |ks|
  {
    if ks == multiset{} {
      assert Buckets(ks, heads) == {} && KeySet(ks) == {};
    } else {
      var k :| k in ks;
      var less := ks - multiset{k};
      assert ks == less + multiset{k};
      DemandBetween(less, heads);
      DemandAdds(less, k, heads);
      RepeatsAdds(less, k);
      if k in less {
        assert k % heads in Buckets(less, heads);
      }
    }
  }

  lemma RepeatsAdds(ks: multiset<nat>, k: nat)
    ensures Repeats(ks + multiset{k}) == Repeats(ks) + if k in ks then 1 else 0
  {
    var a, b := KeySet(ks + multiset{k}), KeySet(ks);
    assert a == b + {k};
    if k in ks {
      assert a == b;
    }
  }

  /** With a head for every key only repeated keys collide. */
  lemma ManyHeads(ks: multiset<nat>, heads: nat)
    requires heads > 0 && forall k :: k in ks ==> k < heads
    ensures Demand(ks, heads) == Repeats(ks)
  {
    var a, b := Buckets(ks, heads), KeySet(ks);
    forall x
      ensures x in a <==> x in b
    {
      if x in b {
        assert x % heads == x;
      }
    }
    assert a == b;
  }

  // ----- size by size -----

  /** Below five slots in all, growing leaves both sizes as they are. */
  lemma {:induction false} SmallFixed(h: nat, d: nat, n: nat)
    requires h + d < 5
    ensures Grown((h, d), n) == (h, d)
    decreases n
  {
    if n > 0 {
      TwelveTenths(h);
      TwelveTenths(h + d);
      SmallFixed(h, d, n - 1);
    }
  }

  /**
   * Below five slots, one growth rebuilds the same keys in a table of the same sizes, and that
   * table is full for the new key again exactly when the keys demand more than the overflow area.
   */
  lemma SmallRehash<T>(t: Table<T>, k: Key) returns (g: Table<T>)
    requires WellFormed(t) && t.hashSize + t.dataSize < 5
    ensures ReallocWithin(t, 0) == Some(g) && WellFormed(g)
    ensures Sizes(g) == Sizes(t) && LiveKeys(g.keys) == LiveKeys(t.keys) && Contents(g) == Contents(t)
    ensures HasRoom(g, k) <==> Demand(LiveKeys(t.keys) + multiset{k}, t.hashSize) <= t.dataSize
  {
    hide Linked, Homed, Bag, Chain, Clean, Buckets, Demand, LiveKeys, HasRoom, Later, ReallocWithin, Grown;
    DemandCovered(t);
    SmallFixed(t.hashSize, t.dataSize, 1);
    var m;
    g, m := ReallocFits(t, 1, 0);
    assert Regrown(t, g);
    TightAdd(g, k, t.zero);
  }

  /** So below five slots `Add` ends exactly when there is room, or there would be without freed slots. */
  lemma SmallFinishesExactly<T>(t: Table<T>, k: Key, v: T)
    requires WellFormed(t) && t.hashSize + t.dataSize < 5
    ensures Finishes(t, k, v) <==>
            HasRoom(t, k) || Demand(LiveKeys(t.keys) + multiset{k}, t.hashSize) <= t.dataSize
  {
    hide Linked, Homed, Bag, Chain, Clean, Buckets, Demand, LiveKeys, HasRoom, Finishes, Grown;
    var ks := LiveKeys(t.keys) + multiset{k};
    FinishesExactly(t, k, v);
    SmallFixed(t.hashSize, t.dataSize, 1);
    if FitsLater(ks, Sizes(t)) {
      var n: nat :| n > 0 && Fits(ks, Grown(Sizes(t), n));
      SmallFixed(t.hashSize, t.dataSize, n);
    } else {
      assert !Fits(ks, Grown(Sizes(t), 1));
    }
  }

  /** From these sizes on, every growth adds an overflow slot. */
  predicate Expanding(h: nat, d: nat) {
    d >= 5 || (0 < h < 5 <= h + d)
  }

  lemma {:induction false} DataGrows(h: nat, d: nat, n: nat)
    requires Expanding(h, d)
    ensures Grown((h, d), n).1 >= d + n && (h > 0 ==> Grown((h, d), n).0 > 0)
    decreases n
  {
    if n > 0 {
      GrowthExact(h, d);
      TwelveTenths(h);
      DataGrows(GrownHash(h), GrownData(h, d), n - 1);
    }
  }

  /** With five overflow slots, or with fewer than five heads but five slots, `Add` always ends, with
      no more nested growths than there are entries to hold. */
  lemma ExpandingFinishes<T>(t: Table<T>, k: Key, v: T)
    requires WellFormed(t) && Expanding(t.hashSize, t.dataSize)
    ensures AddWithin(t, k, v, |LiveKeys(t.keys)| + 1).Some? && Finishes(t, k, v)
  {
    hide Linked, Homed, Bag, Chain, Clean, Buckets, LiveKeys, HasRoom, Grown, Demand, AddWithin, Reached;
    var ks := LiveKeys(t.keys) + multiset{k};
    var n := |ks|;
    DataGrows(t.hashSize, t.dataSize, n);
    DemandBetween(ks, Grown(Sizes(t), n).0);
    assert Fits(ks, Grown(Sizes(t), n));
    if HasRoom(t, k) {
      AddRoom(t, k, v, n);
    } else {
      GrowthSuffices(t, k, v, n);
    }
  }

  lemma {:induction false} HeadsGrow(h: nat, d: nat, n: nat)
    requires h >= 5
    ensures Grown((h, d), n).0 >= h + n && Grown((h, d), n).1 >= d
    decreases n
  {
    if n > 0 {
      TwelveTenths(h);
      HeadsGrow(GrownHash(h), GrownData(h, d), n - 1);
    }
  }

  /** The overflow area gets this large at some growth step. */
  ghost predicate AreaReaches(sizes: (nat, nat), need: int) {
    exists n: nat :: Grown(sizes, n).1 >= need
  }

  /** From five heads on, `Add` ends exactly when there is room or the overflow area comes to hold the
      repetitions of keys: as the heads grow, only repetitions still collide. */
  lemma HeadsFinishExactly<T>(t: Table<T>, k: Key, v: T)
    requires WellFormed(t) && t.hashSize >= 5
    ensures Finishes(t, k, v) <==>
            HasRoom(t, k) || AreaReaches(Sizes(t), Repeats(LiveKeys(t.keys) + multiset{k}))
  {
    hide Linked, Homed, Bag, Chain, Clean, Buckets, HasRoom, Finishes, Grown, Demand, Repeats, LiveKeys;
    var ks := LiveKeys(t.keys) + multiset{k};
    FinishesExactly(t, k, v);
    if FitsLater(ks, Sizes(t)) {
      var n: nat :| n > 0 && Fits(ks, Grown(Sizes(t), n));
      DemandBetween(ks, Grown(Sizes(t), n).0);
    }
    if AreaReaches(Sizes(t), Repeats(ks)) {
      var n: nat :| Grown(Sizes(t), n).1 >= Repeats(ks);
      HeadsGrow(t.hashSize, t.dataSize, n);
      var h := Grown(Sizes(t), n);
      HeadsGrow(h.0, h.1, KEY_LIMIT);
      GrownTwice(Sizes(t), n, KEY_LIMIT);
      KeysLegal(t);
      ManyHeads(ks, Grown(h, KEY_LIMIT).0);
      assert Fits(ks, Grown(Sizes(t), n + KEY_LIMIT));
    }
  }

  lemma KeysLegal<T>(t: Table<T>)
    requires WellFormed(t)
    ensures forall k :: k in LiveKeys(t.keys) ==> 0 < k < KEY_LIMIT
  {
    hide Linked, Chain;
    forall k | k in LiveKeys(t.keys)
      ensures 0 < k < KEY_LIMIT
    {
      assert k in multiset(t.keys);
      var s :| 0 <= s < |t.keys| && t.keys[s] == k;
    }
  }

  /** A key that is not in the table yet, into a table that holds each key once. */
  lemma NewKeyFinishes<T>(t: Table<T>, k: Key, v: T)
    requires WellFormed(t) && t.hashSize + t.dataSize >= 5
    requires Repeats(LiveKeys(t.keys) + multiset{k}) == 0
    ensures Finishes(t, k, v)
  {
    hide Linked, Homed, Bag, Chain, Clean, HasRoom, Finishes, Grown, Repeats, LiveKeys;
    if t.hashSize >= 5 {
      HeadsFinishExactly(t, k, v);
      GrownNone(Sizes(t));
      assert Grown(Sizes(t), 0).1 >= 0;
    } else {
      ExpandingFinishes(t, k, v);
    }
  }

  function Pow5(k: nat): nat { if k == 0 then 1 else 5 * Pow5(k - 1) }

  lemma {:induction false} FactorFive(h: nat) returns (m: nat, k: nat)
    requires h > 0
    ensures h == m * Pow5(k) && m % 5 != 0
  {
    if h % 5 != 0 {
      m, k := h, 0;
    } else {
      m, k := FactorFive(h / 5);
      assert h == 5 * (m * Pow5(k)) == m * (5 * Pow5(k));
      k := k + 1;
    }
  }

  /** Growing a multiple of five heads lowers its power of five; with four overflow slots the first
      other number of heads gives a fifth one. */
  lemma {:induction false} FourGrow(m: nat, k: nat)
    requires m % 5 != 0
    ensures m * Pow5(k) > 0 && Grown((m * Pow5(k), 4), k + 1).1 >= 5 && Grown((m * Pow5(k), 4), k + 1).0 > 0
    decreases k
  {
    var h := m * Pow5(k);
    if k == 0 {
      assert h == m;
      GrowthExact(h, 4);
      GrownOnce(h, 4);
    } else {
      var q := m * Pow5(k - 1);
      assert h == 5 * q by {
        assert m * (5 * Pow5(k - 1)) == 5 * (m * Pow5(k - 1));
      }
      assert 6 * m * Pow5(k - 1) == 6 * q;
      SixFifths(q);
      assert (6 * m) % 5 != 0;
      FourGrow(6 * m, k - 1);
      GrownTwice((h, 4), 1, k);
    }
  }

  lemma SixFifths(q: nat)
    ensures q > 0 ==> Grown((5 * q, 4), 1) == (6 * q, 4)
  {
    if q > 0 {
      GrownOnce(5 * q, 4);
      TwelveTenths(5 * q);
      TwelveTenths(5 * q + 4);
    }
  }

  /** With four overflow slots `Add` always ends. */
  lemma FourFinishes<T>(t: Table<T>, k: Key, v: T)
    requires WellFormed(t) && t.dataSize == 4
    ensures Finishes(t, k, v)
  {
    hide Linked, Homed, Bag, Chain, Clean, Buckets, LiveKeys, HasRoom, Finishes, Grown, Demand, Pow5;
    var ks := LiveKeys(t.keys) + multiset{k};
    var m, j := FactorFive(t.hashSize);
    FourGrow(m, j);
    var g := Grown(Sizes(t), j + 1);
    DataGrows(g.0, g.1, |ks|);
    GrownTwice(Sizes(t), j + 1, |ks|);
    DemandBetween(ks, Grown(g, |ks|).0);
    assert Fits(ks, Grown(Sizes(t), j + 1 + |ks|));
    FinishesExactly(t, k, v);
  }

  lemma {:induction false} NoOverflowEver(h: nat, n: nat)
    ensures Grown((h, 0), n).1 == 0
    decreases n
  {
    GrowthStuck(h, 0, n);
  }

  /** Without an overflow area and from five heads on, exactly repeated keys keep `Add` from ending. */
  lemma NoOverflowExactly<T>(t: Table<T>, k: Key, v: T)
    requires WellFormed(t) && t.dataSize == 0 && t.hashSize >= 5
    ensures Finishes(t, k, v) <==> HasRoom(t, k) || Repeats(LiveKeys(t.keys) + multiset{k}) == 0
  {
    hide Linked, Homed, Bag, Chain, Clean, Buckets, HasRoom, Finishes, Grown, Demand, Repeats, LiveKeys;
    var ks := LiveKeys(t.keys) + multiset{k};
    HeadsFinishExactly(t, k, v);
    DemandBetween(ks, t.hashSize);
    if Repeats(ks) == 0 {
      NewKeyFinishes(t, k, v);
    } else if AreaReaches(Sizes(t), Repeats(ks)) {
      var n: nat :| Grown(Sizes(t), n).1 >= Repeats(ks);
      NoOverflowEver(t.hashSize, n);
    }
  }

  /** One head, no overflow area, one live key: a second `Add` never ends. */
  lemma OneHeadStuck<T>(j: Key, k: Key, v: T, w: T, zero: T, fuel: nat)
    ensures WellFormed(Put(Alloc(1, 1, zero), 0, j, v))
    ensures AddWithin(Put(Alloc(1, 1, zero), 0, j, v), k, w, fuel).None?
  {
    hide Linked, Homed, Bag, Chain, Buckets, LiveKeys, Demand, AddWithin, Alloc, Landing, Put;
    var t := Put(Alloc(1, 1, zero), 0, j, v);
    OneHead(j, v, zero);
    OneBucket(LiveKeys(t.keys) + multiset{k});
    SmallFinishesExactly(t, k, w);
    assert k % 1 == 0;
  }

  lemma OneHead<T>(j: Key, v: T, zero: T)
    ensures var t := Put(Alloc(1, 1, zero), 0, j, v);
      && WellFormed(t) && Sizes(t) == (1, 0) && t.keys == [j] && t.usedSize == 0
      && LiveKeys(t.keys) == multiset{j} && Landing(t, 0) == 0
  {
    var e := Alloc(1, 1, zero);
    assert Chain(e.next, 0)[0] == 0 && j % 1 == 0;
    PutKeeps(e, 0, j, v);
    var t := Put(e, 0, j, v);
    assert t.keys == [j] && t.next == [0];
    assert LiveKeys([j]) == multiset{j};
  }

  lemma OneBucket(ks: multiset<nat>)
    requires ks != multiset{}
    ensures Demand(ks, 1) == |ks| - 1
  {
    var k :| k in ks;
    assert k % 1 == 0;
    assert Buckets(ks, 1) == {0};
  }
}
