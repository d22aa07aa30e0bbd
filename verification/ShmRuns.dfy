/** What every run of calls on the shared-memory table keeps, and the plain map that a table
    used through Find-then-Add behaves like. */
module ShmRuns {
  import opened Common
  import opened Chains
  import opened ShmTable
  import opened ShmGrowth
  import opened ShmSizes

  // ----- the remaining calls -----

  /** `Erase` frees the first slot of the chain holding the key and leaves the counter alone. */
  function Erase<T>(t: Table<T>, k: Key): (r: Table<T>)
    requires WellFormed(t)
  {
    match Find(t, k)
    case Some(s) => t.(keys := t.keys[s := 0])
    case None => t
  }

  /** `Delete` frees a slot and lowers the counter, live or not. */
  function Delete<T>(t: Table<T>, s: nat): (r: Table<T>)
    requires s < |t.keys|
  {
    t.(keys := t.keys[s := 0], totalSize := t.totalSize - 1)
  }

  function Clear<T>(t: Table<T>): (r: Table<T>)
    requires t.hashSize > 0
    ensures WellFormed(r) && Clean(r) && Contents(r) == multiset{} && r.totalSize == 0
    ensures r.hashSize == t.hashSize && r.dataSize == t.dataSize && r.zero == t.zero
  {
    Alloc(t.hashSize, t.hashSize + t.dataSize, t.zero)
  }

  lemma FreeSlot<T>(t: Table<T>, s: nat)
    requires WellFormed(t) && s < |t.keys|
    ensures WellFormed(t.(keys := t.keys[s := 0]))
    ensures Bag(t.keys[s := 0], t.vals) == Contents(t) - SlotBag(t.keys[s], t.vals[s])
    ensures t.keys[s] > 0 ==> (t.keys[s], t.vals[s]) in Contents(t)
  {
    Freed(t, s, t.totalSize);
    hide WellFormed, Bag;
    BagUpdate(t.keys, t.vals, s, 0, t.vals[s]);
    assert t.vals[s := t.vals[s]] == t.vals;
    assert Contents(t) - SlotBag(t.keys[s], t.vals[s]) + multiset{} == Contents(t) - SlotBag(t.keys[s], t.vals[s]);
  }

  // ----- every run keeps the table well formed -----

  datatype Op<T> = AddOp(key: nat, value: T) | EraseOp(key: nat) | DeleteOp(slot: nat) | ClearOp

  /** Keys are positive ints, a node handed to `Delete` is a node of the table, and an `Add` is one
      that ends. */
  ghost predicate Allowed<T>(t: Table<T>, op: Op<T>)
    requires WellFormed(t)
  {
    match op
    case AddOp(k, v) => 0 < k < KEY_LIMIT && Finishes(t, k, v)
    case EraseOp(k) => 0 < k < KEY_LIMIT
    case DeleteOp(s) => s < |t.keys|
    case ClearOp => true
  }

  ghost function Apply<T>(t: Table<T>, op: Op<T>): (r: Table<T>)
    requires WellFormed(t) && Allowed(t, op)
    ensures WellFormed(r)
  {
    hide Linked, Homed, Bag, Chain, Finishes, Add, Later;
    match op
    case AddOp(k, v) => Add(t, k, v)
    case EraseOp(k) => if Find(t, k).Some? then FreeSlot(t, Find(t, k).value); Erase(t, k) else t
    case DeleteOp(s) => Freed(t, s, t.totalSize - 1); Delete(t, s)
    case ClearOp => Clear(t)
  }

  /** How far the counter has drifted from the number of live entries: up by one for each
      successful `Erase`, down by one for each `Delete` of a free slot, and back to nothing
      whenever the table is cleared or rebuilt. */
  ghost function DriftAfter<T>(t: Table<T>, op: Op<T>, drift: int): int
    requires WellFormed(t) && Allowed(t, op)
  {
    match op
    case AddOp(k, v) => if HasRoom(t, k) then drift else 0
    case EraseOp(k) => if Find(t, k).Some? then drift + 1 else drift
    case DeleteOp(s) => if t.keys[s] > 0 then drift else drift - 1
    case ClearOp => 0
  }

  /** A run: the tables it passes through, one call apart. */
  ghost predicate IsRun<T>(ts: seq<Table<T>>, ops: seq<Op<T>>) {
    && |ts| == |ops| + 1
    && WellFormed(ts[0])
    && forall i :: 0 <= i < |ops| ==>
         WellFormed(ts[i]) && Allowed(ts[i], ops[i]) && ts[i + 1] == Apply(ts[i], ops[i])
  }

  ghost function Drift<T>(ts: seq<Table<T>>, ops: seq<Op<T>>, start: int): int
    requires IsRun(ts, ops)
  {
    if ops == [] then start
    else
      var n := |ops| - 1;
      assert IsRun(ts[..n + 1], ops[..n]);
      DriftAfter(ts[n], ops[n], Drift(ts[..n + 1], ops[..n], start))
  }

  lemma StepCounts<T>(t: Table<T>, op: Op<T>, drift: int)
    requires WellFormed(t) && Allowed(t, op) && t.totalSize == |Contents(t)| + drift
    ensures Apply(t, op).totalSize == |Contents(Apply(t, op))| + DriftAfter(t, op, drift)
  {
    hide WellFormed, Bag, HasRoom, Add, Finishes, Find, Reached;
    match op
    case AddOp(k, v) => AddCounts(t, k, v, drift);
    case EraseOp(k) =>
      if Find(t, k).Some? {
        FreeCounts(t, Find(t, k).value);
      }
    case DeleteOp(s) => FreeCounts(t, s);
    case ClearOp =>
  }

  /** What the calls do to the counter itself: one up for an entry put in place, one down for a deleted
      slot, nothing for an erased key, and zero after a clear. */
  lemma CounterMoves<T>(t: Table<T>, op: Op<T>)
    requires WellFormed(t) && Allowed(t, op)
    ensures Apply(t, op).totalSize ==
      match op
      case AddOp(k, v) => if HasRoom(t, k) then t.totalSize + 1 else |Contents(t)| + 1
      case EraseOp(_) => t.totalSize
      case DeleteOp(_) => t.totalSize - 1
      case ClearOp => 0
  {
    hide Linked, Homed, Bag, HasRoom, Add, Finishes, Placed;
    if op.AddOp? {
      AddCases(t, op.key, op.value);
      if HasRoom(t, op.key) {
        PlacedTotal(t, op.key, op.value);
      }
    }
  }

  lemma AddCounts<T>(t: Table<T>, k: Key, v: T, drift: int)
    requires WellFormed(t) && Finishes(t, k, v) && t.totalSize == |Contents(t)| + drift
    ensures WellFormed(Add(t, k, v))
    ensures Add(t, k, v).totalSize == |Contents(Add(t, k, v))| + if HasRoom(t, k) then drift else 0
  {
    hide Linked, Homed, Bag, HasRoom, Add, Finishes, Placed;
    AddCases(t, k, v);
    if HasRoom(t, k) {
      PlacedTotal(t, k, v);
    }
  }

  lemma FreeCounts<T>(t: Table<T>, s: nat)
    requires WellFormed(t) && s < |t.keys|
    ensures |t.keys| == |t.vals|
    ensures |Bag(t.keys[s := 0], t.vals)| == |Contents(t)| - if t.keys[s] > 0 then 1 else 0
  {
    hide Linked, Homed, Bag;
    FreeSlot(t, s);
    assert Contents(t) - multiset{} == Contents(t);
  }

  lemma PlacedTotal<T>(t: Table<T>, k: Key, v: T)
    requires WellFormed(t) && HasRoom(t, k)
    ensures Placed(t, k, v).totalSize == t.totalSize + 1
  {
  }

  /** The overflow slots each lie on exactly one bucket's chain. */
  ghost predicate OnOneChain<T>(t: Table<T>, s: nat)
    requires Shaped(t)
  {
    exists b: nat :: b < t.hashSize && s in Chain(t.next, b)
      && forall a: nat :: a < t.hashSize && s in Chain(t.next, a) ==> a == b
  }

  lemma SlotsPartitioned<T>(t: Table<T>, s: nat)
    requires WellFormed(t) && s < t.hashSize + t.usedSize
    ensures OnOneChain(t, s)
  {
    var b := ChainsCover(t.next, t.hashSize, t.usedSize, s);
    forall a: nat | a < t.hashSize && s in Chain(t.next, a) ensures a == b {
      ChainsDisjoint(t.next, t.hashSize, t.usedSize, a, b, s);
    }
  }

  /** Over every run: chains partition the used slots, and the counter exceeds the live
      entries by exactly the drift. */
  lemma {:induction false} RunsKeepTable<T>(ts: seq<Table<T>>, ops: seq<Op<T>>, start: int)
    requires IsRun(ts, ops) && ts[0].totalSize == |Contents(ts[0])| + start
    ensures WellFormed(ts[|ops|])
    ensures forall s: nat :: s < ts[|ops|].hashSize + ts[|ops|].usedSize ==> OnOneChain(ts[|ops|], s)
    ensures ts[|ops|].totalSize == |Contents(ts[|ops|])| + Drift(ts, ops, start)
  {
    RunsCount(ts, ops, start);
    var t := ts[|ops|];
    forall s: nat | s < t.hashSize + t.usedSize ensures OnOneChain(t, s) {
      SlotsPartitioned(t, s);
    }
  }

  lemma RunPrefix<T>(ts: seq<Table<T>>, ops: seq<Op<T>>)
    requires IsRun(ts, ops) && ops != []
    ensures IsRun(ts[..|ops|], ops[..|ops| - 1])
  {
    hide WellFormed, Apply, Allowed;
  }

  lemma {:induction false} RunsCount<T>(ts: seq<Table<T>>, ops: seq<Op<T>>, start: int)
    requires IsRun(ts, ops) && ts[0].totalSize == |Contents(ts[0])| + start
    ensures WellFormed(ts[|ops|])
    ensures ts[|ops|].totalSize == |Contents(ts[|ops|])| + Drift(ts, ops, start)
    decreases |ops|
  {
    var n := |ops|;
    if n > 0 {
      hide WellFormed, Bag, DriftAfter, Apply, Allowed;
      RunPrefix(ts, ops);
      RunsCount(ts[..n], ops[..n - 1], start);
      StepCounts(ts[n - 1], ops[n - 1], Drift(ts[..n], ops[..n - 1], start));
    }
  }

  // ----- Find-then-Add use behaves like a map -----

  /** Each binding of `m` occurs once and nothing else does. */
  ghost predicate Holds<T(!new)>(bag: multiset<(nat, T)>, m: map<nat, T>) {
    forall k: nat, v: T :: bag[(k, v)] == if k in m && m[k] == v then 1 else 0
  }

  /** The table holds each binding of `m` once and nothing else. */
  ghost predicate Refines<T(!new)>(t: Table<T>, m: map<nat, T>) {
    WellFormed(t) && Holds(Contents(t), m)
  }

  lemma FindAgrees<T(!new)>(t: Table<T>, m: map<nat, T>, k: Key)
    requires Refines(t, m)
    ensures Find(t, k).Some? <==> k in m
    ensures Find(t, k).Some? ==> t.vals[Find(t, k).value] == m[k]
  {
    match Find(t, k)
    case Some(s) =>
      BagUpdate(t.keys, t.vals, s, 0, t.vals[s]);
      assert Contents(t)[(k as nat, t.vals[s])] > 0;
    case None =>
      if k in m {
        assert Contents(t)[(k as nat, m[k])] == 1;
        var s := InBag(t.keys, t.vals, (k as nat, m[k]));
      }
  }

  /** A store adds only when the key is not there yet, and that `Add` has to end. */
  ghost predicate Storable<T>(t: Table<T>, k: Key, v: T)
    requires WellFormed(t)
  {
    Find(t, k).None? ==> Finishes(t, k, v)
  }

  /** What `set_shm` does to a table: overwrite in place, else add. */
  ghost function Store<T>(t: Table<T>, k: Key, v: T): (r: Table<T>)
    requires WellFormed(t) && Storable(t, k, v)
  {
    match Find(t, k)
    case Some(s) => t.(vals := t.vals[s := v])
    case None => Add(t, k, v)
  }

  /** A store changes the contents by exactly one binding. */
  lemma StoreContents<T>(t: Table<T>, k: Key, v: T)
    requires WellFormed(t) && Storable(t, k, v)
    ensures WellFormed(Store(t, k, v)) && Later(Sizes(t), Sizes(Store(t, k, v)))
    ensures match Find(t, k)
            case Some(s) =>
              Contents(Store(t, k, v)) == Contents(t) - multiset{(k as nat, t.vals[s])} + multiset{(k as nat, v)}
            case None => Contents(Store(t, k, v)) == Contents(t) + multiset{(k as nat, v)}
  {
    match Find(t, k)
    case Some(s) =>
      assert WellFormed(Store(t, k, v));
      hide Linked, Homed, Bag, SlotBag;
      BagUpdate(t.keys, t.vals, s, k, v);
      SlotBagOne(k, t.vals[s]);
      SlotBagOne(k, v);
      assert t.keys[s := k] == t.keys;
      LaterSame(Sizes(t));
    case None =>
      hide WellFormed, Bag, Finishes, Add, Later;
      assert Reached(t, k, v, Add(t, k, v));
  }

  lemma SlotBagOne<T>(k: nat, v: T)
    requires k > 0
    ensures SlotBag(k, v) == multiset{(k, v)}
  {
  }

  lemma HoldsUpdate<T(!new)>(bag: multiset<(nat, T)>, m: map<nat, T>, k: nat, v: T)
    requires Holds(bag, m)
    ensures k !in m ==> Holds(bag + multiset{(k, v)}, m[k := v])
    ensures k in m ==> Holds(bag - multiset{(k, m[k])} + multiset{(k, v)}, m[k := v])
  {
  }

  lemma StoreRefines<T(!new)>(t: Table<T>, m: map<nat, T>, k: Key, v: T)
    requires Refines(t, m) && Storable(t, k, v)
    ensures Refines(Store(t, k, v), m[k as nat := v])
  {
    FindAgrees(t, m, k);
    StoreContents(t, k, v);
    hide Linked, Homed, Bag;
    HoldsUpdate(Contents(t), m, k, v);
  }

  lemma HoldsWithout<T(!new)>(bag: multiset<(nat, T)>, m: map<nat, T>, k: nat)
    requires Holds(bag, m) && k in m
    ensures Holds(bag - multiset{(k, m[k])}, m - {k})
  {
  }

  /** Freeing the slot of a key takes that key out of the map. */
  lemma FreeRefines<T(!new)>(t: Table<T>, m: map<nat, T>, s: nat, total: int)
    requires Refines(t, m) && s < |t.keys| && t.keys[s] > 0
    ensures Refines(t.(keys := t.keys[s := 0], totalSize := total), m - {t.keys[s]})
  {
    hide Linked, Homed, Bag, Chain;
    FreeSlot(t, s);
    var k, v := t.keys[s], t.vals[s];
    InMap(Contents(t), m, k, v);
    hide Holds;
    HoldsWithout(Contents(t), m, k);
    var r := t.(keys := t.keys[s := 0], totalSize := total);
    Freed(t, s, total);
    assert Contents(r) == Contents(t) - multiset{(k, m[k])};
  }

  lemma InMap<T(!new)>(bag: multiset<(nat, T)>, m: map<nat, T>, k: nat, v: T)
    requires Holds(bag, m) && (k, v) in bag
    ensures k in m && m[k] == v
  {
    assert bag[(k, v)] > 0;
  }

  lemma Freed<T>(t: Table<T>, s: nat, total: int)
    requires WellFormed(t) && s < |t.keys|
    ensures WellFormed(t.(keys := t.keys[s := 0], totalSize := total))
  {
    hide Linked, Chain;
  }

  /** The calls of a user that looks a key up before adding it. */
  datatype Call<T> = StoreCall(key: nat, value: T) | EraseCall(key: nat) | DeleteCall(slot: nat) | ClearCall

  ghost predicate Callable<T>(t: Table<T>, c: Call<T>)
    requires WellFormed(t)
  {
    match c
    case StoreCall(k, v) => 0 < k < KEY_LIMIT && Storable(t, k, v)
    case EraseCall(k) => 0 < k < KEY_LIMIT
    case DeleteCall(s) => s < |t.keys|
    case ClearCall => true
  }

  ghost function Perform<T>(t: Table<T>, c: Call<T>): Table<T>
    requires WellFormed(t) && Callable(t, c)
  {
    match c
    case StoreCall(k, v) => Store(t, k, v)
    case EraseCall(k) => Erase(t, k)
    case DeleteCall(s) => Delete(t, s)
    case ClearCall => Clear(t)
  }

  /** What the call means for the map; a node handed to `Delete` stands for the key in it. */
  function Meaning<T>(t: Table<T>, m: map<nat, T>, c: Call<T>): map<nat, T> {
    match c
    case StoreCall(k, v) => m[k := v]
    case EraseCall(k) => m - {k}
    case DeleteCall(s) => if s < |t.keys| then m - {t.keys[s]} else m
    case ClearCall => map[]
  }

  lemma CallRefines<T(!new)>(t: Table<T>, m: map<nat, T>, c: Call<T>)
    requires Refines(t, m) && Callable(t, c)
    ensures Refines(Perform(t, c), Meaning(t, m, c))
  {
    hide WellFormed, Holds, Find, Refines, Bag, Storable;
    match c
    case StoreCall(k, v) => StoreRefines(t, m, k, v);
    case EraseCall(k) => EraseRefines(t, m, k);
    case DeleteCall(s) => DeleteRefines(t, m, s);
    case ClearCall => ClearRefines(t, m);
  }

  lemma EraseRefines<T(!new)>(t: Table<T>, m: map<nat, T>, k: Key)
    requires Refines(t, m)
    ensures Refines(Erase(t, k), m - {k as nat})
  {
    hide Linked, Homed, Bag, Holds, Chain, FindFrom;
    FindAgrees(t, m, k);
    if Find(t, k).Some? {
      FreeRefines(t, m, Find(t, k).value, t.totalSize);
    } else {
      assert m - {k as nat} == m;
    }
  }

  lemma DeleteRefines<T(!new)>(t: Table<T>, m: map<nat, T>, s: nat)
    requires Refines(t, m) && s < |t.keys|
    ensures Refines(Delete(t, s), m - {t.keys[s]})
  {
    hide Linked, Homed, Bag, Holds, Chain;
    if t.keys[s] > 0 {
      FreeRefines(t, m, s, t.totalSize - 1);
    } else {
      NoZeroKey(t, m);
      assert m - {0} == m;
      assert t.keys[s := 0] == t.keys;
      Freed(t, s, t.totalSize - 1);
    }
  }

  lemma ClearRefines<T(!new)>(t: Table<T>, m: map<nat, T>)
    requires Refines(t, m)
    ensures Refines(Clear(t), map[])
  {
    hide Linked, Homed, Bag, Holds, Chain;
    EmptyHolds<T>();
  }

  lemma NoZeroKey<T(!new)>(t: Table<T>, m: map<nat, T>)
    requires Refines(t, m)
    ensures 0 !in m
  {
    if 0 in m {
      assert Contents(t)[(0, m[0])] == 1;
      var s := InBag(t.keys, t.vals, (0, m[0]));
    }
  }

  lemma EmptyHolds<T(!new)>()
    ensures Holds<T>(multiset{}, map[])
  {
  }

  // ----- from five slots on every store ends -----

  /** A table that holds each key at most once. */
  ghost predicate OnceEach(keys: seq<nat>) {
    forall i, j :: 0 <= i < j < |keys| && keys[i] > 0 ==> keys[i] != keys[j]
  }

  lemma HoldsOnce<T(!new)>(bag: multiset<(nat, T)>, m: map<nat, T>, k: nat, v: T, v': T)
    requires Holds(bag, m)
    ensures !(bag >= multiset{(k, v), (k, v')})
  {
    assert bag[(k, v)] <= 1 && bag[(k, v')] <= 1;
    assert bag[(k, v)] == 1 && bag[(k, v')] == 1 ==> v == v';
    assert multiset{(k, v), (k, v')}[(k, v)] >= 1 && multiset{(k, v), (k, v')}[(k, v')] >= 1;
  }

  lemma RefinesOnce<T(!new)>(t: Table<T>, m: map<nat, T>)
    requires Refines(t, m)
    ensures OnceEach(t.keys)
  {
    hide Linked, Homed, Bag, Holds;
    forall i, j | 0 <= i < j < |t.keys| && t.keys[i] > 0
      ensures t.keys[i] != t.keys[j]
    {
      HoldsOnce(Contents(t), m, t.keys[i], t.vals[i], t.vals[j]);
      if t.keys[i] == t.keys[j] {
        TwoSlots(t.keys, t.vals, i, j);
      }
    }
  }

  lemma {:induction false} OnceNoRepeats(keys: seq<nat>, k: nat)
    requires OnceEach(keys) && (k > 0 ==> k !in keys)
    ensures k > 0 ==> Repeats(LiveKeys(keys) + multiset{k}) == 0
    ensures Repeats(LiveKeys(keys)) == 0
    decreases |keys|
  {
    hide LiveKeys, Repeats;
    NoKeysNoRepeats();
    if keys != [] {
      var n := |keys| - 1;
      OnceNoRepeats(keys[..n], keys[n]);
      assert keys == keys[..n] + [keys[n]];
      LiveSplit(keys[..n], [keys[n]]);
      LiveOne(keys[n]);
      assert keys[n] == 0 ==> LiveKeys(keys) == LiveKeys(keys[..n]) + multiset{} == LiveKeys(keys[..n]);
    }
    RepeatsAdds(LiveKeys(keys), k);
    if k > 0 {
      LiveIn(keys, k);
    }
  }

  lemma NoKeysNoRepeats()
    ensures LiveKeys([]) == multiset{} && Repeats(multiset{}) == 0
  {
    assert KeySet(multiset{}) == {};
  }

  lemma LiveIn(keys: seq<nat>, k: nat)
    requires k !in keys
    ensures k !in LiveKeys(keys)
  {
    assert k !in multiset(keys);
  }

  /** From five slots on, a table used through find-then-add takes every store. */
  lemma StoresEnd<T(!new)>(t: Table<T>, m: map<nat, T>, k: Key, v: T)
    requires Refines(t, m) && t.hashSize + t.dataSize >= 5
    ensures Storable(t, k, v)
  {
    if Find(t, k).None? {
      assert (k as nat) !in t.keys;
      hide Linked, Homed, Bag, Holds, Finishes, Repeats, LiveKeys, OnceEach, Find;
      RefinesOnce(t, m);
      OnceNoRepeats(t.keys, k);
      NewKeyFinishes(t, k, v);
    }
  }

  ghost predicate CallsFrom<T>(t: Table<T>, cs: seq<Call<T>>)
    decreases |cs|
  {
    cs == [] || (WellFormed(t) && Callable(t, cs[0]) && CallsFrom(Perform(t, cs[0]), cs[1..]))
  }

  ghost function TableAfter<T>(t: Table<T>, cs: seq<Call<T>>): Table<T>
    requires CallsFrom(t, cs)
    decreases |cs|
  {
    if cs == [] then t else TableAfter(Perform(t, cs[0]), cs[1..])
  }

  ghost function MapAfter<T>(t: Table<T>, m: map<nat, T>, cs: seq<Call<T>>): map<nat, T>
    requires CallsFrom(t, cs)
    decreases |cs|
  {
    if cs == [] then m else MapAfter(Perform(t, cs[0]), Meaning(t, m, cs[0]), cs[1..])
  }

  /** Through any stores, erasures, deletions, clearings and growths, `Find` answers as the map does. */
  lemma {:induction false} CallsAgreeWithMap<T(!new)>(t: Table<T>, m: map<nat, T>, cs: seq<Call<T>>, k: Key)
    requires Refines(t, m) && CallsFrom(t, cs)
    ensures Refines(TableAfter(t, cs), MapAfter(t, m, cs))
    ensures var r := TableAfter(t, cs); var m' := MapAfter(t, m, cs);
            if k in m' then Find(r, k).Some? && r.vals[Find(r, k).value] == m'[k] else Find(r, k).None?
    decreases |cs|
  {
    hide Linked, Homed, Bag, Holds, Callable, Perform, Meaning;
    if cs == [] {
      FindAgrees(t, m, k);
    } else {
      CallRefines(t, m, cs[0]);
      CallsAgreeWithMap(Perform(t, cs[0]), Meaning(t, m, cs[0]), cs[1..], k);
    }
  }

  // ----- iteration -----

  /** `Next`: the first live slot at or after the cursor, or none left. */
  function NextFrom<T>(t: Table<T>, pos: nat): (r: Option<nat>)
    requires Shaped(t)
    ensures r.Some? ==> pos <= r.value < t.hashSize + t.usedSize && t.keys[r.value] > 0
    ensures r.Some? ==> forall s :: pos <= s < r.value ==> t.keys[s] == 0
    ensures r.None? ==> forall s :: pos <= s < t.hashSize + t.usedSize ==> t.keys[s] == 0
    decreases |t.keys| - pos
  {
    if pos >= t.hashSize + t.usedSize then None
    else if t.keys[pos] > 0 then Some(pos)
    else NextFrom(t, pos + 1)
  }

  /** The entries `Next` yields from the cursor on until it reports the end. */
  function Remaining<T>(t: Table<T>, pos: nat): (es: seq<(nat, T)>)
    requires Shaped(t)
    decreases |t.keys| - pos
  {
    match NextFrom(t, pos)
    case Some(s) => [(t.keys[s], t.vals[s])] + Remaining(t, s + 1)
    case None => []
  }

  lemma {:induction false} RemainingSkip<T>(t: Table<T>, pos: nat)
    requires WellFormed(t) && pos < |t.keys|
    ensures Remaining(t, pos) == (if t.keys[pos] > 0 then [(t.keys[pos], t.vals[pos])] else []) + Remaining(t, pos + 1)
  {
    hide Linked, Chain;
    if t.keys[pos] == 0 && pos < t.hashSize + t.usedSize {
      assert NextFrom(t, pos) == NextFrom(t, pos + 1);
    }
  }

  /** Iteration yields each live entry exactly once, in slot order: what lies before the cursor
      followed by what `Next` still yields is all there is. */
  lemma {:induction false} IterationComplete<T>(t: Table<T>, pos: nat)
    requires WellFormed(t) && pos <= |t.keys|
    ensures EntriesTo(t, pos) + Remaining(t, pos) == Entries(t.keys, t.vals)
    decreases |t.keys| - pos
  {
    if pos < |t.keys| {
      hide Linked, Homed, Chain, EntriesTo, Remaining, Entries;
      IterationComplete(t, pos + 1);
      EntriesStep(t, pos);
      RemainingSkip(t, pos);
      var one := if t.keys[pos] > 0 then [(t.keys[pos], t.vals[pos])] else [];
      assert EntriesTo(t, pos) + one == EntriesTo(t, pos + 1);
      assert EntriesTo(t, pos) + (one + Remaining(t, pos + 1)) == EntriesTo(t, pos) + one + Remaining(t, pos + 1);
    } else {
      hide Linked, Homed, Chain, Entries;
      assert t.keys[..pos] == t.keys && t.vals[..pos] == t.vals;
    }
  }
}
