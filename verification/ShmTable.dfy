/** The shared-memory hash table of 3rdlib/TShmBuffer.h as a value: what each call does to the
    slots and counters, and what stays true of them over whole runs. */
module ShmTable {
  import opened Common
  import opened Chains

  const KEY_LIMIT: nat := 0x8000_0000

  type Key = k: nat | 0 < k < KEY_LIMIT witness 1

  /** SHM_HEAD and the slot array. `keys[s] == 0` marks slot `s` free. `zero` is the value
      whose bytes are all zero. */
  datatype Table<T> = Table(
    hashSize: nat, dataSize: nat, usedSize: nat, totalSize: int,
    keys: seq<nat>, vals: seq<T>, next: seq<nat>, zero: T)

  // ----- well-formedness -----

  ghost predicate Shaped<T>(t: Table<T>) {
    && 0 < t.hashSize && |t.keys| == |t.vals| == |t.next| == t.hashSize + t.dataSize
    && t.usedSize <= t.dataSize
    && Linked(t.next, t.hashSize, t.usedSize)
  }

  /** Every live slot holds a legal key and lies on the chain of that key's bucket. */
  ghost predicate Homed<T>(t: Table<T>)
    requires Shaped(t)
  {
    forall s :: 0 <= s < |t.keys| && t.keys[s] > 0 ==>
      t.keys[s] < KEY_LIMIT && s < t.hashSize + t.usedSize && s in Chain(t.next, t.keys[s] % t.hashSize)
  }

  ghost predicate WellFormed<T>(t: Table<T>) {
    Shaped(t) && Homed(t)
  }

  /** No used overflow slot has been freed. */
  ghost predicate Clean<T>(t: Table<T>)
    requires Shaped(t)
  {
    forall s :: t.hashSize <= s < t.hashSize + t.usedSize ==> t.keys[s] > 0
  }

  // ----- contents -----

  /** The live entries in slot order, which is the order `Next` and the rehash loop see them. */
  function Entries<T>(keys: seq<nat>, vals: seq<T>): (es: seq<(nat, T)>)
    requires |keys| == |vals|
    ensures |es| <= |keys|
    ensures forall i :: 0 <= i < |es| ==> es[i].0 > 0 && es[i].0 in keys
  {
    if |keys| == 0 then []
    else
      var n := |keys| - 1;
      Entries(keys[..n], vals[..n]) + (if keys[n] > 0 then [(keys[n], vals[n])] else [])
  }

  ghost function Bag<T>(keys: seq<nat>, vals: seq<T>): multiset<(nat, T)>
    requires |keys| == |vals|
  {
    if |keys| == 0 then multiset{}
    else
      var n := |keys| - 1;
      Bag(keys[..n], vals[..n]) + SlotBag(keys[n], vals[n])
  }

  lemma {:induction false} BagOfEntries<T>(keys: seq<nat>, vals: seq<T>)
    requires |keys| == |vals|
    ensures Bag(keys, vals) == multiset(Entries(keys, vals))
    ensures |Bag(keys, vals)| == |Entries(keys, vals)|
  {
    if |keys| > 0 {
      BagOfEntries(keys[..|keys| - 1], vals[..|keys| - 1]);
    }
  }

  ghost function Contents<T>(t: Table<T>): multiset<(nat, T)>
    requires |t.keys| == |t.vals|
  {
    Bag(t.keys, t.vals)
  }

  ghost function SlotBag<T>(k: nat, v: T): multiset<(nat, T)> {
    if k > 0 then multiset{(k, v)} else multiset{}
  }

  lemma BagSwap<E>(a: multiset<E>, o: multiset<E>, n: multiset<E>)
    ensures a + o - o + n == a + n && a + o >= o
  {
  }

  lemma BagShift<E>(a: multiset<E>, o: multiset<E>, n: multiset<E>, l: multiset<E>)
    requires a >= o
    ensures a - o + n + l == a + l - o + n && a + l >= o
  {
  }

  lemma BagSnoc<E>(a: multiset<E>, es: seq<E>)
    requires es != []
    ensures a + multiset(es[..|es| - 1]) + multiset{es[|es| - 1]} == a + multiset(es)
  {
    assert es == es[..|es| - 1] + [es[|es| - 1]];
  }

  lemma BagLast<T>(keys: seq<nat>, vals: seq<T>)
    requires 0 < |keys| == |vals|
    ensures var n := |keys| - 1; Bag(keys, vals) == Bag(keys[..n], vals[..n]) + SlotBag(keys[n], vals[n])
  {
  }

  /** Overwriting one slot exchanges that slot's contribution and nothing else. */
  lemma {:induction false} BagUpdate<T>(keys: seq<nat>, vals: seq<T>, s: nat, k: nat, v: T)
    requires s < |keys| == |vals|
    ensures Bag(keys, vals) >= SlotBag(keys[s], vals[s])
    ensures Bag(keys[s := k], vals[s := v]) == Bag(keys, vals) - SlotBag(keys[s], vals[s]) + SlotBag(k, v)
  {
    hide Bag, SlotBag;
    var n := |keys| - 1;
    var old', new' := SlotBag(keys[s], vals[s]), SlotBag(k, v);
    var a := Bag(keys[..n], vals[..n]);
    BagLast(keys, vals);
    BagLast(keys[s := k], vals[s := v]);
    if s == n {
      assert keys[s := k][..n] == keys[..n] && vals[s := v][..n] == vals[..n];
      BagSwap(a, old', new');
    } else {
      BagUpdate(keys[..n], vals[..n], s, k, v);
      assert keys[s := k][..n] == keys[..n][s := k] && vals[s := v][..n] == vals[..n][s := v];
      BagShift(a, old', new', SlotBag(keys[n], vals[n]));
    }
  }

  lemma {:induction false} BagZero<T>(keys: seq<nat>, vals: seq<T>)
    requires |keys| == |vals|
    requires forall s :: 0 <= s < |keys| ==> keys[s] == 0
    ensures Bag(keys, vals) == multiset{}
  {
    if |keys| > 0 {
      BagZero(keys[..|keys| - 1], vals[..|keys| - 1]);
    }
  }

  /** An entry is in the contents exactly when some live slot holds it. */
  lemma {:induction false} InBag<T>(keys: seq<nat>, vals: seq<T>, e: (nat, T)) returns (s: nat)
    requires |keys| == |vals|
    ensures e in Bag(keys, vals) ==> s < |keys| && keys[s] > 0 && (keys[s], vals[s]) == e
  {
    s := 0;
    if |keys| > 0 {
      var n := |keys| - 1;
      if keys[n] > 0 && (keys[n], vals[n]) == e {
        s := n;
      } else {
        s := InBag(keys[..n], vals[..n], e);
      }
    }
  }

  /** Two live slots give two entries, even when they hold the same key and value. */
  lemma TwoSlots<T>(keys: seq<nat>, vals: seq<T>, s: nat, s': nat)
    requires s < |keys| && s' < |keys| == |vals| && s != s' && keys[s] > 0 && keys[s'] > 0
    ensures Bag(keys, vals) >= multiset{(keys[s], vals[s]), (keys[s'], vals[s'])}
  {
    BagFree(keys, vals, s');
    BagFree(keys[s' := 0], vals, s);
    hide Bag;
    BagTwo(Bag(keys[s' := 0][s := 0], vals), (keys[s], vals[s]), (keys[s'], vals[s']));
  }

  /** A live slot contributes its entry on top of what is left when it is freed. */
  lemma BagFree<T>(keys: seq<nat>, vals: seq<T>, s: nat)
    requires s < |keys| == |vals| && keys[s] > 0
    ensures Bag(keys, vals) == Bag(keys[s := 0], vals) + multiset{(keys[s], vals[s])}
  {
    BagUpdate(keys[s := 0], vals, s, keys[s], vals[s]);
    assert keys[s := 0][s := keys[s]] == keys && vals[s := vals[s]] == vals;
  }

  lemma BagTwo<E>(a: multiset<E>, x: E, y: E)
    ensures a + multiset{x} + multiset{y} >= multiset{x, y}
  {
  }

  // ----- calls -----

  function Alloc<T>(nhash: nat, nrec: nat, zero: T): (t: Table<T>)
    requires nhash <= nrec
    ensures 0 < nhash ==> WellFormed(t) && Clean(t) && Contents(t) == multiset{}
    ensures t.hashSize == nhash && t.dataSize == nrec - nhash && t.totalSize == 0
  {
    var t := Table(nhash, nrec - nhash, 0, 0, seq(nrec, _ => 0), seq(nrec, _ => zero), seq(nrec, _ => 0), zero);
    BagZero(t.keys, t.vals);
    t
  }

  /** The chain walk of `Find` and `Erase`. */
  function FindFrom<T>(t: Table<T>, s: nat, k: nat): (r: Option<nat>)
    requires Shaped(t) && s < |t.keys|
    ensures r.Some? ==> r.value in Chain(t.next, s) && r.value < |t.keys| && t.keys[r.value] == k
    ensures r.None? ==> forall i :: i in Chain(t.next, s) ==> t.keys[i] != k
    decreases |t.keys| - s
  {
    if t.keys[s] == k then Some(s)
    else if t.next[s] == 0 then None
    else FindFrom(t, t.next[s], k)
  }

  function Find<T>(t: Table<T>, k: Key): (r: Option<nat>)
    requires WellFormed(t)
    ensures r.Some? ==> r.value < |t.keys| && t.keys[r.value] == k
    ensures r.None? <==> forall s :: 0 <= s < |t.keys| ==> t.keys[s] != k
  {
    FindFrom(t, k % t.hashSize, k)
  }

  /** Where the walk of `Add` stops: the first free slot of the chain, or else its last slot. */
  function Landing<T>(t: Table<T>, s: nat): (r: nat)
    requires Shaped(t) && s < |t.keys|
    ensures r in Chain(t.next, s) && r < |t.keys|
    ensures t.keys[r] == 0 || t.next[r] == 0
    ensures t.keys[r] > 0 ==> forall i :: i in Chain(t.next, s) ==> t.keys[i] > 0
    decreases |t.keys| - s
  {
    if t.keys[s] == 0 || t.next[s] == 0 then s else Landing(t, t.next[s])
  }

  /** Slots on a chain come in slot order: of several entries of a key the first on the chain is found,
      and the walk of `Add` stops no later than the first free slot. */
  lemma {:induction false} FirstFound<T>(t: Table<T>, s: nat, k: Key, i: nat)
    requires Shaped(t) && s < |t.keys| && i in Chain(t.next, s)
    ensures FindFrom(t, s, k).Some? && i < FindFrom(t, s, k).value ==> t.keys[i] != k
    ensures i < Landing(t, s) ==> t.keys[i] > 0
    decreases |t.keys| - s
  {
    if i != s {
      FirstFound(t, t.next[s], k, i);
    }
  }

  function Put<T>(t: Table<T>, s: nat, k: Key, v: T): Table<T>
    requires s < |t.keys| == |t.vals|
  {
    t.(keys := t.keys[s := k], vals := t.vals[s := v], totalSize := t.totalSize + 1)
  }

  function LinkNew<T>(t: Table<T>, last: nat): Table<T>
    requires last < |t.next|
  {
    t.(next := t.next[last := t.hashSize + t.usedSize], usedSize := t.usedSize + 1)
  }

  lemma PutKeeps<T>(t: Table<T>, s: nat, k: Key, v: T)
    requires WellFormed(t) && s in Chain(t.next, k % t.hashSize) && s < |t.keys| && t.keys[s] == 0
    ensures WellFormed(Put(t, s, k, v))
    ensures Contents(Put(t, s, k, v)) == Contents(t) + multiset{(k, v)}
    ensures (forall i :: t.hashSize <= i < t.hashSize + t.usedSize && i != s ==> t.keys[i] > 0) ==>
            Clean(Put(t, s, k, v))
  {
    PutHomes(t, s, k, v);
    hide Linked, Homed, Chain;
    PutBag(t.keys, t.vals, s, k, v);
  }

  lemma PutHomes<T>(t: Table<T>, s: nat, k: Key, v: T)
    requires WellFormed(t) && s in Chain(t.next, k % t.hashSize) && s < |t.keys| && t.keys[s] == 0
    ensures WellFormed(Put(t, s, k, v))
  {
    InUsed(t.next, t.hashSize, t.usedSize, k % t.hashSize, s);
    hide Linked, Chain;
  }

  lemma PutBag<T>(keys: seq<nat>, vals: seq<T>, s: nat, k: Key, v: T)
    requires s < |keys| == |vals| && keys[s] == 0
    ensures Bag(keys[s := k], vals[s := v]) == Bag(keys, vals) + multiset{(k, v)}
  {
    BagUpdate(keys, vals, s, k, v);
    assert Bag(keys, vals) - multiset{} == Bag(keys, vals);
  }

  lemma AppendHomes<T>(t: Table<T>, last: nat, b: nat)
    requires WellFormed(t) && t.usedSize < t.dataSize && b < t.hashSize
    requires last in Chain(t.next, b) && last < |t.next| && t.next[last] == 0
    ensures WellFormed(LinkNew(t, last))
    ensures t.hashSize + t.usedSize in Chain(LinkNew(t, last).next, b)
  {
    hide Linked, Chain;
    var j, r := t.hashSize + t.usedSize, LinkNew(t, last);
    AppendLink(t.next, t.hashSize, t.usedSize, b, last);
    assert Chain(r.next, b)[|Chain(t.next, b)|] == j;
    forall s | 0 <= s < |r.keys| && r.keys[s] > 0
      ensures s < r.hashSize + r.usedSize && s in Chain(r.next, r.keys[s] % r.hashSize)
    {
      assert s in Chain(t.next, t.keys[s] % t.hashSize);
    }
  }

  /** Linking the next overflow slot behind a full chain and filling it. */
  lemma AppendKeeps<T>(t: Table<T>, last: nat, k: Key, v: T)
    requires WellFormed(t) && t.usedSize < t.dataSize
    requires last in Chain(t.next, k % t.hashSize) && last < |t.next| && t.next[last] == 0
    ensures var r := Put(LinkNew(t, last), t.hashSize + t.usedSize, k, v);
            && WellFormed(r)
            && Contents(r) == Contents(t) + multiset{(k, v)}
            && (Clean(t) ==> Clean(r))
  {
    var j, b := t.hashSize + t.usedSize, k % t.hashSize;
    var t1 := LinkNew(t, last);
    AppendHomes(t, last, b);
    hide Linked, Chain, Bag;
    assert t.keys[j] == 0;
    hide Homed;
    PutKeeps(t1, j, k, v);
  }

  // ----- growth -----

  /** The sizes `Realloc` asks `Alloc` for. */
  function GrownHash(hashSize: nat): nat { hashSize * 12 / 10 }
  function GrownTotal(hashSize: nat, dataSize: nat): nat { (hashSize + dataSize) * 12 / 10 }
  function GrownData(hashSize: nat, dataSize: nat): (r: nat)
    ensures r >= dataSize
  {
    GrownTotal(hashSize, dataSize) - GrownHash(hashSize)
  }

  lemma TwelveTenths(x: nat)
    ensures x * 12 / 10 == x + x / 5
  {
  }

  /** One growth step enlarges the overflow area exactly when this much room is there already. */
  lemma GrowthExact(hashSize: nat, dataSize: nat)
    ensures GrownData(hashSize, dataSize) > dataSize <==> hashSize % 5 + dataSize >= 5
    ensures dataSize >= 5 ==> GrownData(hashSize, dataSize) > dataSize
    ensures hashSize > 0 ==> GrownHash(hashSize) > 0
  {
    TwelveTenths(hashSize);
    TwelveTenths(hashSize + dataSize);
  }

  lemma StuckStep(hashSize: nat, dataSize: nat)
    requires dataSize == 0 || hashSize + dataSize < 5
    ensures GrownData(hashSize, dataSize) == dataSize
    ensures dataSize == 0 || GrownHash(hashSize) + dataSize < 5
  {
    TwelveTenths(hashSize);
    TwelveTenths(hashSize + dataSize);
  }

  /** A table this small, or with no overflow area, never gets an overflow slot more however
      often it grows. */
  lemma {:induction false} GrowthStuck(hashSize: nat, dataSize: nat, steps: nat)
    requires dataSize == 0 || hashSize + dataSize < 5
    ensures GrownManyTimes(hashSize, dataSize, steps).1 == dataSize
    decreases steps
  {
    GrownStep(hashSize, dataSize, steps);
    hide GrownManyTimes, GrownHash, GrownTotal, GrownData;
    if steps > 0 {
      StuckStep(hashSize, dataSize);
      GrowthStuck(GrownHash(hashSize), dataSize, steps - 1);
    }
  }

  /** The sizes after some steps, from those after the first. */
  lemma GrownStep(hashSize: nat, dataSize: nat, steps: nat)
    ensures GrownManyTimes(hashSize, dataSize, steps) ==
            if steps == 0 then (hashSize, dataSize)
            else GrownManyTimes(GrownHash(hashSize), GrownData(hashSize, dataSize), steps - 1)
  {
    hide GrownHash, GrownTotal, GrownData;
  }

  function GrownManyTimes(hashSize: nat, dataSize: nat, steps: nat): (nat, nat)
    decreases steps
  {
    if steps == 0 then (hashSize, dataSize)
    else GrownManyTimes(GrownHash(hashSize), GrownData(hashSize, dataSize), steps - 1)
  }

  ghost predicate LegalEntries<T>(es: seq<(nat, T)>) {
    forall i :: 0 <= i < |es| ==> 0 < es[i].0 < KEY_LIMIT
  }

  lemma EntriesLegal<T>(t: Table<T>)
    requires WellFormed(t)
    ensures LegalEntries(Entries(t.keys, t.vals))
    ensures multiset(Entries(t.keys, t.vals)) == Contents(t)
    ensures |Entries(t.keys, t.vals)| == |Contents(t)|
  {
    BagOfEntries(t.keys, t.vals);
    forall i | 0 <= i < |Entries(t.keys, t.vals)| ensures 0 < Entries(t.keys, t.vals)[i].0 < KEY_LIMIT {
      var s := InBag(t.keys, t.vals, Entries(t.keys, t.vals)[i]);
    }
  }

  lemma LegalInit<T>(es: seq<(nat, T)>)
    requires LegalEntries(es) && es != []
    ensures LegalEntries(es[..|es| - 1]) && 0 < es[|es| - 1].0 < KEY_LIMIT
  {
  }

  // ----- one turn of the rehash loop -----

  /** The live entries among the first `p` slots. */
  function EntriesTo<T>(t: Table<T>, p: nat): seq<(nat, T)>
    requires p <= |t.keys| == |t.vals|
  {
    Entries(t.keys[..p], t.vals[..p])
  }

  lemma EntriesStep<T>(t: Table<T>, p: nat)
    requires p < |t.keys| == |t.vals|
    ensures t.keys[p] > 0 ==> EntriesTo(t, p + 1) == EntriesTo(t, p) + [(t.keys[p], t.vals[p])]
    ensures t.keys[p] == 0 ==> EntriesTo(t, p + 1) == EntriesTo(t, p)
  {
    assert t.keys[..p + 1][..p] == t.keys[..p] && t.vals[..p + 1][..p] == t.vals[..p];
  }

  lemma {:induction false} EntriesPrefix<T>(t: Table<T>, p: nat)
    requires p <= |t.keys| == |t.vals|
    ensures EntriesTo(t, p) <= Entries(t.keys, t.vals)
    decreases |t.keys| - p
  {
    if p < |t.keys| {
      EntriesStep(t, p);
      EntriesPrefix(t, p + 1);
    } else {
      assert t.keys[..p] == t.keys && t.vals[..p] == t.vals;
    }
  }

  lemma EntriesAt<T>(t: Table<T>, p: nat)
    requires WellFormed(t) && p < |t.keys| && t.keys[p] > 0
    ensures LegalEntries(EntriesTo(t, p)) && LegalEntries(EntriesTo(t, p + 1)) && t.keys[p] < KEY_LIMIT
    ensures EntriesTo(t, p + 1) == EntriesTo(t, p) + [(t.keys[p], t.vals[p])]
    ensures |EntriesTo(t, p)| < |Contents(t)|
  {
    EntriesLegal(t);
    EntriesPrefix(t, p);
    EntriesPrefix(t, p + 1);
    EntriesStep(t, p);
  }
}
