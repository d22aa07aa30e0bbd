/** TShmBuffer<T> in its own form: a slot array and header counters changed in place. Every
    method is proved to do to the abstract table what ShmTable and ShmRuns say. */
module ShmBuffer {
  import opened Common
  import opened Chains
  import opened ShmTable
  import opened ShmGrowth
  import opened ShmRuns

  datatype Slot<T> = Slot(keyno: nat, value: T, next: nat)

  ghost function TableOf<T>(h: nat, d: nat, u: nat, total: int, slots: seq<Slot<T>>, zero: T): Table<T> {
    Table(h, d, u, total,
          seq(|slots|, i requires 0 <= i < |slots| => slots[i].keyno),
          seq(|slots|, i requires 0 <= i < |slots| => slots[i].value),
          seq(|slots|, i requires 0 <= i < |slots| => slots[i].next), zero)
  }

  lemma BlankTable<T>(slots: seq<Slot<T>>, h: nat, d: nat, zero: T)
    requires |slots| == h + d && forall j :: 0 <= j < |slots| ==> slots[j] == Slot(0, zero, 0)
    ensures TableOf(h, d, 0, 0, slots, zero) == Alloc(h, h + d, zero)
  {
    hide Shaped, Homed, Bag, Clean;
  }

  class Buffer<T> {
    const zero: T
    var hashSize: nat
    var dataSize: nat
    var usedSize: nat
    var totalSize: int
    var buffer: array<Slot<T>>
    /** The iteration cursor; the first slot after `Begin`. */
    var cursor: nat

    ghost function Tab(): Table<T>
      reads this, buffer
    {
      TableOf(hashSize, dataSize, usedSize, totalSize, buffer[..], zero)
    }

    ghost predicate Valid()
      reads this, buffer
    {
      WellFormed(Tab())
    }

    /** `Alloc` of a first segment. */
    constructor (nhash: nat, nrec: nat, zero: T)
      requires 0 < nhash <= nrec
      ensures Valid() && fresh(buffer)
      ensures Tab() == ShmTable.Alloc(nhash, nrec, zero) && cursor == 0
    {
      this.zero := zero;
      hashSize, dataSize, usedSize, totalSize, cursor := nhash, nrec - nhash, 0, 0, 0;
      buffer := new Slot<T>[nrec](_ => Slot(0, zero, 0));
      new;
      assert Tab() == ShmTable.Alloc(nhash, nrec, zero);
    }

    /** `Alloc` of the larger segment that replaces the current one. */
    method Replace(nhash: nat, nrec: nat)
      requires nhash <= nrec
      modifies this
      ensures fresh(buffer) && Tab() == ShmTable.Alloc(nhash, nrec, zero)
      ensures cursor == old(cursor)
    {
      hashSize, dataSize, usedSize, totalSize := nhash, nrec - nhash, 0, 0;
      var z := zero;
      buffer := new Slot<T>[nrec](_ => Slot(0, z, 0));
      assert Tab() == ShmTable.Alloc(nhash, nrec, zero);
    }

    method Find(k: Key) returns (r: Option<nat>)
      requires Valid()
      ensures r == ShmTable.Find(Tab(), k)
    {
      var p := k % hashSize;
      ghost var t := Tab();
      while true
        invariant p < buffer.Length
        invariant FindFrom(t, p, k) == ShmTable.Find(t, k)
        decreases buffer.Length - p
      {
        if buffer[p].keyno == k {
          return Some(p);
        }
        if buffer[p].next == 0 {
          break;
        }
        p := buffer[p].next;
      }
      r := None;
    }

    /** The value behind the pointer that `Find` returned. */
    method SetValue(s: nat, v: T)
      requires Valid() && s < buffer.Length
      modifies buffer
      ensures Tab() == old(Tab()).(vals := old(Tab()).vals[s := v])
    {
      buffer[s] := buffer[s].(value := v);
      assert Tab().vals == old(Tab()).vals[s := v];
      assert Tab().keys == old(Tab()).keys && Tab().next == old(Tab()).next;
    }

    method Erase(k: Key) returns (ok: bool)
      requires Valid()
      modifies buffer
      ensures Tab() == ShmRuns.Erase(old(Tab()), k)
      ensures ok <==> ShmTable.Find(old(Tab()), k).Some?
    {
      var r := Find(k);
      ok := r.Some?;
      if ok {
        buffer[r.value] := buffer[r.value].(keyno := 0);
        assert Tab().keys == old(Tab()).keys[r.value := 0];
        assert Tab().vals == old(Tab()).vals && Tab().next == old(Tab()).next;
      }
    }

    method Delete(s: nat)
      requires Valid() && s < buffer.Length
      modifies this`totalSize, buffer
      ensures Tab() == ShmRuns.Delete(old(Tab()), s)
    {
      buffer[s] := buffer[s].(keyno := 0);
      totalSize := totalSize - 1;
      assert Tab().keys == old(Tab()).keys[s := 0];
      assert Tab().vals == old(Tab()).vals && Tab().next == old(Tab()).next;
    }

    method Clear()
      requires Valid()
      modifies this`usedSize, this`totalSize, buffer
      ensures Valid() && Tab() == ShmRuns.Clear(old(Tab()))
    {
      var i := 0;
      while i < hashSize + dataSize
        invariant 0 <= i <= buffer.Length == hashSize + dataSize
        invariant forall j :: 0 <= j < i ==> buffer[j] == Slot(0, zero, 0)
        modifies buffer
      {
        buffer[i] := Slot(0, zero, 0);
        i := i + 1;
      }
      usedSize, totalSize := 0, 0;
      hide Linked, Homed, Bag, Clean;
      BlankTable(buffer[..], hashSize, dataSize, zero);
      assert Tab() == ShmRuns.Clear(old(Tab()));
    }

    method Begin()
      modifies this`cursor
      ensures cursor == 0
    {
      cursor := 0;
    }

    /** The key, value and slot of the next live entry, moving the cursor past it. */
    method Next() returns (r: Option<(nat, T)>)
      requires Valid()
      modifies this`cursor
      ensures match NextFrom(Tab(), old(cursor))
              case Some(s) => r == Some((Tab().keys[s], Tab().vals[s])) && cursor == s + 1
              case None => r == None && cursor >= hashSize + usedSize
    {
      while cursor < hashSize + usedSize
        invariant NextFrom(Tab(), cursor) == NextFrom(Tab(), old(cursor))
        decreases hashSize + usedSize - cursor
      {
        if buffer[cursor].keyno > 0 {
          r := Some((buffer[cursor].keyno, buffer[cursor].value));
          cursor := cursor + 1;
          return;
        }
        cursor := cursor + 1;
      }
      r := None;
    }

    /** The walk of `Add`: the first free slot of the chain, or its last slot. */
    method Walk(head: nat) returns (last: nat)
      requires Valid() && head < buffer.Length
      ensures last == Landing(Tab(), head)
    {
      last := head;
      while true
        invariant last < buffer.Length && Landing(Tab(), last) == Landing(Tab(), head)
        decreases buffer.Length - last
      {
        if buffer[last].keyno == 0 || buffer[last].next == 0 {
          break;
        }
        last := buffer[last].next;
      }
    }

    /** The part of `Add` that needs no growth; reports whether there was room. */
    method Place(k: Key, v: T) returns (placed: bool)
      requires Valid()
      modifies this, buffer
      ensures cursor == old(cursor) && buffer == old(buffer)
      ensures placed <==> HasRoom(old(Tab()), k)
      ensures Tab() == if placed then Placed(old(Tab()), k, v) else old(Tab())
    {
      hide Linked, Homed, Bag, Landing, Chain, Gained;
      var last := Walk(k % hashSize);
      if buffer[last].keyno == 0 {
        FillSlot(last, k, v);
        return true;
      }
      if usedSize >= dataSize {
        return false;
      }
      LinkSlot(last);
      FillSlot(hashSize + usedSize - 1, k, v);
      placed := true;
    }

    /** `Add`, when it ends: `fuel` bounds how deep its calls of `Realloc` nest. */
    method Add(k: Key, v: T, ghost fuel: nat)
      requires Valid() && AddWithin(Tab(), k, v, fuel).Some?
      modifies this, buffer
      ensures Valid() && AddWithin(old(Tab()), k, v, fuel) == Some(Tab())
      ensures cursor == old(cursor) && (buffer == old(buffer) || fresh(buffer))
      decreases fuel, 0
    {
      hide Linked, Homed, Bag, TableOf, HasRoom, Placed, AddWithin, ReallocWithin, Reached, Regrown;
      AddTurn(Tab(), k, v, fuel);
      var placed := Place(k, v);
      if !placed {
        Realloc(fuel - 1);
        Add(k, v, fuel - 1);
      }
    }

    method LinkSlot(last: nat)
      requires last < buffer.Length
      modifies this`usedSize, buffer
      ensures Tab() == LinkNew(old(Tab()), last)
    {
      buffer[last] := buffer[last].(next := hashSize + usedSize);
      usedSize := usedSize + 1;
      assert Tab().next == LinkNew(old(Tab()), last).next;
      assert Tab().keys == old(Tab()).keys && Tab().vals == old(Tab()).vals;
    }

    method FillSlot(s: nat, k: Key, v: T)
      requires s < buffer.Length
      modifies this`totalSize, buffer
      ensures Tab() == Put(old(Tab()), s, k, v)
    {
      buffer[s] := buffer[s].(keyno := k, value := v);
      totalSize := totalSize + 1;
      assert Tab().keys == Put(old(Tab()), s, k, v).keys;
      assert Tab().vals == Put(old(Tab()), s, k, v).vals;
      assert Tab().next == old(Tab()).next;
    }

    /** The body of the rehash loop, for slot `p` of the old table. */
    method RehashSlot(slot: Slot<T>, ghost t: Table<T>, ghost p: nat, ghost fuel: nat)
      requires Valid() && Rehashing(t, p, fuel, Tab()) && ReallocWithin(t, fuel).Some?
      requires p < |t.keys| && slot.keyno == t.keys[p] && slot.value == t.vals[p]
      modifies this, buffer
      ensures Valid() && Rehashing(t, p + 1, fuel, Tab())
      ensures cursor == old(cursor) && (buffer == old(buffer) || fresh(buffer))
      decreases fuel, 1
    {
      hide TableOf, WellFormed, AddWithin, ReallocWithin, Reached, Regrown, Rehashing;
      RehashGoes(t, p, Tab(), fuel);
      if slot.keyno > 0 {
        Add(slot.keyno, slot.value, fuel);
      }
    }

    /** The copy of the old segment, and the larger one in its place. */
    method StartRehash(ghost fuel: nat) returns (tmp: seq<Slot<T>>)
      requires Valid()
      modifies this
      ensures var t := old(Tab());
        && |tmp| == |t.keys| == |t.vals|
        && (forall i :: 0 <= i < |tmp| ==> tmp[i].keyno == t.keys[i] && tmp[i].value == t.vals[i])
        && Valid() && Rehashing(t, 0, fuel, Tab())
      ensures cursor == old(cursor) && fresh(buffer)
    {
      ghost var t := Tab();
      tmp := buffer[..];
      assert t.hashSize == hashSize && t.dataSize == dataSize && t.zero == zero && |t.keys| == |t.vals| == |tmp|;
      assert forall i :: 0 <= i < |tmp| ==> tmp[i].keyno == t.keys[i] && tmp[i].value == t.vals[i];
      var nhash, nrec := hashSize * 12 / 10, (hashSize + dataSize) * 12 / 10;
      assert nhash == GrownHash(t.hashSize) && nrec == GrownTotal(t.hashSize, t.dataSize);
      hide TableOf, WellFormed, Alloc, NextSegment, Rehashing, GrownHash, GrownTotal;
      RehashStart(t, fuel);
      Replace(nhash, nrec);
    }

    method Realloc(ghost fuel: nat)
      requires Valid() && ReallocWithin(Tab(), fuel).Some?
      modifies this, buffer
      ensures Valid() && ReallocWithin(old(Tab()), fuel) == Some(Tab())
      ensures cursor == old(cursor) && fresh(buffer)
      decreases fuel, 2
    {
      hide TableOf, WellFormed, Rehashing, ReallocWithin, Reached, Regrown;
      ghost var t := Tab();
      var tmp := StartRehash(fuel);
      var p := 0;
      while p < |tmp|
        invariant 0 <= p <= |tmp| && fresh(buffer) && cursor == old(cursor)
        invariant Valid() && Rehashing(t, p, fuel, Tab())
      {
        RehashSlot(tmp[p], t, p, fuel);
        p := p + 1;
      }
      RehashDone(t, Tab(), fuel);
    }
  }
}
