/** The counting table in place: slots in arrays, links and marks updated by each line. */
module LogCounter {
  import opened Common
  import opened Chains
  import opened LogTable

  class Counter {
    const hashSize: nat
    const dataSize: nat
    var usedSize: nat
    const files: array<string>
    const counts: array<nat>
    const used: array<bool>
    const next: array<nat>
    const hash: Hash

    ghost function State(): Table
      reads this, files, counts, used, next
    {
      Table(hashSize, dataSize, usedSize, files[..], counts[..], used[..], next[..])
    }

    ghost predicate Valid()
      reads this, files, counts, used, next
    {
      next != counts && WellFormed(State(), hash)
    }

    /** `init_hasht_hash`. */
    constructor (size: nat, h: Hash)
      requires size >= 4
      ensures State() == Empty(size) && hash == h && Valid()
      ensures hashSize == size / 4 && dataSize == size - size / 4
      ensures fresh(files) && fresh(counts) && fresh(used) && fresh(next)
    {
      hash := h;
      hashSize, dataSize, usedSize := size / 4, size - size / 4, 0;
      files := new string[size](_ => "");
      counts := new nat[size](_ => 0);
      used := new bool[size](_ => false);
      next := new nat[size](_ => 0);
      new;
      assert files[..] == Empty(size).files && counts[..] == Empty(size).counts;
      assert used[..] == Empty(size).used && next[..] == Empty(size).next;
      EmptyCounts(size, h);
    }

    /** `find_hasht_node`. */
    method FindNode(text: string) returns (r: Option<nat>)
      requires Valid()
      ensures r == Find(State(), hash, text)
    {
      hide Homed, Filled, Chain;
      ghost var t := State();
      var i := hash(text) % hashSize;
      while files[i] != text
        invariant i < |t.next| && t == State()
        invariant FindFrom(t.next, t.files, i, text) == Find(t, hash, text)
        decreases |t.next| - i
      {
        if next[i] == 0 {
          return None;
        }
        i := next[i];
      }
      r := Some(i);
    }

    /** The walk of `add_hasht_node` down a chain. */
    method Walk(b: nat) returns (last: nat, free: bool)
      requires Valid() && b < hashSize
      ensures (last, free) == WalkFrom(State().next, State().used, b)
    {
      hide Homed, Filled, Chain;
      ghost var t := State();
      last, free := b, false;
      while next[last] != 0
        invariant last < |t.next| && t == State() && !free
        invariant WalkFrom(t.next, t.used, last) == WalkFrom(t.next, t.used, b)
        decreases |t.next| - last
      {
        if !used[last] {
          free := true;
          return;
        }
        last := next[last];
      }
    }

    method Fill(slot: nat, text: string)
      requires slot < files.Length == counts.Length == used.Length
      modifies files, counts, used
      ensures files[..] == old(files[..])[slot := Cut(text)]
      ensures counts[..] == old(counts[..])[slot := 1]
      ensures used[..] == old(used[..])[slot := true]
    {
      files[slot] := Cut(text);
      counts[slot] := 1;
      used[slot] := true;
    }

    /** `add_hasht_node`: a table without room is left as it was. */
    method AddNode(text: string) returns (ok: bool)
      requires Valid()
      modifies this`usedSize, files, counts, used, next
      ensures var r := old(Add(State(), hash, text)); ok == r.Some? && State() == if ok then r.value else old(State())
    {
      hide Homed, Filled, Chain, Linked, WalkFrom;
      ghost var t := State();
      var b := hash(text) % hashSize;
      if !used[b] {
        Fill(b, text);
        assert State() == Put(t, b, text);
        return true;
      }
      var last, free := Walk(b);
      if free {
        Fill(last, text);
        assert State() == Put(t, last, text);
        return true;
      }
      if usedSize >= dataSize {
        return false;
      }
      var slot := hashSize + usedSize;
      next[last] := slot;
      usedSize := usedSize + 1;
      assert State() == LinkNew(t, last);
      Fill(slot, text);
      assert State() == Put(LinkNew(t, last), slot, text);
      ok := true;
    }

    /** One line of the log. */
    method CountLine(text: string) returns (ok: bool)
      requires Valid() && 0 < |text| < NAME_SIZE
      modifies this`usedSize, files, counts, used, next
      ensures Valid()
      ensures var r := old(Count(State(), hash, text)); ok == r.Some? && State() == if ok then r.value else old(State())
    {
      hide Homed, Filled, Chain, Linked, Find, Add;
      ghost var before := State();
      var d := FindNode(text);
      if d.Some? {
        FoundSlot(before, hash, text);
        counts[d.value] := counts[d.value] + 1;
        ok := true;
        assert State() == Increment(before, d.value);
      } else {
        ok := AddNode(text);
      }
      if ok {
        CountKeeps(before, hash, text);
      }
    }

    /** The counting loop of the log tool. */
    method CountLog(lines: seq<string>) returns (n: nat)
      requires Valid() && Legal(lines)
      modifies this`usedSize, files, counts, used, next
      ensures Valid() && old(Tally(State(), hash, lines)) == (State(), n)
    {
      hide WellFormed, Count;
      n := 0;
      ghost var start := State();
      assert lines[0..] == lines;
      while n < |lines|
        invariant 0 <= n <= |lines| && Valid()
        invariant Resumes(start, hash, lines, n, State())
      {
        ghost var before := State();
        var ok := CountLine(lines[n]);
        TallyStep(start, hash, lines, n, before);
        if !ok {
          return;
        }
        n := n + 1;
      }
      TallyEnd(start, hash, lines, State());
    }
  }

  /** After `n` lines the table is `t`, and the rest is counted from there. */
  ghost predicate Resumes(start: Table, h: Hash, lines: seq<string>, n: nat, t: Table) {
    && n <= |lines| && Legal(lines) && WellFormed(start, h) && WellFormed(t, h)
    && Tally(start, h, lines) == (Tally(t, h, lines[n..]).0, n + Tally(t, h, lines[n..]).1)
  }

  lemma TallyStep(start: Table, h: Hash, lines: seq<string>, n: nat, t: Table)
    requires Resumes(start, h, lines, n, t) && n < |lines|
    ensures var r := Count(t, h, lines[n]);
      if r.None? then Tally(start, h, lines) == (t, n) else Resumes(start, h, lines, n + 1, r.value)
  {
    hide Homed, Filled, Linked, Count, Tally;
    assert lines[n..][0] == lines[n] && lines[n..][1..] == lines[n + 1..];
    Legible(lines, n);
    TallyFirst(t, h, lines[n..]);
  }

  lemma TallyFirst(t: Table, h: Hash, lines: seq<string>)
    requires WellFormed(t, h) && Legal(lines) && lines != []
    ensures var r := Count(t, h, lines[0]);
      if r.None? then Tally(t, h, lines) == (t, 0)
      else WellFormed(r.value, h) &&
           Tally(t, h, lines) == (Tally(r.value, h, lines[1..]).0, Tally(r.value, h, lines[1..]).1 + 1)
  {
    hide Homed, Filled, Linked, Count;
    if Count(t, h, lines[0]).Some? {
      CountKeeps(t, h, lines[0]);
    }
  }

  lemma Legible(lines: seq<string>, n: nat)
    requires Legal(lines) && n < |lines|
    ensures 0 < |lines[n]| < NAME_SIZE
  {
  }

  lemma TallyEnd(start: Table, h: Hash, lines: seq<string>, t: Table)
    requires Resumes(start, h, lines, |lines|, t)
    ensures Tally(start, h, lines) == (t, |lines|)
  {
    hide WellFormed, Count;
    assert lines[|lines|..] == [];
  }
}
