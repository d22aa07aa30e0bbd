/** The append-only table of file names that the log tool counts with. */
module LogTable {
  import opened Common
  import opened Chains

  /** Room for a name, its terminator included. */
  const NAME_SIZE: nat := 128

  /** The slots, and how many overflow slots are in use. A blank slot has an empty name. */
  datatype Table = Table(hashSize: nat, dataSize: nat, usedSize: nat,
                         files: seq<string>, counts: seq<nat>, used: seq<bool>, next: seq<nat>)

  /** Any hash of the name; only its value modulo the number of buckets matters. */
  type Hash = string -> nat

  ghost predicate Shaped(t: Table) {
    && 0 < t.hashSize && t.usedSize <= t.dataSize
    && |t.files| == |t.counts| == |t.used| == |t.next| == t.hashSize + t.dataSize
    && Linked(t.next, t.hashSize, t.usedSize)
  }

  /** Exactly the overflow slots below the mark are in use; a head with a chain is in use. */
  ghost predicate Filled(t: Table)
    requires Shaped(t)
  {
    && (forall s :: 0 <= s < |t.used| ==> (t.used[s] <==> t.files[s] != ""))
    && (forall s :: t.hashSize <= s < |t.used| ==> (t.used[s] <==> s < t.hashSize + t.usedSize))
    && (forall s :: 0 <= s < t.hashSize && !t.used[s] ==> t.next[s] == 0)
  }

  /** Each name is on the chain of its bucket, and on it once. */
  ghost predicate Homed(t: Table, h: Hash)
    requires Shaped(t)
  {
    && (forall s :: 0 <= s < |t.used| && t.used[s] ==> s in Chain(t.next, h(t.files[s]) % t.hashSize))
    && (forall s, r :: 0 <= s < |t.used| && 0 <= r < |t.used| && t.used[s] && t.used[r] ==>
          t.files[s] == t.files[r] ==> s == r)
  }

  ghost predicate WellFormed(t: Table, h: Hash) {
    Shaped(t) && Filled(t) && Homed(t, h)
  }

  // Finding

  /** The walk of `find_hasht_node` from slot `i`. */
  function FindFrom(next: seq<nat>, files: seq<string>, i: nat, text: string): (r: Option<nat>)
    requires i < |next| == |files|
    ensures r.Some? ==> i <= r.value < |next|
    decreases |next| - i
  {
    if files[i] == text then Some(i)
    else if i < next[i] < |next| then FindFrom(next, files, next[i], text)
    else None
  }

  function Find(t: Table, h: Hash, text: string): Option<nat>
    requires Shaped(t)
  {
    FindFrom(t.next, t.files, h(text) % t.hashSize, text)
  }

  lemma {:induction false} FindFromExactly(next: seq<nat>, files: seq<string>, i: nat, text: string)
    requires i < |next| == |files|
    ensures var r := FindFrom(next, files, i, text);
      && (r.Some? ==> r.value in Chain(next, i) && files[r.value] == text)
      && (r.None? ==> forall s :: s in Chain(next, i) ==> files[s] != text)
    decreases |next| - i
  {
    assert Chain(next, i)[0] == i;
    if files[i] != text && i < next[i] < |next| {
      FindFromExactly(next, files, next[i], text);
    }
  }

  ghost predicate At(t: Table, s: nat, text: string) {
    s < |t.files| == |t.used| && t.used[s] && t.files[s] == text
  }

  /** A name is found exactly when some slot in use holds it, and there it is. */
  lemma FindExactly(t: Table, h: Hash, text: string, s: nat)
    requires WellFormed(t, h) && text != ""
    ensures At(t, s, text) <==> Find(t, h, text) == Some(s)
  {
    var b := h(text) % t.hashSize;
    FindFromExactly(t.next, t.files, b, text);
  }

  // Adding

  /** The walk of `add_hasht_node`: the slot where it stops, and whether that slot is free. */
  function WalkFrom(next: seq<nat>, used: seq<bool>, i: nat): (r: (nat, bool))
    requires i < |next| == |used|
    ensures i <= r.0 < |next|
    decreases |next| - i
  {
    if !(i < next[i] < |next|) then (i, false)
    else if !used[i] then (i, true)
    else WalkFrom(next, used, next[i])
  }

  /** `memcpy` of the new value, its name cut to the field. */
  function Cut(text: string): string {
    if |text| < NAME_SIZE then text else text[..NAME_SIZE - 1]
  }

  function Put(t: Table, s: nat, text: string): Table
    requires s < |t.files| == |t.counts| == |t.used|
  {
    t.(files := t.files[s := Cut(text)], counts := t.counts[s := 1], used := t.used[s := true])
  }

  function LinkNew(t: Table, last: nat): Table
    requires last < |t.next|
  {
    t.(next := t.next[last := t.hashSize + t.usedSize], usedSize := t.usedSize + 1)
  }

  /** `add_hasht_node` with a count of one. */
  function Add(t: Table, h: Hash, text: string): Option<Table>
    requires Shaped(t)
  {
    var b := h(text) % t.hashSize;
    if !t.used[b] then Some(Put(t, b, text))
    else
      var (last, free) := WalkFrom(t.next, t.used, b);
      if free then Some(Put(t, last, text))
      else if t.usedSize >= t.dataSize then None
      else Some(Put(LinkNew(t, last), t.hashSize + t.usedSize, text))
  }

  /** When every slot of the chain is in use the walk ends at its last slot. */
  lemma {:induction false} WalkEnds(next: seq<nat>, used: seq<bool>, heads: nat, n: nat, i: nat)
    requires Linked(next, heads, n) && i < |next| == |used|
    requires forall s :: s in Chain(next, i) ==> used[s]
    ensures var (last, free) := WalkFrom(next, used, i);
      !free && last in Chain(next, i) && next[last] == 0
    decreases |next| - i
  {
    assert Chain(next, i)[0] == i;
    if next[i] != 0 {
      assert Chain(next, i) == [i] + Chain(next, next[i]);
      WalkEnds(next, used, heads, n, next[i]);
    }
  }

  /** The chain of a head in use has no free slot. */
  lemma ChainInUse(t: Table, b: nat, s: nat)
    requires Shaped(t) && Filled(t) && b < t.hashSize && t.used[b] && s in Chain(t.next, b)
    ensures t.used[s]
  {
    if s != b {
      var p := ChainPred(t.next, t.hashSize, t.usedSize, b, s);
    }
  }

  /** Adding fails exactly when the bucket is taken and the overflow area is exhausted. */
  lemma AddCases(t: Table, h: Hash, text: string) returns (last: nat)
    requires WellFormed(t, h)
    ensures var b := h(text) % t.hashSize;
      if !t.used[b] then Add(t, h, text) == Some(Put(t, b, text))
      else
        && last in Chain(t.next, b) && t.next[last] == 0
        && (t.usedSize == t.dataSize ==> Add(t, h, text) == None)
        && (t.usedSize < t.dataSize ==> Add(t, h, text) == Some(Put(LinkNew(t, last), t.hashSize + t.usedSize, text)))
  {
    hide Linked, Chain, Homed, Filled;
    var b := h(text) % t.hashSize;
    last := b;
    if t.used[b] {
      forall s | s in Chain(t.next, b)
        ensures t.used[s]
      {
        ChainInUse(t, b, s);
      }
      WalkEnds(t.next, t.used, t.hashSize, t.usedSize, b);
      last := WalkFrom(t.next, t.used, b).0;
    }
  }

  ghost predicate Absent(t: Table, text: string) {
    forall s :: 0 <= s < |t.files| ==> t.files[s] != text
  }

  lemma PutHeadKeeps(t: Table, h: Hash, text: string)
    requires WellFormed(t, h) && 0 < |text| < NAME_SIZE && Absent(t, text)
    requires !t.used[h(text) % t.hashSize]
    ensures WellFormed(Put(t, h(text) % t.hashSize, text), h)
  {
    var b := h(text) % t.hashSize;
    assert Chain(t.next, b)[0] == b;
    hide Linked, Chain, Homed;
    PutHomed(t, h, b, text);
    hide Absent;
    assert Filled(Put(t, b, text));
  }

  /** Filling a slot of the right chain with a new name keeps every name at home and single. */
  lemma PutHomed(t: Table, h: Hash, slot: nat, text: string)
    requires Shaped(t) && Homed(t, h) && 0 < |text| < NAME_SIZE && Absent(t, text)
    requires slot < |t.used| && slot in Chain(t.next, h(text) % t.hashSize)
    ensures Shaped(Put(t, slot, text)) && Homed(Put(t, slot, text), h)
  {
    hide Linked, Chain;
    var r := Put(t, slot, text);
    assert r.files == t.files[slot := text] && r.used == t.used[slot := true] && r.next == t.next;
    forall s | 0 <= s < |r.used| && r.used[s]
      ensures s in Chain(r.next, h(r.files[s]) % r.hashSize)
    {
      assert s != slot ==> t.used[s] && r.files[s] == t.files[s];
    }
  }

  lemma LinkHomed(t: Table, h: Hash, b: nat, last: nat)
    requires Shaped(t) && Homed(t, h) && t.usedSize < t.dataSize && b < t.hashSize
    requires last in Chain(t.next, b) && t.next[last] == 0
    ensures Shaped(LinkNew(t, last)) && Homed(LinkNew(t, last), h)
    ensures t.hashSize + t.usedSize in Chain(LinkNew(t, last).next, b)
  {
    hide Linked, Chain;
    LinkedStays(t, h, b, last);
  }

  lemma LinkedStays(t: Table, h: Hash, b: nat, last: nat)
    requires Shaped(t) && t.usedSize < t.dataSize && b < t.hashSize
    requires last in Chain(t.next, b) && t.next[last] == 0
    ensures Shaped(LinkNew(t, last))
    ensures t.hashSize + t.usedSize in Chain(LinkNew(t, last).next, b)
    ensures forall a, s :: 0 <= a < t.hashSize && s in Chain(t.next, a) ==> s in Chain(LinkNew(t, last).next, a)
  {
    hide Linked, Chain;
    AppendLink(t.next, t.hashSize, t.usedSize, b, last);
    var c := Chain(t.next, b) + [t.hashSize + t.usedSize];
    assert c[|c| - 1] == t.hashSize + t.usedSize;
  }

  lemma PutOverflowKeeps(t: Table, h: Hash, text: string, last: nat)
    requires WellFormed(t, h) && 0 < |text| < NAME_SIZE && Absent(t, text)
    requires t.used[h(text) % t.hashSize] && t.usedSize < t.dataSize
    requires last in Chain(t.next, h(text) % t.hashSize) && t.next[last] == 0
    ensures WellFormed(Put(LinkNew(t, last), t.hashSize + t.usedSize, text), h)
  {
    hide Linked, Chain, Homed;
    var b := h(text) % t.hashSize;
    ChainInUse(t, b, last);
    LinkHomed(t, h, b, last);
    PutHomed(LinkNew(t, last), h, t.hashSize + t.usedSize, text);
    hide Absent;
    assert Filled(Put(LinkNew(t, last), t.hashSize + t.usedSize, text));
  }

  // What is counted

  /** The table holds each name of `ms` once, with its number of occurrences. */
  ghost predicate Counts(t: Table, ms: multiset<string>) {
    && |t.files| == |t.counts| == |t.used|
    && (forall s :: 0 <= s < |t.used| && t.used[s] ==> t.counts[s] > 0 && ms[t.files[s]] == t.counts[s])
    && (forall k :: k in ms ==> exists s: nat :: At(t, s, k))
  }

  function Increment(t: Table, s: nat): Table
    requires s < |t.counts|
  {
    t.(counts := t.counts[s := t.counts[s] + 1])
  }

  /** One line of the log: count the name, or report that it could not be added. */
  function Count(t: Table, h: Hash, text: string): Option<Table>
    requires Shaped(t)
  {
    match Find(t, h, text)
    case Some(s) => Some(Increment(t, s))
    case None => Add(t, h, text)
  }

  lemma AbsentExactly(t: Table, h: Hash, text: string, ms: multiset<string>)
    requires WellFormed(t, h) && Counts(t, ms) && text != ""
    ensures Find(t, h, text).None? <==> text !in ms
    ensures Find(t, h, text).None? ==> Absent(t, text)
  {
    hide Find, Homed, Shaped, Filled;
    forall s: nat
      ensures At(t, s, text) <==> Find(t, h, text) == Some(s)
    {
      FindExactly(t, h, text, s);
    }
    if text in ms {
      var s: nat :| At(t, s, text);
    }
    if Find(t, h, text).Some? {
      assert At(t, Find(t, h, text).value, text);
    } else {
      UsedNames(t, h, text);
    }
  }

  lemma UsedNames(t: Table, h: Hash, text: string)
    requires WellFormed(t, h) && text != "" && forall s: nat :: !At(t, s, text)
    ensures Absent(t, text)
  {
    forall s | 0 <= s < |t.files|
      ensures t.files[s] != text
    {
      assert !At(t, s, text);
    }
  }

  lemma PutCounts(t: Table, r: Table, slot: nat, text: string, ms: multiset<string>)
    requires Counts(t, ms) && text !in ms && slot < |t.files| && !t.used[slot]
    requires r.files == t.files[slot := text] && r.counts == t.counts[slot := 1] && r.used == t.used[slot := true]
    ensures Counts(r, ms + multiset{text})
  {
    var ns := ms + multiset{text};
    forall k | k in ns
      ensures exists s: nat :: At(r, s, k)
    {
      if k == text {
        assert At(r, slot, k);
      } else {
        assert k in ms;
        var s: nat :| At(t, s, k);
        assert At(r, s, k);
      }
    }
  }

  lemma IncrementKeeps(t: Table, h: Hash, slot: nat)
    requires WellFormed(t, h) && slot < |t.counts|
    ensures WellFormed(Increment(t, slot), h)
  {
    hide Linked, Chain;
    var r := Increment(t, slot);
    assert Shaped(r) && Filled(r) && Homed(r, h);
  }

  /** Two slots in use hold different names. */
  ghost predicate Separate(t: Table, slot: nat) {
    slot < |t.used| == |t.files| &&
    forall s :: 0 <= s < |t.used| && t.used[s] && t.files[s] == t.files[slot] ==> s == slot
  }

  lemma IncrementCounts(t: Table, slot: nat, ms: multiset<string>)
    requires Counts(t, ms) && Separate(t, slot) && t.used[slot]
    ensures Counts(Increment(t, slot), ms + multiset{t.files[slot]})
  {
    var r := Increment(t, slot);
    forall k | k in ms + multiset{t.files[slot]}
      ensures exists s: nat :: At(r, s, k)
    {
      if k == t.files[slot] {
        assert At(r, slot, k);
      } else {
        var s: nat :| At(t, s, k);
        assert At(r, s, k);
      }
    }
  }

  /** A new name fails to be counted exactly when its bucket is taken and no overflow slot is left. */
  ghost predicate Stuck(t: Table, h: Hash, text: string, ms: multiset<string>)
    requires Shaped(t)
  {
    text !in ms && t.used[h(text) % t.hashSize] && t.usedSize == t.dataSize
  }

  lemma FoundSlot(t: Table, h: Hash, text: string)
    requires WellFormed(t, h) && text != "" && Find(t, h, text).Some?
    ensures var s := Find(t, h, text).value; s < |t.counts| && Separate(t, s) && t.used[s] && t.files[s] == text
  {
    hide Linked, Chain;
    FindExactly(t, h, text, Find(t, h, text).value);
  }

  /** Counting a name adds one occurrence of it, or fails exactly when there is no room. */
  lemma CountExactly(t: Table, h: Hash, text: string, ms: multiset<string>)
    requires WellFormed(t, h) && Counts(t, ms) && 0 < |text| < NAME_SIZE
    ensures Count(t, h, text).None? <==> Stuck(t, h, text, ms)
    ensures Count(t, h, text).Some? ==>
      WellFormed(Count(t, h, text).value, h) && Counts(Count(t, h, text).value, ms + multiset{text})
  {
    hide Find, Add, Linked, Chain, Homed, Filled, Counts, Separate, Absent;
    AbsentExactly(t, h, text, ms);
    if Find(t, h, text).Some? {
      var s := Find(t, h, text).value;
      FoundSlot(t, h, text);
      IncrementKeeps(t, h, s);
      IncrementCounts(t, s, ms);
    } else {
      AddExactly(t, h, text, ms);
    }
  }

  lemma AddExactly(t: Table, h: Hash, text: string, ms: multiset<string>)
    requires WellFormed(t, h) && Counts(t, ms) && 0 < |text| < NAME_SIZE && text !in ms && Absent(t, text)
    ensures Add(t, h, text).None? <==> Stuck(t, h, text, ms)
    ensures Add(t, h, text).Some? ==>
      WellFormed(Add(t, h, text).value, h) && Counts(Add(t, h, text).value, ms + multiset{text})
  {
    hide Add, Homed, Linked, Counts, Chain, Absent;
    var last := AddCases(t, h, text);
    var b := h(text) % t.hashSize;
    if !t.used[b] {
      PutHeadKeeps(t, h, text);
      PutCounts(t, Put(t, b, text), b, text, ms);
    } else if t.usedSize < t.dataSize {
      PutOverflowKeeps(t, h, text, last);
      PutCounts(t, Put(LinkNew(t, last), t.hashSize + t.usedSize, text), t.hashSize + t.usedSize, text, ms);
    }
  }

  // Whole logs

  predicate Legal(lines: seq<string>) {
    forall i :: 0 <= i < |lines| ==> 0 < |lines[i]| < NAME_SIZE
  }

  lemma CountKeeps(t: Table, h: Hash, text: string)
    requires WellFormed(t, h) && 0 < |text| < NAME_SIZE && Count(t, h, text).Some?
    ensures WellFormed(Count(t, h, text).value, h)
  {
    hide Find, Add, Linked, Chain, Homed, Filled, Separate, Absent;
    if Find(t, h, text).Some? {
      FoundSlot(t, h, text);
      IncrementKeeps(t, h, Find(t, h, text).value);
    } else {
      NotFound(t, h, text);
      var last := AddCases(t, h, text);
      if !t.used[h(text) % t.hashSize] {
        PutHeadKeeps(t, h, text);
      } else {
        PutOverflowKeeps(t, h, text, last);
      }
    }
  }

  lemma NotFound(t: Table, h: Hash, text: string)
    requires WellFormed(t, h) && text != "" && Find(t, h, text).None?
    ensures Absent(t, text)
  {
    hide Linked, Chain, Homed, Find;
    forall s: nat
      ensures !At(t, s, text)
    {
      FindExactly(t, h, text, s);
    }
    UsedNames(t, h, text);
  }

  /** The tool reads line after line and stops at the first name it cannot add. */
  ghost function Tally(t: Table, h: Hash, lines: seq<string>): (Table, nat)
    requires WellFormed(t, h) && Legal(lines)
    decreases |lines|
  {
    if lines == [] then (t, 0)
    else
      var r := Count(t, h, lines[0]);
      if r.None? then (t, 0)
      else
        CountKeeps(t, h, lines[0]);
        var (u, n) := Tally(r.value, h, lines[1..]);
        (u, n + 1)
  }

  /**
   * Every name is counted as often as it occurs in the lines read, and reading stops early only
   * at a new name that has no room.
   */
  lemma {:induction false} TallyExactly(t: Table, h: Hash, lines: seq<string>, ms: multiset<string>)
    requires WellFormed(t, h) && Legal(lines) && Counts(t, ms)
    ensures var (u, n) := Tally(t, h, lines);
      && n <= |lines| && WellFormed(u, h)
      && Counts(u, ms + multiset(lines[..n]))
      && (n < |lines| ==> Stuck(u, h, lines[n], ms + multiset(lines[..n])))
    decreases |lines|
  {
    hide Count, Linked, Chain, Homed, Filled, Counts, Stuck;
    if lines == [] {
      assert ms + multiset(lines[..0]) == ms;
    } else {
      CountExactly(t, h, lines[0], ms);
      var r := Count(t, h, lines[0]);
      if r.None? {
        assert ms + multiset(lines[..0]) == ms;
      } else {
        CountKeeps(t, h, lines[0]);
        TallyExactly(r.value, h, lines[1..], ms + multiset{lines[0]});
        var n := Tally(r.value, h, lines[1..]).1;
        assert lines[..n + 1] == [lines[0]] + lines[1..][..n];
        assert ms + multiset{lines[0]} + multiset(lines[1..][..n]) == ms + multiset(lines[..n + 1]);
      }
    }
  }

  /** `init_hasht_hash`. */
  function Empty(size: nat): Table {
    Table(size / 4, size - size / 4, 0, seq(size, _ => ""), seq(size, _ => 0), seq(size, _ => false), seq(size, _ => 0))
  }

  lemma EmptyCounts(size: nat, h: Hash)
    requires size >= 4
    ensures WellFormed(Empty(size), h) && Counts(Empty(size), multiset{})
  {
  }

  /** The name of a log line is found with its count, and only names that occur are found. */
  lemma ReadBack(size: nat, h: Hash, lines: seq<string>, text: string)
    requires size >= 4 && Legal(lines) && text != ""
    ensures WellFormed(Empty(size), h)
    ensures var (u, n) := Tally(Empty(size), h, lines);
      && n <= |lines| && WellFormed(u, h)
      && match Find(u, h, text)
         case None => text !in lines[..n]
         case Some(s) => u.counts[s] == multiset(lines[..n])[text] > 0
  {
    hide Tally, Linked, Chain, Find;
    EmptyCounts(size, h);
    TallyExactly(Empty(size), h, lines, multiset{});
    var (u, n) := Tally(Empty(size), h, lines);
    var ms := multiset(lines[..n]);
    assert multiset{} + ms == ms;
    AbsentExactly(u, h, text, ms);
    if Find(u, h, text).Some? {
      FoundSlot(u, h, text);
    }
  }

  /** A name too long for its field is stored cut short, so it is never found under itself. */
  lemma LongNamesNotFound(t: Table, h: Hash, text: string)
    requires WellFormed(t, h) && |text| >= NAME_SIZE
    requires forall s :: 0 <= s < |t.files| ==> |t.files[s]| < NAME_SIZE
    ensures Find(t, h, text).None? && Cut(text) == text[..127]
  {
    FindFromExactly(t.next, t.files, h(text) % t.hashSize, text);
  }
}
