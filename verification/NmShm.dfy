/** The double-buffered counters of 3rdlib/TNmShm.cpp: writers count into one table while a
    reader drains and then clears the other. */
module NmShm {
  import opened Common
  import opened Chains
  import opened ShmTable
  import opened ShmGrowth
  import opened ShmSizes
  import opened ShmRuns
  import opened ShmBuffer

  const WORD: int := 0x1_0000_0000

  /** Equal as 32-bit words. */
  predicate Cong(a: int, b: int) { (a - b) % WORD == 0 }

  lemma CongShift(a: int, b: int, c: int)
    requires Cong(a, b)
    ensures Cong(a + c, b + c)
  {
    assert a + c - (b + c) == a - b;
  }

  lemma CongChain(a: int, b: int, c: int, d: int)
    requires Cong(a, b + c) && Cong(b, d)
    ensures Cong(a, d + c)
  {
    var p, q := (a - (b + c)) / WORD, (b - d) / WORD;
    assert a - (d + c) == WORD * (p + q);
  }

  /** Conversion of a sum to the 32-bit `int` it is stored in. */
  function Wrap(x: int): (r: int)
    ensures -0x8000_0000 <= r < 0x8000_0000 && Cong(r, x)
  {
    (x + 0x8000_0000) % WORD - 0x8000_0000
  }

  /** The table holds at most one counter per key, and is large enough to take any new one. */
  ghost predicate Mapped(t: Table<int>) {
    t.hashSize + t.dataSize >= 5 && exists m: map<nat, int> :: Refines(t, m)
  }

  lemma {:induction false} SizesGrow(a: (nat, nat), n: nat)
    ensures Grown(a, n).0 >= a.0 && Grown(a, n).1 >= a.1
    decreases n
  {
    GrownStep(a.0, a.1, n);
    TwelveTenths(a.0);
    hide GrownManyTimes, GrownTotal, GrownData;
    if n > 0 {
      SizesGrow((GrownHash(a.0), GrownData(a.0, a.1)), n - 1);
    }
  }

  lemma LaterLarger(a: (nat, nat), b: (nat, nat))
    requires Later(a, b)
    ensures b.0 >= a.0 && b.1 >= a.1
  {
    hide Grown;
    var n: nat :| b == Grown(a, n);
    SizesGrow(a, n);
  }

  /** A store into a table of counters ends, and leaves a table of counters. */
  lemma StoreMapped(t: Table<int>, m: map<nat, int>, k: Key, v: int)
    requires Refines(t, m) && t.hashSize + t.dataSize >= 5
    ensures Storable(t, k, v) && Refines(Store(t, k, v), m[k as nat := v]) && Mapped(Store(t, k, v))
  {
    hide Linked, Homed, Holds, Bag, Storable, Later, Store, Find;
    StoresEnd(t, m, k, v);
    StoreRefines(t, m, k, v);
    StoreContents(t, k, v);
    LaterLarger(Sizes(t), Sizes(Store(t, k, v)));
  }

  // ----- what the calls do to a table of counters -----

  /** `inc_shm` on the current table. */
  ghost function Bump(t: Table<int>, k: Key, v: int): (r: Table<int>)
    requires Mapped(t)
    ensures Mapped(r)
  {
    hide Linked, Homed, Holds, Bag, Store, Storable;
    var m: map<nat, int> :| Refines(t, m);
    var v' := match Find(t, k) case Some(s) => Wrap(t.vals[s] + v) case None => v;
    StoreMapped(t, m, k, v');
    Store(t, k, v')
  }

  /** `set_shm` on the current table. */
  ghost function Overwrite(t: Table<int>, k: Key, v: int): (r: Table<int>)
    requires Mapped(t)
    ensures Mapped(r)
  {
    hide Linked, Homed, Holds, Bag, Store, Storable;
    var m: map<nat, int> :| Refines(t, m);
    StoreMapped(t, m, k, v);
    Store(t, k, v)
  }

  /** `Next` on the table being drained. */
  ghost function Peek(t: Table<int>, pos: nat): Option<nat>
    requires Mapped(t)
  {
    NextFrom(t, pos)
  }

  ghost function Cleared(t: Table<int>): (r: Table<int>)
    requires Mapped(t)
    ensures Mapped(r)
  {
    assert Refines(Clear(t), map[]);
    Clear(t)
  }

  /** The counter of `k` as far as it sits at or after slot `pos`. */
  ghost function From(t: Table<int>, pos: nat, k: Key): int
    requires Mapped(t)
  {
    match Find(t, k)
    case Some(s) => if s >= pos then t.vals[s] else 0
    case None => 0
  }

  lemma OneSlotPerKey(t: Table<int>, m: map<nat, int>, n: nat, k: Key)
    requires Refines(t, m) && n < |t.keys| && t.keys[n] == k
    ensures Find(t, k) == Some(n)
  {
    hide Linked, Homed, Bag;
    var s := Find(t, k).value;
    HoldsOnce(Contents(t), m, k, t.vals[s], t.vals[n]);
    if s != n {
      TwoSlots(t.keys, t.vals, s, n);
    }
  }

  /** On the map of counters, `inc_shm` adds to the counter of the key or starts it, as 32-bit words. */
  lemma BumpRefines(t: Table<int>, m: map<nat, int>, k: Key, v: int)
    requires Mapped(t) && Refines(t, m)
    ensures Refines(Bump(t, k, v), m[k as nat := if k as nat in m then Wrap(m[k] + v) else v])
  {
    hide Linked, Homed, Holds, Bag, Store, Storable, Find, Wrap;
    var v' := match Find(t, k) case Some(s) => Wrap(t.vals[s] + v) case None => v;
    StoreMapped(t, m, k, v');
    FindAgrees(t, m, k);
  }

  /** On the map of counters, `set_shm` replaces the counter of the key. */
  lemma OverwriteRefines(t: Table<int>, m: map<nat, int>, k: Key, v: int)
    requires Mapped(t) && Refines(t, m)
    ensures Refines(Overwrite(t, k, v), m[k as nat := v])
  {
    hide Linked, Homed, Holds, Bag, Store, Storable, Find;
    StoreMapped(t, m, k, v);
  }

  lemma FromAgrees(t: Table<int>, m: map<nat, int>, k: Key)
    requires Mapped(t) && Refines(t, m)
    ensures From(t, 0, k) == if k as nat in m then m[k] else 0
  {
    hide Linked, Homed, Holds, Bag, Find;
    FindAgrees(t, m, k);
  }

  /** A counter that is bumped grows by the amount, modulo the word; no other one moves. */
  lemma BumpCounts(t: Table<int>, k: Key, v: int, k': Key)
    requires Mapped(t)
    ensures Cong(From(Bump(t, k, v), 0, k'), From(t, 0, k') + if k == k' then v else 0)
  {
    hide Refines, Bump, From, Wrap;
    var m: map<nat, int> :| Refines(t, m);
    BumpRefines(t, m, k, v);
    FromAgrees(t, m, k');
    FromAgrees(Bump(t, k, v), m[k as nat := if k as nat in m then Wrap(m[k] + v) else v], k');
  }

  /** A counter that is set holds the value; no other one moves. */
  lemma OverwriteCounts(t: Table<int>, k: Key, v: int, k': Key)
    requires Mapped(t)
    ensures From(Overwrite(t, k, v), 0, k') == if k == k' then v else From(t, 0, k')
  {
    hide Refines, Overwrite, From;
    var m: map<nat, int> :| Refines(t, m);
    OverwriteRefines(t, m, k, v);
    FromAgrees(t, m, k');
    FromAgrees(Overwrite(t, k, v), m[k as nat := v], k');
  }

  /** Reading one entry takes exactly that entry's counter from what is left to read. */
  lemma ReadCounts(t: Table<int>, pos: nat, k: Key)
    requires Mapped(t)
    ensures match Peek(t, pos)
            case Some(n) => From(t, pos, k) == From(t, n + 1, k) + (if t.keys[n] == k then t.vals[n] else 0)
            case None => From(t, pos, k) == 0
  {
    var m: map<nat, int> :| Refines(t, m);
    match Peek(t, pos)
    case Some(n) =>
      if t.keys[n] == k {
        OneSlotPerKey(t, m, n, k);
      } else if Find(t, k).Some? {
        assert Find(t, k).value != n;
      }
    case None =>
      if Find(t, k).Some? {
        assert t.keys[Find(t, k).value] > 0;
      }
  }

  lemma ClearCounts(t: Table<int>, k: Key)
    requires Mapped(t)
    ensures From(Cleared(t), 0, k) == 0
  {
    assert Refines(Clear(t), map[]);
    FindAgrees(Clear(t), map[], k);
  }

  // ----- the two buffers -----

  /** Where the reader is: before `begin_read_shm`, or draining table `which % 2` with its
      cursor at `pos`; `done` once `read_shm` has reported the end. */
  datatype Reader = Idle | Reading(which: byte, pos: nat, done: bool)

  /** `log` is what `read_shm` has handed out so far. */
  datatype State = State(even: Table<int>, odd: Table<int>, index: byte, reader: Reader, log: seq<(nat, int)>) {
    function Tab(i: nat): Table<int> { if i % 2 == 0 then even else odd }
    function With(i: nat, t: Table<int>): State { if i % 2 == 0 then this.(even := t) else this.(odd := t) }
  }

  datatype Event = Inc(key: nat, amount: int) | Set(key: nat, value: int) | Begin | Read | End

  /** A reader drains the table that writers are not using. */
  ghost predicate Sound(s: State) {
    && Mapped(s.even) && Mapped(s.odd)
    && (s.reader.Reading? ==> s.reader.which % 2 != s.index % 2)
    && (s.reader.Reading? && s.reader.done ==> Peek(s.Tab(s.reader.which), s.reader.pos).None?)
  }

  /** One reader at a time. */
  ghost predicate Enabled(s: State, e: Event) {
    match e
    case Inc(k, _) => 0 < k < KEY_LIMIT
    case Set(k, _) => 0 < k < KEY_LIMIT
    case Begin => s.reader.Idle?
    case Read => s.reader.Reading?
    case End => s.reader.Reading?
  }

  ghost function Step(s: State, e: Event): (r: State)
    requires Sound(s) && Enabled(s, e)
    ensures Sound(r)
  {
    hide Mapped, Peek, Bump, Overwrite, Cleared;
    match e
    case Inc(k, v) => s.With(s.index, Bump(s.Tab(s.index), k, v))
    case Set(k, v) => s.With(s.index, Overwrite(s.Tab(s.index), k, v))
    case Begin => s.(reader := Reading(s.index, 0, false), index := 255 - s.index)
    case Read =>
      var t := s.Tab(s.reader.which);
      (match Peek(t, s.reader.pos)
       case Some(n) =>
         PeekInside(t, s.reader.pos);
         s.(reader := s.reader.(pos := n + 1), log := s.log + [(t.keys[n], t.vals[n])])
       case None => s.(reader := s.reader.(done := true)))
    case End => s.With(s.reader.which, Cleared(s.Tab(s.reader.which))).(reader := Idle)
  }

  lemma PeekInside(t: Table<int>, pos: nat)
    requires Mapped(t) && Peek(t, pos).Some?
    ensures Peek(t, pos).value < |t.keys| == |t.vals|
  {
  }

  /** What is counted for `k` and not yet handed to the reader. */
  ghost function Held(s: State, k: Key): int
    requires Sound(s)
  {
    match s.reader
    case Idle => From(s.even, 0, k) + From(s.odd, 0, k)
    case Reading(w, pos, _) => From(s.Tab(w), pos, k) + From(s.Tab(s.index), 0, k)
  }

  function LoggedSum(log: seq<(nat, int)>, k: nat): int {
    if log == [] then 0
    else LoggedSum(log[..|log| - 1], k) + (if log[|log| - 1].0 == k then log[|log| - 1].1 else 0)
  }

  /** Handed out or still held. */
  ghost function Accounted(s: State, k: Key): int
    requires Sound(s)
  {
    LoggedSum(s.log, k) + Held(s, k)
  }

  /** What a step adds to the count of `k`: the amount of an increment, and for a value that is set,
      how much it is above the counter it replaces. */
  ghost function EnteredBy(s: State, e: Event, k: Key): int
    requires Sound(s)
  {
    match e
    case Inc(k', v) => if k' == k then v else 0
    case Set(k', v) => if k' == k then v - From(s.Tab(s.index), 0, k) else 0
    case _ => 0
  }

  lemma ReadConserves(s: State, k: Key)
    requires Sound(s) && Enabled(s, Read)
    ensures Accounted(Step(s, Read), k) == Accounted(s, k)
  {
    hide Mapped, Peek, From;
    ReadCounts(s.Tab(s.reader.which), s.reader.pos, k);
    var log := Step(s, Read).log;
    assert log == s.log || log[..|log| - 1] == s.log;
  }

  lemma IncConserves(s: State, k': Key, v: int, k: Key)
    requires Sound(s)
    ensures Cong(Accounted(Step(s, Inc(k', v)), k), Accounted(s, k) + if k == k' then v else 0)
  {
    hide Mapped, Peek, From, Bump, Cong;
    var t := s.Tab(s.index);
    BumpCounts(t, k', v, k);
    var before, after := From(t, 0, k), From(Bump(t, k', v), 0, k);
    CongShift(after, before + (if k == k' then v else 0), Accounted(s, k) - before);
  }

  lemma SetConserves(s: State, k': Key, v: int, k: Key)
    requires Sound(s)
    ensures Accounted(Step(s, Set(k', v)), k) == Accounted(s, k) + EnteredBy(s, Set(k', v), k)
  {
    hide Mapped, Peek, From, Overwrite;
    OverwriteCounts(s.Tab(s.index), k', v, k);
  }

  /** What a step throws away: the end of a round clears what was not read. */
  ghost function Lost(s: State, e: Event, k: Key): int
    requires Sound(s) && Enabled(s, e)
  {
    if e.End? then From(s.Tab(s.reader.which), s.reader.pos, k) else 0
  }

  /** One step moves counts between held, handed out and lost, and adds exactly what is counted. */
  lemma StepConserves(s: State, e: Event, k: Key)
    requires Sound(s) && Enabled(s, e)
    ensures Cong(Accounted(Step(s, e), k) + Lost(s, e, k), Accounted(s, k) + EnteredBy(s, e, k))
  {
    hide Mapped, Peek, From, Bump, Overwrite, Cleared;
    match e
    case Inc(k', v) => IncConserves(s, k', v, k);
    case Set(k', v) => SetConserves(s, k', v, k);
    case Begin =>
    case Read => ReadConserves(s, k);
    case End => ClearCounts(s.Tab(s.reader.which), k);
  }

  // ----- whole runs -----

  ghost predicate Runs(s: State, es: seq<Event>)
    requires Sound(s)
    decreases |es|
  {
    es != [] ==> Enabled(s, es[0]) && Runs(Step(s, es[0]), es[1..])
  }

  ghost function After(s: State, es: seq<Event>): (r: State)
    requires Sound(s) && Runs(s, es)
    ensures Sound(r)
    decreases |es|
  {
    if es == [] then s else After(Step(s, es[0]), es[1..])
  }

  ghost function LostIn(s: State, es: seq<Event>, k: Key): int
    requires Sound(s) && Runs(s, es)
    decreases |es|
  {
    if es == [] then 0 else Lost(s, es[0], k) + LostIn(Step(s, es[0]), es[1..], k)
  }

  ghost function Entered(s: State, es: seq<Event>, k: Key): int
    requires Sound(s) && Runs(s, es)
    decreases |es|
  {
    if es == [] then 0 else EnteredBy(s, es[0], k) + Entered(Step(s, es[0]), es[1..], k)
  }

  /** Whatever the interleaving of counting and setting with reading rounds, for every key what was
      handed out, is still held or was thrown away is what was there plus what was entered, modulo the word. */
  lemma {:induction false} FlipsAccount(s: State, es: seq<Event>, k: Key)
    requires Sound(s) && Runs(s, es)
    ensures Cong(Accounted(After(s, es), k) + LostIn(s, es, k), Accounted(s, k) + Entered(s, es, k))
    decreases |es|
  {
    hide Step, Sound, Accounted, Enabled, Lost, EnteredBy, Cong;
    if es == [] {
      CongSame(Accounted(s, k));
    } else {
      var r := Step(s, es[0]);
      StepConserves(s, es[0], k);
      FlipsAccount(r, es[1..], k);
      CongShift(Accounted(After(r, es[1..]), k) + LostIn(r, es[1..], k), Accounted(r, k) + Entered(r, es[1..], k),
                Lost(s, es[0], k));
      CongChain(Accounted(After(s, es), k) + LostIn(s, es, k), Accounted(r, k) + Lost(s, es[0], k),
                Entered(r, es[1..], k), Accounted(s, k) + EnteredBy(s, es[0], k));
    }
  }

  lemma CongSame(a: int)
    ensures Cong(a, a)
  {
  }

  /** Every round is read to its end. */
  ghost predicate ReadOut(s: State, es: seq<Event>)
    requires Sound(s) && Runs(s, es)
    decreases |es|
  {
    es != [] ==> (es[0].End? ==> s.reader.done) && ReadOut(Step(s, es[0]), es[1..])
  }

  lemma {:induction false} ReadOutLosesNothing(s: State, es: seq<Event>, k: Key)
    requires Sound(s) && Runs(s, es) && ReadOut(s, es)
    ensures LostIn(s, es, k) == 0
    decreases |es|
  {
    hide Step, From, Mapped, Peek;
    if es != [] {
      if es[0].End? {
        ReadCounts(s.Tab(s.reader.which), s.reader.pos, k);
      }
      ReadOutLosesNothing(Step(s, es[0]), es[1..], k);
    }
  }

  /** When every round is read to its end nothing is lost and nothing counted twice. */
  lemma NothingLostAcrossFlips(s: State, es: seq<Event>, k: Key)
    requires Sound(s) && Runs(s, es) && ReadOut(s, es)
    ensures Cong(Accounted(After(s, es), k), Accounted(s, k) + Entered(s, es, k))
  {
    hide Step, Sound, Accounted, Enabled, Lost, Cong, After, Entered;
    FlipsAccount(s, es, k);
    ReadOutLosesNothing(s, es, k);
  }

  /** The amounts counted for `k`. */
  function Counted(es: seq<Event>, k: nat): int {
    if es == [] then 0 else (if es[0].Inc? && es[0].key == k then es[0].amount else 0) + Counted(es[1..], k)
  }

  predicate CountsOnly(es: seq<Event>) {
    forall e :: e in es ==> !e.Set?
  }

  /** Where nothing is set, what is entered is what is counted, whatever the state. */
  lemma {:induction false} CountedIsEntered(s: State, es: seq<Event>, k: Key)
    requires Sound(s) && Runs(s, es) && CountsOnly(es)
    ensures Entered(s, es, k) == Counted(es, k)
    decreases |es|
  {
    hide Step, From, Mapped, Peek, Sound;
    if es != [] {
      assert es[0] in es;
      CountedIsEntered(Step(s, es[0]), es[1..], k);
    }
  }

  // ----- one reading round -----

  ghost function Rest(t: Table<int>, pos: nat): seq<(nat, int)>
    requires Mapped(t)
  {
    Remaining(t, pos)
  }

  lemma RestStep(t: Table<int>, pos: nat)
    requires Mapped(t)
    ensures match Peek(t, pos)
            case Some(n) => n < |t.keys| == |t.vals| && Rest(t, pos) == [(t.keys[n], t.vals[n])] + Rest(t, n + 1)
            case None => Rest(t, pos) == []
  {
  }

  lemma RestAll(t: Table<int>)
    requires Mapped(t)
    ensures |t.keys| == |t.vals| && Rest(t, 0) == Entries(t.keys, t.vals)
  {
    IterationComplete(t, 0);
  }

  /** The entries the reader has still to be handed in this round. */
  ghost function Pending(s: State): seq<(nat, int)>
    requires Sound(s) && s.reader.Reading?
  {
    Rest(s.Tab(s.reader.which), s.reader.pos)
  }

  lemma RoundStep(s: State, e: Event)
    requires Sound(s) && s.reader.Reading? && Enabled(s, e) && e != End
    ensures var r := Step(s, e); var w := s.reader.which;
            && r.reader.Reading? && r.reader.which == w && r.Tab(w) == s.Tab(w)
            && r.log + Pending(r) == s.log + Pending(s)
  {
    hide Mapped, Peek, Rest, Bump, Overwrite;
    RestStep(s.Tab(s.reader.which), s.reader.pos);
  }

  /** While a round lasts, whatever is counted meanwhile, the table being drained stands still,
      and what was handed out followed by what is to come never changes. */
  lemma {:induction false} RoundReads(s: State, es: seq<Event>)
    requires Sound(s) && s.reader.Reading? && Runs(s, es) && End !in es
    ensures var r := After(s, es); var w := s.reader.which;
            && r.reader.Reading? && r.reader.which == w && r.Tab(w) == s.Tab(w)
            && r.log + Pending(r) == s.log + Pending(s)
    decreases |es|
  {
    if es != [] {
      hide Sound, Step, Pending;
      RoundStep(s, es[0]);
      RoundReads(Step(s, es[0]), es[1..]);
    }
  }

  /** A round that has been read to the end handed out exactly the entries the table held when
      the round began, in slot order. */
  lemma RoundComplete(s: State, es: seq<Event>)
    requires Sound(s) && s.reader.Idle? && es != [] && es[0] == Begin && End !in es && Runs(s, es)
    requires After(s, es).reader.Reading? && After(s, es).reader.done
    ensures var t := s.Tab(s.index); |t.keys| == |t.vals| && After(s, es).log == s.log + Entries(t.keys, t.vals)
  {
    hide Mapped, Peek, Rest, Entries;
    RoundReads(Step(s, Begin), es[1..]);
    var r := After(s, es);
    assert r == After(Step(s, Begin), es[1..]);
    RestAll(s.Tab(s.index));
    RestStep(r.Tab(r.reader.which), r.reader.pos);
  }

  // ----- the NMSHM object -----

  /** `inc_shm` on one table, in place. */
  method BumpInPlace(t: Buffer<int>, k: Key, v: int)
    requires t.Valid() && Mapped(t.Tab())
    modifies t, t.buffer
    ensures t.Valid() && t.Tab() == Bump(old(t.Tab()), k, v)
    ensures t.cursor == old(t.cursor) && (t.buffer == old(t.buffer) || fresh(t.buffer))
  {
    hide Linked, Homed, Holds, Bag, Chain, Finishes, Add, AddWithin, Reached;
    ghost var m: map<nat, int> :| Refines(t.Tab(), m);
    var r := t.Find(k);
    match r {
      case Some(s) =>
        var v' := Wrap(t.buffer[s].value + v);
        StoreMapped(t.Tab(), m, k, v');
        t.SetValue(s, v');
      case None =>
        StoreMapped(t.Tab(), m, k, v);
        ghost var fuel := Fuel(t.Tab(), k, v);
        t.Add(k, v, fuel);
    }
  }

  /** A bound on the nesting of an `Add` that ends. */
  lemma Fuel(t: Table<int>, k: Key, v: int) returns (fuel: nat)
    requires WellFormed(t) && Finishes(t, k, v)
    ensures AddWithin(t, k, v, fuel) == Some(Add(t, k, v))
  {
    hide WellFormed, AddWithin, Add, Reached;
    fuel :| AddWithin(t, k, v, fuel).Some?;
    AddIs(t, k, v, fuel);
  }

  /** `set_shm` on one table, in place. */
  method StoreInPlace(t: Buffer<int>, k: Key, v: int)
    requires t.Valid() && Mapped(t.Tab())
    modifies t, t.buffer
    ensures t.Valid() && t.Tab() == Overwrite(old(t.Tab()), k, v)
    ensures t.cursor == old(t.cursor) && (t.buffer == old(t.buffer) || fresh(t.buffer))
  {
    hide Linked, Homed, Holds, Bag, Chain, Finishes, Add, AddWithin, Reached;
    ghost var m: map<nat, int> :| Refines(t.Tab(), m);
    StoreMapped(t.Tab(), m, k, v);
    var r := t.Find(k);
    match r {
      case Some(s) => t.SetValue(s, v);
      case None =>
        ghost var fuel := Fuel(t.Tab(), k, v);
        t.Add(k, v, fuel);
    }
  }

  const SHM_INT_SIZE: nat := 81920

  lemma FreshMapped()
    ensures Mapped(Alloc(SHM_INT_SIZE / 4, SHM_INT_SIZE, 0))
  {
    assert Refines(Alloc(SHM_INT_SIZE / 4, SHM_INT_SIZE, 0), map[]);
  }

  ghost predicate Stepped(s: State, e: Event, r: State) {
    Sound(s) && Enabled(s, e) && r == Step(s, e)
  }

  class Monitor {
    const even: Buffer<int>
    const odd: Buffer<int>
    var index: byte
    ghost var reader: Reader
    ghost var log: seq<(nat, int)>

    ghost function View(): State
      reads this, even, odd, even.buffer, odd.buffer
    {
      State(even.Tab(), odd.Tab(), index, reader, log)
    }

    ghost predicate Valid()
      reads this, even, odd, even.buffer, odd.buffer
    {
      && even != odd && even.buffer != odd.buffer
      && even.Valid() && odd.Valid() && Sound(View())
      && (reader.Reading? ==>
            var b := if reader.which % 2 == 0 then even else odd;
            if reader.done then b.cursor >= b.hashSize + b.usedSize else b.cursor == reader.pos)
    }

    /** `link_shm` creating both segments. */
    constructor ()
      ensures Valid() && fresh(even) && fresh(odd) && fresh(even.buffer) && fresh(odd.buffer)
      ensures var t := Alloc(SHM_INT_SIZE / 4, SHM_INT_SIZE, 0); View() == State(t, t, 0, Idle, [])
    {
      even := new Buffer<int>(SHM_INT_SIZE / 4, SHM_INT_SIZE, 0);
      odd := new Buffer<int>(SHM_INT_SIZE / 4, SHM_INT_SIZE, 0);
      index, reader, log := 0, Idle, [];
      new;
      FreshMapped();
    }

    method IncShm(k: Key, v: int)
      requires Valid()
      modifies this, even, odd, even.buffer, odd.buffer
      ensures Valid() && Stepped(old(View()), Inc(k, v), View())
    {
      hide Mapped, Bump, Peek, WellFormed, TableOf;
      if index % 2 == 0 {
        BumpInPlace(even, k, v);
      } else {
        BumpInPlace(odd, k, v);
      }
    }

    method SetShm(k: Key, v: int)
      requires Valid()
      modifies this, even, odd, even.buffer, odd.buffer
      ensures Valid() && Stepped(old(View()), Set(k, v), View())
    {
      hide Mapped, Overwrite, Peek, WellFormed, TableOf;
      if index % 2 == 0 {
        StoreInPlace(even, k, v);
      } else {
        StoreInPlace(odd, k, v);
      }
    }

    method BeginReadShm() returns (cur: byte)
      requires Valid() && reader.Idle?
      modifies this, even`cursor, odd`cursor
      ensures Valid() && cur == old(index) && Stepped(old(View()), Begin, View())
    {
      hide Mapped, TableOf, Peek;
      cur := index;
      index := 255 - cur;
      if cur % 2 == 0 {
        even.Begin();
      } else {
        odd.Begin();
      }
      reader := Reading(cur, 0, false);
    }

    method ReadShm(cur: byte) returns (r: Option<(nat, int)>)
      requires Valid() && reader.Reading? && reader.which == cur
      modifies this, even`cursor, odd`cursor
      ensures Valid() && Stepped(old(View()), Read, View())
      ensures r.Some? ==> log == old(log) + [r.value]
      ensures r.None? ==> log == old(log) && reader == old(reader).(done := true)
    {
      hide Mapped, Chain, Linked, Homed;
      ghost var s := View();
      if cur % 2 == 0 {
        r := even.Next();
      } else {
        r := odd.Next();
      }
      reader, log := Step(s, Read).reader, Step(s, Read).log;
      assert View() == Step(s, Read);
    }

    method EndReadShm(cur: byte)
      requires Valid() && reader.Reading? && reader.which == cur
      modifies this, even, odd, even.buffer, odd.buffer
      ensures Valid() && Stepped(old(View()), End, View())
    {
      ghost var s := View();
      hide Mapped, TableOf, Peek, Linked, Homed;
      if cur % 2 == 0 {
        even.Clear();
      } else {
        odd.Clear();
      }
      reader := Idle;
      assert View() == Step(s, End);
    }
  }
}
