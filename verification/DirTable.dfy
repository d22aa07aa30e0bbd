/** `refresh_disk_info` and `get_max_free_storage` of network/pfs_init.c over a configuration of
    DIR1 times DIR2 directories. */
module DirTable {
  import opened Common
  import opened DiskDirs

  /** The file system of each directory, as statfs reports it. */
  type FsMap = (nat, nat) -> nat

  /** The k-th directory in visiting order: row by row. */
  function VisitAt(dir1: nat, dir2: nat, fsOf: FsMap, k: nat): Visit
    requires dir2 > 0
  {
    Visit(Code(dir1, k / dir2, k % dir2), fsOf(k / dir2, k % dir2))
  }

  function Visits(dir1: nat, dir2: nat, fsOf: FsMap): (vs: seq<Visit>)
    ensures |vs| == dir1 * dir2
  {
    seq(dir1 * dir2, k requires 0 <= k < dir1 * dir2 => PositiveFactor(dir1, dir2, k); VisitAt(dir1, dir2, fsOf, k))
  }

  lemma PositiveFactor(dir1: nat, dir2: nat, k: nat)
    requires k < dir1 * dir2
    ensures dir2 > 0
  {
  }

  lemma CodesIncrease(dir1: nat, dir2: nat, k: nat, k': nat)
    requires 0 < dir2 <= dir1 && k < k'
    ensures Code(dir1, k / dir2, k % dir2) < Code(dir1, k' / dir2, k' % dir2)
  {
    DivOrder(dir2, k / dir2, k % dir2, k' / dir2, k' % dir2);
    CodeOrder(dir1, k / dir2, k % dir2, k' / dir2, k' % dir2);
  }

  lemma DivOrder(m: nat, a: nat, b: nat, a': nat, b': nat)
    requires b < m && b' < m && m * a + b < m * a' + b'
    ensures a < a' || (a == a' && b < b')
  {
    var d := a - a';
    assert m * d == m * a - m * a';
    assert d >= 1 ==> m * d >= m;
  }

  lemma CodeOrder(m: nat, a: nat, b: nat, a': nat, b': nat)
    requires b < m && (a < a' || (a == a' && b < b'))
    ensures Code(m, a, b) < Code(m, a', b')
  {
    var d := a' - a;
    assert d * m == a' * m - a * m;
    assert d >= 1 ==> d * m >= m;
  }

  lemma VisitsGood(dir1: nat, dir2: nat, fsOf: FsMap)
    requires dir2 <= dir1
    ensures GoodVisits(Visits(dir1, dir2, fsOf))
  {
    var vs := Visits(dir1, dir2, fsOf);
    forall i, j | 0 <= i < j < |vs| ensures vs[i].code < vs[j].code {
      PositiveFactor(dir1, dir2, i);
      CodesIncrease(dir1, dir2, i, j);
    }
  }

  /** The table after `memset`. */
  ghost predicate Zeroed(disks: seq<Disk>) {
    |disks| == MAXDISKS && forall k :: 0 <= k < MAXDISKS ==> Blank(disks[k])
  }

  /** The first pass over a zeroed table succeeds exactly when no file system has more than
      TOTALDIRS directories, and then every disk holds exactly its directories, even though 0 is
      both "empty" and the code of (0,0). */
  lemma FirstPass(disks: seq<Disk>, dir1: nat, dir2: nat, fsOf: FsMap)
    requires Zeroed(disks) && dir2 <= dir1
    requires |FsSet(Visits(dir1, dir2, fsOf))| <= MAXDISKS
    ensures Shaped(disks)
    ensures var vs := Visits(dir1, dir2, fsOf);
            && (Pass(disks, vs).Done? <==> Fits(vs))
            && (Pass(disks, vs).Done? ==> Represents(Pass(disks, vs).disks, |FsSet(vs)|, vs))
  {
    var vs := Visits(dir1, dir2, fsOf);
    VisitsGood(dir1, dir2, fsOf);
    assert FsSet([]) == {};
    assert Represents(disks, 0, []);
    assert [] + vs == vs;
    PassFrom(disks, 0, [], vs);
  }

  /** A later pass over directories already stored changes no cell, and succeeds exactly when
      none of their disks is full. */
  lemma {:induction false} LaterPass(disks: seq<Disk>, n: nat, vs: seq<Visit>, ws: seq<Visit>)
    requires Represents(disks, n, vs) && forall i :: 0 <= i < |ws| ==> ws[i] in vs
    ensures Shaped(disks)
    ensures Pass(disks, ws).Done? <==> forall i :: 0 <= i < |ws| ==> |CodesOn(vs, ws[i].fs)| < TOTALDIRS
    ensures Pass(disks, ws).Done? ==> Pass(disks, ws).disks == disks
    decreases |ws|
  {
    RepresentsShaped(disks, n, vs);
    hide Represents, CodesOn, Shaped, SetInfo;
    if ws != [] {
      assert ws[0] in vs;
      Revisit(disks, n, vs, ws[0]);
      forall i | 0 <= i < |ws[1..]|
        ensures ws[1..][i] in vs
      {
        assert ws[1..][i] == ws[i + 1];
      }
      LaterPass(disks, n, vs, ws[1..]);
      AllButFirst(vs, ws);
    }
  }

  lemma AllButFirst(vs: seq<Visit>, ws: seq<Visit>)
    requires ws != []
    ensures (forall i :: 0 <= i < |ws| ==> |CodesOn(vs, ws[i].fs)| < TOTALDIRS) <==>
      && |CodesOn(vs, ws[0].fs)| < TOTALDIRS
      && forall i :: 0 <= i < |ws[1..]| ==> |CodesOn(vs, ws[1..][i].fs)| < TOTALDIRS
  {
    hide CodesOn;
    assert forall i :: 0 < i < |ws| ==> ws[i] == ws[1..][i - 1];
    assert forall i :: 0 <= i < |ws[1..]| ==> ws[1..][i] == ws[i + 1];
  }

  /** Once every disk belongs to another file system, directories on a further one are passed over. */
  lemma FurtherIgnored(disks: seq<Disk>, v: Visit, ws: seq<Visit>)
    requires Shaped(disks) && forall k :: 0 <= k < MAXDISKS ==> disks[k].count != 0 && disks[k].fsid != v.fs
    ensures SetInfo(disks, v.fs, v.code) == NoSlot && Pass(disks, [v] + ws) == Pass(disks, ws)
  {
    assert ([v] + ws)[1..] == ws;
  }

  lemma Revisit(disks: seq<Disk>, n: nat, vs: seq<Visit>, v: Visit)
    requires Represents(disks, n, vs) && v in vs
    ensures Shaped(disks)
    ensures if |CodesOn(vs, v.fs)| < TOTALDIRS
            then SetInfo(disks, v.fs, v.code).Used? && SetInfo(disks, v.fs, v.code).disks == disks
            else SetInfo(disks, v.fs, v.code) == Full
  {
    hide Represents, CodesOn, Slot, Scan, FsSet, Holds;
    InFsSet(vs, v);
    KnownSlot(disks, n, vs, v.fs);
    CodesFrom(vs, v.fs, v.code);
    ScanFinds(disks[Slot(disks, v.fs, 0)], CodesOn(vs, v.fs), v.code);
  }

  lemma InFsSet(vs: seq<Visit>, v: Visit)
    requires v in vs
    ensures v.fs in FsSet(vs)
  {
    var p :| 0 <= p < |vs| && vs[p] == v;
  }

  // ----- allocation -----

  predicate Ready(disk: Disk) { disk.index < disk.count <= |disk.cells| }

  /** `get_max_free_storage` on the chosen disk: the code handed out and the disk after it. */
  function Take(disk: Disk): (r: (nat, Disk))
    requires Ready(disk)
    ensures Ready(r.1) && r.1.cells == disk.cells && r.1.count == disk.count
  {
    (disk.cells[disk.index], disk.(index := if disk.index + 1 >= disk.count then 0 else disk.index + 1))
  }

  function TakeMany(disk: Disk, n: nat): (codes: seq<nat>)
    requires Ready(disk)
    ensures |codes| == n
    decreases n
  {
    if n == 0 then [] else [Take(disk).0] + TakeMany(Take(disk).1, n - 1)
  }

  lemma {:induction false} TakeAt(disk: Disk, n: nat, k: nat)
    requires Ready(disk) && k < n <= disk.count
    ensures TakeMany(disk, n)[k]
         == disk.cells[if disk.index + k < disk.count then disk.index + k else disk.index + k - disk.count]
    decreases n
  {
    if k > 0 {
      TakeAt(Take(disk).1, n - 1, k - 1);
    }
  }

  /** Any `count` consecutive calls hand out the cells in order from the cursor round. */
  lemma TakeRound(disk: Disk)
    requires Ready(disk)
    ensures TakeMany(disk, disk.count) == disk.cells[disk.index..disk.count] + disk.cells[..disk.index]
  {
    hide TakeMany;
    var r := disk.cells[disk.index..disk.count] + disk.cells[..disk.index];
    forall k | 0 <= k < disk.count ensures TakeMany(disk, disk.count)[k] == r[k] {
      TakeAt(disk, disk.count, k);
    }
  }

  /** Any `count` consecutive calls hand out every directory of the disk exactly once. */
  lemma FairAllocation(disk: Disk, l: seq<nat>)
    requires Holds(disk, l)
    ensures Ready(disk) && multiset(TakeMany(disk, disk.count)) == multiset(l)
  {
    TakeRound(disk);
    CellsPrefix(disk, l);
    hide Holds, Stored;
    Rotation(Stored(l), disk.index);
    assert disk.cells[disk.index..disk.count] == Stored(l)[disk.index..];
    assert disk.cells[..disk.index] == Stored(l)[..disk.index];
  }

  lemma CellsPrefix(disk: Disk, l: seq<nat>)
    requires Holds(disk, l)
    ensures |disk.cells| == TOTALDIRS && disk.count <= TOTALDIRS && disk.cells[..disk.count] == Stored(l)
  {
  }

  lemma Rotation(s: seq<nat>, i: nat)
    requires i <= |s|
    ensures multiset(s[i..] + s[..i]) == multiset(s)
  {
    assert s == s[..i] + s[i..];
  }

  /** What is handed out decodes to the directories of that file system, and to all of them. */
  lemma CodesDecode(dir1: nat, dir2: nat, fsOf: FsMap, fs: nat, d1: nat, d2: nat)
    requires dir2 <= dir1 && d1 < dir1 && d2 < dir2
    ensures Code(dir1, d1, d2) in CodesOn(Visits(dir1, dir2, fsOf), fs) <==> fsOf(d1, d2) == fs
    ensures Decode(dir1, Code(dir1, d1, d2)) == (d1, d2)
  {
    var vs, c := Visits(dir1, dir2, fsOf), Code(dir1, d1, d2);
    DecodeExactly(dir1, d1, d2);
    CodesFrom(vs, fs, c);
    var k := dir2 * d1 + d2;
    VisitAtRow(dir1, dir2, fsOf, d1, d2);
    VisitsGood(dir1, dir2, fsOf);
    assert vs[k] == Visit(c, fsOf(d1, d2));
    hide Visits, Code, Decode, CodesOn;
    if Visit(c, fs) in vs {
      var j :| 0 <= j < |vs| && vs[j] == Visit(c, fs);
      assert j == k;
    }
  }

  /** Handing a directory out leaves the disk's directories as they are, so a later refresh finds them. */
  lemma TakeHolds(disk: Disk, l: seq<nat>)
    requires Holds(disk, l)
    ensures Ready(disk) && Holds(Take(disk).1, l) && Take(disk).0 in l
  {
    CellsPrefix(disk, l);
    assert Take(disk).0 == Stored(l)[disk.index];
    assert Take(disk).0 in multiset(Stored(l));
  }

  /** The directories that `n` consecutive calls return. */
  function Served(dir1: nat, codes: seq<nat>): seq<(nat, nat)>
    requires dir1 > 0
  {
    if codes == [] then [] else Served(dir1, codes[..|codes| - 1]) + [Decode(dir1, codes[|codes| - 1])]
  }

  /** A directory is returned as often as its code is handed out. */
  lemma {:induction false} ServedCounts(dir1: nat, codes: seq<nat>, d1: nat, d2: nat)
    requires d2 < dir1
    ensures multiset(Served(dir1, codes))[(d1, d2)] == multiset(codes)[Code(dir1, d1, d2)]
  {
    if codes != [] {
      var n := |codes| - 1;
      ServedCounts(dir1, codes[..n], d1, d2);
      DecodeExactly(dir1, d1, d2);
      assert codes == codes[..n] + [codes[n]];
      CodeOfDecoded(dir1, codes[n]);
    }
  }

  lemma CodeOfDecoded(dir1: nat, c: nat)
    requires dir1 > 0
    ensures Code(dir1, Decode(dir1, c).0, Decode(dir1, c).1) == c
  {
  }

  lemma OnceInList(l: seq<nat>, c: nat)
    requires Dirs(l)
    ensures multiset(l)[c] == if c in l then 1 else 0
  {
    if c in l {
      var i :| 0 <= i < |l| && l[i] == c;
      assert l == l[..i] + [c] + l[i + 1..];
      assert c !in l[..i] && c !in l[i + 1..];
    } else {
      assert c !in multiset(l);
    }
  }

  /** After the first refresh, a round of calls on a disk returns each directory of its file system
      once, and no other. */
  lemma EveryDirectoryServed(disks: seq<Disk>, dir1: nat, dir2: nat, fsOf: FsMap, k: nat, d1: nat, d2: nat)
    requires Zeroed(disks) && dir2 <= dir1 && d1 < dir1 && d2 < dir2
    requires |FsSet(Visits(dir1, dir2, fsOf))| <= MAXDISKS && k < |FsSet(Visits(dir1, dir2, fsOf))|
    ensures Shaped(disks)
    ensures match Pass(disks, Visits(dir1, dir2, fsOf))
      case Failed => true
      case Done(after) =>
        k < |after| && Ready(after[k]) &&
        multiset(Served(dir1, TakeMany(after[k], after[k].count)))[(d1, d2)]
        == if fsOf(d1, d2) == after[k].fsid then 1 else 0
  {
    hide Visits, Pass, CodesOn, Take, TakeMany, Served, Shaped, Holds, Dirs, Code, Decode;
    var vs := Visits(dir1, dir2, fsOf);
    FirstPass(disks, dir1, dir2, fsOf);
    if Pass(disks, vs).Done? {
      var disk := Pass(disks, vs).disks[k];
      assert UsedDisk(disk, vs);
      var l := CodesOn(vs, disk.fsid);
      FairAllocation(disk, l);
      ServedCounts(dir1, TakeMany(disk, disk.count), d1, d2);
      HoldsDirs(disk, l);
      OnceInList(l, Code(dir1, d1, d2));
      CodesDecode(dir1, dir2, fsOf, disk.fsid, d1, d2);
    }
  }

  lemma HoldsDirs(disk: Disk, l: seq<nat>)
    requires Holds(disk, l)
    ensures Dirs(l)
  {
  }

  lemma RowFits(dir1: nat, dir2: nat, d1: nat)
    requires d1 < dir1
    ensures dir2 * d1 + dir2 <= dir1 * dir2
  {
    MulLe(dir2, d1 + 1, dir1);
    assert dir2 * (d1 + 1) == dir2 * d1 + dir2;
  }

  lemma RowNext(dir2: nat, d1: nat)
    ensures dir2 * (d1 + 1) == dir2 * d1 + dir2
  {
  }

  lemma RowLast(dir1: nat, dir2: nat, fsOf: FsMap)
    ensures |Visits(dir1, dir2, fsOf)| == dir2 * dir1
  {
    assert dir1 * dir2 == dir2 * dir1;
  }

  lemma MulLe(c: nat, a: nat, b: nat)
    requires a <= b
    ensures c * a <= c * b
  {
    var d := b - a;
    assert c * b == c * a + c * d;
  }

  lemma VisitAtRow(dir1: nat, dir2: nat, fsOf: FsMap, d1: nat, d2: nat)
    requires d1 < dir1 && d2 < dir2
    ensures dir2 * d1 + d2 < |Visits(dir1, dir2, fsOf)|
    ensures Visits(dir1, dir2, fsOf)[dir2 * d1 + d2] == Visit(d1 * dir1 + d2, fsOf(d1, d2))
  {
    RowFits(dir1, dir2, d1);
    Euclid(dir2 * d1 + d2, dir2, d1, d2);
  }

  lemma PassEnd(disks: seq<Disk>)
    requires Shaped(disks)
    ensures Pass(disks, []) == Done(disks)
  {
  }

  lemma PassStep(disks: seq<Disk>, vs: seq<Visit>, k: nat)
    requires Shaped(disks) && k < |vs|
    ensures match SetInfo(disks, vs[k].fs, vs[k].code)
            case Used(ds, i) => Shaped(ds) && i < MAXDISKS && Pass(disks, vs[k..]) == Pass(ds, vs[k + 1..])
            case Full => Pass(disks, vs[k..]) == Failed
            case NoSlot => Pass(disks, vs[k..]) == Pass(disks, vs[k + 1..])
  {
    assert vs[k..][0] == vs[k] && vs[k..][1..] == vs[k + 1..];
  }

  // ----- the global table, changed in place -----

  class DiskInfo {
    const disks: array<Disk>
    /** max_disk as an index: -1 is NULL, MAXDISKS is one past the end. */
    var maxDisk: int

    ghost predicate Valid()
      reads this, disks
    {
      Shaped(disks[..]) && -1 <= maxDisk <= MAXDISKS
    }

    /** The zeroed table of `init_storage_dir`. */
    constructor ()
      ensures Valid() && Zeroed(disks[..]) && maxDisk == -1 && fresh(disks)
    {
      disks := new Disk[MAXDISKS](_ => Disk(0, 0, 0, Zeros(TOTALDIRS)));
      maxDisk := -1;
    }

    /** The cell loop of `set_info_disk`. */
    method ScanCells(i: nat, code: nat) returns (j: nat)
      requires Valid() && i < MAXDISKS
      ensures j == Scan(disks[i].cells, code, 0)
    {
      j := 0;
      while j < TOTALDIRS
        invariant j <= TOTALDIRS && Scan(disks[i].cells, code, j) == Scan(disks[i].cells, code, 0)
      {
        if disks[i].cells[j] == code || disks[i].cells[j] == 0 {
          return;
        }
        j := j + 1;
      }
    }

    /** `set_info_disk`, with statfs succeeding. */
    method SetInfoDisk(fs: nat, code: nat) returns (ok: bool)
      requires Valid()
      modifies this, disks
      ensures Valid()
      ensures match SetInfo(old(disks[..]), fs, code)
              case Used(ds, i) => ok && disks[..] == ds && maxDisk == i
              case Full => !ok && disks[..] == old(disks[..]) && maxDisk == old(maxDisk)
              case NoSlot => ok && disks[..] == old(disks[..]) && maxDisk == MAXDISKS
    {
      var i := 0;
      ok := true;
      while i < MAXDISKS
        invariant i <= MAXDISKS && Slot(disks[..], fs, i) == Slot(disks[..], fs, 0)
        invariant disks[..] == old(disks[..]) && ok
      {
        if disks[i].count == 0 {
          Overwrite(i, disks[i].(fsid := fs, count := 1, cells := disks[i].cells[0 := code]));
          break;
        }
        if disks[i].fsid == fs {
          if disks[i].count >= TOTALDIRS {
            return false;
          }
          var j := ScanCells(i, code);
          if j == TOTALDIRS {
            return false;
          }
          if disks[i].cells[j] != code {
            Overwrite(i, disks[i].(count := disks[i].count + 1, cells := disks[i].cells[j := code]));
          }
          break;
        }
        i := i + 1;
      }
      maxDisk := i;
    }

    /** `refresh_disk_info`: both loops, stopping at an error. */
    method RefreshDiskInfo(dir1: nat, dir2: nat, fsOf: FsMap) returns (ok: bool)
      requires Valid()
      modifies this, disks
      ensures Valid()
      ensures ok ==> Pass(old(disks[..]), Visits(dir1, dir2, fsOf)) == Done(disks[..])
      ensures !ok ==> Pass(old(disks[..]), Visits(dir1, dir2, fsOf)) == Failed || maxDisk == -1
      ensures dir1 * dir2 > 0 && ok ==> maxDisk >= 0
    {
      ghost var vs := Visits(dir1, dir2, fsOf);
      ghost var k := 0;
      var d1 := 0;
      assert vs[0..] == vs;
      hide Visits, Pass, SetInfo, Shaped;
      while d1 < dir1
        invariant d1 <= dir1 && Valid() && k == dir2 * d1 <= |vs|
        invariant Pass(disks[..], vs[k..]) == Pass(old(disks[..]), vs)
        invariant k > 0 ==> maxDisk >= 0
      {
        RowFits(dir1, dir2, d1);
        ok := RefreshRow(dir1, dir2, fsOf, d1);
        if !ok {
          return;
        }
        RowNext(dir2, d1);
        d1, k := d1 + 1, k + dir2;
      }
      assert k == |vs| by {
        RowLast(dir1, dir2, fsOf);
      }
      assert vs[k..] == [];
      PassEnd(disks[..]);
      ok := maxDisk != -1;
    }

    /** The inner loop of `refresh_disk_info`. */
    method RefreshRow(dir1: nat, dir2: nat, fsOf: FsMap, d1: nat) returns (ok: bool)
      requires Valid() && d1 < dir1 && dir2 * d1 + dir2 <= |Visits(dir1, dir2, fsOf)|
      modifies this, disks
      ensures Valid() && (ok && dir2 > 0 ==> maxDisk >= 0) && (dir2 == 0 ==> maxDisk == old(maxDisk))
      ensures var vs := Visits(dir1, dir2, fsOf); var result := Pass(old(disks[..]), vs[dir2 * d1..]);
              if ok then Pass(disks[..], vs[dir2 * d1 + dir2..]) == result else result == Failed
    {
      ghost var vs := Visits(dir1, dir2, fsOf);
      ghost var k := dir2 * d1;
      var d2 := 0;
      ok := true;
      hide Visits, Pass, SetInfo, Shaped;
      while d2 < dir2
        invariant d2 <= dir2 && Valid() && k == dir2 * d1 + d2 <= |vs| && ok
        invariant Pass(disks[..], vs[k..]) == Pass(old(disks[..]), vs[dir2 * d1..])
        invariant if d2 > 0 then maxDisk >= 0 else maxDisk == old(maxDisk)
      {
        VisitAtRow(dir1, dir2, fsOf, d1, d2);
        PassStep(disks[..], vs, k);
        ok := SetInfoDisk(fsOf(d1, d2), d1 * dir1 + d2);
        if !ok {
          return;
        }
        d2, k := d2 + 1, k + 1;
      }
    }

    method Overwrite(i: nat, d: Disk)
      requires Valid() && i < MAXDISKS && |d.cells| == TOTALDIRS
      modifies disks
      ensures Valid() && disks[..] == old(disks[..])[i := d]
    {
      disks[i] := d;
    }

    /** `get_max_free_storage`; without a disk it leaves its results at zero. */
    method GetMaxFreeStorage(dir1: nat) returns (d1: nat, d2: nat)
      requires Valid() && dir1 > 0
      requires maxDisk < MAXDISKS && (maxDisk >= 0 ==> Ready(disks[maxDisk]))
      modifies disks
      ensures Valid()
      ensures maxDisk < 0 ==> (d1, d2) == (0, 0) && disks[..] == old(disks[..])
      ensures maxDisk >= 0 ==> (d1, d2) == Decode(dir1, Take(old(disks[maxDisk])).0)
      ensures maxDisk >= 0 ==> disks[..] == old(disks[..])[maxDisk := Take(old(disks[maxDisk])).1]
    {
      d1, d2 := 0, 0;
      if maxDisk < 0 {
        return;
      }
      var d := disks[maxDisk];
      var code := d.cells[d.index];
      d1, d2 := code / dir1, code % dir1;
      var index := d.index + 1;
      if index >= d.count {
        index := 0;
      }
      Overwrite(maxDisk, d.(index := index));
    }
  }
}
