/** The directory table of network/pfs_init.c: directories are stored by integer code, per file
    system, in an array whose zero cells also mean "empty", although 0 codes directory (0,0). */
module DiskDirs {
  import opened Common

  const MAXDISKS: nat := 32
  const TOTALDIRS: nat := 10000

  /** t_disk_info. */
  datatype Disk = Disk(fsid: nat, count: nat, index: nat, cells: seq<nat>)

  // ----- codes -----

  function Code(dir1: nat, d1: nat, d2: nat): nat { d1 * dir1 + d2 }

  /** What `get_max_free_storage` makes of a code. */
  function Decode(dir1: nat, code: nat): (nat, nat)
    requires dir1 > 0
  {
    (code / dir1, code % dir1)
  }

  /** A code decodes to its directory exactly when the second index is below DIR1. */
  lemma DecodeExactly(dir1: nat, d1: nat, d2: nat)
    requires dir1 > 0
    ensures Decode(dir1, Code(dir1, d1, d2)) == (d1, d2) <==> d2 < dir1
  {
    if d2 < dir1 {
      Euclid(Code(dir1, d1, d2), dir1, d1, d2);
    }
  }

  /** Every directory of the configuration decodes correctly exactly when DIR2 <= DIR1. */
  lemma AllDecodeExactly(dir1: nat, dir2: nat)
    requires dir1 > 0
    ensures (forall d1: nat, d2: nat :: d1 < dir1 && d2 < dir2 ==> Decode(dir1, Code(dir1, d1, d2)) == (d1, d2))
        <==> dir2 <= dir1
  {
    forall d1: nat, d2: nat ensures Decode(dir1, Code(dir1, d1, d2)) == (d1, d2) <==> d2 < dir1 {
      DecodeExactly(dir1, d1, d2);
    }
    if dir2 > dir1 {
      assert Decode(dir1, Code(dir1, 0, dir1)) != (0, dir1);
    }
  }

  // ----- visiting one directory -----

  /** How `set_info_disk` leaves one call: the table and the disk used, an error return, or a
      file system too many. */
  datatype Outcome = Used(disks: seq<Disk>, disk: nat) | Full | NoSlot

  /** The cell scan: the first cell that holds the code or is zero. */
  function Scan(cells: seq<nat>, code: nat, j: nat): (r: nat)
    requires j <= |cells|
    ensures j <= r <= |cells|
    ensures forall i :: j <= i < r ==> cells[i] != code && cells[i] != 0
    ensures r < |cells| ==> cells[r] == code || cells[r] == 0
    decreases |cells| - j
  {
    if j == |cells| || cells[j] == code || cells[j] == 0 then j else Scan(cells, code, j + 1)
  }

  function SetDisk(disk: Disk, fs: nat, code: nat): (r: Disk)
    requires |disk.cells| == TOTALDIRS
    requires disk.count == 0 || Scan(disk.cells, code, 0) < TOTALDIRS
    ensures |r.cells| == TOTALDIRS
  {
    if disk.count == 0 then disk.(fsid := fs, count := 1, cells := disk.cells[0 := code])
    else
      var j := Scan(disk.cells, code, 0);
      if disk.cells[j] == code then disk
      else disk.(count := disk.count + 1, cells := disk.cells[j := code])
  }

  predicate Shaped(disks: seq<Disk>) {
    |disks| == MAXDISKS && forall i :: 0 <= i < MAXDISKS ==> |disks[i].cells| == TOTALDIRS
  }

  /** The first disk that is unused or belongs to the file system. */
  function Slot(disks: seq<Disk>, fs: nat, i: nat): (r: nat)
    requires i <= |disks|
    ensures i <= r <= |disks|
    ensures forall k :: i <= k < r ==> disks[k].count != 0 && disks[k].fsid != fs
    ensures r < |disks| ==> disks[r].count == 0 || disks[r].fsid == fs
    decreases |disks| - i
  {
    if i == |disks| || disks[i].count == 0 || disks[i].fsid == fs then i else Slot(disks, fs, i + 1)
  }

  function SetInfo(disks: seq<Disk>, fs: nat, code: nat): (r: Outcome)
    requires Shaped(disks)
    ensures r.Used? ==> Shaped(r.disks) && r.disk < MAXDISKS
  {
    var i := Slot(disks, fs, 0);
    if i == MAXDISKS then NoSlot
    else if disks[i].count != 0 && (disks[i].count >= TOTALDIRS || Scan(disks[i].cells, code, 0) == TOTALDIRS) then Full
    else Used(disks[i := SetDisk(disks[i], fs, code)], i)
  }

  // ----- what the cells mean -----

  /** A refresh never moves the cursor of a disk, and touches no more than the disk it names. */
  lemma CursorsStay(disks: seq<Disk>, fs: nat, code: nat, k: nat)
    requires Shaped(disks) && k < MAXDISKS && SetInfo(disks, fs, code).Used?
    ensures var r := SetInfo(disks, fs, code);
      r.disks[k].index == disks[k].index && (k != r.disk ==> r.disks[k] == disks[k])
  {
  }

  /** The cells after the directories `l` were stored in this order, on a zeroed disk: directory
      (0,0), if it is there, ends up behind the others. */
  ghost function Stored(l: seq<nat>): (s: seq<nat>)
    ensures |s| == |l|
    ensures multiset(s) == multiset(l)
  {
    if l != [] && l[0] == 0 then
      assert l == [l[0]] + l[1..];
      l[1..] + [0]
    else l
  }

  /** Distinct codes, of which only the first may be 0. */
  ghost predicate Dirs(l: seq<nat>) {
    && (forall i, j :: 0 <= i < j < |l| ==> l[i] != l[j])
    && (forall i :: 0 < i < |l| ==> l[i] != 0)
  }

  /** Where the stored directories end in non-zero cells. */
  ghost function FirstZero(l: seq<nat>): nat
    requires l != []
  {
    if l[0] == 0 then |l| - 1 else |l|
  }

  lemma StoredShape(l: seq<nat>)
    requires l != [] && Dirs(l)
    ensures forall i :: 0 <= i < FirstZero(l) ==> Stored(l)[i] != 0
    ensures forall i :: FirstZero(l) <= i < |l| ==> Stored(l)[i] == 0
    ensures forall c :: c in Stored(l) <==> c in l
  {
    assert forall c :: c in Stored(l) <==> c in multiset(Stored(l));
    assert forall c :: c in l <==> c in multiset(l);
  }

  /** The disk holds exactly the directories `l`, and nothing in the cells beyond. */
  ghost predicate Holds(disk: Disk, l: seq<nat>) {
    && l != [] && Dirs(l) && |l| <= TOTALDIRS
    && disk.index < disk.count == |l| && disk.cells == Stored(l) + Zeros(TOTALDIRS - |l|)
  }

  lemma ZerosSplit(n: nat)
    requires n > 0
    ensures Zeros(n) == [0] + Zeros(n - 1)
  {
  }

  /** The cells up to the first zero are the stored non-zero codes. */
  lemma CellsShape(disk: Disk, l: seq<nat>)
    requires Holds(disk, l)
    ensures |disk.cells| == TOTALDIRS
    ensures forall i :: 0 <= i < FirstZero(l) ==> disk.cells[i] == Stored(l)[i] && disk.cells[i] != 0
    ensures forall i :: FirstZero(l) <= i < TOTALDIRS ==> disk.cells[i] == 0
  {
    StoredShape(l);
  }

  /** Only the first directory can have code 0, so the scan finds a stored directory before it
      meets a zero cell. */
  lemma ScanFinds(disk: Disk, l: seq<nat>, code: nat)
    requires Holds(disk, l) && code in l
    ensures var j := Scan(disk.cells, code, 0); j < TOTALDIRS && disk.cells[j] == code
  {
    CellsShape(disk, l);
    StoredShape(l);
    var s := Stored(l);
    var p :| 0 <= p < |s| && s[p] == code;
    assert disk.cells[p] == code;
  }

  /** A new directory goes into the first zero cell, which keeps the meaning of the cells. */
  lemma ScanAppends(disk: Disk, l: seq<nat>, code: nat)
    requires Holds(disk, l) && code !in l && code != 0 && |l| < TOTALDIRS
    ensures Scan(disk.cells, code, 0) < TOTALDIRS
    ensures Holds(SetDisk(disk, disk.fsid, code), l + [code])
  {
    ScanToZero(disk, l, code);
    hide Scan, Stored;
    CellsShape(disk, l);
    StoredAppend(l, code);
    CellsAppend(disk, l, code);
  }

  /** A new directory goes to the first zero cell. */
  lemma ScanToZero(disk: Disk, l: seq<nat>, code: nat)
    requires Holds(disk, l) && code !in l && code != 0 && |l| < TOTALDIRS
    ensures |disk.cells| == TOTALDIRS && FirstZero(l) < TOTALDIRS && disk.cells[FirstZero(l)] == 0
    ensures Scan(disk.cells, code, 0) == FirstZero(l)
  {
    CellsShape(disk, l);
    StoredShape(l);
    var s, z := Stored(l), FirstZero(l);
    hide Stored, Zeros;
    assert disk.cells[z] == 0;
    forall i | 0 <= i < z
      ensures disk.cells[i] != code
    {
      assert s[i] in s;
    }
  }

  lemma CellsAppend(disk: Disk, l: seq<nat>, code: nat)
    requires Holds(disk, l) && code !in l && code != 0 && |l| < TOTALDIRS && |disk.cells| == TOTALDIRS
    ensures FirstZero(l) < TOTALDIRS
    ensures disk.cells[FirstZero(l) := code] == Stored(l + [code]) + Zeros(TOTALDIRS - |l + [code]|)
  {
    StoredAppend(l, code);
    ZerosSplit(TOTALDIRS - |l|);
    hide Stored, Zeros;
  }

  lemma StoredAppend(l: seq<nat>, code: nat)
    requires l != [] && Dirs(l) && code !in l && code != 0
    ensures Dirs(l + [code])
    ensures Stored(l + [code]) == (Stored(l) + [0])[FirstZero(l) := code]
  {
  }

  // ----- a whole pass -----

  /** A directory and the file system statfs reports for it. */
  datatype Visit = Visit(code: nat, fs: nat)

  /** The directories on file system `fs`, in visiting order. */
  ghost function CodesOn(vs: seq<Visit>, fs: nat): seq<nat> {
    if vs == [] then []
    else
      var v := vs[|vs| - 1];
      CodesOn(vs[..|vs| - 1], fs) + if v.fs == fs then [v.code] else []
  }

  ghost function FsSet(vs: seq<Visit>): set<nat> {
    set i | 0 <= i < |vs| :: vs[i].fs
  }

  /** Codes are distinct, and only the first directory visited is (0,0). */
  ghost predicate GoodVisits(vs: seq<Visit>) {
    && (forall i, j :: 0 <= i < j < |vs| ==> vs[i].code != vs[j].code)
    && (forall i :: 0 < i < |vs| ==> vs[i].code != 0)
  }

  ghost predicate Blank(disk: Disk) {
    disk.count == 0 && disk.index == 0 && disk.cells == Zeros(TOTALDIRS)
  }

  ghost predicate UsedDisk(disk: Disk, vs: seq<Visit>) {
    disk.fsid in FsSet(vs) && Holds(disk, CodesOn(vs, disk.fsid))
  }

  /** The first `n` disks are the file systems seen so far, each with exactly its directories;
      the others are untouched. */
  ghost predicate Represents(disks: seq<Disk>, n: nat, vs: seq<Visit>) {
    && n <= |disks| == MAXDISKS && n == |FsSet(vs)|
    && (forall k :: 0 <= k < n ==> UsedDisk(disks[k], vs))
    && (forall k, k' :: 0 <= k < k' < n ==> disks[k].fsid != disks[k'].fsid)
    && (forall fs :: fs in FsSet(vs) ==> exists k :: 0 <= k < n && disks[k].fsid == fs)
    && (forall k :: n <= k < MAXDISKS ==> Blank(disks[k]))
  }

  lemma RepresentsShaped(disks: seq<Disk>, n: nat, vs: seq<Visit>)
    requires Represents(disks, n, vs)
    ensures Shaped(disks)
  {
    forall i | 0 <= i < MAXDISKS ensures |disks[i].cells| == TOTALDIRS {
      assert i < n ==> UsedDisk(disks[i], vs);
      assert i >= n ==> Blank(disks[i]);
    }
  }

  lemma SlotOfKnown(disks: seq<Disk>, n: nat, vs: seq<Visit>, fs: nat)
    requires Represents(disks, n, vs)
    ensures fs in FsSet(vs) ==> Slot(disks, fs, 0) < n && disks[Slot(disks, fs, 0)].fsid == fs
    ensures fs !in FsSet(vs) ==> Slot(disks, fs, 0) == n
  {
    var i := Slot(disks, fs, 0);
    assert forall k :: 0 <= k < n ==> UsedDisk(disks[k], vs);
    assert n < MAXDISKS ==> Blank(disks[n]);
  }

  lemma VisitSets(vs: seq<Visit>, v: Visit)
    ensures FsSet(vs + [v]) == FsSet(vs) + {v.fs}
    ensures CodesOn(vs + [v], v.fs) == CodesOn(vs, v.fs) + [v.code]
    ensures forall fs :: fs != v.fs ==> CodesOn(vs + [v], fs) == CodesOn(vs, fs)
  {
    var ws := vs + [v];
    assert ws[..|vs|] == vs;
    assert forall i :: 0 <= i < |vs| ==> ws[i] == vs[i];
    assert ws[|vs|] == v;
    assert FsSet(ws) <= FsSet(vs) + {v.fs};
    assert FsSet(vs) <= FsSet(ws) by {
      forall fs | fs in FsSet(vs) ensures fs in FsSet(ws) {
        var i :| 0 <= i < |vs| && vs[i].fs == fs;
        assert ws[i].fs == fs;
      }
    }
  }

  lemma {:induction false} CodesFrom(vs: seq<Visit>, fs: nat, c: nat)
    ensures c in CodesOn(vs, fs) <==> Visit(c, fs) in vs
    ensures fs !in FsSet(vs) ==> CodesOn(vs, fs) == []
  {
    if vs != [] {
      var n := |vs| - 1;
      CodesFrom(vs[..n], fs, c);
      VisitSets(vs[..n], vs[n]);
      assert vs == vs[..n] + [vs[n]];
    }
  }

  lemma NewCode(vs: seq<Visit>, v: Visit)
    requires GoodVisits(vs + [v])
    ensures v.code !in CodesOn(vs, v.fs) && (vs != [] ==> v.code != 0)
  {
    CodesFrom(vs, v.fs, v.code);
    var ws := vs + [v];
    assert ws[|vs|] == v;
    assert forall i :: 0 <= i < |vs| ==> ws[i] == vs[i];
  }

  lemma BlankHolds(disk: Disk, fs: nat, code: nat)
    requires Blank(disk)
    ensures Holds(SetDisk(disk, fs, code), [code]) && SetDisk(disk, fs, code).fsid == fs
  {
    ZerosSplit(TOTALDIRS);
    assert Stored([code]) == [code];
  }

  /** A directory of a file system already seen. */
  lemma VisitKnown(disks: seq<Disk>, n: nat, vs: seq<Visit>, v: Visit)
    requires Represents(disks, n, vs) && GoodVisits(vs + [v]) && v.fs in FsSet(vs)
    ensures Shaped(disks)
    ensures |CodesOn(vs, v.fs)| == TOTALDIRS ==> SetInfo(disks, v.fs, v.code) == Full
    ensures |CodesOn(vs, v.fs)| < TOTALDIRS ==>
              SetInfo(disks, v.fs, v.code).Used? && Represents(SetInfo(disks, v.fs, v.code).disks, n, vs + [v])
  {
    hide Represents, Holds, CodesOn, Slot, Scan, FsSet, SetDisk, GoodVisits;
    KnownSlot(disks, n, vs, v.fs);
    NewCode(vs, v);
    if |CodesOn(vs, v.fs)| < TOTALDIRS {
      var d := disks[Slot(disks, v.fs, 0)];
      ScanAppends(d, CodesOn(vs, v.fs), v.code);
      SetDiskKeeps(d, v.fs, v.code);
      ReplaceUsed(disks, n, vs, v, Slot(disks, v.fs, 0), SetDisk(d, v.fs, v.code));
    }
  }

  lemma KnownSlot(disks: seq<Disk>, n: nat, vs: seq<Visit>, fs: nat)
    requires Represents(disks, n, vs) && fs in FsSet(vs)
    ensures Shaped(disks) && vs != []
    ensures var i := Slot(disks, fs, 0);
            && i < n <= MAXDISKS && disks[i].fsid == fs
            && Holds(disks[i], CodesOn(vs, fs)) && disks[i].count == |CodesOn(vs, fs)| > 0
  {
    RepresentsShaped(disks, n, vs);
    SlotOfKnown(disks, n, vs, fs);
    assert UsedDisk(disks[Slot(disks, fs, 0)], vs);
  }

  lemma SetDiskKeeps(disk: Disk, fs: nat, code: nat)
    requires |disk.cells| == TOTALDIRS && disk.fsid == fs && disk.count > 0 && Scan(disk.cells, code, 0) < TOTALDIRS
    ensures SetDisk(disk, fs, code) == SetDisk(disk, disk.fsid, code) && SetDisk(disk, fs, code).fsid == fs
  {
  }

  lemma ReplaceUsed(disks: seq<Disk>, n: nat, vs: seq<Visit>, v: Visit, i: nat, d: Disk)
    requires Represents(disks, n, vs) && v.fs in FsSet(vs) && i < n && disks[i].fsid == v.fs == d.fsid
    requires Holds(d, CodesOn(vs, v.fs) + [v.code])
    ensures Represents(disks[i := d], n, vs + [v])
  {
    hide Holds, CodesOn, FsSet;
    VisitSets(vs, v);
    assert FsSet(vs + [v]) == FsSet(vs);
    var ds := disks[i := d];
    forall k | 0 <= k < n ensures UsedDisk(ds[k], vs + [v]) {
      assert UsedDisk(disks[k], vs);
    }
    hide UsedDisk, Blank;
    forall fs | fs in FsSet(vs + [v]) ensures exists k :: 0 <= k < n && ds[k].fsid == fs {
      var k :| 0 <= k < n && disks[k].fsid == fs;
      assert ds[k].fsid == fs;
    }
  }

  /** The first directory of a new file system. */
  lemma VisitNew(disks: seq<Disk>, n: nat, vs: seq<Visit>, v: Visit)
    requires Represents(disks, n, vs) && GoodVisits(vs + [v]) && v.fs !in FsSet(vs) && n < MAXDISKS
    ensures Shaped(disks) && SetInfo(disks, v.fs, v.code).Used?
    ensures Represents(SetInfo(disks, v.fs, v.code).disks, n + 1, vs + [v])
    ensures CodesOn(vs + [v], v.fs) == [v.code]
  {
    hide Holds, CodesOn, Slot, Scan, FsSet, SetDisk, GoodVisits, Stored, Represents;
    NewSlot(disks, n, vs, v);
    BlankHolds(disks[n], v.fs, v.code);
    AddUsed(disks, n, vs, v, SetDisk(disks[n], v.fs, v.code));
  }

  lemma NewSlot(disks: seq<Disk>, n: nat, vs: seq<Visit>, v: Visit)
    requires Represents(disks, n, vs) && v.fs !in FsSet(vs) && n < MAXDISKS
    ensures Shaped(disks) && Slot(disks, v.fs, 0) == n && Blank(disks[n])
    ensures CodesOn(vs + [v], v.fs) == [v.code]
  {
    RepresentsShaped(disks, n, vs);
    SlotOfKnown(disks, n, vs, v.fs);
    VisitSets(vs, v);
    CodesFrom(vs, v.fs, v.code);
  }

  lemma AddUsed(disks: seq<Disk>, n: nat, vs: seq<Visit>, v: Visit, d: Disk)
    requires Represents(disks, n, vs) && v.fs !in FsSet(vs) && n < MAXDISKS && d.fsid == v.fs
    requires Holds(d, CodesOn(vs + [v], v.fs))
    ensures Represents(disks[n := d], n + 1, vs + [v])
  {
    hide Holds, CodesOn, FsSet, Blank;
    VisitSets(vs, v);
    var ds := disks[n := d];
    forall k | 0 <= k < n + 1 ensures UsedDisk(ds[k], vs + [v]) && (k < n ==> ds[k].fsid != d.fsid) {
      assert k < n ==> UsedDisk(disks[k], vs);
    }
    hide UsedDisk;
    forall fs | fs in FsSet(vs + [v]) ensures exists k :: 0 <= k < n + 1 && ds[k].fsid == fs {
      FsAdded(disks, ds, n, vs, v, d, fs);
    }
  }

  lemma FsAdded(disks: seq<Disk>, ds: seq<Disk>, n: nat, vs: seq<Visit>, v: Visit, d: Disk, fs: nat)
    requires n < |disks| && ds == disks[n := d] && d.fsid == v.fs && fs in FsSet(vs) + {v.fs}
    requires forall fs :: fs in FsSet(vs) ==> exists k :: 0 <= k < n && disks[k].fsid == fs
    ensures exists k :: 0 <= k < n + 1 && ds[k].fsid == fs
  {
    if fs == v.fs {
      assert ds[n].fsid == fs;
    } else {
      var k :| 0 <= k < n && disks[k].fsid == fs;
      assert ds[k].fsid == fs;
    }
  }

  // ----- passes over all directories -----

  datatype PassResult = Done(disks: seq<Disk>) | Failed

  /** `refresh_disk_info` over the directories `vs`: an error return ends it; a file system for
      which no disk is left is passed over. */
  function Pass(disks: seq<Disk>, vs: seq<Visit>): (r: PassResult)
    requires Shaped(disks)
    ensures r.Done? ==> Shaped(r.disks)
    decreases |vs|
  {
    if vs == [] then Done(disks)
    else
      match SetInfo(disks, vs[0].fs, vs[0].code)
      case Used(ds, _) => Pass(ds, vs[1..])
      case Full => Failed
      case NoSlot => Pass(disks, vs[1..])
  }

  ghost predicate Fits(vs: seq<Visit>) {
    forall fs: nat :: |CodesOn(vs, fs)| <= TOTALDIRS
  }

  lemma {:induction false} CodesGrow(vs: seq<Visit>, ws: seq<Visit>, fs: nat)
    ensures |CodesOn(vs, fs)| <= |CodesOn(vs + ws, fs)| && FsSet(vs) <= FsSet(vs + ws)
    decreases |ws|
  {
    if ws == [] {
      assert vs + ws == vs;
    } else {
      var n := |ws| - 1;
      CodesGrow(vs, ws[..n], fs);
      VisitSets(vs + ws[..n], ws[n]);
      assert vs + ws == vs + ws[..n] + [ws[n]];
    }
  }

  lemma {:induction false} PassFrom(disks: seq<Disk>, n: nat, vs: seq<Visit>, ws: seq<Visit>)
    requires Represents(disks, n, vs) && GoodVisits(vs + ws) && |FsSet(vs + ws)| <= MAXDISKS
    ensures Shaped(disks)
    ensures Pass(disks, ws).Done? <==> Fits(vs + ws)
    ensures Pass(disks, ws).Done? ==> Represents(Pass(disks, ws).disks, |FsSet(vs + ws)|, vs + ws)
    decreases |ws|
  {
    RepresentsShaped(disks, n, vs);
    hide Represents, CodesOn, Slot, Scan, FsSet, SetInfo, GoodVisits, Shaped;
    if ws == [] {
      assert vs + ws == vs;
      RepresentsFits(disks, n, vs);
    } else {
      var v := ws[0];
      assert vs + [v] + ws[1..] == vs + ws;
      PassOne(disks, n, vs, v, ws);
      match SetInfo(disks, v.fs, v.code)
      case Used(ds, _) => PassFrom(ds, |FsSet(vs + [v])|, vs + [v], ws[1..]);
      case Full =>
      case NoSlot =>
    }
  }

  lemma RepresentsFits(disks: seq<Disk>, n: nat, vs: seq<Visit>)
    requires Represents(disks, n, vs)
    ensures Fits(vs) && n == |FsSet(vs)|
  {
    forall fs: nat ensures |CodesOn(vs, fs)| <= TOTALDIRS {
      CodesFrom(vs, fs, 0);
      if fs in FsSet(vs) {
        KnownSlot(disks, n, vs, fs);
      }
    }
  }

  lemma PassOne(disks: seq<Disk>, n: nat, vs: seq<Visit>, v: Visit, ws: seq<Visit>)
    requires Represents(disks, n, vs) && ws != [] && v == ws[0] && GoodVisits(vs + ws) && |FsSet(vs + ws)| <= MAXDISKS
    ensures Shaped(disks)
    ensures match SetInfo(disks, v.fs, v.code)
            case Used(ds, _) => Represents(ds, |FsSet(vs + [v])|, vs + [v]) && GoodVisits(vs + [v] + ws[1..])
            case Full => !Fits(vs + ws)
            case NoSlot => false
  {
    hide Represents, CodesOn, Slot, Scan, FsSet, SetInfo, GoodVisits;
    assert vs + [v] + ws[1..] == vs + ws;
    GoodPrefix(vs + [v], ws[1..]);
    VisitSets(vs, v);
    CodesGrow(vs + [v], ws[1..], v.fs);
    FsCount(vs + [v], ws[1..]);
    RepresentsFits(disks, n, vs);
    if v.fs in FsSet(vs) {
      assert FsSet(vs + [v]) == FsSet(vs);
      VisitKnown(disks, n, vs, v);
    } else {
      assert |FsSet(vs + [v])| == n + 1;
      VisitNew(disks, n, vs, v);
    }
  }

  lemma GoodPrefix(vs: seq<Visit>, ws: seq<Visit>)
    requires GoodVisits(vs + ws)
    ensures GoodVisits(vs)
  {
    assert forall i :: 0 <= i < |vs| ==> vs[i] == (vs + ws)[i];
  }

  lemma FsCount(vs: seq<Visit>, ws: seq<Visit>)
    ensures |FsSet(vs)| <= |FsSet(vs + ws)|
  {
    CodesGrow(vs, ws, 0);
    SubsetSize(FsSet(vs), FsSet(vs + ws));
  }
}
