/** What every file-system operation keeps: the files that have a name or are
    still open own disjoint sectors, all marked in the free map. */
module FsState {
  import opened Bitmap
  import opened Sequences
  import opened InodeIO
  import opened FsFormat

  const FREE_MAP_SECTOR := 0
  const ROOT_DIR_SECTOR := 1

  // An inode in memory.
  datatype OpenInode = OpenInode(openCnt: nat, removed: bool, denyWriteCnt: nat, data: Extent)

  // `ino` maps the sector of each inode in existence to the file's data.
  type Inodes = map<nat, Extent>

  // A file's data, one flat array.
  function Data(bytes: seq<Byte>, e: Extent): seq<Byte>
    requires 512 * (e.start + Sectors(e.length)) <= |bytes|
  {
    bytes[512 * e.start..512 * e.start + e.length]
  }

  // Sector x is the inode s or holds data of that file.
  predicate Owns(ino: Inodes, s: nat, x: int) {
    s in ino && (x == s || ino[s].start <= x < ino[s].start + Sectors(ino[s].length))
  }

  ghost predicate Owned(ino: Inodes, freeMap: seq<bool>) {
    && (forall s :: s in ino ==>
          && s < |freeMap| && ino[s].start + Sectors(ino[s].length) <= |freeMap| && ino[s].length < 0x8000_0000
          && !(ino[s].start <= s < ino[s].start + Sectors(ino[s].length)))
    && (forall s, x :: Owns(ino, s, x) ==> 0 <= x < |freeMap| && freeMap[x])
    && (forall s, t, x :: Owns(ino, s, x) && Owns(ino, t, x) ==> s == t)
  }

  // The inode in sector s of the disk.
  function InodeAt(bytes: seq<Byte>, s: nat): Extent
    requires 512 * s + 512 <= |bytes|
  {
    DecodeInode(bytes[512 * s..512 * s + 512])
  }

  ghost predicate OnDisk(bytes: seq<Byte>, ino: Inodes) {
    forall s :: s in ino ==> 512 * s + 512 <= |bytes| && InodeAt(bytes, s) == ino[s]
  }

  // Names in the root directory d are valid and distinct, and lead to distinct
  // inodes.
  ghost predicate DirOk(d: seq<Byte>, ino: Inodes) {
    && (forall k {:trigger EntryOk(Slot(d, k), ino)} :: 0 <= k < Slots(d) ==> EntryOk(Slot(d, k), ino))
    && (forall j, k {:trigger Differ(Slot(d, j), Slot(d, k))} :: 0 <= j < k < Slots(d) ==>
        Differ(Slot(d, j), Slot(d, k)))
  }

  predicate EntryOk(e: Entry, ino: Inodes) {
    e.Used? ==> 1 <= |e.name| <= NAME_MAX && e.sector > 1 && e.sector in ino
  }

  predicate Differ(e: Entry, f: Entry) {
    e.Used? && f.Used? ==> e.name != f.name && e.sector != f.sector
  }

  ghost predicate Named(d: seq<Byte>, s: nat) {
    exists k :: 0 <= k < Slots(d) && Slot(d, k).Used? && Slot(d, k).sector == s
  }

  ghost predicate OpenOk(open: map<nat, OpenInode>, ino: Inodes) {
    forall s :: s in open ==>
      && s in ino && open[s].data == ino[s]
      && open[s].openCnt > 0 && open[s].denyWriteCnt <= open[s].openCnt
      && (s <= 1 ==> !open[s].removed && open[s].denyWriteCnt == 0)
  }

  predicate Removed(open: map<nat, OpenInode>, s: nat) { s in open && open[s].removed }

  // An inode other than the free map's and the root's exists because it has a
  // name or, without one, because it is still open. Inside an operation one
  // inode, `pending`, may be on its way in or out.
  ghost predicate LinksOk(d: seq<Byte>, open: map<nat, OpenInode>, ino: Inodes, pending: int) {
    forall s {:trigger Named(d, s)} :: s in ino && s > 1 && s != pending ==> (Named(d, s) <==> !Removed(open, s))
  }

  ghost predicate Inv(bytes: seq<Byte>, freeMap: seq<bool>, ino: Inodes, open: map<nat, OpenInode>, pending: int) {
    && |bytes| == 512 * |freeMap| && |freeMap| < 0x40_0000
    && FREE_MAP_SECTOR in ino && ROOT_DIR_SECTOR in ino && ino[ROOT_DIR_SECTOR].length % 20 == 0
    && Owned(ino, freeMap)
    && OnDisk(bytes, ino)
    && OpenOk(open, ino)
    && var d := Data(bytes, ino[ROOT_DIR_SECTOR]); DirOk(d, ino) && LinksOk(d, open, ino, pending)
  }

  /** Two names in use are different, lead to different files, and those have no
      sector in common and only marked ones. */
  lemma NamesApart(bytes: seq<Byte>, freeMap: seq<bool>, ino: Inodes, open: map<nat, OpenInode>, d: seq<Byte>, j: nat,
                   k: nat)
    requires Inv(bytes, freeMap, ino, open, -1) && d == Data(bytes, ino[ROOT_DIR_SECTOR])
    requires j < Slots(d) && k < Slots(d) && j != k && Slot(d, j).Used? && Slot(d, k).Used?
    ensures Slot(d, j).name != Slot(d, k).name && Slot(d, j).sector != Slot(d, k).sector
    ensures forall x :: Owns(ino, Slot(d, j).sector, x) ==>
              0 <= x < |freeMap| && freeMap[x] && !Owns(ino, Slot(d, k).sector, x)
  {
    assert Differ(Slot(d, if j < k then j else k), Slot(d, if j < k then k else j));
  }

  /** A listing of the directory has every name in use, and none twice. */
  lemma {:induction false} NamesListed(d: seq<Byte>, ino: Inodes, k: nat)
    requires DirOk(d, ino) && k <= Slots(d)
    ensures NoDup(Names(d, k))
    ensures forall name :: name in Names(d, k) <==> exists j :: k <= j < Slots(d) && IsNamed(Slot(d, j), name)
    decreases Slots(d) - k
  {
    if k < Slots(d) {
      NamesListed(d, ino, k + 1);
      if Slot(d, k).Used? {
        forall j | k < j < Slots(d)
          ensures !IsNamed(Slot(d, j), Slot(d, k).name) { assert Differ(Slot(d, k), Slot(d, j)); }
      }
      OneMoreListed(d, k, Names(d, k + 1));
    }
  }

  lemma OneMoreListed(d: seq<Byte>, k: nat, rest: seq<seq<Byte>>)
    requires k < Slots(d) && NoDup(rest)
    requires forall name :: name in rest <==> exists j :: k < j < Slots(d) && IsNamed(Slot(d, j), name)
    requires Slot(d, k).Used? ==> forall j :: k < j < Slots(d) ==> !IsNamed(Slot(d, j), Slot(d, k).name)
    ensures var names := (if Slot(d, k).Used? then [Slot(d, k).name] else []) + rest;
            && NoDup(names)
            && forall name :: name in names <==> exists j :: k <= j < Slots(d) && IsNamed(Slot(d, j), name)
  {
    var names := (if Slot(d, k).Used? then [Slot(d, k).name] else []) + rest;
    if Slot(d, k).Used? {
      assert Slot(d, k).name !in rest && IsNamed(Slot(d, k), Slot(d, k).name);
    } else {
      assert names == rest;
    }
    forall name ensures name in names <==> exists j :: k <= j < Slots(d) && IsNamed(Slot(d, j), name) {
      assert name in names <==> IsNamed(Slot(d, k), name) || name in rest;
    }
  }

  /** A file that was removed and is still open shares no sector with any name. */
  lemma RemovedApart(bytes: seq<Byte>, freeMap: seq<bool>, ino: Inodes, open: map<nat, OpenInode>, d: seq<Byte>, s: nat,
                     k: nat)
    requires Inv(bytes, freeMap, ino, open, -1) && d == Data(bytes, ino[ROOT_DIR_SECTOR])
    requires Removed(open, s) && k < Slots(d) && Slot(d, k).Used?
    ensures s in ino && Slot(d, k).sector != s
    ensures forall x :: Owns(ino, s, x) ==> 0 <= x < |freeMap| && freeMap[x] && !Owns(ino, Slot(d, k).sector, x)
  {
    assert EntryOk(Slot(d, k), ino);
    assert Named(d, Slot(d, k).sector);
  }

  // ---------- Writing to the disk ----------

  ghost predicate SameSector(bytes: seq<Byte>, bytes': seq<Byte>, x: nat)
    requires |bytes| == |bytes'|
  {
    512 * x + 512 <= |bytes| ==> bytes'[512 * x..512 * x + 512] == bytes[512 * x..512 * x + 512]
  }

  lemma SameTwice(bytes: seq<Byte>, bytes': seq<Byte>, bytes'': seq<Byte>, x: nat)
    requires |bytes| == |bytes'| == |bytes''| && SameSector(bytes, bytes', x) && SameSector(bytes', bytes'', x)
    ensures SameSector(bytes, bytes'', x)
  {}

  // Files whose sectors are unchanged are unchanged.
  lemma SameData(bytes: seq<Byte>, bytes': seq<Byte>, e: Extent)
    requires |bytes| == |bytes'| && 512 * (e.start + Sectors(e.length)) <= |bytes|
    requires forall x :: e.start <= x < e.start + Sectors(e.length) ==> SameSector(bytes, bytes', x)
    ensures Data(bytes', e) == Data(bytes, e)
  {
    forall i | 512 * e.start <= i < 512 * e.start + e.length ensures bytes'[i] == bytes[i] {
      var x := i / 512;
      assert SameSector(bytes, bytes', x);
      assert bytes'[i] == bytes'[512 * x..512 * x + 512][i - 512 * x];
      assert bytes[i] == bytes[512 * x..512 * x + 512][i - 512 * x];
    }
  }

  // A write inside one stretch of sectors leaves the others alone.
  lemma SpliceSectors(bytes: seq<Byte>, p: nat, d: seq<Byte>, a: nat, n: nat, x: nat)
    requires p + |d| <= |bytes| && 512 * a <= p && p + |d| <= 512 * (a + n) && !(a <= x < a + n)
    ensures SameSector(bytes, Splice(bytes, p, d), x)
  {}

  // A write inside a file is a write to its flat array.
  lemma SpliceData(bytes: seq<Byte>, e: Extent, ofs: nat, x: seq<Byte>)
    requires 512 * (e.start + Sectors(e.length)) <= |bytes| && ofs + |x| <= e.length
    ensures 512 * e.start + ofs + |x| <= |bytes|
    ensures Data(Splice(bytes, 512 * e.start + ofs, x), e) == Splice(Data(bytes, e), ofs, x)
  {}

  // A file none of whose sectors is written is unchanged.
  lemma Frame(bytes: seq<Byte>, bytes': seq<Byte>, freeMap: seq<bool>, ino: Inodes, t: nat)
    requires Owned(ino, freeMap) && |bytes| == |bytes'| == 512 * |freeMap| && t in ino
    requires forall x :: Owns(ino, t, x) ==> SameSector(bytes, bytes', x)
    ensures InodeAt(bytes', t) == InodeAt(bytes, t)
    ensures Data(bytes', ino[t]) == Data(bytes, ino[t])
  {
    assert Owns(ino, t, t);
    assert SameSector(bytes, bytes', t);
    forall x | ino[t].start <= x < ino[t].start + Sectors(ino[t].length) ensures SameSector(bytes, bytes', x) {
      assert Owns(ino, t, x);
    }
    SameData(bytes, bytes', ino[t]);
  }

  // Writing part of file s changes its flat array, no inode and no other file.
  lemma WriteFrame(bytes: seq<Byte>, freeMap: seq<bool>, ino: Inodes, s: nat, ofs: nat, x: seq<Byte>)
      returns (bytes': seq<Byte>)
    requires Owned(ino, freeMap) && |bytes| == 512 * |freeMap| && OnDisk(bytes, ino)
    requires s in ino && ofs + |x| <= ino[s].length
    ensures 512 * ino[s].start + ofs + |x| <= |bytes| && bytes' == Splice(bytes, 512 * ino[s].start + ofs, x)
    ensures |bytes'| == |bytes| && OnDisk(bytes', ino)
    ensures Data(bytes', ino[s]) == Splice(Data(bytes, ino[s]), ofs, x)
    ensures forall t :: t in ino && t != s ==> Data(bytes', ino[t]) == Data(bytes, ino[t])
  {
    SpliceData(bytes, ino[s], ofs, x);
    bytes' := Splice(bytes, 512 * ino[s].start + ofs, x);
    forall t | t in ino
      ensures InodeAt(bytes', t) == ino[t] && (t != s ==> Data(bytes', ino[t]) == Data(bytes, ino[t]))
    {
      FrameOf(bytes, bytes', freeMap, ino, s, ofs, x, t);
    }
  }

  lemma FrameOf(bytes: seq<Byte>, bytes': seq<Byte>, freeMap: seq<bool>, ino: Inodes, s: nat, ofs: nat, x: seq<Byte>,
                t: nat)
    requires Owned(ino, freeMap) && |bytes| == |bytes'| == 512 * |freeMap| && OnDisk(bytes, ino)
    requires s in ino && t in ino && ofs + |x| <= ino[s].length && 512 * ino[s].start + ofs + |x| <= |bytes|
    requires bytes' == Splice(bytes, 512 * ino[s].start + ofs, x)
    ensures InodeAt(bytes', t) == ino[t] && (t != s ==> Data(bytes', ino[t]) == Data(bytes, ino[t]))
  {
    forall y | Owns(ino, t, y) && (t != s || y == s) ensures SameSector(bytes, bytes', y) {
      assert t != s ==> !Owns(ino, s, y);
      SpliceSectors(bytes, 512 * ino[s].start + ofs, x, ino[s].start, Sectors(ino[s].length), y);
    }
    assert Owns(ino, t, t) && SameSector(bytes, bytes', t);
    if t != s { Frame(bytes, bytes', freeMap, ino, t); }
  }

  // ---------- Each step ----------

  // Writing to a file other than the root directory.
  lemma InvWrite(bytes: seq<Byte>, bytes': seq<Byte>, freeMap: seq<bool>, ino: Inodes, open: map<nat, OpenInode>,
                 pending: int)
    requires Inv(bytes, freeMap, ino, open, pending) && |bytes'| == |bytes| && OnDisk(bytes', ino)
    requires Data(bytes', ino[ROOT_DIR_SECTOR]) == Data(bytes, ino[ROOT_DIR_SECTOR])
    ensures Inv(bytes', freeMap, ino, open, pending)
  {}

  // Sectors become used.
  lemma InvMark(bytes: seq<Byte>, freeMap: seq<bool>, ino: Inodes, open: map<nat, OpenInode>, pending: int, i: nat,
                cnt: nat)
    requires Inv(bytes, freeMap, ino, open, pending) && i + cnt <= |freeMap|
    ensures Inv(bytes, Filled(freeMap, i, cnt, true), ino, open, pending)
  {}

  // Sectors that belong to no file become free.
  lemma InvUnmark(bytes: seq<Byte>, freeMap: seq<bool>, ino: Inodes, open: map<nat, OpenInode>, pending: int, i: nat,
                  cnt: nat)
    requires Inv(bytes, freeMap, ino, open, pending) && i + cnt <= |freeMap|
    requires forall s, x :: Owns(ino, s, x) ==> !(i <= x < i + cnt)
    ensures Inv(bytes, Filled(freeMap, i, cnt, false), ino, open, pending)
  {}

  // Free sectors belong to no file.
  lemma FreeUnowned(freeMap: seq<bool>, ino: Inodes, i: nat, cnt: nat)
    requires Owned(ino, freeMap) && RunAt(freeMap, i, cnt, false)
    ensures forall s, x :: Owns(ino, s, x) ==> !(i <= x < i + cnt)
  {}

  // A new inode, in sectors that belonged to no file.
  lemma InvNew(bytes: seq<Byte>, bytes': seq<Byte>, freeMap: seq<bool>, ino: Inodes, open: map<nat, OpenInode>, s: nat,
               e: Extent)
    requires Inv(bytes, freeMap, ino, open, -1)
    requires |bytes'| == |bytes| && s < |freeMap| && freeMap[s] && e.length < 0x8000_0000
    requires e.start + Sectors(e.length) <= |freeMap| && RunAt(freeMap, e.start, Sectors(e.length), true)
    requires !(e.start <= s < e.start + Sectors(e.length))
    requires forall t, x :: Owns(ino, t, x) ==>
               x != s && !(e.start <= x < e.start + Sectors(e.length)) && SameSector(bytes, bytes', x)
    requires InodeAt(bytes', s) == e
    ensures s !in ino && s > 1
    ensures Inv(bytes', freeMap, ino[s := e], open, s)
    ensures forall t :: t in ino ==> Data(bytes', ino[t]) == Data(bytes, ino[t])
    ensures !Named(Data(bytes', ino[ROOT_DIR_SECTOR]), s) && s !in open
  {
    OwnedNew(freeMap, ino, s, e);
    forall t | t in ino ensures InodeAt(bytes', t) == ino[t] && Data(bytes', ino[t]) == Data(bytes, ino[t]) {
      Frame(bytes, bytes', freeMap, ino, t);
    }
    NewInDir(Data(bytes, ino[ROOT_DIR_SECTOR]), ino, open, s, e);
  }

  // An inode nobody refers to yet.
  lemma NewInDir(d: seq<Byte>, ino: Inodes, open: map<nat, OpenInode>, s: nat, e: Extent)
    requires DirOk(d, ino) && LinksOk(d, open, ino, -1) && s !in ino
    ensures DirOk(d, ino[s := e]) && LinksOk(d, open, ino[s := e], s) && !Named(d, s)
  {
    forall k | 0 <= k < Slots(d) ensures EntryOk(Slot(d, k), ino) && EntryOk(Slot(d, k), ino[s := e]) {
      assert EntryOk(Slot(d, k), ino);
    }
  }

  lemma OwnedNew(freeMap: seq<bool>, ino: Inodes, s: nat, e: Extent)
    requires Owned(ino, freeMap) && 0 in ino && 1 in ino
    requires s < |freeMap| && freeMap[s] && e.length < 0x8000_0000
    requires e.start + Sectors(e.length) <= |freeMap| && RunAt(freeMap, e.start, Sectors(e.length), true)
    requires !(e.start <= s < e.start + Sectors(e.length))
    requires forall t, x :: Owns(ino, t, x) ==> x != s && !(e.start <= x < e.start + Sectors(e.length))
    ensures s !in ino && s > 1
    ensures Owned(ino[s := e], freeMap)
  {
    assert !Owns(ino, s, s) && !Owns(ino, 0, s) && !Owns(ino, 1, s);
    var ino' := ino[s := e];
    forall t, x
      ensures Owns(ino', t, x) == if t == s then x == s || e.start <= x < e.start + Sectors(e.length)
                else Owns(ino, t, x) {}
  }

  // A directory with one slot overwritten.
  lemma Rewritten(d: seq<Byte>, k: nat, entry: seq<Byte>) returns (d': seq<Byte>)
    requires k < Slots(d) && |entry| == 20
    ensures d' == Splice(d, 20 * k, entry) && Slots(d') == Slots(d)
    ensures forall j :: 0 <= j < Slots(d) ==> Slot(d', j) == if j == k then View(entry) else Slot(d, j)
  {
    d' := Splice(d, 20 * k, entry);
    forall j | 0 <= j < Slots(d)
      ensures Slot(d', j) == if j == k then View(entry) else Slot(d, j) { SetSlot(d, k, entry, j); }
  }

  lemma NamedDir(d: seq<Byte>, ino: Inodes, open: map<nat, OpenInode>, k: nat, entry: seq<Byte>, s: nat)
    requires DirOk(d, ino) && LinksOk(d, open, ino, s) && s in ino && s > 1 && s !in open
    requires k < Slots(d) && Slot(d, k).Unused? && !Named(d, s)
    requires |entry| == 20 && View(entry).Used? && View(entry).sector == s && 1 <= |View(entry).name| <= NAME_MAX
    requires FindName(d, View(entry).name, 0).None?
    ensures var d' := Splice(d, 20 * k, entry); DirOk(d', ino) && LinksOk(d', open, ino, -1)
  {
    var d' := Rewritten(d, k, entry);
    forall j | 0 <= j < Slots(d) && j != k && Slot(d, j).Used?
      ensures Slot(d, j).name != View(entry).name && Slot(d, j).sector != s
    {
      assert !IsNamed(Slot(d, j), View(entry).name);
    }
    forall t ensures Named(d', t) <==> t == s || Named(d, t) {
      if t == s { assert Slot(d', k).Used?; }
      if Named(d, t) {
        var j :| 0 <= j < Slots(d) && Slot(d, j).Used? && Slot(d, j).sector == t;
        assert Slot(d', j).Used? && Slot(d', j).sector == t;
      }
    }
  }

  lemma UnnamedDir(d: seq<Byte>, ino: Inodes, open: map<nat, OpenInode>, k: nat, entry: seq<Byte>, s: nat)
    requires DirOk(d, ino) && LinksOk(d, open, ino, -1)
    requires k < Slots(d) && Slot(d, k).Used? && Slot(d, k).sector == s && |entry| == 20 && View(entry).Unused?
    ensures var d' := Splice(d, 20 * k, entry); DirOk(d', ino) && LinksOk(d', open, ino, s) && !Named(d', s)
  {
    var d' := Rewritten(d, k, entry);
    forall j | 0 <= j < Slots(d) && j != k && Slot(d, j).Used? ensures Slot(d, j).sector != s {
      assert Differ(Slot(d, if j < k then j else k), Slot(d, if j < k then k else j));
    }
    forall t ensures Named(d', t) <==> t != s && Named(d, t) {
      if t != s && Named(d, t) {
        var j :| 0 <= j < Slots(d) && Slot(d, j).Used? && Slot(d, j).sector == t;
        assert Slot(d', j).Used? && Slot(d', j).sector == t;
      }
    }
  }

  // The pending inode s is named in the unused slot k of the root directory d.
  lemma InvName(bytes: seq<Byte>, bytes': seq<Byte>, freeMap: seq<bool>, ino: Inodes, open: map<nat, OpenInode>,
                d: seq<Byte>, k: nat, entry: seq<Byte>, s: nat)
    requires Inv(bytes, freeMap, ino, open, s) && s in ino && s > 1
    requires s !in open && d == Data(bytes, ino[ROOT_DIR_SECTOR])
    requires k < Slots(d) && Slot(d, k).Unused? && !Named(d, s)
    requires |entry| == 20 && View(entry).Used? && View(entry).sector == s && 1 <= |View(entry).name| <= NAME_MAX
    requires FindName(d, View(entry).name, 0).None?
    requires |bytes'| == |bytes| && OnDisk(bytes', ino)
    requires Data(bytes', ino[ROOT_DIR_SECTOR]) == Splice(d, 20 * k, entry)
    ensures Inv(bytes', freeMap, ino, open, -1)
  {
    NamedDir(d, ino, open, k, entry, s);
  }

  // The entry of inode s, in slot k of the root directory d, is erased.
  lemma InvUnname(bytes: seq<Byte>, bytes': seq<Byte>, freeMap: seq<bool>, ino: Inodes, open: map<nat, OpenInode>,
                  d: seq<Byte>, k: nat, entry: seq<Byte>, s: nat)
    requires Inv(bytes, freeMap, ino, open, -1) && d == Data(bytes, ino[ROOT_DIR_SECTOR])
    requires k < Slots(d) && Slot(d, k).Used? && Slot(d, k).sector == s && |entry| == 20 && View(entry).Unused?
    requires |bytes'| == |bytes| && OnDisk(bytes', ino)
    requires Data(bytes', ino[ROOT_DIR_SECTOR]) == Splice(d, 20 * k, entry)
    ensures Inv(bytes', freeMap, ino, open, s) && !Named(Data(bytes', ino[ROOT_DIR_SECTOR]), s)
  {
    UnnamedDir(d, ino, open, k, entry, s);
  }

  // Sectors of the pending inode s are released, and it is gone.
  lemma InvDrop(bytes: seq<Byte>, freeMap: seq<bool>, freeMap': seq<bool>, ino: Inodes, open: map<nat, OpenInode>,
                s: nat)
    requires Inv(bytes, freeMap, ino, open, s) && s > 1 && s !in open
    requires !Named(Data(bytes, ino[ROOT_DIR_SECTOR]), s)
    requires |freeMap'| == |freeMap| && forall x :: 0 <= x < |freeMap| && !Owns(ino, s, x) ==> freeMap'[x] == freeMap[x]
    ensures Inv(bytes, freeMap', ino - {s}, open, -1)
  {
    var ino' := ino - {s};
    forall t, x ensures Owns(ino', t, x) == (t != s && Owns(ino, t, x)) {}
    forall t, x | Owns(ino', t, x) ensures 0 <= x < |freeMap| && freeMap'[x] { assert !Owns(ino, s, x); }
    var d := Data(bytes, ino[ROOT_DIR_SECTOR]);
    forall k | 0 <= k < Slots(d) ensures EntryOk(Slot(d, k), ino') { assert EntryOk(Slot(d, k), ino); }
  }

  // What a file owned belongs to no other, and was marked.
  lemma DropUnowned(freeMap: seq<bool>, ino: Inodes, s: nat)
    requires Owned(ino, freeMap) && s in ino
    ensures forall t, x :: Owns(ino - {s}, t, x) ==>
              x != s && !(ino[s].start <= x < ino[s].start + Sectors(ino[s].length))
    ensures s < |freeMap| && freeMap[s] && RunAt(freeMap, ino[s].start, Sectors(ino[s].length), true)
    ensures !(ino[s].start <= s < ino[s].start + Sectors(ino[s].length))
  {
    assert Owns(ino, s, s);
    forall x | ino[s].start <= x < ino[s].start + Sectors(ino[s].length) ensures freeMap[x] { assert Owns(ino, s, x); }
    forall t, x | Owns(ino - {s}, t, x) ensures x != s && !(ino[s].start <= x < ino[s].start + Sectors(ino[s].length)) {
      assert Owns(ino, t, x) && t != s;
      assert !Owns(ino, s, x);
    }
  }

  // ---------- Openers come and go ----------

  lemma InvOpened(bytes: seq<Byte>, freeMap: seq<bool>, ino: Inodes, open: map<nat, OpenInode>, pending: int, s: nat)
    requires Inv(bytes, freeMap, ino, open, pending) && s in ino && s !in open
    ensures InodeAt(bytes, s) == ino[s]
    ensures Inv(bytes, freeMap, ino, open[s := OpenInode(1, false, 0, ino[s])], pending)
  {
    var open' := open[s := OpenInode(1, false, 0, ino[s])];
    forall t ensures Removed(open', t) == Removed(open, t) {}
  }

  lemma InvCounted(bytes: seq<Byte>, freeMap: seq<bool>, ino: Inodes, open: map<nat, OpenInode>, pending: int, s: nat,
                   o: OpenInode)
    requires Inv(bytes, freeMap, ino, open, pending) && s in open
    requires o.removed == open[s].removed && o.data == open[s].data && o.openCnt > 0 && o.denyWriteCnt <= o.openCnt
    requires s <= 1 ==> o.denyWriteCnt == 0
    ensures Inv(bytes, freeMap, ino, open[s := o], pending)
  {
    var open' := open[s := o];
    forall t ensures Removed(open', t) == Removed(open, t) {}
  }

  lemma InvClosed(bytes: seq<Byte>, freeMap: seq<bool>, ino: Inodes, open: map<nat, OpenInode>, s: nat)
    requires Inv(bytes, freeMap, ino, open, -1) && s in open
    ensures Inv(bytes, freeMap, ino, open - {s}, if open[s].removed then s else -1)
    ensures open[s].removed ==> s > 1 && !Named(Data(bytes, ino[ROOT_DIR_SECTOR]), s)
  {
    var open' := open - {s};
    forall t ensures Removed(open', t) == (t != s && Removed(open, t)) {}
  }

  // One opener more.
  function OpenOne(open: map<nat, OpenInode>, s: nat, data: Extent): map<nat, OpenInode> {
    if s in open then open[s := open[s].(openCnt := open[s].openCnt + 1)] else open[s := OpenInode(1, false, 0, data)]
  }

  lemma InvOpenOne(bytes: seq<Byte>, freeMap: seq<bool>, ino: Inodes, open: map<nat, OpenInode>, pending: int, s: nat)
    requires Inv(bytes, freeMap, ino, open, pending) && s in ino
    ensures InodeAt(bytes, s) == ino[s]
    ensures Inv(bytes, freeMap, ino, OpenOne(open, s, ino[s]), pending)
  {
    if s in open {
      InvCounted(bytes, freeMap, ino, open, pending, s, open[s].(openCnt := open[s].openCnt + 1));
    } else {
      InvOpened(bytes, freeMap, ino, open, pending, s);
    }
  }

  function SetDeny(open: map<nat, OpenInode>, s: nat, cnt: nat): map<nat, OpenInode>
    requires s in open
  {
    open[s := open[s].(denyWriteCnt := cnt)]
  }

  function MarkRemoved(open: map<nat, OpenInode>, s: nat): map<nat, OpenInode>
    requires s in open
  {
    open[s := open[s].(removed := true)]
  }

  /** Closing undoes opening, and a file marked removed in between is the last
      opener's to release exactly when nobody else had it open. */
  lemma OpenClose(open: map<nat, OpenInode>, s: nat, data: Extent)
    requires s in open ==> open[s].openCnt > 0
    ensures CloseOne(OpenOne(open, s, data), s) == open
    ensures var open' := OpenOne(open, s, data);
            && s in open' && open'[s].openCnt == (if s in open then open[s].openCnt else 0) + 1
            && open'[s].data == (if s in open then open[s].data else data) && open' - {s} == open - {s}
    ensures var marked := MarkRemoved(OpenOne(open, s, data), s);
            && LastOfRemoved(marked, s) == (s !in open)
            && CloseOne(marked, s) == if s in open then MarkRemoved(open, s) else open
  {
    assert s in open ==> open[s := open[s]] == open;
  }

  // The root directory can be opened around the opening, or the removal, of
  // another file.
  lemma RootAround(open: map<nat, OpenInode>, s: nat, root: Extent, data: Extent)
    requires s != ROOT_DIR_SECTOR && (ROOT_DIR_SECTOR in open ==> open[ROOT_DIR_SECTOR].openCnt > 0)
    ensures CloseOne(OpenOne(OpenOne(open, ROOT_DIR_SECTOR, root), s, data), ROOT_DIR_SECTOR) == OpenOne(open, s, data)
    ensures s in open ==>
              CloseOne(MarkRemoved(OpenOne(open, ROOT_DIR_SECTOR, root), s), ROOT_DIR_SECTOR) == MarkRemoved(open, s)
  {
    OpenClose(open, ROOT_DIR_SECTOR, root);
    if ROOT_DIR_SECTOR in open {
      assert open[ROOT_DIR_SECTOR := open[ROOT_DIR_SECTOR]] == open;
    }
  }

  // One opener fewer.
  function CloseOne(open: map<nat, OpenInode>, s: nat): map<nat, OpenInode>
    requires s in open && open[s].openCnt > 0
  {
    if open[s].openCnt == 1 then open - {s} else open[s := open[s].(openCnt := open[s].openCnt - 1)]
  }

  predicate LastOfRemoved(open: map<nat, OpenInode>, s: nat) {
    s in open && open[s].openCnt == 1 && open[s].removed
  }

  lemma InvCloseOne(bytes: seq<Byte>, freeMap: seq<bool>, ino: Inodes, open: map<nat, OpenInode>, s: nat)
    requires Inv(bytes, freeMap, ino, open, -1) && s in open && open[s].denyWriteCnt < open[s].openCnt
    ensures Inv(bytes, freeMap, ino, CloseOne(open, s), if LastOfRemoved(open, s) then s else -1)
    ensures LastOfRemoved(open, s) ==> s > 1 && s !in CloseOne(open, s) && !Named(Data(bytes, ino[ROOT_DIR_SECTOR]), s)
  {
    if open[s].openCnt == 1 {
      InvClosed(bytes, freeMap, ino, open, s);
    } else {
      InvCounted(bytes, freeMap, ino, open, -1, s, open[s].(openCnt := open[s].openCnt - 1));
    }
  }

  lemma InvRemoved(bytes: seq<Byte>, freeMap: seq<bool>, ino: Inodes, open: map<nat, OpenInode>, s: nat)
    requires Inv(bytes, freeMap, ino, open, s) && s in open && s > 1 && !Named(Data(bytes, ino[ROOT_DIR_SECTOR]), s)
    ensures Inv(bytes, freeMap, ino, open[s := open[s].(removed := true)], -1)
  {
    var open' := open[s := open[s].(removed := true)];
    forall t ensures Removed(open', t) == (t == s || Removed(open, t)) {}
  }
}
