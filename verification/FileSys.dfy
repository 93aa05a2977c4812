/** The operations of filesys/filesys.c, directory.c, inode.c and free-map.c on
    a disk with one directory. `bounce` says whether the kernel has memory for
    the buffer with which the free map is written. */
module FileSys {
  import opened Bits
  import opened Bitmap
  import opened Sequences
  import opened InodeIO
  import opened FsFormat
  import opened FsState

  // ---------- The free map as bytes ----------

  function BitAt(bits: seq<bool>, i: nat): nat { if i < |bits| && bits[i] then 1 else 0 }

  // The n bits from i on as a number, lowest first.
  function BitsFrom(bits: seq<bool>, i: nat, n: nat): (x: nat)
    ensures x < Pow2(n)
    decreases n
  {
    if n == 0 then 0 else BitAt(bits, i) + 2 * BitsFrom(bits, i + 1, n - 1)
  }

  function MapByte(bits: seq<bool>, k: nat): Byte {
    assert Pow2(8) == 256 by { assert Pow2(4) == 16; }
    BitsFrom(bits, 8 * k, 8)
  }

  // bitmap_file_size(): whole words.
  function MapSize(bitCnt: nat): nat { 4 * ((bitCnt + 31) / 32) }

  /** As few whole words as hold the bits. */
  lemma MapSizeExact(bitCnt: nat)
    ensures MapSize(bitCnt) % 4 == 0 && bitCnt <= 8 * MapSize(bitCnt) < bitCnt + 32
  {}

  // The map can be written: with a bounce buffer, or if it fills its sectors.
  predicate MapWritable(bitCnt: nat, bounce: bool) { bounce || MapSize(bitCnt) % 512 == 0 }

  function Pack(bits: seq<bool>): (b: seq<Byte>)
    ensures |b| == MapSize(|bits|)
  {
    seq(MapSize(|bits|), k requires 0 <= k => MapByte(bits, k))
  }

  lemma {:induction false} BitsRead(bits: seq<bool>, i: nat, n: nat, j: nat)
    requires j < n
    ensures Bit(BitsFrom(bits, i, n), j) <==> BitAt(bits, i + j) == 1
    decreases n
  {
    if j > 0 { BitsRead(bits, i + 1, n - 1, j - 1); }
  }

  /** What bitmap_read() finds is what bitmap_write() wrote. */
  lemma MapRoundTrip(bits: seq<bool>, i: nat)
    requires i < |bits|
    ensures i / 8 < |Pack(bits)| && Bit(Pack(bits)[i / 8], i % 8) == bits[i]
  {
    BitsRead(bits, 8 * (i / 8), 8, i % 8);
  }

  // ---------- What stays as it was ----------

  // The content of file t.
  function File(bytes: seq<Byte>, ino: Inodes, t: nat): seq<Byte> {
    if t in ino && 512 * (ino[t].start + Sectors(ino[t].length)) <= |bytes| then Data(bytes, ino[t]) else []
  }

  // Every other file is where it was, with the same content. The free map's own
  // file is another matter.
  ghost predicate Kept(bytes: seq<Byte>, ino: Inodes, bytes': seq<Byte>, ino': Inodes, except: set<nat>) {
    forall t :: t in ino && t !in except && t != FREE_MAP_SECTOR ==>
      t in ino' && ino'[t] == ino[t] && File(bytes', ino', t) == File(bytes, ino, t)
  }

  // The directory d' is d with entry e in slot k.
  ghost predicate DirSet(d: seq<Byte>, d': seq<Byte>, k: nat, e: Entry) {
    && k < Slots(d) && Slots(d') == Slots(d) && Slot(d', k) == e
    && forall j :: 0 <= j < Slots(d) && j != k ==> Slot(d', j) == Slot(d, j)
  }

  lemma WroteAll(bytes: seq<Byte>, bytes': seq<Byte>, ino: Inodes, s: nat, image: seq<Byte>)
    requires Updated(bytes, bytes', ino, s, image, 0, |image|) && |File(bytes, ino, s)| == |image|
    ensures File(bytes', ino, s) == image
  {
    if |image| > 0 { assert image[..|image|] == image; }
  }

  // Entries do not straddle the end of a directory.
  lemma EntryCount(length: nat, k: nat)
    requires length % 20 == 0 && k <= length / 20
    ensures Transfer(20, 20 * k, length, true) == if k < length / 20 then 20 else 0
    ensures k < length / 20 ==> 20 * k + 20 <= length
  {}

  // There is a new file s of zeros, named in a slot that was unused.
  ghost predicate Created(bytes: seq<Byte>, ino: Inodes, bytes': seq<Byte>, ino': Inodes, name: seq<Byte>, size: nat,
                          s: nat, k: nat) {
    && s !in ino && s in ino' && ino' == ino[s := ino'[s]] && ino'[s].length == size
    && File(bytes', ino', s) == seq(size, _ => 0)
    && k < Slots(File(bytes, ino, ROOT_DIR_SECTOR)) && Slot(File(bytes, ino, ROOT_DIR_SECTOR), k).Unused?
    && DirSet(File(bytes, ino, ROOT_DIR_SECTOR), File(bytes', ino', ROOT_DIR_SECTOR), k, Used(name, s))
    && Kept(bytes, ino, bytes', ino', {ROOT_DIR_SECTOR})
  }

  lemma CreatedBy(bytes: seq<Byte>, ino: Inodes, between: seq<Byte>, bytes': seq<Byte>, ino': Inodes, name: seq<Byte>,
                  size: nat, s: nat, k: nat)
    requires s > 1 && ROOT_DIR_SECTOR in ino
    requires s !in ino && s in ino' && ino' == ino[s := ino'[s]] && ino'[s].length == size
    requires File(between, ino', s) == seq(size, _ => 0) && Kept(bytes, ino, between, ino', {})
    requires Kept(between, ino', bytes', ino', {ROOT_DIR_SECTOR})
    requires k < Slots(File(between, ino', ROOT_DIR_SECTOR)) && Slot(File(between, ino', ROOT_DIR_SECTOR), k).Unused?
    requires DirSet(File(between, ino', ROOT_DIR_SECTOR), File(bytes', ino', ROOT_DIR_SECTOR), k, Used(name, s))
    ensures Created(bytes, ino, bytes', ino', name, size, s, k)
  {
    assert File(bytes', ino', s) == File(between, ino', s);
    assert File(between, ino', ROOT_DIR_SECTOR) == File(bytes, ino, ROOT_DIR_SECTOR);
    KeptTwice(bytes, ino, between, ino', bytes', ino', {}, {ROOT_DIR_SECTOR});
    assert {} + {ROOT_DIR_SECTOR} == {ROOT_DIR_SECTOR};
  }

  lemma CreatedAfter(bytes: seq<Byte>, ino: Inodes, between: seq<Byte>, bytes': seq<Byte>, ino': Inodes,
                     name: seq<Byte>, size: nat, s: nat, k: nat)
    requires ROOT_DIR_SECTOR in ino && Kept(bytes, ino, between, ino, {})
    requires Created(between, ino, bytes', ino', name, size, s, k)
    ensures Created(bytes, ino, bytes', ino', name, size, s, k)
  {
    assert File(between, ino, ROOT_DIR_SECTOR) == File(bytes, ino, ROOT_DIR_SECTOR);
    KeptTwice(bytes, ino, between, ino, bytes', ino', {}, {ROOT_DIR_SECTOR});
    assert {} + {ROOT_DIR_SECTOR} == {ROOT_DIR_SECTOR};
  }

  // A file that came and went has left the others alone.
  lemma KeptBack(bytes: seq<Byte>, ino: Inodes, between: seq<Byte>, ino': Inodes, bytes': seq<Byte>, s: nat)
    requires s !in ino && s in ino' && ino' == ino[s := ino'[s]]
    requires Kept(bytes, ino, between, ino', {}) && Kept(between, ino', bytes', ino' - {s}, {s})
    ensures ino' - {s} == ino && Kept(bytes, ino, bytes', ino, {})
  {
    assert ino' - {s} == ino;
    KeptTwice(bytes, ino, between, ino', bytes', ino, {}, {s});
  }

  predicate NameFree(d: seq<Byte>, name: seq<Byte>) {
    1 <= |name| <= NAME_MAX && FindName(d, name, 0).None? && FindFree(d, 0).Some?
  }

  // There is a sector for the inode, then a run for the data, and a slot for
  // the name, which is valid and not in use.
  ghost predicate CanCreate(freeMap: seq<bool>, d: seq<Byte>, name: seq<Byte>, size: nat) {
    NameFree(d, name) && Room(freeMap, size)
  }

  /** A file can be made if and only if the name has 1 to 14 characters, no entry
      has it, there is an unused entry, and some run of free sectors is long
      enough for the content besides the lowest free sector, which the inode
      gets. */
  lemma CanCreateExactly(freeMap: seq<bool>, d: seq<Byte>, name: seq<Byte>, size: nat)
    ensures CanCreate(freeMap, d, name, size) <==>
              && 1 <= |name| <= 14
              && (forall k :: 0 <= k < Slots(d) ==> !(Slot(d, k).Used? && Slot(d, k).name == name))
              && (exists k :: 0 <= k < Slots(d) && Slot(d, k).Unused?)
              && var cnt := (size + 511) / 512;
                 exists x, i :: LowestFree(freeMap, x) && RunBeside(freeMap, x, i, cnt)
  {
    FirstFitLowest(freeMap, 0, 1, false);
    if Room(freeMap, size) {
      var x := FirstFit(freeMap, 0, 1, false).value;
      RoomLowest(freeMap, x);
      FirstFitLowest(Filled(freeMap, x, 1, true), 0, Sectors(size), false);
      RunAround(freeMap, x, FirstFit(Filled(freeMap, x, 1, true), 0, Sectors(size), false).value, Sectors(size));
    }
    var cnt := Sectors(size);
    if x, i :| LowestFree(freeMap, x) && RunBeside(freeMap, x, i, cnt) {
      assert RunAt(freeMap, x, 1, false);
      RoomLowest(freeMap, FirstFit(freeMap, 0, 1, false).value);
      FirstFitLowest(Filled(freeMap, x, 1, true), 0, Sectors(size), false);
      RunAround(freeMap, x, i, Sectors(size));
    }
  }

  // The cnt sectors from i on are free, and x is not one of them.
  predicate RunBeside(freeMap: seq<bool>, x: int, i: int, cnt: nat) {
    0 <= i <= i + cnt <= |freeMap| && (forall k :: i <= k < i + cnt ==> !freeMap[k]) && !(i <= x < i + cnt)
  }

  // Sector x is free, and none below it.
  predicate LowestFree(freeMap: seq<bool>, x: int) {
    0 <= x < |freeMap| && !freeMap[x] && forall y :: 0 <= y < x ==> freeMap[y]
  }

  lemma RoomLowest(freeMap: seq<bool>, x: nat)
    requires FirstFit(freeMap, 0, 1, false) == Some(x)
    ensures LowestFree(freeMap, x) && forall y :: LowestFree(freeMap, y) ==> y == x
  {
    FirstFitLowest(freeMap, 0, 1, false);
    assert !freeMap[x];
    forall y | 0 <= y < x ensures freeMap[y] { assert !RunAt(freeMap, y, 1, false); }
  }

  lemma RunAround(freeMap: seq<bool>, x: nat, i: nat, cnt: nat)
    requires x < |freeMap| && !freeMap[x]
    ensures RunAt(Filled(freeMap, x, 1, true), i, cnt, false) <==> RunBeside(freeMap, x, i, cnt)
  {
    var fm := Filled(freeMap, x, 1, true);
    if RunAt(fm, i, cnt, false) {
      assert fm[x];
      forall k | i <= k < i + cnt ensures !freeMap[k] { assert !fm[k]; }
    }
  }

  // The map with the data sectors of a new file marked, if they can be.
  ghost function DataMarked(freeMap: seq<bool>, size: nat, bounce: bool): (r: seq<bool>)
    ensures |r| == |freeMap|
  {
    var i := FirstFit(freeMap, 0, Sectors(size), false);
    if MapWritable(|freeMap|, bounce) && i.Some? && i.value + Sectors(size) <= |freeMap|
    then Filled(freeMap, i.value, Sectors(size), true) else freeMap
  }

  // The map that a failed filesys_create() leaves, when it can be written.
  ghost function AfterFailure(freeMap: seq<bool>, size: nat): seq<bool> {
    var i := FirstFit(freeMap, 0, 1, false);
    if i.None? || i.value >= |freeMap| then freeMap
    else Filled(DataMarked(Filled(freeMap, i.value, 1, true), size, true), i.value, 1, false)
  }

  // There is room for the inode of a file and then for its data.
  ghost predicate Room(freeMap: seq<bool>, size: nat) {
    && FirstFit(freeMap, 0, 1, false).Some?
    && var i := FirstFit(freeMap, 0, 1, false).value;
       i < |freeMap| && FirstFit(Filled(freeMap, i, 1, true), 0, Sectors(size), false).Some?
  }

  /** A failed filesys_create() leaves the free map as it was if and only if the
      file has no data or there was no room for it. Otherwise, with a name that
      is bad or taken or a full directory, the data sectors stay marked. */
  lemma LeakExactly(freeMap: seq<bool>, size: nat)
    ensures AfterFailure(freeMap, size) == freeMap <==> size == 0 || !Room(freeMap, size)
  {
    FirstFitLowest(freeMap, 0, 1, false);
    var r := FirstFit(freeMap, 0, 1, false);
    if r.Some? {
      var i := r.value;
      var fm := Filled(freeMap, i, 1, true);
      FirstFitLowest(fm, 0, Sectors(size), false);
      var q := FirstFit(fm, 0, Sectors(size), false);
      if q.Some? && size > 0 {
        var x := q.value;
        assert !fm[x] && x != i && !freeMap[x];
        assert AfterFailure(freeMap, size)[x];
      }
    }
  }

  lemma FirstFree(fm: seq<bool>, k: nat)
    requires k < |fm| && !fm[k] && forall j :: 0 <= j < k ==> fm[j]
    ensures FirstFit(fm, 0, 1, false) == Some(k)
  {
    FirstFitLowest(fm, 0, 1, false);
    assert RunAt(fm, k, 1, false);
    forall j | 0 <= j < k ensures !RunAt(fm, j, 1, false) {
      assert fm[j];
    }
  }

  /** Such a leak: of two free sectors one is lost when the call fails. */
  lemma LeakExample()
    ensures AfterFailure([true, true, false, false], 1) == [true, true, false, true]
  {
    var fm := [true, true, false, false];
    FirstFree(fm, 2);
    var fm' := Filled(fm, 2, 1, true);
    FirstFree(fm', 3);
    assert Sectors(1) == 1;
    var r := Filled(Filled(fm', 3, 1, true), 2, 1, false);
    assert AfterFailure(fm, 1) == r;
    assert |r| == 4 && r[0] && r[1] && !r[2] && r[3];
  }

  // One opener of file s has closed it: the last one of a removed file releases
  // exactly its sectors, and any other changes nothing.
  ghost predicate Closed(bytes: seq<Byte>, freeMap: seq<bool>, ino: Inodes, open: map<nat, OpenInode>,
                         bytes': seq<Byte>, freeMap': seq<bool>, ino': Inodes, s: nat) {
    if LastOfRemoved(open, s) then
      ino' == ino - {s} && Released(freeMap, freeMap', ino, s) && Kept(bytes, ino, bytes', ino', {s})
    else
      freeMap' == freeMap && ino' == ino && bytes' == bytes
  }

  lemma UnlinkedBy(bytes: seq<Byte>, freeMap: seq<bool>, ino: Inodes, open: map<nat, OpenInode>, between: seq<Byte>,
                   bytes': seq<Byte>, freeMap': seq<bool>, ino': Inodes, open': map<nat, OpenInode>, s: nat,
                     data: Extent)
    requires s in open ==> open[s].openCnt > 0
    requires Kept(bytes, ino, between, ino, {ROOT_DIR_SECTOR})
    requires Closed(between, freeMap, ino, MarkRemoved(OpenOne(open, s, data), s), bytes', freeMap', ino', s)
    requires open' == CloseOne(MarkRemoved(OpenOne(open, s, data), s), s)
    ensures Unlinked(bytes, freeMap, ino, open, bytes', freeMap', ino', open', s)
  {
    OpenClose(open, s, data);
    if s !in open {
      KeptTwice(bytes, ino, between, ino, bytes', ino', {ROOT_DIR_SECTOR}, {s});
    }
  }

  // File s has lost its name. If it is open it stays as it is, to be released by
  // its last close; otherwise its sectors are released now.
  ghost predicate Unlinked(bytes: seq<Byte>, freeMap: seq<bool>, ino: Inodes, open: map<nat, OpenInode>,
                           bytes': seq<Byte>, freeMap': seq<bool>, ino': Inodes, open': map<nat, OpenInode>, s: nat) {
    if s in open then
      ino' == ino && freeMap' == freeMap && open' == MarkRemoved(open, s)
        && Kept(bytes, ino, bytes', ino', {ROOT_DIR_SECTOR})
    else
      ino' == ino - {s} && Released(freeMap, freeMap', ino, s) && open' == open
        && Kept(bytes, ino, bytes', ino', {ROOT_DIR_SECTOR} + {s})
  }

  // Reading entry k of directory d gave e.
  ghost predicate ReadAs(d: seq<Byte>, k: nat, e: seq<Byte>) {
    (|e| == 20 <==> k < Slots(d)) && (|e| == 20 ==> View(e) == Slot(d, k))
  }

  lemma SliceSlice(s: seq<Byte>, a: nat, n: nat, o: nat, m: nat)
    requires a + n <= |s| && o + m <= n
    ensures s[a..a + n][o..o + m] == s[a + o..a + o + m]
  {
    var l, r := s[a..a + n][o..o + m], s[a + o..a + o + m];
    forall i | 0 <= i < m ensures l[i] == r[i] {}
  }

  lemma ReadSlot(bytes: seq<Byte>, x: Extent, k: nat, e: seq<Byte>)
    requires 512 * (x.start + Sectors(x.length)) <= |bytes|
    requires |e| == Count(20, 20 * k, x.length) && SliceAt(bytes, 512 * x.start + 20 * k, e)
    ensures ReadAs(Data(bytes, x), k, e)
  {
    if |e| == 20 { SliceSlice(bytes, 512 * x.start, x.length, 20 * k, 20); }
  }

  // Exactly the sectors of file s, all of them marked before, are clear now.
  ghost predicate Released(freeMap: seq<bool>, freeMap': seq<bool>, ino: Inodes, s: nat) {
    && |freeMap'| == |freeMap|
    && forall x :: 0 <= x < |freeMap| ==>
         if Owns(ino, s, x) then freeMap[x] && !freeMap'[x] else freeMap'[x] == freeMap[x]
  }

  lemma ReleasedBoth(freeMap: seq<bool>, ino: Inodes, s: nat)
    requires Owned(ino, freeMap) && s in ino
    ensures RunAt(freeMap, ino[s].start, Sectors(ino[s].length), true)
    ensures Released(freeMap, Filled(Filled(freeMap, s, 1, false), ino[s].start, Sectors(ino[s].length), false), ino, s)
  {
    DropUnowned(freeMap, ino, s);
  }

  lemma KeptLess(bytes: seq<Byte>, ino: Inodes, bytes': seq<Byte>, s: nat)
    requires Kept(bytes, ino - {s}, bytes', ino - {s}, {})
    ensures Kept(bytes, ino, bytes', ino - {s}, {s})
  {
    var ino' := ino - {s};
    forall t | t in ino' ensures File(bytes, ino, t) == File(bytes, ino', t) {}
  }

  // A new file of zeros, in sectors that belonged to nobody.
  lemma NewFile(bytes: seq<Byte>, bytes': seq<Byte>, freeMap: seq<bool>, ino: Inodes, open: map<nat, OpenInode>, s: nat,
                e: Extent)
    requires Inv(bytes, freeMap, ino, open, -1)
    requires |bytes'| == |bytes| && s < |freeMap| && freeMap[s] && e.length < 0x8000_0000
    requires e.start + Sectors(e.length) <= |freeMap| && RunAt(freeMap, e.start, Sectors(e.length), true)
    requires !(e.start <= s < e.start + Sectors(e.length))
    requires forall t, x :: Owns(ino, t, x) ==> x != s && !(e.start <= x < e.start + Sectors(e.length))
    requires forall x: nat :: x != s && !(e.start <= x < e.start + Sectors(e.length)) ==> SameSector(bytes, bytes', x)
    requires InodeAt(bytes', s) == e && Data(bytes', e) == seq(e.length, _ => 0)
    ensures s !in ino && s > 1 && s !in open
    ensures var ino' := ino[s := e];
            && Inv(bytes', freeMap, ino', open, s) && !Named(File(bytes', ino', ROOT_DIR_SECTOR), s)
            && File(bytes', ino', s) == seq(e.length, _ => 0) && Kept(bytes, ino, bytes', ino', {})
            && File(bytes', ino', FREE_MAP_SECTOR) == File(bytes, ino, FREE_MAP_SECTOR)
  {
    InvNew(bytes, bytes', freeMap, ino, open, s, e);
    var ino' := ino[s := e];
    forall t | t in ino ensures File(bytes', ino', t) == File(bytes, ino, t) {}
  }

  lemma KeptWrite(bytes: seq<Byte>, bytes': seq<Byte>, freeMap: seq<bool>, ino: Inodes, s: nat)
    requires Owned(ino, freeMap) && |bytes| == |bytes'| == 512 * |freeMap|
    requires forall t :: t in ino && t != s ==> Data(bytes', ino[t]) == Data(bytes, ino[t])
    ensures Kept(bytes, ino, bytes', ino, {s})
  {}

  // The first n bytes of the buffer are now at offset ofs of file s, and nothing
  // else has changed.
  ghost predicate Updated(bytes: seq<Byte>, bytes': seq<Byte>, ino: Inodes, s: nat, buffer: seq<Byte>, ofs: nat,
                          n: nat) {
    && |bytes'| == |bytes| && OnDisk(bytes', ino) && Kept(bytes, ino, bytes', ino, {s})
    && Wrote(File(bytes, ino, s), File(bytes', ino, s), ofs, buffer, n)
    && (s != FREE_MAP_SECTOR ==> File(bytes', ino, FREE_MAP_SECTOR) == File(bytes, ino, FREE_MAP_SECTOR))
  }

  // Byte for byte, f' is f with the first n bytes of the buffer at offset ofs.
  ghost predicate Replaced(f: seq<Byte>, f': seq<Byte>, length: nat, buffer: seq<Byte>, ofs: nat, n: nat) {
    && |f| == |f'| == length && n <= |buffer|
    && forall k :: 0 <= k < length ==> f'[k] == if ofs <= k < ofs + n then buffer[k - ofs] else f[k]
  }

  lemma WroteReplaced(f: seq<Byte>, f': seq<Byte>, buffer: seq<Byte>, ofs: nat, n: nat)
    requires Wrote(f, f', ofs, buffer, n)
    ensures Replaced(f, f', |f|, buffer, ofs, n)
  {}

  lemma FileLength(bytes: seq<Byte>, freeMap: seq<bool>, ino: Inodes, s: nat)
    requires Owned(ino, freeMap) && |bytes| == 512 * |freeMap| && s in ino
    ensures |File(bytes, ino, s)| == ino[s].length
  {}

  // A write to file s, seen on the disk, is one to its flat array.
  lemma FileWritten(bytes: seq<Byte>, bytes': seq<Byte>, freeMap: seq<bool>, ino: Inodes, open: map<nat, OpenInode>,
                    pending: int,
                    s: nat, buffer: seq<Byte>, ofs: nat, n: nat)
    requires Inv(bytes, freeMap, ino, open, pending) && s in ino
    requires Wrote(bytes, bytes', 512 * ino[s].start + ofs, buffer, n) && (n > 0 ==> ofs + n <= ino[s].length)
    ensures Updated(bytes, bytes', ino, s, buffer, ofs, n)
  {
    if n > 0 {
      var b := WriteFrame(bytes, freeMap, ino, s, ofs, buffer[..n]);
      KeptWrite(bytes, bytes', freeMap, ino, s);
    }
  }

  lemma InvUpdated(bytes: seq<Byte>, bytes': seq<Byte>, freeMap: seq<bool>, ino: Inodes, open: map<nat, OpenInode>,
                   pending: int,
                   s: nat, buffer: seq<Byte>, ofs: nat, n: nat)
    requires Inv(bytes, freeMap, ino, open, pending) && s in ino
    requires s != ROOT_DIR_SECTOR && Updated(bytes, bytes', ino, s, buffer, ofs, n)
    ensures Inv(bytes', freeMap, ino, open, pending)
  {
    assert File(bytes', ino, ROOT_DIR_SECTOR) == File(bytes, ino, ROOT_DIR_SECTOR);
    InvWrite(bytes, bytes', freeMap, ino, open, pending);
  }

  lemma KeptTwice(bytes: seq<Byte>, ino: Inodes, bytes': seq<Byte>, ino': Inodes, bytes'': seq<Byte>, ino'': Inodes,
                  except: set<nat>, except': set<nat>)
    requires Kept(bytes, ino, bytes', ino', except) && Kept(bytes', ino', bytes'', ino'', except')
    ensures Kept(bytes, ino, bytes'', ino'', except + except')
  {}

  // The disk do_format() leaves, with k sectors of free map.
  ghost predicate Formatted(bytes: seq<Byte>, sectors: nat, k: nat, fm: seq<bool>) {
    && k == Sectors(MapSize(sectors)) && 3 + k <= sectors < 0x40_0000 && |bytes| == 512 * sectors
    && |fm| == sectors && (forall x :: 0 <= x < sectors ==> fm[x] == (x < 3 + k))
    && InodeAt(bytes, 0) == Extent(2, MapSize(sectors)) && InodeAt(bytes, 1) == Extent(2 + k, 320)
    && bytes[1024..1024 + MapSize(sectors)] == Pack(fm)
    && forall i :: 512 * (2 + k) <= i < 512 * (2 + k) + 320 ==> bytes[i] == 0
  }

  // ---------- Formatting and mounting ----------

  method ZeroSectors(dev: Device, start: nat, cnt: nat)
    requires 512 * (start + cnt) <= |dev.bytes|
    modifies dev
    ensures |dev.bytes| == |old(dev.bytes)|
    ensures forall x: nat :: !(start <= x < start + cnt) ==> SameSector(old(dev.bytes), dev.bytes, x)
    ensures forall i :: 512 * start <= i < 512 * (start + cnt) ==> dev.bytes[i] == 0
  {
    var zeros: seq<Byte> := seq(512, _ => 0);
    for i := 0 to cnt
      invariant |dev.bytes| == |old(dev.bytes)|
      invariant forall x: nat :: !(start <= x < start + i) ==> SameSector(old(dev.bytes), dev.bytes, x)
      invariant forall j :: 512 * start <= j < 512 * (start + i) ==> dev.bytes[j] == 0
    {
      ghost var before := dev.bytes;
      dev.BlockWrite(start + i, zeros);
      forall x: nat | !(start <= x < start + i + 1) ensures SameSector(old(dev.bytes), dev.bytes, x) {
        SpliceSectors(before, 512 * (start + i), zeros, start + i, 1, x);
        SameTwice(old(dev.bytes), before, dev.bytes, x);
      }
    }
  }

  // The inode goes to its sector and zeros to its data.
  method PutInode(dev: Device, sector: nat, e: Extent)
    requires e.start < 0x1_0000_0000 && e.length < 0x8000_0000
    requires 512 * sector + 512 <= |dev.bytes| && 512 * (e.start + Sectors(e.length)) <= |dev.bytes|
    requires !(e.start <= sector < e.start + Sectors(e.length))
    modifies dev
    ensures |dev.bytes| == |old(dev.bytes)| && InodeAt(dev.bytes, sector) == e
    ensures forall x: nat :: x != sector && !(e.start <= x < e.start + Sectors(e.length)) ==>
              SameSector(old(dev.bytes), dev.bytes, x)
    ensures Data(dev.bytes, e) == seq(e.length, _ => 0)
  {
    InodeRoundTrip(e);
    var image := EncodeInode(e);
    dev.BlockWrite(sector, image);
    ghost var between := dev.bytes;
    assert between[512 * sector..512 * sector + 512] == image;
    ZeroSectors(dev, e.start, Sectors(e.length));
    assert SameSector(between, dev.bytes, sector);
    forall x: nat | x != sector && !(e.start <= x < e.start + Sectors(e.length))
      ensures SameSector(old(dev.bytes), dev.bytes, x)
    {
      SpliceSectors(old(dev.bytes), 512 * sector, image, sector, 1, x);
      SameTwice(old(dev.bytes), between, dev.bytes, x);
    }
  }

  // The bits from n on, and no others, are clear.
  ghost predicate ClearFrom(fm: seq<bool>, n: nat) { forall x :: 0 <= x < |fm| ==> fm[x] == (x < n) }

  lemma FitsAt(fm: seq<bool>, n: nat, cnt: nat)
    requires ClearFrom(fm, n) && n + cnt <= |fm| && cnt > 0
    ensures FirstFit(fm, 0, cnt, false) == Some(n) && ClearFrom(Filled(fm, n, cnt, true), n + cnt)
  {
    FirstFitLowest(fm, 0, cnt, false);
    assert RunAt(fm, n, cnt, false);
    forall j | 0 <= j < n ensures !RunAt(fm, j, cnt, false) {
      assert fm[j];
    }
  }

  // bitmap_write() to the free map's file, in sectors of its own.
  method PutMap(dev: Device, e: Extent, fm: seq<bool>)
    requires e.length == MapSize(|fm|) && 512 * (e.start + Sectors(e.length)) <= |dev.bytes|
    modifies dev
    ensures |dev.bytes| == |old(dev.bytes)| && Data(dev.bytes, e) == Pack(fm)
    ensures forall x: nat :: !(e.start <= x < e.start + Sectors(e.length)) ==> SameSector(old(dev.bytes), dev.bytes, x)
  {
    var image := Pack(fm);
    var written := dev.WriteAt(e.start, e.length, 0, image, 0, true);
    assert image[..written] == image;
    forall x: nat | !(e.start <= x < e.start + Sectors(e.length)) ensures SameSector(old(dev.bytes), dev.bytes, x) {
      if written > 0 { SpliceSectors(old(dev.bytes), 512 * e.start, image, e.start, Sectors(e.length), x); }
    }
  }

  /** do_format(), whatever was on the disk: free_map_create() makes the map's
      file when its own file is not open yet, dir_create() when it is. */
  method Format(dev: Device, sectors: nat)
    requires 3 + Sectors(MapSize(sectors)) <= sectors < 0x40_0000 && |dev.bytes| == 512 * sectors
    modifies dev
    ensures exists fm :: Formatted(dev.bytes, sectors, Sectors(MapSize(sectors)), fm)
  {
    // free_map_init()
    var fm := seq(sectors, x => x < 2);
    // free_map_create()
    var k := Sectors(MapSize(sectors));
    FitsAt(fm, 2, k);
    var r := FirstFit(fm, 0, k, false);
    fm := Filled(fm, r.value, k, true);
    var e := Extent(r.value, MapSize(sectors));
    PutInode(dev, FREE_MAP_SECTOR, e);
    ghost var made := dev.bytes;
    PutMap(dev, e, fm);
    assert SameSector(made, dev.bytes, 0);
    // dir_create()
    FitsAt(fm, 2 + k, 1);
    r := FirstFit(fm, 0, 1, false);
    fm := Filled(fm, r.value, 1, true);
    made := dev.bytes;
    PutMap(dev, e, fm);
    assert SameSector(made, dev.bytes, 0);
    ghost var before := dev.bytes;
    PutInode(dev, ROOT_DIR_SECTOR, Extent(r.value, 320));
    assert SameSector(before, dev.bytes, 0);
    SameData(before, dev.bytes, e);
    FormattedBytes(dev.bytes, sectors, k, fm);
  }

  lemma FormattedBytes(bytes: seq<Byte>, sectors: nat, k: nat, fm: seq<bool>)
    requires k == Sectors(MapSize(sectors)) && 3 + k <= sectors < 0x40_0000 && |bytes| == 512 * sectors
    requires |fm| == sectors && ClearFrom(fm, 3 + k)
    requires InodeAt(bytes, 0) == Extent(2, MapSize(sectors)) && Data(bytes, InodeAt(bytes, 0)) == Pack(fm)
    requires InodeAt(bytes, 1) == Extent(2 + k, 320) && Data(bytes, InodeAt(bytes, 1)) == seq(320, _ => 0)
    ensures Formatted(bytes, sectors, k, fm)
  {
    var d := Data(bytes, Extent(2 + k, 320));
    forall i | 512 * (2 + k) <= i < 512 * (2 + k) + 320 ensures bytes[i] == 0 {
      assert bytes[i] == d[i - 512 * (2 + k)];
    }
  }

  // bitmap_read(): the bits of the bytes, lowest first.
  function Unpack(b: seq<Byte>, n: nat): (r: seq<bool>)
    requires n <= 8 * |b|
    ensures |r| == n
  {
    seq(n, i requires 0 <= i < n => Bit(b[i / 8], i % 8))
  }

  lemma PackUnpack(fm: seq<bool>)
    ensures |fm| <= 8 * |Pack(fm)| && Unpack(Pack(fm), |fm|) == fm
  {
    forall i | 0 <= i < |fm| ensures Unpack(Pack(fm), |fm|)[i] == fm[i] {
      MapRoundTrip(fm, i);
    }
  }

  // free_map_open()
  method ReadMap(dev: Device, sectors: nat, ghost fm: seq<bool>) returns (e: Extent, freeMap: seq<bool>)
    requires sectors == |fm| && |dev.bytes| >= 512
    requires var e0 := InodeAt(dev.bytes, FREE_MAP_SECTOR);
             && e0.length == MapSize(sectors) && 512 * (e0.start + Sectors(e0.length)) <= |dev.bytes|
             && Data(dev.bytes, e0) == Pack(fm)
    ensures e == InodeAt(dev.bytes, FREE_MAP_SECTOR) && freeMap == fm
  {
    var data := dev.BlockRead(FREE_MAP_SECTOR);
    e := DecodeInode(data);
    var image := dev.ReadAt(e.start, e.length, MapSize(sectors), 0, true);
    assert image == Pack(fm);
    PackUnpack(fm);
    freeMap := Unpack(image, sectors);
  }

  lemma FormattedInv(bytes: seq<Byte>, sectors: nat, k: nat, fm: seq<bool>)
    requires Formatted(bytes, sectors, k, fm)
    ensures var map0, root := Extent(2, MapSize(sectors)), Extent(2 + k, 320);
            && Inv(bytes, fm, map[0 := map0, 1 := root], map[], -1)
            && Data(bytes, map0) == Pack(fm)
            && Slots(Data(bytes, root)) == 16 && forall j :: 0 <= j < 16 ==> Slot(Data(bytes, root), j).Unused?
  {
    var d := Data(bytes, Extent(2 + k, 320));
    forall j | 0 <= j < 16 ensures Slot(d, j).Unused? {
      assert d[20 * j + 19] == bytes[512 * (2 + k) + 20 * j + 19] == 0;
      assert d[20 * j..20 * j + 20][19] == d[20 * j + 19];
    }
  }

  /** filesys_init() with formatting: whatever the disk held, it holds a free map
      and a root directory of 16 unused entries now. On a disk too small for them
      the kernel panics. */
  method FormatAndMount(device: Device, sectors: nat) returns (fs: FileSystem)
    requires 3 + Sectors(MapSize(sectors)) <= sectors < 0x40_0000 && |device.bytes| == 512 * sectors
    modifies device
    ensures fresh(fs) && fs.dev == device && fs.Valid() && |fs.freeMap| == sectors
    ensures Slots(fs.Root()) == 16 && forall k :: 0 <= k < 16 ==> Slot(fs.Root(), k).Unused?
    ensures fs.Synced() && fs.ino.Keys == {FREE_MAP_SECTOR, ROOT_DIR_SECTOR}
  {
    Format(device, sectors);
    ghost var k := Sectors(MapSize(sectors));
    ghost var fm :| Formatted(device.bytes, sectors, k, fm);
    FormattedInv(device.bytes, sectors, k, fm);
    fs := new FileSystem.Mount(device, sectors, map[0 := Extent(2, MapSize(sectors)), 1 := Extent(2 + k, 320)], fm);
  }

  /** Shutting down with no file open and mounting again changes nothing: every
      file, every name and every free sector is as it was. */
  method Reboot(fs: FileSystem) returns (fs': FileSystem)
    requires fs.Valid() && fs.open.Keys == {FREE_MAP_SECTOR} && fs.open[FREE_MAP_SECTOR].openCnt == 1
    requires fs.Synced()
    modifies fs, fs.dev
    ensures fresh(fs') && fs'.Valid() && fs'.Synced() && fs'.dev == fs.dev && fs.dev.bytes == old(fs.dev.bytes)
    ensures fs'.freeMap == old(fs.freeMap) && fs'.ino == old(fs.ino)
  {
    ghost var files := fs.ino;
    fs.InodeClose(FREE_MAP_SECTOR, true);
    assert fs.open == map[];
    fs' := new FileSystem.Mount(fs.dev, |fs.freeMap|, files, fs.freeMap);
  }

  // What a client may do. Open files are named by their inode's sector.
  datatype Op =
    | DoCreate(name: seq<Byte>, size: nat, bounce: bool, bounce2: bool)
    | DoOpen(name: seq<Byte>)
    | DoRemove(name: seq<Byte>, bounce: bool)
    | DoWrite(s: nat, buffer: seq<Byte>, offset: nat)
    | DoClose(s: nat, bounce: bool)
    | DoDeny(s: nat)
    | DoAllow(s: nat)

  predicate Sensible(op: Op) { op.DoCreate? ==> CString(op.name) && op.size < 0x8000_0000 }

  // There is memory for the buffer with which the call writes the free map.
  predicate Buffered(op: Op) {
    match op
    case DoCreate(_, _, bounce, bounce2) => bounce && bounce2
    case DoRemove(_, bounce) => bounce
    case DoClose(_, bounce) => bounce
    case _ => true
  }

  // The call neither writes to file s nor closes it.
  predicate LeavesAlone(op: Op, s: nat) { (op.DoWrite? || op.DoClose?) ==> op.s != s }

  // Files that are open stay open, with the same content.
  ghost predicate StillOpen(bytes: seq<Byte>, ino: Inodes, open: map<nat, OpenInode>,
                            bytes': seq<Byte>, ino': Inodes, open': map<nat, OpenInode>, s: nat) {
    s in open && s > 1 ==> s in open' && s in ino' && File(bytes', ino', s) == File(bytes, ino, s)
  }

  // A file whose writes are denied is still open, denied and the same.
  ghost predicate StillDenied(bytes: seq<Byte>, ino: Inodes, open: map<nat, OpenInode>,
                              bytes': seq<Byte>, ino': Inodes, open': map<nat, OpenInode>, s: nat) {
    Denied(open, s) ==> Denied(open', s) && s in ino' && File(bytes', ino', s) == File(bytes, ino, s)
  }

  predicate Denied(open: map<nat, OpenInode>, s: nat) { s in open && s > 1 && open[s].denyWriteCnt > 0 }

  // Directory d leads from the name to the inode in sector s.
  ghost predicate Leads(d: seq<Byte>, name: seq<Byte>, s: nat) {
    exists k :: 0 <= k < Slots(d) && Slot(d, k) == Used(name, s)
  }

  // The call neither removes the name nor writes to file s.
  predicate Spares(op: Op, name: seq<Byte>, s: nat) {
    (op.DoRemove? ==> op.name != name) && (op.DoWrite? ==> op.s != s)
  }

  // A file with a name, open or not, keeps it, and its place and content.
  ghost predicate StillNamed(bytes: seq<Byte>, ino: Inodes, bytes': seq<Byte>, ino': Inodes, name: seq<Byte>, s: nat) {
    Leads(File(bytes, ino, ROOT_DIR_SECTOR), name, s) ==>
      && Leads(File(bytes', ino', ROOT_DIR_SECTOR), name, s)
      && s in ino && s in ino' && ino'[s] == ino[s] && File(bytes', ino', s) == File(bytes, ino, s)
  }

  lemma LeadsTo(bytes: seq<Byte>, freeMap: seq<bool>, ino: Inodes, open: map<nat, OpenInode>, name: seq<Byte>, s: nat)
    requires Inv(bytes, freeMap, ino, open, -1) && Leads(File(bytes, ino, ROOT_DIR_SECTOR), name, s)
    ensures s in ino && s > 1 && !Removed(open, s)
  {
    var d := File(bytes, ino, ROOT_DIR_SECTOR);
    var k :| 0 <= k < Slots(d) && Slot(d, k) == Used(name, s);
    assert EntryOk(Slot(d, k), ino);
    assert Named(d, s);
  }

  lemma SameNamed(bytes: seq<Byte>, freeMap: seq<bool>, ino: Inodes, open: map<nat, OpenInode>, name: seq<Byte>, s: nat)
    requires Inv(bytes, freeMap, ino, open, -1)
    ensures StillNamed(bytes, ino, bytes, ino, name, s)
  {
    if Leads(File(bytes, ino, ROOT_DIR_SECTOR), name, s) { LeadsTo(bytes, freeMap, ino, open, name, s); }
  }

  lemma UnlinkedOpen(bytes: seq<Byte>, freeMap: seq<bool>, ino: Inodes, open: map<nat, OpenInode>, bytes': seq<Byte>,
                     freeMap': seq<bool>, ino': Inodes, open': map<nat, OpenInode>, t: nat, s: nat)
    requires OpenOk(open, ino) && Unlinked(bytes, freeMap, ino, open, bytes', freeMap', ino', open', t)
    ensures StillOpen(bytes, ino, open, bytes', ino', open', s) && StillDenied(bytes, ino, open, bytes', ino', open', s)
  {}

  // A file whose writes are denied is not closed by its last opener.
  lemma ClosedDenied(bytes: seq<Byte>, freeMap: seq<bool>, ino: Inodes, open: map<nat, OpenInode>, bytes': seq<Byte>,
                     freeMap': seq<bool>, ino': Inodes, open': map<nat, OpenInode>, t: nat, s: nat)
    requires OpenOk(open, ino) && t in open && open[t].denyWriteCnt < open[t].openCnt
    requires Closed(bytes, freeMap, ino, open, bytes', freeMap', ino', t) && open' == CloseOne(open, t)
    ensures StillDenied(bytes, ino, open, bytes', ino', open', s)
  {}

  lemma UpdatedDenied(bytes: seq<Byte>, bytes': seq<Byte>, ino: Inodes, open: map<nat, OpenInode>, t: nat,
                      buffer: seq<Byte>, offset: nat, n: nat, s: nat)
    requires OpenOk(open, ino) && Updated(bytes, bytes', ino, t, buffer, offset, n) && (Denied(open, t) ==> n == 0)
    ensures StillDenied(bytes, ino, open, bytes', ino, open, s)
  {}

  lemma ClosedOpen(bytes: seq<Byte>, freeMap: seq<bool>, ino: Inodes, open: map<nat, OpenInode>, bytes': seq<Byte>,
                   freeMap': seq<bool>, ino': Inodes, open': map<nat, OpenInode>, t: nat, s: nat)
    requires OpenOk(open, ino) && t in open && s != t
    requires Closed(bytes, freeMap, ino, open, bytes', freeMap', ino', t) && open' == CloseOne(open, t)
    ensures StillOpen(bytes, ino, open, bytes', ino', open', s)
  {}

  lemma ClosedNamed(bytes: seq<Byte>, freeMap: seq<bool>, ino: Inodes, open: map<nat, OpenInode>, bytes': seq<Byte>,
                    freeMap': seq<bool>, ino': Inodes, t: nat, name: seq<Byte>, s: nat)
    requires Inv(bytes, freeMap, ino, open, -1) && t > 1
    requires Closed(bytes, freeMap, ino, open, bytes', freeMap', ino', t)
    ensures StillNamed(bytes, ino, bytes', ino', name, s)
  {
    if LastOfRemoved(open, t) {
      KeptNamed(bytes, freeMap, ino, open, bytes', ino', {t}, name, s);
    } else {
      SameNamed(bytes, freeMap, ino, open, name, s);
    }
  }

  lemma CreatedNamed(bytes: seq<Byte>, freeMap: seq<bool>, ino: Inodes, open: map<nat, OpenInode>,
                     bytes': seq<Byte>, ino': Inodes, newName: seq<Byte>, size: nat, t: nat, k: nat, name: seq<Byte>,
                       s: nat)
    requires Inv(bytes, freeMap, ino, open, -1) && Created(bytes, ino, bytes', ino', newName, size, t, k)
    ensures StillNamed(bytes, ino, bytes', ino', name, s)
  {
    var d, d' := File(bytes, ino, ROOT_DIR_SECTOR), File(bytes', ino', ROOT_DIR_SECTOR);
    if Leads(d, name, s) {
      LeadsTo(bytes, freeMap, ino, open, name, s);
      var j :| 0 <= j < Slots(d) && Slot(d, j) == Used(name, s);
      assert Slot(d', j) == Used(name, s);
    }
  }

  lemma KeptNamed(bytes: seq<Byte>, freeMap: seq<bool>, ino: Inodes, open: map<nat, OpenInode>,
                  bytes': seq<Byte>, ino': Inodes, except: set<nat>, name: seq<Byte>, s: nat)
    requires Inv(bytes, freeMap, ino, open, -1) && Kept(bytes, ino, bytes', ino', except)
    requires ROOT_DIR_SECTOR !in except && (s in except ==> Removed(open, s))
    ensures StillNamed(bytes, ino, bytes', ino', name, s)
  {
    if Leads(File(bytes, ino, ROOT_DIR_SECTOR), name, s) { LeadsTo(bytes, freeMap, ino, open, name, s); }
  }

  lemma RemovedNamed(bytes: seq<Byte>, freeMap: seq<bool>, ino: Inodes, open: map<nat, OpenInode>, bytes': seq<Byte>,
                     freeMap': seq<bool>, ino': Inodes, open': map<nat, OpenInode>, k: nat, name: seq<Byte>, s: nat)
    requires Inv(bytes, freeMap, ino, open, -1)
    requires DirSet(File(bytes, ino, ROOT_DIR_SECTOR), File(bytes', ino', ROOT_DIR_SECTOR), k, Unused)
    requires var e := Slot(File(bytes, ino, ROOT_DIR_SECTOR), k);
             e.Used? && e.name != name && Unlinked(bytes, freeMap, ino, open, bytes', freeMap', ino', open', e.sector)
    ensures StillNamed(bytes, ino, bytes', ino', name, s)
  {
    var d, d' := File(bytes, ino, ROOT_DIR_SECTOR), File(bytes', ino', ROOT_DIR_SECTOR);
    if Leads(d, name, s) {
      LeadsTo(bytes, freeMap, ino, open, name, s);
      var j :| 0 <= j < Slots(d) && Slot(d, j) == Used(name, s);
      NamesApart(bytes, freeMap, ino, open, d, j, k);
      assert Slot(d', j) == Used(name, s);
    }
  }

  // A file system at one moment.
  datatype Disk = Disk(bytes: seq<Byte>, freeMap: seq<bool>, ino: Inodes, open: map<nat, OpenInode>)

  // The root directory.
  ghost function DirOf(x: Disk): seq<Byte> { File(x.bytes, x.ino, ROOT_DIR_SECTOR) }

  // What each call does.
  ghost predicate DidCreate(x: Disk, y: Disk, name: seq<Byte>, size: nat, room: bool) {
    && y.open == x.open
    && (|| (CanCreate(x.freeMap, DirOf(x), name, size)
            && exists s: nat, k: nat :: Created(x.bytes, x.ino, y.bytes, y.ino, name, size, s, k))
        || (y.ino == x.ino && Kept(x.bytes, x.ino, y.bytes, y.ino, {})
            && (room ==> !CanCreate(x.freeMap, DirOf(x), name, size))))
  }

  ghost predicate DidOpen(x: Disk, y: Disk, name: seq<Byte>) {
    && y.bytes == x.bytes && y.freeMap == x.freeMap && y.ino == x.ino
    && match FindName(DirOf(x), name, 0)
       case None => y.open == x.open
       case Some(k) => Slot(DirOf(x), k).Used? && Slot(DirOf(x), k).sector in x.ino
                       && y.open == OpenOne(x.open, Slot(DirOf(x), k).sector, x.ino[Slot(DirOf(x), k).sector])
  }

  ghost predicate DidRemove(x: Disk, y: Disk, name: seq<Byte>) {
    match FindName(DirOf(x), name, 0)
    case None => y == x
    case Some(k) => Slot(DirOf(x), k).Used? && DirSet(DirOf(x), DirOf(y), k, Unused)
                    && Unlinked(x.bytes, x.freeMap, x.ino, x.open, y.bytes, y.freeMap, y.ino, y.open,
                                Slot(DirOf(x), k).sector)
  }

  ghost predicate DidWrite(x: Disk, y: Disk, s: nat, buffer: seq<Byte>, offset: nat) {
    if s in x.open && s > 1 && s in x.ino then
      && y == x.(bytes := y.bytes)
      && exists n: nat :: Updated(x.bytes, y.bytes, x.ino, s, buffer, offset, n)
           && (x.open[s].denyWriteCnt > 0 ==> n == 0) && (n > 0 ==> n <= |buffer| && offset + n <= x.ino[s].length)
           && (x.open[s].denyWriteCnt == 0 && buffer != [] ==> n == |buffer| || offset + n >= x.ino[s].length)
    else y == x
  }

  ghost predicate DidClose(x: Disk, y: Disk, s: nat) {
    if s in x.open && s > 1 && x.open[s].denyWriteCnt < x.open[s].openCnt then
      && y.open == CloseOne(x.open, s)
      && Closed(x.bytes, x.freeMap, x.ino, x.open, y.bytes, y.freeMap, y.ino, s)
    else y == x
  }

  ghost predicate DidDeny(x: Disk, y: Disk, s: nat) {
    if s in x.open && s > 1 && x.open[s].denyWriteCnt < x.open[s].openCnt
    then y == x.(open := SetDeny(x.open, s, x.open[s].denyWriteCnt + 1)) else y == x
  }

  ghost predicate DidAllow(x: Disk, y: Disk, s: nat) {
    if s in x.open && s > 1 && x.open[s].denyWriteCnt > 0
    then y == x.(open := SetDeny(x.open, s, x.open[s].denyWriteCnt - 1)) else y == x
  }

  ghost predicate Did(op: Op, x: Disk, y: Disk) {
    match op
    case DoCreate(name, size, bounce, bounce2) => DidCreate(x, y, name, size, bounce && bounce2)
    case DoOpen(name) => DidOpen(x, y, name)
    case DoRemove(name, _) => DidRemove(x, y, name)
    case DoWrite(s, buffer, offset) => DidWrite(x, y, s, buffer, offset)
    case DoClose(s, _) => DidClose(x, y, s)
    case DoDeny(s) => DidDeny(x, y, s)
    case DoAllow(s) => DidAllow(x, y, s)
  }

  // The call did what it is for, and left file s alone as far as it should.
  ghost predicate Done(op: Op, x: Disk, y: Disk, name: seq<Byte>, s: nat) {
    Did(op, x, y) && Still(x, y, name, s, LeavesAlone(op, s), Spares(op, name, s), op != DoAllow(s))
  }

  ghost predicate Still(x: Disk, y: Disk, name: seq<Byte>, s: nat, alone: bool, spared: bool, held: bool) {
    && (held ==> StillDenied(x.bytes, x.ino, x.open, y.bytes, y.ino, y.open, s))
    && (alone ==> StillOpen(x.bytes, x.ino, x.open, y.bytes, y.ino, y.open, s))
    && (spared ==> StillNamed(x.bytes, x.ino, y.bytes, y.ino, name, s))
  }

  ghost predicate Sound(x: Disk) { Inv(x.bytes, x.freeMap, x.ino, x.open, -1) }

  lemma SameStill(x: Disk, name: seq<Byte>, s: nat, alone: bool, spared: bool, held: bool)
    requires Sound(x)
    ensures Still(x, x, name, s, alone, spared, held)
  {
    SameNamed(x.bytes, x.freeMap, x.ino, x.open, name, s);
  }

  // Only the denials of file t are others.
  predicate Recounted(x: Disk, y: Disk, t: nat, cnt: nat) {
    t in x.open && t > 1 && y == x.(open := SetDeny(x.open, t, cnt))
  }

  lemma DenyDone(x: Disk, y: Disk, t: nat, cnt: nat, name: seq<Byte>, s: nat)
    requires Recounted(x, y, t, cnt) && Still(x, x, name, s, true, true, true)
    ensures cnt == x.open[t].denyWriteCnt + 1 <= x.open[t].openCnt ==> Done(DoDeny(t), x, y, name, s)
    ensures cnt == x.open[t].denyWriteCnt - 1 ==> Done(DoAllow(t), x, y, name, s)
  {
    assert Still(x, y, name, s, true, true, cnt > x.open[t].denyWriteCnt || s != t);
  }

  lemma IdleDone(x: Disk, t: nat, name: seq<Byte>, s: nat)
    requires Still(x, x, name, s, true, true, true)
    ensures t !in x.open || t <= 1 || x.open[t].denyWriteCnt >= x.open[t].openCnt ==> Done(DoDeny(t), x, x, name, s)
    ensures t !in x.open || t <= 1 || x.open[t].denyWriteCnt == 0 ==> Done(DoAllow(t), x, x, name, s)
  {}

  lemma WriteDone(x: Disk, y: Disk, t: nat, buffer: seq<Byte>, offset: nat, n: nat, name: seq<Byte>, s: nat)
    requires Sound(x) && t in x.open && t > 1 && t in x.ino && y == x.(bytes := y.bytes)
    requires DidWrite(x, y, t, buffer, offset) && Updated(x.bytes, y.bytes, x.ino, t, buffer, offset, n)
    requires x.open[t].denyWriteCnt > 0 ==> n == 0
    ensures Done(DoWrite(t, buffer, offset), x, y, name, s)
  {
    UpdatedDenied(x.bytes, y.bytes, x.ino, x.open, t, buffer, offset, n, s);
    if t != s { KeptNamed(x.bytes, x.freeMap, x.ino, x.open, y.bytes, y.ino, {t}, name, s); }
  }

  lemma CreateDone(x: Disk, y: Disk, file: seq<Byte>, size: nat, bounce: bool, bounce2: bool, name: seq<Byte>, s: nat)
    requires Sound(x) && DidCreate(x, y, file, size, bounce && bounce2)
    ensures Done(DoCreate(file, size, bounce, bounce2), x, y, name, s)
  {
    assert StillNamed(x.bytes, x.ino, y.bytes, y.ino, name, s) by {
      if t: nat, k: nat :| Created(x.bytes, x.ino, y.bytes, y.ino, file, size, t, k) {
        CreatedNamed(x.bytes, x.freeMap, x.ino, x.open, y.bytes, y.ino, file, size, t, k, name, s);
      } else {
        KeptNamed(x.bytes, x.freeMap, x.ino, x.open, y.bytes, y.ino, {}, name, s);
      }
    }
    CreateStill(x, y, file, size, bounce && bounce2, name, s);
  }

  lemma CreateStill(x: Disk, y: Disk, file: seq<Byte>, size: nat, room: bool, name: seq<Byte>, s: nat)
    requires OpenOk(x.open, x.ino) && DidCreate(x, y, file, size, room)
    requires StillNamed(x.bytes, x.ino, y.bytes, y.ino, name, s)
    ensures Still(x, y, name, s, true, true, true)
  {}

  // The first n calls lead from each state to the next.
  ghost predicate Traced(ops: seq<Op>, trace: seq<Disk>, n: nat)
    requires n <= |ops| && n < |trace|
  {
    forall i :: 0 <= i < n ==> Did(ops[i], trace[i], trace[i + 1])
  }

  lemma TracedMore(ops: seq<Op>, trace: seq<Disk>, n: nat, now: Disk)
    requires n < |ops| && n + 1 == |trace| && Traced(ops, trace, n) && Did(ops[n], trace[n], now)
    ensures Traced(ops, trace + [now], n + 1)
  {
    var trace' := trace + [now];
    forall i | 0 <= i < n + 1 ensures Did(ops[i], trace'[i], trace'[i + 1]) {}
  }

  class FileSystem {
    const dev: Device
    var freeMap: seq<bool>
    var open: map<nat, OpenInode>
    ghost var ino: Inodes

    /** filesys_init() without formatting: the free map and the files are those
        that were on the disk when nothing was open. */
    constructor Mount(device: Device, sectors: nat, ghost files: Inodes, ghost fm: seq<bool>)
      requires Inv(device.bytes, fm, files, map[], -1) && sectors == |fm|
      requires files[FREE_MAP_SECTOR].length == MapSize(|fm|) && Data(device.bytes, files[FREE_MAP_SECTOR]) == Pack(fm)
      ensures Valid() && Synced() && dev == device && freeMap == fm && ino == files
      ensures open == map[FREE_MAP_SECTOR := OpenInode(1, false, 0, files[FREE_MAP_SECTOR])]
    {
      var e, bits := ReadMap(device, sectors, fm);
      dev, freeMap, ino := device, bits, files;
      open := map[FREE_MAP_SECTOR := OpenInode(1, false, 0, e)];
      new;
      InvOpened(device.bytes, fm, files, map[], -1, FREE_MAP_SECTOR);
      assert map[][FREE_MAP_SECTOR := OpenInode(1, false, 0, e)] == open;
    }

    ghost predicate State(pending: int)
      reads this, dev
    {
      && Inv(dev.bytes, freeMap, ino, open, pending)
      && FREE_MAP_SECTOR in open && ino[FREE_MAP_SECTOR].length == MapSize(|freeMap|)
    }

    ghost predicate Valid()
      reads this, dev
    {
      State(-1)
    }

    ghost function MapFile(): seq<Byte>
      reads this, dev
    {
      File(dev.bytes, ino, FREE_MAP_SECTOR)
    }

    // The free map on the disk is the one in memory.
    ghost predicate Synced()
      reads this, dev
    {
      MapFile() == Pack(freeMap)
    }

    // The root directory's bytes.
    ghost function Root(): seq<Byte>
      reads this, dev
    {
      File(dev.bytes, ino, ROOT_DIR_SECTOR)
    }

    // ---------- The free map ----------

    // bitmap_write()
    method WriteMap(bounce: bool, ghost pending: int) returns (ok: bool)
      requires State(pending)
      modifies dev
      ensures State(pending) && Kept(old(dev.bytes), ino, dev.bytes, ino, {})
      ensures ok <==> MapWritable(|freeMap|, bounce)
      ensures ok ==> File(dev.bytes, ino, FREE_MAP_SECTOR) == Pack(freeMap)
    {
      var data := open[FREE_MAP_SECTOR].data;
      var image := Pack(freeMap);
      var written := dev.WriteAt(data.start, data.length, open[FREE_MAP_SECTOR].denyWriteCnt, image, 0, bounce);
      ok := written == |image|;
      FileWritten(old(dev.bytes), dev.bytes, freeMap, ino, open, pending, FREE_MAP_SECTOR, image, 0, written);
      InvUpdated(old(dev.bytes), dev.bytes, freeMap, ino, open, pending, FREE_MAP_SECTOR, image, 0, written);
      if ok { WroteAll(old(dev.bytes), dev.bytes, ino, FREE_MAP_SECTOR, image); }
    }

    /** free_map_allocate(): the lowest run of clear bits is set, and the map is
        written out; when the write fails the bits are cleared again. */
    method FreeMapAllocate(cnt: nat, bounce: bool, ghost pending: int) returns (r: Option<nat>)
      requires State(pending)
      modifies this`freeMap, dev
      ensures State(pending) && Kept(old(dev.bytes), ino, dev.bytes, ino, {})
      ensures bounce && old(Synced()) ==> Synced()
      ensures r == if MapWritable(|old(freeMap)|, bounce) then FirstFit(old(freeMap), 0, cnt, false) else None
      ensures r.Some? ==>
                RunAt(old(freeMap), r.value, cnt, false) && freeMap == Filled(old(freeMap), r.value, cnt, true)
                          && File(dev.bytes, ino, FREE_MAP_SECTOR) == Pack(freeMap)
      ensures r.None? ==> freeMap == old(freeMap)
    {
      FirstFitLowest(freeMap, 0, cnt, false);
      r := FirstFit(freeMap, 0, cnt, false);
      if r.Some? {
        FreeUnowned(freeMap, ino, r.value, cnt);
        InvMark(dev.bytes, freeMap, ino, open, pending, r.value, cnt);
        freeMap := Filled(freeMap, r.value, cnt, true);
        var ok := WriteMap(bounce, pending);
        if !ok {
          FillUndone(old(freeMap), r.value, cnt, false);
          InvUnmark(dev.bytes, freeMap, ino, open, pending, r.value, cnt);
          freeMap := Filled(freeMap, r.value, cnt, false);
          r := None;
        }
      }
    }

    // ---------- Openers ----------

    /** inode_open(): an inode that is already open gets one more opener. */
    method InodeOpen(sector: nat, ghost pending: int)
      requires State(pending) && sector in ino
      modifies this`open
      ensures State(pending) && sector in open && open == OpenOne(old(open), sector, ino[sector])
    {
      InvOpenOne(dev.bytes, freeMap, ino, open, pending, sector);
      if sector in open {
        open := open[sector := open[sector].(openCnt := open[sector].openCnt + 1)];
      } else {
        var data := dev.BlockRead(sector);
        open := open[sector := OpenInode(1, false, 0, DecodeInode(data))];
      }
    }

    /** free_map_release(): the kernel asserts that the bits are all set. */
    method FreeMapRelease(sector: nat, cnt: nat, bounce: bool, ghost pending: int)
      requires State(pending) && RunAt(freeMap, sector, cnt, true)
      requires forall t, x :: Owns(ino, t, x) ==> !(sector <= x < sector + cnt)
      modifies this`freeMap, dev
      ensures State(pending) && Kept(old(dev.bytes), ino, dev.bytes, ino, {})
      ensures freeMap == Filled(old(freeMap), sector, cnt, false)
      ensures bounce ==> File(dev.bytes, ino, FREE_MAP_SECTOR) == Pack(freeMap)
    {
      InvUnmark(dev.bytes, freeMap, ino, open, pending, sector, cnt);
      freeMap := Filled(freeMap, sector, cnt, false);
      var ok := WriteMap(bounce, pending);
    }

    // The sectors of file s, which nothing refers to any more, are released.
    method Release(s: nat, data: Extent, bounce: bool)
      requires State(s) && s > 1 && s !in open && s in ino && ino[s] == data && !Named(Root(), s)
      modifies this`freeMap, this`ino, dev
      ensures Valid() && ino == old(ino) - {s} && Released(old(freeMap), freeMap, old(ino), s)
      ensures bounce ==> Synced()
      ensures Kept(old(dev.bytes), old(ino), dev.bytes, ino, {s})
    {
      InvDrop(dev.bytes, freeMap, freeMap, ino, open, s);
      DropUnowned(freeMap, ino, s);
      ReleasedBoth(freeMap, ino, s);
      ino := ino - {s};
      FreeMapRelease(s, 1, bounce, -1);
      ghost var between := dev.bytes;
      FreeMapRelease(data.start, Sectors(data.length), bounce, -1);
      KeptTwice(old(dev.bytes), ino, between, ino, dev.bytes, ino, {}, {});
      KeptLess(old(dev.bytes), old(ino), dev.bytes, s);
    }

    /** inode_close(): only the last close of a removed file releases anything,
        and it releases exactly the file's own sectors, all of which were still
        marked. */
    method InodeClose(s: nat, bounce: bool)
      requires Valid() && s in open && open[s].denyWriteCnt < open[s].openCnt
      modifies this, dev
      ensures Inv(dev.bytes, freeMap, ino, open, -1) && (FREE_MAP_SECTOR in open ==> Valid())
      ensures open == CloseOne(old(open), s)
      ensures bounce && old(Synced()) ==> Synced()
      ensures Closed(old(dev.bytes), old(freeMap), old(ino), old(open), dev.bytes, freeMap, ino, s)
    {
      var o := open[s];
      InvCloseOne(dev.bytes, freeMap, ino, open, s);
      open := CloseOne(open, s);
      if o.openCnt == 1 && o.removed {
        Release(s, o.data, bounce);
      }
    }

    // ---------- inode_create() ----------

    /** inode_create(): a file of zeros, in sectors that were free. */
    method InodeCreate(sector: nat, length: nat, bounce: bool) returns (ok: bool)
      requires Valid() && length < 0x8000_0000 && sector < |freeMap| && freeMap[sector]
      requires forall t, x :: Owns(ino, t, x) ==> x != sector
      modifies this`freeMap, this`ino, dev
      ensures ok ==> State(sector) && sector in ino && ino == old(ino)[sector := ino[sector]]
                     && ino[sector].length == length
                     && sector > 1 && sector !in old(ino) && sector !in open && !Named(Root(), sector)
                     && File(dev.bytes, ino, sector) == seq(length, _ => 0)
      ensures bounce && old(Synced()) ==> Synced()
      ensures !ok ==> Valid() && ino == old(ino) && freeMap == old(freeMap)
      ensures Kept(old(dev.bytes), old(ino), dev.bytes, ino, {})
      ensures ok <==> MapWritable(|old(freeMap)|, bounce) && FirstFit(old(freeMap), 0, Sectors(length), false).Some?
      ensures ok ==> var i := FirstFit(old(freeMap), 0, Sectors(length), false).value;
                     i + Sectors(length) <= |old(freeMap)| && freeMap == Filled(old(freeMap), i, Sectors(length), true)
    {
      var sectors := Sectors(length);
      var r := FreeMapAllocate(sectors, bounce, -1);
      ok := r.Some?;
      if ok {
        FreeUnowned(old(freeMap), ino, r.value, sectors);
        WriteInode(sector, Extent(r.value, length));
      }
    }

    method WriteInode(sector: nat, e: Extent)
      requires Valid() && e.length < 0x8000_0000 && sector < |freeMap| && freeMap[sector]
      requires e.start + Sectors(e.length) <= |freeMap| && RunAt(freeMap, e.start, Sectors(e.length), true)
      requires !(e.start <= sector < e.start + Sectors(e.length))
      requires forall t, x :: Owns(ino, t, x) ==> x != sector && !(e.start <= x < e.start + Sectors(e.length))
      modifies this`ino, dev
      ensures State(sector) && sector in ino && ino == old(ino)[sector := e]
      ensures sector > 1 && sector !in old(ino) && sector !in open && !Named(Root(), sector)
      ensures File(dev.bytes, ino, sector) == seq(e.length, _ => 0)
      ensures MapFile() == old(MapFile())
      ensures Kept(old(dev.bytes), old(ino), dev.bytes, ino, {})
    {
      PutInode(dev, sector, e);
      NewFile(old(dev.bytes), dev.bytes, freeMap, ino, open, sector, e);
      ino := ino[sector := e];
    }

    // ---------- The root directory ----------

    // Reads entry k: short only past the last one.
    method ReadEntry(k: nat, ghost pending: int) returns (e: seq<Byte>)
      requires State(pending) && ROOT_DIR_SECTOR in open
      ensures ReadAs(Root(), k, e)
    {
      var data := open[ROOT_DIR_SECTOR].data;
      e := dev.ReadAt(data.start, data.length, 20, 20 * k, true);
      ReadSlot(dev.bytes, ino[ROOT_DIR_SECTOR], k, e);
    }

    /** lookup(): the first entry in use for the name. */
    method LookupName(name: seq<Byte>, ghost pending: int) returns (r: Option<nat>, e: seq<Byte>)
      requires State(pending) && ROOT_DIR_SECTOR in open
      ensures r == FindName(Root(), name, 0)
      ensures r.Some? ==> |e| == 20 && View(e) == Slot(Root(), r.value)
    {
      ghost var d := Root();
      var k := 0;
      e := ReadEntry(k, pending);
      while |e| == 20
        invariant ReadAs(d, k, e) && k <= Slots(d) && FindName(d, name, 0) == FindName(d, name, k)
        decreases Slots(d) - k
      {
        if e[19] != 0 && CStr(e[4..19]) == name {
          return Some(k), e;
        }
        k := k + 1;
        e := ReadEntry(k, pending);
      }
      r := None;
    }

    // The loop of dir_add(): the slot to write, and what was read last.
    method FindSlot(ghost pending: int) returns (k: nat, e: seq<Byte>)
      requires State(pending) && ROOT_DIR_SECTOR in open
      ensures |e| == 20
      ensures k == match FindFree(Root(), 0) case Some(j) => j case None => Slots(Root())
    {
      ghost var d := Root();
      k, e := 0, seq(20, _ => 0);
      var got := ReadEntry(k, pending);
      while |got| == 20
        invariant ReadAs(d, k, got) && k <= Slots(d) && |e| == 20 && FindFree(d, 0) == FindFree(d, k)
        decreases Slots(d) - k
      {
        e := got;
        if e[19] == 0 {
          return;
        }
        k := k + 1;
        got := ReadEntry(k, pending);
      }
    }

    /** dir_readdir(): the next name in use from slot k on, and where to go on. */
    method ReadDir(k: nat) returns (name: Option<seq<Byte>>, next: nat)
      requires Valid() && ROOT_DIR_SECTOR in open && k <= Slots(Root())
      ensures k <= next <= Slots(Root())
      ensures Names(Root(), k) == if name.Some? then [name.value] + Names(Root(), next) else []
      ensures name.Some? ==> next > k
    {
      ghost var d := Root();
      next := k;
      var e := ReadEntry(next, -1);
      while |e| == 20
        invariant ReadAs(d, next, e) && k <= next <= Slots(d) && Names(d, k) == Names(d, next)
        decreases Slots(d) - next
      {
        next := next + 1;
        if e[19] != 0 {
          return Some(CStr(e[4..19])), next;
        }
        e := ReadEntry(next, -1);
      }
      name := None;
    }

    // inode_write_at() of one entry.
    method WriteEntry(k: nat, e: seq<Byte>, ghost pending: int) returns (ok: bool)
      requires State(pending) && ROOT_DIR_SECTOR in open && |e| == 20 && k <= Slots(Root())
      modifies dev
      ensures ok <==> k < Slots(old(Root()))
      ensures !ok ==> dev.bytes == old(dev.bytes)
      ensures MapFile() == old(MapFile())
      ensures ok ==> |dev.bytes| == |old(dev.bytes)| && OnDisk(dev.bytes, ino)
      ensures ok ==> Root() == Splice(old(Root()), 20 * k, e)
      ensures Kept(old(dev.bytes), ino, dev.bytes, ino, {ROOT_DIR_SECTOR})
    {
      var data := open[ROOT_DIR_SECTOR].data;
      EntryCount(data.length, k);
      var written := dev.WriteAt(data.start, data.length, open[ROOT_DIR_SECTOR].denyWriteCnt, e, 20 * k, true);
      ok := written == 20;
      FileWritten(old(dev.bytes), dev.bytes, freeMap, ino, open, pending, ROOT_DIR_SECTOR, e, 20 * k, written);
      assert ok ==> e[..written] == e;
    }

    /** dir_add(): fails for a bad name, a name in use or a full directory, and
        then changes nothing. */
    method DirAdd(name: seq<Byte>, s: nat) returns (ok: bool, ghost k: nat)
      requires State(s) && ROOT_DIR_SECTOR in open && CString(name)
      requires s in ino && s > 1 && s !in open && !Named(Root(), s)
      modifies dev
      ensures ok <==> 1 <= |name| <= NAME_MAX && FindName(old(Root()), name, 0).None? && FindFree(old(Root()), 0).Some?
      ensures ok ==> Valid() && k < Slots(old(Root())) && Slot(old(Root()), k).Unused?
                     && DirSet(old(Root()), Root(), k, Used(name, s))
      ensures !ok ==> dev.bytes == old(dev.bytes)
      ensures MapFile() == old(MapFile())
      ensures Kept(old(dev.bytes), ino, dev.bytes, ino, {ROOT_DIR_SECTOR})
    {
      if |name| == 0 || |name| > NAME_MAX {
        return false, 0;
      }
      var r, _ := LookupName(name, s);
      if r.Some? {
        return false, 0;
      }
      var slot, e := FindSlot(s);
      MadeEntry(e, name, s);
      var entry := MakeEntry(e, name, s);
      ok := WriteEntry(slot, entry, s);
      if ok {
        ghost var d := Rewritten(old(Root()), slot, entry);
        InvName(old(dev.bytes), dev.bytes, freeMap, ino, open, old(Root()), slot, entry, s);
      }
      k := slot;
    }

    // Part of dir_remove(): the entry of the open inode s, in slot k, is erased
    // and the inode marked removed.
    method EraseEntry(k: nat, e: seq<Byte>, s: nat)
      requires Valid() && ROOT_DIR_SECTOR in open && s in open
      requires |e| == 20 && k < Slots(Root()) && View(e) == Slot(Root(), k) && View(e).Used? && View(e).sector == s
      modifies this`open, dev
      ensures Valid() && DirSet(old(Root()), Root(), k, Unused)
      ensures MapFile() == old(MapFile())
      ensures open == MarkRemoved(old(open), s)
      ensures Kept(old(dev.bytes), ino, dev.bytes, ino, {ROOT_DIR_SECTOR})
    {
      var erased := e[19 := 0];
      assert View(erased) == Unused;
      var ok := WriteEntry(k, erased, -1);
      ghost var d := Rewritten(old(Root()), k, erased);
      assert s > 1 by { assert EntryOk(Slot(old(Root()), k), ino); }
      InvUnname(old(dev.bytes), dev.bytes, freeMap, ino, open, old(Root()), k, erased, s);
      InvRemoved(dev.bytes, freeMap, ino, open, s);
      open := open[s := open[s].(removed := true)];
    }

    // The rest of dir_remove(), once the entry is found.
    method RemoveEntry(k: nat, e: seq<Byte>, s: nat, bounce: bool)
      requires Valid() && ROOT_DIR_SECTOR in open && s != ROOT_DIR_SECTOR && s in ino
      requires |e| == 20 && k < Slots(Root()) && View(e) == Slot(Root(), k) && View(e).Used? && View(e).sector == s
      modifies this, dev
      ensures Valid() && DirSet(old(Root()), Root(), k, Unused)
      ensures bounce && old(Synced()) ==> Synced()
      ensures Unlinked(old(dev.bytes), old(freeMap), old(ino), old(open), dev.bytes, freeMap, ino, open, s)
    {
      InodeOpen(s, -1);
      EraseEntry(k, e, s);
      ghost var between := dev.bytes;
      InodeClose(s, bounce);
      UnlinkedBy(old(dev.bytes), old(freeMap), old(ino), old(open), between, dev.bytes, freeMap, ino, open, s,
                 old(ino)[s]);
    }

    /** dir_remove(): the name goes; the file goes with it unless someone still
        has it open. */
    method DirRemove(name: seq<Byte>, bounce: bool) returns (ok: bool, ghost k: nat)
      requires Valid() && ROOT_DIR_SECTOR in open
      modifies this, dev
      ensures Valid()
      ensures bounce && old(Synced()) ==> Synced()
      ensures ok <==> FindName(old(Root()), name, 0).Some?
      ensures !ok ==> dev.bytes == old(dev.bytes) && freeMap == old(freeMap) && ino == old(ino) && open == old(open)
      ensures ok ==> k == FindName(old(Root()), name, 0).value && DirSet(old(Root()), Root(), k, Unused)
      ensures ok ==> Unlinked(old(dev.bytes), old(freeMap), old(ino), old(open), dev.bytes, freeMap, ino, open,
                              Slot(old(Root()), k).sector)
    {
      var r, e := LookupName(name, -1);
      if r.None? {
        return false, 0;
      }
      assert EntryOk(Slot(Root(), r.value), ino);
      RemoveEntry(r.value, e, FromLe32(e[..4]), bounce);
      return true, r.value;
    }

    // ---------- filesys.c ----------

    // A file that could not be named is given up: its inode's sector is
    // released, its data sectors are not.
    method GiveUp(s: nat, bounce: bool)
      requires State(s) && s > 1 && s !in open && s in ino && !Named(Root(), s)
      modifies this`freeMap, this`ino, dev
      ensures Valid() && ino == old(ino) - {s} && Kept(old(dev.bytes), old(ino), dev.bytes, ino, {s})
      ensures bounce ==> Synced()
      ensures s < |old(freeMap)| && freeMap == Filled(old(freeMap), s, 1, false)
    {
      InvDrop(dev.bytes, freeMap, freeMap, ino, open, s);
      DropUnowned(freeMap, ino, s);
      ino := ino - {s};
      FreeMapRelease(s, 1, bounce, -1);
      KeptLess(old(dev.bytes), old(ino), dev.bytes, s);
    }

    // filesys_create() once it has a sector for the inode.
    method CreateAt(s: nat, name: seq<Byte>, size: nat, bounce: bool) returns (ok: bool, ghost k: nat)
      requires Valid() && ROOT_DIR_SECTOR in open && CString(name) && size < 0x8000_0000
      requires s < |freeMap| && freeMap[s] && forall t, x :: Owns(ino, t, x) ==> x != s
      modifies this`freeMap, this`ino, dev
      ensures Valid()
      ensures bounce && old(Synced()) ==> Synced()
      ensures ok ==> Created(old(dev.bytes), old(ino), dev.bytes, ino, name, size, s, k)
      ensures !ok ==> ino == old(ino) && Kept(old(dev.bytes), old(ino), dev.bytes, ino, {})
      ensures ok <==> NameFree(old(Root()), name) && MapWritable(|old(freeMap)|, bounce)
                      && FirstFit(old(freeMap), 0, Sectors(size), false).Some?
      ensures !ok ==> freeMap == Filled(DataMarked(old(freeMap), size, bounce), s, 1, false)
    {
      k := 0;
      ok := InodeCreate(s, size, bounce);
      ghost var between := dev.bytes;
      if !ok {
        FreeMapRelease(s, 1, bounce, -1);
        KeptTwice(old(dev.bytes), ino, between, ino, dev.bytes, ino, {}, {});
        return;
      }
      ghost var ino' := ino;
      ok, k := DirAdd(name, s);
      if ok {
        CreatedBy(old(dev.bytes), old(ino), between, dev.bytes, ino, name, size, s, k);
      } else {
        GiveUp(s, bounce);
        KeptBack(old(dev.bytes), old(ino), between, ino', dev.bytes, s);
      }
    }

    // What filesys_create() does while it has the root directory open.
    method CreateIn(name: seq<Byte>, size: nat, bounce: bool, bounce2: bool)
        returns (ok: bool, ghost s: nat, ghost k: nat)
      requires Valid() && ROOT_DIR_SECTOR in open && CString(name) && size < 0x8000_0000
      modifies this`freeMap, this`ino, dev
      ensures Valid()
      ensures bounce && bounce2 && old(Synced()) ==> Synced()
      ensures ok ==> Created(old(dev.bytes), old(ino), dev.bytes, ino, name, size, s, k)
      ensures !ok ==> ino == old(ino) && Kept(old(dev.bytes), old(ino), dev.bytes, ino, {})
      ensures ok ==> CanCreate(old(freeMap), old(Root()), name, size)
      ensures bounce && bounce2 && CanCreate(old(freeMap), old(Root()), name, size) ==> ok
      ensures !ok && bounce && bounce2 ==> freeMap == AfterFailure(old(freeMap), size)
    {
      s, k := 0, 0;
      var r := FreeMapAllocate(1, bounce, -1);
      if r.None? {
        return false, 0, 0;
      }
      FreeUnowned(old(freeMap), ino, r.value, 1);
      ghost var between := dev.bytes;
      ok, k := CreateAt(r.value, name, size, bounce2);
      s := r.value;
      if ok {
        CreatedAfter(old(dev.bytes), old(ino), between, dev.bytes, ino, name, size, s, k);
      } else {
        KeptTwice(old(dev.bytes), ino, between, ino, dev.bytes, ino, {}, {});
      }
    }

    /** filesys_create(): a new file of zeros under a new name; on failure no
        file and no name has changed. It succeeds exactly when there is room for
        the file and its name is valid and free, as long as the free map can be
        written. */
    method Create(name: seq<Byte>, size: nat, bounce: bool, bounce2: bool)
        returns (ok: bool, ghost s: nat, ghost k: nat)
      requires Valid() && CString(name) && size < 0x8000_0000
      modifies this, dev
      ensures Valid() && open == old(open)
      ensures bounce && bounce2 && old(Synced()) ==> Synced()
      ensures ok ==> Created(old(dev.bytes), old(ino), dev.bytes, ino, name, size, s, k)
      ensures !ok ==> ino == old(ino) && Kept(old(dev.bytes), old(ino), dev.bytes, ino, {})
      ensures ok ==> CanCreate(old(freeMap), old(Root()), name, size)
      ensures bounce && bounce2 && CanCreate(old(freeMap), old(Root()), name, size) ==> ok
      ensures !ok && bounce && bounce2 ==> freeMap == AfterFailure(old(freeMap), size)
    {
      OpenClose(open, ROOT_DIR_SECTOR, ino[ROOT_DIR_SECTOR]);
      InodeOpen(ROOT_DIR_SECTOR, -1);
      ok, s, k := CreateIn(name, size, bounce, bounce2);
      InodeClose(ROOT_DIR_SECTOR, bounce);
    }

    /** filesys_open(): finds exactly the names in the directory, and only the
        number of openers of that file changes. */
    method Open(name: seq<Byte>) returns (r: Option<nat>)
      requires Valid()
      modifies this, dev
      ensures Valid() && dev.bytes == old(dev.bytes) && freeMap == old(freeMap) && ino == old(ino)
      ensures r.None? ==> FindName(Root(), name, 0).None? && open == old(open)
      ensures r.Some? ==> FindName(Root(), name, 0).Some? && r.value > 1 && r.value in ino
                          && Slot(Root(), FindName(Root(), name, 0).value) == Used(name, r.value)
                          && open == OpenOne(old(open), r.value, ino[r.value])
    {
      OpenClose(open, ROOT_DIR_SECTOR, ino[ROOT_DIR_SECTOR]);
      InodeOpen(ROOT_DIR_SECTOR, -1);
      var found, e := LookupName(name, -1);
      if found.Some? {
        assert EntryOk(Slot(Root(), found.value), ino);
        var s := FromLe32(e[..4]);
        RootAround(old(open), s, ino[ROOT_DIR_SECTOR], ino[s]);
        InodeOpen(s, -1);
        r := Some(s);
      } else {
        r := None;
      }
      InodeClose(ROOT_DIR_SECTOR, true);
    }

    /** filesys_remove(): succeeds exactly for a name in the directory. A file
        still open stays intact; otherwise its sectors are released. */
    method Remove(name: seq<Byte>, bounce: bool) returns (ok: bool, ghost k: nat)
      requires Valid()
      modifies this, dev
      ensures Valid()
      ensures bounce && old(Synced()) ==> Synced()
      ensures ok <==> FindName(old(Root()), name, 0).Some?
      ensures !ok ==> dev.bytes == old(dev.bytes) && freeMap == old(freeMap) && ino == old(ino) && open == old(open)
      ensures ok ==> k == FindName(old(Root()), name, 0).value && DirSet(old(Root()), Root(), k, Unused)
      ensures ok ==> Unlinked(old(dev.bytes), old(freeMap), old(ino), old(open), dev.bytes, freeMap, ino, open,
                              Slot(old(Root()), k).sector)
    {
      OpenClose(open, ROOT_DIR_SECTOR, ino[ROOT_DIR_SECTOR]);
      InodeOpen(ROOT_DIR_SECTOR, -1);
      ok, k := DirRemove(name, bounce);
      if ok {
        assert EntryOk(Slot(old(Root()), k), old(ino));
        RootAround(old(open), Slot(old(Root()), k).sector, old(ino)[ROOT_DIR_SECTOR], old(ino)[ROOT_DIR_SECTOR]);
      }
      InodeClose(ROOT_DIR_SECTOR, bounce);
    }

    /** file_read_at() on an open file. */
    method Read(s: nat, size: int, offset: nat) returns (data: seq<Byte>)
      requires Valid() && s in open
      ensures |data| == Count(size, offset, |File(dev.bytes, ino, s)|)
      ensures s in ino && |File(dev.bytes, ino, s)| == ino[s].length
      ensures |data| > 0 ==> |data| <= size && offset + |data| <= ino[s].length
      ensures size > 0 ==> |data| == size || offset + |data| >= ino[s].length
      ensures SliceAt(File(dev.bytes, ino, s), offset, data)
      ensures forall k :: 0 <= k < |data| ==> data[k] == File(dev.bytes, ino, s)[offset + k]
    {
      var o := open[s];
      data := dev.ReadAt(o.data.start, o.data.length, size, offset, true);
      ReadFile(dev.bytes, ino, freeMap, s, offset, data, size);
    }

    /** file_write_at() on an open file: its flat array is spliced, up to its
        end, and no other file changes. */
    method Write(s: nat, buffer: seq<Byte>, offset: nat) returns (n: nat)
      requires Valid() && s in open && s > 1
      modifies dev
      ensures Valid() && n == if open[s].denyWriteCnt > 0 then 0 else Count(|buffer|, offset, ino[s].length)
      ensures n <= |buffer| && (n > 0 ==> open[s].denyWriteCnt == 0 && offset + n <= ino[s].length)
      ensures open[s].denyWriteCnt == 0 && buffer != [] ==> n == |buffer| || offset + n >= ino[s].length
      ensures Replaced(old(File(dev.bytes, ino, s)), File(dev.bytes, ino, s), ino[s].length, buffer, offset, n)
      ensures Updated(old(dev.bytes), dev.bytes, ino, s, buffer, offset, n)
    {
      var o := open[s];
      CountFits(|buffer|, offset, o.data.length);
      n := dev.WriteAt(o.data.start, o.data.length, o.denyWriteCnt, buffer, offset, true);
      FileWritten(old(dev.bytes), dev.bytes, freeMap, ino, open, -1, s, buffer, offset, n);
      FileLength(old(dev.bytes), freeMap, ino, s);
      WroteReplaced(old(File(dev.bytes, ino, s)), File(dev.bytes, ino, s), buffer, offset, n);
      InvUpdated(old(dev.bytes), dev.bytes, freeMap, ino, open, -1, s, buffer, offset, n);
    }

    /** inode_deny_write() and inode_allow_write(): at most one denial for each
        opener. */
    method SetDenyCnt(s: nat, cnt: nat)
      requires Valid() && s in open && s > 1
      requires cnt == open[s].denyWriteCnt + 1 <= open[s].openCnt || cnt == open[s].denyWriteCnt - 1
      modifies this`open
      ensures Valid() && Recounted(old(Now()), Now(), s, cnt)
    {
      var o := open[s].(denyWriteCnt := cnt);
      InvCounted(dev.bytes, freeMap, ino, open, -1, s, o);
      open := open[s := o];
    }

    // ---------- Whole runs ----------

    ghost function Now(): Disk
      reads this, dev
    {
      Disk(dev.bytes, freeMap, ino, open)
    }

    method Do(op: Op, ghost name: seq<Byte>, ghost s: nat)
      requires Valid() && Sensible(op)
      modifies this, dev
      ensures Valid() && Done(op, old(Now()), Now(), name, s)
      ensures Buffered(op) && old(Synced()) ==> Synced()
    {
      match op
      case DoCreate(file, size, bounce, bounce2) => CreateStep(file, size, bounce, bounce2, name, s);
      case DoOpen(file) => OpenStep(file, name, s);
      case DoRemove(file, bounce) => RemoveStep(file, bounce, name, s);
      case DoWrite(t, buffer, offset) => WriteStep(t, buffer, offset, name, s);
      case DoClose(t, bounce) => CloseStep(t, bounce, name, s);
      case DoDeny(t) => DenyStep(t, name, s);
      case DoAllow(t) => AllowStep(t, name, s);
    }

    method OpenStep(file: seq<Byte>, ghost name: seq<Byte>, ghost s: nat)
      requires Valid()
      modifies this, dev
      ensures Valid() && Done(DoOpen(file), old(Now()), Now(), name, s) && (old(Synced()) ==> Synced())
    {
      SameNamed(dev.bytes, freeMap, ino, open, name, s);
      var r := Open(file);
    }

    method DenyStep(t: nat, ghost name: seq<Byte>, ghost s: nat)
      requires Valid()
      modifies this`open
      ensures Valid() && Done(DoDeny(t), old(Now()), Now(), name, s) && (old(Synced()) ==> Synced())
    {
      SameStill(Now(), name, s, true, true, true);
      if t in open && t > 1 && open[t].denyWriteCnt < open[t].openCnt {
        ghost var x, cnt := Now(), open[t].denyWriteCnt + 1;
        SetDenyCnt(t, open[t].denyWriteCnt + 1);
        DenyDone(x, Now(), t, cnt, name, s);
      } else {
        IdleDone(Now(), t, name, s);
      }
    }

    method AllowStep(t: nat, ghost name: seq<Byte>, ghost s: nat)
      requires Valid()
      modifies this`open
      ensures Valid() && Done(DoAllow(t), old(Now()), Now(), name, s) && (old(Synced()) ==> Synced())
    {
      SameStill(Now(), name, s, true, true, true);
      if t in open && t > 1 && open[t].denyWriteCnt > 0 {
        ghost var x, cnt := Now(), open[t].denyWriteCnt - 1;
        SetDenyCnt(t, open[t].denyWriteCnt - 1);
        DenyDone(x, Now(), t, cnt, name, s);
      } else {
        IdleDone(Now(), t, name, s);
      }
    }

    method CreateStep(file: seq<Byte>, size: nat, bounce: bool, bounce2: bool, ghost name: seq<Byte>, ghost s: nat)
      requires Valid() && CString(file) && size < 0x8000_0000
      modifies this, dev
      ensures Valid() && Done(DoCreate(file, size, bounce, bounce2), old(Now()), Now(), name, s)
      ensures bounce && bounce2 && old(Synced()) ==> Synced()
    {
      var ok, t, k := Create(file, size, bounce, bounce2);
      CreateDone(old(Now()), Now(), file, size, bounce, bounce2, name, s);
    }

    method RemoveStep(file: seq<Byte>, bounce: bool, ghost name: seq<Byte>, ghost s: nat)
      requires Valid()
      modifies this, dev
      ensures Valid() && Done(DoRemove(file, bounce), old(Now()), Now(), name, s)
      ensures bounce && old(Synced()) ==> Synced()
    {
      SameNamed(dev.bytes, freeMap, ino, open, name, s);
      var ok, k := Remove(file, bounce);
      if ok {
        ghost var t := Slot(old(Root()), k).sector;
        UnlinkedOpen(old(dev.bytes), old(freeMap), old(ino), old(open), dev.bytes, freeMap, ino, open, t, s);
        if file != name {
          RemovedNamed(old(dev.bytes), old(freeMap), old(ino), old(open), dev.bytes, freeMap, ino, open, k, name, s);
        }
      }
    }

    method WriteStep(t: nat, buffer: seq<Byte>, offset: nat, ghost name: seq<Byte>, ghost s: nat)
      requires Valid()
      modifies dev
      ensures Valid() && Done(DoWrite(t, buffer, offset), old(Now()), Now(), name, s) && (old(Synced()) ==> Synced())
    {
      if t in open && t > 1 {
        var n := Write(t, buffer, offset);
        WriteDone(old(Now()), Now(), t, buffer, offset, n, name, s);
      } else {
        SameStill(Now(), name, s, LeavesAlone(DoWrite(t, buffer, offset), s),
                  Spares(DoWrite(t, buffer, offset), name, s),
                  true);
      }
    }

    method CloseStep(t: nat, bounce: bool, ghost name: seq<Byte>, ghost s: nat)
      requires Valid()
      modifies this, dev
      ensures Valid() && Done(DoClose(t, bounce), old(Now()), Now(), name, s)
      ensures bounce && old(Synced()) ==> Synced()
    {
      SameNamed(dev.bytes, freeMap, ino, open, name, s);
      if t in open && t > 1 && open[t].denyWriteCnt < open[t].openCnt {
        InodeClose(t, bounce);
        if t != s {
          ClosedOpen(old(dev.bytes), old(freeMap), old(ino), old(open), dev.bytes, freeMap, ino, open, t, s);
        }
        ClosedDenied(old(dev.bytes), old(freeMap), old(ino), old(open), dev.bytes, freeMap, ino, open, t, s);
        ClosedNamed(old(dev.bytes), old(freeMap), old(ino), old(open), dev.bytes, freeMap, ino, t, name, s);
      }
    }

    /** Every run is a sequence of such calls. Over it the invariant holds, and
        the free map on the disk keeps up with the one in memory as long as it can
        be written. A file that is open, removed or not, keeps its content until
        it is written to or closed. A file that has a name, open or not, keeps
        it, its place and its content until the name is removed or the file
        written to. And a file whose writes are denied keeps its content, whoever
        writes, until they are allowed. */
    method Run(ops: seq<Op>, ghost name: seq<Byte>, ghost s: nat) returns (ghost trace: seq<Disk>)
      requires Valid() && forall i :: 0 <= i < |ops| ==> Sensible(ops[i])
      modifies this, dev
      ensures Valid() && |trace| == |ops| + 1 && trace[0] == old(Now()) && trace[|ops|] == Now()
      ensures Traced(ops, trace, |ops|)
      ensures AllBuffered(ops) && old(Synced()) ==> Synced()
      ensures AllAlone(ops, s) ==> StillOpen(old(dev.bytes), old(ino), old(open), dev.bytes, ino, open, s)
      ensures AllHeld(ops, s) ==> StillDenied(old(dev.bytes), old(ino), old(open), dev.bytes, ino, open, s)
      ensures AllSpare(ops, name, s) ==> StillNamed(old(dev.bytes), old(ino), dev.bytes, ino, name, s)
    {
      SameNamed(dev.bytes, freeMap, ino, open, name, s);
      trace := [Now()];
      for i := 0 to |ops|
        invariant Valid() && |trace| == i + 1 && trace[0] == old(Now()) && trace[i] == Now() && Traced(ops, trace, i)
        invariant Still(old(Now()), Now(), name, s, AllAlone(ops, s), AllSpare(ops, name, s), AllHeld(ops, s))
        invariant AllBuffered(ops) && old(Synced()) ==> Synced()
      {
        ghost var between := Now();
        Do(ops[i], name, s);
        TracedMore(ops, trace, i, Now());
        trace := trace + [Now()];
        StillNext(ops, i, old(Now()), between, Now(), name, s);
      }
    }
  }

  predicate AllBuffered(ops: seq<Op>) { forall i :: 0 <= i < |ops| ==> Buffered(ops[i]) }

  predicate AllHeld(ops: seq<Op>, s: nat) { forall i :: 0 <= i < |ops| ==> ops[i] != DoAllow(s) }

  predicate AllAlone(ops: seq<Op>, s: nat) { forall i :: 0 <= i < |ops| ==> LeavesAlone(ops[i], s) }

  predicate AllSpare(ops: seq<Op>, name: seq<Byte>, s: nat) { forall i :: 0 <= i < |ops| ==> Spares(ops[i], name, s) }

  lemma StillNext(ops: seq<Op>, i: nat, x: Disk, y: Disk, z: Disk, name: seq<Byte>, s: nat)
    requires i < |ops| && Still(x, y, name, s, AllAlone(ops, s), AllSpare(ops, name, s), AllHeld(ops, s))
    requires Done(ops[i], y, z, name, s)
    ensures Still(x, z, name, s, AllAlone(ops, s), AllSpare(ops, name, s), AllHeld(ops, s))
  {}

  lemma ReadFile(bytes: seq<Byte>, ino: Inodes, freeMap: seq<bool>, s: nat, offset: nat, data: seq<Byte>, size: int)
    requires Owned(ino, freeMap) && |bytes| == 512 * |freeMap| && s in ino
    requires |data| == Count(size, offset, ino[s].length) && SliceAt(bytes, 512 * ino[s].start + offset, data)
    ensures |File(bytes, ino, s)| == ino[s].length && SliceAt(File(bytes, ino, s), offset, data)
  {
    CountFits(size, offset, ino[s].length);
    if |data| > 0 { SliceSlice(bytes, 512 * ino[s].start, ino[s].length, offset, |data|); }
  }
}
