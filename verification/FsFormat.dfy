/** What the file system keeps on disk: inodes (filesys/inode.c) and directory
    entries (filesys/directory.c), as bytes. */
module FsFormat {
  import opened Bitmap
  import opened Sequences
  import opened InodeIO

  // ---------- Little-endian words ----------

  function Le32(x: nat): (b: seq<Byte>)
    requires x < 0x1_0000_0000
    ensures |b| == 4
  {
    [x % 256, x / 256 % 256, x / 65536 % 256, x / 16777216]
  }

  function FromLe32(b: seq<Byte>): nat
    requires |b| == 4
  {
    b[0] as int + 256 * (b[1] as int) + 65536 * (b[2] as int) + 16777216 * (b[3] as int)
  }

  lemma Le32RoundTrip(x: nat)
    requires x < 0x1_0000_0000
    ensures FromLe32(Le32(x)) == x
  {
    assert x / 65536 == x / 256 / 256 && x / 16777216 == x / 256 / 256 / 256;
  }

  /** The least significant byte comes first. */
  lemma Le32Bytes(x: nat)
    requires x < 0x1_0000_0000
    ensures var b := Le32(x);
            x == b[0] as int + 0x100 * (b[1] as int) + 0x1_0000 * (b[2] as int) + 0x100_0000 * (b[3] as int)
  {
    Le32RoundTrip(x);
  }

  // ---------- Inodes ----------

  datatype Extent = Extent(start: nat, length: nat)

  const INODE_MAGIC := 0x494e_4f44

  // bytes_to_sectors()
  function Sectors(length: nat): nat { (length + 511) / 512 }

  /** As few sectors as hold the bytes. */
  lemma SectorsExact(length: nat)
    ensures length <= 512 * Sectors(length) < length + 512
  {}

  function EncodeInode(e: Extent): (b: seq<Byte>)
    requires e.start < 0x1_0000_0000 && e.length < 0x8000_0000
    ensures |b| == 512
  {
    Le32(e.start) + Le32(e.length) + Le32(INODE_MAGIC) + seq(500, _ => 0)
  }

  function DecodeInode(b: seq<Byte>): Extent
    requires |b| == 512
  {
    Extent(FromLe32(b[..4]), FromLe32(b[4..8]))
  }

  lemma InodeRoundTrip(e: Extent)
    requires e.start < 0x1_0000_0000 && e.length < 0x8000_0000
    ensures DecodeInode(EncodeInode(e)) == e
  {
    var b := EncodeInode(e);
    assert b[..4] == Le32(e.start);
    assert b[4..8] == Le32(e.length);
    Le32RoundTrip(e.start);
    Le32RoundTrip(e.length);
  }

  /** struct inode_disk: start, length and magic are the first three words. */
  lemma InodeLayout(e: Extent)
    requires e.start < 0x1_0000_0000 && e.length < 0x8000_0000
    ensures var b := EncodeInode(e);
            && b[0..4] == Le32(e.start) && b[4..8] == Le32(e.length) && b[8..12] == Le32(0x494e_4f44)
            && forall i :: 12 <= i < 512 ==> b[i] == 0
  {}

  // ---------- Directory entries ----------

  // A C string: no null byte inside.
  predicate CString(name: seq<Byte>) { forall i :: 0 <= i < |name| ==> name[i] != 0 }

  const NAME_MAX := 14

  // The C string at the front of a character array.
  function CStr(b: seq<Byte>): (r: seq<Byte>)
    ensures CString(r) && |r| <= |b| && r == b[..|r|] && (|r| < |b| ==> b[|r|] == 0)
  {
    if b == [] || b[0] == 0 then [] else [b[0]] + CStr(b[1..])
  }

  lemma {:induction false} CStrFront(name: seq<Byte>, rest: seq<Byte>)
    requires CString(name)
    ensures CStr(name + [0] + rest) == name
  {
    if name != [] {
      CStrFront(name[1..], rest);
      assert (name + [0] + rest)[1..] == name[1..] + [0] + rest;
    }
  }

  datatype Entry = Unused | Used(name: seq<Byte>, sector: nat)

  function View(e: seq<Byte>): Entry
    requires |e| == 20
  {
    if e[19] == 0 then Unused else Used(CStr(e[4..19]), FromLe32(e[..4]))
  }

  // strlcpy() of a name that fits leaves what follows its null byte alone.
  function MakeEntry(e: seq<Byte>, name: seq<Byte>, sector: nat): (r: seq<Byte>)
    requires |e| == 20 && |name| <= NAME_MAX && sector < 0x1_0000_0000
    ensures |r| == 20
  {
    Le32(sector) + (name + [0] + e[4 + |name| + 1..19]) + [1]
  }

  lemma MadeEntry(e: seq<Byte>, name: seq<Byte>, sector: nat)
    requires |e| == 20 && CString(name) && |name| <= NAME_MAX && sector < 0x1_0000_0000
    ensures View(MakeEntry(e, name, sector)) == Used(name, sector)
  {
    var r := MakeEntry(e, name, sector);
    assert r[..4] == Le32(sector);
    assert r[4..19] == name + [0] + e[4 + |name| + 1..19];
    CStrFront(name, e[4 + |name| + 1..19]);
    Le32RoundTrip(sector);
  }

  /** struct dir_entry: the sector, then the name with its null byte in fifteen
      bytes, then whether the entry is in use. */
  lemma EntryLayout(e: seq<Byte>, name: seq<Byte>, sector: nat)
    requires |e| == 20 && |name| <= 14 && sector < 0x1_0000_0000
    ensures var r := MakeEntry(e, name, sector);
            r[0..4] == Le32(sector) && r[4..4 + |name|] == name && r[4 + |name|] == 0 && r[19] == 1
    ensures View(e).Unused? <==> e[19] == 0
  {}

  // A directory's bytes as entries.
  function Slot(d: seq<Byte>, k: nat): Entry
    requires 20 * k + 20 <= |d|
  {
    View(d[20 * k..20 * k + 20])
  }

  function Slots(d: seq<Byte>): nat { |d| / 20 }

  /** Overwriting one slot changes that entry only. */
  lemma SetSlot(d: seq<Byte>, k: nat, e: seq<Byte>, j: nat)
    requires |e| == 20 && k < Slots(d) && j < Slots(d)
    ensures Slot(Splice(d, 20 * k, e), j) == if j == k then View(e) else Slot(d, j)
  {
    var d' := Splice(d, 20 * k, e);
    if j == k {
      assert d'[20 * k..20 * k + 20] == e;
    } else {
      assert d'[20 * j..20 * j + 20] == d[20 * j..20 * j + 20];
    }
  }

  predicate IsNamed(e: Entry, name: seq<Byte>) { e.Used? && e.name == name }

  // The first slot, from k on, that is used for the name.
  function FindName(d: seq<Byte>, name: seq<Byte>, k: nat): (r: Option<nat>)
    requires k <= Slots(d)
    ensures r.Some? ==> k <= r.value < Slots(d) && IsNamed(Slot(d, r.value), name)
    ensures r.None? ==> forall j :: k <= j < Slots(d) ==> !IsNamed(Slot(d, j), name)
    decreases Slots(d) - k
  {
    if k == Slots(d) then None
    else if IsNamed(Slot(d, k), name) then Some(k)
    else FindName(d, name, k + 1)
  }

  // The first unused slot, from k on.
  function FindFree(d: seq<Byte>, k: nat): (r: Option<nat>)
    requires k <= Slots(d)
    ensures r.Some? ==> k <= r.value < Slots(d) && Slot(d, r.value).Unused?
    ensures r.None? ==> forall j :: k <= j < Slots(d) ==> Slot(d, j).Used?
    decreases Slots(d) - k
  {
    if k == Slots(d) then None
    else if Slot(d, k).Unused? then Some(k)
    else FindFree(d, k + 1)
  }

  // The names in use from slot k on, in the order of their slots.
  function Names(d: seq<Byte>, k: nat): seq<seq<Byte>>
    requires k <= Slots(d)
    decreases Slots(d) - k
  {
    if k == Slots(d) then []
    else (if Slot(d, k).Used? then [Slot(d, k).name] else []) + Names(d, k + 1)
  }
}
