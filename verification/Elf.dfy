/** userprog/process.c: loading the segments of an ELF executable into user
    memory. */
module Elf {
  import Bits
  import FsFormat
  import opened InodeIO
  import opened PageTable

  const PHYS_BASE := 0xC000_0000

  // A program header, [ELF1] 2-2 to 2-4; every field is a 32-bit word.
  datatype Phdr = Phdr(kind: nat, offset: nat, vaddr: nat, filesz: nat, memsz: nat, flags: nat)

  predicate Words(p: Phdr) {
    p.offset < 0x1_0000_0000 && p.vaddr < 0x1_0000_0000 && p.filesz < 0x1_0000_0000 && p.memsz < 0x1_0000_0000
  }

  const PT_LOAD := 1
  const PT_DYNAMIC := 2
  const PT_INTERP := 3
  const PT_SHLIB := 5

  predicate WritableSegment(p: Phdr) { p.flags / 2 % 2 == 1 }

  /** PF_W is bit 1. */
  lemma WriteFlag(p: Phdr)
    ensures WritableSegment(p) <==> Bits.Bit(p.flags, 1)
  {
    assert Bits.Bit(p.flags, 1) == Bits.Bit(p.flags / 2, 0);
  }

  // ---------- validate_segment() ----------

  predicate IsUserVaddr(a: nat) { a < PHYS_BASE }

  predicate ValidateSegment(p: Phdr, fileLength: nat) {
    var end := (p.vaddr + p.memsz) % 0x1_0000_0000;
    if p.offset % 4096 != p.vaddr % 4096 then false
    else if p.offset > fileLength then false
    else if p.memsz < p.filesz then false
    else if p.memsz == 0 then false
    else if !IsUserVaddr(p.vaddr) then false
    else if !IsUserVaddr(end) then false
    else if end < p.vaddr then false
    else if p.vaddr < 4096 then false
    else true
  }

  /** The tests, done in 32-bit arithmetic, accept exactly the segments that lie
      in user memory above page 0. */
  lemma ValidateMeaning(p: Phdr, fileLength: nat)
    requires Words(p)
    ensures ValidateSegment(p, fileLength) <==>
              && p.offset % 4096 == p.vaddr % 4096 && p.offset <= fileLength
              && p.filesz <= p.memsz && 0 < p.memsz
              && 4096 <= p.vaddr && p.vaddr + p.memsz < PHYS_BASE
  {}

  // ---------- load_segment() ----------

  // Byte k of a segment of which `read` bytes come from the file at ofs.
  function SegByte(file: seq<Byte>, ofs: nat, read: nat, k: nat): Byte {
    if k < read && ofs + k < |file| then file[ofs + k] else 0
  }

  function SegPage(file: seq<Byte>, ofs: nat, read: nat, i: nat): (s: seq<Byte>)
    ensures |s| == 4096 && forall k :: 0 <= k < 4096 ==> s[k] == SegByte(file, ofs, read, 4096 * i + k)
  {
    seq<Byte>(4096, k requires 0 <= k => SegByte(file, ofs, read, 4096 * i + k))
  }

  // The first n pages from page vp on hold the segment and were not mapped
  // before; all the others are as they were.
  ghost predicate Loaded(space: map<nat, UserPage>, space': map<nat, UserPage>, file: seq<Byte>, ofs: nat, read: nat,
                         vp: nat, n: nat, writable: bool) {
    && (forall q {:trigger HasPage(space', file, ofs, read, vp, q, writable)} ::
          vp <= q < vp + n ==> q !in space && HasPage(space', file, ofs, read, vp, q, writable))
    && Extends(space, space')
    && (forall q :: q in space' ==> q in space || vp <= q < vp + n)
  }

  // Page q belongs to the segment that starts at page vp.
  ghost predicate HasPage(space: map<nat, UserPage>, file: seq<Byte>, ofs: nat, read: nat, vp: nat, q: int,
                          writable: bool) {
    vp <= q && q in space && space[q] == UserPage(SegPage(file, ofs, read, q - vp), writable)
  }

  // Pages mapped before are still there, as they were.
  ghost predicate Extends(space: map<nat, UserPage>, space': map<nat, UserPage>) {
    forall q :: q in space ==> q in space' && space'[q] == space[q]
  }

  lemma LoadedNext(space: map<nat, UserPage>, space': map<nat, UserPage>, file: seq<Byte>, ofs: nat, read: nat,
                   vp: nat, n: nat, writable: bool, bytes: seq<Byte>)
    requires Loaded(space, space', file, ofs, read, vp, n, writable)
    requires vp + n !in space' && bytes == SegPage(file, ofs, read, n)
    ensures Loaded(space, space'[vp + n := UserPage(bytes, writable)], file, ofs, read, vp, n + 1, writable)
  {
    var space'' := space'[vp + n := UserPage(bytes, writable)];
    forall q | vp <= q < vp + n + 1 ensures q !in space && HasPage(space'', file, ofs, read, vp, q, writable) {
      if q < vp + n {
        assert HasPage(space', file, ofs, read, vp, q, writable);
        assert q !in space;
        assert HasPage(space'', file, ofs, read, vp, q, writable);
      } else {
        assert q == vp + n && Extends(space, space') && q !in space';
        assert q !in space;
        assert HasPage(space'', file, ofs, read, vp, q, writable);
      }
    }
  }

  // One page's worth of the file, then zeros.
  lemma PageFilled(file: seq<Byte>, ofs: nat, read: nat, i: nat, data: seq<Byte>, zeros: seq<Byte>)
    requires |data| == Done(read, i + 1) - Done(read, i) && |zeros| == 4096 - |data| && forall k ::
               0 <= k < |zeros| ==> zeros[k] == 0
    requires |data| > 0 ==>
               ofs + Done(read, i + 1) <= |file| && data == file[ofs + Done(read, i)..ofs + Done(read, i + 1)]
    ensures data + zeros == SegPage(file, ofs, read, i)
  {
    var page, want := data + zeros, SegPage(file, ofs, read, i);
    forall k | 0 <= k < 4096 ensures page[k] == want[k] {}
  }

  // Bytes read from the file for the first i pages.
  function Done(read: nat, i: nat): (d: nat)
    ensures d <= read
  {
    if 4096 * i < read then 4096 * i else read
  }

  // file_read(): from the current position, not past the end.
  method FileRead(file: seq<Byte>, pos: nat, size: nat) returns (data: seq<Byte>, pos': nat)
    ensures |data| == Count(size, pos, |file|) && pos' == pos + |data|
    ensures |data| > 0 ==> pos' <= |file| && data == file[pos..pos']
  {
    var n := Count(size, pos, |file|);
    data := if n > 0 then file[pos..pos + n] else [];
    pos' := pos + n;
  }

  // Where the loop is after n pages: what is left to read and to zero, the next
  // page, the position in the file.
  predicate At(seg: Segment, fileLength: nat, n: nat, read: int, zero: int, vp: nat, pos: nat) {
    && 0 <= read && 0 <= zero && vp == seg.upage + n
    && read == seg.read - Done(seg.read, n) && read + zero == seg.read + seg.zero - 4096 * n
    && pos == seg.ofs + Done(seg.read, n) && (Done(seg.read, n) > 0 ==> pos <= fileLength)
  }

  // load_segment()'s arguments.
  datatype Segment = Segment(ofs: nat, upage: nat, read: nat, zero: nat)

  function PageRead(read: nat): nat { if read < 4096 then read else 4096 }

  lemma AtNext(seg: Segment, fileLength: nat, n: nat, read: nat, zero: nat, vp: nat, pos: nat)
    requires (seg.read + seg.zero) % 4096 == 0 && 4096 * seg.upage + seg.read + seg.zero <= PHYS_BASE
    requires At(seg, fileLength, n, read, zero, vp, pos) && (read > 0 || zero > 0)
    ensures vp < USER_PAGES && Done(seg.read, n + 1) == Done(seg.read, n) + PageRead(read)
    ensures vp < seg.upage + (seg.read + seg.zero) / 4096 && pos + PageRead(read) <= seg.ofs + seg.read
    ensures pos + PageRead(read) <= fileLength || PageRead(read) == 0 ==>
              At(seg, fileLength, n + 1, read - PageRead(read), zero - (4096 - PageRead(read)), vp + 1,
                 pos + PageRead(read))
  {}

  lemma AtEndOf(seg: Segment, fileLength: nat, n: nat, vp: nat, pos: nat)
    requires At(seg, fileLength, n, 0, 0, vp, pos)
    ensures n == (seg.read + seg.zero) / 4096 && (seg.read > 0 ==> seg.ofs + seg.read <= fileLength)
  {}

  // One of the pools that pages come from is empty.
  predicate NoMemory(user: AddressSpace)
    reads user
  {
    user.userPool == [] || user.kernelPool == []
  }

  // Page n of a segment: read, filled up with zeros, installed.
  method LoadNext(user: AddressSpace, file: seq<Byte>, pos: nat, pageRead: nat, vp: nat, writable: bool,
                  ghost before: map<nat, UserPage>, ghost ofs: nat, ghost readBytes: nat, ghost upage: nat,
                    ghost n: nat)
    returns (ok: bool, pos': nat)
    requires user.Valid() && vp < USER_PAGES && pageRead <= 4096 && vp == upage + n
    requires Loaded(before, user.space, file, ofs, readBytes, upage, n, writable)
    requires pos == ofs + Done(readBytes, n) && Done(readBytes, n + 1) == Done(readBytes, n) + pageRead
    modifies user
    ensures user.Valid() && Extends(before, user.space)
    ensures ok ==> pos' == pos + pageRead && (pageRead > 0 ==> pos' <= |file|)
    ensures ok ==> Loaded(before, user.space, file, ofs, readBytes, upage, n + 1, writable)
    ensures !ok ==> NoMemory(user) || (pageRead > 0 && pos + pageRead > |file|) || vp in before
  {
    pos' := pos;
    if user.userPool == [] {
      return false, pos;
    }
    var data;
    data, pos' := FileRead(file, pos, pageRead);
    if |data| != pageRead {
      return false, pos';
    }
    var zeros: seq<Byte> := seq(4096 - pageRead, _ => 0);
    PageFilled(file, ofs, readBytes, n, data, zeros);
    ghost var space := user.space;
    ok := user.LoadPage(vp, data + zeros, writable);
    if ok {
      LoadedNext(before, space, file, ofs, readBytes, upage, n, writable, data + zeros);
    }
  }

  /** load_segment(): the counters reach zero together, without underflow, and
      then every page of the segment shows the file's bytes followed by zeros,
      where no page was mapped before. It fails only for want of memory, of bytes
      in the file or of an unmapped page, and earlier pages are unchanged. */
  method LoadSegment(user: AddressSpace, file: seq<Byte>, ofs: nat, upage: nat, readBytes: nat, zeroBytes: nat,
                     writable: bool)
    returns (ok: bool)
    requires user.Valid() && (readBytes + zeroBytes) % 4096 == 0 && 4096 * upage + readBytes + zeroBytes <= PHYS_BASE
    modifies user
    ensures user.Valid() && Extends(old(user.space), user.space)
    ensures ok && readBytes > 0 ==> ofs + readBytes <= |file|
    ensures ok ==> Loaded(old(user.space), user.space, file, ofs, readBytes, upage, (readBytes + zeroBytes) / 4096,
                          writable)
    ensures !ok ==> || NoMemory(user) || (readBytes > 0 && ofs + readBytes > |file|)
                    || exists q :: upage <= q < upage + (readBytes + zeroBytes) / 4096 && q in old(user.space)
  {
    var read, zero, vp, pos := readBytes, zeroBytes, upage, ofs;
    ghost var n, seg := 0, Segment(ofs, upage, readBytes, zeroBytes);
    while read > 0 || zero > 0
      invariant user.Valid() && Loaded(old(user.space), user.space, file, ofs, readBytes, upage, n, writable)
      invariant At(seg, |file|, n, read, zero, vp, pos)
      decreases read + zero
    {
      AtNext(seg, |file|, n, read, zero, vp, pos);
      var pageRead := PageRead(read);
      ok, pos := LoadNext(user, file, pos, pageRead, vp, writable, old(user.space), ofs, readBytes, upage, n);
      if !ok {
        return;
      }
      read := read - pageRead;
      zero := zero - (4096 - pageRead);
      vp := vp + 1;
      n := n + 1;
    }
    AtEndOf(seg, |file|, n, vp, pos);
    ok := true;
  }

  // ---------- load() ----------

  function RoundUp(x: nat): nat { (x + 4095) / 4096 * 4096 }

  // The arithmetic before load_segment() is called.
  function SegmentOf(p: Phdr): Segment
    requires p.filesz <= p.memsz
  {
    var pageOffset := p.vaddr % 4096;
    var read := if p.filesz > 0 then pageOffset + p.filesz else 0;
    Segment(p.offset / 4096 * 4096, p.vaddr / 4096, read, RoundUp(pageOffset + p.memsz) - read)
  }

  /** For a segment that passed the tests none of that wraps, load_segment()'s
      assertions hold, and its pages are user pages above page 0 that cover the
      segment. */
  lemma SegmentFits(p: Phdr, fileLength: nat)
    requires Words(p) && ValidateSegment(p, fileLength)
    ensures var seg := SegmentOf(p);
            && (seg.read + seg.zero) % 4096 == 0 && seg.ofs % 4096 == 0
            && 1 <= seg.upage && 4096 * seg.upage + seg.read + seg.zero <= PHYS_BASE
            && 4096 * seg.upage <= p.vaddr && p.vaddr + p.memsz <= 4096 * seg.upage + seg.read + seg.zero
            && p.offset - seg.ofs == p.vaddr - 4096 * seg.upage
            && seg.read + 4095 < 0x1_0000_0000 && seg.read + seg.zero < 0x1_0000_0000
  {
    ValidateMeaning(p, fileLength);
  }

  // The byte the process sees at an address.
  ghost predicate Sees(space: map<nat, UserPage>, addr: nat, b: Byte, writable: bool) {
    && addr / 4096 in space && |space[addr / 4096].bytes| == 4096
    && space[addr / 4096].bytes[addr % 4096] == b && space[addr / 4096].writable == writable
  }

  // The process sees the segment: the file's bytes, then zeros.
  ghost predicate Visible(space: map<nat, UserPage>, file: seq<Byte>, p: Phdr) {
    forall k {:trigger SegmentByte(file, p, k)} :: 0 <= k < p.memsz ==>
      Sees(space, p.vaddr + k, SegmentByte(file, p, k), WritableSegment(p))
  }

  function SegmentByte(file: seq<Byte>, p: Phdr, k: nat): Byte {
    if k < p.filesz && p.offset + k < |file| then file[p.offset + k] else 0
  }

  /** Through the page tables, address p_vaddr + k shows file byte p_offset + k
      for k below p_filesz and zero from there up to p_memsz. */
  lemma LoadedVisible(space: map<nat, UserPage>, space': map<nat, UserPage>, file: seq<Byte>, p: Phdr)
    requires Words(p) && ValidateSegment(p, |file|)
    requires var seg := SegmentOf(p);
             Loaded(space, space', file, seg.ofs, seg.read, seg.upage, (seg.read + seg.zero) / 4096, WritableSegment(p))
    ensures Visible(space', file, p)
  {
    SegmentFits(p, |file|);
    var seg := SegmentOf(p);
    forall k | 0 <= k < p.memsz ensures Sees(space', p.vaddr + k, SegmentByte(file, p, k), WritableSegment(p)) {
      var q := (p.vaddr + k) / 4096;
      assert HasPage(space', file, seg.ofs, seg.read, seg.upage, q, WritableSegment(p));
    }
  }

  // The pages of the segments among the first n headers.
  ghost predicate Covered(headers: seq<Phdr>, n: nat, q: int)
    requires n <= |headers|
  {
    exists i :: 0 <= i < n && Covers(headers[i], q)
  }

  predicate Covers(p: Phdr, q: int) {
    p.kind == PT_LOAD && p.vaddr / 4096 <= q <= (p.vaddr + p.memsz - 1) / 4096
  }

  predicate HeaderOk(p: Phdr, fileLength: nat) {
    && p.kind !in {PT_DYNAMIC, PT_INTERP, PT_SHLIB}
    && (p.kind == PT_LOAD ==> ValidateSegment(p, fileLength) && p.offset + p.filesz <= fileLength)
  }

  // An executable that can be loaded: its segments are valid, lie in the file,
  // and share no page with one another or with the stack.
  ghost predicate Loadable(headers: seq<Phdr>, n: nat, fileLength: nat)
    requires n <= |headers|
  {
    && (forall i :: 0 <= i < n ==> HeaderOk(headers[i], fileLength) && !Covers(headers[i], USER_PAGES - 1))
    && Apart(headers, n)
  }

  ghost predicate Apart(headers: seq<Phdr>, n: nat)
    requires n <= |headers|
  {
    forall i, j, q :: 0 <= i < j < n && Covers(headers[i], q) ==> !Covers(headers[j], q)
  }

  lemma ApartNext(headers: seq<Phdr>, n: nat)
    requires n < |headers| && Apart(headers, n) && forall q :: Covers(headers[n], q) ==> !Covered(headers, n, q)
    ensures Apart(headers, n + 1)
  {
    forall i, q | 0 <= i < n && Covers(headers[i], q) ensures !Covers(headers[n], q) {
      assert Covered(headers, n, q);
    }
  }

  /** One program header: its pages are mapped, and no others; it fails only if
      it is bad, a page is taken, or memory is out. */
  method LoadHeader(user: AddressSpace, file: seq<Byte>, p: Phdr) returns (ok: bool)
    requires user.Valid() && Words(p)
    modifies user
    ensures user.Valid() && Extends(old(user.space), user.space)
    ensures ok ==> HeaderOk(p, |file|) && (p.kind == PT_LOAD ==> Visible(user.space, file, p))
    ensures ok ==> forall q :: q in user.space <==> q in old(user.space) || Covers(p, q)
    ensures ok ==> forall q :: Covers(p, q) ==> 1 <= q < USER_PAGES && q !in old(user.space)
    ensures !ok ==> NoMemory(user) || !HeaderOk(p, |file|) || exists q :: Covers(p, q) && q in old(user.space)
  {
    if p.kind == PT_DYNAMIC || p.kind == PT_INTERP || p.kind == PT_SHLIB {
      return false;
    }
    if p.kind != PT_LOAD {
      return true;
    }
    if !ValidateSegment(p, |file|) {
      return false;
    }
    SegmentFits(p, |file|);
    SegmentPages(p, |file|);
    var seg := SegmentOf(p);
    ok := LoadSegment(user, file, seg.ofs, seg.upage, seg.read, seg.zero, WritableSegment(p));
    if ok {
      LoadedVisible(old(user.space), user.space, file, p);
      LoadedPages(old(user.space), user.space, file, seg, WritableSegment(p));
    }
  }

  lemma LoadedPages(space: map<nat, UserPage>, space': map<nat, UserPage>, file: seq<Byte>, seg: Segment,
                    writable: bool)
    requires Loaded(space, space', file, seg.ofs, seg.read, seg.upage, (seg.read + seg.zero) / 4096, writable)
    ensures forall q :: seg.upage <= q < seg.upage + (seg.read + seg.zero) / 4096 ==> q !in space && q in space'
  {
    forall q | seg.upage <= q < seg.upage + (seg.read + seg.zero) / 4096 ensures q !in space && q in space' {
      assert HasPage(space', file, seg.ofs, seg.read, seg.upage, q, writable);
    }
  }

  // The pages of a valid segment.
  lemma SegmentPages(p: Phdr, fileLength: nat)
    requires Words(p) && ValidateSegment(p, fileLength) && p.kind == PT_LOAD
    ensures var seg := SegmentOf(p); var n := (seg.read + seg.zero) / 4096;
            && seg.upage + n <= USER_PAGES
            && forall q :: Covers(p, q) <==> seg.upage <= q < seg.upage + n
    ensures SegmentOf(p).read > 0 ==>
              (SegmentOf(p).ofs + SegmentOf(p).read <= fileLength <==> p.offset + p.filesz <= fileLength)
    ensures SegmentOf(p).read == 0 ==> p.offset + p.filesz <= fileLength
  {
    SegmentFits(p, fileLength);
    ValidateMeaning(p, fileLength);
    var seg := SegmentOf(p);
    var n := (seg.read + seg.zero) / 4096;
    assert 4096 * n == RoundUp(p.vaddr % 4096 + p.memsz);
    assert (p.vaddr + p.memsz - 1) / 4096 == seg.upage + n - 1;
  }

  // The headers so far are good, and so far their pages are mapped.
  ghost predicate LoadedSoFar(space: map<nat, UserPage>, file: seq<Byte>, headers: seq<Phdr>, n: nat)
    requires n <= |headers|
  {
    && (forall i :: 0 <= i < n ==>
        HeaderOk(headers[i], |file|) && (headers[i].kind == PT_LOAD ==> Visible(space, file, headers[i])))
    && Apart(headers, n)
    && (forall q :: q in space <==> Covered(headers, n, q))
  }

  lemma SoFarNext(space: map<nat, UserPage>, space': map<nat, UserPage>, file: seq<Byte>, headers: seq<Phdr>, n: nat)
    requires n < |headers| && LoadedSoFar(space, file, headers, n) && Extends(space, space')
    requires HeaderOk(headers[n], |file|) && (headers[n].kind == PT_LOAD ==> Visible(space', file, headers[n]))
    requires forall q :: q in space' <==> q in space || Covers(headers[n], q)
    requires forall q :: Covers(headers[n], q) ==> q !in space
    ensures LoadedSoFar(space', file, headers, n + 1)
  {
    forall i | 0 <= i < n && headers[i].kind == PT_LOAD ensures Visible(space', file, headers[i]) {
      VisibleKept(space, space', file, headers[i]);
    }
    forall q ensures Covered(headers, n + 1, q) <==> Covered(headers, n, q) || Covers(headers[n], q) {}
    ApartNext(headers, n);
  }

  // Later pages do not disturb a segment.
  lemma VisibleKept(space: map<nat, UserPage>, space': map<nat, UserPage>, file: seq<Byte>, p: Phdr)
    requires Visible(space, file, p) && Extends(space, space')
    ensures Visible(space', file, p)
  {
    forall k | 0 <= k < p.memsz ensures Sees(space', p.vaddr + k, SegmentByte(file, p, k), WritableSegment(p)) {
      assert Sees(space, p.vaddr + k, SegmentByte(file, p, k), WritableSegment(p));
    }
  }

  // ---------- The file ----------

  function Half(file: seq<Byte>, o: nat): (r: nat)
    requires o + 2 <= |file|
    ensures r < 0x1_0000
  {
    file[o] as int + 256 * (file[o + 1] as int)
  }

  function Word(file: seq<Byte>, o: nat): (r: nat)
    requires o + 4 <= |file|
    ensures r < 0x1_0000_0000
  {
    FsFormat.FromLe32(file[o..o + 4])
  }

  // The program header at offset o of the file.
  function PhdrAt(file: seq<Byte>, o: nat): (p: Phdr)
    requires o + 32 <= |file|
    ensures Words(p)
  {
    Phdr(Word(file, o), Word(file, o + 4), Word(file, o + 8), Word(file, o + 16), Word(file, o + 20),
         Word(file, o + 24))
  }

  // The executable header, [ELF1] 1-4 to 1-8, is one that the kernel accepts.
  predicate GoodEhdr(file: seq<Byte>) {
    && |file| >= 52 && file[..7] == [127, 69, 76, 70, 1, 1, 1]
    && Half(file, 16) == 2 && Half(file, 18) == 3 && Word(file, 20) == 1 && Half(file, 42) == 32
      && Half(file, 44) <= 1024
  }

  // The first n program headers, from offset o on, lie in the file.
  predicate HeadersFit(file: seq<Byte>, o: nat, n: nat) { n == 0 || o + 32 * n <= |file| }

  function HeadersAt(file: seq<Byte>, o: nat, n: nat): (r: seq<Phdr>)
    requires HeadersFit(file, o, n)
    ensures |r| == n && forall i :: 0 <= i < n ==> Words(r[i])
  {
    if n == 0 then [] else HeadersAt(file, o, n - 1) + [PhdrAt(file, o + 32 * (n - 1))]
  }

  lemma HeadersMore(file: seq<Byte>, o: nat, n: nat)
    requires HeadersFit(file, o, n + 1)
    ensures HeadersAt(file, o, n + 1) == HeadersAt(file, o, n) + [PhdrAt(file, o + 32 * n)]
  {}

  lemma {:induction false} HeadersPrefix(file: seq<Byte>, o: nat, m: nat, n: nat)
    requires m <= n && HeadersFit(file, o, n)
    ensures HeadersFit(file, o, m) && HeadersAt(file, o, m) == HeadersAt(file, o, n)[..m]
    decreases n
  {
    if m < n { HeadersPrefix(file, o, m, n - 1); }
  }

  /** What load() asks of a file: the executable header, the program headers, and
      the segments they describe. */
  ghost predicate Executable(file: seq<Byte>) {
    && GoodEhdr(file) && HeadersFit(file, Word(file, 28), Half(file, 44))
    && Loadable(HeadersAt(file, Word(file, 28), Half(file, 44)), Half(file, 44), |file|)
  }

  lemma SoFarMore(space: map<nat, UserPage>, file: seq<Byte>, headers: seq<Phdr>, p: Phdr)
    requires LoadedSoFar(space, file, headers, |headers|)
    ensures LoadedSoFar(space, file, headers + [p], |headers|)
  {
    var n, more := |headers|, headers + [p];
    forall q ensures Covered(more, n, q) <==> Covered(headers, n, q) {
      if i :| 0 <= i < n && Covers(headers[i], q) { assert Covers(more[i], q); }
    }
    forall i, j, q | 0 <= i < j < n && Covers(more[i], q) ensures !Covers(more[j], q) {
      assert Covers(headers[i], q);
    }
  }

  // A header that cannot be loaded after the ones before it.
  lemma BadHeader(file: seq<Byte>, o: nat, i: nat, n: nat, q: int)
    requires i < n && HeadersFit(file, o, n)
    requires var hs := HeadersAt(file, o, i + 1); !HeaderOk(hs[i], |file|) || (Covers(hs[i], q) && Covered(hs, i, q))
    ensures !Loadable(HeadersAt(file, o, n), n, |file|)
  {
    HeadersPrefix(file, o, i + 1, n);
    BadPrefix(HeadersAt(file, o, i + 1), HeadersAt(file, o, n), i, q, |file|);
  }

  lemma BadPrefix(hs: seq<Phdr>, headers: seq<Phdr>, i: nat, q: int, fileLength: nat)
    requires i + 1 == |hs| <= |headers| && hs == headers[..i + 1]
    requires !HeaderOk(hs[i], fileLength) || (Covers(hs[i], q) && Covered(hs, i, q))
    ensures !Loadable(headers, |headers|, fileLength)
  {
    assert hs[i] == headers[i];
    if HeaderOk(hs[i], fileLength) {
      var j :| 0 <= j < i && Covers(hs[j], q);
      assert Covers(headers[j], q) && Covers(headers[i], q);
    }
  }

  // One turn of the loop over the program headers, at offset o.
  method LoadOne(user: AddressSpace, file: seq<Byte>, o: nat, ghost phoff: nat, ghost i: nat, ghost phnum: nat)
    returns (ok: bool)
    requires user.Valid() && i < phnum && o == phoff + 32 * i && o + 32 <= |file|
    requires LoadedSoFar(user.space, file, HeadersAt(file, phoff, i), i)
    modifies user
    ensures user.Valid()
    ensures ok ==> LoadedSoFar(user.space, file, HeadersAt(file, phoff, i + 1), i + 1)
    ensures !ok ==> || NoMemory(user) || !HeadersFit(file, phoff, phnum)
                    || !Loadable(HeadersAt(file, phoff, phnum), phnum, |file|)
  {
    var p := PhdrAt(file, o);
    ghost var before, hs := user.space, HeadersAt(file, phoff, i);
    HeadersMore(file, phoff, i);
    SoFarMore(before, file, hs, p);
    ok := LoadHeader(user, file, p);
    if ok {
      SoFarNext(before, user.space, file, hs + [p], i);
    } else if !NoMemory(user) && HeadersFit(file, phoff, phnum) {
      ghost var q :| !HeaderOk(p, |file|) || (Covers(p, q) && q in before);
      BadHeader(file, phoff, i, phnum, q);
    }
  }

  // The loop over the program headers. The offset is a signed 32-bit integer, so
  // that one from 2^31 on is negative.
  method LoadAll(user: AddressSpace, file: seq<Byte>, phoff: nat, phnum: nat) returns (ok: bool)
    requires user.Valid() && user.space == map[] && |file| < 0x8000_0000 && phoff < 0x1_0000_0000
    modifies user
    ensures user.Valid()
    ensures ok ==> HeadersFit(file, phoff, phnum)
                   && LoadedSoFar(user.space, file, HeadersAt(file, phoff, phnum), phnum)
    ensures !ok ==> || NoMemory(user) || !HeadersFit(file, phoff, phnum)
                    || !Loadable(HeadersAt(file, phoff, phnum), phnum, |file|)
  {
    var fileOfs: int := if phoff < 0x8000_0000 then phoff else phoff - 0x1_0000_0000;
    for i := 0 to phnum
      invariant user.Valid() && HeadersFit(file, phoff, i)
      invariant if phoff < 0x8000_0000 then fileOfs == phoff + 32 * i else fileOfs < 0 && i == 0
      invariant LoadedSoFar(user.space, file, HeadersAt(file, phoff, i), i)
    {
      if fileOfs < 0 || fileOfs > |file| || fileOfs + 32 > |file| {
        return false;
      }
      ok := LoadOne(user, file, fileOfs, phoff, i, phnum);
      if !ok {
        return;
      }
      fileOfs := fileOfs + 32;
    }
    ok := true;
  }

  /** load(): when it succeeds the process sees every loadable segment, whole,
      and a page of zeros below PHYS_BASE for its stack; it has no other page;
      and it starts where the file says. As long as there is memory it succeeds
      exactly for an executable file. */
  method Load(user: AddressSpace, file: seq<Byte>) returns (ok: bool, entry: nat)
    requires user.Valid() && user.space == map[] && |file| < 0x8000_0000
    modifies user
    ensures user.Valid()
    ensures ok ==> Executable(file) && entry == Word(file, 24)
    ensures !ok ==> NoMemory(user) || !Executable(file)
    ensures ok ==> InMemory(user.space, file, HeadersAt(file, Word(file, 28), Half(file, 44)))
  {
    entry := 0;
    if !GoodEhdr(file) {
      return false, 0;
    }
    ok := LoadAll(user, file, Word(file, 28), Half(file, 44));
    if ok {
      entry := Word(file, 24);
      ghost var headers := HeadersAt(file, Word(file, 28), Half(file, 44));
      ok := SetupStack(user, file, headers);
    }
  }

  // The process sees its segments and its stack, and has no other page.
  ghost predicate InMemory(space: map<nat, UserPage>, file: seq<Byte>, headers: seq<Phdr>) {
    && (forall i :: 0 <= i < |headers| && headers[i].kind == PT_LOAD ==> Visible(space, file, headers[i]))
    && (forall k :: PHYS_BASE - 4096 <= k < PHYS_BASE ==> Sees(space, k, 0, true))
    && (forall q :: q in space <==> q == USER_PAGES - 1 || Covered(headers, |headers|, q))
  }

  method SetupStack(user: AddressSpace, file: seq<Byte>, ghost headers: seq<Phdr>) returns (ok: bool)
    requires user.Valid() && LoadedSoFar(user.space, file, headers, |headers|)
    modifies user
    ensures user.Valid()
    ensures ok ==> Loadable(headers, |headers|, |file|) && InMemory(user.space, file, headers)
    ensures !ok ==> NoMemory(user) || !Loadable(headers, |headers|, |file|)
  {
    ghost var before := user.space;
    var zeros: seq<Byte> := seq(4096, _ => 0);
    ok := user.LoadPage(USER_PAGES - 1, zeros, true);
    forall j | 0 <= j < |headers| && headers[j].kind == PT_LOAD && ok ensures Visible(user.space, file, headers[j]) {
      VisibleKept(before, user.space, file, headers[j]);
    }
    forall i | 0 <= i < |headers| && Covers(headers[i], USER_PAGES - 1)
      ensures Covered(headers, |headers|, USER_PAGES - 1) {}
  }

  // ---------- What the headers look like in the file ----------

  // Words one after the other.
  function Le32s(ws: seq<nat>): (r: seq<Byte>)
    requires forall i :: 0 <= i < |ws| ==> ws[i] < 0x1_0000_0000
    ensures |r| == 4 * |ws|
  {
    if ws == [] then [] else FsFormat.Le32(ws[0]) + Le32s(ws[1..])
  }

  lemma {:induction false} WordAt(front: seq<Byte>, ws: seq<nat>, back: seq<Byte>, k: nat)
    requires k < |ws| && forall i :: 0 <= i < |ws| ==> ws[i] < 0x1_0000_0000
    ensures Word(front + Le32s(ws) + back, |front| + 4 * k) == ws[k]
    decreases k
  {
    var w := FsFormat.Le32(ws[0]);
    var file := front + Le32s(ws) + back;
    if k == 0 {
      assert file[|front|..|front| + 4] == w;
      FsFormat.Le32RoundTrip(ws[0]);
    } else {
      assert file == (front + w) + Le32s(ws[1..]) + back;
      WordAt(front + w, ws[1..], back, k - 1);
    }
  }

  // struct Elf32_Phdr.
  datatype DiskPhdr = DiskPhdr(pType: nat, pOffset: nat, pVaddr: nat, pPaddr: nat, pFilesz: nat, pMemsz: nat,
                               pFlags: nat, pAlign: nat)

  predicate GoodWords(p: DiskPhdr) {
    && p.pType < 0x1_0000_0000 && p.pOffset < 0x1_0000_0000 && p.pVaddr < 0x1_0000_0000 && p.pPaddr < 0x1_0000_0000
    && p.pFilesz < 0x1_0000_0000 && p.pMemsz < 0x1_0000_0000 && p.pFlags < 0x1_0000_0000 && p.pAlign < 0x1_0000_0000
  }

  function EncodePhdr(p: DiskPhdr): (r: seq<Byte>)
    requires GoodWords(p)
    ensures |r| == 32
  {
    Le32s([p.pType, p.pOffset, p.pVaddr, p.pPaddr, p.pFilesz, p.pMemsz, p.pFlags, p.pAlign])
  }

  // What the kernel reads of it.
  function Decoded(p: DiskPhdr): Phdr { Phdr(p.pType, p.pOffset, p.pVaddr, p.pFilesz, p.pMemsz, p.pFlags) }

  /** The fields of a program header are found where the structure has them. */
  lemma PhdrRoundTrip(file: seq<Byte>, o: nat, p: DiskPhdr)
    requires GoodWords(p) && o + 32 <= |file| && file[o..o + 32] == EncodePhdr(p)
    ensures PhdrAt(file, o) == Decoded(p)
  {
    var ws := [p.pType, p.pOffset, p.pVaddr, p.pPaddr, p.pFilesz, p.pMemsz, p.pFlags, p.pAlign];
    var front, back := file[..o], file[o + 32..];
    assert file == front + Le32s(ws) + back;
    WordAt(front, ws, back, 0);
    WordAt(front, ws, back, 1);
    WordAt(front, ws, back, 2);
    WordAt(front, ws, back, 4);
    WordAt(front, ws, back, 5);
    WordAt(front, ws, back, 6);
  }

  /** A table of program headers in the file is read header by header. */
  lemma {:induction false} TableRoundTrip(file: seq<Byte>, o: nat, n: nat, i: nat, p: DiskPhdr)
    requires i < n && HeadersFit(file, o, n)
    requires GoodWords(p) && file[o + 32 * i..o + 32 * i + 32] == EncodePhdr(p)
    ensures HeadersAt(file, o, n)[i] == Decoded(p)
    decreases n
  {
    if i == n - 1 {
      PhdrRoundTrip(file, o + 32 * i, p);
    } else {
      TableRoundTrip(file, o, n - 1, i, p);
    }
  }

  function Le16(x: nat): (r: seq<Byte>)
    requires x < 0x1_0000
    ensures |r| == 2
  {
    [x % 256, x / 256]
  }

  // struct Elf32_Ehdr.
  datatype DiskEhdr = DiskEhdr(eIdent: seq<Byte>, eType: nat, eMachine: nat, eVersion: nat, eEntry: nat, ePhoff: nat,
                               eShoff: nat, eFlags: nat, eEhsize: nat, ePhentsize: nat, ePhnum: nat, eShentsize: nat,
                               eShnum: nat, eShstrndx: nat)

  predicate GoodHalves(e: DiskEhdr) {
    && |e.eIdent| == 16 && e.eType < 0x1_0000 && e.eMachine < 0x1_0000
    && e.eVersion < 0x1_0000_0000 && e.eEntry < 0x1_0000_0000 && e.ePhoff < 0x1_0000_0000
    && e.eShoff < 0x1_0000_0000 && e.eFlags < 0x1_0000_0000 && e.eEhsize < 0x1_0000 && e.ePhentsize < 0x1_0000
    && e.ePhnum < 0x1_0000 && e.eShentsize < 0x1_0000 && e.eShnum < 0x1_0000 && e.eShstrndx < 0x1_0000
  }

  function EhdrWords(e: DiskEhdr): seq<nat> { [e.eVersion, e.eEntry, e.ePhoff, e.eShoff, e.eFlags] }

  function EncodeEhdr(e: DiskEhdr): (r: seq<Byte>)
    requires GoodHalves(e)
    ensures |r| == 52
  {
    e.eIdent + Le16(e.eType) + Le16(e.eMachine) + Le32s(EhdrWords(e)) + Le16(e.eEhsize) + Le16(e.ePhentsize)
    + Le16(e.ePhnum) + Le16(e.eShentsize) + Le16(e.eShnum) + Le16(e.eShstrndx)
  }

  /** The fields of the executable header are found where the structure has them. */
  lemma EhdrRoundTrip(e: DiskEhdr, back: seq<Byte>)
    requires GoodHalves(e)
    ensures var file := EncodeEhdr(e) + back;
            && Word(file, 24) == e.eEntry && Word(file, 28) == e.ePhoff && Half(file, 44) == e.ePhnum
            && (GoodEhdr(file) <==>
                  && e.eIdent[..7] == [0x7F, 0x45, 0x4C, 0x46, 1, 1, 1] && e.eType == 2 && e.eMachine == 3
                  && e.eVersion == 1 && e.ePhentsize == 32 && e.ePhnum <= 1024)
  {
    EhdrFront(e, back);
    EhdrHalves(e, back);
    assert (EncodeEhdr(e) + back)[..7] == e.eIdent[..7];
  }

  lemma EhdrFront(e: DiskEhdr, back: seq<Byte>)
    requires GoodHalves(e)
    ensures var file := EncodeEhdr(e) + back;
            && Half(file, 16) == e.eType && Half(file, 18) == e.eMachine && Word(file, 20) == e.eVersion
            && Word(file, 24) == e.eEntry && Word(file, 28) == e.ePhoff
  {
    var file, ws := EncodeEhdr(e) + back, EhdrWords(e);
    var front := e.eIdent + Le16(e.eType) + Le16(e.eMachine);
    assert file[16] == Le16(e.eType)[0] && file[17] == Le16(e.eType)[1];
    assert file[18] == Le16(e.eMachine)[0] && file[19] == Le16(e.eMachine)[1];
    var rest := file[40..];
    assert file == front + Le32s(ws) + rest;
    WordAt(front, ws, rest, 0);
    WordAt(front, ws, rest, 1);
    WordAt(front, ws, rest, 2);
  }

  lemma EhdrHalves(e: DiskEhdr, back: seq<Byte>)
    requires GoodHalves(e)
    ensures var file := EncodeEhdr(e) + back; Half(file, 42) == e.ePhentsize && Half(file, 44) == e.ePhnum
  {
    var file := EncodeEhdr(e) + back;
    assert file[42] == Le16(e.ePhentsize)[0] && file[43] == Le16(e.ePhentsize)[1];
    assert file[44] == Le16(e.ePhnum)[0] && file[45] == Le16(e.ePhnum)[1];
  }

  // ---------- What load() accepts, field by field ----------

  // A segment that is valid, lies in the file and keeps off the stack's page.
  predicate SegmentGood(p: DiskPhdr, fileLength: nat) {
    && p.pType != 2 && p.pType != 3 && p.pType != 5
    && (p.pType == 1 ==>
          && p.pOffset % 4096 == p.pVaddr % 4096 && p.pOffset + p.pFilesz <= fileLength
          && p.pFilesz <= p.pMemsz && 0 < p.pMemsz && 4096 <= p.pVaddr && p.pVaddr + p.pMemsz <= 0xBFFF_F000)
  }

  // Two segments to load have no page in common.
  predicate NoCommonPage(p: DiskPhdr, q: DiskPhdr) {
    p.pType == 1 && q.pType == 1 ==>
      (p.pVaddr + p.pMemsz - 1) / 4096 < q.pVaddr / 4096 || (q.pVaddr + q.pMemsz - 1) / 4096 < p.pVaddr / 4096
  }

  // The file begins with the executable header, and has the program headers
  // where it says.
  ghost predicate Holds(file: seq<Byte>, e: DiskEhdr, table: seq<DiskPhdr>) {
    && GoodHalves(e) && |file| >= 52 && file[..52] == EncodeEhdr(e)
    && |table| == e.ePhnum && HeadersFit(file, e.ePhoff, |table|)
    && forall i {:trigger table[i]} :: 0 <= i < |table| ==> HeaderIn(file, e.ePhoff + 32 * i, table[i])
  }

  ghost predicate HeaderIn(file: seq<Byte>, o: nat, p: DiskPhdr) {
    GoodWords(p) && o + 32 <= |file| && file[o..o + 32] == EncodePhdr(p)
  }

  /** load() accepts a file if and only if it is a 32-bit little-endian executable
      for the 80386 with at most 1024 headers of the right size, nothing in it is
      dynamically linked, and its segments are good and share no page. */
  lemma ExecutableExactly(file: seq<Byte>, e: DiskEhdr, table: seq<DiskPhdr>)
    requires Holds(file, e, table)
    ensures Word(file, 24) == e.eEntry
    ensures Executable(file) <==>
              && e.eIdent[..7] == [0x7F, 0x45, 0x4C, 0x46, 1, 1, 1] && e.eType == 2 && e.eMachine == 3
              && e.eVersion == 1 && e.ePhentsize == 32 && e.ePhnum <= 1024
              && (forall i :: 0 <= i < |table| ==> SegmentGood(table[i], |file|))
              && (forall i, j :: 0 <= i < j < |table| ==> NoCommonPage(table[i], table[j]))
  {
    assert file == EncodeEhdr(e) + file[52..];
    EhdrRoundTrip(e, file[52..]);
    var headers := HeadersAt(file, e.ePhoff, e.ePhnum);
    forall i | 0 <= i < |table| ensures headers[i] == Decoded(table[i]) && Words(headers[i]) {
      assert HeaderIn(file, e.ePhoff + 32 * i, table[i]);
      TableRoundTrip(file, e.ePhoff, e.ePhnum, i, table[i]);
    }
    LoadableExactly(headers, table, |file|);
  }

  lemma LoadableExactly(headers: seq<Phdr>, table: seq<DiskPhdr>, fileLength: nat)
    requires |headers| == |table|
    requires forall i :: 0 <= i < |table| ==> headers[i] == Decoded(table[i]) && Words(headers[i])
    ensures Loadable(headers, |headers|, fileLength) <==>
              && (forall i :: 0 <= i < |table| ==> SegmentGood(table[i], fileLength))
              && (forall i, j :: 0 <= i < j < |table| ==> NoCommonPage(table[i], table[j]))
  {
    var n := |headers|;
    forall i | 0 <= i < n
      ensures SegmentGood(table[i], fileLength) <==>
                HeaderOk(headers[i], fileLength) && !Covers(headers[i], USER_PAGES - 1)
    {
      GoodExactly(table[i], fileLength);
    }
    if forall i :: 0 <= i < n ==> SegmentGood(table[i], fileLength) {
      forall i, j | 0 <= i < j < n
        ensures NoCommonPage(table[i], table[j]) <==> forall q :: Covers(headers[i], q) ==> !Covers(headers[j], q)
      {
        PagesApart(table[i], table[j]);
      }
    }
  }

  lemma GoodExactly(p: DiskPhdr, fileLength: nat)
    requires Words(Decoded(p))
    ensures SegmentGood(p, fileLength) <==>
              HeaderOk(Decoded(p), fileLength) && !Covers(Decoded(p), USER_PAGES - 1)
  {
    ValidateMeaning(Decoded(p), fileLength);
  }

  lemma PagesApart(p: DiskPhdr, q: DiskPhdr)
    requires (p.pType == 1 ==> p.pMemsz > 0) && (q.pType == 1 ==> q.pMemsz > 0)
    ensures NoCommonPage(p, q) <==> forall x :: Covers(Decoded(p), x) ==> !Covers(Decoded(q), x)
  {
    var x := if p.pVaddr < q.pVaddr then q.pVaddr / 4096 else p.pVaddr / 4096;
    if !NoCommonPage(p, q) { assert Covers(Decoded(p), x) && Covers(Decoded(q), x); }
  }
}
