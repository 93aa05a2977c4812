/** userprog/pagedir.c and threads/pte.h: a process's user pages, reached
    through a page directory and page tables. */
module PageTable {
  import opened InodeIO
  import opened Sequences

  const USER_PAGES := 0xC_0000 // page number of PHYS_BASE

  // A user page as the process sees it.
  datatype UserPage = UserPage(bytes: seq<Byte>, writable: bool)

  type Entries = seq<nat>

  // Entries hold a frame number above twelve flag bits; P, W and U are the lowest.
  predicate Present(e: nat) { e % 2 == 1 }

  function Frame(e: nat): nat { e / 4096 }

  predicate Writable(e: nat) { e / 2 % 2 == 1 }

  function PdeCreate(frame: nat): nat { 4096 * frame + 7 }

  function PteCreateUser(frame: nat, writable: bool): nat { 4096 * frame + (if writable then 7 else 5) }

  /** What an entry is made of is what is read from it. */
  lemma EntryParts(frame: nat, writable: bool)
    ensures var e := PteCreateUser(frame, writable);
            e != 0 && Present(e) && Frame(e) == frame && Writable(e) == writable && e % 4096 / 4 % 2 == 1
    ensures var e := PdeCreate(frame); e != 0 && Present(e) && Frame(e) == frame
  {}

  /** The bits of an entry: P is bit 0, W bit 1, U bit 2, and the frame number
      starts at bit 12. Page tables are writable and open to the user. */
  lemma EntryBits(frame: nat, writable: bool, e: nat)
    ensures PteCreateUser(frame, writable) == 0x1000 * frame + 4 + (if writable then 2 else 0) + 1
    ensures PdeCreate(frame) == 0x1000 * frame + 4 + 2 + 1
    ensures (Present(e) <==> e % 2 == 1) && (Writable(e) <==> e % 4 >= 2)
    ensures 0x1000 * Frame(e) <= e < 0x1000 * Frame(e) + 0x1000
  {}

  // The table entry for page vp, or 0 when its table is missing.
  function Pte(pd: Entries, tables: map<nat, Entries>, vp: nat): nat
    requires |pd| == 1024 && vp < USER_PAGES
  {
    var pde := pd[vp / 1024];
    if pde == 0 || Frame(pde) !in tables || |tables[Frame(pde)]| != 1024 then 0 else tables[Frame(pde)][vp % 1024]
  }

  // Each directory entry in use leads to a page table of its own.
  ghost predicate TablesOk(pd: Entries, tables: map<nat, Entries>) {
    && |pd| == 1024
    && (forall i :: 0 <= i < 768 && pd[i] != 0 ==> pd[i] == PdeCreate(Frame(pd[i])) && Frame(pd[i]) in tables)
    && (forall i, j :: 0 <= i < j < 768 && pd[i] != 0 && pd[j] != 0 ==> Frame(pd[i]) != Frame(pd[j]))
    && (forall t :: t in tables ==> |tables[t]| == 1024)
  }

  // Entry e maps a page to the given contents.
  predicate Maps(e: nat, mem: map<nat, seq<Byte>>, page: UserPage) {
    Present(e) && Frame(e) in mem && mem[Frame(e)] == page.bytes && Writable(e) == page.writable && |page.bytes| == 4096
  }

  // The page tables and memory show exactly the pages of `space`.
  ghost predicate Shows(pd: Entries, tables: map<nat, Entries>, mem: map<nat, seq<Byte>>, space: map<nat, UserPage>)
    requires |pd| == 1024
  {
    && (forall vp :: vp in space ==> vp < USER_PAGES)
    && (forall vp {:trigger Pte(pd, tables, vp)} :: 0 <= vp < USER_PAGES ==>
          if vp in space then Maps(Pte(pd, tables, vp), mem, space[vp]) else !Present(Pte(pd, tables, vp)))
  }

  // No frame is mapped twice.
  ghost predicate OwnFrames(pd: Entries, tables: map<nat, Entries>, space: map<nat, UserPage>)
    requires |pd| == 1024
  {
    forall p, q {:trigger Pte(pd, tables, p), Pte(pd, tables, q)} ::
      p in space && q in space && 0 <= p < q < USER_PAGES ==> Frame(Pte(pd, tables, p)) != Frame(Pte(pd, tables, q))
  }

  // The frames that palloc_get_page() has yet to hand out.
  ghost predicate PoolOk<V>(pool: seq<nat>, used: map<nat, V>) {
    NoDup(pool) && forall f :: f in pool ==> f !in used
  }

  // A new, empty table changes no mapping.
  lemma NewTable(pd: Entries, tables: map<nat, Entries>, i: nat, t: nat)
    requires TablesOk(pd, tables) && i < 768 && pd[i] == 0 && t !in tables
    ensures var pd', tables' := pd[i := PdeCreate(t)], tables[t := seq(1024, _ => 0)];
            TablesOk(pd', tables') && forall vp :: 0 <= vp < USER_PAGES ==> Pte(pd', tables', vp) == Pte(pd, tables, vp)
  {
    EntryParts(t, true);
  }

  function WithEntry(tables: map<nat, Entries>, t: nat, i: nat, e: nat): map<nat, Entries>
    requires t in tables && i < |tables[t]|
  {
    var row: Entries := tables[t][i := e];
    tables[t := row]
  }

  // Setting one entry changes one mapping.
  lemma SetEntry(pd: Entries, tables: map<nat, Entries>, vp: nat, e: nat)
    requires TablesOk(pd, tables) && vp < USER_PAGES && pd[vp / 1024] != 0
    ensures var t := Frame(pd[vp / 1024]);
            t in tables && |tables[t]| == 1024
            && var tables' := WithEntry(tables, t, vp % 1024, e);
               TablesOk(pd, tables') && forall q :: 0 <= q < USER_PAGES ==>
                 Pte(pd, tables', q) == if q == vp then e else Pte(pd, tables, q)
  {
    var t := Frame(pd[vp / 1024]);
    var tables' := WithEntry(tables, t, vp % 1024, e);
    forall q | 0 <= q < USER_PAGES ensures Pte(pd, tables', q) == if q == vp then e else Pte(pd, tables, q) {
      assert q / 1024 == vp / 1024 && q % 1024 == vp % 1024 ==> q == vp;
    }
  }

  // One more page, in a frame of its own.
  lemma OneMore(pd: Entries, tables: map<nat, Entries>, tables': map<nat, Entries>, mem: map<nat, seq<Byte>>,
                space: map<nat, UserPage>, vp: nat, e: nat, page: UserPage)
    requires |pd| == 1024 && vp < USER_PAGES && vp !in space && Maps(e, mem, page)
    requires Shows(pd, tables, mem, space) && OwnFrames(pd, tables, space)
    requires forall q :: 0 <= q < USER_PAGES ==> Pte(pd, tables', q) == if q == vp then e else Pte(pd, tables, q)
    requires forall q :: q in space ==> q < USER_PAGES && Frame(Pte(pd, tables, q)) != Frame(e)
    ensures Shows(pd, tables', mem, space[vp := page]) && OwnFrames(pd, tables', space[vp := page])
  {}

  // What `frames` maps the numbers below n to has gone back to the pool, each
  // once; everything else is still in use.
  ghost predicate FreedBelow<V>(frames: map<nat, nat>, used: map<nat, V>, pool: seq<nat>, used0: map<nat, V>,
                                pool0: seq<nat>, n: nat) {
    && PoolOk(pool, used)
    && (forall f :: f in pool <==> f in pool0 || Gone(frames, n, f))
    && (forall f :: f in used <==> f in used0 && !Gone(frames, n, f))
  }

  ghost predicate Gone(frames: map<nat, nat>, n: nat, f: nat) {
    exists p :: p in frames && p < n && frames[p] == f
  }

  ghost predicate Injective<V>(frames: map<nat, nat>, used0: map<nat, V>) {
    && (forall p, q :: p in frames && q in frames && frames[p] == frames[q] ==> p == q)
    && (forall p :: p in frames ==> frames[p] in used0)
  }

  lemma FreedSkip<V>(frames: map<nat, nat>, used: map<nat, V>, pool: seq<nat>, used0: map<nat, V>, pool0: seq<nat>,
                     n: nat, m: nat)
    requires FreedBelow(frames, used, pool, used0, pool0, n) && n <= m && forall p :: n <= p < m ==> p !in frames
    ensures FreedBelow(frames, used, pool, used0, pool0, m)
  {
    forall f ensures Gone(frames, m, f) == Gone(frames, n, f) {}
  }

  lemma FreedOne<V>(frames: map<nat, nat>, used: map<nat, V>, pool: seq<nat>, used0: map<nat, V>, pool0: seq<nat>,
                    n: nat)
    requires FreedBelow(frames, used, pool, used0, pool0, n) && Injective(frames, used0) && n in frames
    ensures frames[n] in used
    ensures FreedBelow(frames, used - {frames[n]}, [frames[n]] + pool, used0, pool0, n + 1)
  {
    var f := frames[n];
    forall g ensures Gone(frames, n + 1, g) <==> g == f || Gone(frames, n, g) {}
    assert !Gone(frames, n, f);
  }

  // The page tables of directory slots from i on are there.
  ghost predicate TablesFrom(pd: Entries, tables: map<nat, Entries>, i: nat) {
    && |pd| == 1024
    && (forall k :: i <= k < 768 && pd[k] != 0 ==>
        pd[k] == PdeCreate(Frame(pd[k])) && Frame(pd[k]) in tables && |tables[Frame(pd[k])]| == 1024)
    && (forall j, k :: 0 <= j < k < 768 && pd[j] != 0 && pd[k] != 0 ==> Frame(pd[j]) != Frame(pd[k]))
  }

  // And so are the entries of their pages.
  ghost predicate Intact(pd: Entries, tables: map<nat, Entries>, frames: map<nat, nat>, i: nat) {
    && TablesFrom(pd, tables, i)
    && forall vp {:trigger Pte(pd, tables, vp)} :: 1024 * i <= vp < USER_PAGES ==>
         (Present(Pte(pd, tables, vp)) <==> vp in frames) && (vp in frames ==> Frame(Pte(pd, tables, vp)) == frames[vp])
  }

  // Entry j of slot i is that of its page.
  lemma SlotEntry(pd: Entries, tables: map<nat, Entries>, frames: map<nat, nat>, i: nat, j: nat, vp: nat)
    requires i < 768 && j < 1024 && Intact(pd, tables, frames, i) && pd[i] != 0 && vp == 1024 * i + j
    ensures var e := tables[Frame(pd[i])][j];
            (Present(e) <==> vp in frames) && (vp in frames ==> Frame(e) == frames[vp])
  {
    assert vp / 1024 == i && vp % 1024 == j;
    assert Pte(pd, tables, vp) == tables[Frame(pd[i])][j];
  }

  lemma IntactNext(pd: Entries, tables: map<nat, Entries>, frames: map<nat, nat>, i: nat)
    requires i < 768 && Intact(pd, tables, frames, i)
    ensures Intact(pd, if pd[i] == 0 then tables else tables - {Frame(pd[i])}, frames, i + 1)
    ensures pd[i] == 0 ==> forall vp :: 1024 * i <= vp < 1024 * (i + 1) ==> vp !in frames
  {
    var tables' := if pd[i] == 0 then tables else tables - {Frame(pd[i])};
    forall vp | 1024 * (i + 1) <= vp < USER_PAGES ensures Pte(pd, tables', vp) == Pte(pd, tables, vp) {
      assert vp / 1024 > i;
    }
    forall vp | 1024 * i <= vp < 1024 * (i + 1) && pd[i] == 0 ensures vp !in frames {
      assert Pte(pd, tables, vp) == 0;
    }
  }

  /** pagedir_create(): a directory without user pages, in a page of its own,
      unless the kernel has no page left. */
  method PagedirCreate(kernelEntries: Entries, kernelFrames: seq<nat>, userFrames: seq<nat>)
      returns (user: AddressSpace?)
    requires |kernelEntries| == 256 && NoDup(kernelFrames) && NoDup(userFrames)
    ensures user == null <==> kernelFrames == []
    ensures user != null ==> fresh(user) && user.Valid() && user.space == map[] && user.userPool == userFrames
                             && [user.pdPage] + user.kernelPool == kernelFrames && user.pd[768..] == kernelEntries
  {
    if kernelFrames == [] {
      return null;
    }
    assert forall i :: 0 <= i < |kernelFrames| - 1 ==> kernelFrames[1..][i] == kernelFrames[i + 1];
    user := new AddressSpace(kernelEntries, kernelFrames[0], kernelFrames[1..], userFrames);
  }

  class AddressSpace {
    const pdPage: nat
    var pd: Entries
    var tables: map<nat, Entries>
    var mem: map<nat, seq<Byte>>
    var kernelPool: seq<nat>
    var userPool: seq<nat>
    ghost var space: map<nat, UserPage>

    ghost predicate Valid()
      reads this
    {
      && TablesOk(pd, tables) && Shows(pd, tables, mem, space) && OwnFrames(pd, tables, space)
      && PoolOk(kernelPool, tables) && PoolOk(userPool, mem) && pdPage !in kernelPool && pdPage !in tables
    }

    constructor (kernelEntries: Entries, page: nat, kernelFrames: seq<nat>, userFrames: seq<nat>)
      requires |kernelEntries| == 256 && NoDup(kernelFrames) && page !in kernelFrames && NoDup(userFrames)
      ensures Valid() && space == map[] && pdPage == page && kernelPool == kernelFrames && userPool == userFrames
      ensures pd[768..] == kernelEntries
    {
      pdPage := page;
      pd := seq(768, _ => 0) + kernelEntries;
      tables, mem, space := map[], map[], map[];
      kernelPool, userPool := kernelFrames, userFrames;
    }

    /** pagedir_get_page(): the frame of a page, if it is mapped. */
    method GetPage(vp: nat) returns (mapped: bool, frame: nat)
      requires Valid() && vp < USER_PAGES
      ensures mapped <==> vp in space
      ensures mapped ==> frame in mem && mem[frame] == space[vp].bytes
    {
      assert Pte(pd, tables, vp) == 0 || pd[vp / 1024] != 0;
      var pde := pd[vp / 1024];
      if pde == 0 {
        return false, 0;
      }
      var pte := tables[Frame(pde)][vp % 1024];
      assert pte == Pte(pd, tables, vp);
      return Present(pte), Frame(pte);
    }

    // lookup_page() with create: makes the page table if it is missing.
    method MakeTable(vp: nat) returns (ok: bool)
      requires Valid() && vp < USER_PAGES
      modifies this`pd, this`tables, this`kernelPool
      ensures Valid() && (ok ==> pd[vp / 1024] != 0)
      ensures forall q :: 0 <= q < USER_PAGES ==> Pte(pd, tables, q) == old(Pte(pd, tables, q))
      ensures !ok <==> old(pd)[vp / 1024] == 0 && old(kernelPool) == []
      ensures !ok ==> pd == old(pd) && tables == old(tables) && kernelPool == old(kernelPool)
    {
      if pd[vp / 1024] == 0 {
        if kernelPool == [] {
          return false;
        }
        var t := kernelPool[0];
        assert t in kernelPool;
        NewTable(pd, tables, vp / 1024, t);
        kernelPool := kernelPool[1..];
        pd, tables := pd[vp / 1024 := PdeCreate(t)], tables[t := seq(1024, _ => 0)];
      }
      return true;
    }

    /** pagedir_set_page(): one page more, and every other as it was. */
    method SetPage(vp: nat, frame: nat, writable: bool) returns (ok: bool)
      requires Valid() && vp < USER_PAGES && vp !in space && frame in mem && |mem[frame]| == 4096
      requires forall q :: q in space ==> q < USER_PAGES && Frame(Pte(pd, tables, q)) != frame
      modifies this`pd, this`tables, this`kernelPool, this`space
      ensures Valid()
      ensures space == if ok then old(space)[vp := UserPage(mem[frame], writable)] else old(space)
      ensures !ok <==> old(kernelPool) == [] && old(pd)[vp / 1024] == 0
      ensures !ok ==> pd == old(pd) && tables == old(tables) && kernelPool == []
    {
      ok := MakeTable(vp);
      if ok {
        var e := PteCreateUser(frame, writable);
        EntryParts(frame, writable);
        SetEntry(pd, tables, vp, e);
        var t := Frame(pd[vp / 1024]);
        OneMore(pd, tables, WithEntry(tables, t, vp % 1024, e), mem, space, vp, e, UserPage(mem[frame], writable));
        tables := WithEntry(tables, t, vp % 1024, e);
        space := space[vp := UserPage(mem[frame], writable)];
      }
    }

    /** install_page(): fails for a page already mapped, and then changes
        nothing the process can see. */
    method InstallPage(vp: nat, frame: nat, writable: bool) returns (ok: bool)
      requires Valid() && vp < USER_PAGES && frame in mem && |mem[frame]| == 4096
      requires forall q :: q in space ==> q < USER_PAGES && Frame(Pte(pd, tables, q)) != frame
      modifies this`pd, this`tables, this`kernelPool, this`space
      ensures Valid()
      ensures space == if ok then old(space)[vp := UserPage(mem[frame], writable)] else old(space)
      ensures !ok <==> vp in old(space) || (old(kernelPool) == [] && old(pd)[vp / 1024] == 0)
      ensures !ok ==> pd == old(pd) && tables == old(tables) && kernelPool == old(kernelPool)
    {
      var mapped, _ := GetPage(vp);
      if mapped {
        return false;
      }
      ok := SetPage(vp, frame, writable);
    }

    // A frame from the user pool, with the given contents.
    method TakeFrame(content: seq<Byte>) returns (frame: nat)
      requires Valid() && userPool != []
      modifies this`mem, this`userPool
      ensures Valid() && frame == old(userPool)[0] && frame !in old(mem)
      ensures mem == old(mem)[frame := content] && userPool == old(userPool)[1..]
      ensures forall q :: q in space ==> q < USER_PAGES && Frame(Pte(pd, tables, q)) != frame
    {
      frame := userPool[0];
      assert frame in userPool;
      userPool := userPool[1..];
      mem := mem[frame := content];
    }

    /** One page of load_segment(): a frame is filled and installed; on failure
        it goes back to the pool and nothing has changed. */
    method LoadPage(vp: nat, content: seq<Byte>, writable: bool) returns (ok: bool)
      requires Valid() && vp < USER_PAGES && |content| == 4096
      modifies this
      ensures Valid()
      ensures space == if ok then old(space)[vp := UserPage(content, writable)] else old(space)
      ensures !ok <==> old(userPool) == [] || vp in old(space) || (old(kernelPool) == [] && old(pd)[vp / 1024] == 0)
      ensures !ok ==> userPool == old(userPool) && kernelPool == old(kernelPool) && mem == old(mem)
    {
      if userPool == [] {
        return false;
      }
      var frame := TakeFrame(content);
      ok := InstallPage(vp, frame, writable);
      if !ok {
        userPool := [frame] + userPool;
        mem := mem - {frame};
        assert userPool == old(userPool) && mem == old(mem);
      }
    }

    /** pagedir_clear_page(): the page is gone, and every other as it was. */
    method ClearPage(vp: nat)
      requires Valid() && vp < USER_PAGES
      modifies this`tables, this`space
      ensures Valid() && space == old(space) - {vp}
    {
      var mapped, _ := GetPage(vp);
      if mapped {
        assert Present(Pte(pd, tables, vp));
        var t := Frame(pd[vp / 1024]);
        var pte := tables[t][vp % 1024];
        SetEntry(pd, tables, vp, pte - 1);
        tables := WithEntry(tables, t, vp % 1024, pte - 1);
        space := space - {vp};
      }
    }

    // ---------- pagedir_destroy() ----------

    // Frees the pages of one page table.
    method FreePages(i: nat, ghost frames: map<nat, nat>, ghost mem0: map<nat, seq<Byte>>, ghost pool0: seq<nat>)
      requires i < 768 && Intact(pd, tables, frames, i) && pd[i] != 0 && Injective(frames, mem0)
      requires FreedBelow(frames, mem, userPool, mem0, pool0, 1024 * i)
      modifies this`mem, this`userPool
      ensures FreedBelow(frames, mem, userPool, mem0, pool0, 1024 * (i + 1))
    {
      var t := Frame(pd[i]);
      for j := 0 to 1024
        invariant FreedBelow(frames, mem, userPool, mem0, pool0, 1024 * i + j)
      {
        ghost var vp := 1024 * i + j;
        SlotEntry(pd, tables, frames, i, j, vp);
        FreePage(tables[t][j], frames, mem0, pool0, vp);
      }
    }

    method FreePage(pte: nat, ghost frames: map<nat, nat>, ghost mem0: map<nat, seq<Byte>>, ghost pool0: seq<nat>,
                    ghost vp: nat)
      requires Injective(frames, mem0) && FreedBelow(frames, mem, userPool, mem0, pool0, vp)
      requires (Present(pte) <==> vp in frames) && (vp in frames ==> Frame(pte) == frames[vp])
      modifies this`mem, this`userPool
      ensures FreedBelow(frames, mem, userPool, mem0, pool0, vp + 1)
    {
      if Present(pte) {
        FreedOne(frames, mem, userPool, mem0, pool0, vp);
        mem := mem - {Frame(pte)};
        userPool := [Frame(pte)] + userPool;
      } else {
        FreedSkip(frames, mem, userPool, mem0, pool0, vp, vp + 1);
      }
    }

    // One slot of the directory: its pages, then its table.
    method FreeSlot(i: nat, ghost frames: map<nat, nat>, ghost dirs: map<nat, nat>, ghost mem0: map<nat, seq<Byte>>,
                    ghost pool0: seq<nat>, ghost tables0: map<nat, Entries>, ghost kpool0: seq<nat>)
      requires i < 768 && Intact(pd, tables, frames, i) && Injective(frames, mem0) && Injective(dirs, tables0)
      requires (i in dirs <==> pd[i] != 0) && (i in dirs ==> dirs[i] == Frame(pd[i]))
      requires FreedBelow(frames, mem, userPool, mem0, pool0, 1024 * i)
      requires FreedBelow(dirs, tables, kernelPool, tables0, kpool0, i)
      modifies this`mem, this`userPool, this`tables, this`kernelPool
      ensures Intact(pd, tables, frames, i + 1)
      ensures FreedBelow(frames, mem, userPool, mem0, pool0, 1024 * (i + 1))
      ensures FreedBelow(dirs, tables, kernelPool, tables0, kpool0, i + 1)
    {
      IntactNext(pd, tables, frames, i);
      EmptySlot(pd, tables, i);
      if Present(pd[i]) {
        FreePages(i, frames, mem0, pool0);
        var t := Frame(pd[i]);
        FreedOne(dirs, tables, kernelPool, tables0, kpool0, i);
        tables := tables - {t};
        kernelPool := [t] + kernelPool;
      } else {
        FreedSkip(frames, mem, userPool, mem0, pool0, 1024 * i, 1024 * (i + 1));
        FreedSkip(dirs, tables, kernelPool, tables0, kpool0, i, i + 1);
      }
    }

    /** pagedir_destroy(): every user page, every page table and the directory's
        own page goes back to its pool, once, and nothing else does. */
    method Destroy()
      requires Valid()
      modifies this`mem, this`userPool, this`tables, this`kernelPool
      ensures PoolOk(userPool, mem) && PoolOk(kernelPool, tables)
      ensures Returned(old(userPool), userPool, old(Frames(pd, tables, space)))
      ensures Returned(old(kernelPool), kernelPool, Dirs(pd)[1024 := pdPage])
    {
      ghost var dirs, kpool0 := Dirs(pd), kernelPool;
      FreeAll();
      ReturnedOne(kpool0, kernelPool, dirs, pdPage);
      kernelPool := [pdPage] + kernelPool;
    }

    method FreeAll()
      requires Valid()
      modifies this`mem, this`userPool, this`tables, this`kernelPool
      ensures PoolOk(userPool, mem) && PoolOk(kernelPool, tables) && pdPage !in kernelPool && pdPage !in tables
      ensures Returned(old(userPool), userPool, old(Frames(pd, tables, space)))
      ensures Returned(old(kernelPool), kernelPool, Dirs(pd))
    {
      ghost var frames, dirs := Frames(pd, tables, space), Dirs(pd);
      ghost var mem0, pool0, tables0, kpool0 := mem, userPool, tables, kernelPool;
      AllThere(pd, tables, mem, space);
      NoneFreed(frames, mem, userPool);
      NoneFreed(dirs, tables, kernelPool);
      for i := 0 to 768
        invariant Intact(pd, tables, frames, i)
        invariant FreedBelow(frames, mem, userPool, mem0, pool0, 1024 * i)
        invariant FreedBelow(dirs, tables, kernelPool, tables0, kpool0, i)
      {
        FreeSlot(i, frames, dirs, mem0, pool0, tables0, kpool0);
      }
      AllFreed(frames, mem, userPool, mem0, pool0, USER_PAGES);
      AllFreed(dirs, tables, kernelPool, tables0, kpool0, 768);
    }
  }

  lemma ReturnedOne(pool: seq<nat>, pool': seq<nat>, frames: map<nat, nat>, page: nat)
    requires Returned(pool, pool', frames) && page !in pool' && 1024 !in frames
    ensures Returned(pool, [page] + pool', frames[1024 := page])
  {
    var frames' := frames[1024 := page];
    forall f ensures f in [page] + pool' <==> f in pool || exists p :: p in frames' && frames'[p] == f {
      if p :| p in frames && frames[p] == f { assert p in frames' && frames'[p] == f; }
      assert 1024 in frames' && frames'[1024] == page;
    }
  }

  // The frame of each user page, and of each page table.
  ghost function Frames(pd: Entries, tables: map<nat, Entries>, space: map<nat, UserPage>): map<nat, nat>
    requires |pd| == 1024
  {
    map vp | vp in space && vp < USER_PAGES :: Frame(Pte(pd, tables, vp))
  }

  ghost function Dirs(pd: Entries): map<nat, nat>
    requires |pd| == 1024
  {
    map i: nat | i < 768 && pd[i] != 0 :: Frame(pd[i])
  }

  // The pool has gained exactly the given frames.
  ghost predicate Returned(pool: seq<nat>, pool': seq<nat>, frames: map<nat, nat>) {
    NoDup(pool') && forall f :: f in pool' <==> f in pool || exists p :: p in frames && frames[p] == f
  }

  lemma AllThere(pd: Entries, tables: map<nat, Entries>, mem: map<nat, seq<Byte>>, space: map<nat, UserPage>)
    requires TablesOk(pd, tables) && Shows(pd, tables, mem, space) && OwnFrames(pd, tables, space)
    ensures Intact(pd, tables, Frames(pd, tables, space), 0)
    ensures Injective(Frames(pd, tables, space), mem) && Injective(Dirs(pd), tables)
  {
    var frames := Frames(pd, tables, space);
    forall p, q | p in frames && q in frames && frames[p] == frames[q] ensures p == q {
      assert Frame(Pte(pd, tables, p)) == Frame(Pte(pd, tables, q));
    }
    forall p | p in frames ensures frames[p] in mem { assert Present(Pte(pd, tables, p)); }
  }

  lemma NoneFreed<V>(frames: map<nat, nat>, used: map<nat, V>, pool: seq<nat>)
    requires PoolOk(pool, used)
    ensures FreedBelow(frames, used, pool, used, pool, 0)
  {}

  lemma AllFreed<V>(frames: map<nat, nat>, used: map<nat, V>, pool: seq<nat>, used0: map<nat, V>, pool0: seq<nat>,
                    n: nat)
    requires FreedBelow(frames, used, pool, used0, pool0, n) && forall p :: p in frames ==> p < n
    ensures Returned(pool0, pool, frames)
  {
    forall f ensures f in pool <==> f in pool0 || exists p :: p in frames && frames[p] == f {
      assert Gone(frames, n, f) <==> exists p :: p in frames && frames[p] == f;
    }
  }

  lemma EmptySlot(pd: Entries, tables: map<nat, Entries>, i: nat)
    requires i < 768 && TablesFrom(pd, tables, i)
    ensures Present(pd[i]) <==> pd[i] != 0
  {}
}
