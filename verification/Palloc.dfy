/** threads/palloc.c: pools of pages, each with a bitmap of used pages. */
module Palloc {
  import opened Bitmap

  const KERNEL_BASE := 0xC000_0000 // ptov() adds it
  const NULL := 0

  function PageNo(addr: nat): nat { addr / 4096 }

  class Pool {
    const base: nat
    const usedMap: BitArray

    ghost predicate Valid()
      reads usedMap
    {
      usedMap.Valid() && base % 4096 == 0 && base > 0
    }

    ghost function Used(): seq<bool>
      requires Valid()
      reads usedMap, usedMap.bits
    {
      usedMap.View()
    }

    predicate FromPool(page: nat)
    {
      PageNo(base) <= PageNo(page) < PageNo(base) + usedMap.bitCnt
    }

    // init_pool(), past the test that there is room for the bitmap.
    constructor (start: nat, pageCnt: nat, bmPages: nat)
      requires start % 4096 == 0 && start > 0 && bmPages <= pageCnt
      ensures Valid() && fresh(usedMap) && fresh(usedMap.bits)
      ensures base == start + bmPages * 4096 && usedMap.bitCnt == pageCnt - bmPages
      ensures Used() == seq(pageCnt - bmPages, _ => false)
    {
      usedMap := new BitArray(pageCnt - bmPages);
      base := start + bmPages * 4096;
    }

    /** palloc_get_multiple(): the lowest run of pageCnt free pages becomes
        used, or nothing changes and the result is NULL exactly when there is no
        such run (or no page was asked for). */
    method GetMultiple(pageCnt: nat) returns (pages: nat)
      requires Valid()
      modifies usedMap.bits
      ensures pages == NULL <==> pageCnt == 0 || forall i :: !RunAt(old(Used()), i, pageCnt, false)
      ensures pages == NULL ==> Used() == old(Used())
      ensures pages != NULL ==> pages % 4096 == 0 && FromPool(pages)
      ensures pages != NULL ==> var i := PageNo(pages) - PageNo(base);
                                RunAt(old(Used()), i, pageCnt, false) && Used() == Filled(old(Used()), i, pageCnt, true)
      ensures pages != NULL ==> forall j :: 0 <= j < PageNo(pages) - PageNo(base) ==>
                !RunAt(old(Used()), j, pageCnt, false)
    {
      if pageCnt == 0 {
        return NULL;
      }
      FirstFitLowest(Used(), 0, pageCnt, false);
      var pageIdx := usedMap.ScanAndFlip(0, pageCnt, false);
      pages := if pageIdx.Some? then base + 4096 * pageIdx.value else NULL;
      if pageIdx.Some? {
        assert PageNo(pages) - PageNo(base) == pageIdx.value;
      }
    }

    /** palloc_free_multiple(), once the pool is known: the kernel asserts that
        every one of the pages is in use. */
    method FreeMultiple(pages: nat, pageCnt: nat)
      requires Valid() && pages % 4096 == 0
      requires pages != NULL && pageCnt > 0 ==>
                 FromPool(pages) && RunAt(Used(), PageNo(pages) - PageNo(base), pageCnt, true)
      modifies usedMap.bits
      ensures Used() == if pages == NULL || pageCnt == 0 then old(Used())
                        else Filled(old(Used()), PageNo(pages) - PageNo(base), pageCnt, false)
    {
      if pages == NULL || pageCnt == 0 {
        return;
      }
      usedMap.SetMultiple(PageNo(pages) - PageNo(base), pageCnt, false);
    }

    /** Giving back what was just handed out restores the pool. */
    method GetThenFree(pageCnt: nat)
      requires Valid()
      modifies usedMap.bits
      ensures Used() == old(Used())
    {
      ghost var before := Used();
      var pages := GetMultiple(pageCnt);
      if pages != NULL {
        FillUndone(before, PageNo(pages) - PageNo(base), pageCnt, false);
        FreeMultiple(pages, pageCnt);
      }
    }
  }

  // ---------- palloc_init() ----------

  // bitmap_buf_size(): the header is two words, the bits whole words.
  function BitmapBufSize(bitCnt: nat): nat { 8 + 4 * ((bitCnt + 31) / 32) }

  function BitmapPages(pageCnt: nat): nat { (BitmapBufSize(pageCnt) + 4095) / 4096 }

  /** As few pages as hold two words and one bit for each page. */
  lemma BitmapPagesExact(pageCnt: nat)
    ensures 8 * (4096 * BitmapPages(pageCnt) - 8) >= pageCnt
    ensures 8 * (4096 * (BitmapPages(pageCnt) - 1) - 8) < pageCnt + 32
  {}

  /** Either start-up panics, or every page of free memory has a use: it holds
      one of the two bitmaps, or it belongs to exactly one pool. */
  method Init(ramPages: nat, userPageLimit: nat) returns (kernelPool: Pool?, userPool: Pool?)
    requires 256 <= ramPages <= 0x4_0000
    ensures var free, user := ramPages - 256, UserPages(ramPages - 256, userPageLimit);
            && (kernelPool != null <==> userPool != null)
            && (userPool != null <==> BitmapPages(free - user) <= free - user && BitmapPages(user) <= user)
            && user <= userPageLimit && 2 * user <= free && (user < userPageLimit ==> free < 2 * user + 2)
            && (kernelPool != null && userPool != null ==>
                  && kernelPool.base == 0xC010_0000 + 4096 * BitmapPages(free - user)
                  && userPool.base == 0xC010_0000 + 4096 * (free - user + BitmapPages(user))
                  && Apart(kernelPool, userPool)
                  && kernelPool.usedMap.bitCnt + BitmapPages(free - user)
                     + userPool.usedMap.bitCnt + BitmapPages(user) == free)
  {
    var freePages := ramPages - 256;
    var userPages := UserPages(freePages, userPageLimit);
    var kernelPages := freePages - userPages;
    if BitmapPages(kernelPages) > kernelPages || BitmapPages(userPages) > userPages {
      return null, null;
    }
    kernelPool, userPool := MakePools(kernelPages, userPages, BitmapPages(kernelPages), BitmapPages(userPages));
  }

  // No page belongs to both pools.
  ghost predicate Apart(k: Pool, u: Pool)
    reads k.usedMap, u.usedMap
  {
    && k.Valid() && u.Valid() && k.usedMap != u.usedMap
    && forall page: nat {:trigger k.FromPool(page)} {:trigger u.FromPool(page)} ::
      !(k.FromPool(page) && u.FromPool(page))
  }

  method MakePools(kernelPages: nat, userPages: nat, kernelMap: nat, userMap: nat) returns (k: Pool, u: Pool)
    requires kernelMap <= kernelPages && userMap <= userPages
    ensures Apart(k, u)
    ensures k.base == 0xC010_0000 + 4096 * kernelMap && u.base == 0xC010_0000 + 4096 * (kernelPages + userMap)
    ensures k.usedMap.bitCnt == kernelPages - kernelMap && u.usedMap.bitCnt == userPages - userMap
  {
    var freeStart := KERNEL_BASE + 1024 * 1024;
    k := new Pool(freeStart, kernelPages, kernelMap);
    PageOf(freeStart, kernelPages);
    u := new Pool(freeStart + kernelPages * 4096, userPages, userMap);
    PageOf(freeStart, kernelMap);
    PageOf(freeStart + kernelPages * 4096, userMap);
  }

  function UserPages(freePages: nat, limit: nat): nat {
    if freePages / 2 > limit then limit else freePages / 2
  }

  lemma PageOf(start: nat, n: nat)
    requires start % 4096 == 0
    ensures PageNo(start + n * 4096) == PageNo(start) + n && (start + n * 4096) % 4096 == 0
  {}
}
