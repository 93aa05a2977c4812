/** threads/malloc.c: small requests are served from one-page arenas cut into
    equal blocks, big ones by runs of pages. What every call keeps is stated
    here over the allocator's data; the calls themselves are in MallocHeap. */
module Malloc {
  import opened Bitmap
  import opened Numbers
  import opened Sequences

  const HEADER := 12 // sizeof (struct arena)

  // The block size of descriptor d: malloc_init() makes seven of them.
  function Size(d: nat): (bs: nat)
    ensures bs >= 16
  {
    if d == 0 then 16 else 2 * Size(d - 1)
  }

  // An arena's header: the descriptor's index, or BIG.
  const BIG := 7
  datatype Arena = Arena(desc: nat, freeCnt: nat)

  // Pages are named by page number, pg_no() of their address.
  function Page(b: nat): nat { b / 4096 }

  function BlocksPerArena(bs: nat): nat
    requires bs > 0
  {
    4084 / bs
  }

  /** arena_to_block() */
  function ArenaToBlock(n: nat, i: nat, bs: nat): nat { 4096 * n + HEADER + i * bs }

  // ---------- Address arithmetic ----------

  lemma NextBlock(i: nat, j: nat, bs: nat)
    requires i < j
    ensures i * bs + bs <= j * bs
  {
    MulMono(i + 1, j, bs);
    assert (i + 1) * bs == i * bs + bs;
  }

  lemma BlocksFit(i: nat, bs: nat)
    requires bs > 0 && i < BlocksPerArena(bs)
    ensures i * bs + bs <= 4084
  {
    NextBlock(i, BlocksPerArena(bs), bs);
    QuotientBounds(4084, bs);
  }

  /** An arena is a page with a header of twelve bytes and as many blocks as there
      is room for after it. */
  lemma ArenaFull(d: nat)
    ensures 12 + BlocksPerArena(Size(d)) * Size(d) <= 4096 < 12 + (BlocksPerArena(Size(d)) + 1) * Size(d)
    ensures forall n: nat, i: nat :: ArenaToBlock(n, i, Size(d)) == 4096 * n + 12 + i * Size(d)
  {
    QuotientBounds(4084, Size(d));
    var k, bs := BlocksPerArena(Size(d)), Size(d);
    assert (k + 1) * bs == k * bs + bs;
  }

  /** block_to_arena() undoes arena_to_block(), and its alignment assertion
      holds: the block lies in the arena's page, after the header. */
  lemma BlockInArena(n: nat, i: nat, bs: nat)
    requires bs > 0 && i < BlocksPerArena(bs)
    ensures var b := ArenaToBlock(n, i, bs);
            Page(b) == n && b % 4096 >= HEADER && (b % 4096 - HEADER) % bs == 0 && b % 4096 + bs <= 4096
            && (b % 4096 - HEADER) / bs == i
  {
    BlocksFit(i, bs);
    var b := ArenaToBlock(n, i, bs);
    assert b % 4096 == HEADER + i * bs;
    RemainderOfProduct(i, bs);
  }

  predicate IsBlock(n: nat, bs: nat, b: nat)
    requires bs > 0
  {
    exists i :: 0 <= i < BlocksPerArena(bs) && b == ArenaToBlock(n, i, bs)
  }

  /** Conversely, an address that passes block_to_arena()'s assertion and is
      followed by room for a block is one of the arena's blocks. */
  lemma AlignedIsBlock(b: nat, bs: nat)
    requires bs > 0 && b % 4096 >= HEADER && (b % 4096 - HEADER) % bs == 0 && b % 4096 + bs <= 4096
    ensures IsBlock(Page(b), bs, b)
  {
    var i := (b % 4096 - HEADER) / bs;
    QuotientBounds(b % 4096 - HEADER, bs);
    assert b == ArenaToBlock(Page(b), i, bs);
    assert i < BlocksPerArena(bs) by {
      QuotientShift(b % 4096 - HEADER, 1, bs);
      QuotientMono(b % 4096 - HEADER + 1 * bs, 4084, bs);
    }
  }

  /** Two blocks of one arena are the same or do not overlap. */
  lemma BlocksApart(n: nat, bs: nat, b: nat, c: nat)
    requires bs > 0 && IsBlock(n, bs, b) && IsBlock(n, bs, c)
    ensures b == c || b + bs <= c || c + bs <= b
  {
    var i :| 0 <= i < BlocksPerArena(bs) && b == ArenaToBlock(n, i, bs);
    var j :| 0 <= j < BlocksPerArena(bs) && c == ArenaToBlock(n, j, bs);
    if i < j { NextBlock(i, j, bs); }
    if j < i { NextBlock(j, i, bs); }
  }

  lemma IsBlockFacts(n: nat, bs: nat, b: nat)
    requires bs > 0 && IsBlock(n, bs, b)
    ensures Page(b) == n && b % 4096 >= HEADER && (b % 4096 - HEADER) % bs == 0 && b % 4096 + bs <= 4096
  {
    var i :| 0 <= i < BlocksPerArena(bs) && b == ArenaToBlock(n, i, bs);
    BlockInArena(n, i, bs);
  }

  lemma InPage(n: nat, bs: nat, b: nat)
    requires bs > 0 && IsBlock(n, bs, b)
    ensures 4096 * n + HEADER <= b && b + bs <= 4096 * n + 4096 && Page(b) == n
  {
    IsBlockFacts(n, bs, b);
  }

  lemma SameIndex(n: nat, bs: nat, i: nat, j: nat)
    requires bs > 0 && i < BlocksPerArena(bs) && j < BlocksPerArena(bs)
    ensures ArenaToBlock(n, i, bs) == ArenaToBlock(n, j, bs) <==> i == j
  {
    if i < j { NextBlock(i, j, bs); }
    if j < i { NextBlock(j, i, bs); }
  }

  // ---------- Counting an arena's free blocks ----------

  ghost function FreeCount(n: nat, bs: nat, free: seq<nat>, k: nat): (c: nat)
    ensures c <= k
  {
    if k == 0 then 0 else FreeCount(n, bs, free, k - 1) + if ArenaToBlock(n, k - 1, bs) in free then 1 else 0
  }

  lemma {:induction false} CountSame(n: nat, bs: nat, s: seq<nat>, t: seq<nat>, k: nat)
    requires forall i :: 0 <= i < k ==> (ArenaToBlock(n, i, bs) in s <==> ArenaToBlock(n, i, bs) in t)
    ensures FreeCount(n, bs, s, k) == FreeCount(n, bs, t, k)
  {
    if k > 0 { CountSame(n, bs, s, t, k - 1); }
  }

  lemma {:induction false} CountOneMore(n: nat, bs: nat, s: seq<nat>, t: seq<nat>, k: nat, j: nat)
    requires j < k && ArenaToBlock(n, j, bs) !in s && ArenaToBlock(n, j, bs) in t
    requires forall i :: 0 <= i < k && i != j ==> (ArenaToBlock(n, i, bs) in s <==> ArenaToBlock(n, i, bs) in t)
    ensures FreeCount(n, bs, t, k) == FreeCount(n, bs, s, k) + 1
  {
    if j == k - 1 {
      CountSame(n, bs, s, t, k - 1);
    } else {
      CountOneMore(n, bs, s, t, k - 1, j);
    }
  }

  // All k blocks are free exactly when the count says so.
  lemma {:induction false} CountAll(n: nat, bs: nat, free: seq<nat>, k: nat)
    ensures FreeCount(n, bs, free, k) == k <==> forall i :: 0 <= i < k ==> ArenaToBlock(n, i, bs) in free
  {
    if k > 0 {
      CountAll(n, bs, free, k - 1);
      assert ArenaToBlock(n, k - 1, bs) in free || FreeCount(n, bs, free, k) < k;
    }
  }

  // ---------- What holds between calls ----------

  function Span(a: Arena): nat { if a.desc == BIG then a.freeCnt else 1 }

  // Page m is one of arena n's pages.
  predicate Spans(arenas: map<nat, Arena>, n: nat, m: int) {
    n in arenas && n <= m < n + Span(arenas[n])
  }

  // The pool's pages start at page number n0. Each is free, or someone else's,
  // or in exactly one arena.
  ghost predicate PagesOk(arenas: map<nat, Arena>, used: seq<bool>, n0: nat, others: set<nat>) {
    && (forall n :: n in arenas ==>
        n0 <= n && arenas[n].desc <= BIG && 0 < Span(arenas[n]) && n + Span(arenas[n]) <= n0 + |used|)
    && (forall n, n', m :: Spans(arenas, n, m) && Spans(arenas, n', m) ==> n == n')
    && (forall n, m :: Spans(arenas, n, m) ==> m !in others && n0 <= m < n0 + |used| && used[m - n0])
    && (forall m :: m in others ==> n0 <= m < n0 + |used| && used[m - n0])
    && (forall m :: n0 <= m < n0 + |used| && used[m - n0] ==> m in others || exists n :: Spans(arenas, n, m))
  }

  // A small arena n of descriptor d, with block size bs. Its blocks are its own
  // list's or its callers', never both and never neither. Its count is the
  // number of them on the list, and only the arena `full`, inside a call, has
  // them all there.
  ghost predicate SmallOk(d: nat, bs: nat, cnt: nat, free: seq<seq<nat>>, live: map<nat, nat>, n: nat, full: int)
    requires |free| == 7 && d < 7 && bs > 0
  {
    && (forall e, b :: 0 <= e < 7 && b in free[e] && Page(b) == n ==> e == d && IsBlock(n, bs, b))
    && (forall b :: b in live && Page(b) == n ==> IsBlock(n, bs, b) && b !in free[d] && live[b] == bs)
    && (forall b :: IsBlock(n, bs, b) ==> b in free[d] || b in live)
    && cnt == FreeCount(n, bs, free[d], BlocksPerArena(bs))
    && (cnt < BlocksPerArena(bs) || n == full)
  }

  // An arena n that is one big block of cnt pages is in use.
  ghost predicate BigOk(cnt: nat, free: seq<seq<nat>>, live: map<nat, nat>, n: nat)
    requires |free| == 7
  {
    && Untouched(free, n)
    && (forall b :: b in live && Page(b) == n ==> b == 4096 * n + HEADER)
    && 4096 * n + HEADER in live && live[4096 * n + HEADER] == 4096 * cnt - HEADER
  }

  // No block in page n is on a free list.
  ghost predicate Untouched(free: seq<seq<nat>>, n: nat)
    requires |free| == 7
  {
    forall e, b :: 0 <= e < 7 && b in free[e] ==> Page(b) != n
  }

  ghost predicate ArenaOk(arenas: map<nat, Arena>, free: seq<seq<nat>>, live: map<nat, nat>, n: nat, full: int)
    requires |free| == 7
  {
    if n !in arenas then Untouched(free, n) && forall b :: b in live ==> Page(b) != n
    else if arenas[n].desc < 7 then
      SmallOk(arenas[n].desc, Size(arenas[n].desc), arenas[n].freeCnt, free, live, n, full)
    else BigOk(arenas[n].freeCnt, free, live, n)
  }

  // live maps each block in use to the number of bytes its caller may use.
  ghost predicate Inv(arenas: map<nat, Arena>, used: seq<bool>, free: seq<seq<nat>>, live: map<nat, nat>,
                      n0: nat, others: set<nat>, full: int)
  {
    && PagesOk(arenas, used, n0, others)
    && |free| == 7
    && (forall d :: 0 <= d < 7 ==> NoDup(free[d]))
    && (forall n :: ArenaOk(arenas, free, live, n, full))
  }

  // ---------- What that means for callers ----------

  predicate Disjoint(b: nat, m: nat, c: nat, k: nat) { b + m <= c || c + k <= b }

  // Where a block in use lies.
  lemma LiveIn(arenas: map<nat, Arena>, used: seq<bool>, free: seq<seq<nat>>, live: map<nat, nat>,
               n0: nat, others: set<nat>, full: int, b: nat)
    requires Inv(arenas, used, free, live, n0, others, full) && b in live
    ensures Page(b) in arenas && live[b] > 0
    ensures 4096 * Page(b) + HEADER <= b && b + live[b] <= 4096 * (Page(b) + Span(arenas[Page(b)]))
  {
    var n := Page(b);
    assert ArenaOk(arenas, free, live, n, full);
    if n in arenas && arenas[n].desc < 7 {
      InPage(n, Size(arenas[n].desc), b);
    }
  }

  // Different arenas have different pages.
  lemma ArenasApart(arenas: map<nat, Arena>, used: seq<bool>, n0: nat, others: set<nat>, n: nat, m: nat)
    requires PagesOk(arenas, used, n0, others) && n in arenas && m in arenas && n < m
    ensures n + Span(arenas[n]) <= m
  {
    assert Spans(arenas, m, m);
    assert !Spans(arenas, n, m);
  }

  /** Blocks in use never overlap one another. */
  lemma LiveApart(arenas: map<nat, Arena>, used: seq<bool>, free: seq<seq<nat>>, live: map<nat, nat>,
                  n0: nat, others: set<nat>, full: int, b: nat, c: nat)
    requires Inv(arenas, used, free, live, n0, others, full) && b in live && c in live && b != c
    ensures Disjoint(b, live[b], c, live[c])
  {
    LiveIn(arenas, used, free, live, n0, others, full, b);
    LiveIn(arenas, used, free, live, n0, others, full, c);
    if Page(b) < Page(c) {
      ArenasApart(arenas, used, n0, others, Page(b), Page(c));
    } else if Page(c) < Page(b) {
      ArenasApart(arenas, used, n0, others, Page(c), Page(b));
    } else {
      assert ArenaOk(arenas, free, live, Page(b), full);
      if arenas[Page(b)].desc < 7 { BlocksApart(Page(b), live[b], b, c); }
    }
  }

  /** A block in use overlaps no arena's header. */
  lemma LiveOffHeaders(arenas: map<nat, Arena>, used: seq<bool>, free: seq<seq<nat>>, live: map<nat, nat>,
                       n0: nat, others: set<nat>, full: int, b: nat, n: nat)
    requires Inv(arenas, used, free, live, n0, others, full) && b in live && n in arenas
    ensures Disjoint(b, live[b], 4096 * n, HEADER)
  {
    LiveIn(arenas, used, free, live, n0, others, full, b);
    if Page(b) < n { ArenasApart(arenas, used, n0, others, Page(b), n); }
  }

  /** A block in use overlaps no block on a free list. */
  lemma LiveOffFree(arenas: map<nat, Arena>, used: seq<bool>, free: seq<seq<nat>>, live: map<nat, nat>,
                    n0: nat, others: set<nat>, full: int, b: nat, d: nat, c: nat)
    requires Inv(arenas, used, free, live, n0, others, full) && b in live && d < 7 && c in free[d]
    ensures Disjoint(b, live[b], c, Size(d))
  {
    LiveIn(arenas, used, free, live, n0, others, full, b);
    FreeIn(arenas, free, live, full, d, c);
    if Page(b) == Page(c) {
      assert ArenaOk(arenas, free, live, Page(b), full);
      BlocksApart(Page(b), Size(d), b, c);
    } else if Page(b) < Page(c) {
      ArenasApart(arenas, used, n0, others, Page(b), Page(c));
    } else {
      ArenasApart(arenas, used, n0, others, Page(c), Page(b));
    }
  }

  // Where a block on a free list lies.
  lemma FreeIn(arenas: map<nat, Arena>, free: seq<seq<nat>>, live: map<nat, nat>, full: int, d: nat, c: nat)
    requires |free| == 7 && d < 7 && c in free[d] && ArenaOk(arenas, free, live, Page(c), full)
    ensures Page(c) in arenas && arenas[Page(c)].desc == d && IsBlock(Page(c), Size(d), c)
    ensures 4096 * Page(c) + HEADER <= c && c + Size(d) <= 4096 * Page(c) + 4096
  {
    InPage(Page(c), Size(d), c);
  }

  /** Once nothing is in use every page is back in the pool. */
  lemma AllReturned(arenas: map<nat, Arena>, used: seq<bool>, free: seq<seq<nat>>, n0: nat, others: set<nat>)
    requires Inv(arenas, used, free, map[], n0, others, -1)
    ensures arenas == map[]
    ensures forall d :: 0 <= d < 7 ==> free[d] == []
    ensures forall m :: n0 <= m < n0 + |used| ==> (used[m - n0] <==> m in others)
  {
    forall n | n in arenas ensures false {
      assert ArenaOk(arenas, free, map[], n, -1);
      SomeLive(arenas, free, map[], n);
    }
    forall d | 0 <= d < 7 ensures free[d] == [] {
      if free[d] != [] {
        assert ArenaOk(arenas, free, map[], Page(free[d][0]), -1);
        FreeIn(arenas, free, map[], -1, d, free[d][0]);
      }
    }
  }

  // Each arena has a block in use.
  lemma SomeLive(arenas: map<nat, Arena>, free: seq<seq<nat>>, live: map<nat, nat>, n: nat)
    requires |free| == 7 && n in arenas && ArenaOk(arenas, free, live, n, -1)
    ensures exists b :: b in live
  {
    if arenas[n].desc < 7 {
      var d := arenas[n].desc;
      var bs := Size(d);
      CountAll(n, bs, free[d], BlocksPerArena(bs));
      var i :| 0 <= i < BlocksPerArena(bs) && ArenaToBlock(n, i, bs) !in free[d];
      assert IsBlock(n, bs, ArenaToBlock(n, i, bs));
      assert ArenaToBlock(n, i, bs) in live;
    } else {
      assert 4096 * n + HEADER in live;
    }
  }

  // ---------- The steps of the calls ----------

  // Pages change hands.

  lemma PagesTaken(arenas: map<nat, Arena>, used: seq<bool>, n0: nat, others: set<nat>, n: nat, a: Arena)
    requires PagesOk(arenas, used, n0, others)
    requires n0 <= n && a.desc <= BIG && Span(a) > 0 && RunAt(used, n - n0, Span(a), false)
    ensures n !in arenas
    ensures PagesOk(arenas[n := a], Filled(used, n - n0, Span(a), true), n0, others)
  {
    var arenas', used' := arenas[n := a], Filled(used, n - n0, Span(a), true);
    assert !Spans(arenas, n, n);
    forall k, m ensures Spans(arenas', k, m) == if k == n then n <= m < n + Span(a) else Spans(arenas, k, m) {}
    forall k, m | Spans(arenas, k, m) ensures !(n <= m < n + Span(a)) {}
    forall m | n0 <= m < n0 + |used| && used'[m - n0]
      ensures m in others || exists k :: Spans(arenas', k, m)
    {
      if n <= m < n + Span(a) {
        assert Spans(arenas', n, m);
      } else if m !in others {
        assert used[m - n0];
        var k :| Spans(arenas, k, m);
        assert Spans(arenas', k, m);
      }
    }
  }

  lemma PagesGiven(arenas: map<nat, Arena>, used: seq<bool>, n0: nat, others: set<nat>, n: nat)
    requires PagesOk(arenas, used, n0, others) && n in arenas
    ensures RunAt(used, n - n0, Span(arenas[n]), true)
    ensures PagesOk(arenas - {n}, Filled(used, n - n0, Span(arenas[n]), false), n0, others)
  {
    var span := Span(arenas[n]);
    forall k | n - n0 <= k < n - n0 + span ensures used[k] { assert Spans(arenas, n, k + n0); }
    var arenas', used' := arenas - {n}, Filled(used, n - n0, span, false);
    forall k, m ensures Spans(arenas', k, m) == (k != n && Spans(arenas, k, m)) {}
    forall k, m | Spans(arenas', k, m) ensures m !in others && n0 <= m < n0 + |used| && used'[m - n0] {
      assert !Spans(arenas, n, m);
    }
    forall m | m in others ensures used'[m - n0] { assert !Spans(arenas, n, m); }
    forall m | n0 <= m < n0 + |used| && used'[m - n0]
      ensures m in others || exists k :: Spans(arenas', k, m)
    {
      assert used[m - n0] && !Spans(arenas, n, m);
      if m !in others {
        var k :| Spans(arenas, k, m);
        assert Spans(arenas', k, m);
      }
    }
  }

  lemma PagesSame(arenas: map<nat, Arena>, used: seq<bool>, n0: nat, others: set<nat>, n: nat, c: nat)
    requires PagesOk(arenas, used, n0, others) && n in arenas && arenas[n].desc < 7
    ensures PagesOk(arenas[n := arenas[n].(freeCnt := c)], used, n0, others)
  {
    var arenas' := arenas[n := arenas[n].(freeCnt := c)];
    forall k, m ensures Spans(arenas', k, m) == Spans(arenas, k, m) {}
    forall m | n0 <= m < n0 + |used| && used[m - n0]
      ensures m in others || exists k :: Spans(arenas', k, m)
    {
      if m !in others {
        var k :| Spans(arenas, k, m);
        assert Spans(arenas', k, m);
      }
    }
  }

  // An empty free list is given all the blocks of a new arena.

  function Blocks(n: nat, bs: nat, k: nat): (s: seq<nat>)
    ensures |s| == k && forall i :: 0 <= i < k ==> s[i] == ArenaToBlock(n, i, bs)
  {
    if k == 0 then [] else Blocks(n, bs, k - 1) + [ArenaToBlock(n, k - 1, bs)]
  }

  lemma NewBlocks(n: nat, bs: nat)
    requires bs > 0
    ensures var k := BlocksPerArena(bs); var s := Blocks(n, bs, k);
            NoDup(s) && FreeCount(n, bs, s, k) == k && forall b :: b in s <==> IsBlock(n, bs, b)
  {
    var k := BlocksPerArena(bs);
    var s := Blocks(n, bs, k);
    forall i, j | 0 <= i < j < k ensures s[i] != s[j] { SameIndex(n, bs, i, j); }
    forall i | 0 <= i < k ensures ArenaToBlock(n, i, bs) in s { assert s[i] in s; }
    CountAll(n, bs, s, k);
  }

  // A step that changes only page n.
  ghost predicate SameAt(arenas: map<nat, Arena>, free: seq<seq<nat>>, live: map<nat, nat>,
                         arenas': map<nat, Arena>, free': seq<seq<nat>>, live': map<nat, nat>, k: nat)
    requires |free| == 7 && |free'| == 7
  {
    && (k in arenas' <==> k in arenas) && (k in arenas ==> arenas'[k] == arenas[k])
    && (forall d, b :: 0 <= d < 7 && Page(b) == k ==> (b in free'[d] <==> b in free[d]))
    && (forall b :: Page(b) == k ==> (b in live' <==> b in live) && (b in live ==> live'[b] == live[b]))
  }

  lemma ArenaSame(arenas: map<nat, Arena>, free: seq<seq<nat>>, live: map<nat, nat>, full: int,
                  arenas': map<nat, Arena>, free': seq<seq<nat>>, live': map<nat, nat>, full': int, k: nat)
    requires |free| == 7 && |free'| == 7 && SameAt(arenas, free, live, arenas', free', live', k)
    requires ArenaOk(arenas, free, live, k, full) && k != full
    ensures ArenaOk(arenas', free', live', k, full')
  {
    if k in arenas && arenas[k].desc < 7 {
      var d := arenas[k].desc;
      var bs := Size(d);
      forall b | IsBlock(k, bs, b) ensures Page(b) == k { InPage(k, bs, b); }
      forall i | 0 <= i < BlocksPerArena(bs)
        ensures ArenaToBlock(k, i, bs) in free[d] <==> ArenaToBlock(k, i, bs) in free'[d]
      {
        BlockInArena(k, i, bs);
      }
      CountSame(k, bs, free[d], free'[d], BlocksPerArena(bs));
    }
  }

  // The new arena, all of whose blocks are on the free list.
  lemma ArenaNew(arenas: map<nat, Arena>, free: seq<seq<nat>>, live: map<nat, nat>, d: nat, n: nat, k: nat)
    requires |free| == 7 && d < 7 && free[d] == [] && n !in arenas
    requires ArenaOk(arenas, free, live, k, -1)
    ensures var bs := Size(d); var cnt := BlocksPerArena(bs);
            ArenaOk(arenas[n := Arena(d, cnt)], free[d := Blocks(n, bs, cnt)], live, k, n)
  {
    var bs := Size(d);
    var cnt := BlocksPerArena(bs);
    var arenas', free' := arenas[n := Arena(d, cnt)], free[d := Blocks(n, bs, cnt)];
    NewBlocks(n, bs);
    forall b | IsBlock(n, bs, b) ensures Page(b) == n { InPage(n, bs, b); }
    if k != n {
      ArenaSame(arenas, free, live, -1, arenas', free', live, n, k);
    }
  }

  // The first block of list d goes to a caller.
  lemma ArenaPop(arenas: map<nat, Arena>, free: seq<seq<nat>>, live: map<nat, nat>, full: int, d: nat, b: nat, k: nat)
    requires |free| == 7 && d < 7 && free[d] != [] && b == free[d][0] && NoDup(free[d])
    requires ArenaOk(arenas, free, live, k, full) && ArenaOk(arenas, free, live, Page(b), full)
    requires full == -1 || full == Page(b)
    ensures Page(b) in arenas && arenas[Page(b)].desc == d && arenas[Page(b)].freeCnt > 0 && b !in live
    ensures var n := Page(b);
            ArenaOk(arenas[n := arenas[n].(freeCnt := arenas[n].freeCnt - 1)], free[d := free[d][1..]],
                    live[b := Size(d)], k, -1)
  {
    var n, bs := Page(b), Size(d);
    assert b in free[d];
    FreeIn(arenas, free, live, full, d, b);
    assert forall c :: c in free[d] <==> c == b || c in free[d][1..];
    assert b !in free[d][1..];
    PoppedCount(n, bs, free[d], free[d][1..], b);
    var arenas', free', live' := arenas[n := arenas[n].(freeCnt := arenas[n].freeCnt - 1)], free[d := free[d][1..]],
      live[b := bs];
    if k != n {
      ArenaSame(arenas, free, live, full, arenas', free', live', -1, k);
    }
  }

  lemma PoppedCount(n: nat, bs: nat, s: seq<nat>, t: seq<nat>, b: nat)
    requires bs > 0 && IsBlock(n, bs, b) && b in s && b !in t
    requires forall c :: c in s <==> c == b || c in t
    ensures FreeCount(n, bs, s, BlocksPerArena(bs)) == FreeCount(n, bs, t, BlocksPerArena(bs)) + 1
  {
    var j :| 0 <= j < BlocksPerArena(bs) && b == ArenaToBlock(n, j, bs);
    forall i | 0 <= i < BlocksPerArena(bs) && i != j
      ensures ArenaToBlock(n, i, bs) in t <==> ArenaToBlock(n, i, bs) in s
    {
      SameIndex(n, bs, i, j);
    }
    CountOneMore(n, bs, t, s, BlocksPerArena(bs), j);
  }

  // A caller gives block b back to the front of its list.
  lemma ArenaPush(arenas: map<nat, Arena>, free: seq<seq<nat>>, live: map<nat, nat>, b: nat, k: nat)
    requires |free| == 7 && b in live && Page(b) in arenas && arenas[Page(b)].desc < 7
    requires ArenaOk(arenas, free, live, k, -1) && ArenaOk(arenas, free, live, Page(b), -1)
    ensures var n := Page(b); var d := arenas[n].desc; var cnt := arenas[n].freeCnt + 1;
            && cnt <= BlocksPerArena(Size(d)) && b !in free[d]
            && ArenaOk(arenas[n := arenas[n].(freeCnt := cnt)], free[d := [b] + free[d]], live - {b}, k,
                       if cnt == BlocksPerArena(Size(d)) then n else -1)
  {
    var n := Page(b);
    var d := arenas[n].desc;
    PoppedCount(n, Size(d), [b] + free[d], free[d], b);
    var arenas', free', live' := arenas[n := arenas[n].(freeCnt := arenas[n].freeCnt + 1)], free[d := [b] + free[d]],
      live - {b};
    if k != n {
      ArenaSame(arenas, free, live, -1, arenas', free', live',
                if arenas[n].freeCnt + 1 == BlocksPerArena(Size(d)) then n else -1, k);
    }
  }

  // A full arena's blocks leave the list and its header goes.
  lemma ArenaDrop(arenas: map<nat, Arena>, free: seq<seq<nat>>, live: map<nat, nat>, n: nat, rest: seq<nat>, k: nat)
    requires |free| == 7 && n in arenas && arenas[n].desc < 7
    requires ArenaOk(arenas, free, live, k, n) && ArenaOk(arenas, free, live, n, n)
    requires arenas[n].freeCnt == BlocksPerArena(Size(arenas[n].desc))
    requires forall b :: b in rest <==> b in free[arenas[n].desc] && !IsBlock(n, Size(arenas[n].desc), b)
    ensures ArenaOk(arenas - {n}, free[arenas[n].desc := rest], live, k, -1)
  {
    var d := arenas[n].desc;
    var bs := Size(d);
    var arenas', free' := arenas - {n}, free[d := rest];
    forall b | IsBlock(n, bs, b) ensures Page(b) == n { InPage(n, bs, b); }
    if k != n {
      ArenaSame(arenas, free, live, n, arenas', free', live, -1, k);
    } else {
      CountAll(n, bs, free[d], BlocksPerArena(bs));
      forall b | IsBlock(n, bs, b) ensures b in free[d] {}
    }
  }

  // A big block is handed out, or given back.
  lemma ArenaBig(arenas: map<nat, Arena>, free: seq<seq<nat>>, live: map<nat, nat>, n: nat, cnt: nat, k: nat)
    requires |free| == 7 && n !in arenas && cnt > 0
    requires ArenaOk(arenas, free, live, k, -1) && ArenaOk(arenas, free, live, n, -1)
    ensures ArenaOk(arenas[n := Arena(BIG, cnt)], free, live[4096 * n + HEADER := 4096 * cnt - HEADER], k, -1)
  {
    if k != n {
      ArenaSame(arenas, free, live, -1, arenas[n := Arena(BIG, cnt)], free,
                live[4096 * n + HEADER := 4096 * cnt - HEADER], -1, k);
    }
  }

  lemma ArenaBigGone(arenas: map<nat, Arena>, free: seq<seq<nat>>, live: map<nat, nat>, b: nat, k: nat)
    requires |free| == 7 && b in live && Page(b) in arenas && arenas[Page(b)].desc == BIG
    requires ArenaOk(arenas, free, live, k, -1) && ArenaOk(arenas, free, live, Page(b), -1)
    ensures b == 4096 * Page(b) + HEADER
    ensures ArenaOk(arenas - {Page(b)}, free, live - {b}, k, -1)
  {
    if k != Page(b) {
      ArenaSame(arenas, free, live, -1, arenas - {Page(b)}, free, live - {b}, -1, k);
    }
  }

  // ---------- Each step keeps the invariant ----------

  lemma InvNew(arenas: map<nat, Arena>, used: seq<bool>, free: seq<seq<nat>>, live: map<nat, nat>,
               n0: nat, others: set<nat>, d: nat, n: nat)
    requires Inv(arenas, used, free, live, n0, others, -1) && d < 7 && free[d] == []
    requires n0 <= n && RunAt(used, n - n0, 1, false)
    ensures var bs := Size(d); var cnt := BlocksPerArena(bs);
            Inv(arenas[n := Arena(d, cnt)], Filled(used, n - n0, 1, true), free[d := Blocks(n, bs, cnt)], live, n0,
                others, n)
    ensures forall b :: b in Blocks(n, Size(d), BlocksPerArena(Size(d))) ==> Page(b) == n
  {
    var bs := Size(d);
    var cnt := BlocksPerArena(bs);
    PagesTaken(arenas, used, n0, others, n, Arena(d, cnt));
    NewBlocks(n, bs);
    forall b | b in Blocks(n, bs, cnt) ensures Page(b) == n { InPage(n, bs, b); }
    var arenas', free' := arenas[n := Arena(d, cnt)], free[d := Blocks(n, bs, cnt)];
    forall k: nat ensures ArenaOk(arenas', free', live, k, n) {
      ArenaNew(arenas, free, live, d, n, k);
    }
  }

  lemma InvPop(arenas: map<nat, Arena>, used: seq<bool>, free: seq<seq<nat>>, live: map<nat, nat>,
               n0: nat, others: set<nat>, full: int, d: nat, b: nat)
    requires Inv(arenas, used, free, live, n0, others, full) && d < 7 && free[d] != [] && b == free[d][0]
    requires full == -1 || full == Page(b)
    ensures Page(b) in arenas && arenas[Page(b)].desc == d && arenas[Page(b)].freeCnt > 0 && b !in live
    ensures b % 4096 >= HEADER && (b % 4096 - HEADER) % Size(d) == 0
    ensures var n := Page(b);
            Inv(arenas[n := arenas[n].(freeCnt := arenas[n].freeCnt - 1)], used, free[d := free[d][1..]],
                live[b := Size(d)], n0, others, -1)
  {
    var n := Page(b);
    assert b in free[d];
    assert ArenaOk(arenas, free, live, n, full);
    ArenaPop(arenas, free, live, full, d, b, n);
    IsBlockFacts(n, Size(d), b);
    PagesSame(arenas, used, n0, others, n, arenas[n].freeCnt - 1);
    var arenas', free', live' := arenas[n := arenas[n].(freeCnt := arenas[n].freeCnt - 1)], free[d := free[d][1..]],
      live[b := Size(d)];
    forall k: nat ensures ArenaOk(arenas', free', live', k, -1) {
      assert ArenaOk(arenas, free, live, k, full);
      ArenaPop(arenas, free, live, full, d, b, k);
    }
  }

  lemma InvPush(arenas: map<nat, Arena>, used: seq<bool>, free: seq<seq<nat>>, live: map<nat, nat>,
                n0: nat, others: set<nat>, b: nat)
    requires Inv(arenas, used, free, live, n0, others, -1) && b in live
    requires Page(b) in arenas && arenas[Page(b)].desc < 7
    ensures var n := Page(b); var d := arenas[n].desc; var cnt := arenas[n].freeCnt + 1;
            && cnt <= BlocksPerArena(Size(d))
            && Inv(arenas[n := arenas[n].(freeCnt := cnt)], used, free[d := [b] + free[d]], live - {b}, n0, others,
                   if cnt == BlocksPerArena(Size(d)) then n else -1)
  {
    var n := Page(b);
    var d := arenas[n].desc;
    var cnt := arenas[n].freeCnt + 1;
    assert ArenaOk(arenas, free, live, n, -1);
    ArenaPush(arenas, free, live, b, n);
    PagesSame(arenas, used, n0, others, n, cnt);
    var arenas', free', live' := arenas[n := arenas[n].(freeCnt := cnt)], free[d := [b] + free[d]], live - {b};
    var full := if cnt == BlocksPerArena(Size(d)) then n else -1;
    forall k: nat ensures ArenaOk(arenas', free', live', k, full) {
      assert ArenaOk(arenas, free, live, k, -1);
      ArenaPush(arenas, free, live, b, k);
    }
  }

  lemma InvDrop(arenas: map<nat, Arena>, used: seq<bool>, free: seq<seq<nat>>, live: map<nat, nat>,
                n0: nat, others: set<nat>, n: nat, rest: seq<nat>)
    requires Inv(arenas, used, free, live, n0, others, n) && n in arenas && arenas[n].desc < 7
    requires arenas[n].freeCnt == BlocksPerArena(Size(arenas[n].desc))
    requires NoDup(rest) && forall b :: b in rest <==> b in free[arenas[n].desc] && !IsBlock(n, Size(arenas[n].desc), b)
    ensures RunAt(used, n - n0, 1, true)
    ensures Inv(arenas - {n}, Filled(used, n - n0, 1, false), free[arenas[n].desc := rest], live, n0, others, -1)
  {
    PagesGiven(arenas, used, n0, others, n);
    var arenas', free' := arenas - {n}, free[arenas[n].desc := rest];
    forall k: nat ensures ArenaOk(arenas', free', live, k, -1) {
      assert ArenaOk(arenas, free, live, k, n) && ArenaOk(arenas, free, live, n, n);
      ArenaDrop(arenas, free, live, n, rest, k);
    }
  }

  lemma InvBig(arenas: map<nat, Arena>, used: seq<bool>, free: seq<seq<nat>>, live: map<nat, nat>,
               n0: nat, others: set<nat>, n: nat, cnt: nat)
    requires Inv(arenas, used, free, live, n0, others, -1) && n0 <= n && cnt > 0 && RunAt(used, n - n0, cnt, false)
    ensures 4096 * n + HEADER !in live
    ensures Inv(arenas[n := Arena(BIG, cnt)], Filled(used, n - n0, cnt, true), free,
                live[4096 * n + HEADER := 4096 * cnt - HEADER], n0, others, -1)
  {
    PagesTaken(arenas, used, n0, others, n, Arena(BIG, cnt));
    assert ArenaOk(arenas, free, live, n, -1);
    assert Page(4096 * n + HEADER) == n;
    var arenas', live' := arenas[n := Arena(BIG, cnt)], live[4096 * n + HEADER := 4096 * cnt - HEADER];
    forall k: nat ensures ArenaOk(arenas', free, live', k, -1) {
      assert ArenaOk(arenas, free, live, k, -1);
      ArenaBig(arenas, free, live, n, cnt, k);
    }
  }

  lemma InvBigGone(arenas: map<nat, Arena>, used: seq<bool>, free: seq<seq<nat>>, live: map<nat, nat>,
                   n0: nat, others: set<nat>, b: nat)
    requires Inv(arenas, used, free, live, n0, others, -1) && b in live
    requires Page(b) in arenas && arenas[Page(b)].desc == BIG
    ensures b == 4096 * Page(b) + HEADER
    ensures RunAt(used, Page(b) - n0, arenas[Page(b)].freeCnt, true)
    ensures Inv(arenas - {Page(b)}, Filled(used, Page(b) - n0, arenas[Page(b)].freeCnt, false), free, live - {b}, n0,
                others, -1)
  {
    var n := Page(b);
    PagesGiven(arenas, used, n0, others, n);
    assert ArenaOk(arenas, free, live, n, -1);
    var arenas', live' := arenas - {n}, live - {b};
    forall k: nat ensures ArenaOk(arenas', free, live', k, -1) {
      assert ArenaOk(arenas, free, live, k, -1);
      ArenaBigGone(arenas, free, live, b, k);
    }
  }
}
