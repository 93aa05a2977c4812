/** The calls of threads/malloc.c. Every call keeps the invariant of module
    Malloc, so what is proved there of it holds after every sequence of calls. */
module MallocHeap {
  import opened Bitmap
  import opened Malloc
  import opened Numbers
  import opened Sequences

  const NULL := 0

  // DIV_ROUND_UP (size + sizeof (struct arena), PGSIZE) in 32-bit arithmetic.
  function PageCnt(size: nat): nat { (size + 12 + 4095) % 0x1_0000_0000 / 4096 }

  /** A run of that many pages holds the request exactly when the sum does not
      wrap, and then no smaller one does. When it does wrap the result is no page,
      or a single one that is far too small. */
  lemma PageCntEnough(size: nat)
    requires 1024 < size < 0x1_0000_0000
    ensures 4096 * PageCnt(size) - HEADER >= size <==> size < 0xFFFF_EFF5
    ensures PageCnt(size) == 0 <==> 0xFFFF_EFF5 <= size < 0xFFFF_FFF5
    ensures size >= 0xFFFF_FFF5 ==> PageCnt(size) == 1
    ensures size < 0xFFFF_EFF5 ==> 4096 * (PageCnt(size) - 1) - 12 < size
  {}

  /** The largest request there is gets a single page. */
  lemma PageCntExample()
    ensures PageCnt(0xFFFF_FFFF) == 1 && 4096 * PageCnt(0xFFFF_FFFF) - HEADER < 0xFFFF_FFFF
    ensures PageCnt(0xFFFF_FFF4) == 0
  {}

  lemma SizeValues()
    ensures Size(1) == 32 && Size(2) == 64 && Size(3) == 128 && Size(4) == 256
    ensures Size(5) == 512 && Size(6) == 1024 && Size(7) == 2048
  {
    assert Size(2) == 64;
    assert Size(4) == 256;
  }

  lemma {:induction false} SizeGrows(d: nat, e: nat)
    requires d <= e
    ensures Size(d) <= Size(e)
  {
    if d < e { SizeGrows(d, e - 1); }
  }

  // The first descriptor from d on with blocks for a request, or 7.
  function DescFrom(d: nat, size: nat): (r: nat)
    requires d <= 7
    ensures d <= r <= 7 && (forall e :: d <= e < r ==> Size(e) < size) && (r < 7 ==> Size(r) >= size)
    decreases 7 - d
  {
    if d == 7 || Size(d) >= size then d else DescFrom(d + 1, size)
  }

  /** How many bytes the block has that a successful malloc() returns. */
  function Granted(size: nat): nat {
    if size <= 1024 then Size(DescFrom(0, size)) else if PageCnt(size) == 0 then 0 else 4096 * PageCnt(size) - HEADER
  }

  lemma GrantedSmall(d: nat, size: nat)
    requires size <= 1024 && Serves(d, size)
    ensures Granted(size) == Size(d)
  {
    var e := DescFrom(0, size);
    if e < d { SizeGrows(e, d - 1); }
  }

  lemma GrantedEnough(size: nat)
    requires size <= 1024
    ensures Granted(size) >= size
  {
    SizeValues();
    SizeGrows(DescFrom(0, size), 7);
  }

  // The bytes realloc() copies.
  function CopySize(newSize: nat, oldSize: nat): nat { if newSize < oldSize then newSize else oldSize }

  // A check that the caller of realloc() can make.
  predicate CopyFits(newSize: nat, oldSize: nat) { newSize < 0xFFFF_FFF5 || oldSize <= 4084 }

  /** realloc() copies past the end of the block it got if and only if the new
      size is within eleven bytes of 2^32 and the old block is larger than what
      is left of one page. What it copies is all that both sizes have room for. */
  lemma CopyFitsExactly(newSize: nat, oldSize: nat)
    requires 0 < newSize < 0x1_0000_0000 && (newSize > 1024 ==> PageCnt(newSize) > 0)
    ensures var n := CopySize(newSize, oldSize); n <= newSize && n <= oldSize && (n == newSize || n == oldSize)
    ensures CopyFits(newSize, oldSize) <==> !(newSize >= 0xFFFF_FFF5 && oldSize > 4084)
    ensures CopySize(newSize, oldSize) <= Granted(newSize) <==> CopyFits(newSize, oldSize)
  {
    if newSize <= 1024 {
      GrantedEnough(newSize);
    } else {
      PageCntEnough(newSize);
    }
  }

  /** Such an overrun: a block of two pages, asked to grow to the largest size. */
  lemma CopyExample()
    ensures PageCnt(5000) == 2 && Granted(5000) == 8180
    ensures PageCnt(0xFFFF_FFFF) == 1 && CopySize(0xFFFF_FFFF, 8180) == 8180 > Granted(0xFFFF_FFFF) == 4084
  {}

  // The size calloc() computes, and its test for overflow.
  function Product(a: nat, b: nat): nat { a * b % 0x1_0000_0000 }

  predicate TestPasses(a: nat, b: nat) { Product(a, b) >= a && Product(a, b) >= b }

  /** The test lets every product through that fits, and refuses one that has
      wrapped below a factor. */
  lemma TestMeaning(a: nat, b: nat)
    ensures a > 0 && b > 0 && a * b < 0x1_0000_0000 ==> TestPasses(a, b) && Product(a, b) == a * b
    ensures TestPasses(a, b) <==> !(a * b % 0x1_0000_0000 < a || a * b % 0x1_0000_0000 < b)
  {
    if a > 0 && b > 0 && a * b < 0x1_0000_0000 {
      MulMono(1, b, a);
      MulMono(1, a, b);
      SmallRemainder(a * b, 0x1_0000_0000);
    }
  }

  /** The block calloc() asks for has room for the product if and only if the
      product is below 2^32 - 11, whatever its test says, and clearing stays
      inside it if and only if the wrapped product is. */
  lemma CallocEnough(a: nat, b: nat)
    requires 0 < Product(a, b) && (Product(a, b) > 1024 ==> PageCnt(Product(a, b)) > 0)
    ensures Granted(Product(a, b)) >= a * b <==> a * b < 0xFFFF_FFF5
    ensures Granted(Product(a, b)) >= Product(a, b) <==> Product(a, b) < 0xFFFF_FFF5
  {
    var size := Product(a, b);
    if size <= 1024 {
      GrantedEnough(size);
      SizeValues();
      assert DescFrom(0, size) < 7;
      SizeGrows(DescFrom(0, size), 6);
    } else {
      PageCntEnough(size);
    }
  }

  /** An overflow that the test does not see, and a block that is overrun. */
  lemma CallocExample()
    ensures TestPasses(1, 0xFFFF_FFFF) && Granted(Product(1, 0xFFFF_FFFF)) == 4084
    ensures TestPasses(0x1_0001, 0x1_0001) && Product(0x1_0001, 0x1_0001) == 0x2_0001 < 0x1_0001 * 0x1_0001
  {}

  // Address x is the allocator's own: in an arena's header or in a block on a
  // free list, where the list's links are kept.
  predicate Own(arenas: map<nat, Arena>, free: seq<seq<nat>>, x: int)
    requires |free| == 7
  {
    || (exists n :: n in arenas && 4096 * n <= x < 4096 * n + HEADER)
    || (exists d, c :: 0 <= d < 7 && c in free[d] && c <= x < c + Size(d))
  }

  predicate TakenAt(taken: seq<bool>, firstPage: nat, m: nat) {
    firstPage <= m < firstPage + |taken| && taken[m - firstPage]
  }

  predicate Inside(x: int, b: nat, size: nat) { b <= x < b + size }

  // What the blocks hold is not disturbed.
  ghost predicate Kept(m: int -> int, m': int -> int, blocks: map<nat, nat>) {
    forall b, x :: b in blocks && Inside(x, b, blocks[b]) ==> m'(x) == m(x)
  }

  lemma KeptPart(m: int -> int, m': int -> int, blocks: map<nat, nat>, part: map<nat, nat>)
    requires Kept(m, m', blocks) && forall b :: b in part ==> b in blocks && blocks[b] == part[b]
    ensures Kept(m, m', part)
  {
    forall b, x | b in part && Inside(x, b, part[b]) ensures m'(x) == m(x) {
      assert Inside(x, b, blocks[b]);
    }
  }

  lemma KeptTwice(m: int -> int, m': int -> int, m'': int -> int, blocks: map<nat, nat>)
    requires Kept(m, m', blocks) && Kept(m', m'', blocks)
    ensures Kept(m, m'', blocks)
  {
    forall b, x | b in blocks && Inside(x, b, blocks[b]) ensures m''(x) == m(x) {}
  }

  // m' holds from dst on what m holds from src on.
  ghost predicate Copied(m: int -> int, src: nat, m': int -> int, dst: nat, size: nat) {
    forall x {:trigger Inside(x, dst, size)} :: Inside(x, dst, size) ==> m'(x) == m(src + (x - dst))
  }

  // What address x holds after memcpy().
  function CopiedAt(m: int -> int, dst: nat, src: nat, size: nat, x: int): int {
    if Inside(x, dst, size) then m(src + (x - dst)) else m(x)
  }

  lemma CopyDone(m: int -> int, m': int -> int, dst: nat, src: nat, size: nat)
    requires forall x :: m'(x) == CopiedAt(m, dst, src, size, x)
    ensures Copied(m, src, m', dst, size) && SameOutside(m, m', dst, size)
  {}

  ghost predicate SameOutside(m: int -> int, m': int -> int, b: nat, size: nat) {
    forall x {:trigger Inside(x, b, size)} :: !Inside(x, b, size) ==> m'(x) == m(x)
  }

  // Descriptor d has the smallest blocks that satisfy a request.
  predicate Serves(d: nat, size: nat) { d < 7 && Size(d) >= size && (d == 0 || Size(d - 1) < size) }

  // When malloc() has no block to give: nothing is asked for, or no page is free
  // and no block of the size, or no run of pages, or the page count wraps to zero.
  ghost predicate NoBlock(used: seq<bool>, free: seq<seq<nat>>, size: nat)
    requires |free| == 7
  {
    || size == 0
    || (size <= 1024 && FirstFit(used, 0, 1, false).None? && exists d: nat :: Serves(d, size) && free[d] == [])
    || (size > 1024 && (PageCnt(size) == 0 || FirstFit(used, 0, PageCnt(size), false).None?))
  }

  // The block sizes that malloc_init() makes descriptors for.
  const SIZES := [16, 32, 64, 128, 256, 512, 1024]

  lemma ServesSize(d: nat, size: nat)
    ensures Serves(d, size) <==> d < 7 && SIZES[d] >= size && (d == 0 || SIZES[d - 1] < size)
  {
    SizeValues();
  }

  /** malloc() gives nothing exactly when nothing is asked for; or, up to 1024
      bytes, when the smallest size that will do has no free block and the pool no
      free page; or, above, when the pool has no run of free pages as long as the
      page count, computed in 32 bits, or that count is zero. */
  lemma NoBlockMeaning(used: seq<bool>, free: seq<seq<nat>>, size: nat)
    requires |free| == 7
    ensures NoBlock(used, free, size) <==>
              || size == 0
              || (size <= 1024 && (forall i :: 0 <= i < |used| ==> used[i])
                  && exists d: nat :: d < 7 && SIZES[d] >= size && (d == 0 || SIZES[d - 1] < size) && free[d] == [])
              || (size > 1024 && var cnt := (size + 4107) % 0x1_0000_0000 / 4096;
                                 cnt == 0 || forall i :: !RunAt(used, i, cnt, false))
  {
    NoPageFree(used);
    FirstFitLowest(used, 0, PageCnt(size), false);
    ServedBy(free, size);
  }

  lemma NoPageFree(used: seq<bool>)
    ensures FirstFit(used, 0, 1, false).None? <==> forall i :: 0 <= i < |used| ==> used[i]
  {
    FirstFitLowest(used, 0, 1, false);
    if FirstFit(used, 0, 1, false).None? {
      forall i | 0 <= i < |used| ensures used[i] { assert !RunAt(used, i, 1, false); }
    } else {
      assert RunAt(used, FirstFit(used, 0, 1, false).value, 1, false) && !used[FirstFit(used, 0, 1, false).value];
    }
  }

  lemma ServedBy(free: seq<seq<nat>>, size: nat)
    requires |free| == 7
    ensures (exists d: nat :: Serves(d, size) && free[d] == []) <==>
            exists d: nat :: d < 7 && SIZES[d] >= size && (d == 0 || SIZES[d - 1] < size) && free[d] == []
  {
    if d: nat :| Serves(d, size) && free[d] == [] { ServesSize(d, size); }
    if d: nat :| d < 7 && SIZES[d] >= size && (d == 0 || SIZES[d - 1] < size) && free[d] == [] {
      ServesSize(d, size);
    }
  }

  // A list without its element x.
  function Remove(s: seq<nat>, x: nat): (r: seq<nat>)
    ensures NoDup(s) ==> NoDup(r) && forall b :: b in r <==> b in s && b != x
  {
    if s == [] then []
    else if s[0] == x then s[1..]
    else
      var r := Remove(s[1..], x);
      assert NoDup(s) ==> NoDup(s[1..]) && s[0] !in s[1..];
      assert forall b :: b in s <==> b == s[0] || b in s[1..];
      [s[0]] + r
  }

  // b is one of the first i blocks of arena n.
  predicate Below(n: nat, bs: nat, i: nat, b: nat) {
    exists k :: 0 <= k < i && b == ArenaToBlock(n, k, bs)
  }

  lemma RemoveOne(n: nat, bs: nat, i: nat, s: seq<nat>, t: seq<nat>)
    requires bs > 0 && i < BlocksPerArena(bs) && NoDup(t) && ArenaToBlock(n, i, bs) in s
    requires forall b :: b in t <==> b in s && !Below(n, bs, i, b)
    ensures ArenaToBlock(n, i, bs) in t
    ensures var r := Remove(t, ArenaToBlock(n, i, bs));
            NoDup(r) && forall b :: b in r <==> b in s && !Below(n, bs, i + 1, b)
  {
    forall k | 0 <= k < i ensures ArenaToBlock(n, k, bs) != ArenaToBlock(n, i, bs) { SameIndex(n, bs, k, i); }
    forall b ensures Below(n, bs, i + 1, b) <==> Below(n, bs, i, b) || b == ArenaToBlock(n, i, bs) {
      if b == ArenaToBlock(n, i, bs) { assert Below(n, bs, i + 1, b); }
    }
  }

  // A copy between blocks in use is the same seen from before and from after.
  lemma CopiedKept(m0: int -> int, m1: int -> int, m2: int -> int, m3: int -> int, src: nat, dst: nat, k: nat,
                   live0: map<nat, nat>, live3: map<nat, nat>)
    requires Kept(m0, m1, live0) && src in live0 && k <= live0[src]
    requires Copied(m1, src, m2, dst, k)
    requires Kept(m2, m3, live3) && dst in live3 && k <= live3[dst]
    ensures Copied(m0, src, m3, dst, k)
  {
    forall x | Inside(x, dst, k) ensures m3(x) == m0(src + (x - dst)) {
      assert Inside(x, dst, live3[dst]);
      assert Inside(src + (x - dst), src, live0[src]);
    }
  }

  // A client's program: k is the position of a block among those it holds.
  datatype Op = DoMalloc(size: nat) | DoCalloc(a: nat, b: nat) | DoRealloc(k: nat, size: nat) | DoFree(k: nat)

  // Sizes are 32 bits wide.
  predicate SizeOk(op: Op) {
    match op
    case DoMalloc(size) => size < 0x1_0000_0000
    case DoCalloc(a, b) => a < 0x1_0000_0000 && b < 0x1_0000_0000
    case DoRealloc(_, size) => size < 0x1_0000_0000
    case DoFree(_) => true
  }

  ghost predicate Holds(held: seq<nat>, live: map<nat, nat>) {
    NoDup(held) && forall b :: b in held <==> b in live
  }

  lemma HoldsLess(held: seq<nat>, live: map<nat, nat>, k: nat)
    requires Holds(held, live) && k < |held|
    ensures held[k] in live && Holds(Without(held, k), live - {held[k]})
  {
    assert held[k] in held;
    WithoutHas(held, k);
  }

  // A heap at one moment.
  datatype Moment = Moment(used: seq<bool>, free: seq<seq<nat>>, live: map<nat, nat>, mem: int -> int)

  // A block p for a request, that nobody had; the others are as they were.
  ghost predicate Got(x: Moment, y: Moment, p: nat, size: nat, kept: map<nat, nat>) {
    && p !in x.live && y.live == kept[p := Granted(size)] && (Granted(size) >= size <==> size < 0xFFFF_FFF5)
    && Kept(x.mem, y.mem, kept)
  }

  ghost predicate NoChange(x: Moment, y: Moment, held: seq<nat>, held': seq<nat>) {
    held' == held && y.live == x.live && Kept(x.mem, y.mem, x.live)
  }

  // What each call does for a client that holds the blocks `held`.
  ghost predicate DidMalloc(size: nat, x: Moment, held: seq<nat>, y: Moment, held': seq<nat>)
    requires |x.free| == 7
  {
    if NoBlock(x.used, x.free, size) then NoChange(x, y, held, held')
    else exists p: nat :: held' == held + [p] && Got(x, y, p, size, x.live)
  }

  ghost predicate DidCalloc(a: nat, b: nat, x: Moment, held: seq<nat>, y: Moment, held': seq<nat>)
    requires |x.free| == 7
  {
    var size := a * b % 0x1_0000_0000;
    if size >= 0xFFFF_FFF5 || size < a || size < b then NoChange(x, y, held, held')
    else DidClear(size, x, held, y, held')
  }

  ghost predicate DidClear(size: nat, x: Moment, held: seq<nat>, y: Moment, held': seq<nat>)
    requires |x.free| == 7
  {
    if NoBlock(x.used, x.free, size) then NoChange(x, y, held, held')
    else exists p: nat :: held' == held + [p] && Got(x, y, p, size, x.live) && Zeroed(y.mem, p, size)
  }

  ghost predicate Zeroed(m: int -> int, p: nat, size: nat) { forall i :: Inside(i, p, size) ==> m(i) == 0 }

  ghost predicate DidRealloc(k: nat, size: nat, x: Moment, held: seq<nat>, y: Moment, held': seq<nat>)
    requires |x.free| == 7
  {
    if k >= |held| || held[k] !in x.live || (size >= 0xFFFF_FFF5 && x.live[held[k]] > 4084)
    then NoChange(x, y, held, held')
    else if size == 0 then DidFree(k, x, held, y, held')
    else if NoBlock(x.used, x.free, size) then NoChange(x, y, held, held')
    else exists p: nat ::
        held' == Without(held, k) + [p] && Got(x, y, p, size, x.live - {held[k]})
        && Copied(x.mem, held[k], y.mem, p, CopySize(size, x.live[held[k]]))
  }

  ghost predicate DidFree(k: nat, x: Moment, held: seq<nat>, y: Moment, held': seq<nat>) {
    if k >= |held| then NoChange(x, y, held, held')
    else held' == Without(held, k) && y.live == x.live - {held[k]} && Kept(x.mem, y.mem, y.live)
  }

  ghost predicate Did(op: Op, x: Moment, held: seq<nat>, y: Moment, held': seq<nat>)
    requires |x.free| == 7
  {
    match op
    case DoMalloc(size) => DidMalloc(size, x, held, y, held')
    case DoCalloc(a, b) => DidCalloc(a, b, x, held, y, held')
    case DoRealloc(k, size) => DidRealloc(k, size, x, held, y, held')
    case DoFree(k) => DidFree(k, x, held, y, held')
  }

  lemma ClearDone(x: Moment, y: Moment, p: nat, size: nat, held: seq<nat>, held': seq<nat>)
    requires |x.free| == 7 && size < 0xFFFF_FFF5 && held' == (if p == NULL then held else held + [p])
    requires p == NULL ==> y.live == x.live
    requires p != NULL ==> p !in x.live && y.live == x.live[p := Granted(size)] && !NoBlock(x.used, x.free, size)
    requires p != NULL ==> Granted(size) >= size && Zeroed(y.mem, p, size)
    requires Kept(x.mem, y.mem, x.live)
    ensures p == NULL ==> NoChange(x, y, held, held')
    ensures p != NULL ==> DidClear(size, x, held, y, held')
  {
    if p != NULL { assert Got(x, y, p, size, x.live); }
  }

  // Each of the first n calls leads from one moment to the next.
  ghost predicate Traced(ops: seq<Op>, trace: seq<(Moment, seq<nat>)>, n: nat)
    requires n <= |ops| && n < |trace|
  {
    forall i :: 0 <= i < n ==>
      |trace[i].0.free| == 7 && Did(ops[i], trace[i].0, trace[i].1, trace[i + 1].0, trace[i + 1].1)
  }

  lemma TracedMore(ops: seq<Op>, trace: seq<(Moment, seq<nat>)>, n: nat, y: Moment, held: seq<nat>)
    requires n < |ops| && |trace| == n + 1 && Traced(ops, trace, n)
    requires |trace[n].0.free| == 7 && Did(ops[n], trace[n].0, trace[n].1, y, held)
    ensures Traced(ops, trace + [(y, held)], n + 1)
  {
    var trace' := trace + [(y, held)];
    forall i | 0 <= i < n + 1
      ensures |trace'[i].0.free| == 7 && Did(ops[i], trace'[i].0, trace'[i].1, trace'[i + 1].0, trace'[i + 1].1) {}
  }

  class Heap {
    const blockSizes: seq<nat>
    const n0: nat
    const poolSize: nat
    var used: seq<bool>
    var arenas: map<nat, Arena>
    var free: seq<seq<nat>>
    var mem: int -> int
    ghost var live: map<nat, nat>
    ghost const others: set<nat>

    ghost predicate State(full: int)
      reads this
    {
      && n0 >= 1 && |used| == poolSize && n0 + poolSize <= 0x10_0000
      && |blockSizes| == 7 && (forall d :: 0 <= d < 7 ==> blockSizes[d] == Size(d))
      && Inv(arenas, used, free, live, n0, others, full)
    }

    ghost predicate Valid()
      reads this
    {
      State(-1)
    }

    /** malloc_init(), over a pool of which some pages may already be taken. */
    constructor (firstPage: nat, taken: seq<bool>)
      requires firstPage >= 1 && firstPage + |taken| <= 0x10_0000
      ensures Valid() && live == map[] && used == taken && n0 == firstPage
    {
      poolSize := |taken|;
      n0, used, arenas, free, mem, live := firstPage, taken, map[], seq(7, _ => []), _ => 0, map[];
      others := set m: nat | firstPage <= m < firstPage + |taken| && TakenAt(taken, firstPage, m);
      var sizes: seq<nat> := [];
      var bs := 16;
      SizeValues();
      while bs < 4096 / 2
        invariant |sizes| <= 7 && bs == Size(|sizes|)
        invariant forall d :: 0 <= d < |sizes| ==> sizes[d] == Size(d)
        decreases 2048 - bs
      {
        SizeGrows(|sizes| + 1, 7);
        sizes := sizes + [bs];
        bs := bs * 2;
      }
      blockSizes := sizes;
    }

    // The allocator writes only to its own bytes, and what it writes there is
    // arbitrary.
    method Scribble(junk: int -> int, ghost full: int)
      requires State(full)
      modifies this`mem
      ensures Kept(old(mem), mem, live)
    {
      var m, a, f := mem, arenas, free;
      mem := x => if Own(a, f, x) then junk(x) else m(x);
      forall b, x | b in live && b <= x < b + live[b] ensures !Own(a, f, x) {
        forall n | n in a ensures !(4096 * n <= x < 4096 * n + HEADER) {
          LiveOffHeaders(a, used, f, live, n0, others, full, b, n);
        }
        forall d, c | 0 <= d < 7 && c in f[d] ensures !(c <= x < c + Size(d)) {
          LiveOffFree(a, used, f, live, n0, others, full, b, d, c);
        }
      }
    }

    // Makes a new arena for descriptor d, unless no page is free.
    method NewArena(d: nat, junk: int -> int) returns (ok: bool, ghost n: nat)
      requires Valid() && d < 7 && free[d] == []
      modifies this
      ensures ok <==> FirstFit(old(used), 0, 1, false).Some?
      ensures ok ==> State(n) && free[d] != [] && Page(free[d][0]) == n
      ensures !ok ==> Valid() && used == old(used) && arenas == old(arenas) && free == old(free)
      ensures live == old(live) && Kept(old(mem), mem, live)
    {
      FirstFitLowest(used, 0, 1, false);
      var pageIdx := FirstFit(used, 0, 1, false);
      if pageIdx.None? {
        return false, 0;
      }
      var a := n0 + pageIdx.value;
      InvNew(arenas, used, free, live, n0, others, d, a);
      SizeValues();
      SizeGrows(d, 6);
      used := Filled(used, pageIdx.value, 1, true);
      arenas := arenas[a := Arena(d, 4084 / blockSizes[d])];
      AddBlocks(d, a);
      assert free[d][0] in free[d];
      Scribble(junk, a);
      return true, a;
    }

    // Puts every block of arena a on the empty list d.
    method AddBlocks(d: nat, a: nat)
      requires d < 7 && |free| == 7 && free[d] == [] && |blockSizes| == 7 && blockSizes[d] == Size(d)
      modifies this`free
      ensures free == old(free)[d := Blocks(a, Size(d), BlocksPerArena(Size(d)))]
    {
      var bs := blockSizes[d];
      var cnt := BlocksPerArena(bs);
      for i := 0 to cnt
        invariant |free| == 7 && free[d] == Blocks(a, bs, i)
        invariant forall e :: 0 <= e < 7 && e != d ==> free[e] == old(free[e])
      {
        free := free[d := free[d] + [ArenaToBlock(a, i, bs)]];
      }
    }

    method FindDesc(size: nat) returns (d: nat)
      requires Valid()
      ensures d <= 7 && (d < 7 <==> size <= 1024) && (d < 7 ==> Serves(d, size))
    {
      d := 0;
      while d < |blockSizes|
        invariant d <= 7 && forall e :: 0 <= e < d ==> Size(e) < size
      {
        if blockSizes[d] >= size {
          break;
        }
        d := d + 1;
      }
      SizeValues();
      if d < 7 { SizeGrows(d, 6); }
    }

    // The first block of list d is handed out.
    method PopBlock(d: nat, junk: int -> int, ghost full: int) returns (b: nat)
      requires State(full) && d < 7 && free[d] != [] && (full == -1 || full == Page(free[d][0]))
      modifies this
      ensures Valid() && b != NULL && b !in old(live) && live == old(live)[b := Size(d)]
      ensures Kept(old(mem), mem, old(live))
    {
      b := free[d][0];
      InvPop(arenas, used, free, live, n0, others, full, d, b);
      free := free[d := free[d][1..]];
      var n := Page(b);
      arenas := arenas[n := arenas[n].(freeCnt := arenas[n].freeCnt - 1)];
      live := live[b := Size(d)];
      Scribble(junk, -1);
      KeptPart(old(mem), mem, live, old(live));
    }

    method MallocSmall(d: nat, junk: int -> int) returns (b: nat)
      requires Valid() && d < 7
      modifies this
      ensures Valid() && Kept(old(mem), mem, old(live))
      ensures b == NULL <==> old(free)[d] == [] && FirstFit(old(used), 0, 1, false).None?
      ensures b == NULL ==> used == old(used) && arenas == old(arenas) && free == old(free) && live == old(live)
      ensures b != NULL ==> b !in old(live) && live == old(live)[b := Size(d)]
    {
      ghost var full: int := -1;
      if free[d] == [] {
        var ok, n := NewArena(d, junk);
        if !ok {
          return NULL;
        }
        full := n;
      }
      b := PopBlock(d, junk, full);
    }

    method MallocBig(pageCnt: nat, junk: int -> int) returns (b: nat)
      requires Valid()
      modifies this
      ensures Valid() && Kept(old(mem), mem, old(live))
      ensures b == NULL <==> pageCnt == 0 || FirstFit(old(used), 0, pageCnt, false).None?
      ensures b == NULL ==> used == old(used) && arenas == old(arenas) && free == old(free) && live == old(live)
      ensures b != NULL ==> pageCnt > 0 && b !in old(live) && live == old(live)[b := 4096 * pageCnt - HEADER]
    {
      if pageCnt == 0 {
        return NULL;
      }
      FirstFitLowest(used, 0, pageCnt, false);
      var pageIdx := FirstFit(used, 0, pageCnt, false);
      if pageIdx.None? {
        return NULL;
      }
      var n := n0 + pageIdx.value;
      InvBig(arenas, used, free, live, n0, others, n, pageCnt);
      used := Filled(used, pageIdx.value, pageCnt, true);
      arenas := arenas[n := Arena(BIG, pageCnt)];
      b := 4096 * n + HEADER;
      live := live[b := 4096 * pageCnt - HEADER];
      Scribble(junk, -1);
      KeptPart(old(mem), mem, live, old(live));
    }

    /** malloc(): a block that nobody holds, of at least the size asked for
        unless the size is within eleven bytes of 2^32, and at most twice it for
        small requests; or NULL and no change, exactly when memory has run out,
        nothing is asked for, or the page count wraps to zero. */
    method Malloc(size: nat, junk: int -> int) returns (p: nat)
      requires Valid() && size < 0x1_0000_0000
      modifies this
      ensures Valid() && Kept(old(mem), mem, old(live))
      ensures p == NULL ==> used == old(used) && arenas == old(arenas) && free == old(free) && live == old(live)
      ensures p != NULL ==> p !in old(live) && p in live && live == old(live)[p := live[p]]
      ensures p != NULL ==> live[p] == Granted(size) && (size > 1024 ==> PageCnt(size) > 0)
      ensures p != NULL ==> (live[p] >= size <==> size < 0xFFFF_FFF5)
      ensures p != NULL && size <= 1024 ==> live[p] == 16 || live[p] < 2 * size
      ensures p == NULL <==> NoBlock(old(used), old(free), size)
    {
      if size == 0 {
        return NULL;
      }
      var d := FindDesc(size);
      if d == 7 {
        PageCntEnough(size);
        p := MallocBig(PageCnt(size), junk);
      } else {
        p := MallocSmall(d, junk);
        forall e | Serves(e, size) ensures e == d {
          if e < d { SizeGrows(e, d - 1); }
          if d < e { SizeGrows(d, e - 1); }
        }
        GrantedSmall(d, size);
      }
    }

    /** calloc(): a block of zeros. It has room for a * b bytes if and only if
        that is below 2^32 - 11. When the size computed is not, clearing runs
        past the block and nothing is promised. */
    method Calloc(a: nat, b: nat, junk: int -> int) returns (p: nat)
      requires Valid() && a < 0x1_0000_0000 && b < 0x1_0000_0000
      modifies this
      ensures p == NULL <==> !TestPasses(a, b) || NoBlock(old(used), old(free), Product(a, b))
      ensures p == NULL ==>
                Valid() && used == old(used) && arenas == old(arenas) && free == old(free) && live == old(live)
      ensures p != NULL ==> p !in old(live) && p in live && live == old(live)[p := live[p]]
      ensures p != NULL ==> live[p] == Granted(Product(a, b)) && (live[p] >= a * b <==> a * b < 0xFFFF_FFF5)
      ensures p == NULL || Product(a, b) < 0xFFFF_FFF5 ==> Valid() && Kept(old(mem), mem, old(live))
      ensures p != NULL && Product(a, b) < 0xFFFF_FFF5 ==> forall x :: Inside(x, p, Product(a, b)) ==> mem(x) == 0
    {
      var size := a * b % 0x1_0000_0000;
      if size < a || size < b {
        return NULL;
      }
      p := Malloc(size, junk);
      if p != NULL {
        CallocEnough(a, b);
        ghost var m := mem;
        Clear(p, size);
        if size < 0xFFFF_FFF5 {
          KeptPart(m, mem, live - {p}, old(live));
          KeptTwice(old(mem), m, mem, old(live));
        }
      }
    }

    // memset() to zero of a block in use. It may run past the block's end.
    method Clear(p: nat, size: nat)
      requires Valid() && p in live
      modifies this`mem
      ensures size <= live[p] ==> Kept(old(mem), mem, live - {p})
      ensures forall x :: Inside(x, p, size) ==> mem(x) == 0
    {
      var m := mem;
      mem := x => if p <= x < p + size then 0 else m(x);
      if size <= live[p] { ChangedInside(m, mem, p, size); }
    }

    /** block_size(): the bytes the caller may use. */
    method BlockSize(block: nat) returns (size: nat)
      requires Valid() && block in live
      ensures size == live[block]
    {
      LiveIn(arenas, used, free, live, n0, others, -1, block);
      var a := arenas[Page(block)];
      assert ArenaOk(arenas, free, live, Page(block), -1);
      size := if a.desc < 7 then blockSizes[a.desc] else 4096 * a.freeCnt - block % 4096;
    }

    // Takes every block of arena n off list d.
    method RemoveBlocks(d: nat, n: nat)
      requires d < 7 && |free| == 7 && NoDup(free[d]) && |blockSizes| == 7 && blockSizes[d] == Size(d)
      requires forall i :: 0 <= i < BlocksPerArena(Size(d)) ==> ArenaToBlock(n, i, Size(d)) in free[d]
      modifies this`free
      ensures |free| == 7 && NoDup(free[d])
      ensures forall b :: b in free[d] <==> b in old(free)[d] && !IsBlock(n, Size(d), b)
      ensures forall e :: 0 <= e < 7 && e != d ==> free[e] == old(free)[e]
    {
      var bs := blockSizes[d];
      ghost var s := free[d];
      var cnt := BlocksPerArena(bs);
      for i := 0 to cnt
        invariant |free| == 7 && NoDup(free[d])
        invariant forall b :: b in free[d] <==> b in s && !Below(n, bs, i, b)
        invariant forall e :: 0 <= e < 7 && e != d ==> free[e] == old(free)[e]
      {
        RemoveOne(n, bs, i, s, free[d]);
        free := free[d := Remove(free[d], ArenaToBlock(n, i, bs))];
      }
      forall b ensures IsBlock(n, bs, b) <==> Below(n, bs, cnt, b) {}
    }

    // An arena with no block in use goes back to the page allocator.
    method DropArena(n: nat)
      requires State(n) && n in arenas && arenas[n].desc < 7
      requires arenas[n].freeCnt == BlocksPerArena(Size(arenas[n].desc))
      modifies this`free, this`used, this`arenas
      ensures Valid()
    {
      var d := arenas[n].desc;
      assert ArenaOk(arenas, free, live, n, n);
      CountAll(n, Size(d), free[d], BlocksPerArena(Size(d)));
      ghost var before := free;
      RemoveBlocks(d, n);
      InvDrop(arenas, used, before, live, n0, others, n, free[d]);
      assert free == before[d := free[d]];
      used := Filled(used, n - n0, 1, false);
      arenas := arenas - {n};
    }

    method FreeSmall(b: nat, junk: int -> int)
      requires Valid() && b in live && Page(b) in arenas && arenas[Page(b)].desc < 7
      modifies this
      ensures Valid() && live == old(live) - {b} && Kept(old(mem), mem, live)
    {
      var n := Page(b);
      var d := arenas[n].desc;
      assert ArenaOk(arenas, free, live, n, -1);
      InvPush(arenas, used, free, live, n0, others, b);
      ClearBlock(b, blockSizes[d]);
      live := live - {b};
      free := free[d := [b] + free[d]];
      var cnt := arenas[n].freeCnt + 1;
      arenas := arenas[n := arenas[n].(freeCnt := cnt)];
      Scribble(junk, if cnt == BlocksPerArena(Size(d)) then n else -1);
      if cnt >= BlocksPerArena(blockSizes[d]) {
        DropArena(n);
      }
    }

    // memset() of a block that is being freed.
    method ClearBlock(b: nat, bs: nat)
      requires Valid() && b in live && live[b] == bs
      modifies this`mem
      ensures Kept(old(mem), mem, live - {b})
    {
      var m := mem;
      mem := x => if b <= x < b + bs then 0xcc else m(x);
      ChangedInside(m, mem, b, bs);
    }

    /** free(): exactly this block stops being in use. */
    method Free(p: nat, junk: int -> int)
      requires Valid() && (p == NULL || p in live)
      modifies this
      ensures Valid() && live == old(live) - {p} && Kept(old(mem), mem, live)
    {
      if p != NULL {
        LiveIn(arenas, used, free, live, n0, others, -1, p);
        var n := Page(p);
        if arenas[n].desc < 7 {
          FreeSmall(p, junk);
        } else {
          InvBigGone(arenas, used, free, live, n0, others, p);
          used := Filled(used, n - n0, arenas[n].freeCnt, false);
          arenas := arenas - {n};
          live := live - {p};
        }
      } else {
        NullNotLive();
      }
    }

    lemma NullNotLive()
      requires Valid()
      ensures NULL !in live
    {
      if NULL in live { LiveIn(arenas, used, free, live, n0, others, -1, NULL); }
    }

    /** realloc(): the new block begins with what the old one held, the old one
        is freed, and when there is no memory nothing changes. When the copy does
        not fit, it runs past the new block and nothing is promised. */
    method Realloc(oldBlock: nat, newSize: nat, junk: int -> int) returns (p: nat)
      requires Valid() && (oldBlock == NULL || oldBlock in live) && newSize < 0x1_0000_0000
      modifies this
      ensures newSize == 0 ==> p == NULL && live == old(live) - {oldBlock}
      ensures newSize != 0 && p == NULL ==> live == old(live)
      ensures p == NULL <==> NoBlock(old(used), old(free), newSize)
      ensures p != NULL ==> p !in old(live) && p in live && live == (old(live) - {oldBlock})[p := live[p]]
      ensures p != NULL ==> live[p] == Granted(newSize) && (live[p] >= newSize <==> newSize < 0xFFFF_FFF5)
      ensures p == NULL || oldBlock == NULL || CopyFits(newSize, old(live)[oldBlock]) ==>
                Valid() && Kept(old(mem), mem, if newSize != 0 && p == NULL then old(live) else old(live) - {oldBlock})
      ensures p != NULL && oldBlock != NULL && CopyFits(newSize, old(live)[oldBlock]) ==>
                Copied(old(mem), oldBlock, mem, p, CopySize(newSize, old(live)[oldBlock]))
    {
      if newSize == 0 {
        Free(oldBlock, junk);
        return NULL;
      }
      NullNotLive();
      p := Malloc(newSize, junk);
      if oldBlock != NULL && p != NULL {
        CopyFitsExactly(newSize, live[oldBlock]);
        ghost var m, all, size := mem, live, CopySize(newSize, live[oldBlock]);
        MoveTo(p, oldBlock, newSize, junk);
        if size <= live[p] {
          CopiedKept(old(mem), m, mem, mem, oldBlock, p, size, old(live), live);
          KeptPart(old(mem), m, old(live), old(live) - {oldBlock});
          KeptPart(m, mem, all - {oldBlock, p}, old(live) - {oldBlock});
          KeptTwice(old(mem), m, mem, old(live) - {oldBlock});
        }
      }
    }

    // The second half of realloc(): copies as much as the smaller size, then
    // frees the old block.
    method MoveTo(p: nat, oldBlock: nat, newSize: nat, junk: int -> int)
      requires Valid() && p in live && oldBlock in live && p != oldBlock
      modifies this
      ensures Valid() && live == old(live) - {oldBlock}
      ensures CopySize(newSize, old(live)[oldBlock]) <= live[p] ==>
                && Kept(old(mem), mem, old(live) - {oldBlock, p})
                && Copied(old(mem), oldBlock, mem, p, CopySize(newSize, old(live)[oldBlock]))
    {
      var oldSize := BlockSize(oldBlock);
      var minSize := if newSize < oldSize then newSize else oldSize;
      Copy(p, oldBlock, minSize);
      ghost var m := mem;
      Free(oldBlock, junk);
      if minSize <= live[p] {
        KeptPart(old(mem), m, old(live) - {p}, old(live) - {oldBlock, p});
        KeptPart(m, mem, live, old(live) - {oldBlock, p});
        KeptTwice(old(mem), m, mem, old(live) - {oldBlock, p});
        CopiedKept(old(mem), old(mem), m, mem, oldBlock, p, minSize, old(live), live);
      }
    }

    // memcpy() from one block in use into another. It may run past its end.
    method Copy(dst: nat, src: nat, size: nat)
      requires Valid() && dst in live && src in live && dst != src && size <= live[src]
      modifies this`mem
      ensures size <= live[dst] ==> Kept(old(mem), mem, live - {dst}) && Copied(old(mem), src, mem, dst, size)
    {
      var m := mem;
      mem := x => CopiedAt(m, dst, src, size, x);
      CopyDone(m, mem, dst, src, size);
      if size <= live[dst] { ChangedInside(m, mem, dst, size); }
    }

    // A change inside one block in use leaves the others alone.
    lemma ChangedInside(m: int -> int, m': int -> int, b: nat, size: nat)
      requires Valid() && b in live && size <= live[b]
      requires SameOutside(m, m', b, size)
      ensures Kept(m, m', live - {b})
    {
      forall c, x | c in live - {b} && Inside(x, c, (live - {b})[c]) ensures m'(x) == m(x) {
        LiveApart(arenas, used, free, live, n0, others, -1, b, c);
        assert Disjoint(b, live[b], c, live[c]) && !Inside(x, b, size);
      }
    }

    // ---------- Whole programs ----------

    ghost function Now(): Moment
      reads this
    {
      Moment(used, free, live, mem)
    }

    method MallocStep(size: nat, held: seq<nat>, junk: int -> int) returns (held': seq<nat>)
      requires Valid() && Holds(held, live) && size < 0x1_0000_0000
      modifies this
      ensures Valid() && Holds(held', live) && DidMalloc(size, old(Now()), held, Now(), held')
    {
      var p := Malloc(size, junk);
      held' := if p == NULL then held else held + [p];
      assert p != NULL ==> Got(old(Now()), Now(), p, size, old(live));
    }

    method CallocStep(a: nat, b: nat, held: seq<nat>, junk: int -> int) returns (held': seq<nat>)
      requires Valid() && Holds(held, live) && a < 0x1_0000_0000 && b < 0x1_0000_0000
      modifies this
      ensures Valid() && Holds(held', live) && DidCalloc(a, b, old(Now()), held, Now(), held')
    {
      held' := held;
      if a * b % 0x1_0000_0000 < 0xFFFF_FFF5 {
        var p := Calloc(a, b, junk);
        held' := if p == NULL then held else held + [p];
        ghost var size := Product(a, b);
        if p != NULL { CallocEnough(a, b); }
        ClearDone(old(Now()), Now(), p, size, held, held');
      }
    }

    method ReallocStep(k: nat, size: nat, held: seq<nat>, junk: int -> int) returns (held': seq<nat>)
      requires Valid() && Holds(held, live) && size < 0x1_0000_0000
      modifies this
      ensures Valid() && Holds(held', live) && DidRealloc(k, size, old(Now()), held, Now(), held')
    {
      NullNotLive();
      held' := held;
      if k < |held| {
        HoldsLess(held, live, k);
        var oldSize := BlockSize(held[k]);
        if size < 0xFFFF_FFF5 || oldSize <= 4084 {
          var p := Realloc(held[k], size, junk);
          held' := if size != 0 && p == NULL then held
                   else if p == NULL then Without(held, k) else Without(held, k) + [p];
          assert p != NULL ==> Got(old(Now()), Now(), p, size, old(live) - {held[k]});
        }
      }
    }

    method FreeStep(k: nat, held: seq<nat>, junk: int -> int) returns (held': seq<nat>)
      requires Valid() && Holds(held, live)
      modifies this
      ensures Valid() && Holds(held', live) && DidFree(k, old(Now()), held, Now(), held')
    {
      held' := held;
      if k < |held| {
        HoldsLess(held, live, k);
        Free(held[k], junk);
        held' := Without(held, k);
      }
    }

    /** One call of a client that does not make a call which would run past the
        end of a block. */
    method Do(op: Op, held: seq<nat>, junk: int -> int) returns (held': seq<nat>)
      requires Valid() && Holds(held, live) && SizeOk(op)
      modifies this
      ensures Valid() && Holds(held', live) && Did(op, old(Now()), held, Now(), held')
    {
      match op
      case DoMalloc(size) => held' := MallocStep(size, held, junk);
      case DoCalloc(a, b) => held' := CallocStep(a, b, held, junk);
      case DoRealloc(k, size) => held' := ReallocStep(k, size, held, junk);
      case DoFree(k) => held' := FreeStep(k, held, junk);
    }

    /** Every call of a program does what it is for, whatever the calls before
        it, and the client holds exactly the blocks in use. */
    method Run(ops: seq<Op>, junk: seq<int -> int>) returns (held: seq<nat>, ghost trace: seq<(Moment, seq<nat>)>)
      requires Valid() && live == map[] && |junk| == |ops| && forall i :: 0 <= i < |ops| ==> SizeOk(ops[i])
      modifies this
      ensures Valid() && Holds(held, live) && |trace| == |ops| + 1 && Traced(ops, trace, |ops|)
      ensures trace[0] == (old(Now()), []) && trace[|ops|] == (Now(), held)
    {
      held := [];
      trace := [(Now(), held)];
      for i := 0 to |ops|
        invariant Valid() && Holds(held, live) && |trace| == i + 1 && Traced(ops, trace, i)
        invariant trace[0] == (old(Now()), []) && trace[i] == (Now(), held)
      {
        held := Do(ops[i], held, junk[i]);
        TracedMore(ops, trace, i, Now(), held);
        trace := trace + [(Now(), held)];
      }
    }

    /** After any program of calls, freeing what is still held returns every
        page: the pool is as it was, and no arena is left. */
    method RunAndFreeAll(ops: seq<Op>, junk: seq<int -> int>)
      requires Valid() && live == map[] && |junk| == |ops| && forall i :: 0 <= i < |ops| ==> SizeOk(ops[i])
      modifies this
      ensures Valid() && live == map[] && arenas == map[] && used == old(used)
    {
      AllReturned(arenas, used, free, n0, others);
      var held, _ := Run(ops, junk);
      while |held| > 0
        invariant Valid() && Holds(held, live)
      {
        HoldsLess(held, live, 0);
        Free(held[0], _ => 0);
        held := Without(held, 0);
      }
      assert live == map[];
      AllReturned(arenas, used, free, n0, others);
      SameUsed(old(used), used, n0, others);
    }
  }

  lemma SameUsed(s: seq<bool>, t: seq<bool>, n0: nat, others: set<nat>)
    requires |s| == |t|
    requires forall m :: n0 <= m < n0 + |s| ==> (s[m - n0] <==> m in others)
    requires forall m :: n0 <= m < n0 + |t| ==> (t[m - n0] <==> m in others)
    ensures s == t
  {
    forall i | 0 <= i < |s| ensures s[i] == t[i] {
      assert s[i + n0 - n0] <==> i + n0 in others;
      assert t[i + n0 - n0] <==> i + n0 in others;
    }
  }
}
