/** palloc_free_multiple() takes no lock. Every bit operation of the allocator
    that holds the pool's lock and of any number of threads freeing pages is one
    step here, and the steps interleave freely. */
module PallocRace {
  import opened Bitmap

  datatype Pages = Pages(start: nat, cnt: nat)

  // The thread that holds the pool's lock, inside bitmap_scan_and_flip(): bits
  // [i, i+j) were seen clear, or have been set.
  datatype Allocator = Idle | Scanning(cnt: nat, i: nat, j: nat) | Flipping(cnt: nat, i: nat, j: nat)

  // A thread inside palloc_free_multiple(): j bits tested by the assertion, or
  // j bits cleared.
  datatype Freer = Checking(j: nat) | Clearing(j: nat)

  datatype State = State(bits: seq<bool>, alloc: Allocator, live: set<Pages>, freers: map<Pages, Freer>)

  ghost predicate Init(y: State) {
    y.alloc == Idle && y.live == {} && y.freers == map[] && forall p :: 0 <= p < |y.bits| ==> !y.bits[p]
  }

  datatype Step =
    | Request(cnt: nat)                // lock acquired for cnt > 0 pages
    | TestBit                          // one bitmap_test() of the scan
    | SetBit                           // one bitmap_mark() of the flip
    | BeginFree(whole: Pages, part: Pages) // some thread frees part of what it owns
    | CheckBit(e: Pages)              // one bitmap_test() of the assertion
    | ClearBit(e: Pages)              // one bitmap_reset()

  predicate Inside(part: Pages, whole: Pages) {
    whole.start <= part.start && part.cnt > 0 && part.start + part.cnt <= whole.start + whole.cnt
  }

  // What the owner keeps of an allocation after freeing a part of it.
  function Rest(whole: Pages, part: Pages): set<Pages>
    requires Inside(part, whole)
  {
    var left, right := Pages(whole.start, part.start - whole.start),
                       Pages(part.start + part.cnt, whole.start + whole.cnt - part.start - part.cnt);
    (if left.cnt > 0 then {left} else {}) + (if right.cnt > 0 then {right} else {})
  }

  // bitmap_scan() moves on to place i, or gives up after the last one.
  function ScanFrom(bits: seq<bool>, cnt: nat, i: nat): Allocator {
    if i + cnt <= |bits| then Scanning(cnt, i, 0) else Idle
  }

  predicate Enabled(y: State, s: Step) {
    match s
    case Request(cnt) => y.alloc.Idle? && cnt > 0
    case TestBit => y.alloc.Scanning? && y.alloc.i + y.alloc.j < |y.bits|
    case SetBit => y.alloc.Flipping? && y.alloc.i + y.alloc.j < |y.bits|
    case BeginFree(whole, part) => whole in y.live && Inside(part, whole)
    case CheckBit(e) => e in y.freers && y.freers[e].Checking? && e.start + y.freers[e].j < |y.bits|
    case ClearBit(e) => e in y.freers && y.freers[e].Clearing? && e.start + y.freers[e].j < |y.bits|
  }

  function Apply(y: State, s: Step): State
    requires Enabled(y, s)
  {
    match s
    case Request(cnt) => y.(alloc := ScanFrom(y.bits, cnt, 0))
    case TestBit => y.(alloc := AfterTest(y.alloc, y.bits))
    case SetBit => AfterSet(y)
    case BeginFree(whole, part) =>
      y.(live := y.live - {whole} + Rest(whole, part), freers := y.freers[part := Checking(0)])
    case CheckBit(e) =>
      var j := y.freers[e].j + 1;
      y.(freers := y.freers[e := if j == e.cnt then Clearing(0) else Checking(j)])
    case ClearBit(e) =>
      var j := y.freers[e].j + 1;
      y.(bits := y.bits[e.start + j - 1 := false],
         freers := if j == e.cnt then y.freers - {e} else y.freers[e := Clearing(j)])
  }

  function AfterTest(a: Allocator, bits: seq<bool>): Allocator
    requires a.Scanning? && a.i + a.j < |bits|
  {
    if bits[a.i + a.j] then ScanFrom(bits, a.cnt, a.i + 1)
    else if a.j + 1 == a.cnt then Flipping(a.cnt, a.i, 0)
    else Scanning(a.cnt, a.i, a.j + 1)
  }

  function AfterSet(y: State): State
    requires y.alloc.Flipping? && y.alloc.i + y.alloc.j < |y.bits|
  {
    var a, j := y.alloc, y.alloc.j + 1;
    var y1 := y.(bits := y.bits[a.i + j - 1 := true]);
    if j == a.cnt then y1.(alloc := Idle, live := y.live + {Pages(a.i, a.cnt)})
    else y1.(alloc := Flipping(a.cnt, a.i, j))
  }

  // ---------- Who holds a page ----------

  datatype Holder = Owner(e: Pages) | Freeing(e: Pages) | Locked

  predicate In(p: int, start: nat, end: nat) { start <= p < end }

  ghost predicate Holds(alloc: Allocator, live: set<Pages>, freers: map<Pages, Freer>, h: Holder, p: int) {
    match h
    case Owner(e) => e in live && In(p, e.start, e.start + e.cnt)
    case Freeing(e) => e in freers && In(p, e.start + Cleared(freers[e]), e.start + e.cnt)
    case Locked => alloc.Flipping? && In(p, alloc.i, alloc.i + alloc.j)
  }

  function Cleared(f: Freer): nat { if f.Clearing? then f.j else 0 }

  ghost predicate OneHolder(alloc: Allocator, live: set<Pages>, freers: map<Pages, Freer>) {
    forall h, g, p :: Holds(alloc, live, freers, h, p) && Holds(alloc, live, freers, g, p) ==> h == g
  }

  ghost predicate Marked(bits: seq<bool>, alloc: Allocator, live: set<Pages>, freers: map<Pages, Freer>) {
    forall h, p :: Holds(alloc, live, freers, h, p) ==> 0 <= p < |bits| && bits[p]
  }

  ghost predicate Accounted(bits: seq<bool>, alloc: Allocator, live: set<Pages>, freers: map<Pages, Freer>) {
    forall p :: 0 <= p < |bits| && bits[p] ==> exists h :: Holds(alloc, live, freers, h, p)
  }

  ghost predicate Shapes(live: set<Pages>, freers: map<Pages, Freer>) {
    && (forall e :: e in live ==> e.cnt > 0)
    && (forall e :: e in freers ==> freers[e].j < e.cnt)
  }

  // What the allocator has already seen clear stays clear: others only clear bits.
  ghost predicate SeenClear(bits: seq<bool>, a: Allocator) {
    match a
    case Idle => true
    case Scanning(cnt, i, j) => j < cnt && i + cnt <= |bits| && forall p :: i <= p < i + j ==> !bits[p]
    case Flipping(cnt, i, j) => j < cnt && i + cnt <= |bits| && forall p :: i + j <= p < i + cnt ==> !bits[p]
  }

  ghost predicate Inv(y: State) {
    && OneHolder(y.alloc, y.live, y.freers)
    && Marked(y.bits, y.alloc, y.live, y.freers)
    && Accounted(y.bits, y.alloc, y.live, y.freers)
    && Shapes(y.live, y.freers)
    && SeenClear(y.bits, y.alloc)
  }

  // ---------- Each step ----------

  lemma AllocatorMoves(y: State, a: Allocator)
    requires Inv(y) && !y.alloc.Flipping?
    requires SeenClear(y.bits, a) && (a.Flipping? ==> a.j == 0)
    ensures Inv(y.(alloc := a))
  {
    forall h, p ensures Holds(a, y.live, y.freers, h, p) == Holds(y.alloc, y.live, y.freers, h, p) {}
  }

  // The holders after setting a bit: the flipped part has grown by one page, or
  // has become an allocation.
  lemma SetHolders(y: State, h: Holder, p: int)
    requires Inv(y) && Enabled(y, SetBit)
    ensures var y' := AfterSet(y);
            Holds(y'.alloc, y'.live, y'.freers, h, p) <==>
            if h == Setter(y.alloc) then In(p, y.alloc.i, y.alloc.i + y.alloc.j + 1)
            else h != Locked && Holds(y.alloc, y.live, y.freers, h, p)
  {
    var a := y.alloc;
    var mine := Pages(a.i, a.cnt);
    assert !Holds(a, y.live, y.freers, Owner(mine), a.i + a.j);
  }

  function Setter(a: Allocator): Holder
    requires a.Flipping?
  {
    if a.j + 1 == a.cnt then Owner(Pages(a.i, a.cnt)) else Locked
  }

  lemma SetKeeps(y: State)
    requires Inv(y) && Enabled(y, SetBit)
    ensures Inv(AfterSet(y))
  {
    var y', a := AfterSet(y), y.alloc;
    var p0 := a.i + a.j;
    assert forall h :: !Holds(a, y.live, y.freers, h, p0);
    forall p ensures Holds(a, y.live, y.freers, Locked, p) == In(p, a.i, p0) {}
    forall h, p | Holds(y'.alloc, y'.live, y'.freers, h, p)
      ensures 0 <= p < |y'.bits| && y'.bits[p]
    {
      SetHolders(y, h, p);
      assert In(p, a.i, p0) || p == p0 || Holds(a, y.live, y.freers, h, p);
    }
    forall h, g, p | Holds(y'.alloc, y'.live, y'.freers, h, p) && Holds(y'.alloc, y'.live, y'.freers, g, p)
      ensures h == g
    {
      SetHolders(y, h, p);
      SetHolders(y, g, p);
      assert In(p, a.i, p0) || p == p0 || Holds(a, y.live, y.freers, h, p);
    }
    SetAccounted(y);
  }

  lemma SetAccounted(y: State)
    requires Inv(y) && Enabled(y, SetBit)
    ensures var y' := AfterSet(y); Accounted(y'.bits, y'.alloc, y'.live, y'.freers)
  {
    var y' := AfterSet(y);
    forall p | 0 <= p < |y'.bits| && y'.bits[p]
      ensures exists h :: Holds(y'.alloc, y'.live, y'.freers, h, p)
    {
      if In(p, y.alloc.i, y.alloc.i + y.alloc.j + 1) {
        SetHolders(y, Setter(y.alloc), p);
      } else {
        assert y.bits[p];
        var h :| Holds(y.alloc, y.live, y.freers, h, p);
        SetHolders(y, h, p);
        assert !Holds(y.alloc, y.live, y.freers, Setter(y.alloc), y.alloc.i + y.alloc.j);
      }
    }
  }

  // The holders after a thread starts to free part of an allocation: its pages
  // are divided between what is being freed and what remains.
  lemma BeginHolders(y: State, whole: Pages, part: Pages, h: Holder, p: int)
    requires Inv(y) && Enabled(y, BeginFree(whole, part))
    ensures var y' := Apply(y, BeginFree(whole, part));
            Holds(y'.alloc, y'.live, y'.freers, h, p) <==>
            if h == Freeing(part) then In(p, part.start, part.start + part.cnt)
            else if h.Owner? && h.e in Rest(whole, part) then In(p, h.e.start, h.e.start + h.e.cnt)
            else h != Owner(whole) && Holds(y.alloc, y.live, y.freers, h, p)
  {
  }

  lemma BeginKeeps(y: State, whole: Pages, part: Pages)
    requires Inv(y) && Enabled(y, BeginFree(whole, part))
    ensures Inv(Apply(y, BeginFree(whole, part)))
  {
    var y' := Apply(y, BeginFree(whole, part));
    forall h, p | Holds(y'.alloc, y'.live, y'.freers, h, p)
      ensures 0 <= p < |y.bits| && y.bits[p]
    {
      BeginHolders(y, whole, part, h, p);
      assert Holds(y.alloc, y.live, y.freers, Owner(whole), p) || Holds(y.alloc, y.live, y.freers, h, p);
    }
    forall h, g, p | Holds(y'.alloc, y'.live, y'.freers, h, p) && Holds(y'.alloc, y'.live, y'.freers, g, p)
      ensures h == g
    {
      BeginHolders(y, whole, part, h, p);
      BeginHolders(y, whole, part, g, p);
      assert Holds(y.alloc, y.live, y.freers, Owner(whole), p) || Holds(y.alloc, y.live, y.freers, h, p);
      assert Holds(y.alloc, y.live, y.freers, Owner(whole), p) || Holds(y.alloc, y.live, y.freers, g, p);
    }
    BeginAccounted(y, whole, part);
  }

  lemma BeginAccounted(y: State, whole: Pages, part: Pages)
    requires Inv(y) && Enabled(y, BeginFree(whole, part))
    ensures var y' := Apply(y, BeginFree(whole, part)); Accounted(y'.bits, y'.alloc, y'.live, y'.freers)
  {
    var y' := Apply(y, BeginFree(whole, part));
    var left, right := Pages(whole.start, part.start - whole.start),
                       Pages(part.start + part.cnt, whole.start + whole.cnt - part.start - part.cnt);
    forall p | 0 <= p < |y.bits| && y.bits[p]
      ensures exists h :: Holds(y'.alloc, y'.live, y'.freers, h, p)
    {
      var h :| Holds(y.alloc, y.live, y.freers, h, p);
      var g := if h != Owner(whole) then h
               else if p < part.start then Owner(left)
               else if p < part.start + part.cnt then Freeing(part)
               else Owner(right);
      BeginHolders(y, whole, part, g, p);
    }
  }

  lemma CheckKeeps(y: State, e: Pages)
    requires Inv(y) && Enabled(y, CheckBit(e))
    ensures Inv(Apply(y, CheckBit(e)))
  {
    var y' := Apply(y, CheckBit(e));
    forall h, p ensures Holds(y'.alloc, y'.live, y'.freers, h, p) == Holds(y.alloc, y.live, y.freers, h, p) {}
  }

  // The holders after clearing a bit: that page has none.
  lemma ClearHolders(y: State, e: Pages, h: Holder, p: int)
    requires Inv(y) && Enabled(y, ClearBit(e))
    ensures var y' := Apply(y, ClearBit(e));
            Holds(y'.alloc, y'.live, y'.freers, h, p) <==>
            Holds(y.alloc, y.live, y.freers, h, p) && p != e.start + y.freers[e].j
  {
    var p0 := e.start + y.freers[e].j;
    assert Holds(y.alloc, y.live, y.freers, Freeing(e), p0);
    if h != Freeing(e) {
      assert !Holds(y.alloc, y.live, y.freers, h, p0);
    }
  }

  lemma ClearKeeps(y: State, e: Pages)
    requires Inv(y) && Enabled(y, ClearBit(e))
    ensures Inv(Apply(y, ClearBit(e)))
  {
    var y' := Apply(y, ClearBit(e));
    forall h, p
      ensures Holds(y'.alloc, y'.live, y'.freers, h, p) <==>
              Holds(y.alloc, y.live, y.freers, h, p) && p != e.start + y.freers[e].j
    {
      ClearHolders(y, e, h, p);
    }
    forall p | 0 <= p < |y'.bits| && y'.bits[p]
      ensures exists h :: Holds(y'.alloc, y'.live, y'.freers, h, p)
    {
      assert y.bits[p];
      var h :| Holds(y.alloc, y.live, y.freers, h, p);
      assert Holds(y'.alloc, y'.live, y'.freers, h, p);
    }
  }

  lemma StepKeeps(y: State, s: Step)
    requires Inv(y) && Enabled(y, s)
    ensures Inv(Apply(y, s))
  {
    match s
    case Request(cnt) => AllocatorMoves(y, ScanFrom(y.bits, cnt, 0));
    case TestBit => AllocatorMoves(y, AfterTest(y.alloc, y.bits));
    case SetBit => SetKeeps(y);
    case BeginFree(whole, part) => BeginKeeps(y, whole, part);
    case CheckBit(e) => CheckKeeps(y, e);
    case ClearBit(e) => ClearKeeps(y, e);
  }

  // ---------- Whole runs ----------

  predicate StepAt(run: seq<State>, steps: seq<Step>, k: nat)
    requires k < |steps| && |run| == |steps| + 1
  {
    Enabled(run[k], steps[k]) && run[k + 1] == Apply(run[k], steps[k])
  }

  ghost predicate IsRun(run: seq<State>, steps: seq<Step>) {
    && |run| == |steps| + 1
    && Init(run[0])
    && forall k :: 0 <= k < |steps| ==> StepAt(run, steps, k)
  }

  lemma {:induction false} InvAlways(run: seq<State>, steps: seq<Step>, k: nat)
    requires IsRun(run, steps) && k < |run|
    ensures Inv(run[k])
  {
    if k > 0 {
      InvAlways(run, steps, k - 1);
      assert StepAt(run, steps, k - 1);
      StepKeeps(run[k - 1], steps[k - 1]);
    }
  }

  /** No page p is ever in two outstanding allocations, every page of one is
      marked used, and a page still being freed is in none. */
  lemma NoPageTwice(run: seq<State>, steps: seq<Step>, k: nat, p: nat, e: Pages, f: Pages)
    requires IsRun(run, steps) && k < |run|
    requires e in run[k].live && e.start <= p < e.start + e.cnt
    ensures p < |run[k].bits| && run[k].bits[p]
    ensures f in run[k].live && f.start <= p < f.start + f.cnt ==> e == f
    ensures f in run[k].freers ==> !(f.start + Cleared(run[k].freers[f]) <= p < f.start + f.cnt)
  {
    InvAlways(run, steps, k);
    var y := run[k];
    assert Holds(y.alloc, y.live, y.freers, Owner(e), p);
    assert Holds(y.alloc, y.live, y.freers, Owner(f), p) ==> e == f;
    assert !Holds(y.alloc, y.live, y.freers, Freeing(f), p);
  }

  /** The assertion in palloc_free_multiple() that its pages are all in use
      never fails: in every reachable state each bit that a freeing thread has
      not cleared yet is set. And the allocator marks only pages that nobody
      holds: each bit that it has yet to set is clear. */
  lemma AssertionHolds(run: seq<State>, steps: seq<Step>, k: nat, e: Pages, p: nat)
    requires IsRun(run, steps) && k < |run|
    ensures var y := run[k];
            e in y.freers && e.start + Cleared(y.freers[e]) <= p < e.start + e.cnt ==> p < |y.bits| && y.bits[p]
    ensures var y := run[k];
            y.alloc.Flipping? && y.alloc.i + y.alloc.j <= p < y.alloc.i + y.alloc.cnt ==> p < |y.bits| && !y.bits[p]
  {
    InvAlways(run, steps, k);
    var y := run[k];
    if e in y.freers && e.start + Cleared(y.freers[e]) <= p < e.start + e.cnt {
      assert Holds(y.alloc, y.live, y.freers, Freeing(e), p);
    }
  }

  /** When nothing is outstanding the pool is empty again. */
  lemma AllReturned(run: seq<State>, steps: seq<Step>, k: nat)
    requires IsRun(run, steps) && k < |run|
    requires run[k].live == {} && run[k].freers == map[] && !run[k].alloc.Flipping?
    ensures RunAt(run[k].bits, 0, |run[k].bits|, false)
  {
    InvAlways(run, steps, k);
  }

  /** The enabling conditions' bounds on bit indices always hold: a thread that
      is scanning, flipping or freeing can always take its next step. */
  lemma NeverStuck(run: seq<State>, steps: seq<Step>, k: nat, e: Pages)
    requires IsRun(run, steps) && k < |run|
    ensures run[k].alloc.Scanning? ==> Enabled(run[k], TestBit)
    ensures run[k].alloc.Flipping? ==> Enabled(run[k], SetBit)
    ensures e in run[k].freers ==> Enabled(run[k], CheckBit(e)) || Enabled(run[k], ClearBit(e))
  {
    InvAlways(run, steps, k);
    var y := run[k];
    if e in y.freers {
      assert Holds(y.alloc, y.live, y.freers, Freeing(e), e.start + y.freers[e].j);
    }
  }

  // ---------- A call by itself ----------

  // The state when the allocator is through, if no one else does anything.
  ghost function Alone(y: State): State
    requires SeenClear(y.bits, y.alloc)
    decreases if y.alloc.Scanning? then 1 else 0, if y.alloc.Idle? then 0 else |y.bits| - y.alloc.i,
              if y.alloc.Idle? then 0 else y.alloc.cnt - y.alloc.j
  {
    match y.alloc
    case Idle => y
    case Scanning(_, _, _) => Alone(Apply(y, TestBit))
    case Flipping(_, _, _) => Alone(Apply(y, SetBit))
  }

  lemma {:induction false} FlipAlone(y: State)
    requires y.alloc.Flipping? && SeenClear(y.bits, y.alloc)
    ensures var a := y.alloc;
            Alone(y) == State(Filled(y.bits, a.i + a.j, a.cnt - a.j, true), Idle, y.live + {Pages(a.i, a.cnt)},
                              y.freers)
    decreases y.alloc.cnt - y.alloc.j
  {
    var a, y' := y.alloc, Apply(y, SetBit);
    if a.j + 1 < a.cnt { FlipAlone(y'); }
    assert Filled(y.bits, a.i + a.j, a.cnt - a.j, true) ==
           if a.j + 1 < a.cnt then Filled(y'.bits, a.i + a.j + 1, a.cnt - a.j - 1, true) else y'.bits;
  }

  // What an allocation of cnt pages, searched for from place i on, leads to.
  ghost predicate Allocated(y: State, y': State, cnt: nat, i: nat) {
    match FirstFit(y.bits, i, cnt, false)
    case None => y' == y.(alloc := Idle)
    case Some(k) => k + cnt <= |y.bits|
                    && y' == State(Filled(y.bits, k, cnt, true), Idle, y.live + {Pages(k, cnt)}, y.freers)
  }

  lemma {:induction false} ScanAlone(y: State)
    requires y.alloc.Scanning? && SeenClear(y.bits, y.alloc)
    ensures Allocated(y, Alone(y), y.alloc.cnt, y.alloc.i)
    decreases |y.bits| - y.alloc.i, y.alloc.cnt - y.alloc.j
  {
    var a, y' := y.alloc, Apply(y, TestBit);
    if y.bits[a.i + a.j] {
      assert !RunAt(y.bits, a.i, a.cnt, false);
      if y'.alloc.Scanning? { ScanAlone(y'); }
    } else if a.j + 1 == a.cnt {
      assert RunAt(y.bits, a.i, a.cnt, false);
      FlipAlone(y');
    } else {
      ScanAlone(y');
    }
  }

  /** palloc_get_multiple() by itself: the lowest run of free pages becomes the
      caller's, and nothing changes exactly when there is none. */
  lemma AllocatesLowest(y: State, cnt: nat)
    requires y.alloc.Idle? && cnt > 0
    ensures Enabled(y, Request(cnt)) && SeenClear(y.bits, Apply(y, Request(cnt)).alloc)
    ensures Allocated(y, Alone(Apply(y, Request(cnt))), cnt, 0)
  {
    var y' := Apply(y, Request(cnt));
    if y'.alloc.Scanning? { ScanAlone(y'); }
  }

  // The state when the thread that frees e is through, if no one else does
  // anything.
  ghost function Freed(y: State, e: Pages): State
    requires e in y.freers && y.freers[e].j < e.cnt && e.start + e.cnt <= |y.bits|
    decreases if y.freers[e].Checking? then 1 else 0, e.cnt - y.freers[e].j
  {
    var y' := Apply(y, if y.freers[e].Checking? then CheckBit(e) else ClearBit(e));
    if e in y'.freers then Freed(y', e) else y'
  }

  lemma {:induction false} FreedClear(y: State, e: Pages)
    requires e in y.freers && y.freers[e].j < e.cnt && e.start + e.cnt <= |y.bits|
    ensures var j := Cleared(y.freers[e]);
            Freed(y, e) == y.(bits := Filled(y.bits, e.start + j, e.cnt - j, false), freers := y.freers - {e})
    decreases if y.freers[e].Checking? then 1 else 0, e.cnt - y.freers[e].j
  {
    var y' := Apply(y, if y.freers[e].Checking? then CheckBit(e) else ClearBit(e));
    if e in y'.freers {
      FreedClear(y', e);
      assert y'.freers - {e} == y.freers - {e};
    }
    if y.freers[e].Clearing? {
      var j := y.freers[e].j;
      assert Filled(y.bits, e.start + j, e.cnt - j, false) ==
             if j + 1 < e.cnt then Filled(y'.bits, e.start + j + 1, e.cnt - j - 1, false) else y'.bits;
    }
  }

  /** palloc_free_multiple() by itself: exactly the pages given become free, and
      the owner keeps the rest. */
  lemma FreesExactly(y: State, whole: Pages, part: Pages)
    requires whole in y.live && Inside(part, whole) && whole.start + whole.cnt <= |y.bits| && part !in y.freers
    ensures var y' := Freed(Apply(y, BeginFree(whole, part)), part);
            && y'.bits == Filled(y.bits, part.start, part.cnt, false) && y'.freers == y.freers
            && y'.live == y.live - {whole} + Rest(whole, part) && y'.alloc == y.alloc
  {
    var y1 := Apply(y, BeginFree(whole, part));
    FreedClear(y1, part);
    assert y1.freers - {part} == y.freers;
  }

  /** What the owner keeps of an allocation is what it does not free. */
  lemma RestExactly(whole: Pages, part: Pages, p: nat)
    requires Inside(part, whole)
    ensures (exists e :: e in Rest(whole, part) && e.start <= p < e.start + e.cnt) <==>
            whole.start <= p < whole.start + whole.cnt && !(part.start <= p < part.start + part.cnt)
  {
    var left, right := Pages(whole.start, part.start - whole.start),
                       Pages(part.start + part.cnt, whole.start + whole.cnt - part.start - part.cnt);
    if whole.start <= p < part.start { assert left in Rest(whole, part); }
    if part.start + part.cnt <= p < whole.start + whole.cnt { assert right in Rest(whole, part); }
  }
}
