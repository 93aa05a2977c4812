/** thread.c and synch.c as they are written: globals updated in place.

    Each method is the part of a C function that runs without interruption.
    Do() is one step of the machine, with the program counters of the threads
    saying which code comes next, and Execute() is a whole program with all that
    interrupts it.  Both are runs of the transition system, so what the other
    Kernel modules prove of every run holds of these variables. */
module KernelObject {
  import opened Kernel
  import opened KernelCond
  import opened KernelMonitor
  import opened KernelPlaces
  import opened KernelSync
  import opened KernelTime
  import opened Sequences

  // Actions that can happen, each when its turn comes.
  ghost predicate CanRun(s: State, acts: seq<Action>)
    decreases |acts|
  {
    acts == [] || (Enabled(s, acts[0]) && CanRun(Step(s, acts[0]), acts[1..]))
  }

  /** Everything proved of reachable states: each thread in its one place, no
      wake-up lost, locks exclusive, condition variables in order, no sleeper
      overdue, and no time slice overrun. */
  ghost predicate Safe(s: State) {
    Places(s) && NoLoss(s) && Locks(s.pc, s.sy) && Conds(s.pc, s.sy) && Alarm(s.th) && s.th.slice < TIME_SLICE
  }

  lemma SafeAlways(run: seq<State>, i: nat)
    requires IsRun(run) && i < |run|
    ensures Safe(run[i])
  {
    PlacesAlways(run, i);
    NoLossAlways(run, i);
    LocksAlways(run, i);
    CondsAlways(run, i);
    AlarmAlways(run, i);
    SliceAlways(run, i);
  }

  lemma RunGrows(run: seq<State>, a: Action)
    requires IsRun(run) && Enabled(run[|run| - 1], a)
    ensures IsRun(run + [Step(run[|run| - 1], a)])
  {
    var run' := run + [Step(run[|run| - 1], a)];
    forall i | 0 < i < |run'| ensures StepAt(run', i) {
      if i < |run| { assert StepAt(run, i); }
    }
  }

  // Thread t was given the CPU at step i of the run or later.
  ghost predicate DispatchedSince(run: seq<State>, i: nat, t: Tid) {
    exists d :: i <= d < |run| && run[d].th.cur == t
  }

  lemma AllSafe(run: seq<State>)
    requires IsRun(run)
    ensures AlwaysSafe(run)
  {
    forall i | 0 <= i < |run| ensures Safe(run[i]) { SafeAlways(run, i); }
  }

  // By the end of the run, enough ticks after its state i, all of the first k
  // threads of the ready list at i have had the CPU.
  ghost predicate Served(run: seq<State>, i: nat, k: nat)
    requires i < |run| && k < |run[i].th.ready|
  {
    run[|run| - 1].th.ticks - run[i].th.ticks >= 4 * (k + 1) ==> DispatchedSince(run, i + 1, run[i].th.ready[k])
  }

  ghost predicate ServedInTurn(run: seq<State>, i: nat)
    requires i < |run|
  {
    forall k :: 0 <= k < |run[i].th.ready| ==> Served(run, i, k)
  }

  lemma AllServed(run: seq<State>, i: nat)
    requires IsRun(run) && i < |run|
    ensures ServedInTurn(run, i)
  {
    forall k | 0 <= k < |run[i].th.ready| ensures Served(run, i, k) {
      if run[|run| - 1].th.ticks - run[i].th.ticks >= 4 * (k + 1) { BoundedWaiting(run, i, k, |run| - 1); }
    }
  }

  ghost predicate AlwaysSafe(run: seq<State>) {
    forall i :: 0 <= i < |run| ==> Safe(run[i])
  }

  // The run goes on from `before`, was never unsafe, is not so now, and has
  // served those who were ready then.
  ghost predicate RanSafely(before: seq<State>, run: seq<State>, now: State) {
    && 0 < |before| <= |run| && before <= run && run[|run| - 1] == now
    && AlwaysSafe(run) && Safe(now) && ServedInTurn(run, |before| - 1)
  }

  lemma RunIsSafe(before: seq<State>, run: seq<State>, now: State)
    requires IsRun(run) && 0 < |before| <= |run| && before <= run && run[|run| - 1] == now
    ensures RanSafely(before, run, now)
  {
    AllSafe(run);
    AllServed(run, |before| - 1);
  }

  class System {
    // thread.c
    var status: map<Tid, Status>
    var readyList: seq<Tid>
    var current: Tid
    var idleThread: Tid
    var threadTicks: nat
    var ticks: int
    var alreadySlept: seq<Tid>
    var timeTicks: map<Tid, int>
    // synch.c
    var semas: map<SemId, Sema>
    var holder: map<nat, Option<Tid>>
    var conds: map<nat, seq<nat>>
    // Each thread's stack: where it is in the code, the lock that it passes
    // with each condition variable, and the next semaphore for cond_wait().
    var pc: map<Tid, Pc>
    var monitor: map<nat, nat>
    var tickets: nat
    // history
    ghost var th: Threads
    ghost var sy: Sync
    ghost var run: seq<State>

    ghost function Th(): Threads
      reads this
    {
      th.(status := status, ready := readyList, cur := current, idle := idleThread, slice := threadTicks,
          ticks := ticks, slept := alreadySlept, wake := timeTicks)
    }

    ghost function Sy(): Sync
      reads this
    {
      sy.(semas := semas, holder := holder, conds := conds, monitor := monitor, tickets := tickets)
    }

    ghost function View(): State
      reads this
    {
      State(Th(), pc, Sy())
    }

    // What happened so far is a run that leads to the present state.
    ghost predicate Valid()
      reads this
    {
      IsRun(run) && run[|run| - 1] == View()
    }

    constructor (main: Tid, idle: Tid, now: int)
      requires main != idle
      ensures Valid() && Init(View()) && ticks == now
    {
      status, readyList := map[main := Running, idle := Blocked], [];
      current, idleThread, threadTicks, ticks := main, idle, 0, now;
      alreadySlept, timeTicks := [], map[];
      semas, holder, conds, monitor, tickets := map[], map[], map[], map[], 0;
      pc := map[main := User, idle := IdleLoop];
      th := Threads(map[], [], 0, 0, 0, 0, [], map[], 0, map[], map[], 0, []);
      sy := Sync(map[], map[], map[], map[], map[], 0, map[], map[], map[], {}, {}, {});
      new;
      run := [View()];
    }

    // ---------- thread.c ----------

    method NextThreadToRun() returns (next: Tid)
      modifies this`readyList
      ensures next == if old(readyList) == [] then idleThread else old(readyList)[0]
      ensures readyList == if old(readyList) == [] then [] else old(readyList)[1..]
    {
      if readyList == [] {
        next := idleThread;
      } else {
        next := readyList[0];
        readyList := readyList[1..];
      }
    }

    method DoSchedule()
      modifies this`readyList, this`current, this`status, this`threadTicks, this`th
      ensures Th() == Schedule(old(Th()))
    {
      var next := NextThreadToRun();
      current := next;
      // thread_schedule_tail()
      status := status[current := Running];
      threadTicks := 0;
      th := th.(scheds := th.scheds + 1);
    }

    method ThreadBlock()
      modifies this`readyList, this`current, this`status, this`threadTicks, this`th
      ensures Th() == Block(old(Th()))
    {
      status := status[current := Blocked];
      DoSchedule();
    }

    method ThreadUnblock(t: Tid)
      modifies this`readyList, this`status
      ensures Th() == Unblock(old(Th()), t)
    {
      readyList := readyList + [t];
      status := status[t := Ready];
    }

    method ThreadYield()
      modifies this`readyList, this`current, this`status, this`threadTicks, this`th
      ensures Th() == Yield(old(Th()))
    {
      if current != idleThread {
        readyList := readyList + [current];
      }
      status := status[current := Ready];
      DoSchedule();
    }

    method ThreadExit()
      modifies this`readyList, this`current, this`status, this`threadTicks, this`th
      ensures Th() == Exit(old(Th()))
    {
      status := status[current := Dying];
      DoSchedule();
    }

    /** list_insert_ordered() on the sleep list, by thread_comparable_time_ticks(). */
    method InsertOrdered(t: Tid, due: int)
      modifies this`alreadySlept
      ensures var k := InsertPoint(old(alreadySlept), timeTicks, due);
              alreadySlept == old(alreadySlept)[..k] + [t] + old(alreadySlept)[k..]
    {
      var k := 0;
      while k < |alreadySlept|
        invariant 0 <= k <= |alreadySlept|
        invariant forall i :: 0 <= i < k ==> Get(timeTicks, alreadySlept[i]) <= due
      {
        if due < Get(timeTicks, alreadySlept[k]) {
          break;
        }
        k := k + 1;
      }
      InsertPointUnique(alreadySlept, timeTicks, due, k);
      alreadySlept := alreadySlept[..k] + [t] + alreadySlept[k..];
    }

    // thread_sleep() up to thread_block().
    method EnlistCurrent(n: int)
      modifies this`timeTicks, this`alreadySlept, this`th
      ensures Th() == Enlist(old(Th()), n)
    {
      ghost var h := Enlist(Th(), n);
      timeTicks := timeTicks[current := n + ticks];
      assert timeTicks == h.wake;
      InsertOrdered(current, n + ticks);
      assert alreadySlept == h.slept;
      th := th.(from := th.from[current := ticks], number := th.number[current := th.sleeps], sleeps := th.sleeps + 1);
    }

    method ThreadSleep(n: int)
      modifies this`timeTicks, this`alreadySlept, this`th, this`readyList, this`current, this`status, this`threadTicks
      ensures Th() == Block(Enlist(old(Th()), n))
    {
      EnlistCurrent(n);
      ThreadBlock();
    }

    // Wakes the first sleeper.
    method WakeHead()
      requires alreadySlept != []
      modifies this`alreadySlept, this`readyList, this`status, this`th
      ensures Th() == WakeFirst(old(Th()))
    {
      var t := alreadySlept[0];
      th := th.(log := th.log + [Wakeup(t, Get(th.from, t), Get(timeTicks, t) - Get(th.from, t),
                                        Get(th.number, t), ticks)]);
      alreadySlept := alreadySlept[1..];
      ThreadUnblock(t);
    }

    method UpdateSleptThreads()
      modifies this`alreadySlept, this`readyList, this`status, this`th
      ensures Th() == WakeDue(old(Th()))
    {
      while alreadySlept != []
        invariant WakeDue(Th()) == WakeDue(old(Th()))
        decreases |alreadySlept|
      {
        if Get(timeTicks, alreadySlept[0]) <= ticks {
          WakeHead();
        } else {
          break;
        }
      }
    }

    // thread_tick() and the wake-ups: whether the interrupt is to yield.
    method CountTick() returns (yieldOnReturn: bool)
      modifies this`alreadySlept, this`readyList, this`status, this`th, this`ticks, this`threadTicks
      ensures Th() == WakeDue(Clock(old(Th()))) && (yieldOnReturn <==> TickYields(old(Th())))
    {
      yieldOnReturn := false;
      ticks := ticks + 1;
      threadTicks := threadTicks + 1;
      assert Th() == Clock(old(Th()));
      if threadTicks >= TIME_SLICE {
        yieldOnReturn := true;
      }
      if alreadySlept != [] {
        if threadTicks + 1 >= TIME_SLICE {
          yieldOnReturn := true;
        }
        UpdateSleptThreads();
      }
    }

    /** The timer interrupt, from timer_interrupt() to the yield on return. */
    method TimerInterrupt()
      modifies this`alreadySlept, this`readyList, this`status, this`th, this`ticks, this`threadTicks, this`current
      ensures Th() == Tick(old(Th()))
    {
      var yieldOnReturn := CountTick();
      if yieldOnReturn {
        ThreadYield();
      }
    }

    // ---------- synch.c ----------

    /** One test of sema_down()'s loop.  If the value is zero the thread has left
        the CPU when this returns, and tests again when it is next dispatched. */
    method SemaDownTest(m: SemId) returns (taken: bool)
      requires m in semas
      modifies this`semas, this`sy, this`readyList, this`current, this`status, this`threadTicks, this`th
      ensures taken <==> old(semas)[m].value > 0
      ensures Th() == if taken then old(Th()) else Block(old(Th()))
      ensures Sy() == if taken then Take(old(Sy()), m, old(current)) else Join(old(Sy()), m, old(current))
    {
      taken := SemaTryDown(m);
      if !taken {
        var x := semas[m];
        semas := semas[m := x.(waiters := x.waiters + [current])];
        ThreadBlock();
      }
    }

    method SemaTryDown(m: SemId) returns (success: bool)
      requires m in semas
      modifies this`semas, this`sy
      ensures success <==> old(semas)[m].value > 0
      ensures Sy() == if success then Take(old(Sy()), m, current) else old(Sy())
    {
      var x := semas[m];
      success := x.value > 0;
      if success {
        semas := semas[m := x.(value := x.value - 1, downs := x.downs + 1)];
        sy := match m
              case Plain(_) => sy
              case LockSem(l) => sy.(owner := sy.owner[l := Some(current)])
              case WaitSem(w) => sy.(passed := sy.passed + {w});
      }
    }

    method SemaUp(m: SemId)
      requires m in semas
      modifies this`semas, this`readyList, this`status
      ensures View() == Up(old(View()), m)
    {
      var x := semas[m];
      var rest := x.waiters;
      if x.waiters != [] {
        rest := x.waiters[1..];
        ThreadUnblock(x.waiters[0]);
      }
      semas := semas[m := x.(value := x.value + 1, ups := x.ups + 1, waiters := rest)];
    }

    // ---------- The machine ----------

    // The running thread is in sema_down(m), called from `via`.
    method StepDown(m: SemId, via: Caller)
      requires m in semas
      modifies this`semas, this`sy, this`readyList, this`current, this`status, this`threadTicks, this`th, this`pc
      ensures View() == Down(old(View()), m, via)
    {
      var t := current;
      var taken := SemaDownTest(m);
      pc := pc[t := if taken then AfterDown(m, via) else Downing(m, via)];
    }

    method StepTryDown(m: SemId) returns (success: bool)
      requires m in semas
      modifies this`semas, this`sy, this`pc
      ensures success <==> old(semas)[m].value > 0
      ensures m in semas && semas == old(semas)[m := semas[m]] && semas[m].waiters == old(semas)[m].waiters
      ensures semas[m].value == old(semas)[m].value - if success then 1 else 0
      ensures View() == TryDown(old(View()), m)
    {
      success := SemaTryDown(m);
      if success {
        pc := pc[current := AfterDown(m, Direct)];
      }
    }

    // cond_signal() and cond_broadcast() pop the first waiter, if any.
    method StepPop(c: nat, all: bool)
      requires c in conds && c in Sy().popped
      modifies this`conds, this`pc, this`sy
      ensures View() == CondPop(old(View()), c, all)
    {
      if conds[c] == [] {
        pc := pc[current := User];
      } else {
        var w := conds[c][0];
        conds := conds[c := conds[c][1..]];
        sy := sy.(popped := sy.popped[c := sy.popped[c] + [w]], signaler := sy.signaler[w := (current, c)]);
        pc := pc[current := SigUp(w, c, all)];
      }
    }

    // cond_wait() up to lock_release().
    method StepEnqueue(c: nat)
      requires c in conds && c in Sy().arrived
      modifies this`semas, this`conds, this`pc, this`sy, this`tickets
      ensures View() == CondEnqueue(old(View()), c)
    {
      var w := tickets;
      JoinCond(c);
      pc := pc[current := WaitRel(w, c)];
    }

    method JoinCond(c: nat)
      requires c in conds && c in Sy().arrived
      modifies this`semas, this`conds, this`sy, this`tickets
      ensures Sy() == CondEnqueue(old(View()), c).sy
    {
      var w := tickets;
      SemaInit(WaitSem(w), 0);
      conds := conds[c := conds[c] + [w]];
      tickets := tickets + 1;
      sy := sy.(arrived := sy.arrived[c := sy.arrived[c] + [w]]);
    }

    // The first store of lock_release(), and the sema_up() that follows it.
    method StepClear(l: nat, via: Caller)
      modifies this`holder, this`pc
      ensures View() == ClearHolder(old(View()), l, via)
    {
      holder := holder[l := None];
      pc := pc[current := RelUp(l, via)];
    }

    method StepReleaseUp(l: nat, via: Caller)
      requires LockSem(l) in semas
      modifies this`semas, this`readyList, this`status, this`pc, this`sy
      ensures View() == ReleaseUp(old(View()), l, via)
    {
      sy := sy.(owner := sy.owner[l := None]);
      pc := pc[current := if via.CondWait? then WaitDown(via.ticket, via.cond) else User];
      SemaUp(LockSem(l));
    }

    // The last store of lock_acquire() and lock_try_acquire().
    method StepStore(l: nat, via: Caller)
      modifies this`holder, this`pc, this`sy
      ensures View() == StoreHolder(old(View()), l, via)
    {
      holder := holder[l := Some(current)];
      sy := sy.(returned := if via.CondWait? then sy.returned + {via.ticket} else sy.returned);
      pc := pc[current := User];
    }

    method StepSignalUp(w: nat, c: nat, all: bool)
      requires WaitSem(w) in semas
      modifies this`semas, this`readyList, this`status, this`pc, this`sy
      ensures View() == SignalUp(old(View()), w, c, all)
    {
      sy := sy.(upped := sy.upped + {w});
      pc := pc[current := if all then Bcast(c) else User];
      SemaUp(WaitSem(w));
    }

    method StepSleep(n: int)
      requires Enabled(View(), CallSleep(n))
      modifies this`timeTicks, this`alreadySlept, this`th, this`readyList, this`current, this`status
      modifies this`threadTicks, this`pc
      ensures View() == Step(old(View()), CallSleep(n))
    {
      var t := current;
      ThreadSleep(n);
      pc := pc[t := Sleeping];
    }

    // thread_create() up to thread_unblock().
    method StepCreate(t: Tid)
      requires Enabled(View(), CallCreate(t))
      modifies this`status, this`pc
      ensures View() == Step(old(View()), CallCreate(t))
    {
      status := status[t := Blocked];
      pc := pc[t := Newborn(current)][current := Creating(t)];
    }

    method SemaInit(m: SemId, value: nat)
      modifies this`semas
      ensures Sy() == old(Sy()).(semas := old(semas)[m := Sema(value, [], value, 0, 0)])
    {
      semas := semas[m := Sema(value, [], value, 0, 0)];
    }

    method StepLockInit(l: nat)
      modifies this`semas, this`holder, this`sy
      ensures Sy() == LockInit(old(Sy()), l)
    {
      holder := holder[l := None];
      SemaInit(LockSem(l), 1);
      sy := sy.(owner := sy.owner[l := None]);
    }

    method StepCondInit(c: nat, l: nat)
      modifies this`conds, this`monitor, this`sy
      ensures Sy() == CondInit(old(Sy()), c, l)
    {
      conds, monitor := conds[c := []], monitor[c := l];
      sy := sy.(arrived := sy.arrived[c := []], popped := sy.popped[c := []]);
    }

    // The end of thread_create().
    method StepUnblock(t: Tid)
      modifies this`readyList, this`status, this`pc
      ensures View() == State(Unblock(old(Th()), t), old(pc)[t := User][current := User], old(Sy()))
    {
      ThreadUnblock(t);
      pc := pc[t := User][current := User];
    }

    // The running thread goes on inside its kernel call.
    method StepAdvance()
      requires Enabled(View(), Advance)
      modifies this
      ensures View() == Step(old(View()), Advance) && run == old(run)
    {
      match pc[current]
      case IdleLoop => ThreadBlock();
      case Creating(t) => StepUnblock(t);
      case Sleeping => pc := pc[current := User];
      case Downing(m, via) => StepDown(m, via);
      case SetHolder(l, via) => StepStore(l, via);
      case RelUp(l, via) => StepReleaseUp(l, via);
      case WaitRel(w, c) => StepClear(monitor[c], CondWait(w, c));
      case WaitDown(w, c) => StepDown(WaitSem(w), CondWait(w, c));
      case Reacq(w, c) => StepDown(LockSem(monitor[c]), CondWait(w, c));
      case SigUp(w, c, all) => StepSignalUp(w, c, all);
      case Bcast(c) => StepPop(c, true);
    }

    // The running thread makes a call that concerns threads, or none.
    method StepThreadCall(a: Action)
      requires Enabled(View(), a)
      requires a.Timer? || a.CallYield? || a.CallExit? || a.CallCreate? || a.CallSleep?
      modifies this
      ensures View() == Step(old(View()), a) && run == old(run)
    {
      match a
      case Timer => TimerInterrupt();
      case CallYield => ThreadYield();
      case CallExit => ThreadExit();
      case CallCreate(t) => StepCreate(t);
      case CallSleep(n) => StepSleep(n);
    }

    method StepSemaCall(a: Action)
      requires Enabled(View(), a)
      requires a.IrqUp? || a.IrqTry? || a.CallSemaInit? || a.CallDown? || a.CallTryDown? || a.CallUp?
      modifies this
      ensures View() == Step(old(View()), a) && run == old(run)
    {
      match a
      case IrqUp(m) => SemaUp(Plain(m));
      case IrqTry(m) => var _ := SemaTryDown(Plain(m));
      case CallSemaInit(m, v) => SemaInit(Plain(m), v);
      case CallDown(m) => StepDown(Plain(m), Direct);
      case CallTryDown(m) => var _ := StepTryDown(Plain(m));
      case CallUp(m) => SemaUp(Plain(m));
    }

    method StepLockCall(a: Action)
      requires Enabled(View(), a)
      requires a.CallLockInit? || a.CallAcquire? || a.CallTryAcquire? || a.CallRelease?
      modifies this
      ensures View() == Step(old(View()), a) && run == old(run)
    {
      match a
      case CallLockInit(l) => StepLockInit(l);
      case CallAcquire(l) => StepDown(LockSem(l), Direct);
      case CallTryAcquire(l) => var _ := StepTryDown(LockSem(l));
      case CallRelease(l) => StepClear(l, Direct);
    }

    method StepCondCall(a: Action)
      requires Enabled(View(), a)
      requires a.CallCondInit? || a.CallWait? || a.CallSignal? || a.CallBroadcast?
      modifies this
      ensures View() == Step(old(View()), a) && run == old(run)
    {
      match a
      case CallCondInit(c, l) => StepCondInit(c, l);
      case CallWait(c) => StepEnqueue(c);
      case CallSignal(c) => StepPop(c, false);
      case CallBroadcast(c) => if conds[c] != [] { pc := pc[current := Bcast(c)]; }
    }

    method StepAction(a: Action)
      requires Enabled(View(), a)
      modifies this
      ensures View() == Step(old(View()), a) && run == old(run)
    {
      if a.Advance? {
        StepAdvance();
      } else if a.Timer? || a.CallYield? || a.CallExit? || a.CallCreate? || a.CallSleep? {
        StepThreadCall(a);
      } else if a.CallLockInit? || a.CallAcquire? || a.CallTryAcquire? || a.CallRelease? {
        StepLockCall(a);
      } else if a.CallCondInit? || a.CallWait? || a.CallSignal? || a.CallBroadcast? {
        StepCondCall(a);
      } else {
        StepSemaCall(a);
      }
    }

    /** The code does one step of the transition system, whichever thread is at
        whatever point, and adds it to the run so far. */
    method Do(a: Action)
      requires Valid() && Enabled(View(), a)
      modifies this
      ensures Valid() && View() == Step(old(View()), a) && run == old(run) + [View()]
    {
      StepAction(a);
      RunGrows(run, a);
      run := run + [View()];
    }

    /** Whatever the threads call and whenever they are interrupted, the kernel's
        variables are in a safe state afterwards, every state on the way was
        safe, and whoever was at place k of the ready list has had the CPU if
        4(k+1) ticks have passed. */
    method Execute(acts: seq<Action>)
      requires Valid() && CanRun(View(), acts)
      modifies this
      ensures Valid() && old(run) <= run && |run| == |old(run)| + |acts|
      ensures RanSafely(old(run), run, View())
    {
      ghost var before := run;
      DoAll(acts);
      RunIsSafe(before, run, View());
    }

    method DoAll(acts: seq<Action>)
      requires Valid() && CanRun(View(), acts)
      modifies this
      ensures Valid() && old(run) <= run && |run| == |old(run)| + |acts|
    {
      for i := 0 to |acts|
        invariant Valid() && CanRun(View(), acts[i..]) && old(run) <= run && |run| == |old(run)| + i
      {
        CanRunNext(View(), acts, i);
        Do(acts[i]);
      }
    }
  }

  lemma CanRunNext(s: State, acts: seq<Action>, i: nat)
    requires i < |acts| && CanRun(s, acts[i..])
    ensures Enabled(s, acts[i]) && CanRun(Step(s, acts[i]), acts[i + 1..])
  {
    assert acts[i..][1..] == acts[i + 1..];
  }

  lemma {:induction false} InsertPointUnique(slept: seq<Tid>, wake: map<Tid, int>, w: int, k: nat)
    requires k <= |slept|
    requires forall i :: 0 <= i < k ==> Get(wake, slept[i]) <= w
    requires k < |slept| ==> w < Get(wake, slept[k])
    ensures InsertPoint(slept, wake, w) == k
  {}
}
