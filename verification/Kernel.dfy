/** The scheduler, the alarm list and the synchronization primitives
    (threads/thread.c, threads/synch.c) as a transition system.

    One step is one stretch of code that nothing can come between: a section
    with interrupts off, a single store such as `lock->holder = NULL`, the work
    of cond_wait() and cond_signal() on a list of waiters, which the monitor's
    lock guards, or the making of an object that no one else can know yet.
    A thread that calls thread_block() inside sema_down() leaves the CPU in the
    middle of the function, so its program counter `pc` records where it is. */
module Kernel {
  import opened Sequences

  type Tid = nat

  datatype Status = Running | Ready | Blocked | Dying

  // A semaphore of the kernel's own, a lock's, or the one on a waiter's stack.
  datatype SemId = Plain(id: nat) | LockSem(lock: nat) | WaitSem(ticket: nat)

  /** `value` and `waiters` are the C structure; the other three count what has
      happened to it: its initial value, completed ups and completed downs. */
  datatype Sema = Sema(value: nat, waiters: seq<Tid>, initial: nat, ups: nat, downs: nat)

  // Whether a lock operation was called directly or from inside cond_wait().
  datatype Caller = Direct | CondWait(ticket: nat, cond: nat)

  datatype Pc =
    | User                                   // between kernel calls
    | IdleLoop                               // the idle thread
    | Newborn(parent: Tid)                   // initialised, not yet unblocked
    | Creating(child: Tid)                   // thread_create(), before thread_unblock()
    | Sleeping                               // in thread_sleep()
    | Downing(sem: SemId, via: Caller)        // in sema_down()'s loop, after thread_block()
    | SetHolder(lock: nat, via: Caller)       // sema_down() done, holder not yet stored
    | RelUp(lock: nat, via: Caller)           // holder cleared, sema_up() not yet called
    | WaitRel(ticket: nat, cond: nat)        // cond_wait(), before lock_release()
    | WaitDown(ticket: nat, cond: nat)       // cond_wait(), before sema_down()
    | Reacq(ticket: nat, cond: nat)          // cond_wait(), before lock_acquire()
    | SigUp(ticket: nat, cond: nat, all: bool) // cond_signal(), waiter popped
    | Bcast(cond: nat)                       // cond_broadcast(), at the loop test

  // One completed sleep: who, when it was requested, for how long, in which
  // order of request, and the tick that ended it.
  datatype Wakeup = Wakeup(tid: Tid, from: int, length: int, number: int, at: int)

  /** thread.c's state; the last five fields are history. */
  datatype Threads = Threads(
    status: map<Tid, Status>,
    ready: seq<Tid>,
    cur: Tid,
    idle: Tid,
    slice: nat,                // thread_ticks
    ticks: int,
    slept: seq<Tid>,           // already_slept
    wake: map<Tid, int>,       // time_ticks
    scheds: nat,               // calls of schedule()
    from: map<Tid, int>,       // tick at which a thread called thread_sleep()
    number: map<Tid, int>,     // and its place among all such calls
    sleeps: nat,
    log: seq<Wakeup>)

  /** synch.c's state; from `owner` on, the fields are history. */
  datatype Sync = Sync(
    semas: map<SemId, Sema>,
    holder: map<nat, Option<Tid>>,
    monitor: map<nat, nat>,         // the lock that goes with each condition variable
    conds: map<nat, seq<nat>>,      // the waiters of each condition variable
    owner: map<nat, Option<Tid>>,   // who is between a lock's sema_down and sema_up
    tickets: nat,                   // calls of cond_wait()
    arrived: map<nat, seq<nat>>,    // tickets in order of arrival, per condition
    popped: map<nat, seq<nat>>,     // tickets in order of signal, per condition
    signaler: map<nat, (Tid, nat)>, // who popped a ticket, from which condition
    upped: set<nat>,                // tickets whose semaphore was upped
    passed: set<nat>,               // tickets whose owner got past its sema_down
    returned: set<nat>)             // tickets whose cond_wait returned

  datatype State = State(th: Threads, pc: map<Tid, Pc>, sy: Sync)

  const TIME_SLICE := 4

  // ---------- thread.c ----------

  /** schedule(): the caller has already changed the running thread's status. */
  function Schedule(h: Threads): Threads {
    var next := if h.ready == [] then h.idle else h.ready[0];
    h.(ready := if h.ready == [] then [] else h.ready[1..],
       cur := next,
       status := h.status[next := Running],
       slice := 0,
       scheds := h.scheds + 1)
  }

  function Block(h: Threads): Threads {
    Schedule(h.(status := h.status[h.cur := Blocked]))
  }

  function Unblock(h: Threads, t: Tid): Threads {
    h.(ready := h.ready + [t], status := h.status[t := Ready])
  }

  function Yield(h: Threads): Threads {
    Schedule(h.(ready := if h.cur != h.idle then h.ready + [h.cur] else h.ready,
                status := h.status[h.cur := Ready]))
  }

  function Exit(h: Threads): Threads {
    Schedule(h.(status := h.status[h.cur := Dying]))
  }

  // A member of struct thread, which init_thread() zeroes.
  function Get(m: map<Tid, int>, t: Tid): int {
    if t in m then m[t] else 0
  }

  /** Where list_insert_ordered() puts a thread that is due at `w`: before the
      first sleeper that is due strictly later. */
  function InsertPoint(slept: seq<Tid>, wake: map<Tid, int>, w: int): (k: nat)
    ensures k <= |slept|
    ensures forall i :: 0 <= i < k ==> Get(wake, slept[i]) <= w
    ensures k < |slept| ==> w < Get(wake, slept[k])
  {
    if slept == [] || w < Get(wake, slept[0]) then 0 else 1 + InsertPoint(slept[1..], wake, w)
  }

  // thread_sleep() up to thread_block().
  function Enlist(h: Threads, n: int): Threads {
    var w := n + h.ticks;
    var wake := h.wake[h.cur := w];
    var k := InsertPoint(h.slept, wake, w);
    h.(wake := wake,
       slept := h.slept[..k] + [h.cur] + h.slept[k..],
       from := h.from[h.cur := h.ticks],
       number := h.number[h.cur := h.sleeps],
       sleeps := h.sleeps + 1)
  }

  /** One turn of update_slept_threads()'s loop that wakes a thread. */
  function WakeFirst(h: Threads): Threads
    requires h.slept != []
  {
    var t := h.slept[0];
    var from := Get(h.from, t);
    Unblock(h.(slept := h.slept[1..],
               log := h.log + [Wakeup(t, from, Get(h.wake, t) - from, Get(h.number, t), h.ticks)]), t)
  }

  function WakeDue(h: Threads): Threads
    decreases |h.slept|
  {
    if h.slept != [] && Get(h.wake, h.slept[0]) <= h.ticks then WakeDue(WakeFirst(h)) else h
  }

  // yield_on_return, as thread_tick() and update_slept_threads() set it.
  predicate TickYields(h: Threads) {
    h.slice + 1 >= TIME_SLICE || (h.slept != [] && h.slice + 2 >= TIME_SLICE)
  }

  function Clock(h: Threads): Threads {
    h.(ticks := h.ticks + 1, slice := h.slice + 1)
  }

  /** The timer interrupt: timer_interrupt(), thread_tick() and the yield that
      intr_handler() performs on the way out. */
  function Tick(h: Threads): Threads {
    var h' := WakeDue(Clock(h));
    if TickYields(h) then Yield(h') else h'
  }

  // ---------- synch.c ----------

  // Where a thread goes on once sema_down(m) has decremented the value.
  function AfterDown(m: SemId, via: Caller): Pc {
    match m
    case Plain(_) => User
    case LockSem(l) => SetHolder(l, via)
    case WaitSem(w) => if via.CondWait? then Reacq(w, via.cond) else User
  }

  // A decrement by thread t, with its history.
  function Take(y: Sync, m: SemId, t: Tid): Sync
    requires m in y.semas && y.semas[m].value > 0
  {
    var x := y.semas[m];
    var y' := y.(semas := y.semas[m := x.(value := x.value - 1, downs := x.downs + 1)]);
    match m
    case Plain(_) => y'
    case LockSem(l) => y'.(owner := y.owner[l := Some(t)])
    case WaitSem(w) => y'.(passed := y.passed + {w})
  }

  // Thread t joins the waiters of m.
  function Join(y: Sync, m: SemId, t: Tid): Sync
    requires m in y.semas
  {
    var x := y.semas[m];
    y.(semas := y.semas[m := x.(waiters := x.waiters + [t])])
  }

  /** One test of sema_down()'s loop: decrement, or join the waiters and block. */
  function Down(s: State, m: SemId, via: Caller): State
    requires m in s.sy.semas
  {
    if s.sy.semas[m].value == 0 then
      State(Block(s.th), s.pc[s.th.cur := Downing(m, via)], Join(s.sy, m, s.th.cur))
    else
      s.(pc := s.pc[s.th.cur := AfterDown(m, via)], sy := Take(s.sy, m, s.th.cur))
  }

  // The semaphore's side of sema_up().
  function Give(y: Sync, m: SemId): Sync
    requires m in y.semas
  {
    var x := y.semas[m];
    y.(semas := y.semas[m := x.(value := x.value + 1, ups := x.ups + 1,
                                waiters := if x.waiters == [] then [] else x.waiters[1..])])
  }

  /** sema_up(): wake the first waiter, if any, and increment. */
  function Up(s: State, m: SemId): State
    requires m in s.sy.semas
  {
    var q := s.sy.semas[m].waiters;
    s.(th := if q == [] then s.th else Unblock(s.th, q[0]), sy := Give(s.sy, m))
  }

  function TryDown(s: State, m: SemId): State
    requires m in s.sy.semas
  {
    if s.sy.semas[m].value > 0 then Down(s, m, Direct) else s
  }

  // sema_try_down() called by an interrupt handler: no thread moves.
  function IrqTryDown(s: State, m: nat): State
    requires Plain(m) in s.sy.semas
  {
    var x := s.sy.semas[Plain(m)];
    if x.value == 0 then s
    else s.(sy := s.sy.(semas := s.sy.semas[Plain(m) := x.(value := x.value - 1, downs := x.downs + 1)]))
  }

  function SetPc(s: State, p: Pc): State {
    s.(pc := s.pc[s.th.cur := p])
  }

  function StoreHolder(s: State, l: nat, via: Caller): State {
    SetPc(s.(sy := s.sy.(holder := s.sy.holder[l := Some(s.th.cur)],
                         returned := if via.CondWait? then s.sy.returned + {via.ticket} else s.sy.returned)), User)
  }

  function ClearHolder(s: State, l: nat, via: Caller): State {
    SetPc(s.(sy := s.sy.(holder := s.sy.holder[l := None])), RelUp(l, via))
  }

  function ReleaseUp(s: State, l: nat, via: Caller): State
    requires LockSem(l) in s.sy.semas
  {
    Up(SetPc(s.(sy := s.sy.(owner := s.sy.owner[l := None])),
             if via.CondWait? then WaitDown(via.ticket, via.cond) else User),
       LockSem(l))
  }

  /** cond_wait() up to lock_release(): a fresh semaphore joins the queue. */
  function CondEnqueue(s: State, c: nat): State
    requires c in s.sy.conds && c in s.sy.arrived
  {
    var y, w := s.sy, s.sy.tickets;
    SetPc(s.(sy := y.(semas := y.semas[WaitSem(w) := Sema(0, [], 0, 0, 0)],
                      conds := y.conds[c := y.conds[c] + [w]],
                      tickets := w + 1,
                      arrived := y.arrived[c := y.arrived[c] + [w]])), WaitRel(w, c))
  }

  /** cond_signal() up to sema_up(): pop the first waiter, if any. */
  function CondPop(s: State, c: nat, all: bool): State
    requires c in s.sy.conds && c in s.sy.popped
  {
    var y := s.sy;
    if y.conds[c] == [] then
      SetPc(s, User)
    else
      var w := y.conds[c][0];
      SetPc(s.(sy := y.(conds := y.conds[c := y.conds[c][1..]],
                        popped := y.popped[c := y.popped[c] + [w]],
                        signaler := y.signaler[w := (s.th.cur, c)])), SigUp(w, c, all))
  }

  function SignalUp(s: State, w: nat, c: nat, all: bool): State
    requires WaitSem(w) in s.sy.semas
  {
    Up(SetPc(s.(sy := s.sy.(upped := s.sy.upped + {w})), if all then Bcast(c) else User), WaitSem(w))
  }

  /** cond_broadcast() up to the first cond_signal(), which asserts the lock;
      when nobody waits there is none. */
  function Broadcast(s: State, c: nat): State
    requires c in s.sy.conds
  {
    if s.sy.conds[c] == [] then s else SetPc(s, Bcast(c))
  }

  // ---------- The transition system ----------

  datatype Action =
    | Timer                      // timer interrupt
    | IrqUp(m: nat)              // sema_up() from an interrupt handler
    | IrqTry(m: nat)             // sema_try_down() from an interrupt handler
    | Advance                    // the running thread goes on inside a kernel call
    // calls that the running thread makes from its own code
    | CallYield | CallExit | CallCreate(t: Tid) | CallSleep(n: int)
    | CallSemaInit(m: nat, value: nat) | CallLockInit(l: nat) | CallCondInit(c: nat, l: nat)
    | CallDown(m: nat) | CallTryDown(m: nat) | CallUp(m: nat)
    | CallAcquire(l: nat) | CallTryAcquire(l: nat) | CallRelease(l: nat)
    | CallWait(c: nat) | CallSignal(c: nat) | CallBroadcast(c: nat)

  // Interrupts are off from thread_block() until sema_down()'s loop has made
  // its test again or thread_sleep() returns, and nowhere else between steps.
  predicate InterruptsOn(s: State) {
    s.th.cur in s.pc && !s.pc[s.th.cur].Downing? && !s.pc[s.th.cur].Sleeping?
  }

  predicate IsCall(a: Action) {
    !a.Timer? && !a.IrqUp? && !a.IrqTry? && !a.Advance?
  }

  // The thread holds the lock of condition variable c.
  predicate Holds(y: Sync, t: Tid, c: nat) {
    && c in y.conds && c in y.monitor && c in y.arrived && c in y.popped
    && y.monitor[c] in y.holder && y.holder[y.monitor[c]] == Some(t)
  }

  // What lock_acquire() asserts.
  predicate MayAcquire(y: Sync, t: Tid, l: nat) {
    LockSem(l) in y.semas && l in y.holder && y.holder[l] != Some(t)
  }

  /** When an action can happen.  For calls these are the C functions' own
      assertions, and that no live semaphore, lock or condition is initialised. */
  predicate Enabled(s: State, a: Action) {
    && s.th.cur in s.pc
    && (IsCall(a) ==> s.pc[s.th.cur] == User)
    && match a
       case Timer => InterruptsOn(s)
       case IrqUp(m) => InterruptsOn(s) && Plain(m) in s.sy.semas
       case IrqTry(m) => InterruptsOn(s) && Plain(m) in s.sy.semas
       case Advance => CanAdvance(s)
       case CallYield => true
       case CallExit => true
       case CallCreate(t) => t !in s.th.status && t !in s.pc
       case CallSleep(_) => true
       case CallSemaInit(m, _) => Plain(m) !in s.sy.semas
       case CallLockInit(l) => LockSem(l) !in s.sy.semas && l !in s.sy.holder
       case CallCondInit(c, l) => l in s.sy.holder && c !in s.sy.conds && c !in s.sy.monitor
       case CallDown(m) => Plain(m) in s.sy.semas
       case CallTryDown(m) => Plain(m) in s.sy.semas
       case CallUp(m) => Plain(m) in s.sy.semas
       case CallAcquire(l) => MayAcquire(s.sy, s.th.cur, l)
       case CallTryAcquire(l) => MayAcquire(s.sy, s.th.cur, l)
       case CallRelease(l) => l in s.sy.holder && s.sy.holder[l] == Some(s.th.cur)
       case CallWait(c) => Holds(s.sy, s.th.cur, c)
       case CallSignal(c) => Holds(s.sy, s.th.cur, c)
       case CallBroadcast(c) => c in s.sy.conds && (s.sy.conds[c] != [] ==> Holds(s.sy, s.th.cur, c))
  }

  // The running thread is inside a kernel call, and the assertions that the
  // rest of the call makes hold.
  predicate CanAdvance(s: State)
    requires s.th.cur in s.pc
  {
    var y, t := s.sy, s.th.cur;
    match s.pc[t]
    case User => false
    case IdleLoop => true
    case Newborn(_) => false
    case Creating(c) => c in s.pc && c in s.th.status && s.th.status[c] == Blocked
    case Sleeping => true
    case Downing(m, _) => m in y.semas
    case SetHolder(l, _) => l in y.holder
    case RelUp(l, _) => LockSem(l) in y.semas && l in y.owner
    case WaitRel(_, c) => Holds(y, t, c)
    case WaitDown(w, _) => WaitSem(w) in y.semas
    case Reacq(_, c) => c in y.monitor && MayAcquire(y, t, y.monitor[c])
    case SigUp(w, _, _) => WaitSem(w) in y.semas
    case Bcast(c) => Holds(y, t, c)
  }

  function AdvanceStep(s: State): State
    requires s.th.cur in s.pc && CanAdvance(s)
  {
    match s.pc[s.th.cur]
    case IdleLoop => s.(th := Block(s.th))
    case Creating(t) => State(Unblock(s.th, t), s.pc[t := User][s.th.cur := User], s.sy)
    case Sleeping => SetPc(s, User)
    case Downing(m, via) => Down(s, m, via)
    case SetHolder(l, via) => StoreHolder(s, l, via)
    case RelUp(l, via) => ReleaseUp(s, l, via)
    case WaitRel(w, c) => ClearHolder(s, s.sy.monitor[c], CondWait(w, c))
    case WaitDown(w, c) => Down(s, WaitSem(w), CondWait(w, c))
    case Reacq(w, c) => Down(s, LockSem(s.sy.monitor[c]), CondWait(w, c))
    case SigUp(w, c, all) => SignalUp(s, w, c, all)
    case Bcast(c) => CondPop(s, c, true)
  }

  function Step(s: State, a: Action): State
    requires Enabled(s, a)
  {
    match a
    case Timer => s.(th := Tick(s.th))
    case IrqUp(m) => Up(s, Plain(m))
    case IrqTry(m) => IrqTryDown(s, m)
    case Advance => AdvanceStep(s)
    case CallYield => s.(th := Yield(s.th))
    case CallExit => s.(th := Exit(s.th))
    case CallCreate(t) => s.(th := s.th.(status := s.th.status[t := Blocked]),
                             pc := s.pc[t := Newborn(s.th.cur)][s.th.cur := Creating(t)])
    case CallSleep(n) => SetPc(s, Sleeping).(th := Block(Enlist(s.th, n)))
    case CallSemaInit(m, v) => s.(sy := s.sy.(semas := s.sy.semas[Plain(m) := Sema(v, [], v, 0, 0)]))
    case CallLockInit(l) => s.(sy := LockInit(s.sy, l))
    case CallCondInit(c, l) => s.(sy := CondInit(s.sy, c, l))
    case CallDown(m) => Down(s, Plain(m), Direct)
    case CallTryDown(m) => TryDown(s, Plain(m))
    case CallUp(m) => Up(s, Plain(m))
    case CallAcquire(l) => Down(s, LockSem(l), Direct)
    case CallTryAcquire(l) => TryDown(s, LockSem(l))
    case CallRelease(l) => ClearHolder(s, l, Direct)
    case CallWait(c) => CondEnqueue(s, c)
    case CallSignal(c) => CondPop(s, c, false)
    case CallBroadcast(c) => Broadcast(s, c)
  }

  function LockInit(y: Sync, l: nat): Sync {
    y.(semas := y.semas[LockSem(l) := Sema(1, [], 1, 0, 0)], holder := y.holder[l := None], owner := y.owner[l := None])
  }

  function CondInit(y: Sync, c: nat, l: nat): Sync {
    y.(conds := y.conds[c := []], monitor := y.monitor[c := l], arrived := y.arrived[c := []],
       popped := y.popped[c := []])
  }

  /** The state thread_start() leaves behind: the initial thread runs, the idle
      thread is blocked, and no synchronization object exists yet. */
  ghost predicate Init(s: State) {
    && InitThreads(s.th)
    && s.pc == map[s.th.cur := User, s.th.idle := IdleLoop]
    && s.sy == Sync(map[], map[], map[], map[], map[], 0, map[], map[], map[], {}, {}, {})
  }

  ghost predicate InitThreads(h: Threads) {
    && h.cur != h.idle && h.status == map[h.cur := Running, h.idle := Blocked]
    && h.ready == [] && h.slept == [] && h.slice == 0
    && h.sleeps == 0 && h.log == [] && h.scheds == 0
  }

  ghost predicate Next(s: State, s': State) {
    exists a :: Enabled(s, a) && s' == Step(s, a)
  }

  ghost predicate StepAt(run: seq<State>, i: nat)
    requires 0 < i < |run|
  {
    Next(run[i - 1], run[i])
  }

  /** Every interleaving of every program: any finite run of the system. */
  ghost predicate IsRun(run: seq<State>) {
    && run != [] && Init(run[0])
    && forall i :: 0 < i < |run| ==> StepAt(run, i)
  }
}
