/** Every thread is in exactly one place. */
module KernelPlaces {
  import opened Kernel
  import opened Sequences

  // ---------- The invariant ----------

  ghost predicate ReadyExact(ready: seq<Tid>, status: map<Tid, Status>, idle: Tid) {
    && NoDup(ready)
    && forall t :: t in ready <==> t in status && status[t] == Ready && t != idle
  }

  ghost predicate Sleeps(status: map<Tid, Status>, pc: map<Tid, Pc>, t: Tid) {
    t in status && t in pc && status[t] == Blocked && pc[t] == Sleeping
  }

  ghost predicate SleptExact(slept: seq<Tid>, status: map<Tid, Status>, pc: map<Tid, Pc>) {
    && NoDup(slept)
    && forall t :: t in slept <==> Sleeps(status, pc, t)
  }

  // The semaphore that thread t is blocked on, if any.
  ghost function BlockedOn(status: map<Tid, Status>, pc: map<Tid, Pc>, t: Tid): Option<SemId> {
    if t in status && status[t] == Blocked && t in pc && pc[t].Downing? then Some(pc[t].sem) else None
  }

  // The waiters of semaphore m are the threads blocked in sema_down(m).
  ghost predicate QueueExact(q: seq<Tid>, m: SemId, status: map<Tid, Status>, pc: map<Tid, Pc>) {
    && NoDup(q)
    && forall t :: t in q <==> BlockedOn(status, pc, t) == Some(m)
  }

  ghost predicate QueuesExact(semas: map<SemId, Sema>, status: map<Tid, Status>, pc: map<Tid, Pc>) {
    && (forall m :: m in semas ==> QueueExact(semas[m].waiters, m, status, pc))
    && (forall t :: t in pc && pc[t].Downing? ==> pc[t].sem in semas)
  }

  ghost predicate Known(status: map<Tid, Status>, pc: map<Tid, Pc>, idle: Tid) {
    && pc.Keys == status.Keys
    && idle in pc && pc[idle] == IdleLoop && status[idle] != Dying
    && (forall t :: t in pc && pc[t] == IdleLoop ==> t == idle)
    && (forall t, c :: t in pc && pc[t] == Creating(c) ==> c in pc && pc[c] == Newborn(t))
    && (forall t :: t in pc && pc[t].Newborn? ==> status[t] == Blocked)
    && (forall t :: t in pc && status[t] == Dying ==> pc[t] == User)
  }

  ghost predicate Lists(s: State) {
    && Known(s.th.status, s.pc, s.th.idle)
    && ReadyExact(s.th.ready, s.th.status, s.th.idle)
    && SleptExact(s.th.slept, s.th.status, s.pc)
    && QueuesExact(s.sy.semas, s.th.status, s.pc)
  }

  ghost predicate OneRuns(h: Threads) {
    h.cur in h.status && forall t :: t in h.status ==> (h.status[t] == Running <==> t == h.cur)
  }

  ghost predicate NoneRuns(h: Threads) {
    forall t :: t in h.status ==> h.status[t] != Running
  }

  /** thread.h's rule for `elem`, and more: one thread runs, the ready list is
      exactly the ready threads other than idle, and the sleepers and each
      semaphore's waiters are exactly the threads blocked there. */
  ghost predicate Places(s: State) {
    Lists(s) && OneRuns(s.th)
  }

  lemma InitPlaces(s: State)
    requires Init(s)
    ensures Places(s)
  {}

  // ---------- Primitives ----------

  lemma AppendNoDup(q: seq<nat>, t: nat)
    requires NoDup(q) && t !in q
    ensures NoDup(q + [t])
    ensures forall u :: u in q + [t] <==> u in q || u == t
  {}

  lemma PopNoDup(q: seq<nat>)
    requires NoDup(q) && q != []
    ensures NoDup(q[1..])
    ensures forall u :: u in q[1..] <==> u in q && u != q[0]
  {
    assert q == [q[0]] + q[1..];
  }

  // Threads that stay blocked on the same semaphores, or none, keep the lists exact.
  lemma QueuesSame(semas: map<SemId, Sema>, semas': map<SemId, Sema>,
                   status: map<Tid, Status>, status': map<Tid, Status>, pc: map<Tid, Pc>, pc': map<Tid, Pc>)
    requires QueuesExact(semas, status, pc)
    requires forall m :: m in semas' ==> m in semas && semas'[m].waiters == semas[m].waiters
    requires forall t: Tid :: BlockedOn(status', pc', t) == BlockedOn(status, pc, t)
    requires forall t :: t in pc' && pc'[t].Downing? ==> pc'[t].sem in semas'
    ensures QueuesExact(semas', status', pc')
  {
    forall m | m in semas' ensures QueueExact(semas'[m].waiters, m, status', pc') {
      assert QueueExact(semas[m].waiters, m, status, pc);
    }
  }

  lemma ScheduleKeeps(s: State)
    requires Lists(s) && NoneRuns(s.th)
    ensures Places(s.(th := Schedule(s.th)))
  {
    var h, h' := s.th, Schedule(s.th);
    ScheduleReady(h);
    assert h'.status == h.status[h'.cur := Running];
    StatusKnown(h.status, s.pc, h.idle, h'.cur, Running);
    assert forall t: Tid :: Sleeps(h'.status, s.pc, t) == Sleeps(h.status, s.pc, t);
    QueuesSame(s.sy.semas, s.sy.semas, h.status, h'.status, s.pc, s.pc);
  }

  // The thread that schedule() picks was ready, or is the idle thread.
  lemma ScheduleReady(h: Threads)
    requires ReadyExact(h.ready, h.status, h.idle) && h.idle in h.status && NoneRuns(h)
    ensures var h' := Schedule(h);
            && ReadyExact(h'.ready, h'.status, h'.idle) && OneRuns(h')
            && h'.cur in h.status && (h.status[h'.cur] == Ready || h'.cur == h.idle)
  {
    if h.ready != [] {
      PopNoDup(h.ready);
      assert h.ready[0] in h.ready;
    }
  }

  lemma StatusKnown(status: map<Tid, Status>, pc: map<Tid, Pc>, idle: Tid, t: Tid, x: Status)
    requires Known(status, pc, idle) && t in pc && !pc[t].Newborn? && (x == Dying ==> pc[t] == User)
    ensures Known(status[t := x], pc, idle)
  {}

  // The running thread, not waiting for anything, gives up the CPU.
  lemma LeaveKeeps(s: State, x: Status)
    requires Places(s) && (x == Dying || x == Blocked || (x == Ready && s.th.cur == s.th.idle))
    requires s.pc[s.th.cur] == User || s.pc[s.th.cur] == IdleLoop
    requires x == Dying ==> s.pc[s.th.cur] == User
    ensures Places(s.(th := Schedule(s.th.(status := s.th.status[s.th.cur := x]))))
  {
    var h := s.th.(status := s.th.status[s.th.cur := x]);
    StatusKnown(s.th.status, s.pc, h.idle, h.cur, x);
    assert forall t: Tid :: Sleeps(h.status, s.pc, t) == Sleeps(s.th.status, s.pc, t);
    QueuesSame(s.sy.semas, s.sy.semas, s.th.status, h.status, s.pc, s.pc);
    ScheduleKeeps(s.(th := h));
  }

  lemma YieldKeeps(s: State)
    requires Places(s)
    ensures Places(s.(th := Yield(s.th)))
  {
    var h := s.th;
    var h' := h.(ready := if h.cur != h.idle then h.ready + [h.cur] else h.ready, status := h.status[h.cur := Ready]);
    AppendNoDup(h.ready, h.cur);
    StatusKnown(h.status, s.pc, h.idle, h.cur, Ready);
    assert ReadyExact(h'.ready, h'.status, h'.idle);
    assert forall t: Tid :: Sleeps(h'.status, s.pc, t) == Sleeps(h.status, s.pc, t);
    QueuesSame(s.sy.semas, s.sy.semas, h.status, h'.status, s.pc, s.pc);
    ScheduleKeeps(s.(th := h'));
  }

  lemma UnblockReady(h: Threads, t: Tid)
    requires ReadyExact(h.ready, h.status, h.idle) && t in h.status && h.status[t] == Blocked && t != h.idle
    ensures ReadyExact(h.ready + [t], h.status[t := Ready], h.idle)
  {
    AppendNoDup(h.ready, t);
  }

  // ---------- The alarm list ----------

  lemma InsertNoDup(q: seq<nat>, k: nat, t: nat)
    requires NoDup(q) && t !in q && k <= |q|
    ensures NoDup(q[..k] + [t] + q[k..])
    ensures forall u :: u in q[..k] + [t] + q[k..] <==> u in q || u == t
  {
    assert q == q[..k] + q[k..];
  }

  lemma SleepKeeps(s: State, n: int)
    requires Places(s) && s.pc[s.th.cur] == User
    ensures Places(SetPc(s, Sleeping).(th := Block(Enlist(s.th, n))))
  {
    var h := Enlist(s.th, n);
    EnlistLists(s, h);
    ScheduleKeeps(SetPc(s, Sleeping).(th := h.(status := h.status[h.cur := Blocked])));
  }

  lemma EnlistLists(s: State, h: Threads)
    requires Places(s) && s.pc[s.th.cur] == User
    requires h.status == s.th.status && h.ready == s.th.ready && h.cur == s.th.cur && h.idle == s.th.idle
    requires exists k :: 0 <= k <= |s.th.slept| && h.slept == s.th.slept[..k] + [h.cur] + s.th.slept[k..]
    ensures var h' := h.(status := h.status[h.cur := Blocked]); Lists(SetPc(s, Sleeping).(th := h')) && NoneRuns(h')
  {
    var k :| 0 <= k <= |s.th.slept| && h.slept == s.th.slept[..k] + [h.cur] + s.th.slept[k..];
    InsertNoDup(s.th.slept, k, h.cur);
    var status, pc := h.status[h.cur := Blocked], s.pc[h.cur := Sleeping];
    SleptMore(s.th.slept, h.slept, h.status, s.pc, h.cur);
    QueuesSame(s.sy.semas, s.sy.semas, h.status, status, s.pc, pc);
    BusyKnown(h.status, s.pc, h.idle, h.cur, Blocked, Sleeping);
    assert ReadyExact(h.ready, status, h.idle);
  }

  lemma SleptMore(slept: seq<Tid>, slept': seq<Tid>, status: map<Tid, Status>, pc: map<Tid, Pc>, t: Tid)
    requires SleptExact(slept, status, pc) && NoDup(slept') && forall u :: u in slept' <==> u == t || u in slept
    ensures SleptExact(slept', status[t := Blocked], pc[t := Sleeping])
  {
    var status', pc' := status[t := Blocked], pc[t := Sleeping];
    assert forall u: Tid :: Sleeps(status', pc', u) <==> u == t || Sleeps(status, pc, u);
  }

  lemma BusyKnown(status: map<Tid, Status>, pc: map<Tid, Pc>, idle: Tid, t: Tid, x: Status, p: Pc)
    requires Known(status, pc, idle) && t in pc && Free(pc[t]) && Free(p) && x != Dying
    ensures Known(status[t := x], pc[t := p], idle)
  {}

  lemma WakeFirstKeeps(s: State)
    requires Places(s) && s.th.slept != []
    ensures Places(s.(th := WakeFirst(s.th)))
  {
    var h := s.th;
    var t := h.slept[0];
    assert t in h.slept;
    PopNoDup(h.slept);
    UnblockReady(h, t);
    StatusKnown(h.status, s.pc, h.idle, t, Ready);
    var status := h.status[t := Ready];
    assert forall u: Tid :: Sleeps(status, s.pc, u) <==> u != t && Sleeps(h.status, s.pc, u);
    QueuesSame(s.sy.semas, s.sy.semas, h.status, status, s.pc, s.pc);
  }

  lemma {:induction false} WakeDueKeeps(s: State)
    requires Places(s)
    ensures Places(s.(th := WakeDue(s.th)))
    decreases |s.th.slept|
  {
    if s.th.slept != [] && Get(s.th.wake, s.th.slept[0]) <= s.th.ticks {
      WakeFirstKeeps(s);
      WakeDueKeeps(s.(th := WakeFirst(s.th)));
    }
  }

  lemma TickKeeps(s: State)
    requires Places(s)
    ensures Places(s.(th := Tick(s.th)))
  {
    var s0 := s.(th := Clock(s.th));
    WakeDueKeeps(s0);
    YieldKeeps(s0.(th := WakeDue(s0.th)));
  }

  // ---------- Semaphores ----------

  // A program counter that puts its thread in no list and no special role.
  predicate Free(p: Pc) {
    p != IdleLoop && !p.Creating? && !p.Newborn?
  }

  /** Steps that move the running thread's program counter and leave the
      scheduler and every waiting list alone. */
  lemma PcKeeps(s: State, p: Pc, y: Sync)
    requires Places(s) && Free(s.pc[s.th.cur]) && Free(p) && !p.Downing?
    requires y.semas.Keys == s.sy.semas.Keys
    requires forall m :: m in y.semas ==> y.semas[m].waiters == s.sy.semas[m].waiters
    ensures Places(SetPc(s, p).(sy := y))
  {
    var status, pc := s.th.status, s.pc[s.th.cur := p];
    PcKnown(status, s.pc, s.th.idle, s.th.cur, p);
    assert forall t: Tid :: Sleeps(status, pc, t) == Sleeps(status, s.pc, t);
    QueuesSame(s.sy.semas, y.semas, status, status, s.pc, pc);
  }

  lemma PcKnown(status: map<Tid, Status>, pc: map<Tid, Pc>, idle: Tid, t: Tid, p: Pc)
    requires Known(status, pc, idle) && t in pc && Free(pc[t]) && Free(p) && status[t] != Dying
    ensures Known(status, pc[t := p], idle)
  {}

  lemma JoinKeeps(s: State, m: SemId, via: Caller)
    requires Places(s) && m in s.sy.semas && Free(s.pc[s.th.cur])
    ensures var h := s.th.(status := s.th.status[s.th.cur := Blocked]);
            Lists(State(h, s.pc[h.cur := Downing(m, via)], Join(s.sy, m, h.cur))) && NoneRuns(h)
  {
    var t := s.th.cur;
    var status, pc := s.th.status[t := Blocked], s.pc[t := Downing(m, via)];
    JoinQueues(s.sy, s.th.status, s.pc, m, via, t);
    assert forall u: Tid :: Sleeps(status, pc, u) == Sleeps(s.th.status, s.pc, u);
    BusyKnown(s.th.status, s.pc, s.th.idle, t, Blocked, Downing(m, via));
    assert ReadyExact(s.th.ready, status, s.th.idle);
  }

  lemma JoinQueues(y: Sync, status: map<Tid, Status>, pc: map<Tid, Pc>, m: SemId, via: Caller, t: Tid)
    requires QueuesExact(y.semas, status, pc) && m in y.semas && t in status && t in pc && status[t] != Blocked
    ensures QueuesExact(Join(y, m, t).semas, status[t := Blocked], pc[t := Downing(m, via)])
  {
    var status', pc', y' := status[t := Blocked], pc[t := Downing(m, via)], Join(y, m, t);
    assert QueueExact(y.semas[m].waiters, m, status, pc);
    AppendNoDup(y.semas[m].waiters, t);
    forall u: Tid ensures BlockedOn(status', pc', u) == if u == t then Some(m) else BlockedOn(status, pc, u) {}
    forall n | n in y'.semas ensures QueueExact(y'.semas[n].waiters, n, status', pc') {
      assert QueueExact(y.semas[n].waiters, n, status, pc);
    }
  }

  lemma DownKeeps(s: State, m: SemId, via: Caller)
    requires Places(s) && m in s.sy.semas && Free(s.pc[s.th.cur])
    ensures Places(Down(s, m, via))
  {
    var h, x := s.th, s.sy.semas[m];
    if x.value == 0 {
      JoinKeeps(s, m, via);
      ScheduleKeeps(State(h.(status := h.status[h.cur := Blocked]), s.pc[h.cur := Downing(m, via)],
                          Join(s.sy, m, h.cur)));
    } else {
      PcKeeps(s, AfterDown(m, via), Take(s.sy, m, h.cur));
    }
  }

  lemma UpKeeps(s: State, m: SemId)
    requires Places(s) && m in s.sy.semas
    ensures Places(Up(s, m))
  {
    var h, x := s.th, s.sy.semas[m];
    assert QueueExact(x.waiters, m, h.status, s.pc);
    var s' := Up(s, m);
    if x.waiters != [] {
      var t := x.waiters[0];
      assert t in x.waiters;
      PopNoDup(x.waiters);
      UnblockReady(h, t);
      StatusKnown(h.status, s.pc, h.idle, t, Ready);
      assert forall u: Tid :: Sleeps(s'.th.status, s.pc, u) == Sleeps(h.status, s.pc, u);
      assert forall u: Tid :: BlockedOn(s'.th.status, s.pc, u) == if u == t then None else BlockedOn(h.status, s.pc, u);
    }
    forall n | n in s'.sy.semas ensures QueueExact(s'.sy.semas[n].waiters, n, s'.th.status, s'.pc) {
      assert QueueExact(s.sy.semas[n].waiters, n, h.status, s.pc);
    }
  }

  lemma NewSemaKeeps(s: State, m: SemId, y: Sync)
    requires Places(s) && m !in s.sy.semas
    requires exists x: Sema :: x.waiters == [] && y.semas == s.sy.semas[m := x]
    ensures Places(s.(sy := y))
  {
    forall n | n in y.semas ensures QueueExact(y.semas[n].waiters, n, s.th.status, s.pc) {
      if n != m { assert QueueExact(s.sy.semas[n].waiters, n, s.th.status, s.pc); }
    }
  }

  // ---------- Creation ----------

  lemma CreateKeeps(s: State, t: Tid)
    requires Places(s) && s.pc[s.th.cur] == User && t !in s.pc
    ensures Places(State(s.th.(status := s.th.status[t := Blocked]),
                         s.pc[t := Newborn(s.th.cur)][s.th.cur := Creating(t)], s.sy))
  {
    var status, pc := s.th.status[t := Blocked], s.pc[t := Newborn(s.th.cur)][s.th.cur := Creating(t)];
    CreateKnown(s.th.status, s.pc, s.th.idle, s.th.cur, t);
    NewbornReady(s.th.ready, s.th.status, s.th.idle, t);
    NewbornPlaces(s.th.status, status, s.pc, pc, s.th.cur, t);
    QueuesSame(s.sy.semas, s.sy.semas, s.th.status, status, s.pc, pc);
    SleptSame(s.th.slept, s.th.status, status, s.pc, pc);
  }

  lemma NewbornReady(ready: seq<Tid>, status: map<Tid, Status>, idle: Tid, t: Tid)
    requires ReadyExact(ready, status, idle) && t !in status
    ensures ReadyExact(ready, status[t := Blocked], idle)
  {}

  lemma NewbornPlaces(status: map<Tid, Status>, status': map<Tid, Status>, pc: map<Tid, Pc>, pc': map<Tid, Pc>,
                      cur: Tid, t: Tid)
    requires pc.Keys == status.Keys && cur in pc && pc[cur] == User && t !in pc
    requires status' == status[t := Blocked] && pc' == pc[t := Newborn(cur)][cur := Creating(t)]
    ensures forall u: Tid :: Sleeps(status', pc', u) == Sleeps(status, pc, u)
    ensures forall u: Tid :: BlockedOn(status', pc', u) == BlockedOn(status, pc, u)
  {}

  lemma SleptSame(slept: seq<Tid>, status: map<Tid, Status>, status': map<Tid, Status>, pc: map<Tid, Pc>,
                  pc': map<Tid, Pc>)
    requires SleptExact(slept, status, pc) && forall t: Tid :: Sleeps(status', pc', t) == Sleeps(status, pc, t)
    ensures SleptExact(slept, status', pc')
  {}

  lemma CreateKnown(status: map<Tid, Status>, pc: map<Tid, Pc>, idle: Tid, cur: Tid, t: Tid)
    requires Known(status, pc, idle) && cur in pc && pc[cur] == User && t !in pc && status[cur] == Running
    ensures Known(status[t := Blocked], pc[t := Newborn(cur)][cur := Creating(t)], idle)
  {}

  lemma CreatedKeeps(s: State, t: Tid)
    requires Places(s) && s.pc[s.th.cur] == Creating(t)
    ensures Places(State(Unblock(s.th, t), s.pc[t := User][s.th.cur := User], s.sy))
  {
    UnblockReady(s.th, t);
    var status, pc := s.th.status[t := Ready], s.pc[t := User][s.th.cur := User];
    CreatedKnown(s.th.status, s.pc, s.th.idle, s.th.cur, t);
    BornPlaces(s.th.status, status, s.pc, pc, s.th.cur, t);
    QueuesSame(s.sy.semas, s.sy.semas, s.th.status, status, s.pc, pc);
    SleptSame(s.th.slept, s.th.status, status, s.pc, pc);
  }

  lemma BornPlaces(status: map<Tid, Status>, status': map<Tid, Status>, pc: map<Tid, Pc>, pc': map<Tid, Pc>, cur: Tid,
                   t: Tid)
    requires pc.Keys == status.Keys && cur in pc && pc[cur] == Creating(t) && t in pc && pc[t].Newborn?
    requires status' == status[t := Ready] && pc' == pc[t := User][cur := User]
    ensures forall u: Tid :: Sleeps(status', pc', u) == Sleeps(status, pc, u)
    ensures forall u: Tid :: BlockedOn(status', pc', u) == BlockedOn(status, pc, u)
  {}

  lemma CreatedKnown(status: map<Tid, Status>, pc: map<Tid, Pc>, idle: Tid, cur: Tid, t: Tid)
    requires Known(status, pc, idle) && cur in pc && pc[cur] == Creating(t)
    ensures Known(status[t := Ready], pc[t := User][cur := User], idle)
  {}

  // ---------- Every step ----------

  lemma ReleaseKeeps(s: State, m: SemId, p: Pc, y: Sync)
    requires Places(s) && Free(s.pc[s.th.cur]) && Free(p) && !p.Downing?
    requires m in s.sy.semas && y.semas == s.sy.semas
    ensures Places(Up(SetPc(s.(sy := y), p), m))
  {
    PcKeeps(s, p, y);
    UpKeeps(SetPc(s, p).(sy := y), m);
  }

  lemma AdvanceKeeps(s: State)
    requires Places(s) && CanAdvance(s)
    ensures Places(AdvanceStep(s))
  {
    var y := s.sy;
    match s.pc[s.th.cur]
    case IdleLoop => LeaveKeeps(s, Blocked);
    case Creating(t) => CreatedKeeps(s, t);
    case Sleeping => PcKeeps(s, User, y);
    case Downing(m, via) => DownKeeps(s, m, via);
    case SetHolder(l, via) => PcKeeps(s, User, AdvanceStep(s).sy);
    case RelUp(l, via) =>
      ReleaseKeeps(s, LockSem(l), if via.CondWait? then WaitDown(via.ticket, via.cond) else User,
                   y.(owner := y.owner[l := None]));
    case WaitRel(w, c) => PcKeeps(s, RelUp(y.monitor[c], CondWait(w, c)), AdvanceStep(s).sy);
    case WaitDown(w, c) => DownKeeps(s, WaitSem(w), CondWait(w, c));
    case Reacq(w, c) => DownKeeps(s, LockSem(y.monitor[c]), CondWait(w, c));
    case SigUp(w, c, all) =>
      ReleaseKeeps(s, WaitSem(w), if all then Bcast(c) else User, y.(upped := y.upped + {w}));
    case Bcast(c) => PopKeeps(s, c, true);
  }

  lemma PopKeeps(s: State, c: nat, all: bool)
    requires Places(s) && Free(s.pc[s.th.cur]) && c in s.sy.conds && c in s.sy.popped
    ensures Places(CondPop(s, c, all))
  {
    PcKeeps(s, CondPop(s, c, all).pc[s.th.cur], CondPop(s, c, all).sy);
  }

  // cond_wait()'s stack semaphore is not in use yet when it is initialised.
  ghost predicate FreshTickets(y: Sync) {
    forall w: nat :: WaitSem(w) in y.semas ==> w < y.tickets
  }

  lemma StepKeeps(s: State, a: Action)
    requires Places(s) && FreshTickets(s.sy) && Enabled(s, a)
    ensures Places(Step(s, a))
  {
    match a
    case Timer => TickKeeps(s);
    case IrqUp(m) => UpKeeps(s, Plain(m));
    case IrqTry(m) => IrqTryKeeps(s, m);
    case Advance => AdvanceKeeps(s);
    case CallYield => YieldKeeps(s);
    case CallExit => LeaveKeeps(s, Dying);
    case CallCreate(t) => CreateKeeps(s, t);
    case CallSleep(n) => SleepKeeps(s, n);
    case CallSemaInit(m, v) => NewSemaKeeps(s, Plain(m), Step(s, a).sy);
    case CallLockInit(l) => NewSemaKeeps(s, LockSem(l), Step(s, a).sy);
    case CallCondInit(_, _) =>
    case CallDown(m) => DownKeeps(s, Plain(m), Direct);
    case CallTryDown(m) => DownKeeps(s, Plain(m), Direct);
    case CallUp(m) => UpKeeps(s, Plain(m));
    case CallAcquire(l) => DownKeeps(s, LockSem(l), Direct);
    case CallTryAcquire(l) => DownKeeps(s, LockSem(l), Direct);
    case CallRelease(l) => PcKeeps(s, RelUp(l, Direct), Step(s, a).sy);
    case CallWait(c) => WaitKeeps(s, c);
    case CallSignal(c) => PopKeeps(s, c, false);
    case CallBroadcast(c) => if s.sy.conds[c] != [] { PcKeeps(s, Bcast(c), s.sy); }
  }

  // Steps that change no waiting list and move no thread.
  lemma SyncKeeps(s: State, y: Sync)
    requires Places(s) && y.semas.Keys == s.sy.semas.Keys
    requires forall m :: m in y.semas ==> y.semas[m].waiters == s.sy.semas[m].waiters
    ensures Places(s.(sy := y))
  {
    QueuesSame(s.sy.semas, y.semas, s.th.status, s.th.status, s.pc, s.pc);
  }

  lemma IrqTryKeeps(s: State, m: nat)
    requires Places(s) && Plain(m) in s.sy.semas
    ensures Places(IrqTryDown(s, m))
  {
    var x := s.sy.semas[Plain(m)];
    if x.value > 0 {
      var semas := s.sy.semas[Plain(m) := x.(value := x.value - 1, downs := x.downs + 1)];
      assert semas.Keys == s.sy.semas.Keys;
      SyncKeeps(s, s.sy.(semas := semas));
    }
  }

  lemma WaitKeeps(s: State, c: nat)
    requires Places(s) && FreshTickets(s.sy) && s.pc[s.th.cur] == User && c in s.sy.conds && c in s.sy.arrived
    ensures Places(CondEnqueue(s, c))
  {
    var s' := CondEnqueue(s, c);
    var x := Sema(0, [], 0, 0, 0);
    NewSemaKeeps(s, WaitSem(s.sy.tickets), s'.sy) by {
      assert x.waiters == [] && s'.sy.semas == s.sy.semas[WaitSem(s.sy.tickets) := x];
    }
    PcKeeps(s.(sy := s'.sy), WaitRel(s.sy.tickets, c), s'.sy);
  }

  // No other step gives a semaphore a new waiter's identity.
  ghost predicate NoNewTickets(y: Sync, y': Sync) {
    y'.tickets == y.tickets && forall w: nat :: WaitSem(w) in y'.semas ==> WaitSem(w) in y.semas
  }

  lemma FreshTicketsKept(s: State, a: Action)
    requires FreshTickets(s.sy) && Enabled(s, a)
    ensures FreshTickets(Step(s, a).sy)
  {
    if a.Advance? {
      AdvanceTickets(s);
    } else if !a.CallWait? {
      CallTickets(s, a);
    }
  }

  lemma SemaTickets(y: Sync, m: SemId, t: Tid)
    requires m in y.semas
    ensures NoNewTickets(y, Join(y, m, t)) && NoNewTickets(y, Give(y, m))
    ensures y.semas[m].value > 0 ==> NoNewTickets(y, Take(y, m, t))
  {
    assert Join(y, m, t).semas.Keys == y.semas.Keys == Give(y, m).semas.Keys;
    if y.semas[m].value > 0 { TakeTickets(y, m, t); }
  }

  lemma TakeTickets(y: Sync, m: SemId, t: Tid)
    requires m in y.semas && y.semas[m].value > 0
    ensures NoNewTickets(y, Take(y, m, t))
  {
    assert Take(y, m, t).semas.Keys == y.semas.Keys;
  }

  lemma AdvanceTickets(s: State)
    requires s.th.cur in s.pc && CanAdvance(s)
    ensures NoNewTickets(s.sy, AdvanceStep(s).sy)
  {
    match s.pc[s.th.cur]
    case Downing(m, via) => SemaTickets(s.sy, m, s.th.cur);
    case WaitDown(w, c) => SemaTickets(s.sy, WaitSem(w), s.th.cur);
    case Reacq(w, c) => SemaTickets(s.sy, LockSem(s.sy.monitor[c]), s.th.cur);
    case RelUp(l, via) => SemaTickets(s.sy.(owner := s.sy.owner[l := None]), LockSem(l), s.th.cur);
    case SigUp(w, c, all) => SemaTickets(s.sy.(upped := s.sy.upped + {w}), WaitSem(w), s.th.cur);
    case _ =>
  }

  lemma CallTickets(s: State, a: Action)
    requires Enabled(s, a) && !a.CallWait? && !a.Advance?
    ensures NoNewTickets(s.sy, Step(s, a).sy)
  {
    match a
    case IrqUp(m) => SemaTickets(s.sy, Plain(m), s.th.cur);
    case IrqTry(m) => SemaTickets(s.sy, Plain(m), s.th.cur);
    case CallDown(m) => SemaTickets(s.sy, Plain(m), s.th.cur);
    case CallTryDown(m) => SemaTickets(s.sy, Plain(m), s.th.cur);
    case CallUp(m) => SemaTickets(s.sy, Plain(m), s.th.cur);
    case CallAcquire(l) => SemaTickets(s.sy, LockSem(l), s.th.cur);
    case CallTryAcquire(l) => SemaTickets(s.sy, LockSem(l), s.th.cur);
    case _ =>
  }

  /** In every reachable state of every run each thread is in its one place. */
  lemma {:induction false} PlacesAlways(run: seq<State>, i: nat)
    requires IsRun(run) && i < |run|
    ensures Places(run[i]) && FreshTickets(run[i].sy)
  {
    if i == 0 {
      InitPlaces(run[0]);
    } else {
      PlacesAlways(run, i - 1);
      assert StepAt(run, i);
      NextPlaces(run[i - 1], run[i]);
    }
  }

  lemma NextPlaces(s: State, s': State)
    requires Places(s) && FreshTickets(s.sy) && Next(s, s')
    ensures Places(s') && FreshTickets(s'.sy)
  {
    var a :| Enabled(s, a) && s' == Step(s, a);
    StepKeeps(s, a);
    FreshTicketsKept(s, a);
  }

  /** What thread.h promises about `elem`: it is on at most one list at a time,
      at most once; only ready threads are on the run queue, only blocked ones
      on the other lists. */
  lemma ElemOnOneList(run: seq<State>, i: nat, t: Tid, m: SemId, m': SemId)
    requires IsRun(run) && i < |run|
    requires m in run[i].sy.semas && m' in run[i].sy.semas && m != m'
    ensures var h, q, q' := run[i].th, run[i].sy.semas[m].waiters, run[i].sy.semas[m'].waiters;
            && !(t in h.ready && t in h.slept) && !(t in h.ready && t in q)
            && !(t in h.slept && t in q) && !(t in q && t in q')
            && multiset(h.ready)[t] <= 1 && multiset(h.slept)[t] <= 1 && multiset(q)[t] <= 1
            && (t in h.ready <==> t in h.status && h.status[t] == Ready && t != h.idle)
            && (t in h.slept || t in q ==> t in h.status && h.status[t] == Blocked)
  {
    PlacesAlways(run, i);
    var y := run[i].sy;
    assert QueueExact(y.semas[m].waiters, m, run[i].th.status, run[i].pc);
    assert QueueExact(y.semas[m'].waiters, m', run[i].th.status, run[i].pc);
    NoDupCount(run[i].th.ready, t);
    NoDupCount(run[i].th.slept, t);
    NoDupCount(y.semas[m].waiters, t);
  }

  lemma {:induction false} NoDupCount(q: seq<nat>, t: nat)
    requires NoDup(q)
    ensures multiset(q)[t] <= 1
  {
    if q != [] {
      var n := |q| - 1;
      assert q == q[..n] + [q[n]];
      NoDupCount(q[..n], t);
      if t == q[n] { assert t !in q[..n]; assert t !in multiset(q[..n]); }
    }
  }
}
