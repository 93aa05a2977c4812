/** Semaphores lose no wake-up. */
module KernelSync {
  import opened Kernel
  import opened Sequences
  import opened KernelPlaces

  // ---------- No lost wake-up ----------

  // The semaphore whose sema_down() thread t is about to test again: t has been
  // unblocked by sema_up() and has not resumed yet.
  ghost function Retries(status: map<Tid, Status>, pc: map<Tid, Pc>, t: Tid): Option<SemId> {
    if t in status && status[t] != Blocked && t in pc && pc[t].Downing? then Some(pc[t].sem) else None
  }

  ghost function Woken(status: map<Tid, Status>, pc: map<Tid, Pc>, m: SemId): set<Tid> {
    set t | t in pc && Retries(status, pc, t) == Some(m)
  }

  ghost predicate Counts(x: Sema) {
    x.value == x.initial + x.ups - x.downs
  }

  ghost predicate Covered(x: Sema, m: SemId, status: map<Tid, Status>, pc: map<Tid, Pc>) {
    Counts(x) && (x.waiters != [] ==> x.value <= |Woken(status, pc, m)|)
  }

  /** A semaphore's value is its initial value plus ups minus downs, and as long
      as threads wait on it, every unit of value has a thread on its way to it. */
  ghost predicate AllCovered(semas: map<SemId, Sema>, status: map<Tid, Status>, pc: map<Tid, Pc>) {
    forall m :: m in semas ==> Covered(semas[m], m, status, pc)
  }

  ghost predicate NoLoss(s: State) {
    AllCovered(s.sy.semas, s.th.status, s.pc)
  }

  lemma CoveredSame(semas: map<SemId, Sema>, status: map<Tid, Status>, status': map<Tid, Status>,
                    pc: map<Tid, Pc>, pc': map<Tid, Pc>)
    requires AllCovered(semas, status, pc)
    requires forall t: Tid :: Retries(status', pc', t) == Retries(status, pc, t)
    ensures AllCovered(semas, status', pc')
  {
    forall m | m in semas ensures Covered(semas[m], m, status', pc') {
      assert Covered(semas[m], m, status, pc);
      assert Woken(status', pc', m) == Woken(status, pc, m);
    }
  }

  // schedule() picks a thread that was not blocked, or the idle thread.
  lemma ScheduleRetries(s: State, t: Tid)
    requires Known(s.th.status, s.pc, s.th.idle) && ReadyExact(s.th.ready, s.th.status, s.th.idle)
    ensures Retries(Schedule(s.th).status, s.pc, t) == Retries(s.th.status, s.pc, t)
  {
    if s.th.ready != [] { assert s.th.ready[0] in s.th.ready; }
  }

  lemma YieldRetries(s: State, t: Tid)
    requires Places(s)
    ensures Retries(Yield(s.th).status, s.pc, t) == Retries(s.th.status, s.pc, t)
  {
    var h := s.th;
    var h' := h.(ready := if h.cur != h.idle then h.ready + [h.cur] else h.ready, status := h.status[h.cur := Ready]);
    AppendNoDup(h.ready, h.cur);
    StatusKnown(h.status, s.pc, h.idle, h.cur, Ready);
    ScheduleRetries(s.(th := h'), t);
  }

  lemma {:induction false} WakeDueRetries(s: State, t: Tid)
    requires Places(s)
    ensures Retries(WakeDue(s.th).status, s.pc, t) == Retries(s.th.status, s.pc, t)
    decreases |s.th.slept|
  {
    if s.th.slept != [] && Get(s.th.wake, s.th.slept[0]) <= s.th.ticks {
      assert s.th.slept[0] in s.th.slept;
      WakeFirstKeeps(s);
      WakeDueRetries(s.(th := WakeFirst(s.th)), t);
    }
  }

  lemma TickRetries(s: State, t: Tid)
    requires Places(s)
    ensures Retries(Tick(s.th).status, s.pc, t) == Retries(s.th.status, s.pc, t)
  {
    var s0 := s.(th := Clock(s.th));
    WakeDueRetries(s0, t);
    WakeDueKeeps(s0);
    YieldRetries(s0.(th := WakeDue(s0.th)), t);
  }

  // The running thread, outside sema_down(), changes status and schedules.
  lemma LeaveRetries(s: State, x: Status, p: Pc, t: Tid)
    requires Places(s) && x != Running && !s.pc[s.th.cur].Downing? && !p.Downing?
    requires x == Ready ==> s.th.cur == s.th.idle
    ensures var h := s.th.(status := s.th.status[s.th.cur := x]);
            Retries(Schedule(h).status, s.pc[s.th.cur := p], t) == Retries(s.th.status, s.pc, t)
  {
    if s.th.ready != [] { assert s.th.ready[0] in s.th.ready; }
  }

  // Thread t is not, or no longer, about to test a semaphore again.
  ghost predicate NoRetry(status: map<Tid, Status>, pc: map<Tid, Pc>, status': map<Tid, Status>, pc': map<Tid, Pc>,
                          t: Tid) {
    && t in pc && pc'.Keys == pc.Keys
    && forall u: Tid :: Retries(status', pc', u) == if u == t then None else Retries(status, pc, u)
  }

  lemma WokenBut(status: map<Tid, Status>, pc: map<Tid, Pc>, status': map<Tid, Status>, pc': map<Tid, Pc>, t: Tid,
                 n: SemId)
    requires NoRetry(status, pc, status', pc', t)
    ensures Woken(status', pc', n) == Woken(status, pc, n) - {t}
  {}

  // The value fell, or someone was let in.
  lemma ChangedCovered(semas: map<SemId, Sema>, status: map<Tid, Status>, pc: map<Tid, Pc>, status': map<Tid, Status>,
                       pc': map<Tid, Pc>, t: Tid, m: SemId, x: Sema)
    requires AllCovered(semas, status, pc) && m in semas && NoRetry(status, pc, status', pc', t)
    requires Retries(status, pc, t) == None || Retries(status, pc, t) == Some(m)
    requires Counts(x) && (x.value == 0 || (x.value + 1 == semas[m].value && x.waiters == semas[m].waiters))
    ensures AllCovered(semas[m := x], status', pc')
  {
    forall n | n in semas ensures Covered(semas[m := x][n], n, status', pc') {
      assert Covered(semas[n], n, status, pc);
      WokenBut(status, pc, status', pc', t, n);
    }
  }

  lemma TakeCovered(s: State, m: SemId, p: Pc)
    requires Places(s) && NoLoss(s) && m in s.sy.semas && s.sy.semas[m].value > 0 && !p.Downing?
    requires s.pc[s.th.cur].Downing? ==> s.pc[s.th.cur].sem == m
    ensures AllCovered(Take(s.sy, m, s.th.cur).semas, s.th.status, s.pc[s.th.cur := p])
  {
    var pc, x := s.pc[s.th.cur := p], s.sy.semas[m];
    assert Covered(x, m, s.th.status, s.pc);
    assert NoRetry(s.th.status, s.pc, s.th.status, pc, s.th.cur);
    ChangedCovered(s.sy.semas, s.th.status, s.pc, s.th.status, pc, s.th.cur, m,
                   x.(value := x.value - 1, downs := x.downs + 1));
  }

  lemma JoinCovered(s: State, m: SemId, via: Caller)
    requires Places(s) && NoLoss(s) && m in s.sy.semas && s.sy.semas[m].value == 0 && s.pc[s.th.cur] != IdleLoop
    requires s.pc[s.th.cur].Downing? ==> s.pc[s.th.cur].sem == m
    ensures AllCovered(Join(s.sy, m, s.th.cur).semas, Block(s.th).status, s.pc[s.th.cur := Downing(m, via)])
  {
    var pc, status, x := s.pc[s.th.cur := Downing(m, via)], Block(s.th).status, s.sy.semas[m];
    assert Covered(x, m, s.th.status, s.pc);
    JoinRetries(s, m, via);
    ChangedCovered(s.sy.semas, s.th.status, s.pc, status, pc, s.th.cur, m, x.(waiters := x.waiters + [s.th.cur]));
  }

  lemma JoinRetries(s: State, m: SemId, via: Caller)
    requires Places(s) && s.pc[s.th.cur] != IdleLoop
    ensures NoRetry(s.th.status, s.pc, Block(s.th).status, s.pc[s.th.cur := Downing(m, via)], s.th.cur)
  {
    if s.th.ready != [] { assert s.th.ready[0] in s.th.ready; }
  }

  lemma DownCovered(s: State, m: SemId, via: Caller)
    requires Places(s) && NoLoss(s) && m in s.sy.semas && s.pc[s.th.cur] != IdleLoop
    requires s.pc[s.th.cur].Downing? ==> s.pc[s.th.cur].sem == m
    ensures NoLoss(Down(s, m, via))
  {
    if s.sy.semas[m].value == 0 {
      JoinCovered(s, m, via);
    } else {
      TakeCovered(s, m, AfterDown(m, via));
    }
  }

  lemma UpCovered(s: State, m: SemId)
    requires Places(s) && NoLoss(s) && m in s.sy.semas
    ensures NoLoss(Up(s, m))
  {
    var s', x := Up(s, m), s.sy.semas[m];
    assert Covered(x, m, s.th.status, s.pc);
    if x.waiters != [] {
      var t := x.waiters[0];
      assert t in x.waiters;
      assert QueueExact(x.waiters, m, s.th.status, s.pc);
      assert BlockedOn(s.th.status, s.pc, t) == Some(m);
      forall u: Tid
        ensures Retries(s'.th.status, s.pc, u) == if u == t then Some(m) else Retries(s.th.status, s.pc, u) {}
      assert Retries(s.th.status, s.pc, t) == None;
      assert Woken(s'.th.status, s.pc, m) == Woken(s.th.status, s.pc, m) + {t};
      forall n | n in s'.sy.semas ensures Covered(s'.sy.semas[n], n, s'.th.status, s.pc) {
        assert Covered(s.sy.semas[n], n, s.th.status, s.pc);
        if n != m { assert Woken(s'.th.status, s.pc, n) == Woken(s.th.status, s.pc, n); }
      }
    } else {
      forall n | n in s'.sy.semas ensures Covered(s'.sy.semas[n], n, s'.th.status, s.pc) {
        assert Covered(s.sy.semas[n], n, s.th.status, s.pc);
      }
    }
  }

  // Steps of the running thread that touch no semaphore and no status.
  lemma PcCovered(s: State, p: Pc, y: Sync)
    requires Places(s) && NoLoss(s) && y.semas == s.sy.semas && !s.pc[s.th.cur].Downing? && !p.Downing?
    ensures NoLoss(SetPc(s, p).(sy := y))
  {
    CoveredSame(y.semas, s.th.status, s.th.status, s.pc, s.pc[s.th.cur := p]);
  }

  lemma ReleaseCovered(s: State, m: SemId, p: Pc, y: Sync)
    requires Places(s) && NoLoss(s) && m in s.sy.semas && y.semas == s.sy.semas
    requires Free(s.pc[s.th.cur]) && !s.pc[s.th.cur].Downing? && Free(p) && !p.Downing?
    ensures NoLoss(Up(SetPc(s.(sy := y), p), m))
  {
    PcCovered(s, p, y);
    PcKeeps(s, p, y);
    UpCovered(SetPc(s, p).(sy := y), m);
  }

  lemma NewCovered(s: State, m: SemId, x: Sema)
    requires NoLoss(s) && Counts(x) && x.waiters == []
    ensures AllCovered(s.sy.semas[m := x], s.th.status, s.pc)
  {
    var semas := s.sy.semas[m := x];
    forall n | n in semas ensures Covered(semas[n], n, s.th.status, s.pc) {
      if n != m { assert Covered(s.sy.semas[n], n, s.th.status, s.pc); }
    }
  }

  lemma AdvanceCovered(s: State)
    requires Places(s) && NoLoss(s) && CanAdvance(s)
    ensures NoLoss(AdvanceStep(s))
  {
    var y, t := s.sy, s.th.cur;
    match s.pc[t]
    case IdleLoop => IdleCovered(s);
    case Creating(c) => CoveredSame(y.semas, s.th.status, Unblock(s.th, c).status, s.pc, s.pc[c := User][t := User]);
    case Sleeping => PcCovered(s, User, y);
    case Downing(m, via) => DownCovered(s, m, via);
    case SetHolder(l, via) => PcCovered(s, User, StoreHolder(s, l, via).sy);
    case RelUp(l, via) =>
      ReleaseCovered(s, LockSem(l), if via.CondWait? then WaitDown(via.ticket, via.cond) else User,
                     y.(owner := y.owner[l := None]));
    case WaitRel(_, _) => AdvanceCondCovered(s);
    case WaitDown(_, _) => AdvanceCondCovered(s);
    case Reacq(_, _) => AdvanceCondCovered(s);
    case SigUp(_, _, _) => AdvanceCondCovered(s);
    case Bcast(_) => AdvanceCondCovered(s);
  }

  lemma IdleCovered(s: State)
    requires Places(s) && NoLoss(s) && s.pc[s.th.cur] == IdleLoop
    ensures NoLoss(s.(th := Block(s.th)))
  {
    var t := s.th.cur;
    forall u: Tid ensures Retries(Block(s.th).status, s.pc, u) == Retries(s.th.status, s.pc, u) {
      LeaveRetries(s, Blocked, IdleLoop, u);
      assert s.pc[t := IdleLoop] == s.pc;
    }
    CoveredSame(s.sy.semas, s.th.status, Block(s.th).status, s.pc, s.pc);
  }

  // The steps inside cond_wait() and cond_signal().
  lemma AdvanceCondCovered(s: State)
    requires Places(s) && NoLoss(s) && CanAdvance(s)
    requires var p := s.pc[s.th.cur]; p.WaitRel? || p.WaitDown? || p.Reacq? || p.SigUp? || p.Bcast?
    ensures NoLoss(AdvanceStep(s))
  {
    var y, t := s.sy, s.th.cur;
    match s.pc[t]
    case WaitRel(w, c) => PcCovered(s, RelUp(y.monitor[c], CondWait(w, c)), AdvanceStep(s).sy);
    case WaitDown(w, c) => DownCovered(s, WaitSem(w), CondWait(w, c));
    case Reacq(w, c) => DownCovered(s, LockSem(y.monitor[c]), CondWait(w, c));
    case SigUp(w, c, all) => ReleaseCovered(s, WaitSem(w), if all then Bcast(c) else User, y.(upped := y.upped + {w}));
    case Bcast(c) => PcCovered(s, CondPop(s, c, true).pc[t], CondPop(s, c, true).sy);
  }

  lemma IrqTryCovered(s: State, m: nat)
    requires Places(s) && NoLoss(s) && Plain(m) in s.sy.semas
    ensures NoLoss(IrqTryDown(s, m))
  {
    var x := s.sy.semas[Plain(m)];
    if x.value > 0 {
      FewerCovered(s.sy.semas, s.th.status, s.pc, Plain(m), x.(value := x.value - 1, downs := x.downs + 1));
    }
  }

  lemma FewerCovered(semas: map<SemId, Sema>, status: map<Tid, Status>, pc: map<Tid, Pc>, m: SemId, x: Sema)
    requires AllCovered(semas, status, pc) && m in semas && Counts(x) && x.waiters == semas[m].waiters
    requires x.value < semas[m].value
    ensures AllCovered(semas[m := x], status, pc)
  {
    assert Covered(semas[m], m, status, pc);
  }

  // Steps of thread.c other than the timer's.
  lemma ThreadCovered(s: State, a: Action)
    requires Places(s) && NoLoss(s) && Enabled(s, a)
    requires a.Timer? || a.CallYield? || a.CallExit? || a.CallCreate? || a.CallSleep?
    ensures NoLoss(Step(s, a))
  {
    var s' := Step(s, a);
    forall u: Tid ensures Retries(s'.th.status, s'.pc, u) == Retries(s.th.status, s.pc, u) {
      match a
      case Timer => TickRetries(s, u);
      case CallYield => YieldRetries(s, u);
      case CallExit =>
        LeaveRetries(s, Dying, User, u);
        assert s.pc[s.th.cur := User] == s.pc;
      case CallCreate(t) =>
      case CallSleep(n) => LeaveRetries(s, Blocked, Sleeping, u);
    }
    CoveredSame(s.sy.semas, s.th.status, s'.th.status, s.pc, s'.pc);
  }

  lemma StepCovered(s: State, a: Action)
    requires Places(s) && NoLoss(s) && Enabled(s, a)
    ensures NoLoss(Step(s, a))
  {
    match a
    case IrqUp(m) => UpCovered(s, Plain(m));
    case IrqTry(m) => IrqTryCovered(s, m);
    case Advance => AdvanceCovered(s);
    case CallSemaInit(m, v) => NewCovered(s, Plain(m), Sema(v, [], v, 0, 0));
    case CallLockInit(l) => NewCovered(s, LockSem(l), Sema(1, [], 1, 0, 0));
    case CallCondInit(_, _) =>
    case CallDown(m) => DownCovered(s, Plain(m), Direct);
    case CallTryDown(m) => DownCovered(s, Plain(m), Direct);
    case CallUp(m) => UpCovered(s, Plain(m));
    case CallAcquire(l) => DownCovered(s, LockSem(l), Direct);
    case CallTryAcquire(l) => DownCovered(s, LockSem(l), Direct);
    case CallRelease(l) => PcCovered(s, RelUp(l, Direct), ClearHolder(s, l, Direct).sy);
    case CallWait(c) => WaitCovered(s, c);
    case CallSignal(c) => PopCovered(s, c, false);
    case CallBroadcast(c) => if s.sy.conds[c] != [] { PcCovered(s, Bcast(c), s.sy); }
    case _ => ThreadCovered(s, a);
  }

  lemma WaitCovered(s: State, c: nat)
    requires Places(s) && NoLoss(s) && c in s.sy.conds && c in s.sy.arrived && s.pc[s.th.cur] == User
    ensures NoLoss(CondEnqueue(s, c))
  {
    var s' := CondEnqueue(s, c);
    NewCovered(s, WaitSem(s.sy.tickets), Sema(0, [], 0, 0, 0));
    CoveredSame(s'.sy.semas, s.th.status, s.th.status, s.pc, s'.pc);
  }

  lemma PopCovered(s: State, c: nat, all: bool)
    requires Places(s) && NoLoss(s) && c in s.sy.conds && c in s.sy.popped && !s.pc[s.th.cur].Downing?
    ensures NoLoss(CondPop(s, c, all))
  {
    var s' := CondPop(s, c, all);
    PcCovered(s, s'.pc[s.th.cur], s'.sy);
  }

  lemma {:induction false} NoLossAlways(run: seq<State>, i: nat)
    requires IsRun(run) && i < |run|
    ensures NoLoss(run[i])
  {
    if i > 0 {
      NoLossAlways(run, i - 1);
      PlacesAlways(run, i - 1);
      assert StepAt(run, i);
      NextCovered(run[i - 1], run[i]);
    }
  }

  lemma NextCovered(s: State, s': State)
    requires Places(s) && NoLoss(s) && Next(s, s')
    ensures NoLoss(s')
  {
    var a :| Enabled(s, a) && s' == Step(s, a);
    StepCovered(s, a);
  }

  /** No lost wake-up, over every run: the value is initial plus ups minus downs;
      while threads wait on a semaphore its value is at most the number of
      threads already unblocked and about to test it again, so a positive value
      never meets waiters with nobody on the way; and those threads are ready or
      running. */
  lemma NoLostWakeup(run: seq<State>, i: nat, m: SemId)
    requires IsRun(run) && i < |run| && m in run[i].sy.semas
    ensures var s, x := run[i], run[i].sy.semas[m];
            && x.value == x.initial + x.ups - x.downs
            && (x.waiters != [] ==> x.value <= |Woken(s.th.status, s.pc, m)|)
            && (x.waiters != [] && x.value > 0 ==>
                  exists t :: t in s.pc && Retries(s.th.status, s.pc, t) == Some(m)
                              && (t in s.th.ready || t == s.th.cur))
  {
    NoLossAlways(run, i);
    PlacesAlways(run, i);
    var s, x := run[i], run[i].sy.semas[m];
    assert Covered(x, m, s.th.status, s.pc);
    if x.waiters != [] && x.value > 0 {
      assert Woken(s.th.status, s.pc, m) != {};
      var t :| t in Woken(s.th.status, s.pc, m);
      RetryPlace(s, t, m);
    }
  }

  lemma RetryPlace(s: State, t: Tid, m: SemId)
    requires Places(s) && Retries(s.th.status, s.pc, t) == Some(m)
    ensures t in s.th.ready || t == s.th.cur
  {}
}
