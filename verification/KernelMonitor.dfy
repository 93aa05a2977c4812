/** Mutual exclusion of locks. */
module KernelMonitor {
  import opened Kernel
  import opened Sequences
  import opened KernelPlaces

  /** What a thread is doing with locks and condition variables, if anything. */
  ghost function Role(pc: map<Tid, Pc>, t: Tid): Pc {
    if t in pc && Relevant(pc[t]) then pc[t] else User
  }

  predicate Relevant(p: Pc) {
    match p
    case Downing(m, _) => !m.Plain?
    case SetHolder(_, _) => true
    case RelUp(_, _) => true
    case WaitRel(_, _) => true
    case WaitDown(_, _) => true
    case Reacq(_, _) => true
    case SigUp(_, _, _) => true
    case Bcast(_) => true
    case _ => false
  }

  // All that this module needs to know about places: a thread that is being
  // created has no role yet.
  ghost predicate ChildWaits(s: State) {
    && s.th.cur in s.pc
    && (s.pc[s.th.cur].Creating? ==> s.pc[s.th.cur].child in s.pc && s.pc[s.pc[s.th.cur].child].Newborn?)
  }

  lemma PlacesChild(s: State)
    requires Places(s)
    ensures ChildWaits(s)
  {
    if s.pc[s.th.cur].Creating? { assert s.pc[s.th.cur] == Creating(s.pc[s.th.cur].child); }
  }

  // ---------- Locks ----------

  // In the windows where the holder is not yet set or already cleared.
  predicate Window(p: Pc, l: nat) {
    (p.SetHolder? || p.RelUp?) && p.lock == l
  }

  // Thread t is between the lock's inner sema_down() and sema_up().
  ghost predicate Inside(pc: map<Tid, Pc>, y: Sync, t: Tid, l: nat) {
    (l in y.holder && y.holder[l] == Some(t)) || Window(Role(pc, t), l)
  }

  ghost predicate LocksKnown(y: Sync) {
    && (forall l: nat :: l in y.holder <==> LockSem(l) in y.semas)
    && (forall l: nat :: l in y.holder <==> l in y.owner)
  }

  ghost predicate Values(y: Sync) {
    forall l: nat :: l in y.owner && LockSem(l) in y.semas ==>
      y.semas[LockSem(l)].value == (if y.owner[l].None? then 1 else 0)
  }

  ghost predicate Owners(pc: map<Tid, Pc>, y: Sync) {
    forall l: nat, t: Tid :: l in y.owner ==> (y.owner[l] == Some(t) <==> Inside(pc, y, t, l))
  }

  ghost predicate HolderOutside(pc: map<Tid, Pc>, y: Sync) {
    && (forall l: nat, t: Tid :: l in y.holder && y.holder[l] == Some(t) ==> !Window(Role(pc, t), l))
    && (forall t: Tid :: Role(pc, t).SetHolder? || Role(pc, t).RelUp? ==> Role(pc, t).lock in y.owner)
  }

  ghost predicate Locks(pc: map<Tid, Pc>, y: Sync) {
    LocksKnown(y) && Values(y) && Owners(pc, y) && HolderOutside(pc, y)
  }

  lemma LocksSame(pc: map<Tid, Pc>, pc': map<Tid, Pc>, y: Sync, y': Sync)
    requires Locks(pc, y) && y'.holder == y.holder && y'.owner == y.owner
    requires forall l: nat :: LockSem(l) in y'.semas <==> LockSem(l) in y.semas
    requires forall l: nat :: LockSem(l) in y.semas ==> y'.semas[LockSem(l)].value == y.semas[LockSem(l)].value
    requires forall t: Tid, l: nat :: Window(Role(pc', t), l) == Window(Role(pc, t), l)
    ensures Locks(pc', y')
  {
    forall t: Tid | Role(pc', t).SetHolder? || Role(pc', t).RelUp? ensures Role(pc', t).lock in y'.owner {
      assert Window(Role(pc', t), Role(pc', t).lock);
    }
    forall l: nat, t: Tid ensures Inside(pc', y', t, l) == Inside(pc, y, t, l) {
      assert Window(Role(pc', t), l) == Window(Role(pc, t), l);
    }
  }

  // A thread gets past the lock's sema_down().
  lemma LockTaken(pc: map<Tid, Pc>, y: Sync, t: Tid, l: nat, via: Caller)
    requires Locks(pc, y) && t in pc && LockSem(l) in y.semas && y.semas[LockSem(l)].value > 0
    requires !pc[t].SetHolder? && !pc[t].RelUp?
    ensures Locks(pc[t := SetHolder(l, via)], Take(y, LockSem(l), t))
  {
    var pc', y' := pc[t := SetHolder(l, via)], Take(y, LockSem(l), t);
    assert y.owner[l] == None;
    forall u: Tid ensures Role(pc', u) == if u == t then SetHolder(l, via) else Role(pc, u) {}
    forall u: Tid, k: nat ensures Inside(pc', y', u, k) == (Inside(pc, y, u, k) || (u == t && k == l)) {}
    assert !Inside(pc, y, t, l);
  }

  lemma HolderStored(pc: map<Tid, Pc>, y: Sync, t: Tid, l: nat, y': Sync)
    requires Locks(pc, y) && t in pc && pc[t].SetHolder? && pc[t].lock == l
    requires y'.holder == y.holder[l := Some(t)] && y'.owner == y.owner && y'.semas == y.semas
    ensures Locks(pc[t := User], y')
  {
    var pc' := pc[t := User];
    assert Role(pc, t) == pc[t] && Window(Role(pc, t), l);
    forall u: Tid ensures Role(pc', u) == if u == t then User else Role(pc, u) {}
    assert Inside(pc, y, t, l) && y.owner[l] == Some(t);
    forall u: Tid, k: nat | k in y.owner ensures Inside(pc', y', u, k) == Inside(pc, y, u, k) {
      if k == l { assert Inside(pc, y, u, l) ==> u == t; }
    }
    forall k: nat, u: Tid | k in y'.holder && y'.holder[k] == Some(u) ensures !Window(Role(pc', u), k) {}
  }

  lemma HolderCleared(pc: map<Tid, Pc>, y: Sync, t: Tid, l: nat, via: Caller, y': Sync)
    requires Locks(pc, y) && t in pc && !pc[t].SetHolder? && !pc[t].RelUp? && l in y.holder && y.holder[l] == Some(t)
    requires y'.holder == y.holder[l := None] && y'.owner == y.owner && y'.semas == y.semas
    ensures Locks(pc[t := RelUp(l, via)], y')
  {
    var pc' := pc[t := RelUp(l, via)];
    forall u: Tid ensures Role(pc', u) == if u == t then RelUp(l, via) else Role(pc, u) {}
    assert Inside(pc, y, t, l) && y.owner[l] == Some(t);
    forall u: Tid, k: nat | k in y.owner ensures Inside(pc', y', u, k) == Inside(pc, y, u, k) {
      if k == l { assert Inside(pc, y, u, l) ==> u == t; }
    }
  }

  lemma LockGiven(pc: map<Tid, Pc>, y: Sync, t: Tid, l: nat, p: Pc)
    requires Locks(pc, y) && t in pc && pc[t].RelUp? && pc[t].lock == l && !p.SetHolder? && !p.RelUp?
    requires LockSem(l) in y.semas && l in y.owner
    ensures Locks(pc[t := p], Give(y.(owner := y.owner[l := None]), LockSem(l)))
  {
    var pc', y' := pc[t := p], Give(y.(owner := y.owner[l := None]), LockSem(l));
    assert Role(pc, t) == pc[t] && Window(Role(pc, t), l);
    assert Inside(pc, y, t, l) && y.owner[l] == Some(t);
    assert y.holder[l] != Some(t);
    forall u: Tid, k: nat ensures Window(Role(pc', u), k) == (u != t && Window(Role(pc, u), k)) {}
    forall u: Tid, k: nat | k in y.owner ensures Inside(pc', y', u, k) == (Inside(pc, y, u, k) && !(u == t && k == l)) {
      if k == l { assert Inside(pc, y, u, l) ==> u == t; }
    }
    forall u: Tid | Role(pc', u).SetHolder? || Role(pc', u).RelUp? ensures Role(pc', u).lock in y'.owner {
      assert Window(Role(pc', u), Role(pc', u).lock);
      assert Role(pc', u) == Role(pc, u);
    }
  }

  lemma LockMade(pc: map<Tid, Pc>, y: Sync, l: nat)
    requires Locks(pc, y) && l !in y.holder && LockSem(l) !in y.semas
    ensures Locks(pc, LockInit(y, l))
  {
    var y' := LockInit(y, l);
    forall t: Tid ensures !Window(Role(pc, t), l) {}
    forall t: Tid, k: nat | k in y'.owner ensures y'.owner[k] == Some(t) <==> Inside(pc, y', t, k) {
      if k != l { assert y.owner[k] == Some(t) <==> Inside(pc, y, t, k); }
    }
  }

  /** One lock operation of the running thread, or none. */
  lemma DownLocks(s: State, m: SemId, via: Caller)
    requires Locks(s.pc, s.sy) && m in s.sy.semas && s.th.cur in s.pc
    requires !s.pc[s.th.cur].SetHolder? && !s.pc[s.th.cur].RelUp?
    ensures Locks(Down(s, m, via).pc, Down(s, m, via).sy)
  {
    if s.sy.semas[m].value == 0 {
      PcLocks(s, Downing(m, via), Join(s.sy, m, s.th.cur));
    } else if m.LockSem? {
      LockTaken(s.pc, s.sy, s.th.cur, m.lock, via);
    } else {
      PcLocks(s, AfterDown(m, via), Take(s.sy, m, s.th.cur));
    }
  }

  lemma PcLocks(s: State, p: Pc, y: Sync)
    requires Locks(s.pc, s.sy) && s.th.cur in s.pc && !s.pc[s.th.cur].SetHolder? && !s.pc[s.th.cur].RelUp?
    requires !p.SetHolder? && !p.RelUp? && y.holder == s.sy.holder && y.owner == s.sy.owner
    requires forall l: nat :: LockSem(l) in y.semas <==> LockSem(l) in s.sy.semas
    requires forall l: nat :: LockSem(l) in y.semas ==> y.semas[LockSem(l)].value == s.sy.semas[LockSem(l)].value
    ensures Locks(s.pc[s.th.cur := p], y)
  {
    LocksSame(s.pc, s.pc[s.th.cur := p], s.sy, y);
  }

  lemma AdvanceLocks(s: State)
    requires ChildWaits(s) && Locks(s.pc, s.sy) && CanAdvance(s)
    ensures Locks(AdvanceStep(s).pc, AdvanceStep(s).sy)
  {
    var y, t := s.sy, s.th.cur;
    match s.pc[t]
    case IdleLoop =>
    case Creating(c) => LocksSame(s.pc, s.pc[c := User][t := User], y, y);
    case Sleeping => PcLocks(s, User, y);
    case Downing(m, via) => DownLocks(s, m, via);
    case SetHolder(l, via) => HolderStored(s.pc, y, t, l, AdvanceStep(s).sy);
    case RelUp(l, via) => LockGiven(s.pc, y, t, l, if via.CondWait? then WaitDown(via.ticket, via.cond) else User);
    case WaitRel(w, c) => HolderCleared(s.pc, y, t, y.monitor[c], CondWait(w, c), AdvanceStep(s).sy);
    case WaitDown(w, c) => DownLocks(s, WaitSem(w), CondWait(w, c));
    case Reacq(w, c) => DownLocks(s, LockSem(y.monitor[c]), CondWait(w, c));
    case SigUp(w, c, all) => PcLocks(s, if all then Bcast(c) else User, AdvanceStep(s).sy);
    case Bcast(c) => PcLocks(s, CondPop(s, c, true).pc[t], CondPop(s, c, true).sy);
  }

  lemma StepLocks(s: State, a: Action)
    requires ChildWaits(s) && Locks(s.pc, s.sy) && Enabled(s, a)
    ensures Locks(Step(s, a).pc, Step(s, a).sy)
  {
    var s', t := Step(s, a), s.th.cur;
    match a
    case Timer =>
    case IrqUp(m) => LocksSame(s.pc, s.pc, s.sy, s'.sy);
    case IrqTry(m) => LocksSame(s.pc, s.pc, s.sy, s'.sy);
    case Advance => AdvanceLocks(s);
    case CallCreate(c) => LocksSame(s.pc, s'.pc, s.sy, s.sy);
    case CallSleep(n) => PcLocks(s, Sleeping, s.sy);
    case CallLockInit(l) => LockMade(s.pc, s.sy, l);
    case CallDown(m) => DownLocks(s, Plain(m), Direct);
    case CallTryDown(m) => DownLocks(s, Plain(m), Direct);
    case CallAcquire(l) => DownLocks(s, LockSem(l), Direct);
    case CallTryAcquire(l) => DownLocks(s, LockSem(l), Direct);
    case CallRelease(l) => HolderCleared(s.pc, s.sy, t, l, Direct, s'.sy);
    case CallWait(c) => WaitLocks(s, c);
    case CallSignal(c) => PopLocks(s, c, false);
    case CallBroadcast(c) => if s.sy.conds[c] != [] { PcLocks(s, Bcast(c), s.sy); }
    case _ => LocksSame(s.pc, s'.pc, s.sy, s'.sy);
  }

  lemma WaitLocks(s: State, c: nat)
    requires Locks(s.pc, s.sy) && s.th.cur in s.pc && s.pc[s.th.cur] == User && c in s.sy.conds && c in s.sy.arrived
    ensures Locks(CondEnqueue(s, c).pc, CondEnqueue(s, c).sy)
  {
    PcLocks(s, WaitRel(s.sy.tickets, c), CondEnqueue(s, c).sy);
  }

  lemma PopLocks(s: State, c: nat, all: bool)
    requires Locks(s.pc, s.sy) && s.th.cur in s.pc && (s.pc[s.th.cur] == User || s.pc[s.th.cur].Bcast?)
    requires c in s.sy.conds && c in s.sy.popped
    ensures Locks(CondPop(s, c, all).pc, CondPop(s, c, all).sy)
  {
    PcLocks(s, CondPop(s, c, all).pc[s.th.cur], CondPop(s, c, all).sy);
  }

  lemma {:induction false} LocksAlways(run: seq<State>, i: nat)
    requires IsRun(run) && i < |run|
    ensures Locks(run[i].pc, run[i].sy)
  {
    if i > 0 {
      LocksAlways(run, i - 1);
      assert ChildWaits(run[i - 1]) by { PlacesAlways(run, i - 1); PlacesChild(run[i - 1]); }
      assert StepAt(run, i);
      NextLocks(run[i - 1], run[i]);
    }
  }

  lemma NextLocks(s: State, s': State)
    requires ChildWaits(s) && Locks(s.pc, s.sy) && Next(s, s')
    ensures Locks(s'.pc, s'.sy)
  {
    var a :| Enabled(s, a) && s' == Step(s, a);
    StepLocks(s, a);
  }

  /** Mutual exclusion, over every interleaving: the lock's semaphore value plus
      the threads between their inner sema_down() and sema_up() is always one,
      and the holder is nobody or that one thread, also in the windows where it
      is not yet set or already cleared. */
  lemma MutualExclusion(run: seq<State>, i: nat, l: nat)
    requires IsRun(run) && i < |run| && l in run[i].sy.holder
    ensures var s := run[i];
            LockSem(l) in s.sy.semas
            && (forall t: Tid, u: Tid :: Inside(s.pc, s.sy, t, l) && Inside(s.pc, s.sy, u, l) ==> t == u)
            && (if exists t: Tid :: Inside(s.pc, s.sy, t, l) then s.sy.semas[LockSem(l)].value == 0
                else s.sy.semas[LockSem(l)].value == 1)
            && (forall t: Tid :: s.sy.holder[l] == Some(t) ==> Inside(s.pc, s.sy, t, l))
  {
    LocksAlways(run, i);
    var s := run[i];
    if s.sy.owner[l].Some? {
      assert Inside(s.pc, s.sy, s.sy.owner[l].value, l);
    }
  }
}
