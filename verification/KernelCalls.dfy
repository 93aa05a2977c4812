/** What each kernel call does for its caller: at once, and by the time it
    returns, whatever else happens in between. */
module KernelCalls {
  import opened Kernel
  import opened KernelCond
  import opened KernelMonitor
  import opened KernelPlaces
  import opened KernelTime
  import opened Sequences

  // ---------- At once ----------

  // Everything but the semaphores m is as it was.
  ghost predicate OnlySema(s: State, s': State, m: SemId) {
    && s'.sy.holder == s.sy.holder && s'.sy.conds == s.sy.conds && s'.sy.monitor == s.sy.monitor
    && s'.sy.semas.Keys == s.sy.semas.Keys
    && forall n :: n in s.sy.semas && n != m ==> n in s'.sy.semas && s'.sy.semas[n] == s.sy.semas[n]
  }

  /** sema_init(): the value is the argument, and nobody waits. */
  lemma SemaInitDoes(s: State, m: nat, v: nat)
    requires Enabled(s, CallSemaInit(m, v))
    ensures var s' := Step(s, CallSemaInit(m, v));
            && Plain(m) in s'.sy.semas && s'.th == s.th && s'.pc == s.pc
            && s'.sy.semas[Plain(m)].value == v == s'.sy.semas[Plain(m)].initial && s'.sy.semas[Plain(m)].waiters == []
            && s'.sy.semas[Plain(m)].ups == 0 == s'.sy.semas[Plain(m)].downs
            && forall n :: n in s.sy.semas ==> n in s'.sy.semas && s'.sy.semas[n] == s.sy.semas[n]
  {}

  /** lock_init(): the lock is free.  cond_init(): nobody waits. */
  lemma InitsDo(s: State, l: nat, c: nat)
    ensures Enabled(s, CallLockInit(l)) ==>
              var y := Step(s, CallLockInit(l)).sy;
              LockSem(l) in y.semas && y.semas[LockSem(l)].value == 1 && y.semas[LockSem(l)].waiters == []
              && l in y.holder && y.holder[l] == None
    ensures Enabled(s, CallCondInit(c, l)) ==>
              var y := Step(s, CallCondInit(c, l)).sy;
              c in y.conds && y.conds[c] == [] && c in y.monitor && y.monitor[c] == l
  {}

  // A decrement of m by the running thread, which goes on.
  ghost predicate Decremented(s: State, s': State, m: SemId) {
    && m in s.sy.semas && m in s'.sy.semas && s'.th == s.th && OnlySema(s, s', m)
    && s'.sy.semas[m].value == s.sy.semas[m].value - 1 && s'.sy.semas[m].waiters == s.sy.semas[m].waiters
    && s'.sy.semas[m].downs == s.sy.semas[m].downs + 1 && s'.sy.semas[m].ups == s.sy.semas[m].ups
  }

  /** sema_try_down(), from a thread or from an interrupt handler: a positive
      value goes down by one, and a zero changes nothing. */
  lemma TryDownDoes(s: State, m: nat, a: Action)
    requires (a == CallTryDown(m) || a == IrqTry(m)) && Enabled(s, a)
    ensures var s' := Step(s, a);
            if s.sy.semas[Plain(m)].value > 0 then Decremented(s, s', Plain(m)) && s'.pc == s.pc else s' == s
  {
    assert a == CallTryDown(m) ==> s.pc[s.th.cur := User] == s.pc;
  }

  /** lock_try_acquire(): a free lock is taken by the caller, which then only has
      to store itself as the holder; a lock that is not free changes nothing. */
  lemma TryAcquireDoes(s: State, l: nat)
    requires Enabled(s, CallTryAcquire(l))
    ensures var s' := Step(s, CallTryAcquire(l));
            if s.sy.semas[LockSem(l)].value > 0 then
              && Decremented(s, s', LockSem(l)) && l in s'.sy.owner && s'.sy.owner[l] == Some(s.th.cur)
              && s'.pc == s.pc[s.th.cur := SetHolder(l, Direct)]
            else s' == s
  {}

  /** sema_down(): a positive value goes down by one and the caller goes on; at
      zero the caller joins the end of the waiters and leaves the CPU. */
  lemma DownDoes(s: State, m: nat)
    requires Enabled(s, CallDown(m))
    ensures var s', t, x := Step(s, CallDown(m)), s.th.cur, s.sy.semas[Plain(m)];
            if x.value > 0 then Decremented(s, s', Plain(m)) && s'.pc == s.pc
            else
              && OnlySema(s, s', Plain(m)) && s'.sy.semas[Plain(m)] == x.(waiters := x.waiters + [t])
              && s'.pc == s.pc[t := Downing(Plain(m), Direct)] && Leaves(s.th, s'.th, Blocked)
  {
    assert s.pc[s.th.cur := User] == s.pc;
  }

  // The running thread has left the CPU with the given status, to the thread
  // that has been ready longest or to the idle thread.
  ghost predicate Leaves(h: Threads, h': Threads, x: Status) {
    && h.cur in h'.status && h'.cur in h'.status && h'.status[h'.cur] == Running
    && h'.cur == (if h.ready == [] then h.idle else h.ready[0])
    && h'.ready == (if h.ready == [] then [] else h.ready[1..])
    && (h'.cur != h.cur ==> h'.status[h.cur] == x)
    && (forall t :: t in h.status && t != h.cur && t != h'.cur ==> t in h'.status && h'.status[t] == h.status[t])
    && h'.slice == 0 && h'.ticks == h.ticks && h'.slept == h.slept && h'.idle == h.idle
  }

  /** sema_up(), from a thread or from an interrupt handler: the value goes up by
      one, and the thread that has waited longest becomes ready, last in line. */
  lemma UpDoes(s: State, m: nat, a: Action)
    requires (a == CallUp(m) || a == IrqUp(m)) && Enabled(s, a)
    ensures Upped(s, Step(s, a), Plain(m)) && OnlySema(s, Step(s, a), Plain(m)) && Step(s, a).pc == s.pc
  {}

  ghost predicate Upped(s: State, s': State, m: SemId) {
    && m in s.sy.semas && m in s'.sy.semas
    && var x, x' := s.sy.semas[m], s'.sy.semas[m];
       && x'.value == x.value + 1 && x'.ups == x.ups + 1 && x'.downs == x.downs
       && (x.waiters == [] ==> x'.waiters == [] && s'.th == s.th)
       && (x.waiters != [] ==>
             && x.waiters == [x.waiters[0]] + x'.waiters && s'.th.cur == s.th.cur
             && s'.th.ready == s.th.ready + [x.waiters[0]]
             && s'.th.status == s.th.status[x.waiters[0] := Ready])
  }

  /** thread_yield(): whoever has been ready longest runs, and the caller is last
      in line; alone, it goes on. */
  lemma YieldDoes(s: State)
    requires Enabled(s, CallYield) && s.th.cur != s.th.idle
    ensures var h, h' := s.th, Step(s, CallYield).th;
            && h'.cur == (if h.ready == [] then h.cur else h.ready[0])
            && h'.ready == (h.ready + [h.cur])[1..]
            && h'.cur in h'.status && h'.status[h'.cur] == Running
            && (h.ready != [] && h.cur != h.ready[0] ==> h.cur in h'.status && h'.status[h.cur] == Ready)
            && Step(s, CallYield).pc == s.pc && Step(s, CallYield).sy == s.sy
  {
    if s.th.ready != [] { assert (s.th.ready + [s.th.cur])[0] == s.th.ready[0]; }
  }

  /** thread_exit(): the caller leaves the CPU, dying. */
  lemma ExitDoes(s: State)
    requires Enabled(s, CallExit)
    ensures Leaves(s.th, Step(s, CallExit).th, Dying) && Step(s, CallExit).pc == s.pc && Step(s, CallExit).sy == s.sy
  {}

  /** thread_create(): the new thread is blocked, and the caller's next step makes
      it ready, last in line, to begin in its own code. */
  lemma CreateDoes(s: State, t: Tid)
    requires Enabled(s, CallCreate(t)) && t != s.th.cur
    ensures var s1 := Step(s, CallCreate(t));
            && s1.th.cur == s.th.cur && s1.th.ready == s.th.ready && s1.th.status == s.th.status[t := Blocked]
            && s1.sy == s.sy && Enabled(s1, Advance)
            && var s2 := Step(s1, Advance);
               && s2.th.cur == s.th.cur && s2.th.ready == s.th.ready + [t] && s2.th.status == s.th.status[t := Ready]
               && s2.pc == s.pc[t := User] && s2.sy == s.sy
  {
    var s2 := Step(Step(s, CallCreate(t)), Advance);
    assert s2.pc == s.pc[t := User];
    assert s2.th.status == s.th.status[t := Ready];
  }

  /** The timer interrupt takes the CPU away if and only if it is the fourth tick
      of the time slice, or the third and somebody sleeps. */
  lemma TickDoes(s: State)
    requires Enabled(s, Timer)
    ensures var h, h' := s.th, Step(s, Timer).th;
            && h'.ticks == h.ticks + 1
            && (h.slice >= 3 || (h.slice >= 2 && h.slept != []) ==> h'.scheds == h.scheds + 1 && h'.slice == 0)
            && (!(h.slice >= 3 || (h.slice >= 2 && h.slept != [])) ==>
                  h'.scheds == h.scheds && h'.slice == h.slice + 1 && h'.cur == h.cur)
  {
    WakeDueFrame(Clock(s.th));
  }

  /** cond_wait() up to its sema_down(): a fresh semaphore with value zero joins
      the end of the queue, then the caller is no longer the holder, and then the
      lock's semaphore goes up. */
  lemma WaitReleases(s: State, c: nat)
    requires Enabled(s, CallWait(c))
    ensures var s1, t, w := Step(s, CallWait(c)), s.th.cur, s.sy.tickets;
            && Enqueued(s, s1, c, w) && s1.th == s.th && s1.pc == s.pc[t := WaitRel(w, c)] && Enabled(s1, Advance)
            && Freed(s1, Step(s1, Advance), t, w, c)
  {
    assert Enqueued(s, Step(s, CallWait(c)), c, s.sy.tickets);
    FreesNext(Step(s, CallWait(c)), s.sy.tickets, c);
  }

  lemma FreesNext(s: State, w: nat, c: nat)
    requires s.th.cur in s.pc && s.pc[s.th.cur] == WaitRel(w, c) && Enabled(s, Advance)
    ensures Freed(s, Step(s, Advance), s.th.cur, w, c)
  {}

  // Ticket w is new, and last in the queue of c.
  ghost predicate Enqueued(s: State, s': State, c: nat, w: nat) {
    && s'.sy.tickets == w + 1 && s'.sy.holder == s.sy.holder && s'.sy.monitor == s.sy.monitor && c in s.sy.conds
    && s'.sy.conds == s.sy.conds[c := s.sy.conds[c] + [w]]
    && WaitSem(w) in s'.sy.semas && s'.sy.semas[WaitSem(w)].value == 0 && s'.sy.semas[WaitSem(w)].waiters == []
    && forall n :: n in s.sy.semas && n != WaitSem(w) ==> n in s'.sy.semas && s'.sy.semas[n] == s.sy.semas[n]
  }

  // The lock of c has no holder, and the step after that gives it up.
  ghost predicate Freed(s: State, s': State, t: Tid, w: nat, c: nat) {
    && c in s.sy.monitor && s'.th == s.th && s'.sy.semas == s.sy.semas && s'.sy.conds == s.sy.conds
    && s'.sy.holder == s.sy.holder[s.sy.monitor[c] := None]
    && s'.pc == s.pc[t := RelUp(s.sy.monitor[c], CondWait(w, c))]
    && (Enabled(s', Advance) ==>
          var s'' := Step(s', Advance);
          Upped(s', s'', LockSem(s.sy.monitor[c])) && s''.pc == s'.pc[t := WaitDown(w, c)])
  }

  // ---------- By the time it returns ----------

  // The call that a thread is in, from its first step on.
  datatype Call =
    | NoCall | Idling | Unborn | CreateOf(child: Tid) | Sleep | DownOf(m: SemId) | Acquire(l: nat) | Release(l: nat)
    | Wait(w: nat, c: nat) | Signal(w: nat, c: nat) | BroadcastTo(c: nat)

  function CallOf(p: Pc): Call {
    match p
    case User => NoCall
    case IdleLoop => Idling
    case Newborn(_) => Unborn
    case Creating(t) => CreateOf(t)
    case Sleeping => Sleep
    case Downing(m, via) => if m.Plain? then DownOf(m)
                            else if via.CondWait? then Wait(via.ticket, via.cond)
                            else if m.LockSem? then Acquire(m.lock) else DownOf(m)
    case SetHolder(l, via) => if via.CondWait? then Wait(via.ticket, via.cond) else Acquire(l)
    case RelUp(l, via) => if via.CondWait? then Wait(via.ticket, via.cond) else Release(l)
    case WaitRel(w, c) => Wait(w, c)
    case WaitDown(w, c) => Wait(w, c)
    case Reacq(w, c) => Wait(w, c)
    case SigUp(w, c, all) => if all then BroadcastTo(c) else Signal(w, c)
    case Bcast(c) => BroadcastTo(c)
  }

  // A thread that does not run stays where it is.
  lemma OthersStay(s: State, a: Action, t: Tid)
    requires Enabled(s, a) && ChildWaits(s) && t in s.pc && !s.pc[t].Newborn?
    requires t != s.th.cur || a.Timer? || a.IrqUp? || a.IrqTry?
    ensures t in Step(s, a).pc && Step(s, a).pc[t] == s.pc[t]
  {
    if a == Advance { AdvanceStays(s, t); } else { CallStays(s, a, t); }
  }

  lemma AdvanceStays(s: State, t: Tid)
    requires s.th.cur in s.pc && CanAdvance(s) && ChildWaits(s) && t in s.pc && !s.pc[t].Newborn? && t != s.th.cur
    ensures t in AdvanceStep(s).pc && AdvanceStep(s).pc[t] == s.pc[t]
  {}

  lemma CallStays(s: State, a: Action, t: Tid)
    requires Enabled(s, a) && a != Advance && t in s.pc && (t != s.th.cur || a.Timer? || a.IrqUp? || a.IrqTry?)
    ensures t in Step(s, a).pc && Step(s, a).pc[t] == s.pc[t]
  {}

  // The step to s' keeps thread t in its call x, or ends it.
  ghost predicate GoesOn(x: Call, s: State, s': State, t: Tid) {
    t in s'.pc && if s'.pc[t] == User then Ends(x, s, s', t) else CallOf(s'.pc[t]) == x
  }

  lemma DownGoesOn(s: State, m: SemId, via: Caller)
    requires m in s.sy.semas && (m.WaitSem? ==> via.CondWait? && via.ticket == m.ticket)
    ensures GoesOn(CallOf(Downing(m, via)), s, Down(s, m, via), s.th.cur)
  {
    DownParts(s, m, via);
  }

  lemma ReleaseGoesOn(s: State, l: nat, via: Caller)
    requires LockSem(l) in s.sy.semas && l in s.sy.owner
    ensures GoesOn(CallOf(RelUp(l, via)), s, ReleaseUp(s, l, via), s.th.cur)
  {}

  lemma SignalGoesOn(s: State, w: nat, c: nat, all: bool)
    requires WaitSem(w) in s.sy.semas
    ensures GoesOn(CallOf(SigUp(w, c, all)), s, SignalUp(s, w, c, all), s.th.cur)
  {}

  lemma StoreGoesOn(s: State, l: nat, via: Caller)
    requires CondsKnown(s.sy) && l in s.sy.holder
    requires via.CondWait? ==> via.cond in s.sy.monitor && s.sy.monitor[via.cond] == l
    ensures GoesOn(CallOf(SetHolder(l, via)), s, StoreHolder(s, l, via), s.th.cur)
  {}

  /** The running thread's step inside a call keeps it in that call, or ends it
      with what the call is for. */
  lemma AdvanceInCall(s: State)
    requires s.th.cur in s.pc && CanAdvance(s) && Staged(Role(s.pc, s.th.cur), s.th.cur, s.sy) && CondsKnown(s.sy)
    ensures GoesOn(CallOf(s.pc[s.th.cur]), s, AdvanceStep(s), s.th.cur)
  {
    match s.pc[s.th.cur]
    case Downing(m, via) => DownGoesOn(s, m, via);
    case SetHolder(l, via) => StoreGoesOn(s, l, via);
    case RelUp(l, via) => ReleaseGoesOn(s, l, via);
    case WaitDown(w, c) => DownGoesOn(s, WaitSem(w), CondWait(w, c));
    case Reacq(w, c) => DownGoesOn(s, LockSem(s.sy.monitor[c]), CondWait(w, c));
    case SigUp(w, c, all) => SignalGoesOn(s, w, c, all);
    case _ =>
  }

  // What has just come true when thread t's call ends with the step to s'.
  ghost predicate Ends(x: Call, s: State, s': State, t: Tid) {
    match x
    case CreateOf(c) => s'.th.ready == s.th.ready + [c]
    case DownOf(m) => Decremented(s, s', m)
    case Acquire(l) => l in s'.sy.holder && s'.sy.holder[l] == Some(t)
    case Release(l) => Upped(s, s', LockSem(l)) && l in s'.sy.owner && s'.sy.owner[l] == None
    case Wait(w, c) => w in s'.sy.returned && Holds(s'.sy, t, c)
    case Signal(w, c) => w in s'.sy.upped && Upped(s, s', WaitSem(w))
    case BroadcastTo(c) => c in s'.sy.conds && s'.sy.conds[c] == [] && Holds(s'.sy, t, c)
    case _ => true
  }

  // ---------- Over runs ----------

  // Thread t is in a call at every state after i and before j.
  ghost predicate InCall(run: seq<State>, i: nat, j: nat, t: Tid)
    requires i < j <= |run|
  {
    forall k :: i < k < j ==> t in run[k].pc && run[k].pc[t] != User
  }

  lemma NextInCall(s: State, s': State, t: Tid)
    requires ChildWaits(s) && Conds(s.pc, s.sy) && Next(s, s')
    requires t in s.pc && s.pc[t] != User && !s.pc[t].Newborn?
    ensures GoesOn(CallOf(s.pc[t]), s, s', t)
    ensures s'.pc[t] == User ==> t == s.th.cur && CanAdvance(s) && s' == AdvanceStep(s)
    ensures !s'.pc[t].Newborn?
  {
    var a :| Enabled(s, a) && s' == Step(s, a);
    if t == s.th.cur && a == Advance {
      StageOf(s.pc, s.sy, t);
      AdvanceInCall(s);
    } else {
      OthersStay(s, a, t);
    }
  }

  /** From the first step of a call to the one that ends it, a thread is in that
      call and no other. */
  lemma {:induction false} SameCall(run: seq<State>, i: nat, j: nat, t: Tid)
    requires IsRun(run) && i + 1 < j < |run| && InCall(run, i, j, t) && !run[i + 1].pc[t].Newborn?
    ensures t in run[j].pc && !run[j].pc[t].Newborn? && CallOf(run[j - 1].pc[t]) == CallOf(run[i + 1].pc[t])
    ensures GoesOn(CallOf(run[i + 1].pc[t]), run[j - 1], run[j], t)
    ensures run[j].pc[t] == User ==>
              t == run[j - 1].th.cur && CanAdvance(run[j - 1]) && run[j] == AdvanceStep(run[j - 1])
    decreases j
  {
    if i + 2 < j { SameCall(run, i, j - 1, t); }
    RunInCall(run, j, t);
  }

  lemma RunInCall(run: seq<State>, j: nat, t: Tid)
    requires IsRun(run) && 0 < j < |run|
    requires t in run[j - 1].pc && run[j - 1].pc[t] != User && !run[j - 1].pc[t].Newborn?
    ensures GoesOn(CallOf(run[j - 1].pc[t]), run[j - 1], run[j], t) && !run[j].pc[t].Newborn?
    ensures run[j].pc[t] == User ==>
              t == run[j - 1].th.cur && CanAdvance(run[j - 1]) && run[j] == AdvanceStep(run[j - 1])
  {
    assert ChildWaits(run[j - 1]) by { PlacesAlways(run, j - 1); PlacesChild(run[j - 1]); }
    CondsAlways(run, j - 1);
    assert StepAt(run, j);
    NextInCall(run[j - 1], run[j], t);
  }

  /** cond_broadcast(): when it returns nobody waits on the condition variable,
      and everybody who did has been popped and its semaphore upped. */
  lemma BroadcastReachesAll(run: seq<State>, i: nat, j: nat, c: nat)
    requires IsRun(run) && i < j < |run| && Enabled(run[i], CallBroadcast(c))
    requires run[i + 1] == Step(run[i], CallBroadcast(c))
    requires InCall(run, i, j, run[i].th.cur) && run[i].th.cur in run[j].pc && run[j].pc[run[i].th.cur] == User
    ensures var y := run[j].sy;
            && c in y.conds && y.conds[c] == [] && c in y.popped
            && forall w :: w in run[i].sy.conds[c] ==> w in y.popped[c] && w in y.upped
  {
    var t := run[i].th.cur;
    if run[i].sy.conds[c] == [] {
      CondsAlways(run, j);
      assert run[i + 1].pc[t] == User;
      assert j == i + 1;
    } else {
      assert run[i + 1].pc[t] == Bcast(c) && j > i + 1;
      SameCall(run, i, j, t);
      QueueArrived(run, i, j, c);
      AllUpped(run, j, t, c);
    }
  }

  // Who is queued has arrived, and stays among the arrivals.
  lemma {:induction false} QueueArrived(run: seq<State>, i: nat, j: nat, c: nat)
    requires IsRun(run) && i <= j < |run| && c in run[i].sy.conds
    ensures c in run[j].sy.arrived && forall w :: w in run[i].sy.conds[c] ==> w in run[j].sy.arrived[c]
    decreases j
  {
    if i == j {
      CondsAlways(run, i);
    } else {
      QueueArrived(run, i, j - 1, c);
      CondsAlways(run, j - 1);
      assert StepAt(run, j);
      ArrivedGrows(run[j - 1], run[j], c);
    }
  }

  lemma ArrivedGrows(s: State, s': State, c: nat)
    requires CondsKnown(s.sy) && c in s.sy.arrived && Next(s, s')
    ensures Later(s.sy, s'.sy, c)
  {
    var a :| Enabled(s, a) && s' == Step(s, a);
    if a == Advance { AdvanceArrived(s); } else { CallArrived(s, a, c); }
  }

  lemma AdvanceArrived(s: State)
    requires s.th.cur in s.pc && CanAdvance(s)
    ensures AdvanceStep(s).sy.arrived == s.sy.arrived
  {
    match s.pc[s.th.cur]
    case Downing(m, via) => DownParts(s, m, via);
    case WaitDown(w, c) => DownParts(s, WaitSem(w), CondWait(w, c));
    case Reacq(w, c) => DownParts(s, LockSem(s.sy.monitor[c]), CondWait(w, c));
    case _ =>
  }

  lemma CallArrived(s: State, a: Action, c: nat)
    requires Enabled(s, a) && a != Advance && c in s.sy.arrived && (a.CallCondInit? ==> a.c !in s.sy.arrived)
    ensures Later(s.sy, Step(s, a).sy, c)
  {
    match a
    case CallWait(d) => WaitArrived(s, d, c);
    case CallCondInit(d, l) => InitArrived(s.sy, d, l, c);
    case _ => QuietArrived(s, a);
  }

  lemma WaitArrived(s: State, d: nat, c: nat)
    requires c in s.sy.arrived && d in s.sy.conds && d in s.sy.arrived
    ensures Later(s.sy, CondEnqueue(s, d).sy, c)
  {}

  lemma InitArrived(y: Sync, d: nat, l: nat, c: nat)
    requires c in y.arrived && d !in y.arrived
    ensures Later(y, CondInit(y, d, l), c)
  {}

  // Arrivals at c are kept, in order.
  ghost predicate Later(y: Sync, y': Sync, c: nat) {
    c in y.arrived && c in y'.arrived && y.arrived[c] <= y'.arrived[c]
  }

  lemma QuietArrived(s: State, a: Action)
    requires Enabled(s, a) && !a.Advance? && !a.CallWait? && !a.CallCondInit?
    ensures Step(s, a).sy.arrived == s.sy.arrived
  {
    match a
    case CallDown(m) => DownParts(s, Plain(m), Direct);
    case CallAcquire(l) => DownParts(s, LockSem(l), Direct);
    case CallTryDown(m) => DownParts(s, Plain(m), Direct);
    case CallTryAcquire(l) => DownParts(s, LockSem(l), Direct);
    case _ =>
  }

  // With an empty queue and a holder of the lock that is in no call, every
  // arrival has been signaled.
  lemma AllUpped(run: seq<State>, j: nat, t: Tid, c: nat)
    requires IsRun(run) && j < |run| && Holds(run[j].sy, t, c) && run[j].sy.conds[c] == []
    requires t in run[j].pc && run[j].pc[t] == User
    ensures forall w :: w in run[j].sy.arrived[c] ==> w in run[j].sy.popped[c] && w in run[j].sy.upped
  {
    var s := run[j];
    CondsAlways(run, j);
    HomeAlways(run, j);
    assert s.sy.arrived[c] == s.sy.popped[c] + s.sy.conds[c];
    forall w | w in s.sy.arrived[c] ensures w in s.sy.popped[c] && w in s.sy.upped {
      if w !in s.sy.upped { SignalerHolds(s, s.sy.signaler[w].0, w, c); }
    }
  }

  // Who is about to up a waiter of c holds the lock of c.
  lemma SignalerHolds(s: State, u: Tid, w: nat, c: nat)
    requires Conds(s.pc, s.sy) && Home(s.pc, s.sy.arrived)
    requires AboutToUp(s.pc, u, w) && c in s.sy.arrived && w in s.sy.arrived[c]
    ensures u in s.pc && s.pc[u].SigUp? && Holds(s.sy, u, c)
  {
    StageOf(s.pc, s.sy, u);
    assert Role(s.pc, u) == s.pc[u] && AtHome(s.pc[u], s.sy.arrived);
    assert s.pc[u].cond == c;
  }

  /** cond_signal(): when it returns, the one who had waited longest has been
      popped and its semaphore upped. */
  lemma SignalReachesFirst(run: seq<State>, i: nat, j: nat, c: nat)
    requires IsRun(run) && i < j < |run| && Enabled(run[i], CallSignal(c)) && run[i + 1] == Step(run[i], CallSignal(c))
    requires InCall(run, i, j, run[i].th.cur) && run[i].th.cur in run[j].pc && run[j].pc[run[i].th.cur] == User
    requires run[i].sy.conds[c] != []
    ensures run[i].sy.conds[c][0] in run[j].sy.upped
    ensures run[i + 1].sy.conds[c] == run[i].sy.conds[c][1..]
  {
    var t := run[i].th.cur;
    assert run[i + 1].pc[t] == SigUp(run[i].sy.conds[c][0], c, false);
    SameCall(run, i, j, t);
  }

  /** cond_wait(): when it returns the caller holds the lock again, which was free
      a step before; and its ticket, which nobody had before, has been popped
      from the condition variable and its semaphore upped. */
  lemma WaitReturns(run: seq<State>, i: nat, j: nat, c: nat)
    requires IsRun(run) && i < j < |run| && Enabled(run[i], CallWait(c)) && run[i + 1] == Step(run[i], CallWait(c))
    requires InCall(run, i, j, run[i].th.cur) && run[i].th.cur in run[j].pc && run[j].pc[run[i].th.cur] == User
    ensures var y, w, l := run[j].sy, run[i].sy.tickets, run[i].sy.monitor[c];
            && Holds(y, run[i].th.cur, c) && w in y.returned && w in y.upped && w !in run[i].sy.upped
            && c in y.popped && w in y.popped[c]
            && c in run[j - 1].sy.monitor && run[j - 1].sy.monitor[c] in run[j - 1].sy.holder
            && run[j - 1].sy.holder[run[j - 1].sy.monitor[c]] == None
  {
    var t, w := run[i].th.cur, run[i].sy.tickets;
    assert run[i + 1].pc[t] == WaitRel(w, c) && run[i + 1].sy.conds[c][|run[i].sy.conds[c]|] == w;
    SameCall(run, i, j, t);
    QueueArrived(run, i + 1, j, c);
    ReturnsMatchSignals(run, j, w);
    UppedGiven(run, i);
    FreeBefore(run, j, t, w, c);
  }

  // Only tickets that have been given out are upped.
  lemma UppedGiven(run: seq<State>, i: nat)
    requires IsRun(run) && i < |run|
    ensures forall w :: w in run[i].sy.upped ==> w < run[i].sy.tickets
  {
    CondsAlways(run, i);
    var y := run[i].sy;
    forall w | w in y.upped ensures w < y.tickets {
      var c := y.signaler[w].1;
      assert y.arrived[c] == y.popped[c] + y.conds[c];
      assert w in y.arrived[c];
    }
  }

  // Just before cond_wait() returns nobody is the holder.
  lemma FreeBefore(run: seq<State>, j: nat, t: Tid, w: nat, c: nat)
    requires IsRun(run) && 0 < j < |run| && t == run[j - 1].th.cur && t in run[j - 1].pc && t in run[j].pc
    requires CanAdvance(run[j - 1]) && run[j] == AdvanceStep(run[j - 1])
    requires CallOf(run[j - 1].pc[t]) == Wait(w, c) && run[j].pc[t] == User
    ensures var y := run[j - 1].sy; c in y.monitor && y.monitor[c] in y.holder && y.holder[y.monitor[c]] == None
  {
    var s := run[j - 1];
    assert Staged(Role(s.pc, t), t, s.sy) by { CondsAlways(run, j - 1); StageOf(s.pc, s.sy, t); }
    LastOfWait(s, w, c);
    LocksAlways(run, j - 1);
    FreeInWindow(s.pc, s.sy, t, s.pc[t].lock);
  }

  lemma LastOfWait(s: State, w: nat, c: nat)
    requires s.th.cur in s.pc && CanAdvance(s) && Staged(Role(s.pc, s.th.cur), s.th.cur, s.sy)
    requires CallOf(s.pc[s.th.cur]) == Wait(w, c)
    requires s.th.cur in AdvanceStep(s).pc && AdvanceStep(s).pc[s.th.cur] == User
    ensures c in s.sy.monitor && s.pc[s.th.cur] == SetHolder(s.sy.monitor[c], CondWait(w, c))
  {
    match s.pc[s.th.cur]
    case Downing(m, via) => DownParts(s, m, via);
    case WaitDown(_, _) => DownParts(s, WaitSem(w), CondWait(w, c));
    case Reacq(_, _) => DownParts(s, LockSem(s.sy.monitor[c]), CondWait(w, c));
    case _ =>
  }

  lemma FreeInWindow(pc: map<Tid, Pc>, y: Sync, t: Tid, l: nat)
    requires Locks(pc, y) && Window(Role(pc, t), l)
    ensures l in y.holder && y.holder[l] == None
  {
    assert Inside(pc, y, t, l);
    if y.holder[l].Some? { assert Inside(pc, y, y.holder[l].value, l); }
  }

  /** sema_down(): the step with which it returns has decremented the value. */
  lemma DownTakes(run: seq<State>, i: nat, j: nat, m: nat)
    requires IsRun(run) && i < j < |run| && Enabled(run[i], CallDown(m)) && run[i + 1] == Step(run[i], CallDown(m))
    requires InCall(run, i, j, run[i].th.cur) && run[i].th.cur in run[j].pc && run[j].pc[run[i].th.cur] == User
    ensures Decremented(run[j - 1], run[j], Plain(m))
  {
    var t := run[i].th.cur;
    DownDoes(run[i], m);
    if j > i + 1 { SameCall(run, i, j, t); }
  }

  /** lock_acquire() and a successful lock_try_acquire(): when it returns the
      caller is the holder. */
  lemma AcquireTakes(run: seq<State>, i: nat, j: nat, l: nat, a: Action)
    requires IsRun(run) && i < j < |run| && Enabled(run[i], a) && run[i + 1] == Step(run[i], a)
    requires a == CallAcquire(l) || (a == CallTryAcquire(l) && run[i].sy.semas[LockSem(l)].value > 0)
    requires InCall(run, i, j, run[i].th.cur) && run[i].th.cur in run[j].pc && run[j].pc[run[i].th.cur] == User
    ensures l in run[j].sy.holder && run[j].sy.holder[l] == Some(run[i].th.cur)
  {
    var t := run[i].th.cur;
    DownParts(run[i], LockSem(l), Direct);
    assert CallOf(run[i + 1].pc[t]) == Acquire(l);
    SameCall(run, i, j, t);
  }

  /** lock_release(): when it returns the lock's semaphore has just been upped,
      and nobody but a thread that took it since can be the holder. */
  lemma ReleaseGives(run: seq<State>, i: nat, j: nat, l: nat)
    requires IsRun(run) && i < j < |run| && Enabled(run[i], CallRelease(l))
    requires run[i + 1] == Step(run[i], CallRelease(l))
    requires InCall(run, i, j, run[i].th.cur) && run[i].th.cur in run[j].pc && run[j].pc[run[i].th.cur] == User
    ensures Upped(run[j - 1], run[j], LockSem(l)) && run[j].sy.semas[LockSem(l)].value == 1
    ensures l in run[j].sy.holder && run[j].sy.holder[l] == None
  {
    var t := run[i].th.cur;
    assert run[i + 1].pc[t] == RelUp(l, Direct);
    SameCall(run, i, j, t);
    LocksAlways(run, j);
    var y := run[j].sy;
    if y.holder[l].Some? { assert Inside(run[j].pc, y, y.holder[l].value, l); }
  }

  /** thread_exit(): who has called it never runs again. */
  lemma {:induction false} ExitIsFinal(run: seq<State>, i: nat, j: nat)
    requires IsRun(run) && i < j < |run| && Enabled(run[i], CallExit) && run[i + 1] == Step(run[i], CallExit)
    ensures Gone(run[j].th, run[i].th.cur)
    decreases j
  {
    if i + 1 < j {
      ExitIsFinal(run, i, j - 1);
      assert StepAt(run, j);
      assert Gone(run[j].th, run[i].th.cur) by {
        PlacesAlways(run, j - 1);
        NextDead(run[j - 1], run[j], run[i].th.cur);
      }
    } else {
      assert Gone(run[j].th, run[i].th.cur) by {
        PlacesAlways(run, i);
        ExitDead(run[i]);
      }
    }
  }

  // Whoever runs next was ready, or is idle; it is not the thread that leaves.
  lemma ExitDead(s: State)
    requires Places(s) && Enabled(s, CallExit)
    ensures Gone(Step(s, CallExit).th, s.th.cur)
  {
    if s.th.ready != [] { assert s.th.ready[0] in s.th.ready; }
  }

  ghost predicate Dead(h: Threads, t: Tid) { t in h.status && h.status[t] == Dying }

  // Dying, and not running any more.
  ghost predicate Gone(h: Threads, t: Tid) { Dead(h, t) && h.cur != t }

  lemma NextDead(s: State, s': State, t: Tid)
    requires Places(s) && Dead(s.th, t) && Next(s, s')
    ensures Gone(s'.th, t)
  {
    var a :| Enabled(s, a) && s' == Step(s, a);
    StepMove(s, a);
    OnlyBlocked(s, a);
    DeadMove(s, MoveOf(s, a), t);
  }

  lemma DeadMove(s: State, x: Move, t: Tid)
    requires Places(s) && Dead(s.th, t)
    requires x.DoUnblock? ==> x.t in s.th.status && s.th.status[x.t] == Blocked
    requires (x.DoBirth? ==> x.t !in s.th.status) && (x.DoTick? ==> WakesBlocked(Clock(s.th)))
    ensures Gone(Apply(s.th, x), t)
  {
    var h := s.th;
    assert h.ready != [] ==> h.ready[0] in h.ready;
    if x.DoTick? { DeadWakes(Clock(h), t); }
  }

  lemma {:induction false} DeadWakes(h: Threads, t: Tid)
    requires WakesBlocked(h) && Dead(h, t)
    ensures Dead(WakeDue(h), t) && WakeDue(h).cur == h.cur && WakeDue(h).idle == h.idle
    ensures h.ready == [] || (WakeDue(h).ready != [] && WakeDue(h).ready[0] == h.ready[0])
    ensures h.ready == [] && WakeDue(h).ready != [] ==> WakeDue(h).ready[0] != t
    decreases |h.slept|
  {
    if h.slept != [] && Get(h.wake, h.slept[0]) <= h.ticks { DeadWakes(WakeFirst(h), t); }
  }
}
