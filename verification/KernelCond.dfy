/** Condition variables: every signal reaches the waiter it popped, in order. */
module KernelCond {
  import opened Kernel
  import opened Sequences
  import opened KernelPlaces
  import opened KernelSync
  import opened KernelMonitor
  import opened KernelTime

  // The cond_wait() call that a thread is in.
  function TicketOf(p: Pc): Option<nat> {
    match p
    case WaitRel(w, _) => Some(w)
    case WaitDown(w, _) => Some(w)
    case Reacq(w, _) => Some(w)
    case RelUp(_, CondWait(w, _)) => Some(w)
    case SetHolder(_, CondWait(w, _)) => Some(w)
    case Downing(_, CondWait(w, _)) => Some(w)
    case _ => None
  }

  // ---------- The invariant ----------

  ghost predicate CondsKnown(y: Sync) {
    && (forall c: nat :: c in y.conds <==> c in y.monitor)
    && (forall c: nat :: c in y.conds <==> c in y.arrived)
    && (forall c: nat :: c in y.conds <==> c in y.popped)
    && (forall c: nat :: c in y.monitor ==> y.monitor[c] in y.holder)
  }

  /** Waiters are signaled in the order in which they arrived: those popped so
      far, then those still queued, are the arrivals, none of them twice. */
  ghost predicate Fifo(conds: map<nat, seq<nat>>, arrived: map<nat, seq<nat>>, popped: map<nat, seq<nat>>,
                       tickets: nat) {
    && (forall c: nat :: c in conds && c in arrived && c in popped ==>
        arrived[c] == popped[c] + conds[c] && NoDup(arrived[c]))
    && (forall c: nat, w: nat :: c in arrived && w in arrived[c] ==> w < tickets)
    && (forall c: nat, c': nat, w: nat :: c in arrived && c' in arrived && w in arrived[c] && w in arrived[c'] ==>
        c == c')
  }

  // A waiter's semaphore was upped once its ticket is, downed once it passed.
  ghost predicate Ledger(semas: map<SemId, Sema>, tickets: nat, upped: set<nat>, passed: set<nat>) {
    && (forall w: nat :: WaitSem(w) in semas <==> w < tickets)
    && (forall w: nat :: WaitSem(w) in semas ==> Entry(semas[WaitSem(w)], w, upped, passed))
    && (forall w: nat :: w in passed ==> w < tickets)
  }

  ghost predicate Entry(x: Sema, w: nat, upped: set<nat>, passed: set<nat>) {
    && x.initial == 0 && Counts(x)
    && x.ups == (if w in upped then 1 else 0)
    && x.downs == (if w in passed then 1 else 0)
  }

  // Every popped ticket is upped, or its signaler is about to do it.
  ghost predicate Signals(pc: map<Tid, Pc>, popped: map<nat, seq<nat>>, signaler: map<nat, (Tid, nat)>,
                          upped: set<nat>) {
    && (forall w: nat :: w in upped ==> w in signaler)
    && (forall w: nat :: w in signaler ==> signaler[w].1 in popped && w in popped[signaler[w].1])
    && (forall c: nat, w: nat :: c in popped && w in popped[c] ==> w in signaler)
    && (forall w: nat :: w in signaler && w !in upped ==> AboutToUp(pc, signaler[w].0, w))
    && (forall t: Tid, w: nat :: AboutToUp(pc, t, w) ==> w in signaler && signaler[w].0 == t && w !in upped)
  }

  ghost predicate AboutToUp(pc: map<Tid, Pc>, t: Tid, w: nat) {
    Role(pc, t).SigUp? && Role(pc, t).ticket == w
  }

  ghost predicate NotHolding(y: Sync, t: Tid, c: nat) {
    c in y.monitor && y.monitor[c] in y.holder && y.holder[y.monitor[c]] != Some(t)
  }

  ghost predicate Early(y: Sync, w: nat) { w < y.tickets && w !in y.passed }

  ghost predicate Late(y: Sync, w: nat) { w in y.passed && w !in y.returned }

  // Where a thread stands with its own ticket and with the monitor's lock.
  ghost predicate Staged(p: Pc, t: Tid, y: Sync) {
    match p
    case WaitRel(w, c) => Early(y, w) && Holds(y, t, c)
    case RelUp(l, CondWait(w, c)) => Early(y, w) && c in y.monitor && y.monitor[c] == l
    case WaitDown(w, c) => Early(y, w) && NotHolding(y, t, c)
    case Downing(WaitSem(w), via) => via.CondWait? && via.ticket == w && Early(y, w) && NotHolding(y, t, via.cond)
    case Reacq(w, c) => Late(y, w) && NotHolding(y, t, c)
    case Downing(LockSem(l), CondWait(w, c)) => Late(y, w) && NotHolding(y, t, c) && y.monitor[c] == l
    case SetHolder(l, CondWait(w, c)) => Late(y, w) && c in y.monitor && y.monitor[c] == l
    case SigUp(w, c, _) => Holds(y, t, c) && w < y.tickets
    case Bcast(c) => Holds(y, t, c)
    case _ => true
  }

  ghost predicate Stages(pc: map<Tid, Pc>, y: Sync) {
    && (forall t: Tid :: Staged(Role(pc, t), t, y))
    && (forall w: nat :: w in y.returned ==> w in y.passed)
  }

  lemma StageOf(pc: map<Tid, Pc>, y: Sync, t: Tid)
    requires Stages(pc, y)
    ensures Staged(Role(pc, t), t, y)
  {}

  ghost predicate OwnTickets(pc: map<Tid, Pc>) {
    forall t: Tid, u: Tid :: TicketOf(Role(pc, t)).Some? && TicketOf(Role(pc, t)) == TicketOf(Role(pc, u)) ==> t == u
  }

  ghost predicate CondData(pc: map<Tid, Pc>, y: Sync) {
    && CondsKnown(y)
    && Fifo(y.conds, y.arrived, y.popped, y.tickets)
    && Ledger(y.semas, y.tickets, y.upped, y.passed)
    && Signals(pc, y.popped, y.signaler, y.upped)
  }

  ghost predicate CondRoles(pc: map<Tid, Pc>, y: Sync) {
    Stages(pc, y) && OwnTickets(pc)
  }

  ghost predicate Conds(pc: map<Tid, Pc>, y: Sync) {
    CondData(pc, y) && CondRoles(pc, y)
  }

  // ---------- Parts of a step ----------

  // The running thread's role changes; everyone else's stays.
  ghost predicate RoleStep(pc: map<Tid, Pc>, pc': map<Tid, Pc>, t: Tid, p: Pc) {
    Role(pc', t) == p && forall u: Tid :: u != t ==> Role(pc', u) == Role(pc, u)
  }

  // A thread moves to a place that matters here.
  lemma RoleSet(pc: map<Tid, Pc>, t: Tid, p: Pc)
    ensures RoleStep(pc, pc[t := p], t, if Relevant(p) then p else User)
  {}

  lemma OwnTicketsStep(pc: map<Tid, Pc>, pc': map<Tid, Pc>, t: Tid, p: Pc)
    requires OwnTickets(pc) && RoleStep(pc, pc', t, p)
    requires TicketOf(p).Some? && TicketOf(p) != TicketOf(Role(pc, t)) ==>
               forall u: Tid :: TicketOf(Role(pc, u)) != TicketOf(p)
    ensures OwnTickets(pc')
  {
    forall o: Tid | o != t && TicketOf(p).Some? ensures TicketOf(Role(pc', o)) != TicketOf(p) {
      assert Role(pc', o) == Role(pc, o);
    }
  }

  lemma StagesStep(pc: map<Tid, Pc>, pc': map<Tid, Pc>, t: Tid, p: Pc, y: Sync, y': Sync)
    requires Stages(pc, y) && RoleStep(pc, pc', t, p) && Staged(p, t, y')
    requires forall u: Tid :: u != t && Staged(Role(pc, u), u, y) ==> Staged(Role(pc, u), u, y')
    requires forall w: nat :: w in y'.returned ==> w in y'.passed
    ensures Stages(pc', y')
  {
    forall u: Tid ensures Staged(Role(pc', u), u, y') {
      if u != t { StageOf(pc, y, u); }
    }
  }

  // Signals does not care about roles other than SigUp.
  lemma SignalsStep(pc: map<Tid, Pc>, pc': map<Tid, Pc>, t: Tid, p: Pc, y: Sync)
    requires Signals(pc, y.popped, y.signaler, y.upped) && RoleStep(pc, pc', t, p)
    requires !p.SigUp? && !Role(pc, t).SigUp?
    ensures Signals(pc', y.popped, y.signaler, y.upped)
  {
    forall u: Tid, w: nat ensures AboutToUp(pc', u, w) == AboutToUp(pc, u, w) {}
  }

  // What a thread's stage depends on.
  ghost predicate SameForOthers(y: Sync, y': Sync, t: Tid, w: Option<nat>) {
    && y'.tickets >= y.tickets
    && (forall v: nat :: Some(v) != w ==>
        (v in y'.passed <==> v in y.passed) && (v in y'.returned <==> v in y.returned))
    && (forall c: nat :: c in y.monitor ==> c in y'.monitor && y'.monitor[c] == y.monitor[c])
    && (forall c: nat :: c in y.conds && c in y.monitor && c in y.arrived && c in y.popped ==>
        c in y'.conds && c in y'.arrived && c in y'.popped)
    && (forall l: nat, u: Tid :: u != t && l in y.holder ==>
        l in y'.holder && (y'.holder[l] == Some(u) <==> y.holder[l] == Some(u)))
  }

  lemma OthersStaged(pc: map<Tid, Pc>, y: Sync, y': Sync, t: Tid, w: Option<nat>)
    requires OwnTickets(pc) && SameForOthers(y, y', t, w)
    requires w.Some? ==> TicketOf(Role(pc, t)) == w
    ensures forall u: Tid :: u != t && Staged(Role(pc, u), u, y) ==> Staged(Role(pc, u), u, y')
  {
    forall u: Tid | u != t && Staged(Role(pc, u), u, y) ensures Staged(Role(pc, u), u, y') {
      var p := Role(pc, u);
      assert w.Some? ==> TicketOf(p) != w;
      match p
      case WaitRel(_, _) => case RelUp(_, _) => case WaitDown(_, _) => case Downing(_, _) =>
      case Reacq(_, _) => case SetHolder(_, _) => case SigUp(_, _, _) => case Bcast(_) => case _ =>
    }
  }

  // A step of thread t that leaves the condition variables' own data alone.
  lemma RoleKeeps(pc: map<Tid, Pc>, pc': map<Tid, Pc>, t: Tid, p: Pc, y: Sync, y': Sync, w: Option<nat>)
    requires Conds(pc, y) && RoleStep(pc, pc', t, p)
    requires y'.conds == y.conds && y'.arrived == y.arrived && y'.popped == y.popped && y'.tickets == y.tickets
    requires y'.monitor == y.monitor && y'.signaler == y.signaler && y'.upped == y.upped
    requires forall l: nat :: l in y.holder ==> l in y'.holder
    requires Ledger(y'.semas, y'.tickets, y'.upped, y'.passed)
    requires forall v: nat :: v in y'.returned ==> v in y'.passed
    requires SameForOthers(y, y', t, w) && (w.Some? ==> TicketOf(Role(pc, t)) == w)
    requires Staged(p, t, y') && !p.SigUp? && !Role(pc, t).SigUp?
    requires TicketOf(p).Some? ==> TicketOf(p) == TicketOf(Role(pc, t))
    ensures Conds(pc', y')
  {
    OthersStaged(pc, y, y', t, w);
    StagesStep(pc, pc', t, p, y, y');
    OwnTicketsStep(pc, pc', t, p);
    SignalsStep(pc, pc', t, p, y);
  }

  // ---------- Semaphores of waiters ----------

  // Nothing happened to any waiter's semaphore but its queue.
  lemma LedgerSame(y: Sync, semas: map<SemId, Sema>)
    requires Ledger(y.semas, y.tickets, y.upped, y.passed)
    requires forall w: nat :: WaitSem(w) in semas <==> WaitSem(w) in y.semas
    requires forall w: nat :: WaitSem(w) in semas ==>
               semas[WaitSem(w)].(waiters := []) == y.semas[WaitSem(w)].(waiters := [])
    ensures Ledger(semas, y.tickets, y.upped, y.passed)
  {
    forall w: nat | WaitSem(w) in semas ensures Entry(semas[WaitSem(w)], w, y.upped, y.passed) {
      assert Entry(y.semas[WaitSem(w)], w, y.upped, y.passed);
      var x, x' := y.semas[WaitSem(w)].(waiters := []), semas[WaitSem(w)].(waiters := []);
      assert x == x';
    }
  }

  lemma LedgerTake(y: Sync, w: nat, t: Tid)
    requires Ledger(y.semas, y.tickets, y.upped, y.passed) && WaitSem(w) in y.semas && y.semas[WaitSem(w)].value > 0
    requires w !in y.passed
    ensures var y' := Take(y, WaitSem(w), t); Ledger(y'.semas, y'.tickets, y'.upped, y'.passed)
  {
    var y' := Take(y, WaitSem(w), t);
    forall v: nat | WaitSem(v) in y'.semas ensures Entry(y'.semas[WaitSem(v)], v, y'.upped, y'.passed) {
      assert Entry(y.semas[WaitSem(v)], v, y.upped, y.passed);
    }
  }

  lemma LedgerGive(y: Sync, w: nat)
    requires Ledger(y.semas, y.tickets, y.upped, y.passed) && WaitSem(w) in y.semas && w !in y.upped
    ensures Ledger(Give(y, WaitSem(w)).semas, y.tickets, y.upped + {w}, y.passed)
  {
    var semas := Give(y, WaitSem(w)).semas;
    forall v: nat | WaitSem(v) in semas ensures Entry(semas[WaitSem(v)], v, y.upped + {w}, y.passed) {
      assert Entry(y.semas[WaitSem(v)], v, y.upped, y.passed);
    }
  }

  lemma LedgerNew(y: Sync)
    requires Ledger(y.semas, y.tickets, y.upped, y.passed) && (forall w: nat :: w in y.upped ==> w < y.tickets)
    ensures Ledger(y.semas[WaitSem(y.tickets) := Sema(0, [], 0, 0, 0)], y.tickets + 1, y.upped, y.passed)
  {
    var semas := y.semas[WaitSem(y.tickets) := Sema(0, [], 0, 0, 0)];
    forall v: nat | WaitSem(v) in semas ensures Entry(semas[WaitSem(v)], v, y.upped, y.passed) {
      if v != y.tickets { assert Entry(y.semas[WaitSem(v)], v, y.upped, y.passed); }
    }
  }

  // ---------- sema_down() and sema_up() ----------

  lemma JoinConds(s: State, m: SemId, via: Caller)
    requires Conds(s.pc, s.sy) && m in s.sy.semas && s.th.cur in s.pc && !s.pc[s.th.cur].SigUp?
    requires Staged(Downing(m, via), s.th.cur, s.sy)
    requires via.CondWait? && !m.Plain? ==> TicketOf(Role(s.pc, s.th.cur)) == Some(via.ticket)
    ensures Conds(s.pc[s.th.cur := Downing(m, via)], Join(s.sy, m, s.th.cur))
  {
    var t, y' := s.th.cur, Join(s.sy, m, s.th.cur);
    LedgerSame(s.sy, y'.semas);
    var p := if m.Plain? then User else Downing(m, via);
    RoleKeeps(s.pc, s.pc[t := Downing(m, via)], t, p, s.sy, y', None);
  }

  lemma TakeFrame(y: Sync, m: SemId, t: Tid)
    requires m in y.semas && y.semas[m].value > 0
    ensures var y' := Take(y, m, t);
            && y'.conds == y.conds && y'.arrived == y.arrived && y'.popped == y.popped && y'.tickets == y.tickets
            && y'.monitor == y.monitor && y'.signaler == y.signaler && y'.upped == y.upped && y'.holder == y.holder
            && y'.returned == y.returned && y'.passed == (if m.WaitSem? then y.passed + {m.ticket} else y.passed)
            && SameForOthers(y, y', t, if m.WaitSem? then Some(m.ticket) else None)
  {}

  lemma TakeConds(s: State, m: SemId, via: Caller)
    requires Conds(s.pc, s.sy) && m in s.sy.semas && s.sy.semas[m].value > 0
    requires s.th.cur in s.pc && !s.pc[s.th.cur].SigUp?
    requires Staged(Downing(m, via), s.th.cur, s.sy)
    requires via.CondWait? && !m.Plain? ==> TicketOf(Role(s.pc, s.th.cur)) == Some(via.ticket)
    ensures Conds(s.pc[s.th.cur := AfterDown(m, via)], Take(s.sy, m, s.th.cur))
  {
    var t, p := s.th.cur, AfterDown(m, via);
    TakeFrame(s.sy, m, t);
    TakeLedger(s.sy, m, via, t);
    RoleKeeps(s.pc, s.pc[t := p], t, p, s.sy, Take(s.sy, m, t), if m.WaitSem? then Some(m.ticket) else None);
  }

  // Past its sema_down(), a thread's stage and the waiters' ledger are right.
  lemma TakeLedger(y: Sync, m: SemId, via: Caller, t: Tid)
    requires Ledger(y.semas, y.tickets, y.upped, y.passed) && m in y.semas && y.semas[m].value > 0
    requires Staged(Downing(m, via), t, y) && (forall w: nat :: w in y.returned ==> w in y.passed)
    ensures var y' := Take(y, m, t);
            Ledger(y'.semas, y'.tickets, y'.upped, y'.passed) && Staged(AfterDown(m, via), t, y')
  {
    if m.WaitSem? { LedgerTake(y, m.ticket, t); } else { LedgerSame(y, Take(y, m, t).semas); }
  }

  lemma DownConds(s: State, m: SemId, via: Caller)
    requires Conds(s.pc, s.sy) && m in s.sy.semas && s.th.cur in s.pc && !s.pc[s.th.cur].SigUp?
    requires Staged(Downing(m, via), s.th.cur, s.sy)
    requires via.CondWait? && !m.Plain? ==> TicketOf(Role(s.pc, s.th.cur)) == Some(via.ticket)
    ensures Conds(Down(s, m, via).pc, Down(s, m, via).sy)
  {
    if s.sy.semas[m].value == 0 { JoinConds(s, m, via); } else { TakeConds(s, m, via); }
  }

  // A change of semaphores that are not waiters', or of the holder by t.
  lemma OtherConds(s: State, p: Pc, y': Sync)
    requires Conds(s.pc, s.sy) && s.th.cur in s.pc && !s.pc[s.th.cur].SigUp? && !p.SigUp?
    requires y'.conds == s.sy.conds && y'.arrived == s.sy.arrived
    requires y'.popped == s.sy.popped && y'.tickets == s.sy.tickets
    requires y'.monitor == s.sy.monitor && y'.signaler == s.sy.signaler && y'.upped == s.sy.upped
    requires y'.passed == s.sy.passed && y'.returned == s.sy.returned
    requires SameForOthers(s.sy, y', s.th.cur, None) && (forall l: nat :: l in s.sy.holder ==> l in y'.holder)
    requires forall w: nat :: WaitSem(w) in y'.semas <==> WaitSem(w) in s.sy.semas
    requires forall w: nat :: WaitSem(w) in y'.semas ==> y'.semas[WaitSem(w)] == s.sy.semas[WaitSem(w)]
    requires Staged(if Relevant(p) then p else User, s.th.cur, y')
    requires TicketOf(p).Some? ==> Relevant(p) && TicketOf(p) == TicketOf(Role(s.pc, s.th.cur))
    ensures Conds(s.pc[s.th.cur := p], y')
  {
    LedgerSame(s.sy, y'.semas);
    RoleKeeps(s.pc, s.pc[s.th.cur := p], s.th.cur, if Relevant(p) then p else User, s.sy, y', None);
  }

  // ---------- Locks ----------

  lemma StoreConds(s: State, l: nat, via: Caller)
    requires Conds(s.pc, s.sy) && Locks(s.pc, s.sy) && s.th.cur in s.pc && s.pc[s.th.cur] == SetHolder(l, via)
    ensures Conds(StoreHolder(s, l, via).pc, StoreHolder(s, l, via).sy)
  {
    var t, y, s' := s.th.cur, s.sy, StoreHolder(s, l, via);
    StageOf(s.pc, y, t);
    assert Role(s.pc, t) == s.pc[t] && Window(Role(s.pc, t), l);
    assert Inside(s.pc, y, t, l) && y.owner[l] == Some(t);
    forall u: Tid | u != t ensures y.holder[l] != Some(u) {
      if y.holder[l] == Some(u) { assert Inside(s.pc, y, u, l); }
    }
    RoleKeeps(s.pc, s'.pc, t, User, y, s'.sy, if via.CondWait? then Some(via.ticket) else None);
  }

  lemma ClearConds(s: State, l: nat, via: Caller)
    requires Conds(s.pc, s.sy) && s.th.cur in s.pc && l in s.sy.holder && s.sy.holder[l] == Some(s.th.cur)
    requires via.CondWait? ==> via.cond in s.sy.monitor && l == s.sy.monitor[via.cond]
    requires s.pc[s.th.cur] == if via.CondWait? then WaitRel(via.ticket, via.cond) else User
    ensures Conds(ClearHolder(s, l, via).pc, ClearHolder(s, l, via).sy)
  {
    StageOf(s.pc, s.sy, s.th.cur);
    ClearFrame(s.sy, s.th.cur, l);
    OtherConds(s, RelUp(l, via), s.sy.(holder := s.sy.holder[l := None]));
  }

  lemma ClearFrame(y: Sync, t: Tid, l: nat)
    requires l in y.holder && y.holder[l] == Some(t)
    ensures SameForOthers(y, y.(holder := y.holder[l := None]), t, None)
  {}

  lemma ReleaseConds(s: State, l: nat, via: Caller)
    requires Conds(s.pc, s.sy) && Locks(s.pc, s.sy) && s.th.cur in s.pc
    requires s.pc[s.th.cur] == RelUp(l, via) && LockSem(l) in s.sy.semas
    ensures Conds(ReleaseUp(s, l, via).pc, ReleaseUp(s, l, via).sy)
  {
    var y' := ReleaseUp(s, l, via).sy;
    ReleaseFrame(s, l, via);
    if via.CondWait? { ReleasedNotHolding(s, l, via); }
    OtherConds(s, if via.CondWait? then WaitDown(via.ticket, via.cond) else User, y');
  }

  lemma ReleaseFrame(s: State, l: nat, via: Caller)
    requires LockSem(l) in s.sy.semas
    ensures var y, y' := s.sy, ReleaseUp(s, l, via).sy;
            && y'.conds == y.conds && y'.arrived == y.arrived && y'.popped == y.popped && y'.tickets == y.tickets
            && y'.monitor == y.monitor && y'.signaler == y.signaler && y'.upped == y.upped && y'.holder == y.holder
            && y'.passed == y.passed && y'.returned == y.returned
            && SameForOthers(y, y', s.th.cur, None)
  {}

  // Between lock_release() and sema_down() the waiter does not hold the lock.
  lemma ReleasedNotHolding(s: State, l: nat, via: Caller)
    requires Conds(s.pc, s.sy) && Locks(s.pc, s.sy) && s.th.cur in s.pc
    requires s.pc[s.th.cur] == RelUp(l, via) && via.CondWait?
    ensures Staged(WaitDown(via.ticket, via.cond), s.th.cur, s.sy)
    ensures TicketOf(Role(s.pc, s.th.cur)) == Some(via.ticket)
  {
    var t := s.th.cur;
    StageOf(s.pc, s.sy, t);
    assert Role(s.pc, t) == s.pc[t];
    assert Window(Role(s.pc, t), l) && s.sy.holder[l] != Some(t);
  }

  // ---------- Condition variables ----------

  lemma FifoEnqueue(y: Sync, c: nat)
    requires Fifo(y.conds, y.arrived, y.popped, y.tickets) && c in y.conds && c in y.arrived && c in y.popped
    ensures Fifo(y.conds[c := y.conds[c] + [y.tickets]], y.arrived[c := y.arrived[c] + [y.tickets]], y.popped,
                 y.tickets + 1)
  {
    AppendNoDup(y.arrived[c], y.tickets);
    assert y.arrived[c] + [y.tickets] == y.popped[c] + (y.conds[c] + [y.tickets]);
  }

  lemma EnqueueConds(s: State, c: nat)
    requires Conds(s.pc, s.sy) && s.th.cur in s.pc && s.pc[s.th.cur] == User && Holds(s.sy, s.th.cur, c)
    ensures Conds(CondEnqueue(s, c).pc, CondEnqueue(s, c).sy)
  {
    EnqueueData(s, c);
    EnqueueRoles(s, c);
  }

  lemma EnqueueData(s: State, c: nat)
    requires CondData(s.pc, s.sy) && s.th.cur in s.pc && s.pc[s.th.cur] == User && Holds(s.sy, s.th.cur, c)
    ensures CondData(CondEnqueue(s, c).pc, CondEnqueue(s, c).sy)
  {
    var y := s.sy;
    FifoEnqueue(y, c);
    forall v: nat | v in y.upped ensures v < y.tickets { assert v in y.arrived[y.signaler[v].1]; }
    LedgerNew(y);
    RoleSet(s.pc, s.th.cur, WaitRel(y.tickets, c));
    SignalsStep(s.pc, CondEnqueue(s, c).pc, s.th.cur, WaitRel(y.tickets, c), y);
  }

  lemma EnqueueRoles(s: State, c: nat)
    requires Conds(s.pc, s.sy) && s.th.cur in s.pc && s.pc[s.th.cur] == User && Holds(s.sy, s.th.cur, c)
    ensures Stages(CondEnqueue(s, c).pc, CondEnqueue(s, c).sy) && OwnTickets(CondEnqueue(s, c).pc)
  {
    var t, y, s' := s.th.cur, s.sy, CondEnqueue(s, c);
    var p := WaitRel(y.tickets, c);
    RoleSet(s.pc, t, p);
    OthersStaged(s.pc, y, s'.sy, t, None);
    StagesStep(s.pc, s'.pc, t, p, y, s'.sy);
    forall u: Tid ensures TicketOf(Role(s.pc, u)) != Some(y.tickets) { TicketsBelow(s.pc, y, u); }
    OwnTicketsStep(s.pc, s'.pc, t, p);
  }

  lemma TicketsBelow(pc: map<Tid, Pc>, y: Sync, u: Tid)
    requires Stages(pc, y) && Ledger(y.semas, y.tickets, y.upped, y.passed)
    ensures TicketOf(Role(pc, u)).Some? ==> TicketOf(Role(pc, u)).value < y.tickets
  {
    var p := Role(pc, u);
    StageOf(pc, y, u);
    match p
    case WaitRel(_, _) => case RelUp(_, _) => case WaitDown(_, _) => case Downing(_, _) =>
    case Reacq(_, _) => case SetHolder(_, _) => case SigUp(_, _, _) => case Bcast(_) => case _ =>
  }

  lemma FifoPop(y: Sync, c: nat)
    requires Fifo(y.conds, y.arrived, y.popped, y.tickets) && c in y.conds
    requires c in y.arrived && c in y.popped && y.conds[c] != []
    ensures var w := y.conds[c][0];
            && Fifo(y.conds[c := y.conds[c][1..]], y.arrived, y.popped[c := y.popped[c] + [w]], y.tickets)
            && w in y.arrived[c] && w !in y.popped[c]
  {
    var w := y.conds[c][0];
    var n := |y.popped[c]|;
    assert y.arrived[c][n] == w;
    forall i | 0 <= i < n ensures y.popped[c][i] != w { assert y.arrived[c][i] == y.popped[c][i]; }
    assert y.arrived[c] == (y.popped[c] + [w]) + y.conds[c][1..];
  }

  lemma PopConds(s: State, c: nat, all: bool)
    requires Conds(s.pc, s.sy) && s.th.cur in s.pc && Holds(s.sy, s.th.cur, c)
    requires s.pc[s.th.cur] == User || s.pc[s.th.cur] == Bcast(c)
    ensures Conds(CondPop(s, c, all).pc, CondPop(s, c, all).sy)
  {
    if s.sy.conds[c] == [] { OtherConds(s, User, s.sy); } else { PopOneConds(s, c, all); }
  }

  lemma PopOneConds(s: State, c: nat, all: bool)
    requires Conds(s.pc, s.sy) && s.th.cur in s.pc && Holds(s.sy, s.th.cur, c) && s.sy.conds[c] != []
    requires s.pc[s.th.cur] == User || s.pc[s.th.cur] == Bcast(c)
    ensures Conds(CondPop(s, c, all).pc, CondPop(s, c, all).sy)
  {
    PopRoles(s, c, all);
    PopData(s, c, all);
  }

  lemma PopData(s: State, c: nat, all: bool)
    requires CondData(s.pc, s.sy) && s.th.cur in s.pc && Holds(s.sy, s.th.cur, c) && s.sy.conds[c] != []
    requires s.pc[s.th.cur] == User || s.pc[s.th.cur] == Bcast(c)
    ensures CondData(CondPop(s, c, all).pc, CondPop(s, c, all).sy)
  {
    PopDataAt(s.pc, CondPop(s, c, all).pc, s.th.cur, s.sy, CondPop(s, c, all).sy, c, s.sy.conds[c][0], all);
  }

  lemma PopDataAt(pc: map<Tid, Pc>, pc': map<Tid, Pc>, t: Tid, y: Sync, y': Sync, c: nat, w: nat, all: bool)
    requires CondData(pc, y) && RoleStep(pc, pc', t, SigUp(w, c, all)) && !Role(pc, t).SigUp?
    requires c in y.conds && y.conds[c] != [] && w == y.conds[c][0] && c in y.popped
    requires y'.semas == y.semas && y'.tickets == y.tickets && y'.upped == y.upped && y'.passed == y.passed
    requires y'.monitor == y.monitor && y'.holder == y.holder && y'.arrived == y.arrived
    requires y'.conds == y.conds[c := y.conds[c][1..]] && y'.popped == y.popped[c := y.popped[c] + [w]]
    requires y'.signaler == y.signaler[w := (t, c)]
    ensures CondData(pc', y')
  {
    FifoPop(y, c);
    NotYetSignaled(pc, y, c, w);
    SignalsPop(pc, pc', t, c, w, all, y);
  }

  lemma PopRoles(s: State, c: nat, all: bool)
    requires Conds(s.pc, s.sy) && s.th.cur in s.pc && Holds(s.sy, s.th.cur, c) && s.sy.conds[c] != []
    ensures Stages(CondPop(s, c, all).pc, CondPop(s, c, all).sy) && OwnTickets(CondPop(s, c, all).pc)
  {
    PopRolesAt(s, CondPop(s, c, all).sy, c, all);
  }

  lemma PopRolesAt(s: State, y': Sync, c: nat, all: bool)
    requires CondRoles(s.pc, s.sy) && Fifo(s.sy.conds, s.sy.arrived, s.sy.popped, s.sy.tickets)
    requires s.th.cur in s.pc && Holds(s.sy, s.th.cur, c) && s.sy.conds[c] != []
    requires y'.tickets == s.sy.tickets && y'.passed == s.sy.passed && y'.returned == s.sy.returned
    requires y'.monitor == s.sy.monitor && y'.holder == s.sy.holder && y'.arrived == s.sy.arrived
    requires y'.conds.Keys == s.sy.conds.Keys && y'.popped.Keys == s.sy.popped.Keys
    ensures CondRoles(s.pc[s.th.cur := SigUp(s.sy.conds[c][0], c, all)], y')
  {
    FifoPop(s.sy, c);
    SignalingRoles(s, y', SigUp(s.sy.conds[c][0], c, all));
  }

  lemma NotYetSignaled(pc: map<Tid, Pc>, y: Sync, c: nat, w: nat)
    requires CondsKnown(y) && Fifo(y.conds, y.arrived, y.popped, y.tickets)
    requires Signals(pc, y.popped, y.signaler, y.upped)
    requires c in y.arrived && c in y.popped && w in y.arrived[c] && w !in y.popped[c]
    ensures w !in y.signaler
  {
    forall v: nat | v in y.signaler ensures y.signaler[v].1 in y.arrived && v in y.arrived[y.signaler[v].1] {
      var c' := y.signaler[v].1;
      assert y.arrived[c'] == y.popped[c'] + y.conds[c'];
    }
  }

  // Signaling changes nobody's stage.
  lemma SignalingRoles(s: State, y': Sync, p: Pc)
    requires Stages(s.pc, s.sy) && OwnTickets(s.pc) && s.th.cur in s.pc
    requires y'.tickets == s.sy.tickets && y'.passed == s.sy.passed && y'.returned == s.sy.returned
    requires y'.monitor == s.sy.monitor && y'.holder == s.sy.holder && y'.arrived == s.sy.arrived
    requires y'.conds.Keys == s.sy.conds.Keys && y'.popped.Keys == s.sy.popped.Keys
    requires Staged(p, s.th.cur, s.sy) && (p == User || p.SigUp? || p.Bcast?)
    ensures Stages(s.pc[s.th.cur := p], y') && OwnTickets(s.pc[s.th.cur := p])
  {
    RolesMove(s.pc, s.pc[s.th.cur := p], s.th.cur, p, s.sy, y');
  }

  // The roles' side of a step that hands out no ticket and lets no one pass.
  lemma RolesMove(pc: map<Tid, Pc>, pc': map<Tid, Pc>, t: Tid, p: Pc, y: Sync, y': Sync)
    requires Stages(pc, y) && OwnTickets(pc) && RoleStep(pc, pc', t, p)
    requires SameForOthers(y, y', t, None) && Staged(p, t, y') && TicketOf(p) == None
    requires forall w: nat :: w in y'.returned ==> w in y'.passed
    ensures Stages(pc', y') && OwnTickets(pc')
  {
    OthersStaged(pc, y, y', t, None);
    StagesStep(pc, pc', t, p, y, y');
    OwnTicketsStep(pc, pc', t, p);
  }

  lemma SignalsPop(pc: map<Tid, Pc>, pc': map<Tid, Pc>, t: Tid, c: nat, w: nat, all: bool, y: Sync)
    requires Signals(pc, y.popped, y.signaler, y.upped) && RoleStep(pc, pc', t, SigUp(w, c, all)) && !Role(pc, t).SigUp?
    requires c in y.popped && w !in y.signaler
    ensures Signals(pc', y.popped[c := y.popped[c] + [w]], y.signaler[w := (t, c)], y.upped)
  {
    forall u: Tid, v: nat ensures AboutToUp(pc', u, v) == (AboutToUp(pc, u, v) || (u == t && v == w)) {}
  }

  lemma SignalUpConds(s: State, w: nat, c: nat, all: bool)
    requires Conds(s.pc, s.sy) && s.th.cur in s.pc && s.pc[s.th.cur] == SigUp(w, c, all) && WaitSem(w) in s.sy.semas
    ensures Conds(SignalUp(s, w, c, all).pc, SignalUp(s, w, c, all).sy)
  {
    SignalUpData(s, w, c, all);
    SignalUpRoles(s, w, c, all);
  }

  lemma SignalUpData(s: State, w: nat, c: nat, all: bool)
    requires CondData(s.pc, s.sy) && s.th.cur in s.pc && s.pc[s.th.cur] == SigUp(w, c, all) && WaitSem(w) in s.sy.semas
    ensures CondData(SignalUp(s, w, c, all).pc, SignalUp(s, w, c, all).sy)
  {
    var t := s.th.cur;
    assert Role(s.pc, t) == s.pc[t] && AboutToUp(s.pc, t, w);
    var p, y' := if all then Bcast(c) else User, SignalUp(s, w, c, all).sy;
    SignalUpFrame(s, w, c, all);
    RoleSet(s.pc, t, p);
    SignalUpDataAt(s.pc, s.pc[t := p], t, s.sy, y', w, p);
  }

  lemma SignalUpFrame(s: State, w: nat, c: nat, all: bool)
    requires WaitSem(w) in s.sy.semas
    ensures var y, s' := s.sy, SignalUp(s, w, c, all);
            && s'.pc == s.pc[s.th.cur := if all then Bcast(c) else User]
            && s'.sy.semas == Give(y, WaitSem(w)).semas && s'.sy.tickets == y.tickets
            && s'.sy.upped == y.upped + {w} && s'.sy.passed == y.passed
            && s'.sy.monitor == y.monitor && s'.sy.holder == y.holder && s'.sy.arrived == y.arrived
            && s'.sy.conds == y.conds && s'.sy.popped == y.popped && s'.sy.signaler == y.signaler
  {}

  lemma SignalUpDataAt(pc: map<Tid, Pc>, pc': map<Tid, Pc>, t: Tid, y: Sync, y': Sync, w: nat, p: Pc)
    requires CondData(pc, y) && RoleStep(pc, pc', t, p) && !p.SigUp? && AboutToUp(pc, t, w) && WaitSem(w) in y.semas
    requires y'.semas == Give(y, WaitSem(w)).semas && y'.tickets == y.tickets
    requires y'.upped == y.upped + {w} && y'.passed == y.passed
    requires y'.monitor == y.monitor && y'.holder == y.holder && y'.arrived == y.arrived
    requires y'.conds == y.conds && y'.popped == y.popped && y'.signaler == y.signaler
    ensures CondData(pc', y')
  {
    LedgerGive(y, w);
    SignalsUp(pc, pc', t, w, p, y);
  }

  lemma SignalUpRoles(s: State, w: nat, c: nat, all: bool)
    requires CondRoles(s.pc, s.sy) && s.th.cur in s.pc && s.pc[s.th.cur] == SigUp(w, c, all) && WaitSem(w) in s.sy.semas
    ensures CondRoles(SignalUp(s, w, c, all).pc, SignalUp(s, w, c, all).sy)
  {
    StageOf(s.pc, s.sy, s.th.cur);
    SignalingRoles(s, SignalUp(s, w, c, all).sy, if all then Bcast(c) else User);
  }

  lemma SignalsUp(pc: map<Tid, Pc>, pc': map<Tid, Pc>, t: Tid, w: nat, p: Pc, y: Sync)
    requires Signals(pc, y.popped, y.signaler, y.upped) && RoleStep(pc, pc', t, p) && !p.SigUp? && AboutToUp(pc, t, w)
    ensures Signals(pc', y.popped, y.signaler, y.upped + {w})
  {
    forall u: Tid, v: nat ensures AboutToUp(pc', u, v) == (AboutToUp(pc, u, v) && u != t) {}
  }

  lemma CondMade(pc: map<Tid, Pc>, y: Sync, t: Tid, c: nat, l: nat)
    requires Conds(pc, y) && c !in y.conds && c !in y.monitor && l in y.holder && Role(pc, t) == User
    ensures Conds(pc, CondInit(y, c, l))
  {
    CondMadeData(pc, y, c, l);
    RolesMove(pc, pc, t, User, y, CondInit(y, c, l));
  }

  lemma CondMadeData(pc: map<Tid, Pc>, y: Sync, c: nat, l: nat)
    requires CondData(pc, y) && c !in y.conds && c !in y.monitor && l in y.holder
    ensures CondData(pc, CondInit(y, c, l))
  {
    FifoMade(y, c);
  }

  lemma FifoMade(y: Sync, c: nat)
    requires CondsKnown(y) && Fifo(y.conds, y.arrived, y.popped, y.tickets) && c !in y.conds
    ensures Fifo(y.conds[c := []], y.arrived[c := []], y.popped[c := []], y.tickets)
  {}

  // ---------- Every step ----------

  lemma AdvanceConds(s: State)
    requires ChildWaits(s) && Locks(s.pc, s.sy) && Conds(s.pc, s.sy) && CanAdvance(s)
    ensures Conds(AdvanceStep(s).pc, AdvanceStep(s).sy)
  {
    var y, t := s.sy, s.th.cur;
    StageOf(s.pc, y, t);
    match s.pc[t]
    case IdleLoop =>
    case Creating(c) => IdleRoles(s.pc, s.pc[c := User][t := User], y);
    case Sleeping => IdleRoles(s.pc, s.pc[t := User], y);
    case Downing(m, via) => RetryConds(s, m, via);
    case SetHolder(l, via) => StoreConds(s, l, via);
    case RelUp(l, via) => ReleaseConds(s, l, via);
    case WaitRel(w, c) => ClearConds(s, y.monitor[c], CondWait(w, c));
    case WaitDown(w, c) => DownConds(s, WaitSem(w), CondWait(w, c));
    case Reacq(w, c) => DownConds(s, LockSem(y.monitor[c]), CondWait(w, c));
    case SigUp(w, c, all) => SignalUpConds(s, w, c, all);
    case Bcast(c) => PopConds(s, c, true);
  }

  lemma IdleRoles(pc: map<Tid, Pc>, pc': map<Tid, Pc>, y: Sync)
    requires Conds(pc, y) && forall t: Tid :: Role(pc', t) == Role(pc, t)
    ensures Conds(pc', y)
  {
    forall t: Tid, w: nat ensures AboutToUp(pc', t, w) == AboutToUp(pc, t, w) {}
  }

  lemma RetryConds(s: State, m: SemId, via: Caller)
    requires Conds(s.pc, s.sy) && s.th.cur in s.pc && s.pc[s.th.cur] == Downing(m, via) && m in s.sy.semas
    ensures Conds(Down(s, m, via).pc, Down(s, m, via).sy)
  {
    StageOf(s.pc, s.sy, s.th.cur);
    DownConds(s, m, via);
  }

  lemma StepConds(s: State, a: Action)
    requires ChildWaits(s) && Locks(s.pc, s.sy) && Conds(s.pc, s.sy) && Enabled(s, a)
    ensures Conds(Step(s, a).pc, Step(s, a).sy)
  {
    match a
    case Advance => AdvanceConds(s);
    case CallDown(_) => LockConds(s, a);
    case CallTryDown(_) => LockConds(s, a);
    case CallAcquire(_) => LockConds(s, a);
    case CallTryAcquire(_) => LockConds(s, a);
    case CallRelease(_) => LockConds(s, a);
    case CallWait(c) => EnqueueConds(s, c);
    case CallSignal(c) => PopConds(s, c, false);
    case CallCondInit(c, l) => CondMade(s.pc, s.sy, s.th.cur, c, l);
    case CallBroadcast(c) => if s.sy.conds[c] != [] { OtherConds(s, Bcast(c), s.sy); }
    case _ => QuietConds(s, a);
  }

  // Calls on semaphores and locks.
  lemma LockConds(s: State, a: Action)
    requires Locks(s.pc, s.sy) && Conds(s.pc, s.sy) && Enabled(s, a)
    requires a.CallDown? || a.CallTryDown? || a.CallAcquire? || a.CallTryAcquire? || a.CallRelease?
    ensures Conds(Step(s, a).pc, Step(s, a).sy)
  {
    match a
    case CallDown(m) => DownConds(s, Plain(m), Direct);
    case CallTryDown(m) => DownConds(s, Plain(m), Direct);
    case CallAcquire(l) => DownConds(s, LockSem(l), Direct);
    case CallTryAcquire(l) => DownConds(s, LockSem(l), Direct);
    case CallRelease(l) => ClearConds(s, l, Direct);
  }

  // Steps that no condition variable notices.
  lemma QuietConds(s: State, a: Action)
    requires Conds(s.pc, s.sy) && Enabled(s, a)
    requires a.Timer? || a.IrqUp? || a.IrqTry? || a.CallYield? || a.CallExit? || a.CallCreate? || a.CallSleep?
             || a.CallSemaInit? || a.CallLockInit? || a.CallUp?
    ensures Conds(Step(s, a).pc, Step(s, a).sy)
  {
    match a
    case IrqUp(m) => UpConds(s, m);
    case CallUp(m) => UpConds(s, m);
    case IrqTry(m) => SemasConds(s.pc, s.sy, IrqTryDown(s, m).sy);
    case CallCreate(c) => IdleRoles(s.pc, s.pc[c := Newborn(s.th.cur)][s.th.cur := Creating(c)], s.sy);
    case CallSleep(n) => IdleRoles(s.pc, s.pc[s.th.cur := Sleeping], s.sy);
    case CallLockInit(l) => LockMadeConds(s, l);
    case CallSemaInit(m, v) => SemasConds(s.pc, s.sy, s.sy.(semas := s.sy.semas[Plain(m) := Sema(v, [], v, 0, 0)]));
    case _ =>
  }

  lemma UpConds(s: State, m: nat)
    requires Conds(s.pc, s.sy) && Plain(m) in s.sy.semas
    ensures Conds(Up(s, Plain(m)).pc, Up(s, Plain(m)).sy)
  {
    SemasConds(s.pc, s.sy, Give(s.sy, Plain(m)));
  }

  lemma LockMadeConds(s: State, l: nat)
    requires Conds(s.pc, s.sy) && s.th.cur in s.pc && s.pc[s.th.cur] == User
    requires LockSem(l) !in s.sy.semas && l !in s.sy.holder
    ensures Conds(s.pc, LockInit(s.sy, l))
  {
    OtherConds(s, User, LockInit(s.sy, l));
    assert s.pc[s.th.cur := User] == s.pc;
  }

  lemma SemasConds(pc: map<Tid, Pc>, y: Sync, y': Sync)
    requires Conds(pc, y) && y' == y.(semas := y'.semas)
    requires forall w: nat :: WaitSem(w) in y'.semas <==> WaitSem(w) in y.semas
    requires forall w: nat :: WaitSem(w) in y'.semas ==> y'.semas[WaitSem(w)] == y.semas[WaitSem(w)]
    ensures Conds(pc, y')
  {
    LedgerSame(y, y'.semas);
    forall t: Tid ensures Staged(Role(pc, t), t, y') { StageOf(pc, y, t); }
  }

  // ---------- Over every run ----------

  lemma {:induction false} CondsAlways(run: seq<State>, i: nat)
    requires IsRun(run) && i < |run|
    ensures Conds(run[i].pc, run[i].sy)
  {
    if i == 0 {
      InitConds(run[0]);
    } else {
      CondsAlways(run, i - 1);
      assert ChildWaits(run[i - 1]) by { PlacesAlways(run, i - 1); PlacesChild(run[i - 1]); }
      LocksAlways(run, i - 1);
      assert StepAt(run, i);
      NextConds(run[i - 1], run[i]);
    }
  }

  lemma InitConds(s: State)
    requires Init(s)
    ensures Conds(s.pc, s.sy)
  {}

  lemma NextConds(s: State, s': State)
    requires ChildWaits(s) && Locks(s.pc, s.sy) && Conds(s.pc, s.sy) && Next(s, s')
    ensures Conds(s'.pc, s'.sy)
  {
    var a :| Enabled(s, a) && s' == Step(s, a);
    StepConds(s, a);
  }

  /** Waiters are signaled in order of arrival, each at most once: at any moment
      of any run, those signaled so far followed by those still queued are the
      arrivals, and no ticket occurs in two condition variables. */
  lemma SignalsInArrivalOrder(run: seq<State>, i: nat, c: nat, w: nat)
    requires IsRun(run) && i < |run| && c in run[i].sy.conds
    ensures var y := run[i].sy;
            && c in y.arrived && c in y.popped
            && y.arrived[c] == y.popped[c] + y.conds[c]
            && multiset(y.arrived[c])[w] <= 1
            && (forall c': nat :: c' in y.popped && w in y.arrived[c] && w in y.popped[c'] ==> c' == c)
  {
    CondsAlways(run, i);
    NoDupCount(run[i].sy.arrived[c], w);
    forall c': nat | c' in run[i].sy.popped && w in run[i].sy.popped[c'] ensures w in run[i].sy.arrived[c'] {}
  }

  /** Every cond_wait() that returned was popped by exactly one cond_signal(),
      from the one condition variable that it waited on, and that signal's
      sema_up() was done. */
  lemma ReturnsMatchSignals(run: seq<State>, i: nat, w: nat)
    requires IsRun(run) && i < |run| && w in run[i].sy.returned
    ensures var y := run[i].sy;
            && w in y.upped && w in y.signaler
            && var c := y.signaler[w].1;
               && c in y.arrived && w in y.arrived[c]
               && c in y.popped && multiset(y.popped[c])[w] == 1
               && (forall c': nat :: c' in y.arrived && w in y.arrived[c'] ==> c' == c)
               && (forall c': nat :: c' in y.popped && w in y.popped[c'] ==> c' == c)
  {
    CondsAlways(run, i);
    var y := run[i].sy;
    assert WaitSem(w) in y.semas && Entry(y.semas[WaitSem(w)], w, y.upped, y.passed);
    var c := y.signaler[w].1;
    assert w in y.popped[c] && w in y.arrived[c];
    PrefixNoDup(y.popped[c], y.conds[c]);
    NoDupCount(y.popped[c], w);
    forall c': nat | c' in y.popped && w in y.popped[c'] ensures c' == c {
      assert w in y.arrived[c'];
    }
  }

  lemma PrefixNoDup(p: seq<nat>, q: seq<nat>)
    requires NoDup(p + q)
    ensures NoDup(p)
  {
    forall i, j | 0 <= i < j < |p| ensures p[i] != p[j] {
      assert (p + q)[i] == p[i] && (p + q)[j] == p[j];
    }
  }

  /** A signal is never lost, wherever the waiter is between its lock_release()
      and its sema_down(): once the signal's sema_up() is done and the waiter has
      not passed, its semaphore is up and it is not blocked on it. */
  lemma SignalNeverLost(run: seq<State>, i: nat, t: Tid, w: nat)
    requires IsRun(run) && i < |run|
    requires TicketOf(Role(run[i].pc, t)) == Some(w) && w in run[i].sy.upped && w !in run[i].sy.passed
    ensures var s := run[i];
            WaitSem(w) in s.sy.semas && s.sy.semas[WaitSem(w)].value == 1
            && BlockedOn(s.th.status, s.pc, t) != Some(WaitSem(w))
  {
    CondsAlways(run, i);
    var s, m := run[i], WaitSem(w);
    TicketsBelow(s.pc, s.sy, t);
    var x := s.sy.semas[m];
    assert Entry(x, w, s.sy.upped, s.sy.passed);
    if BlockedOn(s.th.status, s.pc, t) == Some(m) {
      assert Queued(s, t, m) by { PlacesAlways(run, i); QueuedWhenBlocked(s, t, m); }
      assert x.value <= |Woken(s.th.status, s.pc, m)| by {
        NoLossAlways(run, i);
        assert Covered(x, m, s.th.status, s.pc);
      }
      OnlyOneRetries(s, t, w);
    }
  }

  ghost predicate Queued(s: State, t: Tid, m: SemId) {
    m in s.sy.semas && t in s.sy.semas[m].waiters
  }

  lemma QueuedWhenBlocked(s: State, t: Tid, m: SemId)
    requires Places(s) && BlockedOn(s.th.status, s.pc, t) == Some(m)
    ensures Queued(s, t, m)
  {
    assert QueueExact(s.sy.semas[m].waiters, m, s.th.status, s.pc);
  }

  // Only the waiter itself can be inside sema_down() of its semaphore.
  lemma OnlyOneRetries(s: State, t: Tid, w: nat)
    requires Conds(s.pc, s.sy) && TicketOf(Role(s.pc, t)) == Some(w)
    requires BlockedOn(s.th.status, s.pc, t) == Some(WaitSem(w))
    ensures Woken(s.th.status, s.pc, WaitSem(w)) == {}
  {
    forall u | u in s.pc ensures Retries(s.th.status, s.pc, u) != Some(WaitSem(w)) {
      StageOf(s.pc, s.sy, u);
      assert s.pc[u].Downing? && s.pc[u].sem == WaitSem(w) ==> TicketOf(Role(s.pc, u)) == Some(w);
    }
  }

  // ---------- Which condition a waiter waits on ----------

  // A thread inside cond_wait() is among the arrivals of its condition, and so
  // is the one that a signaler is about to wake.
  ghost predicate AtHome(p: Pc, arrived: map<nat, seq<nat>>) {
    match p
    case WaitRel(w, c) => Among(arrived, w, c)
    case WaitDown(w, c) => Among(arrived, w, c)
    case Reacq(w, c) => Among(arrived, w, c)
    case RelUp(_, CondWait(w, c)) => Among(arrived, w, c)
    case SetHolder(_, CondWait(w, c)) => Among(arrived, w, c)
    case Downing(_, CondWait(w, c)) => Among(arrived, w, c)
    case SigUp(w, c, _) => Among(arrived, w, c)
    case _ => true
  }

  ghost predicate Among(arrived: map<nat, seq<nat>>, w: nat, c: nat) { c in arrived && w in arrived[c] }

  ghost predicate Home(pc: map<Tid, Pc>, arrived: map<nat, seq<nat>>) {
    forall t :: t in pc ==> AtHome(pc[t], arrived)
  }

  lemma HomeStep(pc: map<Tid, Pc>, t: Tid, p: Pc, arrived: map<nat, seq<nat>>, arrived': map<nat, seq<nat>>)
    requires Home(pc, arrived) && AtHome(p, arrived')
    requires forall w: nat, c: nat :: Among(arrived, w, c) ==> Among(arrived', w, c)
    ensures Home(pc[t := p], arrived')
  {}

  lemma DownParts(s: State, m: SemId, via: Caller)
    requires m in s.sy.semas
    ensures var s' := Down(s, m, via);
            && s'.pc == s.pc[s.th.cur := if s.sy.semas[m].value == 0 then Downing(m, via) else AfterDown(m, via)]
            && s'.sy.arrived == s.sy.arrived
  {
    if s.sy.semas[m].value > 0 { TakeFrame(s.sy, m, s.th.cur); }
  }

  lemma DownHome(s: State, m: SemId, via: Caller)
    requires Home(s.pc, s.sy.arrived) && m in s.sy.semas
    requires AtHome(Downing(m, via), s.sy.arrived) && (m.WaitSem? && via.CondWait? ==> via.ticket == m.ticket)
    ensures Home(Down(s, m, via).pc, Down(s, m, via).sy.arrived)
  {
    DownParts(s, m, via);
    var p := if s.sy.semas[m].value == 0 then Downing(m, via) else AfterDown(m, via);
    HomeStep(s.pc, s.th.cur, p, s.sy.arrived, s.sy.arrived);
  }

  lemma AdvanceHome(s: State)
    requires s.th.cur in s.pc && CanAdvance(s) && Home(s.pc, s.sy.arrived) && NewConds(s.sy)
    requires Staged(Role(s.pc, s.th.cur), s.th.cur, s.sy)
    ensures Home(AdvanceStep(s).pc, AdvanceStep(s).sy.arrived)
  {
    match s.pc[s.th.cur]
    case Downing(m, via) => DownHome(s, m, via);
    case WaitDown(w, c) => DownHome(s, WaitSem(w), CondWait(w, c));
    case Reacq(w, c) => DownHome(s, LockSem(s.sy.monitor[c]), CondWait(w, c));
    case _ => OtherHome(s);
  }

  lemma ReleaseHome(s: State, l: nat, via: Caller)
    requires Home(s.pc, s.sy.arrived) && LockSem(l) in s.sy.semas && AtHome(RelUp(l, via), s.sy.arrived)
    ensures Home(ReleaseUp(s, l, via).pc, ReleaseUp(s, l, via).sy.arrived)
  {
    var p := if via.CondWait? then WaitDown(via.ticket, via.cond) else User;
    assert ReleaseUp(s, l, via).pc == s.pc[s.th.cur := p];
    HomeStep(s.pc, s.th.cur, p, s.sy.arrived, s.sy.arrived);
  }

  lemma SignalHome(s: State, w: nat, c: nat, all: bool)
    requires Home(s.pc, s.sy.arrived) && WaitSem(w) in s.sy.semas
    ensures Home(SignalUp(s, w, c, all).pc, SignalUp(s, w, c, all).sy.arrived)
  {
    var p := if all then Bcast(c) else User;
    assert SignalUp(s, w, c, all).pc == s.pc[s.th.cur := p];
    HomeStep(s.pc, s.th.cur, p, s.sy.arrived, s.sy.arrived);
  }

  lemma OtherHome(s: State)
    requires s.th.cur in s.pc && CanAdvance(s) && Home(s.pc, s.sy.arrived) && NewConds(s.sy)
    requires var p := s.pc[s.th.cur]; !p.Downing? && !p.WaitDown? && !p.Reacq?
    ensures Home(AdvanceStep(s).pc, AdvanceStep(s).sy.arrived)
  {
    var t, arrived := s.th.cur, s.sy.arrived;
    match s.pc[t]
    case RelUp(l, via) => ReleaseHome(s, l, via);
    case SigUp(w, c, all) => SignalHome(s, w, c, all);
    case WaitRel(w, c) => HomeStep(s.pc, t, RelUp(s.sy.monitor[c], CondWait(w, c)), arrived, arrived);
    case Bcast(c) => PopHome(s, c, true);
    case _ =>
  }

  // A condition variable that is being made has no arrivals yet, and those that
  // are queued have arrived.
  ghost predicate NewConds(y: Sync) {
    && (forall c: nat :: c in y.arrived ==> c in y.conds)
    && (forall c: nat :: c in y.conds && y.conds[c] != [] ==> Among(y.arrived, y.conds[c][0], c))
  }

  lemma CondsNew(y: Sync)
    requires CondsKnown(y) && Fifo(y.conds, y.arrived, y.popped, y.tickets)
    ensures NewConds(y)
  {
    forall c: nat | c in y.conds && y.conds[c] != [] ensures Among(y.arrived, y.conds[c][0], c) {
      assert y.arrived[c][|y.popped[c]|] == y.conds[c][0];
    }
  }

  lemma WaitHome(s: State, c: nat)
    requires Home(s.pc, s.sy.arrived) && c in s.sy.conds && c in s.sy.arrived
    ensures Home(CondEnqueue(s, c).pc, CondEnqueue(s, c).sy.arrived)
  {
    var arrived, w := s.sy.arrived, s.sy.tickets;
    var arrived' := arrived[c := arrived[c] + [w]];
    assert arrived'[c][|arrived[c]|] == w;
    HomeStep(s.pc, s.th.cur, WaitRel(w, c), arrived, arrived');
  }

  lemma CallHome(s: State, a: Action)
    requires Enabled(s, a) && a != Advance && NewConds(s.sy) && Home(s.pc, s.sy.arrived)
    ensures Home(Step(s, a).pc, Step(s, a).sy.arrived)
  {
    match a
    case CallDown(m) => DownHome(s, Plain(m), Direct);
    case CallAcquire(l) => DownHome(s, LockSem(l), Direct);
    case CallTryDown(m) => DownHome(s, Plain(m), Direct);
    case CallTryAcquire(l) => DownHome(s, LockSem(l), Direct);
    case CallWait(c) => WaitHome(s, c);
    case CallSignal(c) => PopHome(s, c, false);
    case CallCreate(t) => CreateHome(s, t);
    case CallCondInit(c, l) => InitHome(s, c, l);
    case _ =>
  }

  lemma InitHome(s: State, c: nat, l: nat)
    requires Home(s.pc, s.sy.arrived) && c !in s.sy.arrived
    ensures Home(s.pc, CondInit(s.sy, c, l).arrived)
  {
    var arrived, arrived' := s.sy.arrived, s.sy.arrived[c := []];
    forall t | t in s.pc ensures AtHome(s.pc[t], arrived') {
      assert AtHome(s.pc[t], arrived);
    }
  }

  lemma PopHome(s: State, c: nat, all: bool)
    requires Home(s.pc, s.sy.arrived) && NewConds(s.sy) && c in s.sy.conds && c in s.sy.popped
    ensures Home(CondPop(s, c, all).pc, CondPop(s, c, all).sy.arrived)
  {
    var p := if s.sy.conds[c] == [] then User else SigUp(s.sy.conds[c][0], c, all);
    HomeStep(s.pc, s.th.cur, p, s.sy.arrived, s.sy.arrived);
  }

  lemma CreateHome(s: State, t: Tid)
    requires Home(s.pc, s.sy.arrived)
    ensures Home(s.pc[t := Newborn(s.th.cur)][s.th.cur := Creating(t)], s.sy.arrived)
  {
    HomeStep(s.pc, t, Newborn(s.th.cur), s.sy.arrived, s.sy.arrived);
    HomeStep(s.pc[t := Newborn(s.th.cur)], s.th.cur, Creating(t), s.sy.arrived, s.sy.arrived);
  }

  lemma {:induction false} HomeAlways(run: seq<State>, i: nat)
    requires IsRun(run) && i < |run|
    ensures Home(run[i].pc, run[i].sy.arrived)
  {
    if i > 0 {
      var s := run[i - 1];
      HomeAlways(run, i - 1);
      assert NewConds(s.sy) && Staged(Role(s.pc, s.th.cur), s.th.cur, s.sy) by {
        CondsAlways(run, i - 1);
        CondsNew(s.sy);
        StageOf(s.pc, s.sy, s.th.cur);
      }
      assert StepAt(run, i);
      var a :| Enabled(s, a) && run[i] == Step(s, a);
      if a == Advance { AdvanceHome(s); } else { CallHome(s, a); }
    }
  }

  /** cond_wait() returns holding the lock of the condition it waited on. */
  lemma ReturnsHoldingLock(run: seq<State>, i: nat, w: nat)
    requires IsRun(run) && 0 < i < |run| && w in run[i].sy.returned && w !in run[i - 1].sy.returned
    ensures exists c: nat :: Holds(run[i].sy, run[i].th.cur, c) && w in run[i].sy.arrived[c]
              && run[i].th.cur in run[i - 1].pc
              && run[i - 1].pc[run[i].th.cur] == SetHolder(run[i].sy.monitor[c], CondWait(w, c))
  {
    var s := run[i - 1];
    CondsAlways(run, i - 1);
    HomeAlways(run, i - 1);
    assert StepAt(run, i);
    var a :| Enabled(s, a) && run[i] == Step(s, a);
    ReturningStep(s, a, w);
    var t := s.th.cur;
    var c := s.pc[t].via.cond;
    StageOf(s.pc, s.sy, t);
    assert Role(s.pc, t) == s.pc[t];
    assert AtHome(s.pc[t], s.sy.arrived);
    assert Holds(run[i].sy, t, c);
  }

  // Only the last step of cond_wait()'s lock_acquire() makes it return.
  lemma ReturningStep(s: State, a: Action, w: nat)
    requires Enabled(s, a) && w in Step(s, a).sy.returned && w !in s.sy.returned
    ensures a == Advance && s.pc[s.th.cur].SetHolder? && s.pc[s.th.cur].via.CondWait? && s.pc[s.th.cur].via.ticket == w
    ensures Step(s, a) == StoreHolder(s, s.pc[s.th.cur].lock, s.pc[s.th.cur].via)
  {
    if a == Advance { if !s.pc[s.th.cur].SetHolder? { AdvanceReturned(s); } } else { CallReturned(s, a); }
  }

  lemma SemaReturned(y: Sync, m: SemId, t: Tid)
    requires m in y.semas
    ensures Join(y, m, t).returned == y.returned && Give(y, m).returned == y.returned
    ensures y.semas[m].value > 0 ==> Take(y, m, t).returned == y.returned
  {}

  lemma AdvanceReturned(s: State)
    requires s.th.cur in s.pc && CanAdvance(s) && !s.pc[s.th.cur].SetHolder?
    ensures AdvanceStep(s).sy.returned == s.sy.returned
  {
    match s.pc[s.th.cur]
    case Downing(m, via) => SemaReturned(s.sy, m, s.th.cur);
    case WaitDown(w, c) => SemaReturned(s.sy, WaitSem(w), s.th.cur);
    case Reacq(w, c) => SemaReturned(s.sy, LockSem(s.sy.monitor[c]), s.th.cur);
    case RelUp(l, via) => SemaReturned(s.sy.(owner := s.sy.owner[l := None]), LockSem(l), s.th.cur);
    case SigUp(w, c, all) => SemaReturned(s.sy.(upped := s.sy.upped + {w}), WaitSem(w), s.th.cur);
    case _ =>
  }

  lemma CallReturned(s: State, a: Action)
    requires Enabled(s, a) && a != Advance
    ensures Step(s, a).sy.returned == s.sy.returned
  {
    match a
    case IrqUp(m) => SemaReturned(s.sy, Plain(m), s.th.cur);
    case IrqTry(m) => SemaReturned(s.sy, Plain(m), s.th.cur);
    case CallDown(m) => SemaReturned(s.sy, Plain(m), s.th.cur);
    case CallTryDown(m) => SemaReturned(s.sy, Plain(m), s.th.cur);
    case CallUp(m) => SemaReturned(s.sy, Plain(m), s.th.cur);
    case CallAcquire(l) => SemaReturned(s.sy, LockSem(l), s.th.cur);
    case CallTryAcquire(l) => SemaReturned(s.sy, LockSem(l), s.th.cur);
    case _ =>
  }

  // Every thread that the scan of the sleep list unblocks is blocked.
  ghost predicate WakesBlocked(h: Threads)
    decreases |h.slept|
  {
    h.slept != [] && Get(h.wake, h.slept[0]) <= h.ticks ==>
      h.slept[0] in h.status && h.status[h.slept[0]] == Blocked && WakesBlocked(WakeFirst(h))
  }

  // What thread_unblock() asserts, wherever the action calls it.
  ghost predicate UnblocksBlocked(s: State, a: Action)
    requires Enabled(s, a)
  {
    match MoveOf(s, a)
    case DoUnblock(t) => t in s.th.status && s.th.status[t] == Blocked
    case DoTick => WakesBlocked(Clock(s.th))
    case _ => true
  }

  lemma {:induction false} SleepersBlocked(h: Threads)
    requires NoDup(h.slept) && forall t :: t in h.slept ==> t in h.status && h.status[t] == Blocked
    ensures WakesBlocked(h)
    decreases |h.slept|
  {
    if h.slept != [] && Get(h.wake, h.slept[0]) <= h.ticks {
      var h' := WakeFirst(h);
      PopNoDup(h.slept);
      forall t | t in h'.slept ensures t in h'.status && h'.status[t] == Blocked {
        assert t in h.slept;
      }
      SleepersBlocked(h');
    }
  }

  lemma WaiterBlocked(s: State, m: SemId)
    requires Places(s) && m in s.sy.semas && s.sy.semas[m].waiters != []
    ensures var t := s.sy.semas[m].waiters[0]; t in s.th.status && s.th.status[t] == Blocked
  {
    assert QueueExact(s.sy.semas[m].waiters, m, s.th.status, s.pc);
    assert s.sy.semas[m].waiters[0] in s.sy.semas[m].waiters;
  }

  lemma OnlyBlocked(s: State, a: Action)
    requires Places(s) && Enabled(s, a)
    ensures UnblocksBlocked(s, a)
  {
    forall m | m in s.sy.semas && s.sy.semas[m].waiters != []
      ensures var t := s.sy.semas[m].waiters[0]; t in s.th.status && s.th.status[t] == Blocked
    {
      WaiterBlocked(s, m);
    }
    SleepersBlocked(Clock(s.th));
  }

  /** No assertion inside a kernel call ever fails: in every reachable state the
      running thread is in its own code, or its kernel call can go on; and no
      action that can happen unblocks a thread that is not blocked. */
  lemma NoAssertionFails(run: seq<State>, i: nat)
    requires IsRun(run) && i < |run|
    ensures run[i].th.cur in run[i].pc
    ensures run[i].pc[run[i].th.cur] == User || CanAdvance(run[i])
    ensures forall a :: Enabled(run[i], a) ==> UnblocksBlocked(run[i], a)
  {
    var s := run[i];
    assert PlaceOk(s) by { PlacesAlways(run, i); CurrentPlace(s); }
    LocksAlways(run, i);
    CondsAlways(run, i);
    CallsGoOn(s);
    PlacesAlways(run, i);
    forall a | Enabled(s, a) ensures UnblocksBlocked(s, a) { OnlyBlocked(s, a); }
  }

  // What follows from the running thread's place alone.
  ghost predicate PlaceOk(s: State) {
    && s.th.cur in s.pc && !s.pc[s.th.cur].Newborn?
    && (s.pc[s.th.cur].Creating? ==> CanAdvance(s))
    && (s.pc[s.th.cur].Downing? ==> s.pc[s.th.cur].sem in s.sy.semas)
  }

  lemma CurrentPlace(s: State)
    requires Places(s)
    ensures PlaceOk(s)
  {
    if s.pc[s.th.cur].Creating? { assert s.pc[s.pc[s.th.cur].child] == Newborn(s.th.cur); }
  }

  lemma CallsGoOn(s: State)
    requires PlaceOk(s) && Locks(s.pc, s.sy) && Conds(s.pc, s.sy)
    ensures s.pc[s.th.cur] == User || CanAdvance(s)
  {
    StageOf(s.pc, s.sy, s.th.cur);
    match s.pc[s.th.cur]
    case Creating(_) =>
    case RelUp(_, _) => WindowKnown(s.pc, s.sy, s.th.cur);
    case SetHolder(_, _) => WindowKnown(s.pc, s.sy, s.th.cur);
    case _ => CondGoesOn(s);
  }

  lemma WindowKnown(pc: map<Tid, Pc>, y: Sync, t: Tid)
    requires LocksKnown(y) && HolderOutside(pc, y) && t in pc && (pc[t].SetHolder? || pc[t].RelUp?)
    ensures pc[t].lock in y.owner && pc[t].lock in y.holder && LockSem(pc[t].lock) in y.semas
  {
    assert Role(pc, t) == pc[t];
  }

  lemma CondGoesOn(s: State)
    requires s.th.cur in s.pc && Staged(Role(s.pc, s.th.cur), s.th.cur, s.sy)
    requires LocksKnown(s.sy) && Ledger(s.sy.semas, s.sy.tickets, s.sy.upped, s.sy.passed)
    requires var p := s.pc[s.th.cur];
             !p.Newborn? && !p.Creating? && !p.RelUp? && !p.SetHolder? && (p.Downing? ==> p.sem in s.sy.semas)
    ensures s.pc[s.th.cur] == User || CanAdvance(s)
  {}
}
