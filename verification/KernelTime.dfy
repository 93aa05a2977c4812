/** What every run does with time: threads are dispatched in order and within a
    bounded number of ticks, and sleepers are woken at exactly the right one. */
module KernelTime {
  import opened Kernel
  import opened KernelPlaces

  // ---------- What one step does to thread.c's state ----------

  datatype Move = Stay | DoBlock | DoUnblock(t: Tid) | DoYield | DoExit | DoTick | DoSleep(n: int) | DoBirth(t: Tid)

  ghost function Apply(h: Threads, x: Move): Threads {
    match x
    case Stay => h
    case DoBlock => Block(h)
    case DoUnblock(t) => Unblock(h, t)
    case DoYield => Yield(h)
    case DoExit => Exit(h)
    case DoTick => Tick(h)
    case DoSleep(n) => Block(Enlist(h, n))
    case DoBirth(t) => h.(status := h.status[t := Blocked])
  }

  ghost function SemaMove(s: State, m: SemId, up: bool): Move
    requires m in s.sy.semas
  {
    var x := s.sy.semas[m];
    if up then (if x.waiters == [] then Stay else DoUnblock(x.waiters[0]))
    else if x.value == 0 then DoBlock else Stay
  }

  ghost function AdvanceMove(s: State): Move
    requires s.th.cur in s.pc && CanAdvance(s)
  {
    match s.pc[s.th.cur]
    case IdleLoop => DoBlock
    case Creating(t) => DoUnblock(t)
    case Downing(m, _) => SemaMove(s, m, false)
    case RelUp(l, _) => SemaMove(s, LockSem(l), true)
    case WaitDown(w, _) => SemaMove(s, WaitSem(w), false)
    case Reacq(_, c) => SemaMove(s, LockSem(s.sy.monitor[c]), false)
    case SigUp(w, _, _) => SemaMove(s, WaitSem(w), true)
    case _ => Stay
  }

  ghost function MoveOf(s: State, a: Action): Move
    requires Enabled(s, a)
  {
    match a
    case Timer => DoTick
    case IrqUp(m) => SemaMove(s, Plain(m), true)
    case Advance => AdvanceMove(s)
    case CallYield => DoYield
    case CallExit => DoExit
    case CallCreate(t) => DoBirth(t)
    case CallSleep(n) => DoSleep(n)
    case CallDown(m) => SemaMove(s, Plain(m), false)
    case CallUp(m) => SemaMove(s, Plain(m), true)
    case CallAcquire(l) => SemaMove(s, LockSem(l), false)
    case _ => Stay
  }

  lemma StepMove(s: State, a: Action)
    requires Enabled(s, a)
    ensures Step(s, a).th == Apply(s.th, MoveOf(s, a))
  {}

  // ---------- Bounded waiting ----------

  /** The ready list only grows at its end; schedule(), called at most once in a
      step, takes its head; and four ticks never pass without schedule(). */
  ghost predicate Forward(h: Threads, h': Threads) {
    && (|| (h'.scheds == h.scheds && h.ready <= h'.ready)
        || (h'.scheds == h.scheds + 1 && (h.ready != [] ==> h'.cur == h.ready[0] && h.ready[1..] <= h'.ready)))
    && (h.slice < TIME_SLICE ==>
          && h'.slice < TIME_SLICE
          && h'.ticks - h.ticks <= 4 * (h'.scheds - h.scheds) + h'.slice - h.slice)
  }

  lemma ScheduleForward(h: Threads, h': Threads)
    requires h.ready <= h'.ready && h'.scheds == h.scheds && h'.ticks <= h.ticks + 1
    ensures h.slice < TIME_SLICE || h'.ticks <= h.ticks ==> Forward(h, Schedule(h'))
  {}

  lemma {:induction false} WakeDueFrame(h: Threads)
    ensures var h' := WakeDue(h);
            && h.ready <= h'.ready && h'.scheds == h.scheds && h'.cur == h.cur && h'.ticks == h.ticks
            && h'.slice == h.slice && h'.wake == h.wake && h'.from == h.from && h'.number == h.number
              && h'.sleeps == h.sleeps
    decreases |h.slept|
  {
    if h.slept != [] && Get(h.wake, h.slept[0]) <= h.ticks {
      WakeDueFrame(WakeFirst(h));
    }
  }

  lemma MoveForward(h: Threads, x: Move)
    ensures Forward(h, Apply(h, x))
  {
    match x
    case DoTick =>
      WakeDueFrame(Clock(h));
      var h1 := WakeDue(Clock(h));
      ScheduleForward(h, h1.(ready := if h1.cur != h1.idle then h1.ready + [h1.cur] else h1.ready,
                             status := h1.status[h1.cur := Ready]));
    case _ =>
  }

  lemma RunForward(run: seq<State>, j: nat)
    requires IsRun(run) && 0 < j < |run|
    ensures Forward(run[j - 1].th, run[j].th)
  {
    assert StepAt(run, j);
    var a :| Enabled(run[j - 1], a) && run[j] == Step(run[j - 1], a);
    StepMove(run[j - 1], a);
    MoveForward(run[j - 1].th, MoveOf(run[j - 1], a));
  }

  lemma {:induction false} SliceAlways(run: seq<State>, i: nat)
    requires IsRun(run) && i < |run|
    ensures run[i].th.slice < TIME_SLICE
  {
    if i > 0 {
      SliceAlways(run, i - 1);
      RunForward(run, i);
    }
  }

  // From h to h', the thread at index k of h's ready list has moved up by the
  // number of schedule() calls, and time is charged to those calls.
  ghost predicate Progress(h: Threads, h': Threads, k: nat) {
    var m := h'.scheds - h.scheds;
    && 0 <= m
    && (m <= k < |h.ready| ==> k - m < |h'.ready| && h'.ready[k - m] == h.ready[k])
    && h'.slice < TIME_SLICE
    && h'.ticks - h.ticks <= 4 * m + h'.slice - h.slice
  }

  lemma ProgressStep(h: Threads, h1: Threads, h2: Threads, k: nat)
    requires Progress(h, h1, k) && Forward(h1, h2)
    ensures Progress(h, h2, k)
  {
    var m := h1.scheds - h.scheds;
    if m < k < |h.ready| {
      assert h1.ready[1..][k - m - 1] == h.ready[k];
    }
  }

  /** Whatever happens in between, a waiting thread moves up one place at each
      call of schedule(), and there are four ticks at most to a call. */
  lemma {:induction false} QueueProgress(run: seq<State>, i: nat, k: nat, j: nat)
    requires IsRun(run) && i <= j < |run|
    ensures Progress(run[i].th, run[j].th, k)
    decreases j
  {
    if i < j {
      QueueProgress(run, i, k, j - 1);
      RunForward(run, j);
      ProgressStep(run[i].th, run[j - 1].th, run[j].th, k);
    } else {
      SliceAlways(run, j);
    }
  }

  // The step at which the count of schedule() calls passes k.
  lemma {:induction false} FirstDispatch(run: seq<State>, i: nat, k: nat, j: nat) returns (d: nat)
    requires IsRun(run) && i <= j < |run|
    requires run[j].th.scheds - run[i].th.scheds >= k + 1
    ensures i < d <= j && run[d].th.scheds == run[i].th.scheds + k + 1 == run[d - 1].th.scheds + 1
    decreases j
  {
    RunForward(run, j);
    if run[j - 1].th.scheds - run[i].th.scheds >= k + 1 {
      d := FirstDispatch(run, i, k, j - 1);
    } else {
      d := j;
    }
  }

  /** The thread at index k of the ready list is dispatched by exactly the
      (k+1)-th following call of schedule(). */
  lemma DispatchedInTurn(run: seq<State>, i: nat, k: nat, d: nat)
    requires IsRun(run) && i < d < |run| && k < |run[i].th.ready|
    requires run[d].th.scheds == run[i].th.scheds + k + 1 == run[d - 1].th.scheds + 1
    ensures run[d].th.cur == run[i].th.ready[k]
  {
    QueueProgress(run, i, k, d - 1);
    RunForward(run, d);
  }

  /** Bounded waiting: once 4(k+1) ticks have passed, that call has been made. */
  lemma BoundedWaiting(run: seq<State>, i: nat, k: nat, j: nat)
    requires IsRun(run) && i <= j < |run| && k < |run[i].th.ready|
    requires run[j].th.ticks - run[i].th.ticks >= 4 * (k + 1)
    ensures exists d :: i < d <= j && run[d].th.cur == run[i].th.ready[k]
                        && run[d].th.scheds == run[i].th.scheds + k + 1 == run[d - 1].th.scheds + 1
  {
    QueueProgress(run, i, k, j);
    var d := FirstDispatch(run, i, k, j);
    DispatchedInTurn(run, i, k, d);
  }

  // ---------- The alarm ----------

  // The first tick after `from` that is not before `due`.
  function WakeTick(from: int, due: int): int {
    if due > from then due else from + 1
  }

  // The order in which sleepers wait: by deadline, and in order of request.
  ghost predicate Earlier(due: int, number: int, due': int, number': int) {
    due < due' || (due == due' && number < number')
  }

  ghost predicate Sorted(h: Threads) {
    forall i, j :: 0 <= i < j < |h.slept| ==>
      Earlier(Get(h.wake, h.slept[i]), Get(h.number, h.slept[i]), Get(h.wake, h.slept[j]), Get(h.number, h.slept[j]))
  }

  // No sleeper is overdue at tick `now`.
  ghost predicate Pending(h: Threads, now: int) {
    forall t :: t in h.slept ==>
      Get(h.from, t) <= now < WakeTick(Get(h.from, t), Get(h.wake, t)) && Get(h.number, t) < h.sleeps
  }

  // Wake-ups so far happened at the right tick and in the right order.
  ghost predicate LogRight(log: seq<Wakeup>, now: int) {
    && (forall i :: 0 <= i < |log| ==>
          log[i].at == WakeTick(log[i].from, log[i].from + log[i].length) && log[i].at <= now)
    && (forall i, j :: 0 <= i < j < |log| ==> log[i].at <= log[j].at)
    && (forall i, j :: 0 <= i < j < |log| && log[i].at == log[j].at ==>
          Earlier(log[i].from + log[i].length, log[i].number, log[j].from + log[j].length, log[j].number))
  }

  /** Stopping the scan at the first thread that is not due misses nobody. */
  ghost predicate Alarm(h: Threads) {
    Sorted(h) && Pending(h, h.ticks) && LogRight(h.log, h.ticks)
  }

  // Inside the timer interrupt: the clock has moved, the scan is under way.
  ghost predicate Scanning(h: Threads) {
    Sorted(h) && Pending(h, h.ticks - 1) && LogRight(h.log, h.ticks) && LoggedFirst(h)
  }

  // Those woken at this tick come before those still on the list.
  ghost predicate LoggedFirst(h: Threads) {
    forall i, t :: 0 <= i < |h.log| && h.log[i].at == h.ticks && t in h.slept ==>
      Earlier(h.log[i].from + h.log[i].length, h.log[i].number, Get(h.wake, t), Get(h.number, t))
  }

  lemma EnlistKeeps(h: Threads, n: int)
    requires Alarm(h) && h.cur !in h.slept
    ensures Alarm(Enlist(h, n))
  {
    var w := n + h.ticks;
    EnlistAt(h, n, InsertPoint(h.slept, h.wake[h.cur := w], w));
  }

  lemma EnlistAt(h: Threads, n: int, k: nat)
    requires Alarm(h) && h.cur !in h.slept && k == InsertPoint(h.slept, h.wake[h.cur := n + h.ticks], n + h.ticks)
    ensures Alarm(Enlist(h, n))
  {
    EnlistParts(h, n, k);
    EnlistAlarm(h, Enlist(h, n), k, n + h.ticks);
  }

  lemma EnlistParts(h: Threads, n: int, k: nat)
    requires k == InsertPoint(h.slept, h.wake[h.cur := n + h.ticks], n + h.ticks)
    ensures var h', w := Enlist(h, n), n + h.ticks;
            && k <= |h.slept| && (forall i :: 0 <= i < k ==> Get(h'.wake, h.slept[i]) <= w)
            && (k < |h.slept| ==> w < Get(h'.wake, h.slept[k]))
            && h'.slept == h.slept[..k] + [h.cur] + h.slept[k..] && h'.wake == h.wake[h.cur := w]
            && h'.from == h.from[h.cur := h.ticks] && h'.number == h.number[h.cur := h.sleeps]
            && h'.sleeps == h.sleeps + 1 && h'.ticks == h.ticks && h'.log == h.log
  {}

  lemma EnlistAlarm(h: Threads, h': Threads, k: nat, w: int)
    requires Alarm(h) && h.cur !in h.slept && k <= |h.slept|
    requires forall i :: 0 <= i < k ==> Get(h'.wake, h.slept[i]) <= w
    requires k < |h.slept| ==> w < Get(h'.wake, h.slept[k])
    requires h'.slept == h.slept[..k] + [h.cur] + h.slept[k..] && h'.wake == h.wake[h.cur := w]
    requires h'.from == h.from[h.cur := h.ticks]
    requires h'.number == h.number[h.cur := h.sleeps] && h'.sleeps == h.sleeps + 1
    requires h'.ticks == h.ticks && h'.log == h.log
    ensures Alarm(h')
  {
    Inserted(h.slept, k, h.cur);
    OtherDues(h, h', w);
    EnlistSorted(h, h', k, w);
    EnlistPending(h, h');
  }

  lemma OtherDues(h: Threads, h': Threads, w: int)
    requires h'.wake == h.wake[h.cur := w]
    ensures forall t: Tid :: t != h.cur ==> Get(h'.wake, t) == Get(h.wake, t)
  {}

  lemma EnlistPending(h: Threads, h': Threads)
    requires Pending(h, h.ticks) && (forall u :: u in h'.slept ==> u == h.cur || u in h.slept)
    requires forall t: Tid :: t != h.cur ==> Get(h'.wake, t) == Get(h.wake, t)
    requires h'.from == h.from[h.cur := h.ticks]
    requires h'.number == h.number[h.cur := h.sleeps] && h'.sleeps == h.sleeps + 1
    ensures Pending(h', h.ticks)
  {}

  lemma Inserted(q: seq<Tid>, k: nat, t: Tid)
    requires k <= |q| && t !in q
    ensures var q' := q[..k] + [t] + q[k..];
            && q'[k] == t
            && (forall i :: 0 <= i < |q'| && i != k ==> q'[i] == q[if i < k then i else i - 1] != t)
            && (forall u :: u in q' ==> u == t || u in q)
  {}

  lemma EnlistSorted(h: Threads, h': Threads, k: nat, w: int)
    requires Sorted(h) && Pending(h, h.ticks) && k <= |h.slept| && |h'.slept| == |h.slept| + 1
    requires forall i :: 0 <= i < k ==> Get(h.wake, h.slept[i]) <= w
    requires k < |h.slept| ==> w < Get(h.wake, h.slept[k])
    requires h'.slept[k] == h.cur && h'.wake == h.wake[h.cur := w] && h'.number == h.number[h.cur := h.sleeps]
    requires forall i :: 0 <= i < |h'.slept| && i != k ==> h'.slept[i] == h.slept[if i < k then i else i - 1] != h.cur
    ensures Sorted(h')
  {
    forall i, j | 0 <= i < j < |h'.slept|
      ensures Earlier(Get(h'.wake, h'.slept[i]), Get(h'.number, h'.slept[i]), Get(h'.wake, h'.slept[j]),
                      Get(h'.number, h'.slept[j]))
    {
      if j == k {
        assert h.slept[i] in h.slept;
      } else if i == k {
        if j - 1 > k {
          assert Earlier(Get(h.wake, h.slept[k]), Get(h.number, h.slept[k]), Get(h.wake, h.slept[j - 1]),
                         Get(h.number, h.slept[j - 1]));
        }
      } else {
        var i0, j0 := if i < k then i else i - 1, if j < k then j else j - 1;
        assert Earlier(Get(h.wake, h.slept[i0]), Get(h.number, h.slept[i0]), Get(h.wake, h.slept[j0]),
                       Get(h.number, h.slept[j0]));
      }
    }
  }

  lemma LogAppend(log: seq<Wakeup>, e: Wakeup, now: int)
    requires LogRight(log, now) && e.at == now == WakeTick(e.from, e.from + e.length)
    requires forall i :: 0 <= i < |log| && log[i].at == now ==>
               Earlier(log[i].from + log[i].length, log[i].number, e.from + e.length, e.number)
    ensures LogRight(log + [e], now)
  {}

  // The head of a sorted list is earlier than the rest, which stays sorted.
  lemma SortedTail(h: Threads, h': Threads)
    requires Sorted(h) && h.slept != [] && h'.slept == h.slept[1..] && h'.wake == h.wake && h'.number == h.number
    ensures Sorted(h')
    ensures forall u :: u in h'.slept ==>
              u in h.slept
                && Earlier(Get(h.wake, h.slept[0]), Get(h.number, h.slept[0]), Get(h.wake, u), Get(h.number, u))
  {
    forall i, j | 0 <= i < j < |h'.slept|
      ensures Earlier(Get(h.wake, h'.slept[i]), Get(h.number, h'.slept[i]), Get(h.wake, h'.slept[j]),
                      Get(h.number, h'.slept[j]))
    {
      assert h'.slept[i] == h.slept[i + 1] && h'.slept[j] == h.slept[j + 1];
    }
  }

  lemma WakeFirstScans(h: Threads)
    requires Scanning(h) && h.slept != [] && Get(h.wake, h.slept[0]) <= h.ticks
    ensures Scanning(WakeFirst(h))
  {
    var h', t := WakeFirst(h), h.slept[0];
    assert t in h.slept;
    SortedTail(h, h');
    var from := Get(h.from, t);
    assert h.ticks == WakeTick(from, Get(h.wake, t));
    var e := Wakeup(t, from, Get(h.wake, t) - from, Get(h.number, t), h.ticks);
    LogAppend(h.log, e, h.ticks);
    LoggedFirstTail(h, h', e);
  }

  lemma LoggedFirstTail(h: Threads, h': Threads, e: Wakeup)
    requires LoggedFirst(h) && h'.log == h.log + [e] && h'.ticks == h.ticks
    requires h'.wake == h.wake && h'.number == h.number
    requires forall u :: u in h'.slept ==>
               u in h.slept && Earlier(e.from + e.length, e.number, Get(h.wake, u), Get(h.number, u))
    ensures LoggedFirst(h')
  {}

  lemma {:induction false} WakeDueFinishes(h: Threads)
    requires Scanning(h)
    ensures Alarm(WakeDue(h))
    decreases |h.slept|
  {
    if h.slept != [] && Get(h.wake, h.slept[0]) <= h.ticks {
      WakeFirstScans(h);
      WakeDueFinishes(WakeFirst(h));
    } else {
      forall t | t in h.slept ensures h.ticks < WakeTick(Get(h.from, t), Get(h.wake, t)) {
        var j :| 0 <= j < |h.slept| && h.slept[j] == t;
        if j > 0 {
          assert Earlier(Get(h.wake, h.slept[0]), Get(h.number, h.slept[0]), Get(h.wake, t), Get(h.number, t));
        }
      }
    }
  }

  lemma TickAlarm(h: Threads)
    requires Alarm(h)
    ensures Alarm(Tick(h))
  {
    var h0 := Clock(h);
    assert Scanning(h0);
    WakeDueFinishes(h0);
  }

  lemma MoveAlarm(h: Threads, x: Move)
    requires Alarm(h) && (x.DoSleep? ==> h.cur !in h.slept)
    ensures Alarm(Apply(h, x))
  {
    match x
    case DoTick => TickAlarm(h);
    case DoSleep(n) => EnlistKeeps(h, n);
    case _ =>
  }

  lemma RunMove(run: seq<State>, i: nat) returns (x: Move)
    requires IsRun(run) && 0 < i < |run|
    ensures run[i].th == Apply(run[i - 1].th, x)
    ensures run[i - 1].th.cur !in run[i - 1].th.slept
  {
    assert StepAt(run, i);
    x := NextMove(run[i - 1], run[i]);
    RunningAwake(run, i - 1);
  }

  lemma RunningAwake(run: seq<State>, i: nat)
    requires IsRun(run) && i < |run|
    ensures run[i].th.cur !in run[i].th.slept
  {
    PlacesAlways(run, i);
    SleptBlocked(run[i], run[i].th.cur);
  }

  lemma NextMove(s: State, s': State) returns (x: Move)
    requires Next(s, s')
    ensures s'.th == Apply(s.th, x)
  {
    var a :| Enabled(s, a) && s' == Step(s, a);
    x := MoveOf(s, a);
    StepMove(s, a);
  }

  /** In every reachable state no sleeper is overdue, and every wake-up so far
      happened at the first tick after the call that reached the deadline;
      those of one tick in order of deadline, first come first served. */
  lemma {:induction false} AlarmAlways(run: seq<State>, i: nat)
    requires IsRun(run) && i < |run|
    ensures Alarm(run[i].th)
  {
    if i > 0 {
      AlarmAlways(run, i - 1);
      var x := RunMove(run, i);
      MoveAlarm(run[i - 1].th, x);
    }
  }

  // A sleeper's own entry: what it will be logged with when it is woken.
  ghost predicate Asleep(h: Threads, t: Tid, from: int, n: int, number: int) {
    t in h.slept && Get(h.from, t) == from && Get(h.wake, t) == from + n && Get(h.number, t) == number
  }

  // A sleeper stays asleep, or leaves the list by being logged and made ready.
  lemma {:induction false} WakeDueFate(h: Threads, t: Tid, from: int, n: int, number: int)
    requires Asleep(h, t, from, n, number)
    ensures var h' := WakeDue(h);
            h.log <= h'.log && h.ready <= h'.ready
            && (Asleep(h', t, from, n, number)
                || (Wakeup(t, from, n, number, h.ticks) in h'.log && t in h'.ready))
    decreases |h.slept|
  {
    if h.slept != [] && Get(h.wake, h.slept[0]) <= h.ticks {
      var h1 := WakeFirst(h);
      if h.slept[0] == t {
        assert Wakeup(t, from, n, number, h.ticks) == h1.log[|h.log|];
        assert h1.ready[|h.ready|] == t;
        WakeDueGrows(h1);
      } else {
        assert h.slept == [h.slept[0]] + h.slept[1..];
        WakeDueFate(h1, t, from, n, number);
      }
    }
  }

  lemma {:induction false} WakeDueGrows(h: Threads)
    ensures h.log <= WakeDue(h).log && h.ready <= WakeDue(h).ready
    decreases |h.slept|
  {
    if h.slept != [] && Get(h.wake, h.slept[0]) <= h.ticks {
      WakeDueGrows(WakeFirst(h));
    }
  }

  lemma MoveFate(h: Threads, x: Move, t: Tid, from: int, n: int, number: int)
    requires Asleep(h, t, from, n, number) && h.cur !in h.slept
    ensures var h' := Apply(h, x);
            Asleep(h', t, from, n, number)
            || (Wakeup(t, from, n, number, h.ticks + 1) in h'.log && x == DoTick && (t in h'.ready || t == h'.cur))
  {
    match x
    case DoTick =>
      WakeDueFate(Clock(h), t, from, n, number);
      YieldReady(WakeDue(Clock(h)), t);
    case DoSleep(m) => SleepFrame(h, m, t);
    case _ =>
  }

  lemma YieldReady(h: Threads, t: Tid)
    ensures t in h.ready ==> t in Yield(h).ready || t == Yield(h).cur
  {
    if t in h.ready {
      var k :| 0 <= k < |h.ready| && h.ready[k] == t;
      if k > 0 { assert Yield(h).ready[k - 1] == t; }
    }
  }

  // Another thread's sleep leaves this one's alone.
  lemma SleepFrame(h: Threads, m: int, t: Tid)
    requires t in h.slept && t != h.cur
    ensures var h' := Enlist(h, m);
            t in h'.slept && Get(h'.from, t) == Get(h.from, t) && Get(h'.wake, t) == Get(h.wake, t)
            && Get(h'.number, t) == Get(h.number, t)
  {
    var k := InsertPoint(h.slept, h.wake[h.cur := m + h.ticks], m + h.ticks);
    assert h.slept == h.slept[..k] + h.slept[k..];
  }

  lemma LogGrows(h: Threads, x: Move)
    ensures h.log <= Apply(h, x).log && h.ticks <= Apply(h, x).ticks
  {
    if x == DoTick { WakeDueGrows(Clock(h)); WakeDueFrame(Clock(h)); }
  }

  // What has become of the sleep of length n that t began at tick `now`.
  ghost predicate Fate(h: Threads, t: Tid, now: int, n: int, k: int) {
    if h.ticks < WakeTick(now, now + n) then
      Asleep(h, t, now, n, k)
    else
      Wakeup(t, now, n, k, WakeTick(now, now + n)) in h.log
  }

  lemma FateStep(h: Threads, x: Move, t: Tid, now: int, n: int, k: int)
    requires Fate(h, t, now, n, k) && Alarm(Apply(h, x)) && h.cur !in h.slept
    ensures Fate(Apply(h, x), t, now, n, k)
  {
    var h', due := Apply(h, x), WakeTick(now, now + n);
    LogGrows(h, x);
    if h.ticks < due {
      MoveFate(h, x, t, now, n, k);
      if x == DoTick { WakeDueFrame(Clock(h)); }
      if !Asleep(h', t, now, n, k) {
        assert Wakeup(t, now, n, k, h.ticks + 1) in h'.log;
      }
    }
  }

  lemma {:induction false} SleepFate(run: seq<State>, i: nat, n: int, j: nat)
    requires IsRun(run) && i < j < |run|
    requires run[i + 1].th == Block(Enlist(run[i].th, n))
    ensures Fate(run[j].th, run[i].th.cur, run[i].th.ticks, n, run[i].th.sleeps)
    decreases j
  {
    if j == i + 1 {
      BeginsAsleep(run[i].th, n);
    } else {
      SleepFate(run, i, n, j - 1);
      var x := RunMove(run, j);
      AlarmAlways(run, j);
      FateStep(run[j - 1].th, x, run[i].th.cur, run[i].th.ticks, n, run[i].th.sleeps);
    }
  }

  /** The alarm is exact, over every run: a thread that calls thread_sleep(n) at
      tick `now` is on the sleep list, and so blocked, at every later moment
      before tick max(now+1, now+n), and the step that reaches that tick makes it
      ready, or has it run at once if the tick ends a time slice. */
  lemma SleepsExactly(run: seq<State>, i: nat, n: int, j: nat)
    requires IsRun(run) && i < j < |run|
    requires Enabled(run[i], CallSleep(n)) && run[i + 1] == Step(run[i], CallSleep(n))
    ensures var now, t, h := run[i].th.ticks, run[i].th.cur, run[j].th;
            && Fate(h, t, now, n, run[i].th.sleeps)
            && (h.ticks < WakeTick(now, now + n) ==> t in h.status && h.status[t] == Blocked)
            && (run[j - 1].th.ticks < WakeTick(now, now + n) <= h.ticks ==> t in h.ready || t == h.cur)
  {
    StepMove(run[i], CallSleep(n));
    SleepFate(run, i, n, j);
    PlacesAlways(run, j);
    SleptBlocked(run[j], run[i].th.cur);
    if run[j - 1].th.ticks < WakeTick(run[i].th.ticks, run[i].th.ticks + n) <= run[j].th.ticks {
      WakesReady(run, i, n, j);
    }
  }

  lemma WakesReady(run: seq<State>, i: nat, n: int, j: nat)
    requires IsRun(run) && i < j < |run| && run[i + 1].th == Block(Enlist(run[i].th, n))
    requires run[j - 1].th.ticks < WakeTick(run[i].th.ticks, run[i].th.ticks + n) <= run[j].th.ticks
    ensures run[i].th.cur in run[j].th.ready || run[i].th.cur == run[j].th.cur
  {
    if i + 1 < j {
      SleepFate(run, i, n, j - 1);
      var x := RunMove(run, j);
      AlarmAlways(run, j);
      MoveFate(run[j - 1].th, x, run[i].th.cur, run[i].th.ticks, n, run[i].th.sleeps);
    }
  }

  /** And then it runs: if run[j] is where the deadline is reached, the thread has
      the CPU again within four ticks for each thread that is then ready. */
  lemma SleeperRuns(run: seq<State>, i: nat, n: int, j: nat, m: nat)
    requires IsRun(run) && i < j <= m < |run|
    requires Enabled(run[i], CallSleep(n)) && run[i + 1] == Step(run[i], CallSleep(n))
    requires run[j - 1].th.ticks < WakeTick(run[i].th.ticks, run[i].th.ticks + n) <= run[j].th.ticks
    requires run[m].th.ticks - run[j].th.ticks >= 4 * |run[j].th.ready|
    ensures exists d :: j <= d <= m && run[d].th.cur == run[i].th.cur
  {
    SleepsExactly(run, i, n, j);
    if run[i].th.cur in run[j].th.ready {
      var k :| 0 <= k < |run[j].th.ready| && run[j].th.ready[k] == run[i].th.cur;
      BoundedWaiting(run, j, k, m);
    }
  }

  lemma SleptBlocked(s: State, t: Tid)
    requires Places(s)
    ensures t in s.th.slept ==> t in s.th.status && s.th.status[t] == Blocked
    ensures s.th.cur !in s.th.slept
  {}

  lemma BeginsAsleep(h: Threads, n: int)
    ensures Asleep(Block(Enlist(h, n)), h.cur, h.ticks, n, h.sleeps)
  {
    var p := InsertPoint(h.slept, h.wake[h.cur := n + h.ticks], n + h.ticks);
    assert Enlist(h, n).slept[p] == h.cur;
  }
}
