/**
 Counting semaphores over the FIFO scheduler, as interleaved interrupts-off
 sections of one processor.

 A step is one such section: the part of a semaphore operation or of the
 scheduler that runs with interrupts disabled, up to and including the switch to
 the next thread. A thread that resumes inside sema_down tests the value again
 before interrupts come back on.
 */
module Scheduler {

  type Tid = nat

  datatype Status = Running | Ready | Blocked | Dying

  /** What a thread that is not running will do next. */
  datatype Place = Normal | InDown(sema: nat) | IdleLoop

  datatype Thread = Thread(status: Status, place: Place)

  datatype Semaphore = Semaphore(value: nat, waiters: seq<Tid>)

  datatype State = State(threads: seq<Thread>, current: Tid, idle: Tid, ready: seq<Tid>, semas: seq<Semaphore>)

  datatype Event =
    | Down(k: nat)      // sema_down by the running thread
    | Retest            // the running thread was resumed inside sema_down
    | TryDown(k: nat)   // sema_try_down, by the running thread or an interrupt handler
    | Up(k: nat)        // sema_up, by the running thread or an interrupt handler
    | Yield             // thread_yield, by the running thread or on return from the timer interrupt
    | IdleBlock         // the idle thread goes back to sleep
    | Create            // thread_create, when a page for it was available
    | Exit              // thread_exit

  /* ----- the steps ----- */

  // After thread_start: the first thread runs, the idle thread has blocked, nothing is queued.
  predicate Init(s: State) {
    && s.threads == [Thread(Running, Normal), Thread(Blocked, IdleLoop)]
    && s.current == 0 && s.idle == 1 && s.ready == []
    && forall k | 0 <= k < |s.semas| :: s.semas[k].waiters == []
  }

  predicate Enabled(s: State, e: Event) {
    && s.current < |s.threads|
    && var place := s.threads[s.current].place;
    && (e.Retest? <==> place.InDown?)
    && (e.Retest? ==> place.sema < |s.semas|)
    && (e.Down? || e.TryDown? || e.Up? ==> e.k < |s.semas|)
    && (e.Down? || e.Exit? || e.Create? ==> place.Normal?)
    && (e.IdleBlock? ==> place.IdleLoop?)
  }

  function SetStatus(s: State, t: Tid, status: Status): (r: State)
    ensures |r.threads| == |s.threads| && r.semas == s.semas && r.ready == s.ready && r.current == s.current
  {
    if t < |s.threads| then s.(threads := s.threads[t := s.threads[t].(status := status)]) else s
  }

  function SetPlace(s: State, t: Tid, place: Place): (r: State)
    ensures |r.threads| == |s.threads| && r.semas == s.semas && r.ready == s.ready && r.current == s.current
  {
    if t < |s.threads| then s.(threads := s.threads[t := s.threads[t].(place := place)]) else s
  }

  // schedule(): the head of the ready list, or the idle thread, becomes the running thread.
  function Schedule(s: State): (r: State)
    ensures |r.threads| == |s.threads| && r.semas == s.semas
  {
    var next := if s.ready == [] then s.idle else s.ready[0];
    SetStatus(s.(ready := if s.ready == [] then [] else s.ready[1..], current := next), next, Running)
  }

  // thread_enqueue and the change of status in thread_unblock.
  function Unblock(s: State, t: Tid): (r: State)
    ensures |r.threads| == |s.threads| && r.semas == s.semas
  {
    SetStatus(s.(ready := s.ready + [t]), t, Ready)
  }

  // One test of the value in sema_down: sleep, or take one unit and return.
  function Test(s: State, k: nat): State
    requires k < |s.semas|
  {
    var q := s.semas[k];
    if q.value == 0 then
      var t := s.current;
      Schedule(SetStatus(SetPlace(s.(semas := s.semas[k := q.(waiters := q.waiters + [t])]), t, InDown(k)), t, Blocked))
    else
      SetPlace(s.(semas := s.semas[k := q.(value := q.value - 1)]), s.current, Normal)
  }

  function Apply(s: State, e: Event): State
    requires Enabled(s, e)
  {
    match e
    case Down(k) => Test(s, k)
    case Retest => Test(s, s.threads[s.current].place.sema)
    case TryDown(k) =>
      var q := s.semas[k];
      if q.value > 0 then s.(semas := s.semas[k := q.(value := q.value - 1)]) else s
    case Up(k) =>
      var q := s.semas[k];
      if q.waiters == [] then s.(semas := s.semas[k := q.(value := q.value + 1)])
      else Unblock(s.(semas := s.semas[k := Semaphore(q.value + 1, q.waiters[1..])]), q.waiters[0])
    case Yield =>
      Schedule(SetStatus(if s.current != s.idle then s.(ready := s.ready + [s.current]) else s, s.current, Ready))
    case IdleBlock => Schedule(SetStatus(s, s.current, Blocked))
    case Create =>
      s.(threads := s.threads + [Thread(Ready, Normal)], ready := s.ready + [|s.threads|])
    case Exit => Schedule(SetStatus(s, s.current, Dying))
  }

  /* ----- the invariant ----- */

  predicate Distinct(q: seq<Tid>) {
    forall i, j | 0 <= i < j < |q| :: q[i] != q[j]
  }

  // Woken from semaphore k, value not tested again yet.
  predicate Woken(t: Thread, k: nat) {
    t.place == InDown(k) && (t.status.Ready? || t.status.Running?)
  }

  function CountWoken(threads: seq<Thread>, k: nat): nat {
    if threads == [] then 0 else (if Woken(threads[0], k) then 1 else 0) + CountWoken(threads[1..], k)
  }

  // Exactly one thread runs; the idle thread is the one in the idle loop.
  predicate CpuInv(s: State) {
    && s.current < |s.threads| && s.idle < |s.threads|
    && (forall t | 0 <= t < |s.threads| :: s.threads[t].status == Running <==> t == s.current)
    && (forall t | 0 <= t < |s.threads| :: s.threads[t].place == IdleLoop <==> t == s.idle)
    && s.threads[s.idle].status != Dying
  }

  // The ready list holds exactly the ready threads other than idle, each once.
  predicate ReadyInv(s: State) {
    && Distinct(s.ready)
    && (forall i | 0 <= i < |s.ready| :: s.ready[i] < |s.threads| && s.threads[s.ready[i]].status == Ready && s.ready[i] != s.idle)
    && (forall t | 0 <= t < |s.threads| && t != s.idle :: s.threads[t].status == Ready ==> t in s.ready)
  }

  // The list of semaphore k holds exactly the threads blocked in its sema_down, each once.
  predicate WaitersInv(threads: seq<Thread>, k: nat, waiters: seq<Tid>) {
    && Distinct(waiters)
    && (forall i | 0 <= i < |waiters| :: waiters[i] < |threads| && threads[waiters[i]] == Thread(Blocked, InDown(k)))
    && (forall t | 0 <= t < |threads| :: threads[t] == Thread(Blocked, InDown(k)) ==> t in waiters)
  }

  predicate SemaInv(s: State) {
    && (forall k | 0 <= k < |s.semas| :: WaitersInv(s.threads, k, s.semas[k].waiters))
    && (forall t | 0 <= t < |s.threads| :: s.threads[t].place.InDown? ==> s.threads[t].place.sema < |s.semas| && s.threads[t].status != Dying)
    && (forall t | 0 <= t < |s.threads| :: s.threads[t].status == Blocked ==> !s.threads[t].place.Normal?)
  }

  // Units that waiting threads have not been told about never outnumber the threads on their way to them.
  predicate ValueInv(s: State) {
    forall k | 0 <= k < |s.semas| :: s.semas[k].waiters != [] ==> s.semas[k].value <= CountWoken(s.threads, k)
  }

  predicate Inv(s: State) {
    CpuInv(s) && ReadyInv(s) && SemaInv(s) && ValueInv(s)
  }

  /* ----- counting ----- */

  lemma {:induction false} CountUpdate(threads: seq<Thread>, t: nat, x: Thread, k: nat)
    requires t < |threads|
    ensures CountWoken(threads[t := x], k) ==
      CountWoken(threads, k) - (if Woken(threads[t], k) then 1 else 0) + (if Woken(x, k) then 1 else 0)
  {
    if t == 0 {
      assert threads[t := x][1..] == threads[1..];
    } else {
      CountUpdate(threads[1..], t - 1, x, k);
      assert threads[t := x][1..] == threads[1..][t - 1 := x];
    }
  }

  lemma {:induction false} CountAppend(threads: seq<Thread>, x: Thread, k: nat)
    ensures CountWoken(threads + [x], k) == CountWoken(threads, k) + (if Woken(x, k) then 1 else 0)
  {
    if threads == [] {
      assert [] + [x] == [x];
    } else {
      CountAppend(threads[1..], x, k);
      assert (threads + [x])[1..] == threads[1..] + [x];
    }
  }

  lemma {:induction false} CountWitness(threads: seq<Thread>, k: nat) returns (t: Tid)
    requires CountWoken(threads, k) > 0
    ensures t < |threads| && Woken(threads[t], k)
  {
    if Woken(threads[0], k) {
      t := 0;
    } else {
      t := CountWitness(threads[1..], k);
      t := t + 1;
    }
  }

  /* ----- every step keeps the invariant ----- */

  // Between giving the processor up and schedule(): nothing runs.
  predicate Switching(s: State) {
    && s.idle < |s.threads|
    && (forall t | 0 <= t < |s.threads| :: s.threads[t].status != Running)
    && (forall t | 0 <= t < |s.threads| :: s.threads[t].place == IdleLoop <==> t == s.idle)
    && s.threads[s.idle].status != Dying
    && ReadyInv(s) && SemaInv(s) && ValueInv(s)
  }

  lemma CountsSame(threads: seq<Thread>, t: nat, x: Thread)
    requires t < |threads|
    requires forall k :: Woken(threads[t], k) == Woken(x, k)
    ensures forall k :: CountWoken(threads[t := x], k) == CountWoken(threads, k)
  {
    forall k
      ensures CountWoken(threads[t := x], k) == CountWoken(threads, k)
    {
      CountUpdate(threads, t, x, k);
    }
  }

  lemma PopDistinct(q: seq<Tid>)
    requires Distinct(q) && q != []
    ensures Distinct(q[1..]) && q[0] !in q[1..]
    ensures forall u | u != q[0] :: u in q <==> u in q[1..]
  {
    assert q == [q[0]] + q[1..];
  }

  lemma PushDistinct(q: seq<Tid>, t: Tid)
    requires Distinct(q) && t !in q
    ensures Distinct(q + [t])
    ensures forall u :: u in q + [t] <==> u in q || u == t
  {
  }

  // A change of one thread that concerns no semaphore: it was not asleep in sema_down and is not now.
  lemma SemaFrame(s: State, s': State, t: Tid)
    requires SemaInv(s) && ValueInv(s) && t < |s.threads| == |s'.threads| && s'.semas == s.semas
    requires s'.threads == s.threads[t := s'.threads[t]]
    requires s'.threads[t].place == s.threads[t].place
    requires s.threads[t].place.InDown? ==> s.threads[t].status in {Ready, Running} && s'.threads[t].status in {Ready, Running}
    requires s'.threads[t].status == Blocked ==> !s'.threads[t].place.Normal?
    ensures SemaInv(s') && ValueInv(s')
  {
    CountsSame(s.threads, t, s'.threads[t]);
    forall k | 0 <= k < |s.semas|
      ensures WaitersInv(s'.threads, k, s'.semas[k].waiters)
    {
      assert WaitersInv(s.threads, k, s.semas[k].waiters);
    }
  }

  lemma ScheduleKeeps(s: State)
    requires Switching(s)
    ensures Inv(Schedule(s))
  {
    var s' := Schedule(s);
    var t := s'.current;
    SemaFrame(s, s', t);
    if s.ready != [] {
      PopDistinct(s.ready);
    }
    assert CpuInv(s');
    assert ReadyInv(s');
  }

  // What thread_yield, the idle loop and thread_exit do before schedule().
  function Left(s: State, e: Event): State {
    SetStatus(if e.Yield? && s.current != s.idle then s.(ready := s.ready + [s.current]) else s, s.current,
              if e.Yield? then Ready else if e.Exit? then Dying else Blocked)
  }

  lemma LeavePrepares(s: State, e: Event)
    requires Inv(s) && Enabled(s, e) && (e.Yield? || e.IdleBlock? || e.Exit?)
    ensures Switching(Left(s, e)) && Apply(s, e) == Schedule(Left(s, e))
  {
    var t := s.current;
    SemaFrame(s, Left(s, e), t);
    assert t !in s.ready;
    if e.Yield? && t != s.idle {
      PushDistinct(s.ready, t);
    }
  }

  // The running thread goes back to the ready list, or leaves the processor for good or for a sleep elsewhere.
  lemma LeaveKeeps(s: State, e: Event)
    requires Inv(s) && Enabled(s, e) && (e.Yield? || e.IdleBlock? || e.Exit?)
    ensures Inv(Apply(s, e))
  {
    LeavePrepares(s, e);
    ScheduleKeeps(Left(s, e));
  }

  lemma CreateKeeps(s: State)
    requires Inv(s) && Enabled(s, Create)
    ensures Inv(Apply(s, Create))
  {
    var s' := Apply(s, Create);
    var n := |s.threads|;
    assert forall t | 0 <= t < n :: s'.threads[t] == s.threads[t];
    PushDistinct(s.ready, n);
    forall k | 0 <= k < |s.semas|
      ensures WaitersInv(s'.threads, k, s'.semas[k].waiters)
      ensures CountWoken(s'.threads, k) == CountWoken(s.threads, k)
    {
      assert WaitersInv(s.threads, k, s.semas[k].waiters);
      CountAppend(s.threads, s'.threads[n], k);
    }
  }

  // What sema_down does before schedule() when it finds the value at zero.
  function Slept(s: State, k: nat): State
    requires k < |s.semas|
  {
    var t, q := s.current, s.semas[k];
    SetStatus(SetPlace(s.(semas := s.semas[k := q.(waiters := q.waiters + [t])]), t, InDown(k)), t, Blocked)
  }

  lemma SleepPrepares(s: State, k: nat)
    requires Inv(s) && k < |s.semas| && s.semas[k].value == 0
    requires s.threads[s.current].place == Normal || s.threads[s.current].place == InDown(k)
    ensures Switching(Slept(s, k)) && Test(s, k) == Schedule(Slept(s, k))
  {
    var t, pre := s.current, Slept(s, k);
    assert pre.threads == s.threads[t := Thread(Blocked, InDown(k))];
    assert WaitersInv(s.threads, k, s.semas[k].waiters);
    SleepSemas(s, pre, k, t);
    assert ReadyInv(pre);
  }

  // A test that finds the value at zero puts the running thread to sleep.
  lemma SleepKeeps(s: State, k: nat)
    requires Inv(s) && k < |s.semas| && s.semas[k].value == 0
    requires s.threads[s.current].place == Normal || s.threads[s.current].place == InDown(k)
    ensures Inv(Test(s, k))
  {
    SleepPrepares(s, k);
    ScheduleKeeps(Slept(s, k));
  }

  // The running thread joins the waiters of a semaphore whose value is zero.
  lemma SleepSemas(s: State, s': State, k: nat, t: Tid)
    requires SemaInv(s) && ValueInv(s) && k < |s.semas| && t < |s.threads|
    requires s.semas[k].value == 0 && t !in s.semas[k].waiters
    requires s.threads[t].status == Running && (s.threads[t].place == Normal || s.threads[t].place == InDown(k))
    requires s'.threads == s.threads[t := Thread(Blocked, InDown(k))]
    requires s'.semas == s.semas[k := Semaphore(0, s.semas[k].waiters + [t])]
    ensures SemaInv(s') && ValueInv(s')
  {
    assert WaitersInv(s.threads, k, s.semas[k].waiters);
    PushDistinct(s.semas[k].waiters, t);
    forall j | 0 <= j < |s.semas|
      ensures WaitersInv(s'.threads, j, s'.semas[j].waiters)
      ensures s'.semas[j].waiters != [] ==> s'.semas[j].value <= CountWoken(s'.threads, j)
    {
      assert WaitersInv(s.threads, j, s.semas[j].waiters);
      CountUpdate(s.threads, t, s'.threads[t], j);
    }
  }

  // A test that finds a unit takes it, and the thread is no longer on its way.
  lemma TakeKeeps(s: State, k: nat)
    requires Inv(s) && k < |s.semas| && s.semas[k].value > 0
    requires s.threads[s.current].place == Normal || s.threads[s.current].place == InDown(k)
    ensures Inv(Test(s, k))
  {
    var t, q := s.current, s.semas[k];
    var s' := Test(s, k);
    assert s'.threads == s.threads[t := Thread(Running, Normal)];
    forall j | 0 <= j < |s.semas|
      ensures WaitersInv(s'.threads, j, s'.semas[j].waiters)
      ensures s'.semas[j].waiters != [] ==> s'.semas[j].value <= CountWoken(s'.threads, j)
    {
      assert WaitersInv(s.threads, j, s.semas[j].waiters);
      CountUpdate(s.threads, t, s'.threads[t], j);
    }
    assert CpuInv(s') && ReadyInv(s');
  }

  lemma TryDownKeeps(s: State, k: nat)
    requires Inv(s) && Enabled(s, TryDown(k))
    ensures Inv(Apply(s, TryDown(k)))
  {
    var s' := Apply(s, TryDown(k));
    forall j | 0 <= j < |s.semas|
      ensures WaitersInv(s'.threads, j, s'.semas[j].waiters)
    {
      assert WaitersInv(s.threads, j, s.semas[j].waiters);
    }
  }

  lemma UpKeeps(s: State, k: nat)
    requires Inv(s) && Enabled(s, Up(k))
    ensures Inv(Apply(s, Up(k)))
  {
    var s' := Apply(s, Up(k));
    if s.semas[k].waiters == [] {
      forall j | 0 <= j < |s.semas|
        ensures WaitersInv(s'.threads, j, s'.semas[j].waiters)
      {
        assert WaitersInv(s.threads, j, s.semas[j].waiters);
      }
    } else {
      var w := s.semas[k].waiters[0];
      assert WaitersInv(s.threads, k, s.semas[k].waiters);
      assert s'.threads == s.threads[w := Thread(Ready, InDown(k))];
      assert w !in s.ready;
      PushDistinct(s.ready, w);
      assert CpuInv(s') && ReadyInv(s');
      WakeSemas(s, s', k, w);
    }
  }

  // The first waiter is woken and the value raised: one more unit, one more thread on its way to it.
  lemma WakeSemas(s: State, s': State, k: nat, w: Tid)
    requires SemaInv(s) && ValueInv(s) && k < |s.semas|
    requires s.semas[k].waiters != [] && w == s.semas[k].waiters[0] && w < |s.threads|
    requires s'.threads == s.threads[w := Thread(Ready, InDown(k))]
    requires s'.semas == s.semas[k := Semaphore(s.semas[k].value + 1, s.semas[k].waiters[1..])]
    ensures SemaInv(s') && ValueInv(s')
  {
    var q := s.semas[k].waiters;
    assert WaitersInv(s.threads, k, q);
    PopDistinct(q);
    forall j | 0 <= j < |s.semas|
      ensures WaitersInv(s'.threads, j, s'.semas[j].waiters)
      ensures s'.semas[j].waiters != [] ==> s'.semas[j].value <= CountWoken(s'.threads, j)
    {
      assert WaitersInv(s.threads, j, s.semas[j].waiters);
      CountUpdate(s.threads, w, s'.threads[w], j);
    }
  }

  /** Every step, by whatever thread or interrupt handler, keeps the invariant. */
  lemma StepKeeps(s: State, e: Event)
    requires Inv(s) && Enabled(s, e)
    ensures Inv(Apply(s, e))
  {
    match e
    case Down(k) => if s.semas[k].value == 0 { SleepKeeps(s, k); } else { TakeKeeps(s, k); }
    case Retest =>
      var k := s.threads[s.current].place.sema;
      if s.semas[k].value == 0 { SleepKeeps(s, k); } else { TakeKeeps(s, k); }
    case TryDown(k) => TryDownKeeps(s, k);
    case Up(k) => UpKeeps(s, k);
    case Create => CreateKeeps(s);
    case _ => LeaveKeeps(s, e);
  }

  /* ----- runs ----- */

  ghost predicate Step(s: State, s': State) {
    exists e :: Enabled(s, e) && s' == Apply(s, e)
  }

  /** A run: any sequence of sections of any threads, threads being created and exiting meanwhile. */
  ghost predicate Run(states: seq<State>) {
    && states != [] && Init(states[0])
    && forall i | 0 <= i < |states| - 1 :: Step(states[i], states[i + 1])
  }

  lemma InitHolds(s: State)
    requires Init(s)
    ensures Inv(s)
  {
    forall k | 0 <= k < |s.semas|
      ensures WaitersInv(s.threads, k, s.semas[k].waiters)
    {
    }
  }

  /** The invariant holds in every state of every run. */
  lemma {:induction false} RunHolds(states: seq<State>, i: nat)
    requires Run(states) && i < |states|
    ensures Inv(states[i])
  {
    if i == 0 {
      InitHolds(states[0]);
    } else {
      RunHolds(states, i - 1);
      assert Step(states[i - 1], states[i - 1 + 1]);
      StepHolds(states[i - 1], states[i]);
    }
  }

  lemma StepHolds(s: State, s': State)
    requires Inv(s) && Step(s, s')
    ensures Inv(s')
  {
    var e :| Enabled(s, e) && s' == Apply(s, e);
    StepKeeps(s, e);
  }

  /** A thread is on at most one list, at most once, and its status says which kind. */
  lemma OnOneList(states: seq<State>, i: nat, t: Tid)
    requires Run(states) && i < |states| && t < |states[i].threads|
    ensures var s := states[i];
      && multiset(s.ready)[t] <= 1
      && (multiset(s.ready)[t] == 1 <==> t != s.idle && s.threads[t].status == Ready)
      && forall k | 0 <= k < |s.semas| ::
           && multiset(s.semas[k].waiters)[t] <= 1
           && (multiset(s.semas[k].waiters)[t] == 1 <==> s.threads[t] == Thread(Blocked, InDown(k)))
  {
    var s := states[i];
    RunHolds(states, i);
    AtMostOnce(s.ready, t);
    forall k | 0 <= k < |s.semas|
      ensures multiset(s.semas[k].waiters)[t] <= 1
      ensures multiset(s.semas[k].waiters)[t] == 1 <==> s.threads[t] == Thread(Blocked, InDown(k))
    {
      assert WaitersInv(s.threads, k, s.semas[k].waiters);
      AtMostOnce(s.semas[k].waiters, t);
    }
  }

  lemma {:induction false} AtMostOnce(q: seq<Tid>, t: Tid)
    requires Distinct(q)
    ensures multiset(q)[t] == if t in q then 1 else 0
  {
    if q != [] {
      PopDistinct(q);
      AtMostOnce(q[1..], t);
      assert q == [q[0]] + q[1..];
    }
  }

  /** No lost wakeup: a unit no waiting thread was woken for does not exist while threads wait. */
  lemma WaitersAreServed(states: seq<State>, i: nat, k: nat)
    requires Run(states) && i < |states| && k < |states[i].semas|
    requires states[i].semas[k].waiters != [] && states[i].semas[k].value > 0
    ensures exists t | 0 <= t < |states[i].threads| :: Woken(states[i].threads[t], k)
    ensures states[i].semas[k].value <= CountWoken(states[i].threads, k)
  {
    RunHolds(states, i);
    var t := CountWitness(states[i].threads, k);
  }

  lemma ScheduleDying(s: State, t: Tid)
    requires Switching(s) && t < |s.threads| && s.threads[t].status == Dying
    ensures Schedule(s).threads[t].status == Dying
  {
    hide SemaInv, ValueInv;
  }

  lemma DyingStays(s: State, e: Event, t: Tid)
    requires Inv(s) && Enabled(s, e) && t < |s.threads| && s.threads[t].status == Dying
    ensures t < |Apply(s, e).threads| && Apply(s, e).threads[t].status == Dying
  {
    hide SemaInv, ValueInv, ReadyInv, Switching, Schedule;
    if e.Up? && s.semas[e.k].waiters != [] {
      FirstWaiter(s, e.k);
    } else if e.Yield? || e.IdleBlock? || e.Exit? {
      LeavePrepares(s, e);
      ScheduleDying(Left(s, e), t);
    } else if e.Down? && s.semas[e.k].value == 0 {
      SleepPrepares(s, e.k);
      ScheduleDying(Slept(s, e.k), t);
    } else if e.Retest? && s.semas[s.threads[s.current].place.sema].value == 0 {
      SleepPrepares(s, s.threads[s.current].place.sema);
      ScheduleDying(Slept(s, s.threads[s.current].place.sema), t);
    }
  }

  lemma FirstWaiter(s: State, k: nat)
    requires SemaInv(s) && k < |s.semas| && s.semas[k].waiters != []
    ensures s.semas[k].waiters[0] < |s.threads| && s.threads[s.semas[k].waiters[0]].status == Blocked
  {
    assert WaitersInv(s.threads, k, s.semas[k].waiters);
  }

  lemma DyingStep(s: State, s': State, t: Tid)
    requires Inv(s) && Step(s, s') && t < |s.threads| && s.threads[t].status == Dying
    ensures t < |s'.threads| && s'.threads[t].status == Dying
  {
    hide Inv, Enabled, Apply;
    var e :| Enabled(s, e) && s' == Apply(s, e);
    DyingStays(s, e, t);
  }

  lemma DyingIsNowhere(s: State, t: Tid)
    requires Inv(s) && t < |s.threads| && s.threads[t].status == Dying
    ensures s.current != t && t !in s.ready && forall k | 0 <= k < |s.semas| :: t !in s.semas[k].waiters
  {
    forall k | 0 <= k < |s.semas|
      ensures t !in s.semas[k].waiters
    {
      assert WaitersInv(s.threads, k, s.semas[k].waiters);
    }
  }

  /** A thread that has exited never runs again and is on no list. */
  lemma {:induction false} ExitIsForever(states: seq<State>, i: nat, j: nat, t: Tid)
    requires Run(states) && i <= j < |states| && t < |states[i].threads| && states[i].threads[t].status == Dying
    ensures t < |states[j].threads| && states[j].threads[t].status == Dying
    ensures states[j].current != t && t !in states[j].ready && forall k | 0 <= k < |states[j].semas| :: t !in states[j].semas[k].waiters
    decreases j
  {
    hide Inv, Step;
    if i < j {
      ExitIsForever(states, i, j - 1, t);
      RunHolds(states, j - 1);
      assert Step(states[j - 1], states[j - 1 + 1]);
      DyingStep(states[j - 1], states[j], t);
    }
    RunHolds(states, j);
    DyingIsNowhere(states[j], t);
  }

  /* ----- first in, first out ----- */

  // Whether a step hands the processor over.
  predicate Switches(s: State, e: Event)
    requires Enabled(s, e)
  {
    match e
    case Down(k) => s.semas[k].value == 0
    case Retest => s.semas[s.threads[s.current].place.sema].value == 0
    case Yield => true
    case IdleBlock => true
    case Exit => true
    case _ => false
  }

  // The thread at place p of the ready list moves up by one at every switch; nothing gets in front of it.
  lemma MovesUp(s: State, e: Event, p: nat)
    requires Enabled(s, e) && p < |s.ready|
    ensures var s' := Apply(s, e);
      if !Switches(s, e) then p < |s'.ready| && s'.ready[p] == s.ready[p]
      else if p == 0 then s'.current == s.ready[0]
      else p - 1 < |s'.ready| && s'.ready[p - 1] == s.ready[p]
  {
  }

  ghost function SwitchCount(states: seq<State>, es: seq<Event>): nat
    requires Performed(states, es)
    decreases |es|
  {
    if es == [] then 0 else
      var n := |es| - 1;
      PrefixPerformed(states, es);
      SwitchCount(states[..n + 1], es[..n]) + (if Switches(states[n], es[n]) then 1 else 0)
  }

  /** A thread at place p of the ready list runs by the time the processor was handed over p + 1 times. */
  lemma {:induction false} BoundedWait(states: seq<State>, es: seq<Event>, p: nat)
    requires Performed(states, es) && p < |states[0].ready|
    ensures SwitchCount(states, es) > p ==> exists i :: 0 <= i < |states| && states[i].current == states[0].ready[p]
    ensures (forall i | 0 <= i < |states| :: states[i].current != states[0].ready[p]) ==>
      var q := p - SwitchCount(states, es); 0 <= q < |states[|es|].ready| && states[|es|].ready[q] == states[0].ready[p]
    decreases |es|
  {
    hide Enabled, Apply, Switches;
    if es != [] {
      var n := |es| - 1;
      PrefixPerformed(states, es);
      var before := states[..n + 1];
      BoundedWait(before, es[..n], p);
      assert forall i | 0 <= i < |before| :: before[i] == states[i];
      var t := states[0].ready[p];
      if forall i | 0 <= i < |states| :: states[i].current != t {
        var q := p - SwitchCount(before, es[..n]);
        MovesUp(states[n], es[n], q);
      }
    }
  }

  /* ----- accounting for units ----- */

  // Whether a step takes a unit from semaphore k, or adds one.
  predicate Takes(s: State, e: Event, k: nat)
    requires Enabled(s, e) && k < |s.semas|
  {
    && s.semas[k].value > 0
    && (e == Down(k) || e == TryDown(k) || (e.Retest? && s.threads[s.current].place == InDown(k)))
  }

  /** The states reached by performing the events of `es` in order. */
  ghost predicate Performed(states: seq<State>, es: seq<Event>) {
    && |states| == |es| + 1
    && forall i | 0 <= i < |es| :: Enabled(states[i], es[i]) && states[i + 1] == Apply(states[i], es[i])
  }

  ghost function Ups(es: seq<Event>, k: nat): nat {
    if es == [] then 0 else Ups(es[..|es| - 1], k) + (if es[|es| - 1] == Up(k) then 1 else 0)
  }

  ghost function Taken(states: seq<State>, es: seq<Event>, k: nat): nat
    requires Performed(states, es) && k < |states[0].semas|
    decreases |es|
  {
    if es == [] then 0 else
      var n := |es| - 1;
      PrefixPerformed(states, es);
      SemasKept(states, es, n);
      Taken(states[..n + 1], es[..n], k) + (if Takes(states[n], es[n], k) then 1 else 0)
  }

  lemma PrefixPerformed(states: seq<State>, es: seq<Event>)
    requires Performed(states, es) && es != []
    ensures Performed(states[..|es|], es[..|es| - 1])
  {
  }

  lemma {:induction false} SemasKept(states: seq<State>, es: seq<Event>, i: nat)
    requires Performed(states, es) && i < |states|
    ensures |states[i].semas| == |states[0].semas|
  {
    if i > 0 {
      SemasKept(states, es, i - 1);
      assert states[i] == Apply(states[i - 1], es[i - 1]);
    }
  }

  /** Conservation: a semaphore's value is its initial value plus the ups minus the units taken. */
  lemma {:induction false} ValueIsBalance(states: seq<State>, es: seq<Event>, k: nat)
    requires Performed(states, es) && k < |states[0].semas|
    ensures |states[|es|].semas| == |states[0].semas|
    ensures states[|es|].semas[k].value == states[0].semas[k].value + Ups(es, k) - Taken(states, es, k)
    decreases |es|
  {
    SemasKept(states, es, |es|);
    if es != [] {
      var n := |es| - 1;
      PrefixPerformed(states, es);
      ValueIsBalance(states[..n + 1], es[..n], k);
      assert states[n + 1] == Apply(states[n], es[n]);
    }
  }

  /* ----- first in, first out at a semaphore ----- */

  // The thread at place p of the waiters moves up by one at every sema_up, or is woken; nothing gets in front of it.
  lemma WaiterMovesUp(s: State, e: Event, k: nat, p: nat)
    requires SemaInv(s) && Enabled(s, e) && k < |s.semas| && p < |s.semas[k].waiters|
    ensures var s', t := Apply(s, e), s.semas[k].waiters[p];
      && |s'.semas| == |s.semas|
      && if e != Up(k) then p < |s'.semas[k].waiters| && s'.semas[k].waiters[p] == t
         else if p > 0 then p - 1 < |s'.semas[k].waiters| && s'.semas[k].waiters[p - 1] == t
         else t < |s'.threads| && s'.threads[t] == Thread(Ready, InDown(k)) && s'.ready == s.ready + [t] && t !in s'.semas[k].waiters
  {
    hide Schedule;
    assert WaitersInv(s.threads, k, s.semas[k].waiters);
    if e == Up(k) && p == 0 {
      PopDistinct(s.semas[k].waiters);
    }
  }

  /**
   A thread at place p of the waiters stays in line through p times sema_up, one place further to the front after
   each, and the next sema_up wakes it.
   */
  lemma {:induction false} WokenInTurn(states: seq<State>, es: seq<Event>, k: nat, p: nat)
    requires Performed(states, es) && Inv(states[0]) && k < |states[0].semas| && p < |states[0].semas[k].waiters|
    ensures |states[|es|].semas| == |states[0].semas|
    ensures Ups(es, k) <= p ==> var q := p - Ups(es, k);
      q < |states[|es|].semas[k].waiters| && states[|es|].semas[k].waiters[q] == states[0].semas[k].waiters[p]
    ensures Ups(es, k) > p ==> exists i :: 0 <= i < |es| && WakesInTurn(states, es, i, k, states[0].semas[k].waiters[p]) && Ups(es[..i], k) == p
    decreases |es|
  {
    hide Inv, Enabled, Apply, WakesInTurn;
    if es != [] {
      var n := |es| - 1;
      var t := states[0].semas[k].waiters[p];
      PrefixPerformed(states, es);
      WokenInTurn(states[..n + 1], es[..n], k, p);
      PerformedKeeps(states, es, n);
      SemasKept(states, es, |es|);
      if Ups(es[..n], k) <= p {
        WakesNext(states, es, k, p - Ups(es[..n], k), t);
      } else {
        var i :| 0 <= i < n && WakesInTurn(states[..n + 1], es[..n], i, k, t) && Ups(es[..n][..i], k) == p;
        WakesPrefix(states, es, n, i, k, t);
        assert es[..n][..i] == es[..i];
      }
    }
  }

  // Event i takes t, the first in line at semaphore k, to the end of the ready list.
  ghost predicate WakesInTurn(states: seq<State>, es: seq<Event>, i: nat, k: nat, t: Tid)
    requires i < |es| && |states| == |es| + 1
  {
    && es[i] == Up(k) && k < |states[i].semas| && k < |states[i + 1].semas|
    && states[i].semas[k].waiters != [] && states[i].semas[k].waiters[0] == t && t !in states[i + 1].semas[k].waiters
    && t < |states[i + 1].threads| && states[i + 1].threads[t].status == Ready && states[i + 1].ready == states[i].ready + [t]
  }

  lemma WakesNext(states: seq<State>, es: seq<Event>, k: nat, q: nat, t: Tid)
    requires Performed(states, es) && es != [] && Inv(states[|es| - 1]) && k < |states[|es| - 1].semas|
    requires q < |states[|es| - 1].semas[k].waiters| && states[|es| - 1].semas[k].waiters[q] == t
    ensures |states[|es|].semas| == |states[|es| - 1].semas|
    ensures es[|es| - 1] != Up(k) ==> q < |states[|es|].semas[k].waiters| && states[|es|].semas[k].waiters[q] == t
    ensures es[|es| - 1] == Up(k) && q > 0 ==> q - 1 < |states[|es|].semas[k].waiters| && states[|es|].semas[k].waiters[q - 1] == t
    ensures es[|es| - 1] == Up(k) && q == 0 ==> WakesInTurn(states, es, |es| - 1, k, t)
  {
    hide Enabled, Apply, SemaInv, CpuInv, ReadyInv, ValueInv;
    WaiterMovesUp(states[|es| - 1], es[|es| - 1], k, q);
  }

  lemma WakesPrefix(states: seq<State>, es: seq<Event>, n: nat, i: nat, k: nat, t: Tid)
    requires i < n <= |es| && |states| == |es| + 1 && WakesInTurn(states[..n + 1], es[..n], i, k, t)
    ensures WakesInTurn(states, es, i, k, t)
  {
  }

  lemma {:induction false} PerformedKeeps(states: seq<State>, es: seq<Event>, i: nat)
    requires Performed(states, es) && Inv(states[0]) && i < |states|
    ensures Inv(states[i])
  {
    hide Inv, Enabled, Apply;
    if i > 0 {
      PerformedKeeps(states, es, i - 1);
      StepKeeps(states[i - 1], es[i - 1]);
      assert states[i - 1 + 1] == states[i];
    }
  }
}
