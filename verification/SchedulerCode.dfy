/**
 Semaphores and the FIFO scheduler as updates of the kernel's variables, one
 method for each function of the source. Each computes the corresponding step of
 the interleaved system.
 */
module SchedulerCode {
  import opened Scheduler

  class Kernel {
    var threads: seq<Thread>
    var current: Tid
    var idle: Tid
    var ready: seq<Tid>
    var semas: seq<Semaphore>

    function Value(): State
      reads this
    {
      State(threads, current, idle, ready, semas)
    }

    /** The system after thread_start, with semaphores of the given initial values (sema_init). */
    constructor (values: seq<nat>)
      ensures Init(Value()) && Inv(Value())
      ensures |semas| == |values| && forall k | 0 <= k < |values| :: semas[k].value == values[k]
    {
      threads := [Thread(Running, Normal), Thread(Blocked, IdleLoop)];
      current, idle, ready := 0, 1, [];
      semas := seq(|values|, k requires 0 <= k < |values| => Semaphore(values[k], []));
      new;
      InitHolds(Value());
    }

    // thread_enqueue under the FIFO policy.
    method ThreadEnqueue(t: Tid)
      modifies this`ready
      ensures ready == old(ready) + [t]
    {
      ready := ready + [t];
    }

    /** thread_unblock: only ever called on a blocked thread. */
    method ThreadUnblock(t: Tid)
      requires t < |threads| && threads[t].status == Blocked
      modifies this
      ensures Value() == Unblock(old(Value()), t)
    {
      ThreadEnqueue(t);
      threads := threads[t := threads[t].(status := Ready)];
    }

    // thread_schedule_fifo.
    method NextThreadToRun() returns (t: Tid)
      modifies this`ready
      ensures t == if old(ready) == [] then idle else old(ready)[0]
      ensures ready == if old(ready) == [] then [] else old(ready)[1..]
    {
      if ready != [] {
        t := ready[0];
        ready := ready[1..];
      } else {
        t := idle;
      }
    }

    /** schedule: the running thread's status has already changed. */
    method DoSchedule()
      requires Switching(Value())
      modifies this
      ensures Value() == Schedule(old(Value())) && Inv(Value())
    {
      ScheduleKeeps(Value());
      var next := NextThreadToRun();
      current := next;
      threads := threads[next := threads[next].(status := Running)];
    }

    /** One round of the loop in sema_down. */
    method SemaDownTest(k: nat)
      requires Inv(Value()) && k < |semas|
      requires threads[current].place == Normal || threads[current].place == InDown(k)
      modifies this
      ensures Value() == Test(old(Value()), k) && Inv(Value())
    {
      if semas[k].value == 0 {
        SleepPrepares(Value(), k);
        semas := semas[k := semas[k].(waiters := semas[k].waiters + [current])];
        threads := threads[current := Thread(Blocked, InDown(k))];
        assert Value() == Slept(old(Value()), k);
        DoSchedule();
      } else {
        TakeKeeps(Value(), k);
        semas := semas[k := semas[k].(value := semas[k].value - 1)];
        threads := threads[current := threads[current].(place := Normal)];
      }
    }

    /** sema_try_down. */
    method SemaTryDown(k: nat) returns (success: bool)
      requires Inv(Value()) && Enabled(Value(), TryDown(k))
      modifies this
      ensures Value() == Apply(old(Value()), TryDown(k)) && Inv(Value())
      ensures success <==> old(semas[k].value) > 0
    {
      TryDownKeeps(Value(), k);
      success := semas[k].value > 0;
      if success {
        semas := semas[k := semas[k].(value := semas[k].value - 1)];
      }
    }

    /** sema_up. */
    method SemaUp(k: nat)
      requires Inv(Value()) && Enabled(Value(), Up(k))
      modifies this
      ensures Value() == Apply(old(Value()), Up(k)) && Inv(Value())
    {
      UpKeeps(Value(), k);
      assert WaitersInv(threads, k, semas[k].waiters);
      var waiters := semas[k].waiters;
      if waiters != [] {
        semas := semas[k := semas[k].(waiters := waiters[1..])];
        ThreadUnblock(waiters[0]);
      }
      semas := semas[k := semas[k].(value := semas[k].value + 1)];
    }

    /** thread_yield. */
    method ThreadYield()
      requires Inv(Value()) && Enabled(Value(), Yield)
      modifies this
      ensures Value() == Apply(old(Value()), Yield) && Inv(Value())
    {
      LeavePrepares(Value(), Yield);
      if current != idle {
        ThreadEnqueue(current);
      }
      threads := threads[current := threads[current].(status := Ready)];
      DoSchedule();
    }

    /** thread_block in the idle thread's loop. */
    method IdleSleep()
      requires Inv(Value()) && Enabled(Value(), IdleBlock)
      modifies this
      ensures Value() == Apply(old(Value()), IdleBlock) && Inv(Value())
    {
      LeavePrepares(Value(), IdleBlock);
      threads := threads[current := threads[current].(status := Blocked)];
      DoSchedule();
    }

    /** thread_exit. */
    method ThreadExit()
      requires Inv(Value()) && Enabled(Value(), Exit)
      modifies this
      ensures Value() == Apply(old(Value()), Exit) && Inv(Value())
    {
      LeavePrepares(Value(), Exit);
      threads := threads[current := threads[current].(status := Dying)];
      DoSchedule();
    }

    /** thread_create, once a page has been obtained. */
    method ThreadCreate() returns (t: Tid)
      requires Inv(Value()) && Enabled(Value(), Create)
      modifies this
      ensures Value() == Apply(old(Value()), Create) && Inv(Value()) && t == old(|threads|)
    {
      CreateKeeps(Value());
      t := |threads|;
      threads := threads + [Thread(Blocked, Normal)];
      ThreadUnblock(t);
    }
  }
}
