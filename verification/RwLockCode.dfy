/**
 The same lock as updates of shared variables, one method for each atomic section.
 Every method computes the corresponding step of the thread system, so what is
 proved of all runs there holds of these updates.
 */
module RwLockCode {
  import opened RwLock

  class Shared {
    var pcs: seq<Pc>
    var guard: nat
    var guardWaiters: seq<Thread>
    var AR: int
    var WR: int
    var AW: int
    var WW: int
    var readers: seq<Thread>
    var writers: seq<Thread>
    var signals: seq<nat>

    function Value(): State
      reads this
    {
      State(pcs, guard, guardWaiters, AR, WR, AW, WW, readers, writers, signals)
    }

    /** rw_lock_init, with n threads that have not called anything yet. */
    constructor (n: nat)
      ensures Init(Value()) && |pcs| == n && Inv(Value())
    {
      pcs := seq(n, _ => Outside);
      signals := seq(n, _ => 0);
      guard, guardWaiters := 1, [];
      AR, WR, AW, WW := 0, 0, 0, 0;
      readers, writers := [], [];
      new;
      InitHolds(Value());
    }

    // sema_up on w's private semaphore.
    method SemaUp(w: Thread)
      requires w < |pcs| == |signals|
      modifies this
      ensures Value() == Wake(old(Value()), w)
    {
      if pcs[w].SignalWait? {
        pcs := pcs[w := AtSignal(pcs[w].reader)];
      }
      signals := signals[w := signals[w] + 1];
    }

    /** cond_signal on the writers' condition. */
    method SignalWriters()
      requires Core(Value())
      modifies this
      ensures Value() == SignalWriter(old(Value()))
    {
      if writers != [] {
        var w := writers[0];
        writers := writers[1..];
        SemaUp(w);
      }
    }

    /** cond_broadcast on the readers' condition. */
    method BroadcastToReaders()
      requires Core(Value())
      modifies this
      ensures Value() == BroadcastReaders(old(Value()))
      ensures readers == [] && writers == old(writers)
    {
      while readers != []
        invariant Core(Value()) && writers == old(writers)
        invariant BroadcastReaders(Value()) == BroadcastReaders(old(Value()))
        decreases |readers|
      {
        ghost var before := Value();
        var w := readers[0];
        readers := readers[1..];
        SemaUp(w);
        WakeKeeps(before, Value(), w);
        WakeQueue(before, w, true);
      }
    }

    /** One test of the wait loop of rw_lock_acquire: enqueue and sleep, or go in. */
    method LoopTest(t: Thread, reader: bool)
      requires t < |pcs| == |signals|
      modifies this
      ensures Value() == TryEnter(old(Value()), t, reader)
    {
      if reader {
        if AW + WW > 0 {
          WR := WR + 1;
          signals := signals[t := 0];
          readers := readers + [t];
          pcs := pcs[t := Leaving(ToSleep(true))];
        } else {
          AR := AR + 1;
          pcs := pcs[t := Leaving(ToActive(true))];
        }
      } else {
        if AR + AW > 0 {
          WW := WW + 1;
          signals := signals[t := 0];
          writers := writers + [t];
          pcs := pcs[t := Leaving(ToSleep(false))];
        } else {
          AW := AW + 1;
          pcs := pcs[t := Leaving(ToActive(false))];
        }
      }
    }

    /** rw_lock_acquire while it owns the guard, from its start or from the return of cond_wait. */
    method AcquireSection(t: Thread, reader: bool, resumed: bool)
      requires t < |pcs| == |signals|
      requires pcs[t] == Holding(if resumed then Resume(reader) else Enter(reader))
      modifies this
      ensures Value() == Body(old(Value()), t)
    {
      if resumed {
        if reader { WR := WR - 1; } else { WW := WW - 1; }
      }
      LoopTest(t, reader);
    }

    /** rw_lock_release while it owns the guard. */
    method ReleaseSection(t: Thread, reader: bool)
      requires t < |pcs| == |signals| && pcs[t] == Holding(Exit(reader))
      requires Core(Retire(Value(), t, reader))
      modifies this
      ensures Value() == Body(old(Value()), t)
    {
      pcs := pcs[t := Leaving(ToOutside)];
      if reader {
        AR := AR - 1;
        assert Value() == Retire(old(Value()), t, reader);
        if AR == 0 && WW > 0 {
          SignalWriters();
        }
      } else {
        AW := AW - 1;
        assert Value() == Retire(old(Value()), t, reader);
        if WW > 0 {
          SignalWriters();
        } else if WR > 0 {
          BroadcastToReaders();
        }
      }
    }

    /** One test of the guard's semaphore in sema_down: take it or block. */
    method SemaDownGuard(t: Thread)
      requires t < |pcs| == |signals| && pcs[t].AtGuard?
      modifies this
      ensures Value() == Apply(old(Value()), Act(t))
    {
      var task := pcs[t].task;
      if guard == 0 {
        guardWaiters := guardWaiters + [t];
        pcs := pcs[t := GuardWait(task)];
      } else {
        guard := guard - 1;
        pcs := pcs[t := Holding(task)];
      }
    }

    /** sema_up on the guard. */
    method SemaUpGuard(t: Thread)
      requires t < |pcs| == |signals| && pcs[t].Leaving?
      modifies this
      ensures Value() == Apply(old(Value()), Act(t))
    {
      var next := pcs[t].next;
      if guardWaiters != [] {
        pcs := Unblock(pcs, guardWaiters[0]);
        guardWaiters := guardWaiters[1..];
      }
      guard := guard + 1;
      match next
      case ToSleep(reader) => pcs := pcs[t := AtSignal(reader)];
      case ToActive(reader) => pcs := pcs[t := Active(reader)];
      case ToOutside => pcs := pcs[t := Outside];
    }

    /** One test of t's private semaphore in cond_wait: go on or block. */
    method SemaDownSignal(t: Thread)
      requires t < |pcs| == |signals| && pcs[t].AtSignal?
      modifies this
      ensures Value() == Apply(old(Value()), Act(t))
    {
      var reader := pcs[t].reader;
      if signals[t] == 0 {
        pcs := pcs[t := SignalWait(reader)];
      } else {
        signals := signals[t := signals[t] - 1];
        pcs := pcs[t := AtGuard(Resume(reader))];
      }
    }

    /** Whatever thread acts next, the shared variables take the step of the thread system. */
    method Perform(e: Event)
      requires Inv(Value()) && Enabled(Value(), e)
      modifies this
      ensures Value() == Apply(old(Value()), e) && Inv(Value())
    {
      StepKeeps(Value(), e);
      var t := e.t;
      match e
      case Call(_, reader) => pcs := pcs[t := AtGuard(Enter(reader))];
      case Return(_) => pcs := pcs[t := AtGuard(Exit(pcs[t].reader))];
      case Act(_) =>
        match pcs[t]
        case AtGuard(_) => SemaDownGuard(t);
        case AtSignal(_) => SemaDownSignal(t);
        case Leaving(_) => SemaUpGuard(t);
        case Holding(Enter(reader)) => AcquireSection(t, reader, false);
        case Holding(Resume(reader)) => AcquireSection(t, reader, true);
        case Holding(Exit(reader)) =>
          RetireKeeps(Value(), t, reader);
          ReleaseSection(t, reader);
    }
  }
}
