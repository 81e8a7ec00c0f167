/**
 The writer-preferring readers-writers lock over Mesa condition variables, as a
 system of interleaved threads.

 A step is what one thread does between two points where others can run: one
 interrupts-off section of a semaphore, or the section during which it owns the
 guard lock. Blocking, waking and re-testing are separate steps, so every race
 between testing a semaphore and going to sleep is in the model.
 */
module RwLock {

  type Thread = nat

  /** What a thread wants the guard lock for. */
  datatype Task =
    | Enter(reader: bool)   // rw_lock_acquire, first test
    | Resume(reader: bool)  // rw_lock_acquire, after cond_wait returned
    | Exit(reader: bool)    // rw_lock_release

  /** Where a thread goes after giving the guard up. */
  datatype Next = ToSleep(reader: bool) | ToActive(reader: bool) | ToOutside

  datatype Pc =
    | Outside                    // in no call and holding nothing
    | Active(reader: bool)       // between acquire and release
    | AtGuard(task: Task)        // in sema_down on the guard, about to test its value
    | GuardWait(task: Task)      // blocked on the guard
    | Holding(task: Task)        // owns the guard, body not yet run
    | Leaving(next: Next)        // body run, about to release the guard
    | AtSignal(reader: bool)     // in cond_wait, about to test its private semaphore
    | SignalWait(reader: bool)   // blocked on its private semaphore

  datatype State = State(
    pcs: seq<Pc>,
    guard: nat, guardWaiters: seq<Thread>,        // the guard's semaphore
    AR: int, WR: int, AW: int, WW: int,           // unsigned in C; never negative, see CountInv
    readers: seq<Thread>, writers: seq<Thread>,   // waiters of the two condition variables
    signals: seq<nat>)                            // value of each thread's private semaphore

  datatype Event = Call(t: Thread, reader: bool) | Return(t: Thread) | Act(t: Thread)

  /* ----- the steps ----- */

  predicate Init(s: State) {
    && (forall t | 0 <= t < |s.pcs| :: s.pcs[t] == Outside)
    && s.guard == 1 && s.guardWaiters == []
    && s.AR == s.WR == s.AW == s.WW == 0
    && s.readers == s.writers == [] && |s.signals| == |s.pcs|
  }

  // A blocked thread cannot act; a client chooses when to call acquire and when to call release.
  predicate Enabled(s: State, e: Event) {
    && e.t < |s.pcs| == |s.signals|
    && match e
       case Call(t, reader) => s.pcs[t] == Outside
       case Return(t) => s.pcs[t].Active?
       case Act(t) => s.pcs[t].AtGuard? || s.pcs[t].Holding? || s.pcs[t].Leaving? || s.pcs[t].AtSignal?
  }

  // sema_up on the private semaphore of one popped waiter. (Queued threads always exist, see Queue.)
  function Wake(s: State, w: Thread): (r: State)
    ensures |r.pcs| == |s.pcs| && |r.signals| == |s.signals|
  {
    if w < |s.pcs| && w < |s.signals| then
      s.(signals := s.signals[w := s.signals[w] + 1],
         pcs := if s.pcs[w].SignalWait? then s.pcs[w := AtSignal(s.pcs[w].reader)] else s.pcs)
    else s
  }

  // cond_signal on the writers' condition.
  function SignalWriter(s: State): (r: State)
    ensures |r.pcs| == |s.pcs| && |r.signals| == |s.signals|
  {
    if s.writers == [] then s else Wake(s.(writers := s.writers[1..]), s.writers[0])
  }

  // cond_broadcast on the readers' condition.
  function BroadcastReaders(s: State): (r: State)
    ensures |r.pcs| == |s.pcs| && |r.signals| == |s.signals|
    decreases |s.readers|
  {
    if s.readers == [] then s else BroadcastReaders(Wake(s.(readers := s.readers[1..]), s.readers[0]))
  }

  // The loop test of rw_lock_acquire: wait, or go in.
  function TryEnter(s: State, t: Thread, reader: bool): State
    requires t < |s.pcs| == |s.signals|
  {
    if reader then
      if s.AW + s.WW > 0 then
        s.(WR := s.WR + 1, readers := s.readers + [t], signals := s.signals[t := 0], pcs := s.pcs[t := Leaving(ToSleep(true))])
      else
        s.(AR := s.AR + 1, pcs := s.pcs[t := Leaving(ToActive(true))])
    else
      if s.AR + s.AW > 0 then
        s.(WW := s.WW + 1, writers := s.writers + [t], signals := s.signals[t := 0], pcs := s.pcs[t := Leaving(ToSleep(false))])
      else
        s.(AW := s.AW + 1, pcs := s.pcs[t := Leaving(ToActive(false))])
  }

  // rw_lock_release up to, and without, the wakeups.
  function Retire(s: State, t: Thread, reader: bool): State
    requires t < |s.pcs|
  {
    var pcs := s.pcs[t := Leaving(ToOutside)];
    if reader then s.(AR := s.AR - 1, pcs := pcs) else s.(AW := s.AW - 1, pcs := pcs)
  }

  // What a thread does while it owns the guard.
  function Body(s: State, t: Thread): (r: State)
    requires t < |s.pcs| == |s.signals| && s.pcs[t].Holding?
    ensures |r.pcs| == |s.pcs| && |r.signals| == |s.signals|
  {
    match s.pcs[t].task
    case Enter(reader) => TryEnter(s, t, reader)
    case Resume(reader) =>
      TryEnter(if reader then s.(WR := s.WR - 1) else s.(WW := s.WW - 1), t, reader)
    case Exit(reader) =>
      var r := Retire(s, t, reader);
      if reader then if r.AR == 0 && r.WW > 0 then SignalWriter(r) else r
      else if r.WW > 0 then SignalWriter(r)
      else if r.WR > 0 then BroadcastReaders(r)
      else r
  }

  // lock_release: wake one thread blocked on the guard, if any, and give the guard up.
  function ReleaseGuard(s: State, t: Thread, p: Pc): State
    requires t < |s.pcs|
  {
    var woken := if s.guardWaiters == [] then s.pcs else Unblock(s.pcs, s.guardWaiters[0]);
    s.(guard := s.guard + 1,
       guardWaiters := if s.guardWaiters == [] then [] else s.guardWaiters[1..],
       pcs := woken[t := p])
  }

  function Unblock(pcs: seq<Pc>, g: Thread): (r: seq<Pc>)
    ensures |r| == |pcs|
  {
    if g < |pcs| && pcs[g].GuardWait? then pcs[g := AtGuard(pcs[g].task)] else pcs
  }

  function Apply(s: State, e: Event): (r: State)
    requires Enabled(s, e)
    ensures |r.pcs| == |s.pcs| && |r.signals| == |s.signals|
  {
    var t := e.t;
    match e
    case Call(_, reader) => s.(pcs := s.pcs[t := AtGuard(Enter(reader))])
    case Return(_) => s.(pcs := s.pcs[t := AtGuard(Exit(s.pcs[t].reader))])
    case Act(_) =>
      match s.pcs[t]
      case AtGuard(task) =>
        if s.guard == 0 then s.(guardWaiters := s.guardWaiters + [t], pcs := s.pcs[t := GuardWait(task)])
        else s.(guard := s.guard - 1, pcs := s.pcs[t := Holding(task)])
      case Holding(task) => Body(s, t)
      case Leaving(next) =>
        ReleaseGuard(s, t, match next case ToSleep(reader) => AtSignal(reader) case ToActive(reader) => Active(reader) case ToOutside => Outside)
      case AtSignal(reader) =>
        if s.signals[t] == 0 then s.(pcs := s.pcs[t := SignalWait(reader)])
        else s.(signals := s.signals[t := s.signals[t] - 1], pcs := s.pcs[t := AtGuard(Resume(reader))])
      case _ => s
  }

  /* ----- counting threads ----- */

  datatype Kind = Reading | Writing | WaitingReader | WaitingWriter | Owner

  // Which threads the four counters stand for, and which own the guard.
  predicate Is(p: Pc, k: Kind) {
    match k
    case Reading => InsideLock(p, true)
    case Writing => InsideLock(p, false)
    case WaitingReader => Waiting(p, true)
    case WaitingWriter => Waiting(p, false)
    case Owner => p.Holding? || p.Leaving?
  }

  // Admitted and not yet retired.
  predicate InsideLock(p: Pc, reader: bool) {
    match p
    case Active(r) => r == reader
    case AtGuard(task) => task == Exit(reader)
    case GuardWait(task) => task == Exit(reader)
    case Holding(task) => task == Exit(reader)
    case Leaving(next) => next == ToActive(reader)
    case _ => false
  }

  // Between its first failed test and its next test.
  predicate Waiting(p: Pc, reader: bool) {
    match p
    case AtGuard(task) => task == Resume(reader)
    case GuardWait(task) => task == Resume(reader)
    case Holding(task) => task == Resume(reader)
    case _ => Sleeping(p, reader)
  }

  // Waiting, and still inside cond_wait's wait for the signal.
  predicate Sleeping(p: Pc, reader: bool) {
    match p
    case Leaving(next) => next == ToSleep(reader)
    case AtSignal(r) => r == reader
    case SignalWait(r) => r == reader
    case _ => false
  }

  function Count(pcs: seq<Pc>, k: Kind): nat {
    if pcs == [] then 0 else (if Is(pcs[0], k) then 1 else 0) + Count(pcs[1..], k)
  }

  lemma {:induction false} CountUpdate(pcs: seq<Pc>, t: nat, p: Pc, k: Kind)
    requires t < |pcs|
    ensures Count(pcs[t := p], k) == Count(pcs, k) - (if Is(pcs[t], k) then 1 else 0) + (if Is(p, k) then 1 else 0)
  {
    if t == 0 {
      assert pcs[t := p][1..] == pcs[1..];
    } else {
      CountUpdate(pcs[1..], t - 1, p, k);
      assert pcs[t := p][1..] == pcs[1..][t - 1 := p];
    }
  }

  lemma {:induction false} CountPositive(pcs: seq<Pc>, t: nat, k: Kind)
    requires t < |pcs| && Is(pcs[t], k)
    ensures Count(pcs, k) > 0
  {
    if t > 0 {
      CountPositive(pcs[1..], t - 1, k);
    }
  }

  lemma {:induction false} CountWitness(pcs: seq<Pc>, k: Kind) returns (t: nat)
    requires Count(pcs, k) > 0
    ensures t < |pcs| && Is(pcs[t], k)
  {
    if Is(pcs[0], k) {
      t := 0;
    } else {
      t := CountWitness(pcs[1..], k);
      t := t + 1;
    }
  }

  lemma {:induction false} CountTwo(pcs: seq<Pc>, t: nat, u: nat, k: Kind)
    requires t < u < |pcs| && Is(pcs[t], k) && Is(pcs[u], k)
    ensures Count(pcs, k) >= 2
  {
    if t == 0 {
      CountPositive(pcs[1..], u - 1, k);
    } else {
      CountTwo(pcs[1..], t - 1, u - 1, k);
    }
  }

  /* ----- the invariant ----- */

  predicate Distinct(q: seq<Thread>) {
    forall i, j | 0 <= i < j < |q| :: q[i] != q[j]
  }

  // The guard is a lock: free, or owned by exactly one thread.
  predicate GuardInv(s: State) {
    && s.guard + Count(s.pcs, Owner) == 1
    && Distinct(s.guardWaiters)
    && (forall i | 0 <= i < |s.guardWaiters| :: s.guardWaiters[i] < |s.pcs| && s.pcs[s.guardWaiters[i]].GuardWait?)
    && (forall t | 0 <= t < |s.pcs| :: s.pcs[t].GuardWait? ==> t in s.guardWaiters)
    && (s.guard == 1 && s.guardWaiters != [] ==> exists t | 0 <= t < |s.pcs| :: s.pcs[t].AtGuard?)
  }

  predicate CountInv(s: State) {
    && s.AR == Count(s.pcs, Reading) && s.AW == Count(s.pcs, Writing)
    && s.WR == Count(s.pcs, WaitingReader) && s.WW == Count(s.pcs, WaitingWriter)
  }

  // A condition's list holds exactly the sleeping threads that have not been signalled.
  predicate Queue(q: seq<Thread>, reader: bool, pcs: seq<Pc>, signals: seq<nat>)
    requires |pcs| == |signals|
  {
    && Distinct(q)
    && (forall i | 0 <= i < |q| :: q[i] < |pcs| && Sleeping(pcs[q[i]], reader) && signals[q[i]] == 0)
    && (forall t | 0 <= t < |pcs| :: Sleeping(pcs[t], reader) && t !in q ==> signals[t] == 1 && !pcs[t].SignalWait?)
  }

  predicate QueueInv(s: State) {
    && |s.signals| == |s.pcs|
    && Queue(s.readers, true, s.pcs, s.signals)
    && Queue(s.writers, false, s.pcs, s.signals)
  }

  predicate Exclusive(s: State) {
    s.AW <= 1 && (s.AW == 1 ==> s.AR == 0)
  }

  // A writer that has been signalled and has not tested again yet.
  predicate SignalledWriter(s: State, t: Thread) {
    t < |s.pcs| && Waiting(s.pcs[t], false) && t !in s.writers
  }

  predicate WakeupInv(s: State) {
    && (s.readers != [] ==> s.AW + s.WW > 0)
    && (s.writers != [] ==> s.AR + s.AW > 0 || exists t | 0 <= t < |s.pcs| :: SignalledWriter(s, t))
  }

  predicate Inv(s: State) {
    GuardInv(s) && CountInv(s) && QueueInv(s) && Exclusive(s) && WakeupInv(s)
  }

  // Everything except what makes wakeups arrive.
  predicate Core(s: State) {
    GuardInv(s) && CountInv(s) && QueueInv(s) && Exclusive(s)
  }

  // One thread moves on: what happens to the five counts.
  lemma CountsUpdate(pcs: seq<Pc>, t: nat, p: Pc)
    requires t < |pcs|
    ensures var q := pcs[t := p];
            && Count(q, Reading) == Count(pcs, Reading) - (if InsideLock(pcs[t], true) then 1 else 0) + (if InsideLock(p, true) then 1 else 0)
            && Count(q, Writing) == Count(pcs, Writing) - (if InsideLock(pcs[t], false) then 1 else 0) + (if InsideLock(p, false) then 1 else 0)
            && Count(q, WaitingReader) == Count(pcs, WaitingReader) - (if Waiting(pcs[t], true) then 1 else 0) + (if Waiting(p, true) then 1 else 0)
            && Count(q, WaitingWriter) == Count(pcs, WaitingWriter) - (if Waiting(pcs[t], false) then 1 else 0) + (if Waiting(p, false) then 1 else 0)
            && Count(q, Owner) == Count(pcs, Owner) - (if Is(pcs[t], Owner) then 1 else 0) + (if Is(p, Owner) then 1 else 0)
  {
    CountUpdate(pcs, t, p, Reading);
    CountUpdate(pcs, t, p, Writing);
    CountUpdate(pcs, t, p, WaitingReader);
    CountUpdate(pcs, t, p, WaitingWriter);
    CountUpdate(pcs, t, p, Owner);
  }

  // The owner of the guard is the only one, and the guard is taken.
  lemma OwnerUnique(s: State, t: Thread)
    requires GuardInv(s) && t < |s.pcs| && Is(s.pcs[t], Owner)
    ensures s.guard == 0
    ensures forall u | 0 <= u < |s.pcs| && u != t :: !Is(s.pcs[u], Owner)
  {
    CountPositive(s.pcs, t, Owner);
    forall u | 0 <= u < |s.pcs| && u != t
      ensures !Is(s.pcs[u], Owner)
    {
      if Is(s.pcs[u], Owner) {
        CountTwo(s.pcs, if t < u then t else u, if t < u then u else t, Owner);
      }
    }
  }

  function Bit(b: bool): nat { if b then 1 else 0 }

  // The four counters follow the one thread that moves.
  lemma CountFrame(s: State, s': State, t: Thread)
    requires CountInv(s) && t < |s.pcs| && |s'.pcs| == |s.pcs|
    requires s'.pcs == s.pcs[t := s'.pcs[t]]
    requires s'.AR == s.AR - Bit(InsideLock(s.pcs[t], true)) + Bit(InsideLock(s'.pcs[t], true))
    requires s'.AW == s.AW - Bit(InsideLock(s.pcs[t], false)) + Bit(InsideLock(s'.pcs[t], false))
    requires s'.WR == s.WR - Bit(Waiting(s.pcs[t], true)) + Bit(Waiting(s'.pcs[t], true))
    requires s'.WW == s.WW - Bit(Waiting(s.pcs[t], false)) + Bit(Waiting(s'.pcs[t], false))
    ensures CountInv(s')
  {
    CountsUpdate(s.pcs, t, s'.pcs[t]);
  }

  // Threads other than t stay where they are; t neither starts nor stops being asleep unsignalled.
  lemma QueueFrame(s: State, s': State, t: Thread)
    requires QueueInv(s) && t < |s.pcs| && |s'.pcs| == |s.pcs| == |s'.signals|
    requires s'.readers == s.readers && s'.writers == s.writers
    requires forall u | 0 <= u < |s.pcs| && u != t :: s'.pcs[u] == s.pcs[u] && s'.signals[u] == s.signals[u]
    requires t in s.readers ==> Sleeping(s'.pcs[t], true) && s'.signals[t] == 0
    requires t in s.writers ==> Sleeping(s'.pcs[t], false) && s'.signals[t] == 0
    requires Sleeping(s'.pcs[t], true) && t !in s.readers ==> s'.signals[t] == 1 && !s'.pcs[t].SignalWait?
    requires Sleeping(s'.pcs[t], false) && t !in s.writers ==> s'.signals[t] == 1 && !s'.pcs[t].SignalWait?
    ensures QueueInv(s')
  {
    OneQueue(s.readers, true, s.pcs, s.signals, s'.pcs, s'.signals, t);
    OneQueue(s.writers, false, s.pcs, s.signals, s'.pcs, s'.signals, t);
  }

  lemma OneQueue(q: seq<Thread>, reader: bool, pcs: seq<Pc>, signals: seq<nat>, pcs': seq<Pc>, signals': seq<nat>, t: Thread)
    requires |pcs| == |signals| == |pcs'| == |signals'| && Queue(q, reader, pcs, signals) && t < |pcs|
    requires forall u | 0 <= u < |pcs| && u != t :: pcs'[u] == pcs[u] && signals'[u] == signals[u]
    requires t in q ==> Sleeping(pcs'[t], reader) && signals'[t] == 0
    requires Sleeping(pcs'[t], reader) && t !in q ==> signals'[t] == 1 && !pcs'[t].SignalWait?
    ensures Queue(q, reader, pcs', signals')
  {
  }

  // Nothing changed for the waiting threads, except that some moved on without testing again.
  lemma WakeFrame(s: State, s': State)
    requires WakeupInv(s) && |s'.pcs| == |s.pcs|
    requires s'.readers == s.readers && s'.writers == s.writers
    requires s'.AR == s.AR && s'.AW == s.AW && s'.WW == s.WW
    requires forall u | 0 <= u < |s.pcs| :: Waiting(s.pcs[u], false) ==> Waiting(s'.pcs[u], false)
    ensures WakeupInv(s')
  {
    if t :| 0 <= t < |s.pcs| && SignalledWriter(s, t) {
      assert SignalledWriter(s', t);
    }
  }

  // A queued thread is asleep.
  lemma QueuedSleeps(s: State, t: Thread)
    requires QueueInv(s) && t < |s.pcs|
    ensures t in s.readers ==> Sleeping(s.pcs[t], true) && s.signals[t] == 0
    ensures t in s.writers ==> Sleeping(s.pcs[t], false) && s.signals[t] == 0
  {
  }

  // Steps that leave the guard's semaphore alone: t owns the guard before and after, or neither.
  lemma GuardFrame(s: State, s': State, t: Thread)
    requires GuardInv(s) && t < |s.pcs| && |s'.pcs| == |s.pcs|
    requires s'.pcs == s.pcs[t := s'.pcs[t]]
    requires s'.guard == s.guard && s'.guardWaiters == s.guardWaiters
    requires Is(s.pcs[t], Owner) == Is(s'.pcs[t], Owner)
    requires !s.pcs[t].GuardWait? && !s'.pcs[t].GuardWait? && (s.pcs[t].AtGuard? ==> s'.pcs[t].AtGuard?)
    ensures GuardInv(s')
  {
    CountsUpdate(s.pcs, t, s'.pcs[t]);
    if u :| 0 <= u < |s.pcs| && s.pcs[u].AtGuard? {
      assert s'.pcs[u].AtGuard?;
    }
  }

  // A client calls acquire or release.
  lemma CallKeeps(s: State, e: Event)
    requires Inv(s) && Enabled(s, e) && !e.Act?
    ensures Inv(Apply(s, e))
  {
    var s', t := Apply(s, e), e.t;
    QueuedSleeps(s, t);
    QueueFrame(s, s', t);
    CountFrame(s, s', t);
    WakeFrame(s, s');
    GuardFrame(s, s', t);
  }

  // A thread in cond_wait tests its private semaphore.
  lemma SignalTestKeeps(s: State, t: Thread)
    requires Inv(s) && t < |s.pcs| && s.pcs[t].AtSignal?
    ensures Inv(Apply(s, Act(t)))
  {
    var s' := Apply(s, Act(t));
    QueuedSleeps(s, t);
    QueueFrame(s, s', t);
    CountFrame(s, s', t);
    WakeFrame(s, s');
    GuardFrame(s, s', t);
  }

  // A thread tests the guard's semaphore.
  lemma GuardTestKeeps(s: State, t: Thread)
    requires Inv(s) && t < |s.pcs| && s.pcs[t].AtGuard?
    ensures Inv(Apply(s, Act(t)))
  {
    var s' := Apply(s, Act(t));
    QueuedSleeps(s, t);
    QueueFrame(s, s', t);
    CountFrame(s, s', t);
    WakeFrame(s, s');
    GuardTaken(s, t);
  }

  lemma GuardTaken(s: State, t: Thread)
    requires Inv(s) && t < |s.pcs| && s.pcs[t].AtGuard?
    ensures GuardInv(Apply(s, Act(t)))
  {
    var s' := Apply(s, Act(t));
    CountsUpdate(s.pcs, t, s'.pcs[t]);
    assert t !in s.guardWaiters;
  }

  // The owner releases the guard.
  lemma LeaveKeeps(s: State, t: Thread)
    requires Inv(s) && t < |s.pcs| && s.pcs[t].Leaving?
    ensures Inv(Apply(s, Act(t)))
  {
    var s' := Apply(s, Act(t));
    var mid := WokenOnGuard(s);
    QueuedSleeps(mid, t);
    QueueFrame(mid, s', t);
    CountFrame(mid, s', t);
    WakeFrame(s, s');
    LeaveGuard(s, t);
  }

  // The first thread blocked on the guard becomes ready to test it again.
  lemma WokenOnGuard(s: State) returns (mid: State)
    requires Inv(s)
    ensures mid == if s.guardWaiters == [] then s else s.(pcs := s.pcs[s.guardWaiters[0] := AtGuard(s.pcs[s.guardWaiters[0]].task)])
    ensures QueueInv(mid) && CountInv(mid)
  {
    mid := s;
    if s.guardWaiters != [] {
      var g := s.guardWaiters[0];
      mid := s.(pcs := s.pcs[g := AtGuard(s.pcs[g].task)]);
      QueuedSleeps(s, g);
      QueueFrame(s, mid, g);
      CountFrame(s, mid, g);
    }
  }

  lemma LeaveGuard(s: State, t: Thread)
    requires Inv(s) && t < |s.pcs| && s.pcs[t].Leaving?
    ensures GuardInv(Apply(s, Act(t)))
  {
    var s' := Apply(s, Act(t));
    OwnerUnique(s, t);
    if s.guardWaiters == [] {
      CountsUpdate(s.pcs, t, s'.pcs[t]);
    } else {
      var g := s.guardWaiters[0];
      var mid := s.pcs[g := AtGuard(s.pcs[g].task)];
      CountsUpdate(s.pcs, g, mid[g]);
      CountsUpdate(mid, t, s'.pcs[t]);
      assert s'.pcs[g].AtGuard?;
      forall u | 0 <= u < |s.pcs| && s'.pcs[u].GuardWait?
        ensures u in s'.guardWaiters
      {
        assert u in s.guardWaiters;
      }
    }
  }

  // Threads on a condition's list are counted.
  lemma QueuedCounted(s: State)
    requires Inv(s)
    ensures s.readers != [] ==> s.WR > 0
    ensures s.writers != [] ==> s.WW > 0
  {
    if s.readers != [] { CountPositive(s.pcs, s.readers[0], WaitingReader); }
    if s.writers != [] { CountPositive(s.pcs, s.writers[0], WaitingWriter); }
  }

  // A thread that owns the guard runs the loop test of rw_lock_acquire.
  lemma EnterKeeps(s: State, t: Thread, reader: bool)
    requires Inv(s) && t < |s.pcs| && (s.pcs[t] == Holding(Enter(reader)) || s.pcs[t] == Holding(Resume(reader)))
    ensures Inv(Body(s, t))
  {
    hide GuardInv, QueueInv, WakeupInv, CountInv;
    EnterCounts(s, t, reader);
    EnterQueue(s, t, reader);
    EnterWakeup(s, t, reader);
  }

  lemma EnterCounts(s: State, t: Thread, reader: bool)
    requires Inv(s) && t < |s.pcs| && (s.pcs[t] == Holding(Enter(reader)) || s.pcs[t] == Holding(Resume(reader)))
    ensures CountInv(Body(s, t)) && Exclusive(Body(s, t)) && GuardInv(Body(s, t))
  {
    hide Queue, WakeupInv;
    var s' := Body(s, t);
    if s.pcs[t].task.Resume? {
      CountPositive(s.pcs, t, if reader then WaitingReader else WaitingWriter);
    }
    CountFrame(s, s', t);
    GuardFrame(s, s', t);
  }

  // A running thread joins a queue: it goes to sleep with its semaphore at zero.
  lemma JoinQueue(q: seq<Thread>, reader: bool, pcs: seq<Pc>, signals: seq<nat>, t: Thread)
    requires |pcs| == |signals| && Queue(q, reader, pcs, signals) && t < |pcs| && t !in q
    ensures Queue(q + [t], reader, pcs[t := Leaving(ToSleep(reader))], signals[t := 0])
  {
    var q' := q + [t];
    forall u | 0 <= u < |pcs|
      ensures u in q' <==> u in q || u == t
    {}
  }

  lemma EnterQueue(s: State, t: Thread, reader: bool)
    requires Inv(s) && t < |s.pcs| && (s.pcs[t] == Holding(Enter(reader)) || s.pcs[t] == Holding(Resume(reader)))
    ensures QueueInv(Body(s, t))
  {
    var s' := Body(s, t);
    QueuedSleeps(s, t);
    if s'.pcs[t] == Leaving(ToSleep(reader)) {
      JoinQueue(if reader then s.readers else s.writers, reader, s.pcs, s.signals, t);
      OneQueue(if reader then s.writers else s.readers, !reader, s.pcs, s.signals, s'.pcs, s'.signals, t);
    } else {
      QueueFrame(s, s', t);
    }
  }

  lemma EnterWakeup(s: State, t: Thread, reader: bool)
    requires Inv(s) && t < |s.pcs| && (s.pcs[t] == Holding(Enter(reader)) || s.pcs[t] == Holding(Resume(reader)))
    ensures WakeupInv(Body(s, t))
  {
    var s' := Body(s, t);
    QueuedCounted(s);
    if reader && s.writers != [] && s.AR + s.AW == 0 {
      var u :| 0 <= u < |s.pcs| && SignalledWriter(s, u);
      assert SignalledWriter(s', u);
    }
  }

  // sema_up on the semaphore of the first unsignalled writer.
  lemma SignalKeeps(s: State)
    requires Core(s)
    ensures var r := SignalWriter(s);
            && Core(r)
            && r.AR == s.AR && r.AW == s.AW && r.WR == s.WR && r.WW == s.WW && r.readers == s.readers
            && (r.writers != [] ==> exists t | 0 <= t < |r.pcs| :: SignalledWriter(r, t))
  {
    if s.writers != [] {
      var w := s.writers[0];
      var r := SignalWriter(s);
      WakeKeeps(s, r, w);
      assert w !in r.writers;
      assert SignalledWriter(r, w);
      WakeQueue(s, w, false);
    }
  }

  lemma {:induction false} BroadcastKeeps(s: State)
    requires Core(s)
    ensures var r := BroadcastReaders(s);
            && Core(r)
            && r.AR == s.AR && r.AW == s.AW && r.WR == s.WR && r.WW == s.WW && r.writers == s.writers && r.readers == []
    decreases |s.readers|
  {
    if s.readers != [] {
      var w := s.readers[0];
      var r := Wake(s.(readers := s.readers[1..]), w);
      WakeKeeps(s, r, w);
      WakeQueue(s, w, true);
      BroadcastKeeps(r);
    }
  }

  // Waking a sleeping thread changes no count and leaves the guard alone.
  lemma WakeKeeps(s: State, r: State, w: Thread)
    requires Core(s) && w < |s.pcs| && (Sleeping(s.pcs[w], true) || Sleeping(s.pcs[w], false))
    requires r == Wake(s.(readers := r.readers, writers := r.writers), w)
    ensures CountInv(r) && GuardInv(r)
  {
    CountFrame(s, r, w);
    GuardFrame(s, r, w);
  }

  lemma WakeQueue(s: State, w: Thread, reader: bool)
    requires Core(s) && (if reader then s.readers else s.writers) != []
    requires w == (if reader then s.readers else s.writers)[0]
    ensures QueueInv(Wake(if reader then s.(readers := s.readers[1..]) else s.(writers := s.writers[1..]), w))
  {
    var s' := Wake(if reader then s.(readers := s.readers[1..]) else s.(writers := s.writers[1..]), w);
    QueuedSleeps(s, w);
    LeaveQueue(if reader then s.readers else s.writers, reader, s.pcs, s.signals, s'.pcs, s'.signals);
    OneQueue(if reader then s.writers else s.readers, !reader, s.pcs, s.signals, s'.pcs, s'.signals, w);
  }

  // The first thread of a queue leaves it with its semaphore raised to one.
  lemma LeaveQueue(q: seq<Thread>, reader: bool, pcs: seq<Pc>, signals: seq<nat>, pcs': seq<Pc>, signals': seq<nat>)
    requires |pcs| == |signals| == |pcs'| == |signals'| && Queue(q, reader, pcs, signals) && q != []
    requires forall u | 0 <= u < |pcs| && u != q[0] :: pcs'[u] == pcs[u] && signals'[u] == signals[u]
    requires !pcs'[q[0]].SignalWait? && signals'[q[0]] == 1
    ensures Queue(q[1..], reader, pcs', signals')
  {
    PopDistinct(q);
  }

  lemma PopDistinct(q: seq<Thread>)
    requires Distinct(q) && q != []
    ensures Distinct(q[1..]) && q[0] !in q[1..]
    ensures forall u | u != q[0] :: u in q <==> u in q[1..]
  {
    assert q == [q[0]] + q[1..];
  }

  // The owner of the guard gives the readers-writers lock back.
  lemma RetireKeeps(s: State, t: Thread, reader: bool)
    requires Inv(s) && t < |s.pcs| && s.pcs[t] == Holding(Exit(reader))
    ensures Core(Retire(s, t, reader))
  {
    CountPositive(s.pcs, t, if reader then Reading else Writing);
    var r := Retire(s, t, reader);
    QueuedSleeps(s, t);
    QueueFrame(s, r, t);
    CountFrame(s, r, t);
    GuardFrame(s, r, t);
  }

  lemma ExitKeeps(s: State, t: Thread, reader: bool)
    requires Inv(s) && t < |s.pcs| && s.pcs[t] == Holding(Exit(reader))
    ensures Inv(Body(s, t))
  {
    QueuedCounted(s);
    RetireKeeps(s, t, reader);
    var r := Retire(s, t, reader);
    SignalKeeps(r);
    BroadcastKeeps(r);
    RetireWakeup(s, r, Body(s, t), t, reader);
  }

  // The wakeups sent on release are the ones that are needed.
  lemma RetireWakeup(s: State, r: State, s': State, t: Thread, reader: bool)
    requires WakeupInv(s) && Exclusive(s) && Core(r)
    requires s.writers != [] ==> s.WW > 0
    requires s.readers != [] ==> s.WR > 0
    requires r.readers == s.readers && r.writers == s.writers && r.WW == s.WW && r.WR == s.WR
    requires if reader then r.AR == s.AR - 1 && r.AR >= 0 && r.AW == s.AW else r.AW == s.AW - 1 && r.AW >= 0 && r.AR == s.AR
    requires var up, all := SignalWriter(r), BroadcastReaders(r);
             && up.AR == r.AR && up.AW == r.AW && up.WW == r.WW && up.readers == r.readers
             && (up.writers != [] ==> exists u | 0 <= u < |up.pcs| :: SignalledWriter(up, u))
             && all.AR == r.AR && all.AW == r.AW && all.WW == r.WW && all.writers == r.writers && all.readers == []
    requires s' == if reader then if r.AR == 0 && r.WW > 0 then SignalWriter(r) else r
                   else if r.WW > 0 then SignalWriter(r) else if r.WR > 0 then BroadcastReaders(r) else r
    ensures WakeupInv(s')
  {
  }

  /** Every step of every thread keeps the invariant. */
  lemma StepKeeps(s: State, e: Event)
    requires Inv(s) && Enabled(s, e)
    ensures Inv(Apply(s, e))
  {
    var t := e.t;
    if !e.Act? {
      CallKeeps(s, e);
    } else {
      match s.pcs[t]
      case AtGuard(_) => GuardTestKeeps(s, t);
      case AtSignal(_) => SignalTestKeeps(s, t);
      case Leaving(_) => LeaveKeeps(s, t);
      case Holding(Exit(reader)) => ExitKeeps(s, t, reader);
      case Holding(Enter(reader)) => EnterKeeps(s, t, reader);
      case Holding(Resume(reader)) => EnterKeeps(s, t, reader);
    }
  }

  /* ----- runs ----- */

  ghost predicate Step(s: State, s': State) {
    exists e :: Enabled(s, e) && s' == Apply(s, e)
  }

  /** A run of the system: any interleaving of any number of threads calling acquire and release. */
  ghost predicate Run(states: seq<State>) {
    && states != [] && Init(states[0])
    && forall i | 0 <= i < |states| - 1 :: Step(states[i], states[i + 1])
  }

  lemma {:induction false} CountNone(pcs: seq<Pc>, k: Kind)
    requires forall t | 0 <= t < |pcs| :: pcs[t] == Outside
    ensures Count(pcs, k) == 0
  {
    if pcs != [] {
      CountNone(pcs[1..], k);
    }
  }

  lemma InitHolds(s: State)
    requires Init(s)
    ensures Inv(s)
  {
    CountNone(s.pcs, Reading);
    CountNone(s.pcs, Writing);
    CountNone(s.pcs, WaitingReader);
    CountNone(s.pcs, WaitingWriter);
    CountNone(s.pcs, Owner);
  }

  lemma StepHolds(s: State, s': State)
    requires Inv(s) && Step(s, s')
    ensures Inv(s')
  {
    var e :| Enabled(s, e) && s' == Apply(s, e);
    StepKeeps(s, e);
  }

  /** The invariant holds in every state of every run. */
  lemma {:induction false} RunHolds(states: seq<State>, i: nat)
    requires Run(states) && i < |states|
    ensures Inv(states[i])
  {
    if i == 0 {
      InitHolds(states[0]);
    } else {
      RunHolds(states, i - 1);
      assert Step(states[i - 1], states[i - 1 + 1]);
      StepHolds(states[i - 1], states[i]);
    }
  }

  /** Mutual exclusion: a thread inside as a writer is inside alone. */
  lemma MutualExclusion(states: seq<State>, i: nat, t: Thread, u: Thread)
    requires Run(states) && i < |states|
    requires t < |states[i].pcs| && u < |states[i].pcs| && t != u
    requires InsideLock(states[i].pcs[t], false)
    ensures !InsideLock(states[i].pcs[u], false) && !InsideLock(states[i].pcs[u], true)
  {
    var s := states[i];
    RunHolds(states, i);
    CountPositive(s.pcs, t, Writing);
    if InsideLock(s.pcs[u], false) {
      CountTwo(s.pcs, if t < u then t else u, if t < u then u else t, Writing);
    }
    if InsideLock(s.pcs[u], true) {
      CountPositive(s.pcs, u, Reading);
    }
  }

  /** No lost wakeup: while a thread waits unsignalled, some thread is inside the lock or a signalled writer is on its way. */
  lemma NoLostWakeup(states: seq<State>, i: nat, t: Thread)
    requires Run(states) && i < |states|
    requires t in states[i].readers || t in states[i].writers
    ensures exists u | 0 <= u < |states[i].pcs| ::
      InsideLock(states[i].pcs[u], true) || InsideLock(states[i].pcs[u], false) || SignalledWriter(states[i], u)
  {
    var s := states[i];
    RunHolds(states, i);
    NoLostWakeupIn(s);
  }

  lemma NoLostWakeupIn(s: State)
    requires Inv(s) && (s.readers != [] || s.writers != [])
    ensures exists u | 0 <= u < |s.pcs| ::
      InsideLock(s.pcs[u], true) || InsideLock(s.pcs[u], false) || SignalledWriter(s, u)
  {
    if s.AR > 0 {
      var u := CountWitness(s.pcs, Reading);
    } else if s.AW > 0 {
      var u := CountWitness(s.pcs, Writing);
    } else {
      if s.writers == [] {
        var u := CountWitness(s.pcs, WaitingWriter);
        assert SignalledWriter(s, u);
      }
    }
  }

  // A thread that another thread's step must wake.
  predicate Blocked(p: Pc) {
    p.GuardWait? || p.SignalWait?
  }

  /** No deadlock: a state in which every thread is outside or blocked has no blocked thread. */
  lemma NoDeadlock(states: seq<State>, i: nat)
    requires Run(states) && i < |states|
    requires forall t | 0 <= t < |states[i].pcs| :: states[i].pcs[t].Outside? || Blocked(states[i].pcs[t])
    ensures forall t | 0 <= t < |states[i].pcs| :: states[i].pcs[t].Outside?
  {
    var s := states[i];
    RunHolds(states, i);
    if s.guard == 0 {
      var u := CountWitness(s.pcs, Owner);
    }
    forall t | 0 <= t < |s.pcs|
      ensures s.pcs[t].Outside?
    {
      if s.pcs[t].SignalWait? {
        assert t in s.readers || t in s.writers;
        NoLostWakeupIn(s);
      }
    }
  }

  /* ----- writers are preferred ----- */

  lemma {:induction false} BroadcastAdmitsNone(s: State, u: Thread)
    requires u < |s.pcs|
    ensures InsideLock(BroadcastReaders(s).pcs[u], true) == InsideLock(s.pcs[u], true)
    ensures BroadcastReaders(s).AR == s.AR
    decreases |s.readers|
  {
    if s.readers != [] {
      BroadcastAdmitsNone(Wake(s.(readers := s.readers[1..]), s.readers[0]), u);
    }
  }

  lemma BodyAdmitsNone(s: State, t: Thread, u: Thread)
    requires t < |s.pcs| == |s.signals| && s.pcs[t].Holding? && s.WW > 0 && s.AW >= 0 && u < |s.pcs|
    ensures InsideLock(Body(s, t).pcs[u], true) ==> InsideLock(s.pcs[u], true)
    ensures Body(s, t).AR <= s.AR
  {
    if s.pcs[t].task.Exit? {
      BroadcastAdmitsNone(Retire(s, t, s.pcs[t].task.reader), u);
    }
  }

  /** While some writer waits, a step admits no reader. */
  lemma NoReaderAdmitted(s: State, s': State, u: Thread)
    requires Step(s, s') && s.WW > 0 && s.AW >= 0 && u < |s.pcs|
    ensures |s'.pcs| == |s.pcs|
    ensures InsideLock(s'.pcs[u], true) ==> InsideLock(s.pcs[u], true)
    ensures s'.AR <= s.AR
  {
    var e :| Enabled(s, e) && s' == Apply(s, e);
    if e.Act? && s.pcs[e.t].Holding? {
      BodyAdmitsNone(s, e.t, u);
    }
  }

  lemma WriterCounted(s: State, w: Thread)
    requires Inv(s) && w < |s.pcs| && Waiting(s.pcs[w], false)
    ensures s.WW > 0 && s.AW >= 0
  {
    CountPositive(s.pcs, w, WaitingWriter);
  }

  /**
   A waiting writer is not overtaken: from the moment it starts to wait for as
   long as it waits, the readers inside are among those that were inside then.
   */
  lemma {:induction false} WriterNotOvertaken(states: seq<State>, i: nat, j: nat, w: Thread)
    requires Run(states) && i <= j < |states|
    requires forall k | i <= k <= j :: w < |states[k].pcs| && Waiting(states[k].pcs[w], false)
    ensures states[j].AR <= states[i].AR && |states[j].pcs| == |states[i].pcs|
    ensures forall u | 0 <= u < |states[j].pcs| :: InsideLock(states[j].pcs[u], true) ==> InsideLock(states[i].pcs[u], true)
    decreases j
  {
    hide Inv, Step, Waiting, InsideLock;
    if i < j {
      WriterNotOvertaken(states, i, j - 1, w);
      RunHolds(states, j - 1);
      var s := states[j - 1];
      WriterCounted(s, w);
      assert Step(states[j - 1], states[j - 1 + 1]);
      NoReaderAdmitted(s, states[j], w);
      forall u | 0 <= u < |s.pcs|
        ensures InsideLock(states[j].pcs[u], true) ==> InsideLock(s.pcs[u], true)
        ensures states[j].AR <= s.AR && |states[j].pcs| == |s.pcs|
      {
        NoReaderAdmitted(s, states[j], u);
      }
    }
  }
}
