/**
 Whom the readers-writers lock lets in, whom a release wakes, and in which order: the
 queues of the guard and of the condition variables are first in, first out.
 */
module RwOrder {
  import opened RwLock

  /* ----- admission ----- */

  /** A reader that has the guard goes in exactly when no writer is inside or waiting, a writer exactly when nobody is inside. */
  lemma AdmittedExactly(s: State, t: Thread, reader: bool)
    requires Inv(s) && t < |s.pcs| && (s.pcs[t] == Holding(Enter(reader)) || s.pcs[t] == Holding(Resume(reader)))
    ensures |s.signals| == |s.pcs|
    ensures InsideLock(Apply(s, Act(t)).pcs[t], reader) <==>
      forall u | 0 <= u < |s.pcs| :: !InsideLock(s.pcs[u], false) && if reader then !Waiting(s.pcs[u], false) else !InsideLock(s.pcs[u], true)
  {
    hide GuardInv, WakeupInv, Queue;
    assert CountInv(s) && QueueInv(s);
    NoneExactly(s.pcs, Writing);
    NoneExactly(s.pcs, Reading);
    NoneExactly(s.pcs, WaitingWriter);
    hide Inv, CountInv, Exclusive;
  }

  lemma NoneExactly(pcs: seq<Pc>, k: Kind)
    ensures Count(pcs, k) == 0 <==> forall u | 0 <= u < |pcs| :: !Is(pcs[u], k)
  {
    if Count(pcs, k) > 0 {
      var u := CountWitness(pcs, k);
    }
    forall u | 0 <= u < |pcs| && Is(pcs[u], k)
      ensures Count(pcs, k) > 0
    {
      CountPositive(pcs, u, k);
    }
  }

  /* ----- waking ----- */

  lemma {:induction false} BroadcastSignals(s: State)
    requires |s.signals| == |s.pcs| && Distinct(s.readers) && forall i | 0 <= i < |s.readers| :: s.readers[i] < |s.pcs|
    ensures var r := BroadcastReaders(s);
      && r.readers == [] && r.writers == s.writers && r.guardWaiters == s.guardWaiters
      && forall u | 0 <= u < |s.signals| :: r.signals[u] == s.signals[u] + if u in s.readers then 1 else 0
    decreases |s.readers|
  {
    if s.readers != [] {
      PopDistinct(s.readers);
      BroadcastSignals(Wake(s.(readers := s.readers[1..]), s.readers[0]));
    }
  }

  /**
   Whom a release wakes: nobody while others are inside; otherwise the first waiting writer that has not been
   woken, if a writer waits, and all waiting readers if none does.
   */
  lemma WokenByRelease(s: State, t: Thread, reader: bool)
    requires Inv(s) && t < |s.pcs| && s.pcs[t] == Holding(Exit(reader))
    ensures |s.signals| == |s.pcs|
    ensures var s' := Apply(s, Act(t));
      var others := exists u | 0 <= u < |s.pcs| :: u != t && (InsideLock(s.pcs[u], true) || InsideLock(s.pcs[u], false));
      var waiting := exists u | 0 <= u < |s.pcs| :: Waiting(s.pcs[u], false);
      && |s'.signals| == |s.signals|
      && forall u | 0 <= u < |s.signals| :: s'.signals[u] ==
           s.signals[u] + if !others && (if waiting then s.writers != [] && u == s.writers[0] else u in s.readers) then 1 else 0
  {
    hide Inv, BroadcastReaders, SignalWriter, Count;
    Leaving(s, t, reader);
    NoneExactly(s.pcs, WaitingWriter);
    QueuesInRange(s);
    assert (exists u | 0 <= u < |s.pcs| :: Waiting(s.pcs[u], false)) <==> s.WW > 0;
    hide InsideLock, Waiting;
    BroadcastSignals(Retire(s, t, reader));
    OneSignal(Retire(s, t, reader));
  }

  lemma OneSignal(s: State)
    requires |s.signals| == |s.pcs| && forall i | 0 <= i < |s.writers| :: s.writers[i] < |s.pcs|
    ensures forall u | 0 <= u < |s.signals| :: SignalWriter(s).signals[u] == s.signals[u] + if s.writers != [] && u == s.writers[0] then 1 else 0
  {
  }

  lemma QueuesInRange(s: State)
    requires Inv(s)
    ensures |s.signals| == |s.pcs| && Distinct(s.readers)
    ensures (forall i | 0 <= i < |s.readers| :: s.readers[i] < |s.pcs|) && (forall i | 0 <= i < |s.writers| :: s.writers[i] < |s.pcs|)
  {
  }

  // The counters of a state in which t is about to leave.
  lemma Leaving(s: State, t: Thread, reader: bool)
    requires Inv(s) && t < |s.pcs| && s.pcs[t] == Holding(Exit(reader))
    ensures s.WW == Count(s.pcs, WaitingWriter) && (reader ==> s.AR >= 1)
    ensures (exists u | 0 <= u < |s.pcs| :: u != t && (InsideLock(s.pcs[u], true) || InsideLock(s.pcs[u], false))) <==> reader && s.AR > 1
    ensures s.readers != [] ==> s.WR > 0 && (reader ==> s.WW > 0)
  {
    hide GuardInv, Count;
    assert CountInv(s) && Exclusive(s);
    assert s.readers != [] ==> s.AW + s.WW > 0;
    var pcs := s.pcs[t := Outside];
    CountsUpdate(s.pcs, t, Outside);
    CountPositive(s.pcs, t, if reader then Reading else Writing);
    NoneExactly(pcs, Reading);
    NoneExactly(pcs, Writing);
    assert forall u | 0 <= u < |s.pcs| && u != t :: pcs[u] == s.pcs[u];
    assert pcs[t] == Outside;
    ReadersCounted(s);
  }

  lemma ReadersCounted(s: State)
    requires QueueInv(s) && CountInv(s)
    ensures s.readers != [] ==> s.WR > 0
  {
    if s.readers != [] {
      assert Queue(s.readers, true, s.pcs, s.signals);
      CountPositive(s.pcs, s.readers[0], WaitingReader);
    }
  }

  /* ----- first in, first out ----- */

  // What one step does to a queue: nothing, somebody comes last, or the first goes.
  ghost predicate Moves(q: seq<Thread>, q': seq<Thread>) {
    q' == q || (q != [] && q' == q[1..]) || (exists t :: t !in q && q' == q + [t])
  }

  lemma BroadcastWriters(s: State)
    ensures BroadcastReaders(s).writers == s.writers && BroadcastReaders(s).guardWaiters == s.guardWaiters
    decreases |s.readers|
  {
    if s.readers != [] {
      BroadcastWriters(Wake(s.(readers := s.readers[1..]), s.readers[0]));
    }
  }

  lemma StepMoves(s: State, s': State)
    requires Inv(s) && Step(s, s')
    ensures Moves(s.writers, s'.writers) && Moves(s.guardWaiters, s'.guardWaiters)
  {
    hide Inv, Moves, Body;
    var e :| Enabled(s, e) && s' == Apply(s, e);
    var t := e.t;
    NotQueued(s, t);
    MovesOut(s.writers, t);
    MovesOut(s.guardWaiters, t);
    if e.Act? && s.pcs[t].Holding? {
      BodyMoves(s, t);
    } else if e.Act? && s.pcs[t].Leaving? {
      ReleaseMoves(s, t, s'.pcs[t]);
    }
  }

  lemma BodyMoves(s: State, t: Thread)
    requires t < |s.pcs| == |s.signals| && s.pcs[t].Holding? && t !in s.writers
    ensures Moves(s.writers, Body(s, t).writers) && Body(s, t).guardWaiters == s.guardWaiters
  {
    hide Moves, BroadcastReaders;
    MovesOut(s.writers, t);
    if s.pcs[t].task.Exit? {
      BroadcastWriters(Retire(s, t, s.pcs[t].task.reader));
    }
  }

  lemma ReleaseMoves(s: State, t: Thread, p: Pc)
    requires t < |s.pcs|
    ensures ReleaseGuard(s, t, p).writers == s.writers && Moves(s.guardWaiters, ReleaseGuard(s, t, p).guardWaiters)
  {
  }

  lemma MovesOut(q: seq<Thread>, t: Thread)
    ensures Moves(q, q) && (q != [] ==> Moves(q, q[1..])) && (t !in q ==> Moves(q, q + [t]))
  {
  }

  // Who acts is on no queue, unless asleep and about to test its signal.
  lemma NotQueued(s: State, t: Thread)
    requires Inv(s) && t < |s.pcs|
    ensures s.pcs[t].Holding? ==> t !in s.writers
    ensures !s.pcs[t].GuardWait? ==> t !in s.guardWaiters
  {
    hide CountInv, WakeupInv, Exclusive;
  }

  // In a queue that moves so, w keeps those in front of it that have not gone.
  lemma OneMove(q: seq<Thread>, q': seq<Thread>, r: nat, w: Thread) returns (r': nat)
    requires Moves(q, q') && r < |q| && q[r] == w && w in q' && Distinct(q)
    ensures r' <= r && r' < |q'| && q'[r'] == w && q'[..r'] == q[..r][r - r'..]
  {
    if q' == q {
      r' := r;
    } else if q != [] && q' == q[1..] {
      PopDistinct(q);
      assert w != q[0];
      r' := r - 1;
    } else {
      r' := r;
    }
  }

  /**
   Nobody passes a thread in a queue of the lock: as long as it waits for a writer's signal, or for the guard, those
   in front of it are the last of those that were in front of it before.
   */
  lemma {:induction false} NobodyPasses(states: seq<State>, i: nat, j: nat, p: nat, guard: bool) returns (r: nat)
    requires Run(states) && i <= j < |states| && p < |Waiters(states[i], guard)|
    requires forall k | i <= k <= j :: Waiters(states[i], guard)[p] in Waiters(states[k], guard)
    ensures r <= p && r < |Waiters(states[j], guard)| && Waiters(states[j], guard)[r] == Waiters(states[i], guard)[p]
    ensures Waiters(states[j], guard)[..r] == Waiters(states[i], guard)[p - r..p]
    decreases j
  {
    hide Inv, Step, Moves, Waiters;
    if i == j {
      r := p;
    } else {
      var r' := NobodyPasses(states, i, j - 1, p, guard);
      RunHolds(states, j - 1);
      QueuesDistinct(states[j - 1], guard);
      assert Step(states[j - 1], states[j - 1 + 1]);
      QueueMoves(states[j - 1], states[j], guard);
      r := OneMove(Waiters(states[j - 1], guard), Waiters(states[j], guard), r', Waiters(states[i], guard)[p]);
      assert Waiters(states[i], guard)[p - r'..p][r' - r..] == Waiters(states[i], guard)[p - r..p];
    }
  }

  lemma QueueMoves(s: State, s': State, guard: bool)
    requires Inv(s) && Step(s, s')
    ensures Moves(Waiters(s, guard), Waiters(s', guard))
  {
    hide Inv, Step, Moves;
    StepMoves(s, s');
  }

  function Waiters(s: State, guard: bool): seq<Thread> { if guard then s.guardWaiters else s.writers }

  lemma QueuesDistinct(s: State, guard: bool)
    requires Inv(s)
    ensures Distinct(Waiters(s, guard))
  {
    hide CountInv, WakeupInv, Exclusive;
  }
}
