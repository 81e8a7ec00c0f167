/**
 What the readers-writers lock does not promise: a writer that waits need not ever be let
 in. Between the signal that wakes it and its next test another writer may take the lock.
 */
module RwStarvation {
  import opened RwLock

  // Two threads, both of them writers.
  function Two(p: Pc, q: Pc, guard: nat, AW: int, WW: int, writers: seq<Thread>, signal: nat): State {
    State([p, q], guard, [], 0, 0, AW, WW, [], writers, [0, signal])
  }

  // Thread 0 goes in, and thread 1 goes to sleep ...
  function Prelude(n: nat): (r: (State, Event))
    requires n < 9
  {
    if n == 0 then (Two(Outside, Outside, 1, 0, 0, [], 0), Call(0, false))
    else if n == 1 then (Two(AtGuard(Enter(false)), Outside, 1, 0, 0, [], 0), Act(0))
    else if n == 2 then (Two(Holding(Enter(false)), Outside, 0, 0, 0, [], 0), Act(0))
    else if n == 3 then (Two(Leaving(ToActive(false)), Outside, 0, 1, 0, [], 0), Act(0))
    else if n == 4 then (Two(Active(false), Outside, 1, 1, 0, [], 0), Call(1, false))
    else if n == 5 then (Two(Active(false), AtGuard(Enter(false)), 1, 1, 0, [], 0), Act(1))
    else if n == 6 then (Two(Active(false), Holding(Enter(false)), 0, 1, 0, [], 0), Act(1))
    else if n == 7 then (Two(Active(false), Leaving(ToSleep(false)), 0, 1, 1, [1], 0), Act(1))
    else (Two(Active(false), AtSignal(false), 1, 1, 1, [1], 0), Act(1))
  }

  // ... then, over and over, thread 0 leaves, wakes thread 1, and is in again before thread 1 has tested.
  function Round(n: nat): (r: (State, Event))
    requires n < 13
  {
    if n == 0 then (Two(Active(false), SignalWait(false), 1, 1, 1, [1], 0), Return(0))
    else if n == 1 then (Two(AtGuard(Exit(false)), SignalWait(false), 1, 1, 1, [1], 0), Act(0))
    else if n == 2 then (Two(Holding(Exit(false)), SignalWait(false), 0, 1, 1, [1], 0), Act(0))
    else if n == 3 then (Two(Leaving(ToOutside), AtSignal(false), 0, 0, 1, [], 1), Act(0))
    else if n == 4 then (Two(Outside, AtSignal(false), 1, 0, 1, [], 1), Call(0, false))
    else if n == 5 then (Two(AtGuard(Enter(false)), AtSignal(false), 1, 0, 1, [], 1), Act(0))
    else if n == 6 then (Two(Holding(Enter(false)), AtSignal(false), 0, 0, 1, [], 1), Act(0))
    else if n == 7 then (Two(Leaving(ToActive(false)), AtSignal(false), 0, 1, 1, [], 1), Act(0))
    else if n == 8 then (Two(Active(false), AtSignal(false), 1, 1, 1, [], 1), Act(1))
    else if n == 9 then (Two(Active(false), AtGuard(Resume(false)), 1, 1, 1, [], 0), Act(1))
    else if n == 10 then (Two(Active(false), Holding(Resume(false)), 0, 1, 1, [], 0), Act(1))
    else if n == 11 then (Two(Active(false), Leaving(ToSleep(false)), 0, 1, 1, [1], 0), Act(1))
    else (Two(Active(false), AtSignal(false), 1, 1, 1, [1], 0), Act(1))
  }

  /** The n-th state of a run without end, and what happens there. */
  function Endless(n: nat): (State, Event) {
    if n < 9 then Prelude(n) else Round((n - 9) % 13)
  }

  // An event leads from one state to another.
  predicate Leads(s: State, e: Event, s': State) {
    Enabled(s, e) && s' == Apply(s, e)
  }

  lemma GoesIn(n: nat)
    requires n < 4
    ensures Leads(Prelude(n).0, Prelude(n).1, Prelude(n + 1).0)
  {
    hide BroadcastReaders, SignalWriter, Wake, Round;
  }

  lemma GoesToSleep(n: nat)
    requires 4 <= n < 9
    ensures Leads(Prelude(n).0, Prelude(n).1, if n < 8 then Prelude(n + 1).0 else Round(0).0)
  {
    hide BroadcastReaders, SignalWriter, Wake;
  }

  lemma PreludeLeads(n: nat)
    requires n < 9
    ensures Leads(Prelude(n).0, Prelude(n).1, if n < 8 then Prelude(n + 1).0 else Round(0).0)
  {
    hide Prelude, Round, Leads;
    if n < 4 {
      GoesIn(n);
    } else {
      GoesToSleep(n);
    }
  }

  // What thread 0 does in a round, and what thread 1 does.
  lemma FirstHalf(n: nat)
    requires n < 8
    ensures Leads(Round(n).0, Round(n).1, Round(n + 1).0)
  {
    hide BroadcastReaders, Prelude;
  }

  lemma SecondHalf(n: nat)
    requires 8 <= n < 13
    ensures Leads(Round(n).0, Round(n).1, if n < 12 then Round(n + 1).0 else Round(0).0)
  {
    hide BroadcastReaders, SignalWriter, Wake;
  }

  lemma RoundLeads(n: nat)
    requires n < 13
    ensures Leads(Round(n).0, Round(n).1, if n < 12 then Round(n + 1).0 else Round(0).0)
  {
    hide Round, Leads;
    if n < 8 {
      FirstHalf(n);
    } else {
      SecondHalf(n);
    }
  }

  lemma EndlessLeads(n: nat)
    ensures Leads(Endless(n).0, Endless(n).1, Endless(n + 1).0)
  {
    hide Prelude, Round, Leads;
    if n < 9 {
      PreludeLeads(n);
    } else {
      RoundLeads((n - 9) % 13);
      NextPlace(n - 9);
    }
  }

  lemma NextPlace(m: nat)
    ensures (m + 1) % 13 == if m % 13 < 12 then m % 13 + 1 else 0
  {
  }

  /**
   A run without end from an initial state, in which both threads act again and again, writer 1 waits from some
   point on for ever, and writer 0 is let in once in every round.
   */
  lemma WriterMayWaitForever()
    ensures Init(Endless(0).0)
    ensures forall n: nat :: Leads(Endless(n).0, Endless(n).1, Endless(n + 1).0)
    ensures forall n: nat | n >= 9 :: |Endless(n).0.pcs| == 2 && Waiting(Endless(n).0.pcs[1], false)
    ensures forall m: nat :: Endless(9 + 13 * m).1 == Return(0) && Endless(9 + 13 * m + 4).1 == Call(0, false) && Endless(9 + 13 * m + 8).1 == Act(1)
  {
    forall n: nat
      ensures Leads(Endless(n).0, Endless(n).1, Endless(n + 1).0)
    {
      EndlessLeads(n);
    }
    forall m: nat
      ensures Endless(9 + 13 * m).1 == Return(0) && Endless(9 + 13 * m + 4).1 == Call(0, false) && Endless(9 + 13 * m + 8).1 == Act(1)
    {
      PlaceInRound(m, 0);
      PlaceInRound(m, 4);
      PlaceInRound(m, 8);
    }
  }

  lemma PlaceInRound(m: nat, r: nat)
    requires r < 13
    ensures (13 * m + r) % 13 == r && 9 + 13 * m + r - 9 == 13 * m + r
  {
  }

  /**
   Only another writer can do that: a writer that has waited since a moment when no reader was inside, and has the
   guard again, goes in unless a writer is inside.
   */
  lemma OvertakenByWritersOnly(states: seq<State>, i: nat, j: nat, w: Thread)
    requires Run(states) && i <= j < |states| && states[i].AR == 0
    requires forall k | i <= k <= j :: w < |states[k].pcs| && Waiting(states[k].pcs[w], false)
    requires states[j].pcs[w] == Holding(Resume(false))
    ensures |states[j].signals| == |states[j].pcs|
    ensures InsideLock(Apply(states[j], Act(w)).pcs[w], false) <==> forall u | 0 <= u < |states[j].pcs| :: !InsideLock(states[j].pcs[u], false)
  {
    var s := states[j];
    WriterNotOvertaken(states, i, j, w);
    RunHolds(states, j);
    hide GuardInv, WakeupInv, Queue;
    if s.AW > 0 {
      var u := CountWitness(s.pcs, Writing);
    }
    forall u | 0 <= u < |s.pcs| && InsideLock(s.pcs[u], false)
      ensures s.AW > 0
    {
      CountPositive(s.pcs, u, Writing);
    }
    NoNegative(s);
  }

  lemma NoNegative(s: State)
    requires CountInv(s)
    ensures s.AR >= 0 && s.AW >= 0
  {
  }
}
