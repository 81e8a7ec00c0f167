/**
 The MapReduce coordinator: submitted jobs, the queue of jobs that are not done, and which
 task is handed out when. The ghost log lists every hand-out and every reported success
 the coordinator took note of.
 */
module Coordinator {
  datatype Option<T> = None | Some(value: T)

  datatype Task = Task(job: int, index: nat, reduce: bool)

  datatype Event = HandOut(task: Task, time: int) | Success(task: Task)

  /** The tasks of one kind: when each was handed out last (0: never), and whether its success was reported. */
  datatype Phase = Phase(time: seq<int>, success: seq<bool>, finished: nat)

  datatype Job = Job(maps: Phase, reduces: Phase, done: bool, failed: bool)
  {
    function Of(reduce: bool): Phase { if reduce then reduces else maps }

    function With(reduce: bool, p: Phase): Job { if reduce then this.(reduces := p) else this.(maps := p) }

    /** Whether tasks of this kind may be handed out. */
    predicate Open(reduce: bool) { reduce ==> maps.finished == |maps.time| }
  }

  function CountTrue(s: seq<bool>): (n: nat)
    ensures n <= |s|
  {
    if s == [] then 0 else CountTrue(s[..|s| - 1]) + if s[|s| - 1] then 1 else 0
  }

  lemma {:induction false} CountSet(s: seq<bool>, i: nat)
    requires i < |s| && !s[i]
    ensures CountTrue(s[i := true]) == CountTrue(s) + 1
  {
    var last := |s| - 1;
    if i < last {
      CountSet(s[..last], i);
      assert s[i := true][..last] == s[..last][i := true];
    } else {
      assert s[i := true][..last] == s[..last];
    }
  }

  lemma {:induction false} CountAll(s: seq<bool>)
    ensures CountTrue(s) == |s| <==> forall i | 0 <= i < |s| :: s[i]
  {
    if s != [] {
      CountAll(s[..|s| - 1]);
      assert forall i | 0 <= i < |s| - 1 :: s[..|s| - 1][i] == s[i];
    }
  }

  lemma {:induction false} CountNone(s: seq<bool>)
    requires forall i | 0 <= i < |s| :: !s[i]
    ensures CountTrue(s) == 0
  {
    if s != [] {
      CountNone(s[..|s| - 1]);
    }
  }

  /* ----- what the log may look like ----- */

  /** No task is handed out twice within ten seconds. */
  ghost predicate Spaced(log: seq<Event>) {
    forall i, j | 0 <= i < j < |log| && log[i].HandOut? && log[j].HandOut? && log[i].task == log[j].task :: log[j].time - log[i].time >= 10
  }

  /** No task is handed out after its success. */
  ghost predicate NoneAfterSuccess(log: seq<Event>) {
    forall i, j | 0 <= i < j < |log| && log[i].Success? && log[j].HandOut? :: log[i].task != log[j].task
  }

  ghost predicate WasHandedOut(log: seq<Event>, n: nat, t: Task)
    requires n <= |log|
  {
    exists i :: 0 <= i < n && log[i].HandOut? && log[i].task == t
  }

  /** Successes are reported only for tasks that were handed out. */
  ghost predicate Genuine(log: seq<Event>) {
    forall j | 0 <= j < |log| && log[j].Success? :: WasHandedOut(log, j, log[j].task)
  }

  /** No task is handed out again after its success. */
  ghost predicate NoneAgainAfterSuccess(log: seq<Event>) {
    forall j | 0 <= j < |log| && log[j].HandOut? && WasHandedOut(log, j, log[j].task) :: Success(log[j].task) !in log[..j]
  }

  predicate IsReport(e: Event, id: int, reduce: bool) {
    e.Success? && e.task.job == id && e.task.reduce == reduce
  }

  /** How many successes were reported for the tasks of one kind of a job. */
  function Reports(log: seq<Event>, id: int, reduce: bool): nat {
    if log == [] then 0 else Reports(log[..|log| - 1], id, reduce) + if IsReport(log[|log| - 1], id, reduce) then 1 else 0
  }

  /** No success of a task of this kind is reported twice. */
  predicate Unrepeated(log: seq<Event>, id: int, reduce: bool) {
    log == [] || (Unrepeated(log[..|log| - 1], id, reduce) && (IsReport(log[|log| - 1], id, reduce) ==> log[|log| - 1] !in log[..|log| - 1]))
  }

  /** That is, no two of its reports are the same. */
  lemma {:induction false} UnrepeatedMeans(log: seq<Event>, id: int, reduce: bool)
    ensures Unrepeated(log, id, reduce) <==>
      forall i, j | 0 <= i < j < |log| && IsReport(log[i], id, reduce) && IsReport(log[j], id, reduce) :: log[i] != log[j]
  {
    if log != [] {
      var n := |log| - 1;
      UnrepeatedMeans(log[..n], id, reduce);
      assert forall i | 0 <= i < n :: log[..n][i] == log[i];
      if IsReport(log[n], id, reduce) && log[n] in log[..n] {
        var i :| 0 <= i < n && log[..n][i] == log[n];
        assert log[i] == log[n];
      }
    }
  }

  /** Each of the n map tasks of a job has succeeded. */
  ghost predicate MapsReported(log: seq<Event>, id: int, n: nat) {
    forall m: nat | m < n :: Success(Task(id, m, false)) in log
  }

  /** What was reported when a reduce task is handed out: as many successes as there are maps, one of each unless some repeat. */
  ghost predicate OpenedAfter(log: seq<Event>, id: int, n: nat) {
    Reports(log, id, false) == n && (MapsReported(log, id, n) <==> Unrepeated(log, id, false))
  }

  ghost predicate ReducesOpened(log: seq<Event>, jobs: map<int, Job>) {
    forall j | 0 <= j < |log| && log[j].HandOut? && log[j].task.reduce && log[j].task.job in jobs ::
      OpenedAfter(log[..j], log[j].task.job, |jobs[log[j].task.job].maps.time|)
  }

  /* ----- the invariant ----- */

  // What the arrays of a phase say about the log.
  ghost predicate ArraysInv(log: seq<Event>, id: int, reduce: bool, p: Phase) {
    && |p.success| == |p.time|
    && (forall i: nat | i < |p.time| :: p.time[i] >= 0 && (p.success[i] <==> Success(Task(id, i, reduce)) in log))
    && (forall i: nat | i < |p.time| :: p.time[i] != 0 ==> WasHandedOut(log, |log|, Task(id, i, reduce)))
    && (forall e | e in log && e.HandOut? && e.task.job == id && e.task.reduce == reduce :: e.task.index < |p.time| && 0 < e.time <= p.time[e.task.index])
  }

  // What its counter says: reports are counted, also those that repeat.
  ghost predicate CounterInv(log: seq<Event>, id: int, reduce: bool, p: Phase) {
    && p.finished == Reports(log, id, reduce)
    && CountTrue(p.success) <= p.finished
    && (CountTrue(p.success) == p.finished <==> Unrepeated(log, id, reduce))
  }

  ghost predicate PhaseInv(log: seq<Event>, id: int, reduce: bool, p: Phase) {
    ArraysInv(log, id, reduce, p) && CounterInv(log, id, reduce, p)
  }

  ghost predicate JobInv(log: seq<Event>, id: int, j: Job) {
    && PhaseInv(log, id, false, j.maps) && PhaseInv(log, id, true, j.reduces)
    && (j.done && !j.failed ==> j.reduces.finished == |j.reduces.time| > 0)
  }

  ghost predicate JobsInv(jobs: map<int, Job>, log: seq<Event>) {
    && (forall id | id in jobs :: JobInv(log, id, jobs[id]))
    && (forall i | 0 <= i < |log| :: log[i].task.job in jobs)
  }

  /** The queue has exactly the jobs that are not done, each once. */
  ghost predicate QueueInv(queue: seq<int>, jobs: map<int, Job>) {
    && (forall i, j | 0 <= i < j < |queue| :: queue[i] != queue[j])
    && (forall id :: id in queue <==> id in jobs && !jobs[id].done)
  }

  ghost predicate LogInv(jobs: map<int, Job>, log: seq<Event>) {
    Spaced(log) && NoneAgainAfterSuccess(log) && ReducesOpened(log, jobs)
  }

  ghost predicate Inv(queue: seq<int>, jobs: map<int, Job>, log: seq<Event>) {
    QueueInv(queue, jobs) && JobsInv(jobs, log) && LogInv(jobs, log)
  }

  /* ----- one event more ----- */

  lemma ReportsMore(log: seq<Event>, e: Event, id: int, reduce: bool)
    ensures Reports(log + [e], id, reduce) == Reports(log, id, reduce) + if IsReport(e, id, reduce) then 1 else 0
  {
    assert (log + [e])[..|log|] == log;
  }

  // Reports are only added.
  lemma {:induction false} ReportsGrow(log: seq<Event>, i: nat, id: int, reduce: bool)
    requires i <= |log|
    ensures Reports(log[..i], id, reduce) <= Reports(log, id, reduce)
  {
    if i == |log| {
      assert log[..i] == log;
    } else {
      ReportsGrow(log[..|log| - 1], i, id, reduce);
      assert log[..|log| - 1][..i] == log[..i];
    }
  }

  lemma {:induction false} ReportsWitness(log: seq<Event>, id: int, reduce: bool) returns (i: nat)
    requires Reports(log, id, reduce) > 0
    ensures i < |log| && IsReport(log[i], id, reduce)
  {
    i := |log| - 1;
    if !IsReport(log[i], id, reduce) {
      i := ReportsWitness(log[..i], id, reduce);
    }
  }

  lemma UnrepeatedMore(log: seq<Event>, e: Event, id: int, reduce: bool)
    ensures Unrepeated(log + [e], id, reduce) <==> Unrepeated(log, id, reduce) && (IsReport(e, id, reduce) ==> e !in log)
  {
    assert (log + [e])[..|log|] == log;
  }

  lemma {:induction false} UnrepeatedPrefix(log: seq<Event>, i: nat, id: int, reduce: bool)
    requires i <= |log| && Unrepeated(log, id, reduce)
    ensures Unrepeated(log[..i], id, reduce)
  {
    if i == |log| {
      assert log[..i] == log;
    } else {
      UnrepeatedPrefix(log[..|log| - 1], i, id, reduce);
      assert log[..|log| - 1][..i] == log[..i];
    }
  }

  lemma HandedOutMore(log: seq<Event>, e: Event, n: nat, t: Task)
    requires n <= |log|
    ensures WasHandedOut(log + [e], n, t) <==> WasHandedOut(log, n, t)
    ensures WasHandedOut(log + [e], |log| + 1, t) <==> WasHandedOut(log, |log|, t) || (e.HandOut? && e.task == t)
  {
    var l := log + [e];
    assert forall j | 0 <= j < |log| :: l[j] == log[j];
    if i :| 0 <= i < n && log[i].HandOut? && log[i].task == t {
      assert l[i].HandOut?;
    }
    if i :| 0 <= i < |log| && log[i].HandOut? && log[i].task == t {
      assert l[i].HandOut?;
    }
    if e.HandOut? && e.task == t {
      assert l[|log|].HandOut? && l[|log|].task == t;
    }
  }

  // The maps are all done exactly when the counter agrees and nothing was counted twice.
  lemma AllSucceeded(log: seq<Event>, id: int, reduce: bool, p: Phase)
    requires PhaseInv(log, id, reduce, p)
    ensures (forall i | 0 <= i < |p.success| :: p.success[i]) <==> CountTrue(p.success) == |p.time|
    ensures !reduce ==> ((forall i | 0 <= i < |p.success| :: p.success[i]) <==> MapsReported(log, id, |p.time|))
  {
    hide CounterInv, Unrepeated;
    CountAll(p.success);
    if !reduce && MapsReported(log, id, |p.time|) {
      forall i: nat | i < |p.success|
        ensures p.success[i]
      {
        assert Success(Task(id, i, false)) in log;
      }
    }
  }

  /** A task handed out ten seconds ago or earlier and not finished. */
  ghost predicate Overdue(p: Phase, i: nat, now: int) {
    i < |p.time| == |p.success| && p.time[i] != 0 && now - p.time[i] >= 10 && !p.success[i]
  }

  ghost predicate NoneOverdue(p: Phase, now: int) {
    forall i: nat | i < |p.time| :: !Overdue(p, i, now)
  }

  lemma OverdueLater(p: Phase, i: nat, now: int, later: int)
    requires now <= later && Overdue(p, i, now)
    ensures Overdue(p, i, later) && Due(p, i, now)
  {
  }

  lemma NoneOverdueBefore(p: Phase, now: int, later: int)
    requires now <= later && NoneOverdue(p, later)
    ensures NoneOverdue(p, now)
  {
    forall i: nat | i < |p.time|
      ensures !Overdue(p, i, now)
    {
      assert !Overdue(p, i, later);
    }
  }

  // The phase after task t was handed out at time now.
  function Timed(p: Phase, i: nat, now: int): Phase
    requires i < |p.time|
  {
    p.(time := p.time[i := now])
  }

  /** When a task may be handed out: it never was, or ten seconds ago without a success since. */
  ghost predicate Due(p: Phase, i: nat, now: int) {
    && i < |p.time| == |p.success|
    && (p.time[i] == 0 || (now - p.time[i] >= 10 && !p.success[i]))
  }

  /** Task t is handed out. */
  lemma HandOutKeeps(queue: seq<int>, jobs: map<int, Job>, log: seq<Event>, t: Task, now: int)
    requires Inv(queue, jobs, log) && now > 0 && t.job in jobs && jobs[t.job].Open(t.reduce)
    requires Due(jobs[t.job].Of(t.reduce), t.index, now)
    ensures Inv(queue, jobs[t.job := jobs[t.job].With(t.reduce, Timed(jobs[t.job].Of(t.reduce), t.index, now))], log + [HandOut(t, now)])
  {
    hide JobsInv, LogInv, Due;
    DueInRange(jobs[t.job].Of(t.reduce), t.index, now);
    TaskGiven(jobs, log, t, now);
  }

  lemma TaskGiven(jobs: map<int, Job>, log: seq<Event>, t: Task, now: int)
    requires JobsInv(jobs, log) && LogInv(jobs, log) && now > 0 && t.job in jobs && jobs[t.job].Open(t.reduce)
    requires Due(jobs[t.job].Of(t.reduce), t.index, now)
    ensures var jobs' := jobs[t.job := jobs[t.job].With(t.reduce, Timed(jobs[t.job].Of(t.reduce), t.index, now))];
      JobsInv(jobs', log + [HandOut(t, now)]) && LogInv(jobs', log + [HandOut(t, now)])
  {
    hide JobInv, Spaced, NoneAgainAfterSuccess, ReducesOpened;
    var jobs' := jobs[t.job := jobs[t.job].With(t.reduce, Timed(jobs[t.job].Of(t.reduce), t.index, now))];
    var log' := log + [HandOut(t, now)];
    forall id | id in jobs'
      ensures JobInv(log', id, jobs'[id])
    {
      JobTimed(log, id, jobs[id], t, now);
    }
    HandOutSpaced(jobs, log, t, now);
    HandOutAgain(jobs, log, t, now);
    HandOutOpened(jobs, log, t, now);
  }

  lemma JobTimed(log: seq<Event>, id: int, j: Job, t: Task, now: int)
    requires JobInv(log, id, j) && now > 0 && (id == t.job ==> Due(j.Of(t.reduce), t.index, now))
    ensures JobInv(log + [HandOut(t, now)], id, if id == t.job then j.With(t.reduce, Timed(j.Of(t.reduce), t.index, now)) else j)
  {
    hide ArraysInv, CounterInv, Due;
    ArraysTimed(log, id, false, j.maps, t, now);
    ArraysTimed(log, id, true, j.reduces, t, now);
    CounterKept(log, id, false, j.maps, HandOut(t, now));
    CounterKept(log, id, true, j.reduces, HandOut(t, now));
    DueInRange(j.Of(t.reduce), t.index, now);
    CounterTimed(log + [HandOut(t, now)], id, t.reduce, j.Of(t.reduce), t.index, now);
  }

  lemma DueInRange(p: Phase, i: nat, now: int)
    ensures Due(p, i, now) ==> i < |p.time|
  {
  }

  lemma ArraysTimed(log: seq<Event>, id: int, reduce: bool, p: Phase, t: Task, now: int)
    requires ArraysInv(log, id, reduce, p) && now > 0
    requires id == t.job && reduce == t.reduce ==> Due(p, t.index, now)
    ensures ArraysInv(log + [HandOut(t, now)], id, reduce, if id == t.job && reduce == t.reduce then Timed(p, t.index, now) else p)
  {
    forall i: nat | i < |p.time|
      ensures WasHandedOut(log + [HandOut(t, now)], |log| + 1, Task(id, i, reduce)) <==> WasHandedOut(log, |log|, Task(id, i, reduce)) || t == Task(id, i, reduce)
    {
      HandedOutMore(log, HandOut(t, now), 0, Task(id, i, reduce));
    }
  }

  // An event that is no report of this kind.
  lemma CounterKept(log: seq<Event>, id: int, reduce: bool, p: Phase, e: Event)
    requires CounterInv(log, id, reduce, p) && !IsReport(e, id, reduce)
    ensures CounterInv(log + [e], id, reduce, p)
  {
    ReportsMore(log, e, id, reduce);
    UnrepeatedMore(log, e, id, reduce);
  }

  lemma CounterTimed(log: seq<Event>, id: int, reduce: bool, p: Phase, i: nat, now: int)
    ensures i < |p.time| && CounterInv(log, id, reduce, p) ==> CounterInv(log, id, reduce, Timed(p, i, now))
  {
  }

  lemma HandOutSpaced(jobs: map<int, Job>, log: seq<Event>, t: Task, now: int)
    requires t.job in jobs && JobInv(log, t.job, jobs[t.job]) && Spaced(log) && now > 0
    requires Due(jobs[t.job].Of(t.reduce), t.index, now)
    ensures Spaced(log + [HandOut(t, now)])
  {
    hide CounterInv, WasHandedOut;
    assert ArraysInv(log, t.job, t.reduce, jobs[t.job].Of(t.reduce));
    forall i | 0 <= i < |log| && log[i].HandOut? && log[i].task == t
      ensures now - log[i].time >= 10
    {
      assert log[i] in log;
    }
  }

  // A task that was handed out before is due again only while it has not succeeded.
  lemma HandOutAgain(jobs: map<int, Job>, log: seq<Event>, t: Task, now: int)
    requires t.job in jobs && JobInv(log, t.job, jobs[t.job]) && NoneAgainAfterSuccess(log)
    requires Due(jobs[t.job].Of(t.reduce), t.index, now)
    ensures NoneAgainAfterSuccess(log + [HandOut(t, now)])
  {
    hide CounterInv;
    var log' := log + [HandOut(t, now)];
    var p := jobs[t.job].Of(t.reduce);
    assert ArraysInv(log, t.job, t.reduce, p);
    forall j | 0 <= j < |log'| && log'[j].HandOut? && WasHandedOut(log', j, log'[j].task)
      ensures Success(log'[j].task) !in log'[..j]
    {
      HandedOutMore(log, HandOut(t, now), j, log'[j].task);
      assert log'[..j] == log[..j];
      if j < |log| {
        assert log'[j] == log[j];
      } else {
        var i :| 0 <= i < |log| && log[i].HandOut? && log[i].task == t;
        assert log[i] in log && log[..j] == log;
      }
    }
  }

  lemma HandOutOpened(jobs: map<int, Job>, log: seq<Event>, t: Task, now: int)
    requires t.job in jobs && JobInv(log, t.job, jobs[t.job]) && jobs[t.job].Open(t.reduce) && ReducesOpened(log, jobs)
    requires t.index < |jobs[t.job].Of(t.reduce).time|
    ensures ReducesOpened(log + [HandOut(t, now)], jobs[t.job := jobs[t.job].With(t.reduce, Timed(jobs[t.job].Of(t.reduce), t.index, now))])
  {
    hide OpenedAfter, PhaseInv;
    var log' := log + [HandOut(t, now)];
    var jobs' := jobs[t.job := jobs[t.job].With(t.reduce, Timed(jobs[t.job].Of(t.reduce), t.index, now))];
    forall j | 0 <= j < |log'| && log'[j].HandOut? && log'[j].task.reduce && log'[j].task.job in jobs'
      ensures OpenedAfter(log'[..j], log'[j].task.job, |jobs'[log'[j].task.job].maps.time|)
    {
      assert log'[..j] == log[..j];
      if j < |log| {
        assert log'[j] == log[j];
      } else {
        assert log[..j] == log;
        OpenNow(log, t.job, jobs[t.job].maps);
      }
    }
  }

  lemma OpenNow(log: seq<Event>, id: int, p: Phase)
    requires PhaseInv(log, id, false, p) && p.finished == |p.time|
    ensures OpenedAfter(log, id, |p.time|)
  {
    hide ArraysInv, Unrepeated, MapsReported;
    AllSucceeded(log, id, false, p);
  }

  // The phase after a success of task i.
  function Succeeded(p: Phase, i: nat): Phase
    requires i < |p.success|
  {
    p.(success := p.success[i := true], finished := p.finished + 1)
  }

  /** What update_job_info makes of a reported success. */
  function Reported(j: Job, reduce: bool, i: nat): Job
    requires i < |j.Of(reduce).success|
  {
    var j' := j.With(reduce, Succeeded(j.Of(reduce), i));
    if reduce && j'.reduces.finished == |j'.reduces.time| then j'.(done := true, failed := false) else j'
  }

  lemma JobReported(log: seq<Event>, id: int, j: Job, t: Task)
    requires JobInv(log, id, j) && (id == t.job ==> !j.done && t.index < |j.Of(t.reduce).success|)
    ensures JobInv(log + [Success(t)], id, if id == t.job then Reported(j, t.reduce, t.index) else j)
  {
    hide PhaseInv;
    if id == t.job {
      PhaseReported(log, t, j.Of(t.reduce));
      PhaseOther(log, id, !t.reduce, j.Of(!t.reduce), t);
      PhaseLengths(log, id, t.reduce, j.Of(t.reduce));
    } else {
      PhaseOther(log, id, false, j.maps, t);
      PhaseOther(log, id, true, j.reduces, t);
    }
  }

  lemma PhaseLengths(log: seq<Event>, id: int, reduce: bool, p: Phase)
    requires PhaseInv(log, id, reduce, p)
    ensures |p.success| == |p.time|
  {
  }

  lemma PhaseReported(log: seq<Event>, t: Task, p: Phase)
    requires PhaseInv(log, t.job, t.reduce, p) && t.index < |p.success|
    ensures PhaseInv(log + [Success(t)], t.job, t.reduce, Succeeded(p, t.index))
  {
    ArraysReported(log, t.job, t.reduce, p, t);
    hide WasHandedOut, Unrepeated, CountTrue;
    ReportsMore(log, Success(t), t.job, t.reduce);
    UnrepeatedMore(log, Success(t), t.job, t.reduce);
    if p.success[t.index] {
      assert p.success[t.index := true] == p.success;
    } else {
      CountSet(p.success, t.index);
    }
  }

  lemma ArraysReported(log: seq<Event>, id: int, reduce: bool, p: Phase, t: Task)
    requires ArraysInv(log, id, reduce, p)
    requires id == t.job && reduce == t.reduce ==> t.index < |p.success|
    ensures ArraysInv(log + [Success(t)], id, reduce, if id == t.job && reduce == t.reduce then Succeeded(p, t.index) else p)
  {
    forall i: nat | i < |p.time|
      ensures WasHandedOut(log + [Success(t)], |log| + 1, Task(id, i, reduce)) <==> WasHandedOut(log, |log|, Task(id, i, reduce))
    {
      HandedOutMore(log, Success(t), 0, Task(id, i, reduce));
    }
  }

  // A success of another kind or another job.
  lemma PhaseOther(log: seq<Event>, id: int, reduce: bool, p: Phase, t: Task)
    requires PhaseInv(log, id, reduce, p) && (t.job != id || t.reduce != reduce)
    ensures PhaseInv(log + [Success(t)], id, reduce, p)
  {
    hide ArraysInv, CounterInv;
    ArraysReported(log, id, reduce, p, t);
    CounterKept(log, id, reduce, p, Success(t));
  }

  /** A success is reported: the counters and the log keep in step. */
  lemma ReportKeeps(jobs: map<int, Job>, log: seq<Event>, t: Task)
    requires JobsInv(jobs, log) && LogInv(jobs, log) && t.job in jobs && !jobs[t.job].done && t.index < |jobs[t.job].Of(t.reduce).success|
    ensures var jobs' := jobs[t.job := Reported(jobs[t.job], t.reduce, t.index)];
      JobsInv(jobs', log + [Success(t)]) && LogInv(jobs', log + [Success(t)])
  {
    hide JobInv, Spaced, NoneAgainAfterSuccess, ReducesOpened;
    var jobs' := jobs[t.job := Reported(jobs[t.job], t.reduce, t.index)];
    var log' := log + [Success(t)];
    forall id | id in jobs'
      ensures JobInv(log', id, jobs'[id])
    {
      JobReported(log, id, jobs[id], t);
    }
    ReportLog(log, t);
    ReportOpened(jobs, log, t);
  }

  lemma ReportLog(log: seq<Event>, t: Task)
    requires Spaced(log) && NoneAgainAfterSuccess(log)
    ensures Spaced(log + [Success(t)]) && NoneAgainAfterSuccess(log + [Success(t)])
  {
    var log' := log + [Success(t)];
    forall j | 0 <= j < |log'| && log'[j].HandOut? && WasHandedOut(log', j, log'[j].task)
      ensures Success(log'[j].task) !in log'[..j]
    {
      HandedOutMore(log, Success(t), j, log'[j].task);
      assert log'[..j] == log[..j] && log'[j] == log[j];
    }
  }

  lemma ReportOpened(jobs: map<int, Job>, log: seq<Event>, t: Task)
    requires ReducesOpened(log, jobs) && t.job in jobs && t.index < |jobs[t.job].Of(t.reduce).success|
    ensures ReducesOpened(log + [Success(t)], jobs[t.job := Reported(jobs[t.job], t.reduce, t.index)])
  {
    hide OpenedAfter;
    var log' := log + [Success(t)];
    var jobs' := jobs[t.job := Reported(jobs[t.job], t.reduce, t.index)];
    forall j | 0 <= j < |log'| && log'[j].HandOut? && log'[j].task.reduce && log'[j].task.job in jobs'
      ensures OpenedAfter(log'[..j], log'[j].task.job, |jobs'[log'[j].task.job].maps.time|)
    {
      assert log'[..j] == log[..j] && log'[j] == log[j];
    }
  }

  /* ----- what the invariant says ----- */

  /**
   Whether the reduces of a job may run depends on the number of reports alone. While no map is
   reported twice they may run exactly when every map has succeeded; afterwards never both.
   */
  lemma ReducesOpen(queue: seq<int>, jobs: map<int, Job>, log: seq<Event>, id: int)
    requires Inv(queue, jobs, log) && id in jobs
    ensures var all := forall m | 0 <= m < |jobs[id].maps.success| :: jobs[id].maps.success[m];
      && (jobs[id].Open(true) <==> Reports(log, id, false) == |jobs[id].maps.time|)
      && (jobs[id].Open(true) ==> (all <==> Unrepeated(log, id, false)))
      && (all ==> (jobs[id].Open(true) <==> Unrepeated(log, id, false)))
  {
    hide QueueInv, LogInv, Unrepeated, ArraysInv, Reports;
    assert JobInv(log, id, jobs[id]);
    AllSucceeded(log, id, false, jobs[id].maps);
  }

  /** When a reduce task is handed out, every map of its job has succeeded if and only if no map was reported twice by then. */
  lemma MapsFirst(queue: seq<int>, jobs: map<int, Job>, log: seq<Event>, j: nat)
    requires Inv(queue, jobs, log) && j < |log| && log[j].HandOut? && log[j].task.reduce
    ensures log[j].task.job in jobs
    ensures MapsReported(log[..j], log[j].task.job, |jobs[log[j].task.job].maps.time|) <==> Unrepeated(log[..j], log[j].task.job, false)
  {
    hide QueueInv, JobInv, Unrepeated, MapsReported, Reports;
    assert log[j] in log;
    assert OpenedAfter(log[..j], log[j].task.job, |jobs[log[j].task.job].maps.time|);
  }

  lemma ReportsAtHandOut(log: seq<Event>, jobs: map<int, Job>, j: nat)
    requires ReducesOpened(log, jobs) && j < |log|
    ensures (log[j].HandOut? && log[j].task.reduce && log[j].task.job in jobs) ==>
      Reports(log[..j], log[j].task.job, false) == |jobs[log[j].task.job].maps.time|
  {
    hide Unrepeated, MapsReported, Reports;
    assert log[..j] == log[..j];
  }

  /** Once there were more map reports than map tasks, no reduce task of the job is handed out any more. */
  lemma NeverOpens(queue: seq<int>, jobs: map<int, Job>, log: seq<Event>, id: int, i: nat, j: nat)
    requires Inv(queue, jobs, log) && id in jobs && i <= j < |log|
    requires Reports(log[..i], id, false) > |jobs[id].maps.time|
    ensures !(log[j].HandOut? && log[j].task.job == id && log[j].task.reduce)
  {
    hide QueueInv, JobsInv, Unrepeated, MapsReported;
    ReportsGrow(log[..j], i, id, false);
    assert log[..j][..i] == log[..i];
    ReportsAtHandOut(log, jobs, j);
  }

  /** No task is handed out after its success, if and only if no task that is ever handed out is reported before that. */
  lemma HandedOutThenReported(queue: seq<int>, jobs: map<int, Job>, log: seq<Event>)
    requires Inv(queue, jobs, log)
    ensures NoneAfterSuccess(log) <==>
      forall i | 0 <= i < |log| && log[i].Success? && WasHandedOut(log, |log|, log[i].task) :: WasHandedOut(log, i, log[i].task)
  {
    hide QueueInv, JobsInv, Spaced, ReducesOpened;
    if NoneAfterSuccess(log) {
      forall i | 0 <= i < |log| && log[i].Success? && WasHandedOut(log, |log|, log[i].task)
        ensures WasHandedOut(log, i, log[i].task)
      {
        var h :| 0 <= h < |log| && log[h].HandOut? && log[h].task == log[i].task;
        assert h < i;
      }
    } else {
      var i, j :| 0 <= i < j < |log| && log[i].Success? && log[j].HandOut? && log[i].task == log[j].task;
      assert log[..j][i] == Success(log[j].task);
      assert !WasHandedOut(log, j, log[j].task);
    }
  }

  /** A task that has succeeded may be handed out exactly when it never was before. */
  lemma ReportedUnseen(p: Phase, i: nat, now: int)
    requires i < |p.time| == |p.success| && p.success[i]
    ensures Due(p, i, now) <==> p.time[i] == 0
  {
  }

  // The place of the first reduce task of a job in the log.
  function FirstReduce(log: seq<Event>, id: int): (h: nat)
    ensures h <= |log|
    ensures forall k | 0 <= k < h :: !(log[k].HandOut? && log[k].task.job == id && log[k].task.reduce)
    ensures h < |log| ==> log[h].HandOut? && log[h].task.job == id && log[h].task.reduce
  {
    if log == [] then 0
    else
      var h := FirstReduce(log[..|log| - 1], id);
      var last := log[|log| - 1];
      if h < |log| - 1 || (last.HandOut? && last.task.job == id && last.task.reduce) then h else |log|
  }

  /**
   A job done and not failed has every reduce succeeded exactly when no reduce was reported twice. If successes
   are reported for tasks handed out before, its maps were all done when its first reduce task was handed out,
   exactly when no map was reported twice by then.
   */
  lemma DoneMeansAll(queue: seq<int>, jobs: map<int, Job>, log: seq<Event>, id: int)
    requires Inv(queue, jobs, log) && id in jobs && jobs[id].done && !jobs[id].failed
    ensures (forall i | 0 <= i < |jobs[id].reduces.success| :: jobs[id].reduces.success[i]) <==> Unrepeated(log, id, true)
    ensures var h := FirstReduce(log, id);
      Genuine(log) ==> h < |log| && (MapsReported(log[..h], id, |jobs[id].maps.time|) <==> Unrepeated(log[..h], id, false))
    ensures Genuine(log) && Unrepeated(log, id, false) ==> forall m | 0 <= m < |jobs[id].maps.success| :: jobs[id].maps.success[m]
  {
    hide QueueInv, Spaced, NoneAgainAfterSuccess, Unrepeated, ArraysInv;
    assert JobInv(log, id, jobs[id]);
    AllSucceeded(log, id, true, jobs[id].reduces);
    if Genuine(log) {
      var k := ReportsWitness(log, id, true);
      assert WasHandedOut(log, k, log[k].task);
      var h := FirstReduce(log, id);
      assert h < |log|;
      MapsFirst(queue, jobs, log, h);
      if Unrepeated(log, id, false) {
        UnrepeatedPrefix(log, h, id, false);
        AllSucceeded(log, id, false, jobs[id].maps);
        assert MapsReported(log, id, |jobs[id].maps.time|);
      }
    }
  }

  /* ----- runs of one job ----- */

  // What may happen to a job: a task that is due is handed out, or a task handed out before is reported.
  ghost predicate May(j: Job, log: seq<Event>, e: Event) {
    && !j.done
    && e.task.index < |j.Of(e.task.reduce).time| == |j.Of(e.task.reduce).success|
    && match e
       case HandOut(t, now) => now > 0 && j.Open(t.reduce) && Due(j.Of(t.reduce), t.index, now)
       case Success(t) => WasHandedOut(log, |log|, t)
  }

  function Perform(j: Job, e: Event): Job
    requires e.task.index < |j.Of(e.task.reduce).time| == |j.Of(e.task.reduce).success|
  {
    match e
    case HandOut(t, now) => j.With(t.reduce, Timed(j.Of(t.reduce), t.index, now))
    case Success(t) => Reported(j, t.reduce, t.index)
  }

  /** The events es can happen to job id, one after the other, after those of log. */
  ghost predicate Plays(j: Job, id: int, log: seq<Event>, es: seq<Event>)
    decreases |es|
  {
    es != [] ==> es[0].task.job == id && May(j, log, es[0]) && Plays(Perform(j, es[0]), id, log + [es[0]], es[1..])
  }

  ghost function Played(j: Job, id: int, log: seq<Event>, es: seq<Event>): Job
    requires Plays(j, id, log, es)
    decreases |es|
  {
    if es == [] then j else Played(Perform(j, es[0]), id, log + [es[0]], es[1..])
  }

  lemma GenuineMore(log: seq<Event>, e: Event)
    requires Genuine(log) && (e.Success? ==> WasHandedOut(log, |log|, e.task))
    ensures Genuine(log + [e])
  {
    var l := log + [e];
    forall j | 0 <= j < |l| && l[j].Success?
      ensures WasHandedOut(l, j, l[j].task)
    {
      HandedOutMore(log, e, j, l[j].task);
      assert j < |log| ==> l[j] == log[j];
    }
  }

  /** Runs of a job are runs of the coordinator, and all its reports are genuine. */
  lemma {:induction false} PlaysKeeps(jobs: map<int, Job>, log: seq<Event>, id: int, es: seq<Event>)
    requires JobsInv(jobs, log) && LogInv(jobs, log) && id in jobs && Genuine(log) && Plays(jobs[id], id, log, es)
    ensures var jobs' := jobs[id := Played(jobs[id], id, log, es)];
      JobsInv(jobs', log + es) && LogInv(jobs', log + es) && Genuine(log + es)
    decreases |es|
  {
    hide JobsInv, LogInv, Genuine;
    if es == [] {
      assert log + es == log && jobs[id := jobs[id]] == jobs;
    } else {
      var j := Perform(jobs[id], es[0]);
      GenuineMore(log, es[0]);
      if es[0].HandOut? {
        TaskGiven(jobs, log, es[0].task, es[0].time);
      } else {
        ReportKeeps(jobs, log, es[0].task);
      }
      PlaysKeeps(jobs[id := j], log + [es[0]], id, es[1..]);
      assert log + [es[0]] + es[1..] == log + es;
      assert jobs[id := j][id := Played(j, id, log + [es[0]], es[1..])] == jobs[id := Played(j, id, log + [es[0]], es[1..])];
    }
  }

  /**
   A map task that is handed out again after the timeout and then finished by both workers counts twice: with
   two maps, the reduces open and one of them is handed out while the other map is not done.
   */
  lemma RepeatedReports()
    ensures var m := Task(1, 0, false);
      var es := [HandOut(m, 1), HandOut(Task(1, 1, false), 2), HandOut(m, 11), Success(m), Success(m), HandOut(Task(1, 0, true), 11)];
      Plays(Job(NewPhase(2), NewPhase(1), false, false), 1, [], es) && !MapsReported(es, 1, 2)
  {
    hide Plays, Played;
    var m, m1, r := Task(1, 0, false), Task(1, 1, false), Task(1, 0, true);
    var es := [HandOut(m, 1), HandOut(m1, 2), HandOut(m, 11), Success(m), Success(m), HandOut(r, 11)];
    assert Success(m1) !in es;
    var js := [Twice([0, 0], [false, false], 0), Twice([1, 0], [false, false], 0), Twice([1, 2], [false, false], 0),
               Twice([11, 2], [false, false], 0), Twice([11, 2], [true, false], 1), Twice([11, 2], [true, false], 2)];
    PlaysNothing(Perform(js[5], es[5]), 1, es[..6]);
    assert es[6..] == [];
    for k := 6 downto 0
      invariant k < 6 ==> Plays(js[k], 1, es[..k], es[k..])
    {
      if k == 3 || k == 4 {
        assert es[..k][0].HandOut?;
      }
      assert k < 5 ==> Perform(js[k], es[k]) == js[k + 1];
      PlayOn(js[k], 1, es, k);
    }
    assert es[..0] == [] && es[0..] == es && js[0] == Job(NewPhase(2), NewPhase(1), false, false);
  }

  // A job whose reduces nobody has touched.
  function Twice(time: seq<int>, success: seq<bool>, finished: nat): Job {
    Job(Phase(time, success, finished), NewPhase(1), false, false)
  }

  lemma PlaysNothing(j: Job, id: int, log: seq<Event>)
    ensures Plays(j, id, log, []) && Played(j, id, log, []) == j
  {
  }

  lemma PlayOn(j: Job, id: int, es: seq<Event>, k: nat)
    requires k < |es| && es[k].task.job == id && May(j, es[..k], es[k]) && Plays(Perform(j, es[k]), id, es[..k + 1], es[k + 1..])
    ensures Plays(j, id, es[..k], es[k..])
    ensures Played(j, id, es[..k], es[k..]) == Played(Perform(j, es[k]), id, es[..k + 1], es[k + 1..])
  {
    assert es[k..][1..] == es[k + 1..] && es[..k] + [es[k]] == es[..k + 1];
  }

  /**
   The counter is compared for equality: when it has passed the number of maps before any reduce task
   was handed out, none ever is, and the job is never done.
   */
  lemma {:induction false} StuckForever(j: Job, id: int, log: seq<Event>, es: seq<Event>)
    requires Plays(j, id, log, es) && !j.done && j.maps.finished > |j.maps.time|
    requires forall i: nat :: !WasHandedOut(log, |log|, Task(id, i, true))
    ensures !Played(j, id, log, es).done
    ensures forall i: nat :: !WasHandedOut(log + es, |log + es|, Task(id, i, true))
    decreases |es|
  {
    if es == [] {
      assert log + es == log;
    } else {
      var e := es[0];
      forall i: nat
        ensures !WasHandedOut(log + [e], |log| + 1, Task(id, i, true))
      {
        HandedOutMore(log, e, 0, Task(id, i, true));
      }
      StuckForever(Perform(j, e), id, log + [e], es[1..]);
      assert log + [e] + es[1..] == log + es;
    }
  }

  /** Such a run: with one map, two reports of it pass the number of maps. */
  lemma PassedTheMaps()
    ensures var m := Task(1, 0, false);
      var j := Job(NewPhase(1), NewPhase(1), false, false);
      var es := [HandOut(m, 1), HandOut(m, 11), Success(m), Success(m)];
      && Plays(j, 1, [], es)
      && Played(j, 1, [], es) == Twice([11], [true], 2)
      && forall i: nat :: !WasHandedOut(es, |es|, Task(1, i, true))
  {
    hide Plays, Played;
    var m := Task(1, 0, false);
    var es := [HandOut(m, 1), HandOut(m, 11), Success(m), Success(m)];
    var js := [Twice([0], [false], 0), Twice([1], [false], 0), Twice([11], [false], 0), Twice([11], [true], 1), Twice([11], [true], 2)];
    PlaysNothing(js[4], 1, es[..4]);
    assert es[4..] == [];
    for k := 4 downto 0
      invariant Plays(js[k], 1, es[..k], es[k..]) && Played(js[k], 1, es[..k], es[k..]) == js[4]
    {
      if k >= 2 {
        assert es[..k][0].HandOut?;
      }
      assert Perform(js[k], es[k]) == js[k + 1];
      PlayOn(js[k], 1, es, k);
    }
    assert es[..0] == [] && es[0..] == es && js[0] == Job(NewPhase(1), NewPhase(1), false, false);
  }

  /**
   On the side of the reduces: one that is handed out again after the timeout and reported by both workers makes
   up for one that is not done. The job is reported done without the output of the other.
   */
  lemma DoneWithoutAll()
    ensures var m, r := Task(1, 0, false), Task(1, 0, true);
      var j := Job(NewPhase(1), NewPhase(2), false, false);
      var es := [HandOut(m, 1), Success(m), HandOut(r, 2), HandOut(Task(1, 1, true), 3), HandOut(r, 12), Success(r), Success(r)];
      && Plays(j, 1, [], es) && Played(j, 1, [], es).done && !Played(j, 1, [], es).failed
      && Played(j, 1, [], es).reduces.success == [true, false]
  {
    hide Plays, Played;
    var m, r, r1 := Task(1, 0, false), Task(1, 0, true), Task(1, 1, true);
    var es := [HandOut(m, 1), Success(m), HandOut(r, 2), HandOut(r1, 3), HandOut(r, 12), Success(r), Success(r)];
    var js := [Thrice(0, [0, 0], false, 0, false), Thrice(1, [0, 0], false, 0, false), Thrice(1, [0, 0], false, 0, true),
               Thrice(1, [2, 0], false, 0, true), Thrice(1, [2, 3], false, 0, true), Thrice(1, [12, 3], false, 0, true),
               Thrice(1, [12, 3], true, 1, true), Thrice(1, [12, 3], true, 2, true)];
    var last := js[7].(done := true);
    PlaysNothing(last, 1, es[..7]);
    assert es[7..] == [];
    for k := 7 downto 0
      invariant k < 7 ==> Plays(js[k], 1, es[..k], es[k..]) && Played(js[k], 1, es[..k], es[k..]) == last
      invariant k == 7 ==> Plays(last, 1, es[..k], es[k..]) && Played(last, 1, es[..k], es[k..]) == last
    {
      if k == 1 {
        assert es[..k][0].HandOut?;
      }
      if k >= 5 {
        assert es[..k][2].HandOut?;
      }
      assert Perform(js[k], es[k]) == if k < 6 then js[k + 1] else last;
      PlayOn(js[k], 1, es, k);
    }
    assert es[..0] == [] && es[0..] == es && js[0] == Job(NewPhase(1), NewPhase(2), false, false);
  }

  // One map and two reduces, of which the second has not been reported.
  function Thrice(mapTime: int, time: seq<int>, first: bool, finished: nat, mapped: bool): Job {
    Job(Phase([mapTime], [mapped], if mapped then 1 else 0), Phase(time, [first, false], finished), false, false)
  }

  /** Only the report of a reduce finishes a job: one without reduce tasks never is. */
  lemma {:induction false} NothingToReduce(j: Job, id: int, log: seq<Event>, es: seq<Event>)
    requires Plays(j, id, log, es) && !j.done && |j.reduces.time| == 0
    ensures !Played(j, id, log, es).done
    decreases |es|
  {
    if es != [] {
      NothingToReduce(Perform(j, es[0]), id, log + [es[0]], es[1..]);
    }
  }

  /* ----- the handlers ----- */

  function NewPhase(n: nat): Phase {
    Phase(seq(n, i => 0), seq(n, i => false), 0)
  }

  lemma NothingYet()
    ensures Inv([], map[], [])
  {
    assert forall e: Event :: e !in [];
  }

  lemma NewPhaseHolds(log: seq<Event>, id: int, reduce: bool, n: nat)
    requires forall e | e in log :: e.task.job != id
    ensures PhaseInv(log, id, reduce, NewPhase(n))
  {
    CountNone(NewPhase(n).success);
    NoReports(log, id, reduce);
  }

  lemma {:induction false} NoReports(log: seq<Event>, id: int, reduce: bool)
    requires forall e | e in log :: e.task.job != id
    ensures Reports(log, id, reduce) == 0 && Unrepeated(log, id, reduce)
  {
    if log != [] {
      NoReports(log[..|log| - 1], id, reduce);
    }
  }

  lemma NewJobKeeps(queue: seq<int>, jobs: map<int, Job>, log: seq<Event>, id: int, nMap: nat, nReduce: nat)
    requires Inv(queue, jobs, log) && id !in jobs
    ensures Inv(queue + [id], jobs[id := Job(NewPhase(nMap), NewPhase(nReduce), false, false)], log)
  {
    hide Spaced, NoneAgainAfterSuccess, PhaseInv, OpenedAfter, NewPhase;
    assert forall e | e in log :: e.task.job != id;
    NewPhaseHolds(log, id, false, nMap);
    NewPhaseHolds(log, id, true, nReduce);
    assert forall j | 0 <= j < |log| :: log[j] in log;
  }

  // The job leaves the queue when it is done.
  lemma QueueLeft(queue: seq<int>, jobs: map<int, Job>, id: int, k: nat, j: Job)
    requires QueueInv(queue, jobs) && k < |queue| && queue[k] == id && j.done
    ensures QueueInv(queue[..k] + queue[k + 1..], jobs[id := j])
  {
    var q := queue[..k] + queue[k + 1..];
    forall x
      ensures x in q <==> x in queue && x != id
    {
      if x in queue && x != id {
        var i :| 0 <= i < |queue| && queue[i] == x;
        assert x == if i < k then q[i] else q[i - 1];
      }
    }
  }

  lemma FailedKeeps(jobs: map<int, Job>, log: seq<Event>, id: int)
    requires JobsInv(jobs, log) && LogInv(jobs, log) && id in jobs
    ensures var jobs' := jobs[id := jobs[id].(done := true, failed := true)]; JobsInv(jobs', log) && LogInv(jobs', log)
  {
    hide Spaced, NoneAgainAfterSuccess, PhaseInv;
    assert JobInv(log, id, jobs[id]);
  }

  lemma JobLengths(jobs: map<int, Job>, log: seq<Event>, id: int, reduce: bool)
    requires JobsInv(jobs, log) && id in jobs
    ensures |jobs[id].Of(reduce).success| == |jobs[id].Of(reduce).time|
  {
    hide CounterInv;
    assert JobInv(log, id, jobs[id]);
  }

  lemma QueueInJobs(queue: seq<int>, jobs: map<int, Job>, log: seq<Event>)
    requires Inv(queue, jobs, log)
    ensures forall k | 0 <= k < |queue| :: queue[k] in jobs
    ensures forall id | id in queue :: id in jobs
  {
    hide JobsInv, LogInv;
    assert forall k | 0 <= k < |queue| :: queue[k] in queue;
  }

  lemma LengthsOf(queue: seq<int>, jobs: map<int, Job>, log: seq<Event>, id: int, reduce: bool)
    requires Inv(queue, jobs, log) && id in jobs
    ensures |jobs[id].Of(reduce).success| == |jobs[id].Of(reduce).time|
  {
    hide JobsInv, QueueInv, LogInv;
    JobLengths(jobs, log, id, reduce);
  }

  /**
   What a success report changes in a job: the task has succeeded, one more of its kind is finished, and the job is
   done when these are as many as there are reduce tasks.
   */
  ghost predicate Counted(j: Job, j': Job, t: Task) {
    var p, p' := j.Of(t.reduce), j'.Of(t.reduce);
    && |p'.success| == |p.success| && t.index < |p.success| && p'.success[t.index]
    && (forall i | 0 <= i < |p.success| && i != t.index :: p'.success[i] == p.success[i])
    && p'.finished == p.finished + 1 && p'.time == p.time && j'.Of(!t.reduce) == j.Of(!t.reduce)
    && (t.reduce && p.finished + 1 == |p.time| ==> j'.done && !j'.failed)
    && (!(t.reduce && p.finished + 1 == |p.time|) ==> j'.done == j.done && j'.failed == j.failed)
  }

  lemma ReportedIsCounted(j: Job, t: Task)
    requires t.index < |j.Of(t.reduce).success|
    ensures Counted(j, Reported(j, t.reduce, t.index), t)
  {
  }

  /** n tasks, none of them handed out or reported. */
  ghost predicate Untouched(p: Phase, n: nat) {
    |p.time| == |p.success| == n && p.finished == 0 && forall i | 0 <= i < n :: p.time[i] == 0 && !p.success[i]
  }

  lemma NewIsUntouched(n: nat)
    ensures Untouched(NewPhase(n), n)
  {
  }

  /* ----- whose turn it is ----- */

  // A task of this kind was handed out ten seconds before now or earlier and has not been reported.
  ghost predicate Late(p: Phase, i: nat, now: int) {
    i < |p.time| && i < |p.success| && p.time[i] != 0 && p.time[i] + 10 <= now && !p.success[i]
  }

  ghost predicate NoneLate(j: Job, reduce: bool, now: int) {
    forall i: nat | i < |j.Of(reduce).time| :: !Late(j.Of(reduce), i, now)
  }

  ghost predicate NoneNew(j: Job, reduce: bool) {
    forall i: nat | i < |j.Of(reduce).time| :: j.Of(reduce).time[i] != 0
  }

  /** Nothing of the job that may be handed out is late; nothing of it is new. */
  ghost predicate NothingLate(j: Job, now: int) {
    NoneLate(j, false, now) && (j.maps.finished == |j.maps.time| ==> NoneLate(j, true, now))
  }

  ghost predicate NothingNew(j: Job) {
    NoneNew(j, false) && (j.maps.finished == |j.maps.time| ==> NoneNew(j, true))
  }

  /**
   The late task t is the first there is: no job before its own in the queue had a late task when the search began,
   nor had this job a late map if t is a reduce, nor a late task of the same kind with a lower index.
   */
  ghost predicate FirstLate(queue: seq<int>, jobs: map<int, Job>, t: Task, began: int, now: int) {
    && t.job in jobs && Late(jobs[t.job].Of(t.reduce), t.index, now)
    && (t.reduce ==> jobs[t.job].maps.finished == |jobs[t.job].maps.time| && NoneLate(jobs[t.job], false, began))
    && (forall i: nat | i < t.index :: !Late(jobs[t.job].Of(t.reduce), i, began))
    && exists n: nat :: n < |queue| && queue[n] == t.job && forall m | 0 <= m < n :: queue[m] in jobs && NothingLate(jobs[queue[m]], began)
  }

  /** The same for a task that was never handed out. */
  ghost predicate FirstNew(queue: seq<int>, jobs: map<int, Job>, t: Task) {
    && t.job in jobs && t.index < |jobs[t.job].Of(t.reduce).time| && jobs[t.job].Of(t.reduce).time[t.index] == 0
    && (t.reduce ==> jobs[t.job].maps.finished == |jobs[t.job].maps.time| && NoneNew(jobs[t.job], false))
    && (forall i: nat | i < t.index :: jobs[t.job].Of(t.reduce).time[i] != 0)
    && exists n: nat :: n < |queue| && queue[n] == t.job && forall m | 0 <= m < n :: queue[m] in jobs && NothingNew(jobs[queue[m]])
  }

  lemma LateIsOverdue(p: Phase, i: nat, now: int)
    requires |p.time| == |p.success|
    ensures Late(p, i, now) <==> Overdue(p, i, now)
  {
  }

  lemma NoLower(p: Phase, i: nat, began: int, now: int)
    requires |p.time| == |p.success| && began <= now && forall j: nat | j < i :: !Overdue(p, j, now)
    ensures forall j: nat | j < i :: !Late(p, j, began)
  {
    forall j: nat | j < i
      ensures !Late(p, j, began)
    {
      LateIsOverdue(p, j, began);
      assert !Overdue(p, j, now);
    }
  }

  lemma NoneLateAre(j: Job, reduce: bool, now: int)
    requires |j.Of(reduce).time| == |j.Of(reduce).success|
    ensures NoneLate(j, reduce, now) <==> NoneOverdue(j.Of(reduce), now)
  {
    var p := j.Of(reduce);
    if NoneLate(j, reduce, now) {
      forall i: nat | i < |p.time| ensures !Overdue(p, i, now) { assert !Late(p, i, now); }
    }
    if NoneOverdue(p, now) {
      forall i: nat | i < |p.time| ensures !Late(p, i, now) { assert !Overdue(p, i, now); }
    }
  }

  class Server {
    var nextId: int
    var queue: seq<int>
    var jobs: map<int, Job>
    var clock: int
    ghost var log: seq<Event>

    ghost predicate Valid()
      reads this
    {
      && Inv(queue, jobs, log) && clock > 0 && nextId >= 0
      && forall id | id in jobs :: 1 <= id <= nextId
    }

    /** coordinator_init. */
    constructor (now: int)
      requires now > 0
      ensures Valid() && queue == [] && jobs == map[] && log == []
    {
      nextId, queue, jobs, clock, log := 0, [], map[], now, [];
      NothingYet();
    }

    // time: some time has passed.
    method Time() returns (t: int)
      modifies this`clock
      ensures t == clock >= old(clock)
    {
      t :| t >= clock;
      clock := t;
    }

    /** submit_job_1_svc: None when memory runs out, -1 for an unknown application. */
    method SubmitJob(nMap: nat, nReduce: nat, appKnown: bool, memory: bool) returns (result: Option<int>)
      requires Valid()
      modifies this`nextId, this`queue, this`jobs
      ensures Valid()
      ensures memory && appKnown ==> result.Some? && result.value !in old(jobs) && queue == old(queue) + [result.value]
      ensures memory && appKnown ==> jobs == old(jobs)[result.value := Job(NewPhase(nMap), NewPhase(nReduce), false, false)]
      ensures memory && appKnown ==> Untouched(jobs[result.value].maps, nMap) && Untouched(jobs[result.value].reduces, nReduce)
      ensures !(memory && appKnown) ==> queue == old(queue) && jobs == old(jobs) && result == if memory then Some(-1) else None
    {
      nextId := nextId + 1;
      if !memory {
        return None;
      }
      if !appKnown {
        return Some(-1);
      }
      hide Inv, NewPhase, Untouched;
      NewIsUntouched(nMap);
      NewIsUntouched(nReduce);
      NewJobKeeps(queue, jobs, log, nextId, nMap, nReduce);
      jobs := jobs[nextId := Job(NewPhase(nMap), NewPhase(nReduce), false, false)];
      queue := queue + [nextId];
      return Some(nextId);
    }

    // init_task_reply and the time stamp.
    method Assign(t: Task)
      requires Valid() && t.job in jobs && jobs[t.job].Open(t.reduce) && Due(jobs[t.job].Of(t.reduce), t.index, clock)
      modifies this`jobs, this`clock, this`log
      ensures Valid() && clock >= old(clock) && log == old(log) + [HandOut(t, clock)]
      ensures jobs == old(jobs)[t.job := old(jobs)[t.job].With(t.reduce, Timed(old(jobs)[t.job].Of(t.reduce), t.index, clock))]
    {
      hide Inv;
      var now := Time();
      HandOutKeeps(queue, jobs, log, t, now);
      jobs := jobs[t.job := jobs[t.job].With(t.reduce, Timed(jobs[t.job].Of(t.reduce), t.index, now))];
      log := log + [HandOut(t, now)];
    }

    // One of the loops of find_expired_task: a task that is overdue.
    method FindExpired(id: int, reduce: bool) returns (i: Option<nat>)
      requires Valid() && id in jobs
      modifies this`clock
      ensures Valid() && clock >= old(clock)
      ensures i.Some? ==> Overdue(jobs[id].Of(reduce), i.value, clock)
      ensures i.None? ==> NoneOverdue(jobs[id].Of(reduce), old(clock))
      ensures i.Some? ==> forall j: nat | j < i.value :: !Overdue(jobs[id].Of(reduce), j, old(clock))
    {
      hide Inv;
      var p := jobs[id].Of(reduce);
      LengthsOf(queue, jobs, log, id, reduce);
      var k := 0;
      while k < |p.time|
        invariant k <= |p.time| && clock >= old(clock)
        invariant forall j: nat | j < k :: !Overdue(p, j, old(clock))
      {
        if p.time[k] != 0 {
          var now := Time();
          if now - p.time[k] >= 10 && !p.success[k] {
            return Some(k);
          }
        }
        k := k + 1;
      }
      return None;
    }

    // One of the loops of find_unassigned_task.
    method FindUnassigned(id: int, reduce: bool) returns (i: Option<nat>)
      requires Valid() && id in jobs
      ensures i.Some? ==> Due(jobs[id].Of(reduce), i.value, clock)
      ensures i.None? <==> forall k | 0 <= k < |jobs[id].Of(reduce).time| :: jobs[id].Of(reduce).time[k] != 0
      ensures i.Some? ==> jobs[id].Of(reduce).time[i.value] == 0 && forall k | 0 <= k < i.value :: jobs[id].Of(reduce).time[k] != 0
    {
      hide Inv;
      var p := jobs[id].Of(reduce);
      LengthsOf(queue, jobs, log, id, reduce);
      var k := 0;
      while k < |p.time|
        invariant 0 <= k <= |p.time|
        invariant forall j | 0 <= j < k :: p.time[j] != 0
      {
        if p.time[k] == 0 {
          return Some(k);
        }
        k := k + 1;
      }
      return None;
    }

    /** No task that may be handed out was overdue at time now. */
    ghost predicate NothingOverdue(now: int)
      reads this
    {
      forall id, r: bool | id in queue && id in jobs && jobs[id].Open(r) :: NoneOverdue(jobs[id].Of(r), now)
    }

    // find_expired_task, over all jobs in the queue.
    method AssignExpired() returns (t: Option<Task>)
      requires Valid()
      modifies this`jobs, this`clock, this`log
      ensures Valid() && clock >= old(clock)
      ensures t.Some? ==> t.value.job in queue && t.value.job in old(jobs) && old(jobs)[t.value.job].Open(t.value.reduce) && log == old(log) + [HandOut(t.value, clock)]
      ensures t.Some? ==> Overdue(old(jobs)[t.value.job].Of(t.value.reduce), t.value.index, clock)
      ensures t.Some? ==> FirstLate(queue, old(jobs), t.value, old(clock), clock)
      ensures t.None? ==> jobs == old(jobs) && log == old(log) && NothingOverdue(old(clock))
      ensures t.None? ==> forall id | id in queue :: id in jobs && NothingLate(jobs[id], old(clock))
    {
      hide Inv, Timed, Due, Overdue, NoneOverdue, NoneLate, Late;
      QueueInJobs(queue, jobs, log);
      for n := 0 to |queue|
        invariant Valid() && clock >= old(clock) && jobs == old(jobs) && log == old(log)
        invariant forall m: nat, r: bool | m < n && jobs[queue[m]].Open(r) :: NoneOverdue(jobs[queue[m]].Of(r), old(clock))
        invariant forall m: nat | m < n :: NothingLate(jobs[queue[m]], old(clock))
      {
        var id := queue[n];
        LengthsOf(queue, jobs, log, id, false);
        LengthsOf(queue, jobs, log, id, true);
        ghost var now := clock;
        var i := FindExpired(id, false);
        var reduce := false;
        if i.None? {
          NoneOverdueBefore(jobs[id].maps, old(clock), now);
          NoneLateAre(jobs[id], false, old(clock));
          if jobs[id].maps.finished == |jobs[id].maps.time| {
            now := clock;
            i := FindExpired(id, true);
            reduce := true;
            if i.None? {
              NoneOverdueBefore(jobs[id].reduces, old(clock), now);
              NoneLateAre(jobs[id], true, old(clock));
            }
          }
        }
        if i.Some? {
          OverdueLater(jobs[id].Of(reduce), i.value, clock, clock);
          NoLower(jobs[id].Of(reduce), i.value, old(clock), now);
          now := clock;
          Assign(Task(id, i.value, reduce));
          OverdueLater(old(jobs)[id].Of(reduce), i.value, now, clock);
          LateIsOverdue(old(jobs)[id].Of(reduce), i.value, clock);
          return Some(Task(id, i.value, reduce));
        }
      }
      return None;
    }

    /** Every task of the job that may be handed out has been. */
    ghost predicate AllAssigned(id: int)
      reads this
    {
      id in jobs && forall r: bool | jobs[id].Open(r) :: forall k | 0 <= k < |jobs[id].Of(r).time| :: jobs[id].Of(r).time[k] != 0
    }

    // find_unassigned_task, over all jobs in the queue.
    method AssignUnassigned() returns (t: Option<Task>)
      requires Valid()
      modifies this`jobs, this`clock, this`log
      ensures Valid() && clock >= old(clock)
      ensures t.Some? ==> t.value.job in queue && t.value.job in old(jobs) && old(jobs)[t.value.job].Open(t.value.reduce) && log == old(log) + [HandOut(t.value, clock)]
      ensures t.Some? ==> FirstNew(queue, old(jobs), t.value)
      ensures t.None? ==> jobs == old(jobs) && log == old(log) && forall id | id in queue :: AllAssigned(id)
      ensures t.None? ==> forall id | id in queue :: id in jobs && NothingNew(jobs[id])
    {
      hide Inv, Timed, Due;
      QueueInJobs(queue, jobs, log);
      for n := 0 to |queue|
        invariant Valid() && clock >= old(clock) && jobs == old(jobs) && log == old(log)
        invariant forall m | 0 <= m < n :: AllAssigned(queue[m]) && NothingNew(jobs[queue[m]])
      {
        var id := queue[n];
        var i := FindUnassigned(id, false);
        var reduce := false;
        if i.None? && jobs[id].maps.finished == |jobs[id].maps.time| {
          i := FindUnassigned(id, true);
          reduce := true;
        }
        if i.Some? {
          Assign(Task(id, i.value, reduce));
          return Some(Task(id, i.value, reduce));
        }
      }
      return None;
    }

    /** get_task_1_svc: overdue tasks first, then tasks nobody has; None tells the worker to wait. */
    method GetTask() returns (t: Option<Task>)
      requires Valid()
      modifies this`jobs, this`clock, this`log
      ensures Valid() && clock >= old(clock)
      ensures t.Some? ==> t.value.job in queue && t.value.job in old(jobs) && old(jobs)[t.value.job].Open(t.value.reduce) && log == old(log) + [HandOut(t.value, clock)]
      ensures !old(NothingOverdue(clock)) ==> t.Some? && Overdue(old(jobs)[t.value.job].Of(t.value.reduce), t.value.index, clock)
      ensures t.None? ==> jobs == old(jobs) && log == old(log) && forall id | id in queue :: AllAssigned(id)
      ensures t.Some? ==> FirstLate(queue, old(jobs), t.value, old(clock), clock)
                          || (FirstNew(queue, old(jobs), t.value) && forall id | id in queue :: id in old(jobs) && NothingLate(old(jobs)[id], old(clock)))
      ensures t.None? ==> forall id | id in queue :: id in jobs && NothingLate(jobs[id], old(clock)) && NothingNew(jobs[id])
    {
      hide FirstLate, FirstNew, NothingLate, NothingNew, Inv;
      if |queue| == 0 {
        return None;
      }
      t := AssignExpired();
      if t.None? {
        t := AssignUnassigned();
      }
    }

    // Job t.job, at place k of the queue, turns into j; it leaves the queue when it is done.
    method Update(k: nat, id: int, j: Job)
      requires QueueInv(queue, jobs) && k < |queue| && queue[k] == id && id in jobs
      modifies this`jobs, this`queue
      ensures QueueInv(queue, jobs) && jobs == old(jobs)[id := j]
      ensures queue == if j.done then old(queue)[..k] + old(queue)[k + 1..] else old(queue)
    {
      if j.done {
        QueueLeft(queue, jobs, id, k, j);
        queue := queue[..k] + queue[k + 1..];
      } else {
        assert queue[k] in queue;
      }
      jobs := jobs[id := j];
    }

    /** finish_task_1_svc: reports on jobs that are done already are ignored. */
    method FinishTask(t: Task, success: bool)
      requires Valid() && (t.job in queue && t.job in jobs ==> t.index < |jobs[t.job].Of(t.reduce).time|)
      modifies this`jobs, this`queue, this`log
      ensures Valid()
      ensures t.job !in old(queue) ==> queue == old(queue) && jobs == old(jobs) && log == old(log)
      ensures t.job in old(queue) ==> t.job in old(jobs) && t.index < |old(jobs)[t.job].Of(t.reduce).success|
      ensures t.job in old(queue) && success ==> log == old(log) + [Success(t)]
      ensures t.job in old(queue) && success ==> jobs == old(jobs)[t.job := Reported(old(jobs)[t.job], t.reduce, t.index)]
      ensures t.job in old(queue) && !success ==> log == old(log) && jobs == old(jobs)[t.job := old(jobs)[t.job].(done := true, failed := true)]
      ensures forall id :: id in queue <==> id in jobs && !jobs[id].done
      ensures t.job in old(queue) && success ==> Counted(old(jobs)[t.job], jobs[t.job], t)
      ensures t.job in old(queue) && !jobs[t.job].done ==> queue == old(queue)
      ensures t.job in old(queue) && jobs[t.job].done ==> exists k :: 0 <= k < |old(queue)| && old(queue)[k] == t.job && queue == old(queue)[..k] + old(queue)[k + 1..]
    {
      hide JobsInv, LogInv, Reported, Counted;
      var k := Find(t.job);
      if k == |queue| {
        return;
      }
      assert queue[k] in queue;
      var j := jobs[t.job];
      JobLengths(jobs, log, t.job, t.reduce);
      if success {
        ReportKeeps(jobs, log, t);
        ReportedIsCounted(j, t);
        Update(k, t.job, Reported(j, t.reduce, t.index));
        log := log + [Success(t)];
      } else {
        FailedKeeps(jobs, log, t.job);
        Update(k, t.job, j.(done := true, failed := true));
      }
    }

    // g_list_find.
    method Find(id: int) returns (k: nat)
      ensures k <= |queue| && (k < |queue| ==> queue[k] == id) && (k == |queue| <==> id !in queue)
    {
      k := 0;
      while k < |queue| && queue[k] != id
        invariant k <= |queue| && id !in queue[..k]
      {
        k := k + 1;
      }
    }

    /** poll_job_1_svc: None for an invalid id. */
    method PollJob(id: int) returns (r: Option<(bool, bool)>)
      requires Valid()
      ensures r == if id in jobs then Some((jobs[id].done, jobs[id].failed)) else None
      ensures r.Some? ==> (r.value.0 <==> id !in queue)
    {
      if id in jobs {
        return Some((jobs[id].done, jobs[id].failed));
      }
      return None;
    }
  }
}
