/** The I/O pool of c/src/reader.c: submitters, workers and waiters that interleave at their
    critical sections. Each step below is one critical section or one wait on a condition
    variable; wake-ups may also be spurious. */
module IoPool {
  import opened Options

  type Job = nat

  /** A worker is about to take the lock, asleep on cv_jobs, reading rows for a job, past the
      broadcast of the job but not yet back under the pool lock, or gone. */
  datatype Worker = Ready | Asleep | Running(job: Job) | Finishing(job: Job) | Exited

  /** A caller in io_job_wait, about to look at its job's done flag or asleep on its job's cv. */
  datatype Caller = Looking(job: Job) | Sleeping(job: Job)

  /** The pool under its lock. History: all jobs in the order of their submission, the jobs taken
      from the queue in that order, and the jobs done. */
  datatype Pool = Pool(queue: seq<Job>, inflight: int, stop: bool, workers: seq<Worker>,
                       submitted: seq<Job>, taken: seq<Job>, done: set<Job>, callers: map<nat, Caller>)

  // ----- counting workers

  datatype Kind = Awaiting | Active

  /** Awaiting workers have been woken or are on their way to the queue; active ones hold a job
      that still counts as in flight. */
  predicate Is(kind: Kind, w: Worker) {
    match kind
    case Awaiting => w.Ready?
    case Active => w.Running? || w.Finishing?
  }

  function Count(ws: seq<Worker>, kind: Kind, n: nat): (c: nat)
    requires n <= |ws|
    ensures c <= n
  {
    if n == 0 then 0 else Count(ws, kind, n - 1) + if Is(kind, ws[n - 1]) then 1 else 0
  }

  function All(ws: seq<Worker>, kind: Kind): nat {
    Count(ws, kind, |ws|)
  }

  lemma {:induction false} CountUpdate(ws: seq<Worker>, kind: Kind, i: nat, w: Worker, n: nat)
    requires i < |ws| && n <= |ws|
    ensures Count(ws[i := w], kind, n) ==
              Count(ws, kind, n) + (if i < n && Is(kind, w) then 1 else 0) - if i < n && Is(kind, ws[i]) then 1 else 0
  {
    if n == 0 {
    } else {
      CountUpdate(ws, kind, i, w, n - 1);
    }
  }

  lemma AllUpdate(ws: seq<Worker>, kind: Kind, i: nat, w: Worker)
    requires i < |ws|
    ensures All(ws[i := w], kind) == All(ws, kind) + (if Is(kind, w) then 1 else 0) - if Is(kind, ws[i]) then 1 else 0
  {
    CountUpdate(ws, kind, i, w, |ws|);
  }

  lemma {:induction false} NoneCounted(ws: seq<Worker>, kind: Kind, n: nat)
    requires n <= |ws|
    ensures Count(ws, kind, n) == 0 <==> forall i :: 0 <= i < n ==> !Is(kind, ws[i])
  {
    if n == 0 {
    } else {
      NoneCounted(ws, kind, n - 1);
    }
  }

  function WakeAll(ws: seq<Worker>): (r: seq<Worker>)
    ensures |r| == |ws|
  {
    seq(|ws|, i requires 0 <= i < |ws| => if ws[i].Asleep? then Ready else ws[i])
  }

  lemma {:induction false} WakeAllCounts(ws: seq<Worker>, n: nat)
    requires n <= |ws|
    ensures Count(WakeAll(ws), Active, n) == Count(ws, Active, n)
  {
    if n == 0 {
    } else {
      WakeAllCounts(ws, n - 1);
    }
  }

  // ----- the invariant

  ghost predicate NoRepeat(js: seq<Job>) {
    forall i, j :: 0 <= i < j < |js| ==> js[i] != js[j]
  }

  /** The queue loses and repeats nothing and is first in, first out. */
  ghost predicate Fifo(p: Pool) {
    NoRepeat(p.submitted) && p.submitted == p.taken + p.queue
  }

  ghost predicate SomeoneRuns(ws: seq<Worker>, j: Job) {
    exists i :: 0 <= i < |ws| && ws[i] == Running(j)
  }

  /** Every job taken is either done or read by exactly one worker. */
  ghost predicate Handled(p: Pool) {
    && (forall j :: j in p.taken ==> j in p.done || SomeoneRuns(p.workers, j))
    && (forall j :: j in p.done ==> j in p.taken)
    && (forall i :: 0 <= i < |p.workers| && p.workers[i].Running? ==>
          p.workers[i].job in p.taken && p.workers[i].job !in p.done)
    && (forall i :: 0 <= i < |p.workers| && p.workers[i].Finishing? ==> p.workers[i].job in p.done)
    && forall i, k :: 0 <= i < k < |p.workers| && p.workers[i].Running? && p.workers[k].Running? ==>
         p.workers[i].job != p.workers[k].job
  }

  /** No wake-up is lost: while a worker sleeps, at least as many others are on their way to the
      queue as there are jobs in it; and none sleeps once the pool stops. */
  ghost predicate NoLostWakeup(p: Pool) {
    forall i :: 0 <= i < |p.workers| && p.workers[i].Asleep? ==> |p.queue| <= All(p.workers, Awaiting) && !p.stop
  }

  ghost predicate ExitsLast(p: Pool) {
    forall i :: 0 <= i < |p.workers| && p.workers[i].Exited? ==> p.stop && p.queue == []
  }

  /** Nobody sleeps for a job that is done. */
  ghost predicate CallersOk(p: Pool) {
    forall c :: c in p.callers ==> p.callers[c].job in p.submitted && (p.callers[c].Sleeping? ==> p.callers[c].job !in p.done)
  }

  ghost predicate PoolOk(p: Pool) {
    && |p.workers| > 0 && Fifo(p) && Handled(p) && NoLostWakeup(p) && ExitsLast(p) && CallersOk(p)
    && p.inflight == |p.queue| + All(p.workers, Active)
  }

  // ----- the steps

  /** io_pool_init. */
  function Init(nthreads: int): Pool {
    var n := if nthreads < 1 then 1 else nthreads;
    Pool([], 0, false, seq(n, i => Ready), [], [], {}, map[])
  }

  /** The signal of io_pool_submit goes to an asleep worker if there is one. */
  predicate SignalTo(ws: seq<Worker>, w: Option<nat>) {
    if w.Some? then w.value < |ws| && ws[w.value].Asleep? else forall i :: 0 <= i < |ws| ==> !ws[i].Asleep?
  }

  function Submitted(p: Pool, j: Job, w: Option<nat>): Pool
    requires SignalTo(p.workers, w)
  {
    p.(queue := p.queue + [j], inflight := p.inflight + 1, submitted := p.submitted + [j],
       workers := if w.Some? then p.workers[w.value := Ready] else p.workers)
  }

  /** The first critical section of worker_main. */
  function Taken(p: Pool, i: nat): Pool
    requires i < |p.workers|
  {
    if p.queue != [] then
      p.(queue := p.queue[1..], taken := p.taken + [p.queue[0]], workers := p.workers[i := Running(p.queue[0])])
    else p.(workers := p.workers[i := if p.stop then Exited else Asleep])
  }

  /** The job's critical section: done is set and every waiter of the job wakes up. */
  function Completed(p: Pool, i: nat): Pool
    requires i < |p.workers| && p.workers[i].Running?
  {
    var j := p.workers[i].job;
    p.(done := p.done + {j}, workers := p.workers[i := Finishing(j)],
       callers := map c | c in p.callers :: if p.callers[c] == Sleeping(j) then Looking(j) else p.callers[c])
  }

  /** io_job_wait under the lock of its job: return if the job is done, sleep otherwise. */
  function Looked(p: Pool, c: nat): Pool
    requires c in p.callers
  {
    var j := p.callers[c].job;
    p.(callers := if j in p.done then p.callers - {c} else p.callers[c := Sleeping(j)])
  }

  /** The second critical section of worker_main. */
  function Retired(p: Pool, i: nat): Pool
    requires i < |p.workers|
  {
    p.(inflight := p.inflight - 1, workers := p.workers[i := Ready])
  }

  function Stopped(p: Pool): Pool {
    p.(stop := true, workers := WakeAll(p.workers))
  }

  datatype Event = Submit(job: Job, woken: Option<nat>) | Take(worker: nat) | Complete(worker: nat) | Retire(worker: nat)
    | WakeUp(worker: nat) | Stop | WaitFor(caller: nat, job: Job) | Look(caller: nat) | WakeCaller(caller: nat)

  /** When a step can happen. Jobs are submitted once and not after the pool stops; a spurious
      wake-up finds a worker or a caller asleep. */
  predicate Enabled(p: Pool, e: Event) {
    match e
    case Submit(j, w) => !p.stop && j !in p.submitted && SignalTo(p.workers, w)
    case Take(i) => i < |p.workers| && p.workers[i].Ready?
    case Complete(i) => i < |p.workers| && p.workers[i].Running?
    case Retire(i) => i < |p.workers| && p.workers[i].Finishing?
    case WakeUp(i) => i < |p.workers| && p.workers[i].Asleep?
    case Stop => !p.stop
    case WaitFor(c, j) => c !in p.callers && j in p.submitted
    case Look(c) => c in p.callers && p.callers[c].Looking?
    case WakeCaller(c) => c in p.callers && p.callers[c].Sleeping?
  }

  function Step(p: Pool, e: Event): Pool
    requires Enabled(p, e)
  {
    match e
    case Submit(j, w) => Submitted(p, j, w)
    case Take(i) => Taken(p, i)
    case Complete(i) => Completed(p, i)
    case Retire(i) => Retired(p, i)
    case WakeUp(i) => p.(workers := p.workers[i := Ready])
    case Stop => Stopped(p)
    case WaitFor(c, j) => p.(callers := p.callers[c := Looking(j)])
    case Look(c) => Looked(p, c)
    case WakeCaller(c) => p.(callers := p.callers[c := Looking(p.callers[c].job)])
  }

  // ----- every step keeps the invariant

  lemma {:induction false} InitCounts(ws: seq<Worker>, n: nat)
    requires n <= |ws| && forall i :: 0 <= i < n ==> ws[i] == Ready
    ensures Count(ws, Active, n) == 0
  {
    NoneCounted(ws, Active, n);
  }

  lemma InitOk(nthreads: int)
    ensures PoolOk(Init(nthreads)) && |Init(nthreads).workers| == (if nthreads < 1 then 1 else nthreads)
  {
    var p := Init(nthreads);
    InitCounts(p.workers, |p.workers|);
  }

  lemma SubmittedOk(p: Pool, j: Job, w: Option<nat>)
    requires PoolOk(p) && Enabled(p, Submit(j, w))
    ensures PoolOk(Submitted(p, j, w))
  {
    var q := Submitted(p, j, w);
    if w.Some? {
      AllUpdate(p.workers, Active, w.value, Ready);
      AllUpdate(p.workers, Awaiting, w.value, Ready);
    }
    assert q.submitted == q.taken + q.queue;
    forall k | k in q.taken ensures k in q.done || SomeoneRuns(q.workers, k) {
      if SomeoneRuns(p.workers, k) {
        StillRuns(p.workers, q.workers, k);
      }
    }
  }

  lemma StillRuns(ws: seq<Worker>, us: seq<Worker>, j: Job)
    requires SomeoneRuns(ws, j) && |us| == |ws|
    requires forall i :: 0 <= i < |ws| && ws[i] == Running(j) ==> us[i] == Running(j)
    ensures SomeoneRuns(us, j)
  {
    var i :| 0 <= i < |ws| && ws[i] == Running(j);
    assert us[i] == Running(j);
  }

  lemma TakenOk(p: Pool, i: nat)
    requires PoolOk(p) && Enabled(p, Take(i))
    ensures PoolOk(Taken(p, i))
  {
    var q := Taken(p, i);
    AllUpdate(p.workers, Active, i, q.workers[i]);
    AllUpdate(p.workers, Awaiting, i, q.workers[i]);
    if p.queue != [] {
      var j := p.queue[0];
      assert p.submitted[|p.taken|] == j;
      assert q.submitted == q.taken + q.queue;
      assert j !in p.taken by {
        assert forall k :: 0 <= k < |p.taken| ==> p.submitted[k] == p.taken[k];
      }
      assert q.workers[i] == Running(j);
    }
    forall k | k in q.taken ensures k in q.done || SomeoneRuns(q.workers, k) {
      if k in p.taken && SomeoneRuns(p.workers, k) {
        StillRuns(p.workers, q.workers, k);
      }
    }
  }

  lemma CompletedOk(p: Pool, i: nat)
    requires PoolOk(p) && Enabled(p, Complete(i))
    ensures PoolOk(Completed(p, i)) && p.workers[i].job !in p.done
  {
    var q, j := Completed(p, i), p.workers[i].job;
    AllUpdate(p.workers, Active, i, Finishing(j));
    AllUpdate(p.workers, Awaiting, i, Finishing(j));
    forall k | k in q.taken ensures k in q.done || SomeoneRuns(q.workers, k) {
      if k !in p.done && k != j {
        StillRuns(p.workers, q.workers, k);
      }
    }
  }

  lemma RetiredOk(p: Pool, i: nat)
    requires PoolOk(p) && Enabled(p, Retire(i))
    ensures PoolOk(Retired(p, i))
  {
    var q := Retired(p, i);
    AllUpdate(p.workers, Active, i, Ready);
    AllUpdate(p.workers, Awaiting, i, Ready);
    forall k | k in q.taken ensures k in q.done || SomeoneRuns(q.workers, k) {
      if k !in p.done {
        StillRuns(p.workers, q.workers, k);
      }
    }
  }

  lemma WokenOk(p: Pool, i: nat)
    requires PoolOk(p) && Enabled(p, WakeUp(i))
    ensures PoolOk(Step(p, WakeUp(i)))
  {
    var q := Step(p, WakeUp(i));
    AllUpdate(p.workers, Active, i, Ready);
    AllUpdate(p.workers, Awaiting, i, Ready);
    forall k | k in q.taken ensures k in q.done || SomeoneRuns(q.workers, k) {
      if k !in p.done {
        StillRuns(p.workers, q.workers, k);
      }
    }
  }

  lemma StoppedOk(p: Pool)
    requires PoolOk(p)
    ensures PoolOk(Stopped(p))
  {
    var q := Stopped(p);
    WakeAllCounts(p.workers, |p.workers|);
    forall k | k in q.taken ensures k in q.done || SomeoneRuns(q.workers, k) {
      if k !in p.done {
        StillRuns(p.workers, q.workers, k);
      }
    }
  }

  lemma StepOk(p: Pool, e: Event)
    requires PoolOk(p) && Enabled(p, e)
    ensures PoolOk(Step(p, e))
  {
    match e
    case Submit(j, w) => SubmittedOk(p, j, w);
    case Take(i) => TakenOk(p, i);
    case Complete(i) => CompletedOk(p, i);
    case Retire(i) => RetiredOk(p, i);
    case WakeUp(i) => WokenOk(p, i);
    case Stop => StoppedOk(p);
    case WaitFor(c, j) =>
    case Look(c) =>
    case WakeCaller(c) =>
  }

  // ----- runs

  /** A run: states joined by enabled steps. */
  ghost predicate IsRun(ps: seq<Pool>, es: seq<Event>) {
    |ps| == |es| + 1 && forall k :: 0 <= k < |es| ==> Enabled(ps[k], es[k]) && ps[k + 1] == Step(ps[k], es[k])
  }

  lemma {:induction false} EveryStateOk(ps: seq<Pool>, es: seq<Event>, nthreads: int, k: nat)
    requires IsRun(ps, es) && ps[0] == Init(nthreads) && k < |ps|
    ensures PoolOk(ps[k])
  {
    if k == 0 {
      InitOk(nthreads);
    } else {
      EveryStateOk(ps, es, nthreads, k - 1);
      StepOk(ps[k - 1], es[k - 1]);
    }
  }

  /** No step starts or drops a worker. */
  lemma {:induction false} WorkersStay(ps: seq<Pool>, es: seq<Event>, nthreads: int, k: nat)
    requires IsRun(ps, es) && ps[0] == Init(nthreads) && k < |ps|
    ensures |ps[k].workers| == if nthreads < 1 then 1 else nthreads
  {
    if k == 0 {
    } else {
      WorkersStay(ps, es, nthreads, k - 1);
      assert Enabled(ps[k - 1], es[k - 1]) && ps[k] == Step(ps[k - 1], es[k - 1]);
    }
  }

  /** Until the pool stops a job can always be submitted. */
  lemma CanSubmit(p: Pool, j: Job) returns (w: Option<nat>)
    requires !p.stop && j !in p.submitted
    ensures Enabled(p, Submit(j, w))
  {
    if i :| 0 <= i < |p.workers| && p.workers[i].Asleep? {
      w := Some(i);
    } else {
      w := None;
    }
  }

  ghost function Completions(es: seq<Event>, ps: seq<Pool>, j: Job, n: nat): nat
    requires n <= |es| <= |ps|
  {
    if n == 0 then 0
    else Completions(es, ps, j, n - 1) +
         if es[n - 1].Complete? && Enabled(ps[n - 1], es[n - 1]) && ps[n - 1].workers[es[n - 1].worker].job == j then 1 else 0
  }

  /** In every run each job is read at most once, and it is done exactly when it was read. */
  lemma {:induction false} JobsRunOnce(ps: seq<Pool>, es: seq<Event>, nthreads: int, j: Job, n: nat)
    requires IsRun(ps, es) && ps[0] == Init(nthreads) && n <= |es|
    ensures Completions(es, ps, j, n) == if j in ps[n].done then 1 else 0
  {
    if n == 0 {
    } else {
      JobsRunOnce(ps, es, nthreads, j, n - 1);
      EveryStateOk(ps, es, nthreads, n - 1);
      assert Enabled(ps[n - 1], es[n - 1]);
      if es[n - 1].Complete? {
        CompletedOk(ps[n - 1], es[n - 1].worker);
      }
    }
  }

  // ----- io_job_wait

  /** Step e of p ends the call of io_job_wait in which c waits for j. */
  ghost predicate Returns(p: Pool, e: Event, c: nat, j: Job)
    requires Enabled(p, e)
  {
    c in p.callers && p.callers[c].job == j && c !in Step(p, e).callers
  }

  /** A worker reads the rows of j in step k of the run. */
  ghost predicate ReadAt(ps: seq<Pool>, es: seq<Event>, j: Job, k: nat) {
    && k < |es| && k < |ps| && es[k].Complete? && es[k].worker < |ps[k].workers|
    && ps[k].workers[es[k].worker] == Running(j)
  }

  lemma {:induction false} DoneWasRead(ps: seq<Pool>, es: seq<Event>, nthreads: int, j: Job, n: nat) returns (k: nat)
    requires IsRun(ps, es) && ps[0] == Init(nthreads) && n <= |es| && j in ps[n].done
    ensures k < n && ReadAt(ps, es, j, k)
  {
    assert n > 0 && Enabled(ps[n - 1], es[n - 1]) && ps[n] == Step(ps[n - 1], es[n - 1]);
    if j in ps[n - 1].done {
      k := DoneWasRead(ps, es, nthreads, j, n - 1);
    } else {
      k := n - 1;
    }
  }

  /** In every run a caller waits for the one job it asked for, and returns only after a worker has
      read that job. */
  lemma ReturnsAfterRead(ps: seq<Pool>, es: seq<Event>, nthreads: int, c: nat, n: nat)
    requires IsRun(ps, es) && ps[0] == Init(nthreads) && n < |es| && c in ps[n].callers
    ensures var j := ps[n].callers[c].job;
            if c in ps[n + 1].callers then ps[n + 1].callers[c].job == j else exists k :: 0 <= k < n && ReadAt(ps, es, j, k)
  {
    assert Enabled(ps[n], es[n]) && ps[n + 1] == Step(ps[n], es[n]);
    if c !in ps[n + 1].callers {
      var k := DoneWasRead(ps, es, nthreads, ps[n].callers[c].job, n);
    }
  }

  /** Once its job is done a caller is awake, and returns as soon as it looks. */
  lemma DoneReturns(p: Pool, c: nat)
    requires PoolOk(p) && c in p.callers && p.callers[c].job in p.done
    ensures Enabled(p, Look(c)) && Returns(p, Look(c), c, p.callers[c].job)
  {
  }

  /** A queued job never coexists with sleeping workers only. */
  lemma QueuedMeansAwake(p: Pool)
    requires PoolOk(p) && p.queue != []
    ensures exists i :: 0 <= i < |p.workers| && (p.workers[i].Ready? || p.workers[i].Running? || p.workers[i].Finishing?)
  {
    if p.workers[0].Asleep? {
      NoneCounted(p.workers, Awaiting, |p.workers|);
      var i :| 0 <= i < |p.workers| && Is(Awaiting, p.workers[i]);
      assert p.workers[i].Ready?;
    }
  }

  // ----- io_pool_destroy

  ghost predicate AllExited(p: Pool) {
    forall i :: 0 <= i < |p.workers| ==> p.workers[i].Exited?
  }

  /** When every worker has been joined, every submitted job is done, nothing is in flight and every
      caller still in io_job_wait is awake and about to return. */
  lemma JoinedMeansDone(p: Pool)
    requires PoolOk(p) && AllExited(p)
    ensures p.queue == [] && p.inflight == 0 && (forall j :: j in p.submitted ==> j in p.done)
    ensures forall c :: c in p.callers ==> p.callers[c].Looking? && p.callers[c].job in p.done
  {
    assert p.workers[0].Exited?;
    NoneCounted(p.workers, Active, |p.workers|);
    assert p.submitted == p.taken;
    forall j | j in p.submitted ensures j in p.done {
      assert j in p.taken && !SomeoneRuns(p.workers, j);
    }
  }

  predicate IsWorkerStep(e: Event) {
    e.Take? || e.Complete? || e.Retire?
  }

  function Rank(w: Worker): nat {
    match w
    case Exited => 0
    case Ready => 1
    case Finishing(_) => 2
    case Running(_) => 3
    case Asleep => 2
  }

  function Ranks(ws: seq<Worker>, n: nat): nat
    requires n <= |ws|
  {
    if n == 0 then 0 else Ranks(ws, n - 1) + Rank(ws[n - 1])
  }

  /** How many worker steps a stopped pool has left. */
  function Remaining(p: Pool): nat {
    3 * |p.queue| + Ranks(p.workers, |p.workers|)
  }

  lemma {:induction false} RanksUpdate(ws: seq<Worker>, i: nat, w: Worker, n: nat)
    requires i < |ws| && n <= |ws|
    ensures Ranks(ws[i := w], n) == Ranks(ws, n) + if i < n then Rank(w) - Rank(ws[i]) else 0
  {
    if n == 0 {
    } else {
      RanksUpdate(ws, i, w, n - 1);
    }
  }

  /** A worker of a stopped pool that has not exited can take a step, and every worker step uses
      up exactly one of those remaining: destroy always returns. */
  lemma StoppedDrains(p: Pool, e: Event)
    requires PoolOk(p) && p.stop && Enabled(p, e) && IsWorkerStep(e)
    ensures Step(p, e).stop && Remaining(Step(p, e)) == Remaining(p) - 1
  {
    var i := e.worker;
    RanksUpdate(p.workers, i, Step(p, e).workers[i], |p.workers|);
  }

  lemma {:induction false} RanksZero(ws: seq<Worker>, n: nat)
    requires n <= |ws|
    ensures Ranks(ws, n) == 0 <==> forall i :: 0 <= i < n ==> ws[i].Exited?
  {
    if n == 0 {
    } else {
      RanksZero(ws, n - 1);
    }
  }

  lemma StoppedMoves(p: Pool)
    requires PoolOk(p) && p.stop
    ensures Remaining(p) == 0 <==> AllExited(p)
    ensures AllExited(p) <==> forall e :: IsWorkerStep(e) ==> !Enabled(p, e)
  {
    RanksZero(p.workers, |p.workers|);
    if Remaining(p) == 0 || AllExited(p) {
      assert p.workers[0].Exited?;
    }
    if !AllExited(p) {
      var i :| 0 <= i < |p.workers| && !p.workers[i].Exited?;
      var e := if p.workers[i].Running? then Complete(i) else if p.workers[i].Finishing? then Retire(i) else Take(i);
      assert IsWorkerStep(e) && Enabled(p, e);
    }
  }

  /** A run of a stopped pool in which workers take as many steps as remain ends with every worker
      exited and every submitted job done, whatever else happens in between. */
  lemma {:induction false} DestroyEnds(ps: seq<Pool>, es: seq<Event>, n: nat)
    requires IsRun(ps, es) && PoolOk(ps[0]) && ps[0].stop && n <= |es|
    ensures PoolOk(ps[n]) && ps[n].stop && WorkerSteps(es, n) <= Remaining(ps[0])
    ensures Remaining(ps[n]) == Remaining(ps[0]) - WorkerSteps(es, n)
    ensures WorkerSteps(es, n) == Remaining(ps[0]) ==>
              AllExited(ps[n]) && forall j :: j in ps[n].submitted ==> j in ps[n].done
  {
    if n == 0 {
    } else {
      DestroyEnds(ps, es, n - 1);
      var p, e := ps[n - 1], es[n - 1];
      assert Enabled(p, e) && ps[n] == Step(p, e);
      StepOk(p, e);
      if IsWorkerStep(e) {
        StoppedDrains(p, e);
      }
    }
    StoppedMoves(ps[n]);
    if Remaining(ps[n]) == 0 {
      JoinedMeansDone(ps[n]);
    }
  }

  function WorkerSteps(es: seq<Event>, n: nat): nat
    requires n <= |es|
  {
    if n == 0 then 0 else WorkerSteps(es, n - 1) + if IsWorkerStep(es[n - 1]) then 1 else 0
  }

  /** In every run, once io_pool_destroy has run its critical section the workers take a bounded number
      of steps, and after the last of them every worker has exited and every submitted job is done. */
  lemma DestroyReturns(ps: seq<Pool>, es: seq<Event>, nthreads: int, m: nat, n: nat)
    requires IsRun(ps, es) && ps[0] == Init(nthreads) && m + 1 + n <= |es| && es[m].Stop?
    ensures WorkerSteps(es[m + 1..], n) <= Remaining(ps[m + 1])
    ensures WorkerSteps(es[m + 1..], n) == Remaining(ps[m + 1]) ==>
              var p := ps[m + 1 + n];
              AllExited(p) && p.inflight == 0 && forall j :: j in p.submitted ==> j in p.done
  {
    EveryStateOk(ps, es, nthreads, m + 1);
    assert Enabled(ps[m], es[m]) && ps[m + 1] == Step(ps[m], es[m]);
    var us, ds := ps[m + 1..], es[m + 1..];
    forall k | 0 <= k < |ds| ensures Enabled(us[k], ds[k]) && us[k + 1] == Step(us[k], ds[k]) {
      var i := m + 1 + k;
      assert Enabled(ps[i], es[i]) && ps[i + 1] == Step(ps[i], es[i]);
    }
    DestroyEnds(us, ds, n);
    if WorkerSteps(ds, n) == Remaining(ps[m + 1]) {
      JoinedMeansDone(us[n]);
    }
  }
}
