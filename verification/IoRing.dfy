/** The growing ring of c/src/reader.c and the critical sections of the pool that use it, each
    proved to take the step of the protocol it stands for. */
module IoRing {
  import opened Options
  import opened IoPool
  import ProbeTable

  const FIRST_CAP := 256

  /** The fields queue, cap, head and tail of the pool; cap is the length of the array. */
  class Ring {
    var queue: array<Job>
    var head: nat
    var tail: nat

    ghost predicate Valid()
      reads this
    {
      2 <= queue.Length && head < queue.Length && tail < queue.Length
    }

    /** The queued jobs, oldest first: from head on around the ring up to tail. */
    ghost function Contents(): seq<Job>
      requires Valid()
      reads this, queue
    {
      if head <= tail then queue[head..tail] else queue[head..] + queue[..tail]
    }

    constructor ()
      ensures Valid() && fresh(queue) && Contents() == []
    {
      queue := new Job[FIRST_CAP](_ => 0);
      head, tail := 0, 0;
    }

    /** One slot always stays free, so equal ends mean an empty ring. */
    predicate IsEmpty()
      requires Valid()
      reads this, queue
      ensures IsEmpty() <==> Contents() == []
    {
      head == tail
    }

    /** Double the ring; the jobs move to its start in order. */
    method Grow()
      requires Valid()
      modifies this
      ensures Valid() && fresh(queue) && queue.Length == 2 * old(queue.Length)
      ensures Contents() == old(Contents()) && ProbeTable.Next(tail, queue.Length) != head
    {
      var cap := queue.Length;
      var nq := new Job[2 * cap](_ => 0);
      var n: nat, i: nat := 0, head;
      while i != tail
        invariant queue == old(queue) && head == old(head) && tail == old(tail) && queue[..] == old(queue[..])
        invariant i < cap && n == ProbeTable.Dist(head, i, cap) <= ProbeTable.Dist(head, tail, cap)
        invariant nq[..n] == if head <= i then queue[head..i] else queue[head..] + queue[..i]
        decreases ProbeTable.Dist(i, tail, cap)
      {
        nq[n] := queue[i];
        assert nq[..n + 1] == nq[..n] + [queue[i]];
        n, i := n + 1, ProbeTable.Next(i, cap);
      }
      head, tail, queue := 0, n, nq;
    }

    method Push(job: Job)
      requires Valid()
      modifies this, queue
      ensures Valid() && Contents() == old(Contents()) + [job]
      ensures queue == old(queue) || fresh(queue)
    {
      while ProbeTable.Next(tail, queue.Length) == head
        invariant Valid() && Contents() == old(Contents())
        invariant queue == old(queue) || fresh(queue)
        decreases ProbeTable.Next(tail, queue.Length) == head
      {
        Grow();
      }
      queue[tail] := job;
      tail := ProbeTable.Next(tail, queue.Length);
    }

    method Pop() returns (job: Job)
      requires Valid() && !IsEmpty()
      modifies this`head
      ensures Valid() && [job] + Contents() == old(Contents())
    {
      job := queue[head];
      head := ProbeTable.Next(head, queue.Length);
    }
  }

  /** What a worker does after its first critical section. */
  datatype Next = Sleep | Leave | Read(job: Job)

  /** The pool under its lock; state is the state of the protocol. */
  class Monitor {
    const ring: Ring
    var inflight: int
    var stop: bool
    ghost var state: Pool

    ghost predicate Valid()
      reads this, ring, ring.queue
    {
      && ring.Valid() && ring.Contents() == state.queue && inflight == state.inflight && stop == state.stop
      && PoolOk(state)
    }

    /** io_pool_init. */
    constructor (nthreads: int)
      ensures Valid() && fresh(ring) && fresh(ring.queue) && state == Init(nthreads)
    {
      ring := new Ring();
      inflight, stop, state := 0, false, Init(nthreads);
      new;
      InitOk(nthreads);
    }

    /** io_pool_submit, where woken is the worker the signal reaches. */
    method Submit(job: Job, ghost woken: Option<nat>)
      requires Valid() && Enabled(state, IoPool.Submit(job, woken))
      modifies this, ring, ring.queue
      ensures Valid() && state == Step(old(state), IoPool.Submit(job, woken))
      ensures ring.queue == old(ring.queue) || fresh(ring.queue)
    {
      SubmittedOk(state, job, woken);
      inflight, state := inflight + 1, Submitted(state, job, woken);
      ring.Push(job);
    }

    /** The first critical section of worker_main, from the lock to the unlock or the wait. */
    method Take(ghost worker: nat) returns (next: Next)
      requires Valid() && Enabled(state, IoPool.Take(worker))
      modifies this, ring`head
      ensures Valid() && state == Step(old(state), IoPool.Take(worker))
      ensures state.workers[worker] == match next case Sleep => Asleep case Leave => Exited case Read(job) => Running(job)
    {
      TakenOk(state, worker);
      ghost var queue := state.queue;
      state := Taken(state, worker);
      if ring.IsEmpty() {
        return if stop then Leave else Sleep;
      }
      var job := ring.Pop();
      assert queue == [job] + ring.Contents();
      return Read(job);
    }

    /** The second critical section of worker_main. */
    method Retire(ghost worker: nat)
      requires Valid() && Enabled(state, IoPool.Retire(worker))
      modifies this
      ensures Valid() && state == Step(old(state), IoPool.Retire(worker)) && inflight >= 0
    {
      RetiredOk(state, worker);
      inflight, state := inflight - 1, Retired(state, worker);
    }

    /** The critical section of io_pool_destroy. */
    method Destroy()
      requires Valid() && Enabled(state, IoPool.Stop)
      modifies this
      ensures Valid() && state == Step(old(state), IoPool.Stop)
    {
      StoppedOk(state);
      stop, state := true, Stopped(state);
    }
  }
}
