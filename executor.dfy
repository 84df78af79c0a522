/** The admission rule of the thread pool: whether `Execute` takes a task, and
    how the queue and the thread counters change when it does. Threads are
    counted, not run; a task is an opaque value. */
module Concurrency {

  /** `Executor::State`: running, stopping (no new task is taken, queued ones
      still run), stopped. */
  datatype State = Run | Stopping | Stopped

  /** The fields `Execute` reads and writes under the pool's lock, and the
      limits fixed at construction. */
  datatype Pool<T> = Pool(
    state: State,
    tasks: seq<T>,
    nowThreads: int,
    workingThreads: int,
    lowWatermark: int,
    highWatermark: int,
    maxQueueSize: int)

  function Max(a: int, b: int): (m: int)
    ensures m >= a && m >= b && (m == a || m == b)
  {
    if a >= b then a else b
  }

  /** The most threads a pool can count: as many as it starts with, or the
      high watermark. */
  function Ceiling<T>(p: Pool<T>): int
  {
    Max(Max(p.lowWatermark, 0), p.highWatermark)
  }

  /** What the pool keeps between calls: no more threads busy than exist, no
      more than `Ceiling` threads, and, when the queue has a bound, no more
      tasks queued than that bound. */
  predicate Sane<T>(p: Pool<T>)
  {
    && 0 <= p.workingThreads <= p.nowThreads <= Ceiling(p)
    && (p.maxQueueSize >= 0 ==> |p.tasks| <= p.maxQueueSize)
  }

  /** Whether `Execute` counts a new thread for the task it takes: every
      thread is busy and there are fewer than the high watermark. */
  predicate NeedsThread<T>(p: Pool<T>)
  {
    p.workingThreads == p.nowThreads && p.nowThreads < p.highWatermark
  }

  /** `Execute` (Executor.h lines 55-75) on the pool `p`: the flag says whether
      the task was queued. A pool that is not running, or whose queue has
      reached its bound, refuses the task and is left as it was. Otherwise the
      task goes to the back of the queue, and one thread is counted as started
      and busy when every thread is busy and the high watermark allows one
      more. */
  function Admit<T>(p: Pool<T>, task: T): (r: (bool, Pool<T>))
    ensures !r.0 <==> p.state != Run || |p.tasks| == p.maxQueueSize
    ensures !r.0 ==> r.1 == p
    ensures r.0 <==> |r.1.tasks| == |p.tasks| + 1
    ensures r.0 ==> r.1.tasks == p.tasks + [task]
    ensures r.0 ==> r.1.(tasks := p.tasks, nowThreads := p.nowThreads, workingThreads := p.workingThreads) == p
    ensures r.0 && NeedsThread(p) ==>
              r.1.nowThreads == p.nowThreads + 1 && r.1.workingThreads == p.workingThreads + 1
    ensures !(r.0 && NeedsThread(p)) ==>
              r.1.nowThreads == p.nowThreads && r.1.workingThreads == p.workingThreads
    ensures r.1.nowThreads > p.nowThreads ==> r.1.nowThreads <= p.highWatermark
  {
    if p.state != Run || |p.tasks| == p.maxQueueSize then
      (false, p)
    else
      var queued := p.(tasks := p.tasks + [task]);
      if NeedsThread(p) then
        (true, queued.(nowThreads := p.nowThreads + 1, workingThreads := p.workingThreads + 1))
      else
        (true, queued)
  }

  /** Taking a task keeps the pool sane: a queue with a bound stops growing at
      it, and the thread count never passes the high watermark unless the pool
      started above it. */
  lemma AdmitKeepsSane<T>(p: Pool<T>, task: T)
    requires Sane(p)
    ensures Sane(Admit(p, task).1)
  {
    var r := Admit(p, task);
    assert Ceiling(r.1) == Ceiling(p);
  }

  /** `Execute` called with each of `ts` in turn: the answers, in order, and
      the pool afterwards. */
  function SubmitAll<T>(p: Pool<T>, ts: seq<T>): (r: (seq<bool>, Pool<T>))
    ensures |r.0| == |ts|
    ensures p.tasks <= r.1.tasks
    decreases |ts|
  {
    if ts == [] then
      ([], p)
    else
      var first := Admit(p, ts[0]);
      var rest := SubmitAll(first.1, ts[1..]);
      ([first.0] + rest.0, rest.1)
  }

  /** Any run of submissions keeps a sane pool sane. */
  lemma {:induction false} SubmitAllKeepsSane<T>(p: Pool<T>, ts: seq<T>)
    requires Sane(p)
    ensures Sane(SubmitAll(p, ts).1)
    decreases |ts|
  {
    if ts != [] {
      AdmitKeepsSane(p, ts[0]);
      SubmitAllKeepsSane(Admit(p, ts[0]).1, ts[1..]);
    }
  }

  /** A pool that is stopping or stopped refuses every task and stays as it
      is. */
  lemma {:induction false} SubmitAllWhenNotRunning<T>(p: Pool<T>, ts: seq<T>)
    requires p.state != Run
    ensures SubmitAll(p, ts).1 == p
    ensures forall i | 0 <= i < |ts| :: !SubmitAll(p, ts).0[i]
    decreases |ts|
  {
    if ts != [] {
      SubmitAllWhenNotRunning(p, ts[1..]);
    }
  }

  /** A running pool whose queue has room for `n` more tasks takes the first
      `n` submissions, in order, and refuses the rest: the queue fills up to
      its bound and not beyond. */
  lemma {:induction false} SubmitAllFillsQueue<T>(p: Pool<T>, ts: seq<T>)
    requires p.state == Run && 0 <= |p.tasks| <= p.maxQueueSize
    ensures var r := SubmitAll(p, ts);
            var n := p.maxQueueSize - |p.tasks|;
            && (forall i | 0 <= i < |ts| :: r.0[i] <==> i < n)
            && r.1.tasks == p.tasks + ts[..if |ts| <= n then |ts| else n]
            && r.1.state == Run
    decreases |ts|
  {
    if ts != [] {
      var first := Admit(p, ts[0]);
      SubmitAllFillsQueue(first.1, ts[1..]);
      var rest := SubmitAll(first.1, ts[1..]);
      var r := SubmitAll(p, ts);
      var n := p.maxQueueSize - |p.tasks|;
      if n == 0 {
        assert first.1 == p;
        assert ts[..0] == [];
      } else {
        assert first.1.tasks == p.tasks + [ts[0]];
        var m := if |ts| <= n then |ts| else n;
        assert ts[1..][..m - 1] == ts[1..m];
        assert ts[..m] == [ts[0]] + ts[1..m];
      }
      forall i | 0 <= i < |ts|
        ensures r.0[i] <==> i < n
      {
        if i > 0 {
          assert r.0[i] == rest.0[i - 1];
        }
      }
    }
  }

  /** The pool object. `Execute` is the admission rule applied to its fields;
      the limits are fixed at construction. */
  class Executor<T> {
    var state: State
    var tasks: seq<T>
    var nowThreads: int
    var workingThreads: int
    const lowWatermark: int
    const highWatermark: int
    const maxQueueSize: int

    /** The fields as a `Pool`. */
    function Snapshot(): Pool<T>
      reads this
    {
      Pool(state, tasks, nowThreads, workingThreads, lowWatermark, highWatermark, maxQueueSize)
    }

    /** Executor.cpp lines 6-19: one worker is started and counted busy per
        unit of the low watermark (none when it is not positive), the thread
        count is set to the busy count, and the pool runs with an empty
        queue. */
    constructor (low: int, high: int, maxQueue: int)
      ensures Snapshot() == Pool(Run, [], Max(low, 0), Max(low, 0), low, high, maxQueue)
      ensures Sane(Snapshot())
    {
      lowWatermark, highWatermark, maxQueueSize := low, high, maxQueue;
      tasks := [];
      workingThreads := 0;
      new;
      var i := 0;
      while i < lowWatermark
        invariant 0 <= i && (i <= lowWatermark || i == 0)
        invariant workingThreads == i && tasks == []
      {
        workingThreads := workingThreads + 1;
        i := i + 1;
      }
      nowThreads := workingThreads;
      state := Run;
    }

    /** Executor.h lines 55-75, with the lock held throughout: the answer and
        the new fields are those of `Admit`. */
    method Execute(task: T) returns (accepted: bool)
      modifies this
      ensures (accepted, Snapshot()) == Admit(old(Snapshot()), task)
    {
      if state != Run || |tasks| == maxQueueSize {
        return false;
      }
      tasks := tasks + [task];
      if workingThreads == nowThreads && nowThreads < highWatermark {
        nowThreads := nowThreads + 1;
        workingThreads := workingThreads + 1;
      }
      return true;
    }
  }
}
