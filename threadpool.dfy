/** The task queue of the thread pool in tp.c, with the mutex, the condition
    variable and the threads themselves taken out: what remains is the
    `threadpool` record and the transitions its functions make on it.
    A task (function pointer plus argument) is an opaque value of type T. */
module ThreadPool {

  /** What one pass of a worker's loop in `threadpool_get_task` does. */
  datatype Action<T> =
    | Run(task: T)  // took the task at the front of the queue; the worker now executes it
    | Wait          // queue empty and no exit requested: the worker blocks on the condition variable
    | Quit          // exit requested: the worker leaves the pool

  class Pool<T(0)> {
    var threadsInPool: int
    var taskQueue: array<T>
    var front: int
    var back: int
    var tasksInQueue: int
    var exit: bool
    var active: int

    /** Every task ever added, in the order `threadpool_add_task` added them. */
    ghost var Submitted: seq<T>
    /** Every task a worker has taken off the queue, in the order they were taken. */
    ghost var Taken: seq<T>

    /** The queue invariant. Slots [0, back] hold every task ever added and
        slots [0, front) the ones already taken; the counter of pending tasks
        is the distance between the two ends. */
    ghost predicate Valid()
      reads this, taskQueue
    {
      && taskQueue.Length == 2 * threadsInPool
      && -1 <= back < taskQueue.Length
      && 0 <= front <= back + 1
      && tasksInQueue == back - front + 1
      && 0 <= active <= threadsInPool
      && Submitted == taskQueue[..back + 1]
      && Taken == taskQueue[..front]
    }

    /** The tasks waiting in the queue, oldest first. */
    ghost function Pending(): (p: seq<T>)
      reads this, taskQueue
      requires Valid()
      ensures |p| == tasksInQueue
      ensures Submitted == Taken + p
    {
      taskQueue[front..back + 1]
    }

    /** `threadpool_create`: a pool of numThreads workers and an empty queue of
        2 * numThreads slots. */
    constructor (numThreads: nat)
      ensures Valid() && fresh(taskQueue)
      ensures threadsInPool == active == numThreads
      ensures front == 0 && back == -1 && tasksInQueue == 0 && !exit
      ensures taskQueue.Length == 2 * numThreads
      ensures Submitted == [] && Taken == []
    {
      threadsInPool := 0;
      active := 0;
      front := 0;
      back := -1;
      tasksInQueue := 0;
      exit := false;
      taskQueue := new T[2 * numThreads];
      Submitted, Taken := [], [];
      new;
      var i := 0;
      while i < numThreads
        invariant 0 <= i <= numThreads
        invariant threadsInPool == active == i
        invariant front == 0 && back == -1 && tasksInQueue == 0 && !exit
        invariant fresh(taskQueue) && taskQueue.Length == 2 * numThreads
        invariant Submitted == [] && Taken == []
      {
        threadsInPool := threadsInPool + 1;
        active := active + 1;
        i := i + 1;
      }
    }

    /** `threadpool_add_task`: put a task at the back of the queue. The C code
        does not check the capacity; writing past the last slot is undefined,
        so a caller must leave room. */
    method AddTask(task: T) returns (r: int)
      requires Valid()
      requires back + 1 < taskQueue.Length
      modifies this, taskQueue
      ensures Valid() && taskQueue == old(taskQueue)
      ensures r == 0
      ensures back == old(back) + 1 && taskQueue[back] == task
      ensures tasksInQueue == old(tasksInQueue) + 1
      ensures front == old(front) && exit == old(exit)
      ensures active == old(active) && threadsInPool == old(threadsInPool)
      ensures Submitted == old(Submitted) + [task] && Taken == old(Taken)
      ensures Pending() == old(Pending()) + [task]
    {
      back := back + 1;
      taskQueue[back] := task;
      tasksInQueue := tasksInQueue + 1;
      Submitted := Submitted + [task];
      assert taskQueue[..front] == old(taskQueue[..front]);
      r := 0;
    }

    /** One pass of the loop of `threadpool_get_task` by a worker of the pool,
        after its wait: a worker that sees the exit flag leaves (even when
        tasks are pending), otherwise it takes the oldest task, or waits when
        there is none. */
    method WorkerStep() returns (a: Action<T>)
      requires Valid() && active > 0
      modifies this
      ensures Valid()
      ensures taskQueue == old(taskQueue) && back == old(back) && exit == old(exit)
      ensures threadsInPool == old(threadsInPool) && Submitted == old(Submitted)
      ensures a.Quit? <==> old(exit)
      ensures a.Wait? <==> !old(exit) && old(tasksInQueue) == 0
      ensures a.Run? ==>
        && old(Pending()) != []
        && a.task == old(Pending())[0]
        && Pending() == old(Pending())[1..]
        && Taken == old(Taken) + [a.task]
        && front == old(front) + 1
        && tasksInQueue == old(tasksInQueue) - 1
      ensures !a.Run? ==> front == old(front) && tasksInQueue == old(tasksInQueue) && Taken == old(Taken)
      ensures active == if a.Quit? then old(active) - 1 else old(active)
    {
      if tasksInQueue == 0 && !exit {
        return Wait;
      }
      if exit {
        active := active - 1;
        return Quit;
      }
      var task := taskQueue[front];
      front := front + 1;
      tasksInQueue := tasksInQueue - 1;
      Taken := Taken + [task];
      assert taskQueue[..front] == old(taskQueue[..front]) + [task];
      a := Run(task);
    }

    /** `threadpool_exit`: set the exit flag, then wait until every worker has
        seen it and left. The waiting is sequentialised: each pass of the wait
        loop lets one worker make its step. No task is taken after the flag is
        set, so whatever is still pending stays in the queue. */
    method Exit() returns (r: int)
      requires Valid()
      modifies this
      ensures Valid() && taskQueue == old(taskQueue)
      ensures exit && active == 0 && r == 0
      ensures front == old(front) && back == old(back) && tasksInQueue == old(tasksInQueue)
      ensures threadsInPool == old(threadsInPool)
      ensures Submitted == old(Submitted) && Taken == old(Taken)
    {
      exit := true;
      while active > 0
        invariant Valid() && exit && taskQueue == old(taskQueue)
        invariant front == old(front) && back == old(back) && tasksInQueue == old(tasksInQueue)
        invariant threadsInPool == old(threadsInPool)
        invariant Submitted == old(Submitted) && Taken == old(Taken)
        decreases active
      {
        var a := WorkerStep();
      }
      r := 0;
    }
  }

  /** FIFO order: in every reachable state the tasks taken so far are exactly
      the oldest tasks submitted, in submission order, and what is pending is
      the rest. */
  lemma TakenInSubmissionOrder<T(0)>(pool: Pool<T>)
    requires pool.Valid()
    ensures |pool.Taken| <= |pool.Submitted|
    ensures pool.Taken == pool.Submitted[..|pool.Taken|]
    ensures pool.Pending() == pool.Submitted[|pool.Taken|..]
  {
  }
}
