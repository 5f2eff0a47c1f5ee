/** The sort of mergeSort.c: its global state, `merge`, `mSort` run against
    the thread pool's queue with each level's merges taken off the queue one
    after another, `pad_input`, and `main`. */
module MergeSort {
  import opened Powers
  import opened Merging
  import opened Schedule
  import opened Levels
  import opened Padding
  import opened ThreadPool

  /** `MAX_ITEMS_TO_SORT`: the size of the `items` and `temp` arrays. */
  const MaxItemsToSort: int := 4096

  /** The pool between two levels of the sort: consistent, not exiting, and
      its queue empty. */
  ghost predicate Idle(pool: Pool<MsInput>)
    reads pool, pool.taskQueue
  {
    pool.Valid() && !pool.exit && pool.tasksInQueue == 0
  }

  /** The first k values of input, k being at most MaxItemsToSort. */
  function Loaded(input: seq<int>): (k: nat)
    ensures k <= |input| && k <= MaxItemsToSort
    ensures k == |input| || k == MaxItemsToSort
  {
    if |input| < MaxItemsToSort then |input| else MaxItemsToSort
  }

  /** The global variables of mergeSort.c. */
  class SortState {
    var save: int
    var numItems: int
    var complete: int
    var tasked: int
    var finished: bool
    var items: array<int>
    var temp: array<int>

    ghost predicate Valid()
      reads this`items, this`temp, this`save, this`numItems
    {
      && items.Length == MaxItemsToSort && temp.Length == MaxItemsToSort && items != temp
      && 0 <= save <= numItems <= MaxItemsToSort
    }

    /** The globals as `read_file` leaves them: the first (at most 4096) input
        integers in `items`, `num_items` and `save` their count, the counters
        zero. Reading and parsing the file is not modelled: the integers come
        in as input. */
    constructor (input: seq<int>)
      ensures Valid() && fresh(items) && fresh(temp)
      ensures numItems == save == Loaded(input)
      ensures items[..numItems] == input[..numItems]
      ensures complete == 0 && tasked == 0 && !finished
    {
      save, numItems := 0, 0;
      complete, tasked, finished := 0, 0, false;
      items := new int[MaxItemsToSort](_ => 0);
      temp := new int[MaxItemsToSort](_ => 0);
      new;
      var i := 0;
      while i < |input| && i < MaxItemsToSort
        invariant 0 <= i <= Loaded(input)
        invariant items[..i] == input[..i]
        invariant fresh(items) && fresh(temp) && items.Length == temp.Length == MaxItemsToSort
        invariant save == numItems == complete == tasked == 0 && !finished
        modifies items
      {
        items[i] := input[i];
        i := i + 1;
      }
      numItems, save := i, i;
    }

    /** `merge`: merge the run of 2^level items at start with the run of
        2^level items that follows it, through `temp`, and count the task as
        complete. */
    method Merge(msi: MsInput)
      requires Valid()
      requires 0 <= msi.start && 0 <= msi.level
      requires msi.start + 2 * Pow2(msi.level) <= items.Length
      modifies items, temp, this`complete
      ensures Valid()
      ensures complete == old(complete) + 1
      ensures items[..] == MergeAt(old(items[..]), msi.start, Pow2(msi.level))
      ensures temp[..] == Splice(old(temp[..]), msi.start, items[msi.start..msi.start + 2 * Pow2(msi.level)])
    {
      var start := msi.start;
      var numInSubarr := Pow2(msi.level);
      var mid, end := start + numInSubarr, start + 2 * numInSubarr;
      ghost var m := Merged(items[start..mid], items[mid..end]);
      MergeAtIsSplice(items[..], start, numInSubarr);
      MergeIntoTemp(items, temp, start, mid, end);
      SpliceParts(old(temp[..]), start, m);
      CopyBack(start, end);
      complete := complete + 1;
    }

    /** The last loop of `merge`: copy temp[start..end) back into items. */
    method CopyBack(start: int, end: int)
      requires Valid() && 0 <= start <= end <= items.Length
      modifies items
      ensures items[..] == Splice(old(items[..]), start, temp[start..end])
    {
      var i := start;
      while i < end
        invariant start <= i <= end
        invariant forall q :: 0 <= q < items.Length ==> items[q] == if start <= q < i then temp[q] else old(items[q])
      {
        items[i] := temp[i];
        i := i + 1;
      }
      SpliceAt(old(items[..]), items[..], start, temp[start..end]);
    }

    /** `mSort`: for each level x of the log2(num_items) levels, add the
        level's tasks to the pool's queue, then wait until they are all
        complete before the next level; finally flag the sort as finished.
        What the levels do to `items` is RunLevels, which SortLevelsSorts
        shows sorts the first num_items items. */
    method MSort(pool: Pool<MsInput>)
      requires Valid() && pool.Valid()
      requires numItems == 0 || IsPow2(numItems)
      requires tasked == complete
      requires !pool.exit && pool.tasksInQueue == 0
      requires pool.back + 1 + TotalTasks(numItems) <= pool.taskQueue.Length
      requires numItems >= 2 ==> pool.active > 0
      modifies this`tasked, this`complete, this`finished, items, temp, pool, pool.taskQueue
      ensures Valid() && pool.Valid() && finished
      ensures items[..] == RunLevels(old(items[..]), numItems, 0)
      ensures tasked == complete == old(tasked) + TotalTasks(numItems)
      ensures |pool.Submitted| == old(|pool.Submitted|) + TotalTasks(numItems)
      ensures pool.tasksInQueue == 0 && !pool.exit
      ensures pool.taskQueue == old(pool.taskQueue) && pool.active == old(pool.active)
      ensures pool.threadsInPool == old(pool.threadsInPool)
    {
      var n := numItems;
      ghost var goal := RunLevels(items[..], n, 0);
      ghost var submitted0 := |pool.Submitted|;
      ghost var tasked0 := tasked;
      var lvl := NumLevels(n);
      var x := 0;
      while x < lvl
        invariant 0 <= x <= lvl && Valid() && Idle(pool)
        invariant pool.taskQueue == old(pool.taskQueue) && pool.active == old(pool.active)
        invariant pool.threadsInPool == old(pool.threadsInPool)
        invariant LevelsDone(pool, x, tasked0, submitted0, goal)
      {
        assert n != 0;
        SortLevel(pool, x, tasked0, submitted0, goal);
        x := x + 1;
      }
      finished := true;
    }

    /** The state after levels 0 .. x-1 of `mSort`: every task they submitted
        is complete, and what the remaining levels do to `items` is the
        whole sort's goal. */
    ghost predicate LevelsDone(pool: Pool<MsInput>, x: nat, tasked0: int, submitted0: nat, goal: seq<int>)
      reads this, items, pool
    {
      && Valid() && (numItems == 0 || IsPow2(numItems)) && x <= NumLevels(numItems)
      && tasked == complete == tasked0 + TasksBefore(numItems, x)
      && |pool.Submitted| == submitted0 + TasksBefore(numItems, x)
      && RunLevels(items[..], numItems, x) == goal
    }

    /** One pass of the level loop of `mSort`: add the tasks of level x, then
        wait until they are complete. */
    method SortLevel(pool: Pool<MsInput>, x: nat, ghost tasked0: int, ghost submitted0: nat, ghost goal: seq<int>)
      requires Valid() && Idle(pool) && (numItems >= 2 ==> pool.active > 0)
      requires IsPow2(numItems) && x < NumLevels(numItems)
      requires submitted0 + TotalTasks(numItems) <= pool.taskQueue.Length
      requires LevelsDone(pool, x, tasked0, submitted0, goal)
      modifies pool, pool.taskQueue, items, temp, this`tasked, this`complete
      ensures Valid() && Idle(pool)
      ensures LevelsDone(pool, x + 1, tasked0, submitted0, goal)
      ensures pool.taskQueue == old(pool.taskQueue) && pool.active == old(pool.active)
      ensures pool.threadsInPool == old(pool.threadsInPool)
    {
      TasksBeforeAtMostTotal(numItems, x + 1);
      assert TasksBefore(numItems, x + 1) == TasksBefore(numItems, x) + ConcurrentTasks(numItems, x);
      assert |pool.Submitted| == pool.back + 1;
      assert pool.back + 1 + ConcurrentTasks(numItems, x) <= pool.taskQueue.Length;
      ghost var before := items[..];
      SubmitLevel(pool, x);
      AwaitLevel(pool, x);
      assert RunLevels(before, numItems, x) == RunLevels(items[..], numItems, x + 1);
    }

    /** The inner loop of `mSort` for level x: add (num_items/2)/2^x merge
        tasks to the queue, task y starting at y * step where step is
        num_items divided by the number of tasks, and count each in `tasked`. */
    method SubmitLevel(pool: Pool<MsInput>, x: nat)
      requires Valid() && pool.Valid() && !pool.exit && pool.tasksInQueue == 0
      requires IsPow2(numItems) && x < NumLevels(numItems)
      requires pool.back + 1 + ConcurrentTasks(numItems, x) <= pool.taskQueue.Length
      modifies pool, pool.taskQueue, this`tasked
      ensures Valid() && pool.Valid() && !pool.exit
      ensures pool.tasksInQueue == ConcurrentTasks(numItems, x)
      ensures pool.Pending() == LevelTasks(numItems, x)
      ensures tasked == old(tasked) + ConcurrentTasks(numItems, x)
      ensures |pool.Submitted| == old(|pool.Submitted|) + ConcurrentTasks(numItems, x)
      ensures pool.taskQueue == old(pool.taskQueue) && pool.active == old(pool.active)
      ensures pool.threadsInPool == old(pool.threadsInPool)
    {
      LevelShape(numItems, x);
      ConcurrentTasksFormula(numItems, x);
      var concurrentTasks := (numItems / 2) / Pow2(x);
      var step := numItems / concurrentTasks;
      assert concurrentTasks == ConcurrentTasks(numItems, x) && step == Pow2(x + 1);
      AddLevelTasks(pool, x, concurrentTasks, step);
    }

    /** The loop of SubmitLevel: add count tasks of level x, the first at
        start 0 and each next one step further on, and count each in `tasked`. */
    method AddLevelTasks(pool: Pool<MsInput>, x: nat, count: nat, step: nat)
      requires pool.Valid() && pool.back + 1 + count <= pool.taskQueue.Length
      modifies pool, pool.taskQueue, this`tasked
      ensures pool.Valid() && pool.exit == old(pool.exit)
      ensures pool.Pending() == old(pool.Pending()) + TasksFrom(0, count, x, step)
      ensures pool.tasksInQueue == old(pool.tasksInQueue) + count
      ensures tasked == old(tasked) + count
      ensures |pool.Submitted| == old(|pool.Submitted|) + count
      ensures pool.taskQueue == old(pool.taskQueue) && pool.active == old(pool.active)
      ensures pool.threadsInPool == old(pool.threadsInPool)
    {
      var y, z := 0, 0;
      while y < count
        invariant 0 <= y <= count && z >= 0
        invariant pool.Valid() && pool.exit == old(pool.exit)
        invariant pool.back + 1 + (count - y) <= pool.taskQueue.Length
        invariant pool.tasksInQueue == old(pool.tasksInQueue) + y
        invariant pool.taskQueue == old(pool.taskQueue) && pool.active == old(pool.active)
        invariant pool.threadsInPool == old(pool.threadsInPool)
        invariant pool.Pending() + TasksFrom(z, count - y, x, step) == old(pool.Pending()) + TasksFrom(0, count, x, step)
        invariant tasked == old(tasked) + y
        invariant |pool.Submitted| == old(|pool.Submitted|) + y
      {
        ghost var rest := TasksFrom(z + step, count - y - 1, x, step);
        assert TasksFrom(z, count - y, x, step) == [MsInput(z, x)] + rest;
        assert (pool.Pending() + [MsInput(z, x)]) + rest == pool.Pending() + ([MsInput(z, x)] + rest);
        var _ := pool.AddTask(MsInput(z, x));
        tasked := tasked + 1;
        y, z := y + 1, z + step;
      }
    }

    /** The wait at the end of a level of `mSort`, sequentialised: until
        `complete` catches up with `tasked`, a worker of the pool takes the
        oldest task off the queue and runs `merge` on it. Run in queue order,
        the level's tasks carry out level x of the sort. */
    method AwaitLevel(pool: Pool<MsInput>, x: nat)
      requires Valid() && pool.Valid() && !pool.exit && pool.active > 0
      requires IsPow2(numItems) && x < NumLevels(numItems)
      requires pool.tasksInQueue == ConcurrentTasks(numItems, x)
      requires pool.Pending() == LevelTasks(numItems, x)
      requires complete + ConcurrentTasks(numItems, x) == tasked
      modifies pool, items, temp, this`complete
      ensures Valid() && pool.Valid() && !pool.exit && pool.tasksInQueue == 0
      ensures complete == tasked
      ensures items[..] == RunLevel(old(items[..]), numItems, x)
      ensures pool.Submitted == old(pool.Submitted)
      ensures pool.taskQueue == old(pool.taskQueue) && pool.active == old(pool.active)
      ensures pool.threadsInPool == old(pool.threadsInPool)
    {
      LevelShape(numItems, x);
      TimesIsProduct(ConcurrentTasks(numItems, x), Pow2(x + 1));
      ghost var goal := RunLevel(items[..], numItems, x);
      ghost var z: nat := 0;
      while complete < tasked
        invariant Valid() && Queued(pool, x, z)
        invariant RunTasks(items[..], z, numItems, Pow2(x)) == goal
        invariant pool.tasksInQueue + complete == tasked && pool.active > 0
        invariant pool.taskQueue == old(pool.taskQueue) && pool.active == old(pool.active)
        invariant pool.threadsInPool == old(pool.threadsInPool) && pool.Submitted == old(pool.Submitted)
        decreases tasked - complete
      {
        ghost var s, c, z' := items[..], pool.tasksInQueue, z + Pow2(x + 1);
        WorkerRunsTask(pool, x, z, z');
        RunNextTask(s, items[..], z, z', c, x, numItems, goal);
        z := z';
      }
    }

    /** The wait for level x with the tasks from z on still queued: the queue
        holds the tasks of the level that start at z, z + 2^(x+1), ... up to
        num_items. */
    ghost predicate Queued(pool: Pool<MsInput>, x: nat, z: nat)
      reads this, pool, pool.taskQueue
    {
      && pool.Valid() && !pool.exit
      && pool.Pending() == TasksFrom(z, pool.tasksInQueue, x, Pow2(x + 1))
      && z + Times(pool.tasksInQueue, Pow2(x + 1)) == numItems
    }

    /** One pass of a worker during the wait: it takes the oldest task, the
        one at z, off the queue and runs `merge` on it; the tasks left start
        at z + 2^(x+1). */
    method WorkerRunsTask(pool: Pool<MsInput>, x: nat, ghost z: nat, ghost z': nat)
      requires Valid() && Queued(pool, x, z) && pool.active > 0 && pool.tasksInQueue > 0
      requires z' == z + Pow2(x + 1)
      modifies pool, items, temp, this`complete
      ensures Valid() && Queued(pool, x, z')
      ensures z + 2 * Pow2(x) <= items.Length && items[..] == MergeAt(old(items[..]), z, Pow2(x))
      ensures pool.tasksInQueue == old(pool.tasksInQueue) - 1 && complete == old(complete) + 1
      ensures pool.taskQueue == old(pool.taskQueue) && pool.active == old(pool.active)
      ensures pool.threadsInPool == old(pool.threadsInPool) && pool.Submitted == old(pool.Submitted)
    {
      ghost var c, w := pool.tasksInQueue, Pow2(x + 1);
      TasksFromStep(z, c, x, w);
      var a := pool.WorkerStep();
      assert a.task == MsInput(z, x) && pool.Pending() == TasksFrom(z', c - 1, x, w);
      Merge(a.task);
    }

    /** `pad_input`: append 9000, 9001, ... until `num_items` is a power of two. */
    method PadInput()
      requires Valid()
      modifies this`numItems, items
      ensures Valid() && save == old(save)
      ensures old(numItems) == 0 ==> numItems == 0
      ensures old(numItems) >= 1 ==> LeastPow2AtLeast(numItems, old(numItems))
      ensures items[..numItems] == old(items[..numItems]) + Sentinels(9000, numItems - old(numItems))
      ensures items[numItems..] == old(items[..])[numItems..]
    {
      var j := NearPow2(numItems);
      AppendSentinels(9000, j);
    }

    /** The loop of `pad_input`: append base, base + 1, ..., base + count - 1
        at `num_items`, advancing it. */
    method AppendSentinels(base: int, count: int)
      requires Valid() && 0 <= count && numItems + count <= MaxItemsToSort
      modifies this`numItems, items
      ensures Valid() && save == old(save) && numItems == old(numItems) + count
      ensures items[..numItems] == old(items[..numItems]) + Sentinels(base, count)
      ensures items[numItems..] == old(items[..])[numItems..]
    {
      var i := 0;
      while i < count
        invariant 0 <= i <= count && numItems == old(numItems) + i
        invariant forall q :: 0 <= q < items.Length ==>
          items[q] == if old(numItems) <= q < numItems then base + (q - old(numItems)) else old(items[q])
      {
        items[numItems] := base + i;
        numItems := numItems + 1;
        i := i + 1;
      }
      assert items[..numItems] == old(items[..numItems]) + Sentinels(base, count) by {
        forall q | 0 <= q < numItems
          ensures items[q] == (old(items[..numItems]) + Sentinels(base, count))[q]
        {
        }
      }
    }

    /** `pad_input` with sentinels that cannot displace an input value: they
        start at 9000 as in `pad_input` when every item is below 9000, and
        just above the largest item otherwise. */
    method PadInputAbove() returns (base: int)
      requires Valid()
      modifies this`numItems, items
      ensures Valid() && save == old(save)
      ensures old(numItems) == 0 ==> numItems == 0
      ensures old(numItems) >= 1 ==> LeastPow2AtLeast(numItems, old(numItems))
      ensures items[..numItems] == old(items[..numItems]) + Sentinels(base, numItems - old(numItems))
      ensures items[numItems..] == old(items[..])[numItems..]
      ensures forall q :: 0 <= q < old(numItems) ==> old(items[q]) < base
      ensures (forall q :: 0 <= q < old(numItems) ==> old(items[q]) < 9000) ==> base == 9000
    {
      base := 9000;
      var i := 0;
      while i < numItems
        invariant 0 <= i <= numItems && base >= 9000
        invariant forall q :: 0 <= q < i ==> items[q] < base
        invariant (forall q :: 0 <= q < i ==> items[q] < 9000) ==> base == 9000
      {
        if items[i] >= base {
          base := items[i] + 1;
        }
        i := i + 1;
      }
      var j := NearPow2(numItems);
      AppendSentinels(base, j);
    }
  }

  /** `main` after `pad_input`: create a pool of num_items/2 workers, run
      `mSort`, then `output` and `threadpool_exit`. `output` ends the program
      with exit code 1 when there are no items (before the pool is shut down);
      otherwise it prints the first `save` items, and the code is 0. sorted is
      the whole of the first num_items items after the sort. */
  method SortAndOutput(st: SortState, ghost padded: seq<int>) returns (code: int, printed: seq<int>, ghost sorted: seq<int>)
    requires st.Valid() && (st.numItems == 0 || IsPow2(st.numItems)) && st.tasked == st.complete
    requires st.items[..st.numItems] == padded
    modifies st`tasked, st`complete, st`finished, st.items, st.temp
    ensures code == if |padded| == 0 then 1 else 0
    ensures code == 1 ==> printed == []
    ensures code == 0 ==> |sorted| == |padded| && printed == sorted[..st.save]
    ensures code == 0 ==> Sorted(sorted) && multiset(sorted) == multiset(padded)
  {
    var n := st.numItems;
    var pool := new Pool<MsInput>(n / 2);
    QueueHoldsSortWorkload(n);
    ghost var before := st.items[..];
    st.MSort(pool);
    SortLevelsSorts(before, n);
    if n == 0 {
      return 1, [], [];
    }
    sorted := st.items[..n];
    printed := st.items[..st.save];
    assert printed == sorted[..st.save];
    code := 0;
    var _ := pool.Exit();
  }

  /** The whole program on the integers of the input file: `read_file`
      keeps the first 4096 of them, `pad_input` pads with 9000, 9001, ...
      to a power of two, and the rest is SortAndOutput. The printed values
      are in order, as many as were read, and the first of the padded
      sorted items; those hold exactly the input when every input value is
      below 9000. SentinelDisplacesInput gives an input with a larger value
      for which they do not. */
  method SortMain(input: seq<int>) returns (code: int, printed: seq<int>, ghost sorted: seq<int>)
    ensures code == if Loaded(input) == 0 then 1 else 0
    ensures code == 1 ==> printed == []
    ensures code == 0 ==> LeastPow2AtLeast(|sorted|, Loaded(input)) && Sorted(sorted)
    ensures code == 0 ==> Sorted(printed) && printed == sorted[..Loaded(input)]
    ensures code == 0 ==>
      multiset(sorted) == multiset(input[..Loaded(input)]) + multiset(Sentinels(9000, |sorted| - Loaded(input)))
    ensures code == 0 && (forall i :: 0 <= i < Loaded(input) ==> input[i] < 9000) ==>
      multiset(printed) == multiset(input[..Loaded(input)])
  {
    var k := Loaded(input);
    var st := new SortState(input);
    st.PadInput();
    ghost var a, b := input[..k], Sentinels(9000, st.numItems - k);
    assert st.items[..st.numItems] == a + b;
    code, printed, sorted := SortAndOutput(st, a + b);
    if code == 0 {
      PaddedPrinted(input, k, 9000, sorted);
    }
  }

  /** `main` with PadInputAbove in place of `pad_input`: the printed values
      are the input values, in order. */
  method SortMainCorrected(input: seq<int>) returns (code: int, printed: seq<int>)
    ensures code == if Loaded(input) == 0 then 1 else 0
    ensures code == 1 ==> printed == []
    ensures code == 0 ==> Sorted(printed) && multiset(printed) == multiset(input[..Loaded(input)])
  {
    var k := Loaded(input);
    var st := new SortState(input);
    ghost var a := st.items[..k];
    var base := st.PadInputAbove();
    assert forall i :: 0 <= i < k ==> input[i] == a[i] < base;
    ghost var padded := a + Sentinels(base, st.numItems - k);
    assert st.items[..st.numItems] == padded;
    ghost var sorted;
    code, printed, sorted := SortAndOutput(st, padded);
    if code == 0 {
      PaddedPrinted(input, k, base, sorted);
    }
  }

  /** The three loops of `merge`: write the merge of items[start..mid) and
      items[mid..end) to temp[start..end), taking the smaller head each
      time and the head of the second run on a tie (MergeHeads), then the
      rest of whichever run is left (DrainFirstRun, DrainSecondRun). */
  method MergeIntoTemp(items: array<int>, temp: array<int>, start: int, mid: int, end: int)
    requires items != temp && 0 <= start <= mid <= end <= items.Length <= temp.Length
    modifies temp
    ensures temp[..] == Splice(old(temp[..]), start, Merged(items[start..mid], items[mid..end]))
  {
    ghost var m := MergeFrom(items[..], start, mid, mid, end);
    var i, j, k := MergeHeads(items, temp, start, mid, end);
    i, k := DrainFirstRun(items, temp, start, mid, end, i, j, k, old(temp[..]), m);
    j, k := DrainSecondRun(items, temp, start, mid, end, i, j, k, old(temp[..]), m);
    forall q | 0 <= q < temp.Length
      ensures temp[q] == if start <= q < start + |m| then m[q - start] else old(temp[q])
    {
    }
    MergeFromIsMerged(items[..], start, mid, mid, end);
    SpliceAt(old(temp[..]), temp[..], start, m);
  }

  /** temp holds the first k - start values of m from start on and the
      values of orig everywhere else. */
  ghost predicate Written(temp: array<int>, orig: seq<int>, start: int, k: int, m: seq<int>)
    reads temp
  {
    |orig| == temp.Length && 0 <= start <= k <= temp.Length && k - start <= |m| &&
    (forall q :: 0 <= q < temp.Length && !(start <= q < k) ==> temp[q] == orig[q]) &&
    (forall q :: start <= q < k ==> temp[q] == m[q - start])
  }

  /** The first loop of `merge`: while both runs last, write the smaller head
      to temp, the head of the second run on a tie. It stops with one run
      used up, temp[start..k) holding the first k - start values of the merge
      and the rest of the merge still to come from [i, mid) and [j, end). */
  method MergeHeads(items: array<int>, temp: array<int>, start: int, mid: int, end: int) returns (i: int, j: int, k: int)
    requires items != temp && 0 <= start <= mid <= end <= items.Length <= temp.Length
    modifies temp
    ensures start <= i <= mid <= j <= end && k == i + j - mid && (i == mid || j == end)
    ensures MergeFrom(items[..], start, mid, mid, end)[k - start..] == MergeFrom(items[..], i, mid, j, end)
    ensures Written(temp, old(temp[..]), start, k, MergeFrom(items[..], start, mid, mid, end))
  {
    ghost var s := items[..];
    ghost var m := MergeFrom(s, start, mid, mid, end);
    i, j, k := start, mid, start;
    while i < mid && j < end
      invariant start <= i <= mid <= j <= end && k == i + j - mid
      invariant m[k - start..] == MergeFrom(s, i, mid, j, end)
      invariant Written(temp, old(temp[..]), start, k, m)
    {
      assert m[k - start + 1..] == m[k - start..][1..];
      var v;
      if items[i] < items[j] {
        assert MergeFrom(s, i, mid, j, end) == [s[i]] + MergeFrom(s, i + 1, mid, j, end);
        v, i := items[i], i + 1;
      } else {
        assert MergeFrom(s, i, mid, j, end) == [s[j]] + MergeFrom(s, i, mid, j + 1, end);
        v, j := items[j], j + 1;
      }
      temp[k] := v;
      k := k + 1;
    }
  }

  /** The second loop of `merge`: copy what is left of the first run. */
  method DrainFirstRun(items: array<int>, temp: array<int>, start: int, mid: int, end: int, i0: int, j: int, k0: int,
                       ghost orig: seq<int>, ghost m: seq<int>) returns (i: int, k: int)
    requires items != temp && 0 <= start <= i0 <= mid <= j <= end <= items.Length <= temp.Length
    requires k0 == i0 + j - mid && (i0 == mid || j == end)
    requires Written(temp, orig, start, k0, m)
    requires m[k0 - start..] == MergeFrom(items[..], i0, mid, j, end)
    modifies temp
    ensures i == mid && k == i + j - mid
    ensures m[k - start..] == MergeFrom(items[..], i, mid, j, end)
    ensures Written(temp, orig, start, k, m)
  {
    ghost var s := items[..];
    i, k := i0, k0;
    while i < mid
      invariant i0 <= i <= mid && k == i + j - mid
      invariant i == mid || j == end
      invariant m[k - start..] == MergeFrom(s, i, mid, j, end)
      invariant Written(temp, orig, start, k, m)
    {
      assert m[k - start + 1..] == m[k - start..][1..];
      temp[k] := items[i];
      k, i := k + 1, i + 1;
    }
  }

  /** The third loop of `merge`: copy what is left of the second run. */
  method DrainSecondRun(items: array<int>, temp: array<int>, start: int, mid: int, end: int, i: int, j0: int, k0: int,
                        ghost orig: seq<int>, ghost m: seq<int>) returns (j: int, k: int)
    requires items != temp && 0 <= start <= i == mid <= j0 <= end <= items.Length <= temp.Length
    requires k0 == i + j0 - mid
    requires Written(temp, orig, start, k0, m)
    requires m[k0 - start..] == MergeFrom(items[..], i, mid, j0, end)
    modifies temp
    ensures j == end && k == i + j - mid && k - start == |m|
    ensures Written(temp, orig, start, k, m)
  {
    ghost var s := items[..];
    j, k := j0, k0;
    while j < end
      invariant j0 <= j <= end && k == i + j - mid && k - start + (end - j) == |m|
      invariant m[k - start..] == MergeFrom(s, i, mid, j, end)
      invariant Written(temp, orig, start, k, m)
    {
      assert m[k - start + 1..] == m[k - start..][1..];
      temp[k] := items[j];
      k, j := k + 1, j + 1;
    }
  }
}
