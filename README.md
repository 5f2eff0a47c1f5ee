# mergesort-threadpool in Dafny

A model of the concurrent merge sort of mergesort-threadpool and of the task
queue of its thread pool, with proofs about both.

- **The sort** (`mergeSort.c`):
  - `merge` merges two adjacent sorted runs of `2^level` items of the
    global `items` array through `temp`.
  - `mSort` runs `log2(num_items)` levels. Level `x` submits
    `(num_items/2)/2^x` merge tasks to the pool and waits for all of them
    to complete.
  - `pad_input` and `near_pow_2` first grow the input to a power of two,
    using the sentinels 9000, 9001, ….
  - `main` ties these together and prints the first `save` items.
- **The thread pool** (`tp.c`) keeps its pending tasks in an array used as
  a queue, with `front`, `back` and `tasks_in_queue`, plus an `exit` flag
  and an `active` count of workers.

The model keeps the program's imperative shape:

- The globals of `mergeSort.c` are the class `MergeSort.SortState`, with
  `items` and `temp` as arrays of 4096 ints.
- The `threadpool` record is the class `ThreadPool.Pool`.
- `merge`, the loops of `mSort`, `pad_input` and `near_pow_2` are methods
  with loop invariants.
- Each method is proved against functions on sequences:
  - `Merging.Merged` is the sequence the merge loops write.
  - `Levels.MergeAt` is the effect of one task on `items`.
  - `Levels.RunLevel` and `Levels.RunLevels` are the effect of one level,
    and of the remaining levels, in task order.
- What the program promises is proved about those functions: sortedness,
  permutation, tie order, task layout, and task totals.

Threads are taken out. A worker's pass through the loop of
`threadpool_get_task` is the method `Pool.WorkerStep`, which returns what
the worker does (run a task, wait, or quit). The wait at the end of each
level of `mSort` is played out by letting a worker take the oldest queued
task and run `merge` on it until `complete` reaches `tasked`.

Modules, in dependency order:

| file | module | contents |
|---|---|---|
| powers.dfy | Powers | `2^x`, powers of two, small arithmetic facts |
| merging.dfy | Merging | the merge as a function, its permutation, order and tie properties; sorted blocks |
| schedule.dfy | Schedule | `num_levels`, `concurrent_tasks`, `step`, task ranges and task totals |
| levels.dfy | Levels | merge tasks as values, one merge on a sequence, a level, all levels, the sort theorem |
| padding.dfy | Padding | `near_pow_2`, the sentinels, and what padding does to the printed part |
| threadpool.dfy | ThreadPool | the `threadpool` record and `threadpool_create`, `threadpool_add_task`, the dequeue of `threadpool_get_task`, `threadpool_exit` |
| mergesort.dfy | MergeSort | the globals, `merge`, `mSort`, `pad_input`, `main` |

## Model

| member | source | states |
|---|---|---|
| Schedule.NumLevels | mergeSort.c:214-216 | `num_levels` as integer log2: for n >= 1, 2^lvl <= n < 2^(lvl+1); 0 for no items |
| Schedule.NumLevelsOfPow2 | mergeSort.c:214-216 | on a power of two n, 2^num_levels(n) == n, so the float log2 is exact there |
| Schedule.ConcurrentTasksFormula | mergeSort.c:102 | the task count of level x is (n/2)/2^x, the same as halving n/2 x times |
| Schedule.LevelsHalve | mergeSort.c:102 | on a power of two n, level x has 2^(log2 n - 1 - x) tasks |
| Schedule.LevelShape | mergeSort.c:102-103 | for a power of two n and x < log2 n: at least one task, `step == 2^(x+1)`, and tasks * step == n |
| Schedule.TaskInBounds | mergeSort.c:106-110 | the range [y*step, (y+1)*step) of every task y of a level lies inside [0, n) |
| Schedule.TaskRangesDisjoint | mergeSort.c:106-110 | the ranges of two different tasks of one level are disjoint, the earlier one ending by the start of the later one |
| Schedule.LevelTiles | mergeSort.c:102-110 | the task ranges of a level tile [0, n): item i lies in the range of task y exactly when y == i / step, and that task exists |
| Schedule.TasksBeforeCount | mergeSort.c:99-120 | levels 0 .. x-1 of a sort of n = 2^L items submit n - 2^(L-x) tasks |
| Schedule.TasksBeforeAtMostTotal | mergeSort.c:99-120 | the levels before x never submit more tasks than the whole sort |
| Schedule.TotalTasksCount | mergeSort.c:99-120 | the whole sort submits n - 1 tasks, none for n == 0 |
| Schedule.QueueHoldsSortWorkload | tp.c:77 | a pool of n/2 threads, as `main` creates it, has 2*(n/2) queue slots; they hold every task of the sort, with exactly one to spare when n >= 2 |
| Padding.LeastPow2Unique | mergeSort.c:219-223 | there is only one least power of two at or above m |
| Merging.Merged | mergeSort.c:169-178 | the merge writes exactly \|a\| + \|b\| values, so `k` ends at `j_max` |
| Merging.MergeFrom | mergeSort.c:169-178 | the index-driven merge of [i, mid) and [j, end) writes (mid - i) + (end - j) values |
| Merging.MergeFromIsMerged | mergeSort.c:169-178 | the index-driven merge over one array equals `Merged` of the two slices |
| Merging.MergedPermutes | mergeSort.c:169-178 | the merge is a permutation: multiset(Merged(a, b)) == multiset(a) + multiset(b) |
| Merging.MergedSorted | mergeSort.c:169-178 | merging two sorted runs gives a sorted run |
| Merging.MergeOriginWithinRuns | mergeSort.c:169-178 | every output position of the merge comes from an element the loops have not yet consumed |
| Merging.MergeOriginAgrees | mergeSort.c:169-178 | every output position holds the input element its origin names |
| Merging.MergeRightFirstOnTies | mergeSort.c:170-173 | with sorted runs, an element of the first run is written before an element of the second only when it is strictly smaller: equal keys come right-run first |
| Merging.MergeTieTakesSecondRun | mergeSort.c:170-173 | merging [v] with [v] writes the second run's v first |
| Merging.BlocksOfOneSorted | mergeSort.c:99 | before level 0, every block of width 1 is sorted |
| Merging.WholeBlockSorted | mergeSort.c:99-131 | a single sorted block over the whole sequence means the sequence is sorted |
| Merging.BlocksSortedSplit | mergeSort.c:162-164 | in a sequence of sorted blocks of width r, the first two blocks are the sorted runs of one merge, and what follows them stays in sorted blocks |
| Merging.BlocksSortedAppend | mergeSort.c:106-114 | one more sorted block of width w after whole sorted blocks gives whole sorted blocks |
| Levels.MergeAtIsSplice | mergeSort.c:169-184 | one merge task replaces [start, start+2r) of `items` by the merge of its two runs |
| Levels.MergeAtParts | mergeSort.c:160-184 | `merge` leaves `items` outside [start, start+2r) unchanged and writes the merge of the two runs inside it |
| Levels.MergeAtSorts | mergeSort.c:159-184 | if both runs are sorted, [start, start+2r) is sorted after `merge` |
| Levels.MergedRunsPermute | mergeSort.c:169-184 | after `merge`, [start, start+2r) is a permutation of what it held before |
| Levels.MergeAtPermutes | mergeSort.c:169-184 | a merge inside [0, n) keeps [0, n) a permutation and touches nothing past n |
| Levels.NextTwoRuns | mergeSort.c:162-164 | the two runs that a task of level x merges are sorted when the level starts in sorted blocks of width 2^x |
| Levels.MergeAtAdvancesLevel | mergeSort.c:106-114 | a task of level x at st turns the sorted blocks of width 2^(x+1) before st into ones up to st + 2^(x+1) |
| Levels.TasksFromAt | mergeSort.c:106-111 | task y of the submission loop has start `z == start + y*step` and the loop's level |
| Levels.LevelTaskAt | mergeSort.c:102-111 | level x submits (n/2)/2^x tasks, and task y is `{start: y*2^(x+1), level: x}` |
| Levels.TasksFromStep | mergeSort.c:106 | the first queued task of a level is the one at z, and the rest start at z + step |
| Levels.RunTasksStep | mergeSort.c:123-126 | running a level's merges from start on is running the first one, then the rest |
| Levels.RunNextTask | mergeSort.c:123-126 | after the task at z runs, the tasks from z + 2^(x+1) on finish the same level |
| Levels.RunTasksSorts | mergeSort.c:106-131 | running the tasks of level x over [0, n), sorted in blocks of width 2^x, leaves it sorted in blocks of width 2^(x+1) |
| Levels.RunTasksPermutes | mergeSort.c:106-131 | a level keeps [0, n) a permutation and touches nothing past n |
| Levels.RunLevelsSorts | mergeSort.c:99-131 | running levels x .. log2 n - 1 on blocks sorted at width 2^x sorts [0, n), keeps it a permutation and leaves the rest alone |
| Levels.SortLevelsSorts | mergeSort.c:99-131 | running every level in order, each completing before the next, leaves `items[0..n)` non-decreasing and a permutation of the padded input |
| Padding.NearPow2 | mergeSort.c:219-223 | `near_pow_2` is 0 for 0 and for powers of two up to 4096; for 1 <= m <= 4096, m + result is the least power of two >= m; above 4096 it pads to 8192 |
| Padding.Pow2UpTo8192 | mergeSort.c:222 | the doubling loop never goes past 8192 |
| Padding.SortedPrefixIsLowerPart | mergeSort.c:198-203 | in a sorted arrangement of a and b, with every value of a below every value of b, the first \|a\| places hold exactly the values of a |
| Padding.PrintedPart | mergeSort.c:198-203 | the printed prefix of a sorted padded array is sorted, and it holds exactly the input values when every input value lies below every padding value |
| Padding.PaddedPrinted | mergeSort.c:207-211 | the printed part of a sort of the input padded with base, base+1, … is sorted, and it holds exactly the input when every input value is below base |
| Padding.SentinelDisplacesInput | mergeSort.c:207-211 | for input 9500 1 2, padded with 9000, any sorted arrangement prints values other than the input |
| ThreadPool.Pool.Pending | tp.c:46-48 | the pending tasks number `tasks_in_queue`, and every task ever added is either taken or pending |
| ThreadPool.Pool.constructor | tp.c:62-85 | `threadpool_create(n)`: front 0, back -1, no pending task, exit clear, `threads_in_pool == active == n`, a queue of 2n slots |
| ThreadPool.Pool.AddTask | tp.c:132-141 | `threadpool_add_task` advances `back`, stores the task there, counts it pending, and changes nothing else; the pending tasks gain it at the end |
| ThreadPool.Pool.WorkerStep | tp.c:98-122 | a worker quits and decrements `active` exactly when exit is set, even with tasks pending; it waits exactly when the queue is empty and exit is clear; otherwise it takes the oldest pending task, advancing `front` and counting one less pending |
| ThreadPool.Pool.Exit | tp.c:152-165 | `threadpool_exit` sets exit and returns once `active` is 0; no task is taken after exit is set |
| ThreadPool.TakenInSubmissionOrder | tp.c:109-137 | FIFO: the tasks taken are exactly the oldest ones submitted, in order, and the pending ones are the rest |
| MergeSort.Loaded | mergeSort.c:231-234 | `read_file` keeps the first min(count, 4096) integers |
| MergeSort.SortState.constructor | mergeSort.c:226-235 | after `read_file`, `items` starts with the input, and `num_items == save` is the count kept |
| MergeSort.SortState.Merge | mergeSort.c:155-192 | `merge` turns `items` into `MergeAt(items, start, 2^level)`, leaves `temp` holding the merged runs in [start, start+2r) and its old contents elsewhere, and counts one more completed task |
| MergeSort.SortState.CopyBack | mergeSort.c:183-184 | the copy-back loop writes `temp[start..end)` over `items[start..end)` and nothing else |
| MergeSort.MergeIntoTemp | mergeSort.c:169-178 | the three loops leave `temp` holding the merge of the two runs in [start, end) and its old contents elsewhere |
| MergeSort.MergeHeads | mergeSort.c:169-173 | the first loop stops with one run used up, and the values it has written are the merge's first k - start values |
| MergeSort.DrainFirstRun | mergeSort.c:175-176 | the second loop copies what is left of the first run, continuing the merge |
| MergeSort.DrainSecondRun | mergeSort.c:177-178 | the third loop copies what is left of the second run and ends with k == end, the whole merge written |
| MergeSort.SortState.MSort | mergeSort.c:93-140 | `mSort` turns `items` into `RunLevels(items, n, 0)`, submits and completes `TotalTasks(n)` tasks, leaves the queue empty and sets `finished` |
| MergeSort.SortState.SortLevel | mergeSort.c:99-131 | one pass of the level loop submits level x's tasks, completes them all, and advances the level invariant |
| MergeSort.SortState.SubmitLevel | mergeSort.c:102-120 | the inner loop queues exactly `LevelTasks(n, x)`, (n/2)/2^x tasks, and adds their number to `tasked` |
| MergeSort.SortState.AddLevelTasks | mergeSort.c:106-120 | the submission loop appends tasks at 0, step, 2*step, … to the queue, one `tasked` per task |
| MergeSort.SortState.AwaitLevel | mergeSort.c:123-131 | the wait ends with `complete == tasked`, the queue empty, and `items` equal to `RunLevel` of its value at the start of the wait |
| MergeSort.SortState.WorkerRunsTask | tp.c:104-115 | a worker takes the queued task at z and runs `merge`; the remaining tasks start at z + 2^(x+1) |
| MergeSort.SortState.PadInput | mergeSort.c:207-211 | `pad_input` keeps the first `num_items` items, appends 9000, 9001, …, and makes `num_items` the least power of two at or above it |
| MergeSort.SortState.AppendSentinels | mergeSort.c:210-211 | the padding loop appends base, base+1, …, base+count-1 at `num_items` and changes nothing else |
| MergeSort.SortState.PadInputAbove | mergeSort.c:207-211 | padding whose sentinels start at 9000 when every item is below it, and above the largest item otherwise; every input value is below the first sentinel |
| MergeSort.SortAndOutput | mergeSort.c:54-73 | after padding: exit code 1 with nothing printed for no items; otherwise code 0, the padded items end sorted and a permutation, and the first `save` of them are printed |
| MergeSort.SortMain | mergeSort.c:46-74 | the program as written prints a sorted prefix of length `save` of the sorted, padded items; when every input value is below 9000 it holds exactly the input values |
| MergeSort.SortMainCorrected | mergeSort.c:46-74 | with `PadInputAbove`, the printed values are sorted and are exactly the input values kept by `read_file`, whatever they are |

## Left out

- Threads, mutexes and condition variables are left out. This covers
  `pthread_create`, `pthread_join`, `pthread_exit`, every lock and signal,
  and the wait loops of `main` and `mSort`.
  - A worker's loop in `threadpool_get_task` becomes one step, `Pool.WorkerStep`.
  - The `mSort` wait runs the level's tasks one at a time, in queue order.
  - The busy wait of `threadpool_exit` becomes a loop of worker steps.
- MergeSort.SortState.AwaitLevel: it proves the result of running a
  level's tasks in queue order, not of every interleaving of them. Within
  a level the tasks touch disjoint ranges (Schedule.TaskRangesDisjoint,
  Levels.MergeAtParts), but the proof does not use that to cover
  concurrent execution.
- The call through the task's function pointer is left out. Tasks in the
  pool are opaque values. In the sort they are `MsInput` records, and the
  worker in `WorkerRunsTask` calls `Merge` on them directly.
- `malloc` and `free` of the pool, the queue and each `ms_input` are left
  out. Arrays are allocated with `new` and never freed.
- `read_file`, `usage` and the formatting of `output` are left out, being
  I/O:
  - The constructor of `SortState` takes the integers the file would have
    held, so an unreadable file is not modelled.
  - `output`'s ten values per line are not modelled. The model returns the
    printed values as a sequence together with the exit code.
- The floating-point `log` and `pow` are left out. The model uses integer
  log2 and `2^x`, which agree with them on the power-of-two sizes the
  program uses.
- Integers are unbounded. The values are only compared, and the counters
  stay below 8192, so no 32-bit overflow can arise in the program as
  written.
  - MergeSort.SortState.PadInputAbove: it computes the largest input plus
    one without a 32-bit bound. A C version of this correction would need
    a separate case for `INT_MAX`.
- `exit` is a `bool`, because the C `int` only ever holds 0 or 1.
- `near_pow_2` of a negative count is modelled (it gives 1 - m), but no
  caller can pass one.
- Ties: the program promises only non-decreasing order (usage text,
  mergeSort.c:240) and nowhere calls the merge stable. Its strict `<`
  (mergeSort.c:170) takes the right run first on equal keys, and
  Merging.MergeRightFirstOnTies proves that order.
- Padding: `pad_input` calls its values dummy integers, added only to
  reach a power of two (mergeSort.c:206-207), so they are meant to stay
  out of the printed values. The sentinels 9000 + i do not always sort
  after the input (see Findings). The model follows the code in
  `PadInput` and `SortMain`.

## Findings

| source | as written | input that shows it | evidently intended | confidence | as-written member | corrected member |
|---|---|---|---|---|---|---|
| mergeSort.c:207-211 | `pad_input` pads with 9000, 9001, … whatever the input values. `output` prints the first `save` items of the sorted array. | Input `9500 1 2` is padded to `9500 1 2 9000` and sorted to `1 2 9000 9500`, so `1 2 9000` is printed and 9500 is lost. | The printed values are the input values, sorted: the sentinels must sort after every input value. | not executed | Padding.SentinelDisplacesInput | MergeSort.SortMainCorrected |
