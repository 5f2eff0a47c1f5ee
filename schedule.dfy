/** The level and task arithmetic of `mSort` in mergeSort.c: how many levels a
    sort of n items has, how many merge tasks each level submits, where each
    task starts, and how many tasks the whole sort submits. The C code uses
    `log` and `pow` in floating point; here they are the integer log2 and 2^x
    on power-of-two item counts. */
module Schedule {
  import opened Powers

  /** `num_levels`: the number of merge levels, log2 of the item count (0 for no items). */
  function NumLevels(numItems: nat): (lvl: nat)
    ensures numItems >= 1 ==> Pow2(lvl) <= numItems < 2 * Pow2(lvl)
  {
    if numItems <= 1 then 0 else 1 + NumLevels(numItems / 2)
  }

  /** A power of two is 2 to the power of its number of levels. */
  lemma {:induction false} NumLevelsOfPow2(n: nat)
    requires IsPow2(n)
    ensures Pow2(NumLevels(n)) == n
  {
    if n > 1 {
      NumLevelsOfPow2(n / 2);
    }
  }

  /** `concurrent_tasks` of level x, the number of merges the level submits:
      n/2 halved x times, which ConcurrentTasksFormula shows is the
      (n/2) / 2^x that `mSort` computes. */
  function ConcurrentTasks(numItems: nat, x: nat): (c: nat)
    decreases x
  {
    if x == 0 then numItems / 2 else ConcurrentTasks(numItems, x - 1) / 2
  }

  /** Halving n/2 x times is dividing it by 2^x. */
  lemma {:induction false} ConcurrentTasksFormula(numItems: nat, x: nat)
    ensures ConcurrentTasks(numItems, x) == (numItems / 2) / Pow2(x)
  {
    if x > 0 {
      ConcurrentTasksFormula(numItems, x - 1);
      DivDiv(numItems / 2, Pow2(x - 1));
    }
  }

  /** `step` of level x: the distance between the starts of consecutive tasks. */
  function Step(numItems: nat, x: nat): (step: nat)
    requires ConcurrentTasks(numItems, x) > 0
  {
    numItems / ConcurrentTasks(numItems, x)
  }

  /** On a power-of-two n, level x < log2 n has 2^(log2 n - 1 - x) tasks, each
      covering 2^(x+1) items, and together they cover exactly n items. */
  lemma LevelShape(n: nat, x: nat)
    requires IsPow2(n) && x < NumLevels(n)
    ensures ConcurrentTasks(n, x) == Pow2(NumLevels(n) - 1 - x) >= 1
    ensures Step(n, x) == Pow2(x + 1)
    ensures ConcurrentTasks(n, x) * Step(n, x) == n
  {
    var lvl := NumLevels(n);
    LevelsHalve(n, x);
    NumLevelsOfPow2(n);
    Pow2Add(lvl - 1 - x, x + 1);
    DivUnique(n, Pow2(lvl - 1 - x), Pow2(x + 1), 0);
  }

  /** Each level of a power-of-two sort has half the tasks of the level before. */
  lemma {:induction false} LevelsHalve(n: nat, x: nat)
    requires IsPow2(n) && x < NumLevels(n)
    ensures ConcurrentTasks(n, x) == Pow2(NumLevels(n) - 1 - x)
  {
    var lvl := NumLevels(n);
    if x == 0 {
      NumLevelsOfPow2(n);
      assert n / 2 == Pow2(lvl - 1);
    } else {
      LevelsHalve(n, x - 1);
      assert Pow2(lvl - x) == 2 * Pow2(lvl - 1 - x);
    }
  }

  /** Task y of level x merges the items in [y * step, (y + 1) * step), which lies inside [0, n). */
  lemma TaskInBounds(n: nat, x: nat, y: nat)
    requires IsPow2(n) && x < NumLevels(n) && y < ConcurrentTasks(n, x)
    ensures (y + 1) * Step(n, x) <= n
  {
    LevelShape(n, x);
    MulMonotone(y + 1, ConcurrentTasks(n, x), Step(n, x));
  }

  /** The ranges of one level's tasks are disjoint and in order: an earlier task ends where a later one may start. */
  lemma TaskRangesDisjoint(n: nat, x: nat, y1: nat, y2: nat)
    requires IsPow2(n) && x < NumLevels(n) && y1 < y2 < ConcurrentTasks(n, x)
    ensures (y1 + 1) * Step(n, x) <= y2 * Step(n, x)
  {
    LevelShape(n, x);
    MulMonotone(y1 + 1, y2, Step(n, x));
  }

  /** The ranges of one level's tasks tile [0, n): item i is in the range
      [y * step, (y + 1) * step) of task y, where step == 2^(x+1), exactly when
      y == i / step, and that task exists. */
  lemma LevelTiles(n: nat, x: nat, i: nat, y: nat)
    requires IsPow2(n) && x < NumLevels(n) && i < n
    ensures i / Pow2(x + 1) < ConcurrentTasks(n, x)
    ensures y * Pow2(x + 1) <= i < (y + 1) * Pow2(x + 1) <==> y == i / Pow2(x + 1)
  {
    LevelShape(n, x);
    BlockOf(n, ConcurrentTasks(n, x), Pow2(x + 1), i, y);
  }

  /** Cutting [0, c * s) into c blocks of width s: i is in block y exactly when y == i / s. */
  lemma BlockOf(n: int, c: int, s: int, i: int, y: int)
    requires s > 0 && c * s == n && 0 <= i < n
    ensures 0 <= i / s < c
    ensures y * s <= i < (y + 1) * s <==> y == i / s
  {
    var y0, r0 := i / s, i % s;
    assert i == y0 * s + r0 && 0 <= r0 < s;
    assert (y0 + 1) * s == y0 * s + s;
    if y0 >= c {
      MulMonotone(c, y0, s);
      assert false;
    }
    if y0 < 0 {
      MulMonotone(y0 + 1, 0, s);
      assert false;
    }
    if y * s <= i < (y + 1) * s {
      assert (y + 1) * s == y * s + s;
      DivUnique(i, s, y, i - y * s);
    }
  }

  /** The number of tasks `mSort` submits in levels 0 .. x-1. */
  function TasksBefore(numItems: nat, x: nat): (count: nat)
  {
    if x == 0 then 0 else TasksBefore(numItems, x - 1) + ConcurrentTasks(numItems, x - 1)
  }

  /** The number of tasks `mSort` submits over all levels. */
  function TotalTasks(numItems: nat): (count: nat)
  {
    TasksBefore(numItems, NumLevels(numItems))
  }

  /** Levels 0 .. x-1 of a sort of n = 2^L items submit n - 2^(L-x) tasks. */
  lemma {:induction false} TasksBeforeCount(n: nat, x: nat)
    requires IsPow2(n) && x <= NumLevels(n)
    ensures TasksBefore(n, x) == n - Pow2(NumLevels(n) - x)
  {
    NumLevelsOfPow2(n);
    if x > 0 {
      TasksBeforeCount(n, x - 1);
      LevelShape(n, x - 1);
      assert Pow2(NumLevels(n) - (x - 1)) == 2 * Pow2(NumLevels(n) - x);
    }
  }

  /** The levels before x never submit more than the whole sort. */
  lemma TasksBeforeAtMostTotal(n: nat, x: nat)
    requires IsPow2(n) && x <= NumLevels(n)
    ensures TasksBefore(n, x) <= TotalTasks(n)
  {
    TasksBeforeCount(n, x);
    TasksBeforeCount(n, NumLevels(n));
  }

  /** A sort of n items submits n - 1 tasks in all (none for an empty input). */
  lemma TotalTasksCount(n: nat)
    requires n == 0 || IsPow2(n)
    ensures TotalTasks(n) == if n == 0 then 0 else n - 1
  {
    if n > 0 {
      TasksBeforeCount(n, NumLevels(n));
    }
  }

  /** The pool `main` creates has num_items/2 threads and so 2 * (n/2) queue
      slots; the sort's tasks fit, with exactly one slot to spare when n >= 2. */
  lemma QueueHoldsSortWorkload(n: nat)
    requires n == 0 || IsPow2(n)
    ensures TotalTasks(n) <= 2 * (n / 2)
    ensures n >= 2 ==> 2 * (n / 2) == TotalTasks(n) + 1
  {
    TotalTasksCount(n);
  }
}
