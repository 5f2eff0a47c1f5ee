/** The bottom-up sort that `mSort` and `merge` in mergeSort.c carry out,
    with each level's merges run one after another, as functions on the
    contents of `items`; and the proof that running every level sorts the
    first n items. */
module Levels {
  import opened Powers
  import opened Merging
  import opened Schedule

  /** s with the part from index start on overwritten by u. */
  function Splice(s: seq<int>, start: nat, u: seq<int>): (t: seq<int>)
    requires start + |u| <= |s|
    ensures |t| == |s|
  {
    s[..start] + u + s[start + |u|..]
  }

  /** A splice keeps s before start and from start + |u| on, and reads u in between. */
  lemma SpliceParts(s: seq<int>, start: nat, u: seq<int>)
    requires start + |u| <= |s|
    ensures Splice(s, start, u)[..start] == s[..start]
    ensures Splice(s, start, u)[start..start + |u|] == u
    ensures Splice(s, start, u)[start + |u|..] == s[start + |u|..]
  {
    var t := Splice(s, start, u);
    assert t == (s[..start] + u) + s[start + |u|..];
    assert t[..start + |u|] == s[..start] + u;
    assert t[..start + |u|][..start] == t[..start];
    assert t[..start + |u|][start..] == t[start..start + |u|];
  }

  /** t is s with u written at start, stated place by place; used to read
      the effect of a loop over an array as a splice. */
  lemma SpliceAt(s: seq<int>, t: seq<int>, start: nat, u: seq<int>)
    requires |t| == |s| && start + |u| <= |s|
    requires forall q :: 0 <= q < |t| ==> t[q] == if start <= q < start + |u| then u[q - start] else s[q]
    ensures t == Splice(s, start, u)
  {
    var v := Splice(s, start, u);
    SpliceParts(s, start, u);
    forall q | 0 <= q < |t|
      ensures t[q] == v[q]
    {
      if q < start {
        assert v[q] == v[..start][q];
      } else if q < start + |u| {
        assert v[q] == v[start..start + |u|][q - start];
      } else {
        assert v[q] == v[start + |u|..][q - start - |u|];
      }
    }
  }

  /** The contents of `items` after `merge` with the given start and run
      length r: the two runs [start, start + r) and [start + r, start + 2r)
      replaced by their merge. */
  function MergeAt(s: seq<int>, start: nat, r: nat): (t: seq<int>)
    requires start + 2 * r <= |s|
    ensures |t| == |s|
  {
    seq(|s|, i requires 0 <= i < |s| =>
      if start <= i < start + 2 * r then Merged(s[start..start + r], s[start + r..start + 2 * r])[i - start] else s[i])
  }

  /** One merge is the splice of the merge of the two runs over them. */
  lemma MergeAtIsSplice(s: seq<int>, start: nat, r: nat)
    requires start + 2 * r <= |s|
    ensures MergeAt(s, start, r) == Splice(s, start, Merged(s[start..start + r], s[start + r..start + 2 * r]))
  {
    var m := Merged(s[start..start + r], s[start + r..start + 2 * r]);
    var t, u := MergeAt(s, start, r), Splice(s, start, m);
    assert u == (s[..start] + m) + s[start + 2 * r..];
    forall i | 0 <= i < |s|
      ensures t[i] == u[i]
    {
      if i < start + 2 * r {
        assert u[i] == (s[..start] + m)[i];
      }
    }
  }

  /** One merge leaves everything outside [start, start + 2r) as it was and
      puts the merge of the two runs in between. */
  lemma MergeAtParts(s: seq<int>, start: nat, r: nat)
    requires start + 2 * r <= |s|
    ensures MergeAt(s, start, r)[..start] == s[..start]
    ensures MergeAt(s, start, r)[start..start + 2 * r] == Merged(s[start..start + r], s[start + r..start + 2 * r])
    ensures MergeAt(s, start, r)[start + 2 * r..] == s[start + 2 * r..]
  {
    MergeAtIsSplice(s, start, r);
    SpliceParts(s, start, Merged(s[start..start + r], s[start + r..start + 2 * r]));
  }

  /** One merge of two sorted runs leaves [start, start + 2r) sorted. */
  lemma MergeAtSorts(s: seq<int>, start: nat, r: nat)
    requires start + 2 * r <= |s|
    requires Sorted(s[start..start + r]) && Sorted(s[start + r..start + 2 * r])
    ensures Sorted(MergeAt(s, start, r)[start..start + 2 * r])
  {
    MergeAtParts(s, start, r);
    MergedSorted(s[start..start + r], s[start + r..start + 2 * r]);
  }

  /** The two runs of width r at st of a sequence in sorted blocks of width r
      from st to n are sorted, and what follows them stays in sorted blocks. */
  lemma NextTwoRuns(s: seq<int>, n: nat, st: nat, r: nat)
    requires r > 0 && st + 2 * r <= n <= |s| && BlocksSorted(s[st..n], r)
    ensures Sorted(s[st..st + r]) && Sorted(s[st + r..st + 2 * r]) && BlocksSorted(s[st + 2 * r..n], r)
  {
    var u := s[st..n];
    BlocksSortedSplit(u, r);
    SliceOfSlice(s, st, n, 0, r);
    SliceOfSlice(s, st, n, r, 2 * r);
    SliceOfSlice(s, st, n, 2 * r, n - st);
  }

  /** A slice of a slice is a slice. */
  lemma SliceOfSlice(s: seq<int>, a: nat, b: nat, i: nat, j: nat)
    requires a <= b <= |s| && i <= j <= b - a
    ensures s[a..b][i..j] == s[a + i..a + j]
  {
    var u, v := s[a..b][i..j], s[a + i..a + j];
    assert |u| == |v|;
    forall q | 0 <= q < |u|
      ensures u[q] == v[q]
    {
      assert u[q] == s[a..b][i + q];
    }
  }

  /** Whole sorted blocks of width w before st, and a sorted block in t at
      st: t has whole sorted blocks before st + w. */
  lemma SortedBlockAppended(s: seq<int>, t: seq<int>, st: nat, w: nat)
    requires w > 0 && st + w <= |s| == |t| && t[..st] == s[..st]
    requires BlocksSorted(s[..st], w) && Sorted(t[st..st + w])
    ensures BlocksSorted(t[..st + w], w)
  {
    assert t[..st + w] == s[..st] + t[st..st + w];
    BlocksSortedAppend(s[..st], t[st..st + w], w);
  }

  /** Sequences that agree from k on agree on [k, n). */
  lemma SameTail(s: seq<int>, t: seq<int>, k: nat, n: nat)
    requires k <= n <= |s| == |t| && t[k..] == s[k..]
    ensures t[k..n] == s[k..n]
  {
    assert t[k..n] == t[k..][..n - k];
    assert s[k..n] == s[k..][..n - k];
  }

  /** The same step keeps [0, n) a permutation and leaves what lies past n alone. */
  lemma LevelStepPermutes(s: seq<int>, t: seq<int>, n: nat, st: nat, w: nat)
    requires st + w <= n <= |s| == |t|
    requires t[..st] == s[..st] && t[st + w..] == s[st + w..]
    requires multiset(t[st..st + w]) == multiset(s[st..st + w])
    ensures multiset(t[..n]) == multiset(s[..n]) && t[n..] == s[n..]
  {
    SameTail(s, t, st + w, n);
    assert t[..n] == t[..st] + t[st..st + w] + t[st + w..n];
    assert s[..n] == s[..st] + s[st..st + w] + s[st + w..n];
    assert t[n..] == t[st + w..][n - st - w..];
    assert s[n..] == s[st + w..][n - st - w..];
  }

  /** A task of a level, merging at st with w == 2r: the level advances by
      one block. */
  lemma MergeAtAdvancesLevel(s: seq<int>, n: nat, st: nat, r: nat, w: nat)
    requires r > 0 && w == 2 * r && st + w <= n <= |s|
    requires BlocksSorted(s[..st], w) && BlocksSorted(s[st..n], r)
    ensures BlocksSorted(MergeAt(s, st, r)[..st + w], w)
    ensures BlocksSorted(MergeAt(s, st, r)[st + w..n], r)
  {
    MergeAtParts(s, st, r);
    NextTwoRuns(s, n, st, r);
    MergeAtSorts(s, st, r);
    BlockStep(s, MergeAt(s, st, r), n, st, w);
  }

  /** t agrees with s outside [st, st + w) and is sorted inside it: the whole
      sorted blocks of width w grow by one and the rest up to n is unchanged. */
  lemma BlockStep(s: seq<int>, t: seq<int>, n: nat, st: nat, w: nat)
    requires w > 0 && st + w <= n <= |s| == |t|
    requires t[..st] == s[..st] && t[st + w..] == s[st + w..]
    requires BlocksSorted(s[..st], w) && Sorted(t[st..st + w])
    ensures BlocksSorted(t[..st + w], w) && t[st + w..n] == s[st + w..n]
  {
    SortedBlockAppended(s, t, st, w);
    SameTail(s, t, st + w, n);
  }

  /** A merge within [0, n) keeps [0, n) a permutation and touches nothing
      past n. */
  lemma MergeAtPermutes(s: seq<int>, n: nat, st: nat, r: nat)
    requires st + 2 * r <= n <= |s|
    ensures multiset(MergeAt(s, st, r)[..n]) == multiset(s[..n])
    ensures MergeAt(s, st, r)[n..] == s[n..]
  {
    var m := Merged(s[st..st + r], s[st + r..st + 2 * r]);
    MergedRunsPermute(s, st, r);
    MergeAtIsSplice(s, st, r);
    SplicePermutes(s, n, st, m);
  }

  /** The merge of the two runs at st is a rearrangement of the 2r places it replaces. */
  lemma MergedRunsPermute(s: seq<int>, st: nat, r: nat)
    requires st + 2 * r <= |s|
    ensures multiset(Merged(s[st..st + r], s[st + r..st + 2 * r])) == multiset(s[st..st + 2 * r])
  {
    var a, b := s[st..st + r], s[st + r..st + 2 * r];
    MergedPermutes(a, b);
    assert s[st..st + 2 * r] == a + b;
  }

  /** Writing a rearrangement u of s[st..st + |u|] in its place keeps [0, n)
      a permutation and touches nothing past n. */
  lemma SplicePermutes(s: seq<int>, n: nat, st: nat, u: seq<int>)
    requires st + |u| <= n <= |s| && multiset(u) == multiset(s[st..st + |u|])
    ensures multiset(Splice(s, st, u)[..n]) == multiset(s[..n])
    ensures Splice(s, st, u)[n..] == s[n..]
  {
    SpliceParts(s, st, u);
    LevelStepPermutes(s, Splice(s, st, u), n, st, |u|);
  }

  /** The argument of one merge task: where its two runs start, and the level,
      whose runs are 2^level items long. */
  datatype MsInput = MsInput(start: int, level: int)

  /** count tasks of the given level, the first merging at start and each
      next one w further on. */
  function TasksFrom(start: int, count: nat, level: int, w: nat): (ts: seq<MsInput>)
    ensures |ts| == count
    decreases count
  {
    if count == 0 then [] else [MsInput(start, level)] + TasksFrom(start + w, count - 1, level, w)
  }

  /** Task y of TasksFrom starts y * w after start. */
  lemma {:induction false} TasksFromAt(start: int, count: nat, level: int, w: nat, y: nat)
    requires y < count
    ensures TasksFrom(start, count, level, w)[y] == MsInput(start + y * w, level)
    decreases y
  {
    if y > 0 {
      TasksFromAt(start + w, count - 1, level, w, y - 1);
      PeelFactor(y, w);
    }
  }

  /** The tasks `mSort` adds for level x of a sort of n items, in the order
      it adds them: the first at 0, each next one 2^(x+1) further on. */
  function LevelTasks(n: nat, x: nat): (ts: seq<MsInput>)
  {
    TasksFrom(0, ConcurrentTasks(n, x), x, Pow2(x + 1))
  }

  /** Level x has (n/2)/2^x tasks, and task y merges the two runs starting
      at y * 2^(x+1). */
  lemma LevelTaskAt(n: nat, x: nat, y: nat)
    requires y < ConcurrentTasks(n, x)
    ensures |LevelTasks(n, x)| == ConcurrentTasks(n, x)
    ensures LevelTasks(n, x)[y] == MsInput(y * Pow2(x + 1), x)
  {
    TasksFromAt(0, ConcurrentTasks(n, x), x, Pow2(x + 1), y);
  }

  /** The first of count tasks from start is the one at start; the rest
      begin w further on. */
  lemma TasksFromStep(start: int, count: nat, level: int, w: nat)
    requires count > 0
    ensures TasksFrom(start, count, level, w)[0] == MsInput(start, level)
    ensures TasksFrom(start, count, level, w)[1..] == TasksFrom(start + w, count - 1, level, w)
    ensures Times(count, w) == Times(count - 1, w) + w
  {
  }

  /** The merges of width r from start on, one after another, as long as
      their two runs end by end. */
  function RunTasks(s: seq<int>, start: nat, end: nat, r: nat): (t: seq<int>)
    requires r > 0 && end <= |s|
    ensures |t| == |s|
    decreases end - start
  {
    if start + 2 * r <= end then RunTasks(MergeAt(s, start, r), start + 2 * r, end, r) else s
  }

  /** The first merge of RunTasks, when its two runs fit before end. */
  lemma RunTasksStep(s: seq<int>, start: nat, next: nat, end: nat, r: nat)
    requires r > 0 && next == start + 2 * r <= end <= |s|
    ensures RunTasks(s, start, end, r) == RunTasks(MergeAt(s, start, r), next, end, r)
  {
  }

  /** Running the first of c merges of level x from z leaves the rest,
      from z + 2^(x+1) on, to finish the same level. */
  lemma RunNextTask(s: seq<int>, t: seq<int>, z: nat, z': nat, c: nat, x: nat, n: nat, goal: seq<int>)
    requires c > 0 && z + Times(c, Pow2(x + 1)) == n <= |s| && z' == z + Pow2(x + 1)
    requires z + 2 * Pow2(x) <= |s| && t == MergeAt(s, z, Pow2(x))
    requires RunTasks(s, z, n, Pow2(x)) == goal
    ensures z' + Times(c - 1, Pow2(x + 1)) == n
    ensures RunTasks(t, z', n, Pow2(x)) == goal
  {
    RunTasksStep(s, z, z', n, Pow2(x));
  }

  /** Level x of a sort of n items: the tasks `mSort` adds for it (LevelTasks)
      run one after another, merging the runs of width 2^x that start at 0,
      2^(x+1), 2 * 2^(x+1), ... below n. */
  function RunLevel(s: seq<int>, n: nat, x: nat): (t: seq<int>)
    requires IsPow2(n) && x < NumLevels(n) && n <= |s|
    ensures |t| == |s|
  {
    RunTasks(s, 0, n, Pow2(x))
  }

  /** Levels x, x + 1, ..., log2 n - 1 of a sort of n items, in order. */
  function RunLevels(s: seq<int>, n: nat, x: nat): (t: seq<int>)
    requires (n == 0 || IsPow2(n)) && x <= NumLevels(n) && n <= |s|
    ensures |t| == |s|
    decreases NumLevels(n) - x
  {
    if x == NumLevels(n) then s else RunLevels(RunLevel(s, n, x), n, x + 1)
  }

  /** Running count merges of width r from start, with whole blocks of width
      2r merged before start and the items from start to the end n of the
      last merge in sorted blocks of width r, leaves all of [0, n) in sorted
      blocks of width 2r. */
  lemma {:induction false} RunTasksSorts(s: seq<int>, n: nat, start: nat, count: nat, r: nat, w: nat)
    requires r > 0 && w == 2 * r && n == start + Times(count, w) <= |s|
    requires BlocksSorted(s[..start], w) && BlocksSorted(s[start..n], r)
    ensures BlocksSorted(RunTasks(s, start, n, r)[..n], w)
    decreases count
  {
    if count > 0 {
      assert Times(count, w) == Times(count - 1, w) + w;
      MergeAtAdvancesLevel(s, n, start, r, w);
      RunTasksSorts(MergeAt(s, start, r), n, start + w, count - 1, r, w);
    }
  }

  /** Running the merges of a level from start to n keeps [0, n) a
      permutation and touches nothing past n. */
  lemma {:induction false} RunTasksPermutes(s: seq<int>, n: nat, start: nat, r: nat)
    requires r > 0 && n <= |s|
    ensures multiset(RunTasks(s, start, n, r)[..n]) == multiset(s[..n])
    ensures RunTasks(s, start, n, r)[n..] == s[n..]
    decreases n - start
  {
    if start + 2 * r <= n {
      MergeAtPermutes(s, n, start, r);
      RunTasksPermutes(MergeAt(s, start, r), n, start + 2 * r, r);
    }
  }

  /** Running levels x .. log2 n - 1 on items in sorted blocks of width 2^x
      sorts the first n items, keeps them a permutation, and touches nothing
      past n. */
  lemma {:induction false} RunLevelsSorts(s: seq<int>, n: nat, x: nat)
    requires (n == 0 || IsPow2(n)) && x <= NumLevels(n) && n <= |s|
    requires BlocksSorted(s[..n], Pow2(x))
    ensures Sorted(RunLevels(s, n, x)[..n])
    ensures multiset(RunLevels(s, n, x)[..n]) == multiset(s[..n])
    ensures RunLevels(s, n, x)[n..] == s[n..]
    decreases NumLevels(n) - x
  {
    if x == NumLevels(n) {
      if n > 0 {
        NumLevelsOfPow2(n);
        WholeBlockSorted(s[..n], Pow2(x));
      }
    } else {
      assert s[..0] == [] && s[0..n] == s[..n];
      LevelShape(n, x);
      TimesIsProduct(ConcurrentTasks(n, x), Pow2(x + 1));
      RunTasksSorts(s, n, 0, ConcurrentTasks(n, x), Pow2(x), Pow2(x + 1));
      RunTasksPermutes(s, n, 0, Pow2(x));
      RunLevelsSorts(RunLevel(s, n, x), n, x + 1);
    }
  }

  /** The whole sort: on n == 0 or a power of two n, running every level from
      the first leaves the first n items sorted and a permutation of what they
      were, and the items past n as they were. */
  lemma SortLevelsSorts(s: seq<int>, n: nat)
    requires (n == 0 || IsPow2(n)) && n <= |s|
    ensures Sorted(RunLevels(s, n, 0)[..n])
    ensures multiset(RunLevels(s, n, 0)[..n]) == multiset(s[..n])
    ensures RunLevels(s, n, 0)[n..] == s[n..]
  {
    BlocksOfOneSorted(s[..n]);
    RunLevelsSorts(s, n, 0);
  }
}
