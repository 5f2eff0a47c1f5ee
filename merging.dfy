/** What the merge step of mergeSort.c computes, as functions on sequences,
    and the facts about it that the level-by-level sort relies on. */
module Merging {

  /** s is in non-decreasing order. */
  predicate Sorted(s: seq<int>)
  {
    forall i, j :: 0 <= i < j < |s| ==> s[i] <= s[j]
  }

  /** The sequence the two-pointer loop of `merge` writes into `temp` when it
      merges run a with the run b that follows it. The test is a strict `<`,
      so on equal heads the element of the second run is taken first. */
  function Merged(a: seq<int>, b: seq<int>): (m: seq<int>)
    ensures |m| == |a| + |b|
    decreases |a| + |b|
  {
    if a == [] then b
    else if b == [] then a
    else if a[0] < b[0] then [a[0]] + Merged(a[1..], b)
    else [b[0]] + Merged(a, b[1..])
  }

  /** The same merge as `merge`'s loops compute it over one sequence s, with
      the index i running through the first run [i, mid) and j through the
      second run [j, end): the next value is s[i] while the first run lasts
      and the second is used up or has the larger head, and s[j] otherwise. */
  function MergeFrom(s: seq<int>, i: nat, mid: nat, j: nat, end: nat): (m: seq<int>)
    requires i <= mid <= j <= end <= |s|
    ensures |m| == (mid - i) + (end - j)
    decreases (mid - i) + (end - j)
  {
    if i < mid && (j == end || s[i] < s[j]) then [s[i]] + MergeFrom(s, i + 1, mid, j, end)
    else if j < end then [s[j]] + MergeFrom(s, i, mid, j + 1, end)
    else []
  }

  /** The index loops and the sequence definition agree: MergeFrom over
      [i, mid) and [j, end) is the merge of those two slices. */
  lemma {:induction false} MergeFromIsMerged(s: seq<int>, i: nat, mid: nat, j: nat, end: nat)
    requires i <= mid <= j <= end <= |s|
    ensures MergeFrom(s, i, mid, j, end) == Merged(s[i..mid], s[j..end])
    decreases (mid - i) + (end - j)
  {
    var a, b := s[i..mid], s[j..end];
    if i < mid && (j == end || s[i] < s[j]) {
      MergeFromIsMerged(s, i + 1, mid, j, end);
      assert a[1..] == s[i + 1..mid];
      if b == [] {
        assert Merged(a[1..], b) == a[1..];
        assert a == [a[0]] + a[1..];
      }
    } else if j < end {
      MergeFromIsMerged(s, i, mid, j + 1, end);
      assert b[1..] == s[j + 1..end];
      if a == [] {
        assert Merged(a, b[1..]) == b[1..];
        assert b == [b[0]] + b[1..];
      }
    }
  }

  /** Merging keeps every element exactly once: the result is a permutation of a + b. */
  lemma {:induction false} MergedPermutes(a: seq<int>, b: seq<int>)
    ensures multiset(Merged(a, b)) == multiset(a) + multiset(b)
    decreases |a| + |b|
  {
    if a == [] || b == [] {
    } else if a[0] < b[0] {
      var m' := Merged(a[1..], b);
      MergedPermutes(a[1..], b);
      assert Merged(a, b) == [a[0]] + m';
      assert multiset(a) == multiset{a[0]} + multiset(a[1..]) by {
        assert a == [a[0]] + a[1..];
      }
      assert multiset(Merged(a, b)) == multiset{a[0]} + multiset(m');
    } else {
      var m' := Merged(a, b[1..]);
      MergedPermutes(a, b[1..]);
      assert Merged(a, b) == [b[0]] + m';
      assert multiset(b) == multiset{b[0]} + multiset(b[1..]) by {
        assert b == [b[0]] + b[1..];
      }
      assert multiset(Merged(a, b)) == multiset{b[0]} + multiset(m');
    }
  }

  /** The head of a sorted sequence is below all of its elements. */
  lemma SortedHeadIsLeast(s: seq<int>, x: int)
    requires Sorted(s) && x in s
    ensures s[0] <= x
  {
    var i :| 0 <= i < |s| && s[i] == x;
  }

  /** Putting a value in front of a sorted sequence whose elements are all at least that value keeps it sorted. */
  lemma SortedCons(h: int, rest: seq<int>)
    requires Sorted(rest)
    requires forall k :: 0 <= k < |rest| ==> h <= rest[k]
    ensures Sorted([h] + rest)
  {
    var s := [h] + rest;
    forall i, j | 0 <= i < j < |s| ensures s[i] <= s[j] {
      if i > 0 {
        assert s[i] == rest[i - 1] && s[j] == rest[j - 1];
      } else {
        assert s[j] == rest[j - 1];
      }
    }
  }

  /** Merging two sorted runs gives a sorted run. */
  lemma {:induction false} MergedSorted(a: seq<int>, b: seq<int>)
    requires Sorted(a) && Sorted(b)
    ensures Sorted(Merged(a, b))
    decreases |a| + |b|
  {
    if a != [] && b != [] {
      if a[0] < b[0] {
        var rest := Merged(a[1..], b);
        MergedSorted(a[1..], b);
        MergedPermutes(a[1..], b);
        forall k | 0 <= k < |rest| ensures a[0] <= rest[k] {
          assert rest[k] in multiset(rest);
          if rest[k] in a[1..] {
            SortedHeadIsLeast(a, rest[k]);
          } else {
            SortedHeadIsLeast(b, rest[k]);
          }
        }
        SortedCons(a[0], rest);
      } else {
        var rest := Merged(a, b[1..]);
        MergedSorted(a, b[1..]);
        MergedPermutes(a, b[1..]);
        forall k | 0 <= k < |rest| ensures b[0] <= rest[k] {
          assert rest[k] in multiset(rest);
          if rest[k] in a {
            SortedHeadIsLeast(a, rest[k]);
          } else {
            SortedHeadIsLeast(b, rest[k]);
          }
        }
        SortedCons(b[0], rest);
      }
    }
  }

  /** The element at position o of a + b, where positions below |a| are in
      the first run and the others in the second. */
  function At(a: seq<int>, b: seq<int>, o: nat): (v: int)
    requires o < |a| + |b|
  {
    if o < |a| then a[o] else b[o - |a|]
  }

  /** Where each element of Merged(a[i..], b[j..]) comes from, as a position in
      a + b (see At). It follows the branches of `merge` index by index, and
      points only into the unconsumed parts a[i..] and b[j..]. */
  function MergeOrigin(a: seq<int>, b: seq<int>, i: nat, j: nat): (o: seq<nat>)
    requires i <= |a| && j <= |b|
    ensures |o| == (|a| - i) + (|b| - j)
    decreases |a| - i + |b| - j
  {
    if i == |a| && j == |b| then []
    else if i == |a| then [|a| + j] + MergeOrigin(a, b, i, j + 1)
    else if j == |b| then [i] + MergeOrigin(a, b, i + 1, j)
    else if a[i] < b[j] then [i] + MergeOrigin(a, b, i + 1, j)
    else [|a| + j] + MergeOrigin(a, b, i, j + 1)
  }

  /** Each position of o names an element of a + b equal to the element of m at that position. */
  ghost predicate Agree(a: seq<int>, b: seq<int>, o: seq<nat>, m: seq<int>)
  {
    |o| == |m| && forall k :: 0 <= k < |o| ==> o[k] < |a| + |b| && At(a, b, o[k]) == m[k]
  }

  lemma AgreeCons(a: seq<int>, b: seq<int>, x: nat, o: seq<nat>, m: seq<int>)
    requires x < |a| + |b| && Agree(a, b, o, m)
    ensures Agree(a, b, [x] + o, [At(a, b, x)] + m)
  {
    var o', m' := [x] + o, [At(a, b, x)] + m;
    forall k | 0 <= k < |o'| ensures o'[k] < |a| + |b| && At(a, b, o'[k]) == m'[k] {
      if k > 0 {
        assert o'[k] == o[k - 1] && m'[k] == m[k - 1];
      }
    }
  }

  /** Every position in o lies in the unconsumed parts a[i..] and b[j..]. */
  ghost predicate WithinRuns(a: seq<int>, b: seq<int>, i: nat, j: nat, o: seq<nat>)
  {
    forall k :: 0 <= k < |o| ==> i <= o[k] < |a| || |a| + j <= o[k] < |a| + |b|
  }

  /** MergeOrigin only points at elements the loop has not consumed yet. */
  lemma {:induction false} MergeOriginWithinRuns(a: seq<int>, b: seq<int>, i: nat, j: nat)
    requires i <= |a| && j <= |b|
    ensures WithinRuns(a, b, i, j, MergeOrigin(a, b, i, j))
    decreases |a| - i + |b| - j
  {
    var o := MergeOrigin(a, b, i, j);
    if i == |a| && j == |b| {
    } else if i < |a| && (j == |b| || a[i] < b[j]) {
      var o' := MergeOrigin(a, b, i + 1, j);
      MergeOriginWithinRuns(a, b, i + 1, j);
      assert o == [i] + o';
      forall k | 0 <= k < |o| ensures i <= o[k] < |a| || |a| + j <= o[k] < |a| + |b| {
        if k > 0 { assert o[k] == o'[k - 1]; }
      }
    } else {
      var o' := MergeOrigin(a, b, i, j + 1);
      MergeOriginWithinRuns(a, b, i, j + 1);
      assert o == [|a| + j] + o';
      forall k | 0 <= k < |o| ensures i <= o[k] < |a| || |a| + j <= o[k] < |a| + |b| {
        if k > 0 { assert o[k] == o'[k - 1]; }
      }
    }
  }

  /** One step of `merge` that takes a[i]: the agreement of the rest extends by one. */
  lemma TakeFirstRunStep(a: seq<int>, b: seq<int>, i: nat, j: nat)
    requires i < |a| && j <= |b| && (j == |b| || a[i] < b[j])
    requires Agree(a, b, MergeOrigin(a, b, i + 1, j), Merged(a[i + 1..], b[j..]))
    ensures Agree(a, b, MergeOrigin(a, b, i, j), Merged(a[i..], b[j..]))
  {
    var o', m' := MergeOrigin(a, b, i + 1, j), Merged(a[i + 1..], b[j..]);
    AgreeCons(a, b, i, o', m');
    assert MergeOrigin(a, b, i, j) == [i] + o';
    if j == |b| {
      assert b[j..] == [];
      assert m' == a[i + 1..];
      assert Merged(a[i..], b[j..]) == [At(a, b, i)] + m' by {
        assert a[i..] == [a[i]] + a[i + 1..];
      }
    } else {
      assert Merged(a[i..], b[j..]) == [At(a, b, i)] + m' by {
        assert a[i..][1..] == a[i + 1..];
      }
    }
  }

  /** One step of `merge` that takes b[j]: the agreement of the rest extends by one. */
  lemma TakeSecondRunStep(a: seq<int>, b: seq<int>, i: nat, j: nat)
    requires i <= |a| && j < |b| && (i == |a| || !(a[i] < b[j]))
    requires Agree(a, b, MergeOrigin(a, b, i, j + 1), Merged(a[i..], b[j + 1..]))
    ensures Agree(a, b, MergeOrigin(a, b, i, j), Merged(a[i..], b[j..]))
  {
    var o', m' := MergeOrigin(a, b, i, j + 1), Merged(a[i..], b[j + 1..]);
    AgreeCons(a, b, |a| + j, o', m');
    assert MergeOrigin(a, b, i, j) == [|a| + j] + o';
    if i == |a| {
      assert a[i..] == [];
      assert m' == b[j + 1..];
      assert Merged(a[i..], b[j..]) == [At(a, b, |a| + j)] + m' by {
        assert b[j..] == [b[j]] + b[j + 1..];
      }
    } else {
      assert Merged(a[i..], b[j..]) == [At(a, b, |a| + j)] + m' by {
        assert b[j..][1..] == b[j + 1..];
      }
    }
  }

  /** MergeOrigin names, for every output position, an element equal to the
      one Merged puts there. */
  lemma {:induction false} MergeOriginAgrees(a: seq<int>, b: seq<int>, i: nat, j: nat)
    requires i <= |a| && j <= |b|
    ensures Agree(a, b, MergeOrigin(a, b, i, j), Merged(a[i..], b[j..]))
    decreases |a| - i + |b| - j
  {
    if i == |a| && j == |b| {
    } else if i < |a| && (j == |b| || a[i] < b[j]) {
      MergeOriginAgrees(a, b, i + 1, j);
      TakeFirstRunStep(a, b, i, j);
    } else {
      MergeOriginAgrees(a, b, i, j + 1);
      TakeSecondRunStep(a, b, i, j);
    }
  }

  /** In the output order o, an element of the first run comes out ahead of an
      element of the second run only when it is strictly smaller. */
  ghost predicate RightFirst(a: seq<int>, b: seq<int>, o: seq<nat>)
  {
    forall p, q :: 0 <= p < q < |o| && o[p] < |a| <= o[q] < |a| + |b| ==> At(a, b, o[p]) < At(a, b, o[q])
  }

  /** The merge is right-first on ties: equal keys from the second run are
      emitted before those from the first, the opposite of a stable merge. */
  lemma {:induction false} MergeRightFirstOnTies(a: seq<int>, b: seq<int>, i: nat, j: nat)
    requires Sorted(a) && Sorted(b)
    requires i <= |a| && j <= |b|
    ensures RightFirst(a, b, MergeOrigin(a, b, i, j))
    decreases |a| - i + |b| - j
  {
    if i == |a| || j == |b| {
      OneRunLeft(a, b, i, j);
    } else if a[i] < b[j] {
      MergeRightFirstOnTies(a, b, i + 1, j);
      TakeSmallerFirst(a, b, i, j);
    } else {
      MergeRightFirstOnTies(a, b, i, j + 1);
      TakeSecondOnTie(a, b, i, j);
    }
  }

  /** The step of `merge` that takes a[i] < b[j] keeps the right-first order. */
  lemma TakeSmallerFirst(a: seq<int>, b: seq<int>, i: nat, j: nat)
    requires Sorted(b) && i < |a| && j < |b| && a[i] < b[j]
    requires RightFirst(a, b, MergeOrigin(a, b, i + 1, j))
    ensures RightFirst(a, b, MergeOrigin(a, b, i, j))
  {
    var o' := MergeOrigin(a, b, i + 1, j);
    assert MergeOrigin(a, b, i, j) == [i] + o';
    MergeOriginWithinRuns(a, b, i + 1, j);
    PrependSmaller(a, b, i, j, o');
  }

  /** The step of `merge` that takes b[j] when !(a[i] < b[j]) keeps the right-first order. */
  lemma TakeSecondOnTie(a: seq<int>, b: seq<int>, i: nat, j: nat)
    requires i < |a| && j < |b| && !(a[i] < b[j])
    requires RightFirst(a, b, MergeOrigin(a, b, i, j + 1))
    ensures RightFirst(a, b, MergeOrigin(a, b, i, j))
  {
    var o' := MergeOrigin(a, b, i, j + 1);
    assert MergeOrigin(a, b, i, j) == [|a| + j] + o';
    PrependSecondRun(a, b, |a| + j, o');
  }

  /** Once one run is used up, no two output positions come from different runs. */
  lemma OneRunLeft(a: seq<int>, b: seq<int>, i: nat, j: nat)
    requires i <= |a| && j <= |b| && (i == |a| || j == |b|)
    ensures RightFirst(a, b, MergeOrigin(a, b, i, j))
  {
    MergeOriginWithinRuns(a, b, i, j);
  }

  /** Emitting a[i] ahead of a rest drawn from a[i+1..] and b[j..] keeps the
      right-first order when a[i] < b[j]. */
  lemma PrependSmaller(a: seq<int>, b: seq<int>, i: nat, j: nat, o': seq<nat>)
    requires Sorted(b) && i < |a| && j < |b| && a[i] < b[j]
    requires RightFirst(a, b, o') && WithinRuns(a, b, i + 1, j, o')
    ensures RightFirst(a, b, [i] + o')
  {
    var o := [i] + o';
    forall p, q | 0 <= p < q < |o| && o[p] < |a| <= o[q] < |a| + |b|
      ensures At(a, b, o[p]) < At(a, b, o[q])
    {
      assert o[q] == o'[q - 1];
      if p > 0 {
        assert o[p] == o'[p - 1];
      } else {
        assert b[j] <= b[o[q] - |a|];
      }
    }
  }

  /** Emitting an element of the second run first keeps the right-first order. */
  lemma PrependSecondRun(a: seq<int>, b: seq<int>, x: nat, o': seq<nat>)
    requires |a| <= x && RightFirst(a, b, o')
    ensures RightFirst(a, b, [x] + o')
  {
    var o := [x] + o';
    forall p, q | 0 <= p < q < |o| && o[p] < |a| <= o[q] < |a| + |b|
      ensures At(a, b, o[p]) < At(a, b, o[q])
    {
      assert o[p] == o'[p - 1] && o[q] == o'[q - 1];
    }
  }

  /** With one equal element in each run, the second run's copy is emitted first. */
  lemma MergeTieTakesSecondRun(v: int)
    ensures MergeOrigin([v], [v], 0, 0) == [1, 0]
  {
    assert MergeOrigin([v], [v], 1, 1) == [];
    assert MergeOrigin([v], [v], 0, 1) == [0];
  }

  /** s is a whole number of consecutive blocks of width w, each sorted. This
      is the state of the first n places of `items` between levels: after
      level x every block of width 2^(x+1) is sorted. */
  predicate BlocksSorted(s: seq<int>, w: nat)
    requires w > 0
    decreases |s|
  {
    |s| == 0 || (|s| >= w && Sorted(s[..w]) && BlocksSorted(s[w..], w))
  }

  /** Blocks of width one are always sorted: the state before the first level. */
  lemma {:induction false} BlocksOfOneSorted(s: seq<int>)
    ensures BlocksSorted(s, 1)
    decreases |s|
  {
    if |s| > 0 {
      BlocksOfOneSorted(s[1..]);
    }
  }

  /** A single block covering the whole sequence: blocks sorted means sorted. */
  lemma WholeBlockSorted(s: seq<int>, w: nat)
    requires w > 0 && |s| == w && BlocksSorted(s, w)
    ensures Sorted(s)
  {
    assert s[..w] == s;
  }

  /** The next two blocks of width r of a block-sorted sequence are the two
      sorted runs one merge combines; what follows them stays block-sorted. */
  lemma BlocksSortedSplit(u: seq<int>, r: nat)
    requires r > 0 && |u| >= 2 * r && BlocksSorted(u, r)
    ensures Sorted(u[..r]) && Sorted(u[r..2 * r]) && BlocksSorted(u[2 * r..], r)
  {
    var v := u[r..];
    assert v[..r] == u[r..2 * r];
    assert v[r..] == u[2 * r..];
  }

  /** Appending one sorted block of width w to whole sorted blocks of width w
      gives one more whole sorted block. */
  lemma {:induction false} BlocksSortedAppend(s: seq<int>, t: seq<int>, w: nat)
    requires w > 0 && |t| == w
    requires BlocksSorted(s, w) && Sorted(t)
    ensures BlocksSorted(s + t, w)
    decreases |s|
  {
    if |s| == 0 {
      assert s + t == t && t[..w] == t && t[w..] == [];
    } else {
      assert (s + t)[..w] == s[..w];
      assert (s + t)[w..] == s[w..] + t;
      BlocksSortedAppend(s[w..], t, w);
    }
  }
}
