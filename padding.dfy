/** Growing the input of mergeSort.c to a power of two: `near_pow_2`, the
    values `pad_input` appends, and what the padding does to the part of the
    sorted array that `output` prints. */
module Padding {
  import opened Powers
  import opened Merging
  import opened Schedule

  /** The values appended by the padding loop: base, base + 1, ..., base + count - 1. */
  function Sentinels(base: int, count: nat): (s: seq<int>)
  {
    seq(count, i => base + i)
  }

  /** `near_pow_2`: how many items to add to m to reach a power of two. The
      doubling stops once pow passes 4096, so inputs above 4096 are padded to
      8192; negative m, which the program never passes, gets 1 - m. */
  method NearPow2(m: int) returns (d: int)
    ensures m == 0 ==> d == 0
    ensures 1 <= m <= 4096 ==> 0 <= m + d <= 4096 && LeastPow2AtLeast(m + d, m)
    ensures 1 <= m <= 4096 && IsPow2(m) ==> d == 0
    ensures m > 4096 ==> m + d == 8192
    ensures m < 0 ==> d == 1 - m
  {
    if m == 0 {
      return 0;
    }
    var pow := 1;
    ghost var e := 0;
    while pow < m && pow <= 4096
      invariant pow == Pow2(e) && e <= 13
      invariant pow == 1 || pow / 2 < m
      decreases 13 - e
    {
      Pow2UpTo8192(e);
      pow := pow * 2;
      e := e + 1;
    }
    Pow2UpTo8192(e);
    Pow2IsPow2(e);
    d := pow - m;
    if 1 <= m <= 4096 && IsPow2(m) {
      LeastPow2Unique(pow, m, m);
    }
  }

  /** There is only one least power of two at least m. */
  lemma LeastPow2Unique(p: nat, q: nat, m: nat)
    requires LeastPow2AtLeast(p, m) && LeastPow2AtLeast(q, m)
    ensures p == q
  {
    if p != q {
      var lo, hi := if p < q then p else q, if p < q then q else p;
      NumLevelsOfPow2(lo);
      NumLevelsOfPow2(hi);
      var el, eh := NumLevels(lo), NumLevels(hi);
      if eh <= el {
        if eh < el {
          Pow2Monotone(eh, el);
        }
        assert false;
      }
      assert hi / 2 == Pow2(eh - 1);
      if el < eh - 1 {
        Pow2Monotone(el, eh - 1);
      }
      assert false;
    }
  }

  /** The powers of two the doubling loop of `near_pow_2` can reach: at most
      4096, or 8192 at the thirteenth doubling. */
  lemma Pow2UpTo8192(e: nat)
    requires e <= 13
    ensures Pow2(e) <= 4096 || (e == 13 && Pow2(e) == 8192)
  {
    assert Pow2(12) == 4096;
    if e < 12 {
      Pow2Monotone(e, 12);
    }
  }

  /** A sorted arrangement of the values of a and b, where every value of a is
      below every value of b, has exactly the values of a in its first |a|
      places. */
  lemma {:induction false} SortedPrefixIsLowerPart(s: seq<int>, a: seq<int>, b: seq<int>)
    requires Sorted(s) && multiset(s) == multiset(a) + multiset(b)
    requires forall i, j :: 0 <= i < |a| && 0 <= j < |b| ==> a[i] < b[j]
    ensures |a| <= |s| && multiset(s[..|a|]) == multiset(a)
    decreases |b|
  {
    assert |s| == |multiset(s)| == |a| + |b|;
    if b == [] {
      assert s[..|a|] == s;
    } else {
      var j := LastIsFromUpper(s, a, b);
      var s', b' := s[..|s| - 1], b[..j] + b[j + 1..];
      RemoveLast(s, a, b, j, b');
      SortedPrefixIsLowerPart(s', a, b');
      assert s'[..|a|] == s[..|a|];
    }
  }

  /** In that situation the largest place of s holds a value of b. */
  lemma LastIsFromUpper(s: seq<int>, a: seq<int>, b: seq<int>) returns (j: nat)
    requires Sorted(s) && multiset(s) == multiset(a) + multiset(b) && b != []
    requires forall i, j :: 0 <= i < |a| && 0 <= j < |b| ==> a[i] < b[j]
    ensures j < |b| && |s| > 0 && b[j] == s[|s| - 1]
  {
    assert b[0] in multiset(s);
    var last := s[|s| - 1];
    assert last in multiset(s);
    if last in multiset(a) {
      var i :| 0 <= i < |a| && a[i] == last;
      var p :| 0 <= p < |s| && s[p] == b[0];
      assert false;
    }
    j :| 0 <= j < |b| && b[j] == last;
  }

  /** Dropping the last place of s and the same value from b keeps the two sides in step. */
  lemma RemoveLast(s: seq<int>, a: seq<int>, b: seq<int>, j: nat, b': seq<int>)
    requires Sorted(s) && multiset(s) == multiset(a) + multiset(b)
    requires forall i, j :: 0 <= i < |a| && 0 <= j < |b| ==> a[i] < b[j]
    requires j < |b| && |s| > 0 && b[j] == s[|s| - 1] && b' == b[..j] + b[j + 1..]
    ensures Sorted(s[..|s| - 1])
    ensures multiset(s[..|s| - 1]) == multiset(a) + multiset(b')
    ensures forall i, k :: 0 <= i < |a| && 0 <= k < |b'| ==> a[i] < b'[k]
  {
    var s' := s[..|s| - 1];
    assert s == s' + [b[j]];
    assert b == b[..j] + [b[j]] + b[j + 1..];
    assert multiset(b) == multiset(b') + multiset{b[j]};
    forall v
      ensures multiset(s')[v] == (multiset(a) + multiset(b'))[v]
    {
      assert multiset(s)[v] == multiset(s')[v] + multiset{b[j]}[v];
    }
    forall i, k | 0 <= i < |a| && 0 <= k < |b'|
      ensures a[i] < b'[k]
    {
      if k < j {
        assert b'[k] == b[k];
      } else {
        assert b'[k] == b[k + 1];
      }
    }
  }

  /** Values all below base are below every sentinel from base on. */
  lemma BelowSentinels(a: seq<int>, base: int, count: nat)
    requires forall i :: 0 <= i < |a| ==> a[i] < base
    ensures forall i, j :: 0 <= i < |a| && 0 <= j < count ==> a[i] < Sentinels(base, count)[j]
  {
  }

  /** The printed part of a sort of the input a padded with b: the first |a|
      places of the sorted result are in order, and they are the input values
      when every input value is below every padding value. */
  lemma PrintedPart(s: seq<int>, a: seq<int>, b: seq<int>)
    requires Sorted(s) && multiset(s) == multiset(a + b)
    ensures |a| <= |s| && Sorted(s[..|a|]) && multiset(s) == multiset(a) + multiset(b)
    ensures (forall i, j :: 0 <= i < |a| && 0 <= j < |b| ==> a[i] < b[j]) ==> multiset(s[..|a|]) == multiset(a)
  {
    assert multiset(a + b) == multiset(a) + multiset(b);
    assert |s| == |multiset(s)| == |a| + |b|;
    if forall i, j :: 0 <= i < |a| && 0 <= j < |b| ==> a[i] < b[j] {
      SortedPrefixIsLowerPart(s, a, b);
    }
  }

  /** The printed part of a sort of the first k input values padded with
      base, base + 1, ...: it is in order, and it holds exactly those input
      values when all of them are below base. */
  lemma PaddedPrinted(input: seq<int>, k: nat, base: int, sorted: seq<int>)
    requires k <= |input| && k <= |sorted| && Sorted(sorted)
    requires multiset(sorted) == multiset(input[..k] + Sentinels(base, |sorted| - k))
    ensures Sorted(sorted[..k])
    ensures multiset(sorted) == multiset(input[..k]) + multiset(Sentinels(base, |sorted| - k))
    ensures (forall i :: 0 <= i < k ==> input[i] < base) ==> multiset(sorted[..k]) == multiset(input[..k])
  {
    var a, b := input[..k], Sentinels(base, |sorted| - k);
    PrintedPart(sorted, a, b);
    if forall i :: 0 <= i < k ==> input[i] < base {
      BelowSentinels(a, base, |b|);
    }
  }

  /** The input 9500 1 2 padded with the sentinel 9000: however the four
      values are sorted, the first three places, which are all that gets
      printed, do not hold the input values; 9500 is displaced by 9000. */
  lemma SentinelDisplacesInput(s: seq<int>)
    requires Sorted(s) && LeastPow2AtLeast(|s|, 3)
    requires multiset(s) == multiset([9500, 1, 2]) + multiset(Sentinels(9000, |s| - 3))
    ensures multiset(s[..3]) != multiset([9500, 1, 2])
  {
    assert |s| == 4 by {
      assert |s| != 3 && |s| != 5;
    }
    assert Sentinels(9000, 1) == [9000];
    assert s == s[..3] + [s[3]];
    assert 9500 in multiset(s);
    var p :| 0 <= p < 4 && s[p] == 9500;
    assert s[3] >= 9500;
    assert s[3] in multiset([9500, 1, 2]) + multiset([9000]);
    assert s[3] == 9500;
    assert multiset(s)[9500] == 1;
    assert multiset(s[..3])[9500] == 0;
  }
}
