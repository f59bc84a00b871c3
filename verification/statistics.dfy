/** The aggregates the message-length report uses: Python's `min`, `max`,
    `statistics.median` and `statistics.mean` over a list of integers.
    Median and mean are exact rationals here. For integer data Python's
    values agree with them, except that a mean that is not a whole number
    is rounded to a float. */
module Statistics {

  function Sum(s: seq<int>): int {
    if s == [] then 0 else s[0] + Sum(s[1..])
  }

  /** `min(s)`: an element of `s` no larger than any other. */
  function Min(s: seq<int>): (m: int)
    requires |s| > 0
    ensures m in s && forall i :: 0 <= i < |s| ==> m <= s[i]
  {
    if |s| == 1 then s[0]
    else
      var rest := Min(s[1..]);
      if s[0] <= rest then s[0] else rest
  }

  /** `max(s)`: an element of `s` no smaller than any other. */
  function Max(s: seq<int>): (m: int)
    requires |s| > 0
    ensures m in s && forall i :: 0 <= i < |s| ==> s[i] <= m
  {
    if |s| == 1 then s[0]
    else
      var rest := Max(s[1..]);
      if s[0] >= rest then s[0] else rest
  }

  predicate IsSorted(s: seq<int>) {
    forall i, j :: 0 <= i < j < |s| ==> s[i] <= s[j]
  }

  function Insert(x: int, s: seq<int>): (r: seq<int>)
    requires IsSorted(s)
    ensures |r| == |s| + 1
    ensures IsSorted(r) && multiset(r) == multiset(s) + multiset{x}
  {
    if s == [] then [x]
    else if x <= s[0] then
      ConsSorted(x, s);
      [x] + s
    else
      var rest := Insert(x, s[1..]);
      assert s == [s[0]] + s[1..];
      InsertLowerBound(s[0], x, s[1..], rest);
      ConsSorted(s[0], rest);
      [s[0]] + rest
  }

  lemma ConsSorted(x: int, t: seq<int>)
    requires IsSorted(t) && (t == [] || x <= t[0])
    ensures IsSorted([x] + t)
  {
  }

  lemma InsertLowerBound(lo: int, x: int, s: seq<int>, r: seq<int>)
    requires lo <= x && forall i :: 0 <= i < |s| ==> lo <= s[i]
    requires multiset(r) == multiset(s) + multiset{x}
    ensures forall i :: 0 <= i < |r| ==> lo <= r[i]
  {
    forall i | 0 <= i < |r| ensures lo <= r[i] {
      assert r[i] in multiset(r);
      if r[i] != x {
        assert r[i] in multiset(s);
      }
    }
  }

  /** `sorted(s)`: the elements of `s` in ascending order. */
  function Sort(s: seq<int>): (r: seq<int>)
    ensures |r| == |s|
    ensures IsSorted(r) && multiset(r) == multiset(s)
  {
    if s == [] then []
    else
      assert s == [s[0]] + s[1..];
      Insert(s[0], Sort(s[1..]))
  }

  /** `statistics.median(s)`: the middle element of the sorted list when
      its length is odd, the average of the two middle elements when it
      is even. */
  function Median(s: seq<int>): (m: real)
    requires |s| > 0
    ensures Min(s) as real <= m <= Max(s) as real
  {
    SortedBounds(s);
    MiddleBounds(Sort(s), Min(s), Max(s));
    Middle(Sort(s))
  }

  /** The middle of a non-empty ascending list: its middle element, or the
      average of its two middle elements. */
  function Middle(t: seq<int>): real
    requires |t| > 0
  {
    var h := |t| / 2;
    if |t| % 2 == 1 then t[h] as real
    else (t[h - 1] + t[h]) as real / 2.0
  }

  lemma MiddleBounds(t: seq<int>, lo: int, hi: int)
    requires |t| > 0 && forall k :: 0 <= k < |t| ==> lo <= t[k] <= hi
    ensures lo as real <= Middle(t) <= hi as real
  {
  }

  /** `statistics.mean(s)`: the sum divided by the count. */
  function Mean(s: seq<int>): (m: real)
    requires |s| > 0
    ensures Min(s) as real <= m <= Max(s) as real
  {
    MeanFacts(s);
    Sum(s) as real / |s| as real
  }

  // ---------------------------------------------------------------------

  /** Every element of the sorted list lies between the minimum and the
      maximum, and the sorted list is as long as the input. */
  lemma SortedBounds(s: seq<int>)
    requires |s| > 0
    ensures |Sort(s)| == |s|
    ensures forall k :: 0 <= k < |s| ==> Min(s) <= Sort(s)[k] <= Max(s)
  {
    var t := Sort(s);
    assert |t| == |multiset(t)| == |multiset(s)| == |s|;
    forall k | 0 <= k < |t| ensures Min(s) <= t[k] <= Max(s) {
      assert t[k] in multiset(t);
      assert t[k] in s;
    }
  }

  lemma MeanFacts(s: seq<int>)
    requires |s| > 0
    ensures Min(s) as real <= Sum(s) as real / |s| as real <= Max(s) as real
  {
    SumBounds(s);
    DivideBounds(Sum(s), Min(s), Max(s), |s|);
  }

  /** The sum of `n` values lies between `n` times their minimum and `n`
      times their maximum. */
  lemma SumBounds(s: seq<int>)
    requires |s| > 0
    ensures |s| * Min(s) <= Sum(s) <= |s| * Max(s)
  {
    SumBetween(s, Min(s), Max(s));
  }

  lemma {:induction false} SumBetween(s: seq<int>, lo: int, hi: int)
    requires forall i :: 0 <= i < |s| ==> lo <= s[i] <= hi
    ensures |s| * lo <= Sum(s) <= |s| * hi
  {
    if s != [] {
      SumBetween(s[1..], lo, hi);
      assert |s| * lo == (|s| - 1) * lo + lo;
      assert |s| * hi == (|s| - 1) * hi + hi;
    }
  }

  /** From `n * lo <= total <= n * hi` to `lo <= total / n <= hi`. */
  lemma DivideBounds(total: int, lo: int, hi: int, n: nat)
    requires n > 0 && n * lo <= total <= n * hi
    ensures lo as real <= total as real / n as real <= hi as real
  {
    var q := total as real / n as real;
    assert q * n as real == total as real;
    assert (n * lo) as real == n as real * lo as real;
    assert (n * hi) as real == n as real * hi as real;
  }

  /** Two ascending lists with the same elements are the same list: the
      sorted order is unique. */
  lemma {:induction false} SortedUnique(a: seq<int>, b: seq<int>)
    requires IsSorted(a) && IsSorted(b) && multiset(a) == multiset(b)
    ensures a == b
  {
    assert |a| == |multiset(a)| == |multiset(b)| == |b|;
    if a != [] {
      assert a[0] in multiset(b);
      assert b[0] in multiset(a);
      assert b[0] <= a[0] by { var j :| 0 <= j < |b| && b[j] == a[0]; }
      assert a[0] <= b[0] by { var j :| 0 <= j < |a| && a[j] == b[0]; }
      RemoveFirst(a);
      RemoveFirst(b);
      SortedUnique(a[1..], b[1..]);
    }
  }

  /** Where the first element of `a` sits in a permutation `b` of it, and
      what is left of both once it is taken out. */
  lemma PickFirst<T>(a: seq<T>, b: seq<T>) returns (j: nat)
    requires a != [] && multiset(a) == multiset(b)
    ensures j < |b| && b[j] == a[0]
    ensures multiset(a[1..]) == multiset(b[..j] + b[j + 1..])
    ensures b == b[..j] + [b[j]] + b[j + 1..]
  {
    assert a[0] in multiset(b);
    j :| 0 <= j < |b| && b[j] == a[0];
    RemoveAt(b, j);
    RemoveFirst(a);
  }

  lemma RemoveAt<T>(b: seq<T>, j: nat)
    requires j < |b|
    ensures multiset(b[..j] + b[j + 1..]) == multiset(b) - multiset{b[j]}
  {
    assert b == b[..j] + [b[j]] + b[j + 1..];
  }

  lemma RemoveFirst<T>(a: seq<T>)
    requires a != []
    ensures multiset(a[1..]) == multiset(a) - multiset{a[0]}
  {
    assert a == [a[0]] + a[1..];
  }

  /** Sorting depends only on the multiset of values. */
  lemma SortOrderFree(a: seq<int>, b: seq<int>)
    requires multiset(a) == multiset(b)
    ensures Sort(a) == Sort(b)
  {
    SortedUnique(Sort(a), Sort(b));
  }

  /** The median of an already ascending list is its middle. */
  lemma MedianOfSorted(t: seq<int>)
    requires |t| > 0 && IsSorted(t)
    ensures Median(t) == Middle(t)
  {
    SortSorted(t);
  }

  /** An already ascending list sorts to itself. */
  lemma SortSorted(s: seq<int>)
    requires IsSorted(s)
    ensures Sort(s) == s
  {
    SortedUnique(Sort(s), s);
  }

  lemma {:induction false} SumAppend(a: seq<int>, b: seq<int>)
    ensures Sum(a + b) == Sum(a) + Sum(b)
  {
    if a == [] {
      assert a + b == b;
    } else {
      assert (a + b)[1..] == a[1..] + b;
      SumAppend(a[1..], b);
    }
  }

  /** The sum depends only on the multiset of values. */
  lemma {:induction false} SumOrderFree(a: seq<int>, b: seq<int>)
    requires multiset(a) == multiset(b)
    ensures Sum(a) == Sum(b)
    decreases |a|
  {
    if a != [] {
      var j := PickFirst(a, b);
      var rest := b[..j] + b[j + 1..];
      SumOrderFree(a[1..], rest);
      SumAppend(b[..j] + [b[j]], b[j + 1..]);
      SumAppend(b[..j], [b[j]]);
      SumAppend(b[..j], b[j + 1..]);
    }
  }

  /** Min, max, median and mean are all unchanged by reordering the
      sample. */
  lemma StatisticsOrderFree(a: seq<int>, b: seq<int>)
    requires |a| > 0 && multiset(a) == multiset(b)
    ensures |b| == |a|
    ensures Min(a) == Min(b) && Max(a) == Max(b)
    ensures Median(a) == Median(b) && Mean(a) == Mean(b)
  {
    assert |a| == |multiset(a)| == |multiset(b)| == |b|;
    ExtremesOrderFree(a, b);
    MedianOrderFree(a, b);
    MeanOrderFree(a, b);
  }

  lemma MedianOrderFree(a: seq<int>, b: seq<int>)
    requires |a| > 0 && |b| > 0 && multiset(a) == multiset(b)
    ensures Median(a) == Median(b)
  {
    SortOrderFree(a, b);
  }

  lemma MeanOrderFree(a: seq<int>, b: seq<int>)
    requires |a| > 0 && |b| == |a| && multiset(a) == multiset(b)
    ensures Mean(a) == Mean(b)
  {
    SumOrderFree(a, b);
  }

  lemma ExtremesOrderFree(a: seq<int>, b: seq<int>)
    requires |a| > 0 && |b| > 0 && multiset(a) == multiset(b)
    ensures Min(a) == Min(b) && Max(a) == Max(b)
  {
    assert Min(a) in multiset(b) && Min(b) in multiset(a);
    assert Max(a) in multiset(b) && Max(b) in multiset(a);
    var i :| 0 <= i < |b| && b[i] == Min(a);
    var j :| 0 <= j < |a| && a[j] == Min(b);
    var k :| 0 <= k < |b| && b[k] == Max(a);
    var l :| 0 <= l < |a| && a[l] == Max(b);
  }

  /** For an odd count, at most half of the values lie strictly below the
      median and at most half strictly above it: the median is a middle
      value in the sense of rank. */
  lemma MedianRank(s: seq<int>)
    requires |s| % 2 == 1
    ensures var m := Sort(s)[|s| / 2];
      && Median(s) == m as real
      && CountBelow(s, m) <= |s| / 2
      && CountAbove(s, m) <= |s| / 2
  {
    var t := Sort(s);
    var h := |s| / 2;
    CountBelowOrderFree(s, t, t[h]);
    CountAboveOrderFree(s, t, t[h]);
    SortedRank(t, h);
  }

  /** For an even, non-zero count, the median is the average of the two
      middle values of any ascending arrangement `t` of the sample (such
      as `Sort(s)`), the lower one first. */
  lemma MedianEven(s: seq<int>, t: seq<int>)
    requires |s| > 0 && |s| % 2 == 0
    requires IsSorted(t) && multiset(t) == multiset(s)
    ensures |t| == |s|
    ensures t[|s| / 2 - 1] <= t[|s| / 2]
    ensures Median(s) == (t[|s| / 2 - 1] + t[|s| / 2]) as real / 2.0
  {
    assert |t| == |multiset(t)| == |multiset(s)| == |s|;
    var h := |s| / 2;
    assert h + h == |s|;
    MedianOrderFree(s, t);
    MedianOfSorted(t);
    MiddleEven(t, h);
  }

  /** For an even count, fewer than half of the values lie below the lower
      middle value of any ascending arrangement `t` of them (such as
      `Sort(s)`), and fewer than half above the upper one. */
  lemma RankEven(s: seq<int>, t: seq<int>)
    requires |s| > 0 && |s| % 2 == 0
    requires IsSorted(t) && multiset(t) == multiset(s)
    ensures |t| == |s|
    ensures CountBelow(s, t[|s| / 2 - 1]) < |s| / 2
    ensures CountAbove(s, t[|s| / 2]) < |s| / 2
  {
    assert |t| == |multiset(t)| == |multiset(s)| == |s|;
    var h := |s| / 2;
    assert h + h == |s|;
    CountBelowOrderFree(s, t, t[h - 1]);
    SortedRank(t, h - 1);
    CountAboveOrderFree(s, t, t[h]);
    SortedRank(t, h);
  }

  lemma MiddleEven(t: seq<int>, h: nat)
    requires h > 0 && |t| == h + h && IsSorted(t)
    ensures t[h - 1] <= t[h]
    ensures Middle(t) == (t[h - 1] + t[h]) as real / 2.0
  {
    assert |t| / 2 == h && |t| % 2 == 0;
  }

  /** In an ascending list, at most `h` values lie below the one at index
      `h` and at most `|t| - 1 - h` above it. */
  lemma SortedRank(t: seq<int>, h: nat)
    requires IsSorted(t) && h < |t|
    ensures CountBelow(t, t[h]) <= h
    ensures CountAbove(t, t[h]) <= |t| - 1 - h
  {
    SortedRankBelow(t, h);
    SortedRankAbove(t, h);
  }

  lemma SortedRankBelow(t: seq<int>, h: nat)
    requires IsSorted(t) && h < |t|
    ensures CountBelow(t, t[h]) <= h
  {
    var m := t[h];
    assert t == t[..h] + t[h..];
    CountBelowAppend(t[..h], t[h..], m);
    CountBelowNone(t[h..], m);
    CountBelowAtMost(t[..h], m);
  }

  lemma SortedRankAbove(t: seq<int>, h: nat)
    requires IsSorted(t) && h < |t|
    ensures CountAbove(t, t[h]) <= |t| - 1 - h
  {
    var m := t[h];
    assert t == t[..h + 1] + t[h + 1..];
    CountAboveAppend(t[..h + 1], t[h + 1..], m);
    CountAboveNone(t[..h + 1], m);
    CountAboveAtMost(t[h + 1..], m);
  }

  /** How many values lie strictly below / above `m`. */
  function CountBelow(s: seq<int>, m: int): nat {
    if s == [] then 0 else (if s[0] < m then 1 else 0) + CountBelow(s[1..], m)
  }

  function CountAbove(s: seq<int>, m: int): nat {
    if s == [] then 0 else (if s[0] > m then 1 else 0) + CountAbove(s[1..], m)
  }

  lemma {:induction false} CountBelowAppend(a: seq<int>, b: seq<int>, m: int)
    ensures CountBelow(a + b, m) == CountBelow(a, m) + CountBelow(b, m)
  {
    if a == [] {
      assert a + b == b;
    } else {
      assert (a + b)[1..] == a[1..] + b;
      CountBelowAppend(a[1..], b, m);
    }
  }

  lemma {:induction false} CountAboveAppend(a: seq<int>, b: seq<int>, m: int)
    ensures CountAbove(a + b, m) == CountAbove(a, m) + CountAbove(b, m)
  {
    if a == [] {
      assert a + b == b;
    } else {
      assert (a + b)[1..] == a[1..] + b;
      CountAboveAppend(a[1..], b, m);
    }
  }

  lemma {:induction false} CountBelowAtMost(s: seq<int>, m: int)
    ensures CountBelow(s, m) <= |s|
  {
    if s != [] { CountBelowAtMost(s[1..], m); }
  }

  lemma {:induction false} CountAboveAtMost(s: seq<int>, m: int)
    ensures CountAbove(s, m) <= |s|
  {
    if s != [] { CountAboveAtMost(s[1..], m); }
  }

  lemma {:induction false} CountBelowNone(s: seq<int>, m: int)
    requires forall i :: 0 <= i < |s| ==> m <= s[i]
    ensures CountBelow(s, m) == 0
  {
    if s != [] { CountBelowNone(s[1..], m); }
  }

  lemma {:induction false} CountAboveNone(s: seq<int>, m: int)
    requires forall i :: 0 <= i < |s| ==> s[i] <= m
    ensures CountAbove(s, m) == 0
  {
    if s != [] { CountAboveNone(s[1..], m); }
  }

  lemma {:induction false} CountBelowOrderFree(a: seq<int>, b: seq<int>, m: int)
    requires multiset(a) == multiset(b)
    ensures CountBelow(a, m) == CountBelow(b, m)
    decreases |a|
  {
    if a != [] {
      var j := PickFirst(a, b);
      var rest := b[..j] + b[j + 1..];
      CountBelowOrderFree(a[1..], rest, m);
      CountBelowAppend(b[..j] + [b[j]], b[j + 1..], m);
      CountBelowAppend(b[..j], [b[j]], m);
      CountBelowAppend(b[..j], b[j + 1..], m);
    }
  }

  lemma {:induction false} CountAboveOrderFree(a: seq<int>, b: seq<int>, m: int)
    requires multiset(a) == multiset(b)
    ensures CountAbove(a, m) == CountAbove(b, m)
    decreases |a|
  {
    if a != [] {
      var j := PickFirst(a, b);
      var rest := b[..j] + b[j + 1..];
      CountAboveOrderFree(a[1..], rest, m);
      CountAboveAppend(b[..j] + [b[j]], b[j + 1..], m);
      CountAboveAppend(b[..j], [b[j]], m);
      CountAboveAppend(b[..j], b[j + 1..], m);
    }
  }
}
