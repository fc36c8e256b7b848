/** The standings ranker (`Sorter`): the team comparator and the two in-place sorts over the
    vector of teams. */
module Sorter {
  import opened Records

  /** `compareTeams`: negative when `a` ranks above `b`, positive when below, zero when the two
      agree on points, goal difference and goals scored. */
  function CompareTeams(a: Team, b: Team): (c: int)
    ensures c < 0 <==> Outranks(a, b)
    ensures c > 0 <==> Outranks(b, a)
  {
    if a.points != b.points then b.points - a.points
    else if GoalDifference(a) != GoalDifference(b) then GoalDifference(b) - GoalDifference(a)
    else b.goalsScored - a.goalsScored
  }

  /** The ranking order written out: more points, then a better goal difference, then more
      goals scored. */
  predicate Outranks(a: Team, b: Team)
  {
    || a.points > b.points
    || (a.points == b.points && GoalDifference(a) > GoalDifference(b))
    || (a.points == b.points && GoalDifference(a) == GoalDifference(b) && a.goalsScored > b.goalsScored)
  }

  /** The three ranking keys agree. */
  predicate SameRank(a: Team, b: Team)
  {
    a.points == b.points && GoalDifference(a) == GoalDifference(b) && a.goalsScored == b.goalsScored
  }

  /** The comparator is zero exactly on a tie of all three keys; swapping the arguments negates it. */
  lemma CompareTeamsMeaning(a: Team, b: Team)
    ensures CompareTeams(a, b) == 0 <==> SameRank(a, b)
    ensures CompareTeams(b, a) == -CompareTeams(a, b)
  {
  }

  /** "Ranks no lower than" is transitive. */
  lemma CompareTeamsTransitive(a: Team, b: Team, c: Team)
    requires CompareTeams(a, b) <= 0 && CompareTeams(b, c) <= 0
    ensures CompareTeams(a, c) <= 0
  {
  }

  /** Every team ranks no lower than every team after it. */
  predicate Sorted(s: seq<Team>)
  {
    forall i, j {:trigger CompareTeams(s[i], s[j])} :: 0 <= i < j < |s| ==> CompareTeams(s[i], s[j]) <= 0
  }

  /** The adjacent-pair form of sortedness. */
  lemma SortedAdjacent(s: seq<Team>, i: int)
    requires Sorted(s) && 0 <= i && i + 1 < |s|
    ensures CompareTeams(s[i], s[i + 1]) <= 0
  {
  }

  /** A sorted list that ranks no lower than a pivot, the pivot, and a sorted list that ranks no
      higher than it, together are sorted. */
  lemma SortedAroundPivot(left: seq<Team>, pivot: Team, right: seq<Team>)
    requires Sorted(left) && Sorted(right)
    requires forall x :: x in left ==> CompareTeams(x, pivot) < 0
    requires forall y :: y in right ==> CompareTeams(y, pivot) >= 0
    ensures Sorted(left + [pivot] + right)
  {
    var s := left + [pivot] + right;
    forall i, j | 0 <= i < j < |s|
      ensures CompareTeams(s[i], s[j]) <= 0
    {
      if i < |left| && j > |left| {
        assert s[i] in left && s[j] in right;
        CompareTeamsMeaning(s[j], pivot);
        CompareTeamsTransitive(s[i], pivot, s[j]);
      } else if i < |left| {
        assert s[i] == left[i];
        if j < |left| {
          assert s[j] == left[j];
        }
      } else if i == |left| {
        assert s[j] in right;
        CompareTeamsMeaning(s[j], pivot);
      } else {
        assert s[i] == right[i - |left| - 1] && s[j] == right[j - |left| - 1];
      }
    }
  }

  /** `std::swap` of two elements of the vector (possibly the same one). */
  method Swap(a: array<Team>, i: int, j: int)
    requires 0 <= i < a.Length && 0 <= j < a.Length
    modifies a
    ensures a[..] == Swapped(old(a[..]), i, j)
  {
    a[i], a[j] := a[j], a[i];
  }

  function Swapped(s: seq<Team>, i: int, j: int): seq<Team>
    requires 0 <= i < |s| && 0 <= j < |s|
  {
    s[i := s[j]][j := s[i]]
  }

  lemma SwappedPermutes(s: seq<Team>, i: int, j: int)
    requires 0 <= i < |s| && 0 <= j < |s|
    ensures multiset(Swapped(s, i, j)) == multiset(s)
  {
  }

  // ---------------------------------------------------------------------------------------------
  // Bubble sort

  /** Positions `m..` hold the lowest-ranked teams, in order, and rank no higher than any team
      before `m`. */
  predicate SettledFrom(s: seq<Team>, m: int)
  {
    && 0 <= m <= |s|
    && (forall k, l {:trigger CompareTeams(s[k], s[l])} :: m <= k < l < |s| ==> CompareTeams(s[k], s[l]) <= 0)
    && (forall k, l {:trigger CompareTeams(s[k], s[l])} :: 0 <= k < m <= l < |s| ==> CompareTeams(s[k], s[l]) <= 0)
  }

  /** The state of a pass over `s[..m]` that has reached `j`: `s[j]` ranks no higher than
      anything before it, and, if nothing has been swapped yet, `s[..j + 1]` is in order. */
  predicate PassAt(s: seq<Team>, m: int, j: int, swapped: bool)
  {
    && SettledFrom(s, m)
    && 0 <= j < m
    && (forall k {:trigger CompareTeams(s[k], s[j])} :: 0 <= k < j ==> CompareTeams(s[k], s[j]) <= 0)
    && (!swapped ==> forall k, l {:trigger CompareTeams(s[k], s[l])} :: 0 <= k < l <= j ==> CompareTeams(s[k], s[l]) <= 0)
  }

  /** One step of a pass: compare `s[j]` with `s[j + 1]` and swap them when out of order. */
  function PassStep(s: seq<Team>, j: int): seq<Team>
    requires 0 <= j && j + 1 < |s|
  {
    if CompareTeams(s[j], s[j + 1]) > 0 then Swapped(s, j, j + 1) else s
  }

  lemma {:induction false} PassStepKeeps(s: seq<Team>, m: int, j: int, swapped: bool)
    requires PassAt(s, m, j, swapped) && j + 1 < m
    ensures PassAt(PassStep(s, j), m, j + 1, swapped || CompareTeams(s[j], s[j + 1]) > 0)
  {
    var t := PassStep(s, j);
    if CompareTeams(s[j], s[j + 1]) > 0 {
      CompareTeamsMeaning(s[j], s[j + 1]);
      assert forall k :: 0 <= k < |s| && k != j && k != j + 1 ==> t[k] == s[k];
    } else {
      forall k | 0 <= k < j
        ensures CompareTeams(s[k], s[j + 1]) <= 0
      {
        CompareTeamsTransitive(s[k], s[j], s[j + 1]);
      }
    }
  }

  /** The first `j` steps of a pass over `start`: the teams they leave and whether they swapped. */
  function PassRun(start: seq<Team>, j: int): (r: (seq<Team>, bool))
    requires 0 <= j < |start|
    ensures |r.0| == |start|
  {
    if j == 0 then (start, false)
    else
      var r := PassRun(start, j - 1);
      (PassStep(r.0, j - 1), r.1 || CompareTeams(r.0[j - 1], r.0[j]) > 0)
  }

  lemma {:induction false} PassRunState(start: seq<Team>, m: int, j: int)
    requires SettledFrom(start, m) && 0 <= j < m
    ensures PassAt(PassRun(start, j).0, m, j, PassRun(start, j).1)
  {
    if j > 0 {
      PassRunState(start, m, j - 1);
      var r := PassRun(start, j - 1);
      PassStepKeeps(r.0, m, j - 1, r.1);
    }
  }

  /** A pass only swaps neighbours, so it permutes the teams. */
  lemma {:induction false} PassRunPermutes(start: seq<Team>, j: int)
    requires 0 <= j < |start|
    ensures multiset(PassRun(start, j).0) == multiset(start)
  {
    if j > 0 {
      PassRunPermutes(start, j - 1);
      var r := PassRun(start, j - 1);
      if CompareTeams(r.0[j - 1], r.0[j]) > 0 {
        SwappedPermutes(r.0, j - 1, j);
      }
      assert PassRun(start, j).0 == PassStep(r.0, j - 1);
    }
  }

  /** A finished pass settles one more place; a pass without a swap leaves everything sorted. */
  lemma PassEnd(s: seq<Team>, m: int, swapped: bool)
    requires PassAt(s, m, m - 1, swapped)
    ensures SettledFrom(s, m - 1)
    ensures !swapped ==> Sorted(s)
  {
  }

  lemma SettledAll(s: seq<Team>, m: int)
    requires SettledFrom(s, m) && m <= 1
    ensures Sorted(s)
  {
  }

  /** `bubbleSortTeams` with its outer loop bound corrected to `i + 1 < n` (see
      `EmptyVectorComparesPastEnd`): passes over a shrinking prefix, swapping neighbours that are
      out of order, and stops early after a pass without a swap. */
  method BubbleSortTeams(a: array<Team>)
    modifies a
    ensures Sorted(a[..])
    ensures multiset(a[..]) == multiset(old(a[..]))
  {
    var n := a.Length;
    var i := 0;
    while i + 1 < n
      invariant 0 <= i && (n == 0 || i < n)
      invariant SettledFrom(a[..], n - i)
      invariant multiset(a[..]) == multiset(old(a[..]))
    {
      var swapped := BubblePass(a, n - i);
      PassEnd(a[..], n - i, swapped);
      if !swapped {
        return;
      }
      i := i + 1;
    }
    SettledAll(a[..], n - i);
  }

  /** One pass of the inner loop of `bubbleSortTeams` over `a[..m]`; reports whether it swapped. */
  method BubblePass(a: array<Team>, m: int) returns (swapped: bool)
    requires SettledFrom(a[..], m) && 1 <= m
    modifies a
    ensures PassAt(a[..], m, m - 1, swapped)
    ensures multiset(a[..]) == multiset(old(a[..]))
  {
    swapped := false;
    var j := 0;
    ghost var start := a[..];
    while j < m - 1
      invariant 0 <= j < m
      invariant (a[..], swapped) == PassRun(start, j)
    {
      if CompareTeams(a[j], a[j + 1]) > 0 {
        Swap(a, j, j + 1);
        swapped := true;
      }
      j := j + 1;
    }
    PassRunState(start, m, j);
    PassRunPermutes(start, j);
  }

  /** `size_t` subtraction: wraps around modulo 2^64. */
  function SizeSub(x: nat, y: nat): nat
  {
    (x - y) % 0x1_0000_0000_0000_0000
  }

  /** The outer loop test of `bubbleSortTeams` as written: `i < teams.size() - 1` on `size_t`. */
  predicate OuterTestAsWritten(n: nat, i: nat)
  {
    i < SizeSub(n, 1)
  }

  /** The inner loop test as written: `j < teams.size() - i - 1` on `size_t`. */
  predicate InnerTestAsWritten(n: nat, i: nat, j: nat)
  {
    j < SizeSub(SizeSub(n, i), 1)
  }

  /** On an empty vector both loop tests of `bubbleSortTeams` as written pass, so its first step
      compares `teams[0]` with `teams[1]`, neither of which exists. */
  lemma EmptyVectorComparesPastEnd()
    ensures OuterTestAsWritten(0, 0) && InnerTestAsWritten(0, 0, 0)
    ensures SizeSub(0, 1) == 0xFFFF_FFFF_FFFF_FFFF
    ensures !(0 + 1 < 0)
  {
  }

  /** On a non-empty vector the tests as written are the ones `BubbleSortTeams` uses. */
  lemma TestsAgreeWhenNonEmpty(n: nat, i: nat, j: nat)
    requires 0 < n < 0x1_0000_0000_0000_0000 && i < n
    ensures OuterTestAsWritten(n, i) <==> i + 1 < n
    ensures i + 1 < n ==> (InnerTestAsWritten(n, i, j) <==> j < n - i - 1)
  {
  }

  // ---------------------------------------------------------------------------------------------
  // Quick sort

  /** `t` is `s` with the segment `s[lo..hi]` permuted and everything else untouched. */
  ghost predicate Rearranged(s: seq<Team>, t: seq<Team>, lo: int, hi: int)
  {
    && 0 <= lo <= hi <= |s| == |t|
    && s[..lo] == t[..lo] && s[hi..] == t[hi..]
    && multiset(s) == multiset(t)
  }

  lemma RearrangedRefl(s: seq<Team>, lo: int, hi: int)
    requires 0 <= lo <= hi <= |s|
    ensures Rearranged(s, s, lo, hi)
  {
  }

  lemma RearrangedTrans(s: seq<Team>, t: seq<Team>, u: seq<Team>, lo: int, hi: int)
    requires Rearranged(s, t, lo, hi) && Rearranged(t, u, lo, hi)
    ensures Rearranged(s, u, lo, hi)
  {
  }

  /** Rearranging a segment rearranges every segment around it. */
  lemma RearrangedWiden(s: seq<Team>, t: seq<Team>, lo: int, hi: int, lo': int, hi': int)
    requires Rearranged(s, t, lo, hi) && 0 <= lo' <= lo && hi <= hi' <= |s|
    ensures Rearranged(s, t, lo', hi')
  {
    assert s[..lo'] == s[..lo][..lo'] && t[..lo'] == t[..lo][..lo'];
    assert s[hi'..] == s[hi..][hi' - hi..] && t[hi'..] == t[hi..][hi' - hi..];
  }

  /** The rearranged segment holds the same teams as before. */
  lemma RearrangedSameTeams(s: seq<Team>, t: seq<Team>, lo: int, hi: int)
    requires Rearranged(s, t, lo, hi)
    ensures forall x :: x in t[lo..hi] <==> x in s[lo..hi]
  {
    assert s == s[..lo] + s[lo..hi] + s[hi..];
    assert t == t[..lo] + t[lo..hi] + t[hi..];
    assert multiset(s) == multiset(s[..lo]) + multiset(s[lo..hi]) + multiset(s[hi..]);
    assert multiset(t) == multiset(t[..lo]) + multiset(t[lo..hi]) + multiset(t[hi..]);
    forall x
      ensures multiset(s[lo..hi])[x] == multiset(t[lo..hi])[x]
    {
      assert multiset(s)[x] == multiset(s[..lo])[x] + multiset(s[lo..hi])[x] + multiset(s[hi..])[x];
      assert multiset(t)[x] == multiset(t[..lo])[x] + multiset(t[lo..hi])[x] + multiset(t[hi..])[x];
    }
    assert multiset(s[lo..hi]) == multiset(t[lo..hi]);
    forall x
      ensures x in t[lo..hi] <==> x in s[lo..hi]
    {
      assert x in t[lo..hi] <==> x in multiset(t[lo..hi]);
      assert x in s[lo..hi] <==> x in multiset(s[lo..hi]);
    }
  }

  lemma SwappedRearranges(s: seq<Team>, i: int, j: int, lo: int, hi: int)
    requires 0 <= lo <= i < hi <= |s| && lo <= j < hi
    ensures Rearranged(s, Swapped(s, i, j), lo, hi)
  {
    SwappedPermutes(s, i, j);
    var t := Swapped(s, i, j);
    assert s[..lo] == t[..lo];
    assert s[hi..] == t[hi..];
  }

  /** The state of `partition` before examining `s[j]`: `s[lo..i + 1]` ranks strictly above the
      pivot and `s[i + 1..j]` does not. */
  predicate PartitionedUpTo(s: seq<Team>, lo: int, i: int, j: int, pivot: Team)
  {
    && 0 <= lo && lo - 1 <= i < j <= |s|
    && (forall k {:trigger CompareTeams(s[k], pivot)} :: lo <= k <= i ==> CompareTeams(s[k], pivot) < 0)
    && (forall k {:trigger CompareTeams(s[k], pivot)} :: i < k < j ==> CompareTeams(s[k], pivot) >= 0)
  }

  /** One step of the `partition` loop: `s[j]` joins the front part when it ranks above the pivot. */
  function PartitionNext(s: seq<Team>, i: int, j: int, pivot: Team): seq<Team>
    requires 0 <= i + 1 <= j < |s|
  {
    if CompareTeams(s[j], pivot) < 0 then Swapped(s, i + 1, j) else s
  }

  lemma PartitionStep(s: seq<Team>, lo: int, i: int, j: int, pivot: Team)
    requires PartitionedUpTo(s, lo, i, j, pivot) && j < |s|
    ensures PartitionedUpTo(PartitionNext(s, i, j, pivot), lo,
                            if CompareTeams(s[j], pivot) < 0 then i + 1 else i, j + 1, pivot)
  {
    if CompareTeams(s[j], pivot) < 0 {
      var t := Swapped(s, i + 1, j);
      forall k | lo <= k <= i + 1
        ensures CompareTeams(t[k], pivot) < 0
      {
        if k == i + 1 {
          assert t[k] == s[j];
        } else {
          assert t[k] == s[k];
        }
      }
      forall k | i + 1 < k < j + 1
        ensures CompareTeams(t[k], pivot) >= 0
      {
        if k == j {
          assert t[k] == s[i + 1];
        } else {
          assert t[k] == s[k];
        }
      }
    }
  }

  /** `s[p]` splits `s[lo..hi + 1]`: the teams before it rank strictly above it and the teams
      after it do not. */
  predicate SplitAt(s: seq<Team>, lo: int, p: int, hi: int)
  {
    && 0 <= lo <= p <= hi < |s|
    && (forall k {:trigger CompareTeams(s[k], s[p])} :: lo <= k < p ==> CompareTeams(s[k], s[p]) < 0)
    && (forall k {:trigger CompareTeams(s[k], s[p])} :: p < k <= hi ==> CompareTeams(s[k], s[p]) >= 0)
  }

  /** The `partition` loop run over `start[lo..j]`: the teams it leaves and its index `i`. */
  function PartitionRun(start: seq<Team>, lo: int, j: int, pivot: Team): (r: (seq<Team>, int))
    requires 0 <= lo <= j <= |start|
    ensures |r.0| == |start| && lo - 1 <= r.1 < j
    decreases j - lo
  {
    if j == lo then (start, lo - 1)
    else
      var r := PartitionRun(start, lo, j - 1, pivot);
      (PartitionNext(r.0, r.1, j - 1, pivot), if CompareTeams(r.0[j - 1], pivot) < 0 then r.1 + 1 else r.1)
  }

  /** After any number of steps the loop has split what it examined around the pivot. */
  lemma {:induction false} PartitionRunSplits(start: seq<Team>, lo: int, j: int, pivot: Team)
    requires 0 <= lo <= j <= |start|
    ensures PartitionedUpTo(PartitionRun(start, lo, j, pivot).0, lo, PartitionRun(start, lo, j, pivot).1, j, pivot)
    decreases j - lo
  {
    if j > lo {
      PartitionRunSplits(start, lo, j - 1, pivot);
      var r := PartitionRun(start, lo, j - 1, pivot);
      PartitionStep(r.0, lo, r.1, j - 1, pivot);
    }
  }

  /** ... and has only permuted the teams it examined. */
  lemma {:induction false} PartitionRunRearranges(start: seq<Team>, lo: int, j: int, hi: int, pivot: Team)
    requires 0 <= lo <= j <= hi < |start|
    ensures Rearranged(start, PartitionRun(start, lo, j, pivot).0, lo, j)
    decreases j - lo
  {
    if j == lo {
      RearrangedRefl(start, lo, lo);
    } else {
      PartitionRunRearranges(start, lo, j - 1, hi, pivot);
      var r := PartitionRun(start, lo, j - 1, pivot);
      RearrangedWiden(start, r.0, lo, j - 1, lo, j);
      if CompareTeams(r.0[j - 1], pivot) < 0 {
        SwappedRearranges(r.0, r.1 + 1, j - 1, lo, j);
        RearrangedTrans(start, r.0, PartitionRun(start, lo, j, pivot).0, lo, j);
      }
    }
  }

  /** The final swap of `partition` puts the pivot between the two parts. */
  lemma PartitionEnd(s: seq<Team>, lo: int, i: int, hi: int, pivot: Team)
    requires PartitionedUpTo(s, lo, i, hi, pivot) && hi < |s| && s[hi] == pivot
    ensures var t := Swapped(s, i + 1, hi); t[i + 1] == pivot && SplitAt(t, lo, i + 1, hi)
  {
    var t := Swapped(s, i + 1, hi);
    forall k | lo <= k < i + 1
      ensures CompareTeams(t[k], pivot) < 0
    {
      assert t[k] == s[k];
    }
    forall k | i + 1 < k <= hi
      ensures CompareTeams(t[k], pivot) >= 0
    {
      if k == hi {
        assert t[k] == s[i + 1];
      } else {
        assert t[k] == s[k];
      }
    }
  }

  /** What `partition` on `s[lo..hi + 1]` leaves, and the pivot's final place: the loop, then the
      swap of the pivot `s[hi]` into the place after the front part. */
  function PartitionOf(s: seq<Team>, lo: int, hi: int): (seq<Team>, int)
    requires 0 <= lo <= hi < |s|
  {
    var r := PartitionRun(s, lo, hi, s[hi]);
    (Swapped(r.0, r.1 + 1, hi), r.1 + 1)
  }

  /** `partition` leaves the pivot at `p`, splitting the segment ... */
  lemma PartitionSplits(s: seq<Team>, lo: int, hi: int)
    requires 0 <= lo <= hi < |s|
    ensures var (t, p) := PartitionOf(s, lo, hi); lo <= p <= hi && t[p] == s[hi] && SplitAt(t, lo, p, hi)
  {
    var r := PartitionRun(s, lo, hi, s[hi]);
    PartitionRunSplits(s, lo, hi, s[hi]);
    PartitionRunRearranges(s, lo, hi, hi, s[hi]);
    assert r.0[hi] == r.0[hi..][0] == s[hi..][0];
    PartitionEnd(r.0, lo, r.1, hi, s[hi]);
  }

  /** ... and only permutes the segment. */
  lemma PartitionRearranges(s: seq<Team>, lo: int, hi: int)
    requires 0 <= lo <= hi < |s|
    ensures Rearranged(s, PartitionOf(s, lo, hi).0, lo, hi + 1)
  {
    var r := PartitionRun(s, lo, hi, s[hi]);
    PartitionRunRearranges(s, lo, hi, hi, s[hi]);
    RearrangedWiden(s, r.0, lo, hi, lo, hi + 1);
    SwappedRearranges(r.0, r.1 + 1, hi, lo, hi + 1);
    RearrangedTrans(s, r.0, Swapped(r.0, r.1 + 1, hi), lo, hi + 1);
  }

  /** `partition` (Lomuto, the last element as pivot), in place. */
  method Partition(a: array<Team>, low: int, high: int) returns (p: int)
    requires 0 <= low <= high < a.Length
    modifies a
    ensures (a[..], p) == PartitionOf(old(a[..]), low, high)
  {
    var pivot := a[high];
    var i := low - 1;
    ghost var start := a[..];
    for j := low to high
      invariant (a[..], i) == PartitionRun(start, low, j, pivot)
    {
      if CompareTeams(a[j], pivot) < 0 {
        i := i + 1;
        Swap(a, i, j);
      }
    }
    Swap(a, i + 1, high);
    p := i + 1;
  }

  /** Sorting either side of the pivot keeps it splitting the segment. */
  lemma PivotStillSplits(s1: seq<Team>, s2: seq<Team>, s3: seq<Team>, low: int, p: int, high: int)
    requires SplitAt(s1, low, p, high)
    requires Rearranged(s1, s2, low, p) && Rearranged(s2, s3, p + 1, high + 1)
    ensures s3[p] == s1[p]
    ensures forall x :: x in s3[low..p] ==> CompareTeams(x, s1[p]) < 0
    ensures forall y :: y in s3[p + 1..high + 1] ==> CompareTeams(y, s1[p]) >= 0
  {
    RearrangedSameTeams(s1, s2, low, p);
    RearrangedSameTeams(s2, s3, p + 1, high + 1);
    assert s3[..p + 1] == s2[..p + 1];
    assert s3[low..p] == s2[low..p] && s3[p] == s2[p];
    assert s2[p..] == s1[p..];
    assert s2[p + 1..high + 1] == s1[p + 1..high + 1] && s2[p] == s1[p];
    forall x | x in s3[low..p]
      ensures CompareTeams(x, s1[p]) < 0
    {
      var k :| low <= k < p && s1[k] == x;
    }
    forall y | y in s3[p + 1..high + 1]
      ensures CompareTeams(y, s1[p]) >= 0
    {
      var k :| p + 1 <= k < high + 1 && s1[k] == y;
    }
  }

  /** Partitioning and then sorting both sides of the pivot rearranges the whole segment. */
  lemma QuickSortRearranges(s0: seq<Team>, s1: seq<Team>, s2: seq<Team>, s3: seq<Team>, low: int, p: int, high: int)
    requires low <= p <= high
    requires Rearranged(s0, s1, low, high + 1)
    requires Rearranged(s1, s2, low, p) && Rearranged(s2, s3, p + 1, high + 1)
    ensures Rearranged(s0, s3, low, high + 1)
  {
    RearrangedWiden(s1, s2, low, p, low, high + 1);
    RearrangedWiden(s2, s3, p + 1, high + 1, low, high + 1);
    RearrangedTrans(s0, s1, s2, low, high + 1);
    RearrangedTrans(s0, s2, s3, low, high + 1);
  }

  /** Partitioning and then sorting both sides of the pivot sorts the whole segment. */
  lemma QuickSortSorts(s1: seq<Team>, s2: seq<Team>, s3: seq<Team>, low: int, p: int, high: int)
    requires SplitAt(s1, low, p, high)
    requires Rearranged(s1, s2, low, p) && Sorted(s2[low..p])
    requires Rearranged(s2, s3, p + 1, high + 1) && Sorted(s3[p + 1..high + 1])
    ensures Sorted(s3[low..high + 1])
  {
    PivotStillSplits(s1, s2, s3, low, p, high);
    assert s3[low..p] == s2[low..p] by {
      assert s3[..p + 1] == s2[..p + 1];
    }
    SortedAroundPivot(s3[low..p], s3[p], s3[p + 1..high + 1]);
    assert s3[low..high + 1] == s3[low..p] + [s3[p]] + s3[p + 1..high + 1];
  }

  /** One call of `quickSortTeams` on `s0[low..high + 1]`: partition, then sort the teams before
      the pivot (giving `s2`) and the teams after it (giving `s3`). */
  lemma QuickSortStep(s0: seq<Team>, s2: seq<Team>, s3: seq<Team>, low: int, high: int)
    requires 0 <= low < high < |s0|
    requires var (s1, p) := PartitionOf(s0, low, high);
      && Rearranged(s1, s2, low, p) && Sorted(s2[low..p])
      && Rearranged(s2, s3, p + 1, high + 1) && Sorted(s3[p + 1..high + 1])
    ensures Sorted(s3[low..high + 1]) && Rearranged(s0, s3, low, high + 1)
  {
    var (s1, p) := PartitionOf(s0, low, high);
    PartitionSplits(s0, low, high);
    PartitionRearranges(s0, low, high);
    QuickSortSorts(s1, s2, s3, low, p, high);
    QuickSortRearranges(s0, s1, s2, s3, low, p, high);
  }

  /** `quickSortTeams(teams, low, high)`: sorts `a[low..high + 1]` in place. */
  method QuickSortTeams(a: array<Team>, low: int, high: int)
    requires 0 <= low <= high + 1 <= a.Length
    modifies a
    decreases high - low
    ensures Sorted(a[low..high + 1])
    ensures Rearranged(old(a[..]), a[..], low, high + 1)
  {
    if low < high {
      var pi := Partition(a, low, high);
      PartitionSplits(old(a[..]), low, high);
      QuickSortTeams(a, low, pi - 1);
      ghost var s2 := a[..];
      QuickSortTeams(a, pi + 1, high);
      QuickSortStep(old(a[..]), s2, a[..], low, high);
    } else {
      RearrangedRefl(a[..], low, high + 1);
    }
  }
}
